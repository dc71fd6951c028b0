# go-perl runtime proofs

A Dafny model of the host-side runtime of go-perl, the part that keeps C modules, Go state and the
embedded guest Perl in step, with proofs of the properties its comments promise. Run
`dafny verify dfyconfig.toml` to check everything.

Code that changes state is a class whose methods are proved equal to functions on values; the lemmas
over whole runs are about those functions. Concurrent code is a state machine over its atomic steps,
and its lemmas hold after every interleaving.

| file | what it models |
|---|---|
| `Activation.dfy` | XSUB entry, XSRETURN, bare return, croak and the dispatch epilogue over the host save-stack |
| `FrameTable.dfy` | the per-thread current-frame table with its compare-and-swap |
| `Mirrors.dfy` | write-back mirrors of guest arrays, integers and interpreter variables, and the flush |
| `OpShadows.dfy` | the deduplicating registry of op shadows |
| `SaveStackSlots.dfy` | destructor and SSNEW slots under the guest savestack |
| `Utf8.dfy` | the SDK's UTF-8 byte math |
| `MagicChains.dfy` | MAGIC mirror chains in the C heap, their two maps and their references |
| `PointerRegistry.dfy` | pointers crossing as ids, and clones |
| `Interrupts.dfy` | the cancellation watchdog of guarded calls |
| `ModuleLock.dfy` | the module lock, given up around callbacks |
| `Protobuf.dfy` | the bridge's protobuf writer and reader |
| `Wire.dfy` | value nodes, argument lists and result envelopes |
| `Numify.dfy` | the numeric-prefix scan |
| `PerlArgv.dfy` | the perl(1) command line |
| `CHeap.dfy`, `Endian.dfy`, `Options.dfy`, `Words.dfy` | addresses, little-endian words, an option type, integer widths |

Parameters stand for what the code gets from outside: whether an allocation, a guest operation or a
clock-driven event succeeds or happens, the guest's answers, `strconv.ParseFloat`.

Where code and comments disagree, the code is modelled:

- A croak out of a fresh activation unwinds before it reads the frame's saved fields, so it does not
  restore a caller's activation. `Activation.CroakExact` says exactly when it restores, and
  `Activation.CroakInDirectCall` what a croak inside a direct call does instead
  (xs/sdk/include/perl.h:2293-2296).
- The epilogue closes at most 64 levels (`Activation.DispatchExact`).
- Removing an entry of a MAGIC chain never releases the anchor's object (xs/xs.go:991-993), so
  references can leak (`MagicChains.RemovedCarrierLeaks`). `MagicChains.ConservationExact` says
  exactly when a run releases them all, over all the records its SVs have had. A name whose length
  is not positive as an int32 is copied but not freed (`MagicChains.Loader.CopyGivenBack`).
- A callback's release window does not keep a second goroutine's call nested inside it
  (`ModuleLock.CallbackOvertakes`; internal/perl.go:497-506). `ModuleLock.NestingExact` and
  `ModuleLock.NestingExactFresh` say exactly when it does.
- Overlapping guarded calls can lose an interrupt (`Interrupts.OverlapLosesInterrupt`).
  `Interrupts.TakenExact` says exactly when one is lost and `Interrupts.SafeExact` when an armed
  call's is safe.
- Reading an interpreter variable through its shadow slot makes the flush write it back
  (`Mirrors.ReadIsHarmless`).
- A group of switches that ends in a dash is rejected, while the same switches given separately are
  not (`PerlArgv.SeparateExact`).
- A list result is not checked for overruns: one cut in its status or count decodes as an empty
  list, and one cut in a last bool, int or float node as a list whose last value is 0
  (`Wire.CutBoolAccepted`). `Wire.ListCutExact` says exactly which cuts decode, and to what.
- A token can be handed out for two ops of one activation when the guest frees the first
  (`OpShadows.IdentityExact`).
- The UTF-8 encoder truncates from 0x200000 on (`Utf8.RoundTripExact`), and the decoder accepts stray
  continuation bytes and leads from 0xF8 (`Utf8.EncodeDecode`).

## Model

| member | source | states |
|---|---|---|
| Activation.DispatchExact | xs/sdk/include/perl.h:2231-2308 | after any well-nested run of saves, writes, direct calls, guest calls and scopes, each closed or bare, the epilogue brings back current frame, depth, scope, save-stack and every location the run did not leave uncovered, if and only if at most 64 levels were left open |
| Activation.DispatchRestores | xs/sdk/include/perl.h:3042-3052 | the restoring half, by induction over nested dispatches |
| Activation.SavedRunLeavesNoTrace | xs/sdk/include/perl.h:977-986 | a run that saves each cell before writing it leaves every location of memory as it was |
| Activation.ReturnLevels | xs/sdk/include/perl.h:2272-2308 | between return and epilogue exactly the bare-returned levels of the frame are open |
| Activation.EpilogueCloses | xs/sdk/include/perl.h:3042-3052 | the epilogue closes min(open, 64) levels and counts them |
| Activation.EnterUndone | xs/sdk/include/perl.h:2272-2292 | unwinding to the entry height undoes the three fields an entry changes, and the frame records that height and its predecessor |
| Activation.EnterKeeps | xs/sdk/include/perl.h:2272-2292 | a direct call on the same frame opens one more level above those below it, which stay undoable |
| Activation.LeaveKeeps | xs/sdk/include/perl.h:2231-2271 | leaving closes exactly the top level |
| Activation.ExecKeeps | xs/sdk/include/perl.h:2231-2308 | every stretch of a body opens the levels its bare returns say and closes all others |
| Activation.LeavePopsScope | xs/sdk/include/perl.h:2447-2455 | LEAVE pops exactly the saves made since its ENTER |
| Activation.UnwindCompose | xs/sdk/include/perl.h:977-986 | unwinding in two stages is unwinding at once |
| Activation.CroakExact | xs/sdk/include/perl.h:2293-2296 | a croak caught by a fresh activation reaches the pre-dispatch state if and only if that was a thread at rest with an empty save-stack |
| Activation.CroakAfterRun | xs/sdk/include/perl.h:2256-2296 | the same for a croak at every point of a run, inside any number of ENTERs, at which its direct calls are closed |
| Activation.CroakInDirectCall | xs/sdk/include/perl.h:2293-2304 | a croak with direct calls open never comes back to the level of the call: two levels are closed and one is taken off the depth |
| Activation.CroakLands | xs/sdk/include/perl.h:2291-2292 | at every point of a served run, inside open ENTERs and direct calls and after closed ones, the frame's jump buffer is that of the level opened last and not closed: the dispatch's own while no direct call is open |
| Activation.ExecBuffers | xs/sdk/include/perl.h:2272-2292 | every open level's buffer comes back into the frame when the levels above it are unwound |
| Activation.SavedWidths | xs/sdk/include/perl.h:2279-2285 | at every such point exactly the 32-bit locations are saved as four bytes |
| Activation.ToKeeps | xs/sdk/include/perl.h:2441-2455 | at every point of a served run the levels its entries say are open and every covered location is undoable |
| Activation.XsRuntime.Hostsave | xs/sdk/include/perl.h:2459-2477 | a save records location, value, scope and width on top, or croaks at 256 with nothing changed |
| Activation.XsRuntime.HostsaveUnwindTo | xs/sdk/include/perl.h:977-986 | the loop restores every entry above base, last first, at its width |
| Activation.XsRuntime.Leave | xs/sdk/include/perl.h:2231-2271 | goperl_xs_leave as the level-closing function |
| Activation.XsRuntime.DXsArgs | xs/sdk/include/perl.h:2272-2292 | entry saves base, predecessor and jump buffer before setting them, or croaks part-way |
| Activation.XsRuntime.CroakReturn | xs/sdk/include/perl.h:2293-2296 | the branch after setjmp unwinds, then leaves |
| Activation.XsRuntime.XsEpilogue | xs/sdk/include/perl.h:3042-3052 | the loop as the epilogue function, in every state a dispatch returns in |
| Activation.XsRuntime.LeaveHostScope | xs/sdk/include/perl.h:2447-2455 | LEAVE's pops, each a pointer-wide store |
| FrameTable.SlotsArePrivate | xs/sdk/include/perl.h:573-591 | after every interleaving two calls returned the same slot if and only if one thread made both |
| FrameTable.AbortMeansFull | xs/sdk/include/perl.h:586-590 | a thread aborts only when every slot belongs to another thread |
| FrameTable.AbortNeedsMoreThreads | xs/sdk/include/perl.h:563-590 | no interleaving of up to 512 threads aborts |
| FrameTable.CurrentFrameIsThreadLocal | xs/sdk/include/perl.h:555-595 | the table refines one variable per thread: a read through any slot a call returned is that thread's last store |
| FrameTable.CallsAreWaitFree | xs/sdk/include/perl.h:573-590 | every call ends within 2048 steps of its own thread, which no other thread's step delays |
| FrameTable.CallReturns | xs/sdk/include/perl.h:573-590 | an idle thread's call begins, and a call that ends without aborting has returned one more slot, its thread's own |
| FrameTable.CallEnds | xs/sdk/include/perl.h:573-590 | so whatever the others do a call ends within 2048 steps of its own thread and returns exactly one slot unless it aborts |
| FrameTable.Reachable | xs/sdk/include/perl.h:573-590 | the invariant every interleaving keeps: one slot per thread, no gap before it in its probe sequence |
| FrameTable.ClaimKeeps | xs/sdk/include/perl.h:580-585 | a successful compare-and-swap keeps it |
| Mirrors.FlushMerges | xs/sdk/include/perl.h:1945-1968 | the flush is a three-way merge: a guest cell takes the host's value exactly when the host changed it since the last sync, else keeps its own; an interpreter variable counts as changed once a reference to it was taken |
| Mirrors.ElemReadsBack | xs/sdk/include/perl.h:1889-1901 | an array element the host changed is the low 32 bits of its word in the guest after a flush, the word itself if it is a token |
| Mirrors.ArrayReadsBack | xs/sdk/include/perl.h:1889-1901 | a mirror taken from the guest, with tokens stored into it at any places, is the guest's whole array after a flush, its length included |
| Mirrors.IntegerReadsBack | xs/sdk/include/perl.h:1904-1912 | an integer the host set reads back as set |
| Mirrors.ReadIsHarmless | xs/sdk/include/perl.h:1970-1979 | a reference taken to read an interpreter variable changes no guest cell at the flush, unless the variable has a hook or hints slot with a write pending |
| Mirrors.FlushSettles | xs/sdk/include/perl.h:1945-1968 | after a flush nothing is left to write, so a second one issues no guest write |
| Mirrors.FreshIvIsClean | xs/sdk/include/perl.h:1994-2000 | a newly claimed integer mirror adds nothing to the pending writes |
| Mirrors.FreshIvUnchanged | xs/sdk/include/perl.h:1986-2006 | a flush never writes an integer that had no mirror |
| Mirrors.FreshAvIsClean | xs/sdk/include/perl.h:2016-2022 | nor does a new array mirror add a write |
| Mirrors.MirrorRuntime.SvcurWriteback | xs/sdk/include/perl.h:1316-1324 | writes a changed length once and forgets the slot |
| Mirrors.MirrorRuntime.HintsFlush | xs/sdk/include/perl.h:1947-1951 | writes the hints slot when live and changed, and rebases it |
| Mirrors.MirrorRuntime.HooksFlush | xs/sdk/include/perl.h:1952-1963 | writes each dirty hook once |
| Mirrors.MirrorRuntime.PlShadowFlush | xs/sdk/include/perl.h:1930-1938 | writes exactly the dirty variables, in order, and cleans them |
| Mirrors.MirrorRuntime.IvMirrorFlush | xs/sdk/include/perl.h:1904-1914 | writes exactly the changed integers and syncs their shadows |
| Mirrors.MirrorRuntime.AvMirrorFlush | xs/sdk/include/perl.h:1889-1903 | writes exactly the changed elements and syncs their shadows |
| Mirrors.MirrorRuntime.Flush | xs/sdk/include/perl.h:1945-1968 | performs exactly the pending writes and reaches the settled state |
| Mirrors.MirrorRuntime.DoOp | xs/sdk/include/perl.h:957-965 | a guest operation sees the guest after every pending write |
| Mirrors.MirrorRuntime.PlintRef | xs/sdk/include/perl.h:1972-1979 | reloads a variable unless a write is pending, and marks it dirty |
| Mirrors.MirrorRuntime.IvxRef | xs/sdk/include/perl.h:1986-2006 | the slot holds the guest's value after the flush; taking it leaves an unmirrored integer unwritten; croaks only at 32 mirrors |
| Mirrors.MirrorRuntime.TakeIv | xs/sdk/include/perl.h:1986-1999 | finds the one mirror of the token or claims the next slot |
| Mirrors.MirrorRuntime.AvArray | xs/sdk/include/perl.h:2008-2044 | the returned buffer equals the guest array, with host writes landed first; croaks only at 64 mirrors |
| Mirrors.MirrorRuntime.StoreAndLook | xs/sdk/include/perl.h:1889-1901 | read after write: a module that stores a token into an array and looks at it again sees the array it saw with that token at that place |
| Mirrors.MirrorRuntime.SetAndLook | xs/sdk/include/perl.h:1904-1912 | the same for an integer |
| Mirrors.MirrorRuntime.TakeAv | xs/sdk/include/perl.h:2008-2023 | finds the one mirror of the array or appends one |
| Mirrors.MirrorRuntime.DropMirrors | xs/sdk/include/perl.h:2240-2262 | the outermost leave writes everything pending before it forgets the mirrors |
| OpShadows.IdentityExact | xs/sdk/include/perl.h:2664-2703 | in one outermost activation two requests hand out the same pointer if and only if they name the same token and no new op has got that token between them |
| OpShadows.IdentityHolds | xs/sdk/include/perl.h:2611-2615 | so while no op is created under a token already handed out pointer identity is token identity |
| OpShadows.LongLivedReturns | xs/sdk/include/perl.h:2635-2690 | over whole histories with any clearings, when nothing of a token is handed out since the last one: the shadow registered for it is what is given if and only if the guest confirms it |
| OpShadows.StateSurvives | xs/sdk/include/perl.h:2635-2690 | so a registered shadow is handed out again after any clearings and requests, as long as the guest confirms it whenever asked, no other is registered and no new op gets the token |
| OpShadows.OpRegistry.PointersIdentify | xs/sdk/include/perl.h:2611-2703 | the same for the pointers the registry's own methods have returned since it was last cleared, whatever was called in between |
| OpShadows.OpRegistry.RegisteredReturns | xs/sdk/include/perl.h:2635-2690 | the same for everything the registry's methods have done since it was new |
| OpShadows.StepSound | xs/sdk/include/perl.h:2603-2703 | no request unlinks a shadow, and only a new op under its token takes its place |
| OpShadows.LinkKeeps | xs/sdk/include/perl.h:2664-2703 | linking at the head keeps every bucket acyclic, homed and without duplicate nodes, each linked shadow the first of its token |
| OpShadows.OpRegistry.Find | xs/sdk/include/perl.h:2664-2670 | the bucket walk finds the token's linked shadow, past none older, if and only if there is one |
| OpShadows.OpRegistry.FindKept | xs/sdk/include/perl.h:2671-2690 | the long-lived entry if the guest still runs it; a stale one is dropped |
| OpShadows.OpRegistry.OpShadow | xs/sdk/include/perl.h:2664-2703 | the linked shadow, else the long-lived one relinked, else a fresh one |
| OpShadows.OpRegistry.Link | xs/sdk/include/perl.h:2674-2703 | one more linked token; all others as before, persistent relinks included |
| OpShadows.OpRegistry.OpregClear | xs/sdk/include/perl.h:2616-2633 | unlinks all shadows and frees exactly the listed ones that are not persistent |
| OpShadows.OpRegistry.ClearBucket | xs/sdk/include/perl.h:2616-2630 | the same for one bucket |
| OpShadows.OpRegistry.OpextPut | xs/sdk/include/perl.h:2649-2663 | one entry per token, replaced in place |
| OpShadows.OpRegistry.PeropPpRegister | xs/sdk/include/perl.h:4972-4983 | makes a shadow persistent and its token's long-lived one |
| OpShadows.OpRegistry.NewOpSz | xs/sdk/include/perl.h:5670-5685 | a new op's shadow is persistent and linked, also under the token of an op freed since |
| SaveStackSlots.PlaySound | xs/sdk/include/perl.h:2967-3033 | over every run each registration is pending, fired once or refused by the guest, and never two of these |
| SaveStackSlots.LifetimesNest | xs/sdk/include/perl.h:3110-3115 | of two pending registrations the later fires first, so a block outlives every destructor registered after it |
| SaveStackSlots.SearchMeets | xs/sdk/include/perl.h:2986-2992 | the circular search meets every slot |
| SaveStackSlots.TakeSlot | xs/sdk/include/perl.h:2994-3000 | registering keeps the pending ids distinct, used and tied to what was registered |
| SaveStackSlots.FireSlot | xs/sdk/include/perl.h:3004-3033 | so does firing the last one |
| SaveStackSlots.CoveredPop | xs/sdk/include/perl.h:3128-3135 | a block freed by a destructor is live, and no other pending destructor frees it |
| SaveStackSlots.CoveredBlock | xs/sdk/include/perl.h:3137-3153 | a new block has exactly one pending destructor |
| SaveStackSlots.LeakedBlock | xs/sdk/include/perl.h:3148-3151 | one whose destructor is refused has none |
| SaveStackSlots.Scopes.FreeDtor | xs/sdk/include/perl.h:2985-2993 | the first free slot from the hint on, going round; none if and only if the table is full |
| SaveStackSlots.Scopes.FreeScratch | xs/sdk/include/perl.h:3138-3146 | the same for scratch slots |
| SaveStackSlots.Scopes.SaveDestructorX | xs/sdk/include/perl.h:2983-3000 | croaks if and only if the table is full; else the first free slot holds the destructor, and it is pending if and only if the guest took the entry, which the caller is not told |
| SaveStackSlots.Scopes.SaveDestructor | xs/sdk/include/perl.h:3001-3002 | a module's registration leaves every block covered |
| SaveStackSlots.Scopes.SsNew | xs/sdk/include/perl.h:3137-3153 | a slot unless a table is full or memory is out, with its destructor pending if the guest took it and a block that leaks if not; a block allocated before a full destructor table leaks too |
| SaveStackSlots.Scopes.SsnewFreeCb | xs/sdk/include/perl.h:3128-3135 | frees the slot's block, if any |
| SaveStackSlots.Scopes.DtorInvoke | xs/sdk/include/perl.h:3004-3033 | any id the guest sends: an unused or foreign one does nothing, a used one is freed first and runs once |
| SaveStackSlots.Scopes.PopSavestack | xs/sdk/include/perl.h:2967-2971 | the guest's pop runs the latest pending registration; a block it frees was live |
| SaveStackSlots.Scopes.UsedArePending | xs/sdk/include/perl.h:2983-3000 | the used slots are exactly the pending ids if and only if the guest refused none |
| SaveStackSlots.Scopes.PendingBlockLive | xs/sdk/include/perl.h:3137-3156 | a block with a pending destructor is live and has only that one |
| Utf8.DecodeEncode | xs/sdk/include/perl.h:4085-4154 | every code point below 0x200000 decodes to itself, whatever follows, unless a flag disallows it (RFC 3629, section 3, up to 0x10FFFF) |
| Utf8.RoundTripExact | xs/sdk/include/perl.h:4085-4154 | and no other code point does |
| Utf8.StrictExact | xs/sdk/include/perl.h:4104-4132 | the flags refuse exactly D800 to DFFF and exactly what is beyond 10FFFF |
| Utf8.EncodeDecode | xs/sdk/include/perl.h:4085-4154 | a decoded character is the encoding of its code point if and only if its first byte is below 0x80 or from 0xC0 to 0xF7 |
| Utf8.DecodeOfEncode | xs/sdk/include/perl.h:4104-4154 | from 0x10000 on four bytes carry the low 21 bits |
| Utf8.LengthOfEncoded | xs/sdk/include/perl.h:4085-4095 | utf8_length of any encoded string is its number of code points |
| Utf8.DowngradeUpgrade | xs/sdk/include/perl.h:4159-4180 | utf8_to_bytes of bytes_to_utf8(s) is s for every byte string, and its utf8_length is the length of s |
| Utf8.UpgradeDowngrade | xs/sdk/include/perl.h:4159-4180 | the other way round if and only if no character begins with a continuation byte |
| Utf8.Utf8nToUvchr | xs/sdk/include/perl.h:4104-4132 | the decoder's loop against its definition by bytes |
| Utf8.UvchrToUtf8 | xs/sdk/include/perl.h:4137-4154 | writes the encoding in place and nothing else |
| Utf8.Utf8Length | xs/sdk/include/perl.h:4088-4095 | counts characters by their announced lengths, a cut-off last one included |
| Utf8.BytesToUtf8 | xs/sdk/include/perl.h:4159-4167 | the length counted first is exactly what is written, with a NUL after it |
| Utf8.DoingStep | xs/sdk/include/perl.h:4169-4180 | one character in place: the write index never passes the read index and unread bytes are untouched |
| Utf8.Utf8ToBytes | xs/sdk/include/perl.h:4169-4180 | the downgraded string in place, or failure with exactly the accepted prefix overwritten |
| MagicChains.LeakExact | xs/xs.go:681-1021 | over any run of calls on any SVs, each with as many records in turn as it gets, once all records are gone: what is still held on an object is the sum of what each record left on its own anchor's object, and never negative |
| MagicChains.ConservationExact | xs/xs.go:929-1021 | then all references are released if and only if, of every record there was, no removed entry carried the anchor's object or its only carrier was removed |
| MagicChains.CanEnd | xs/xs.go:929-971 | every run reaches such an end by the guest freeing its SVs |
| MagicChains.RemovedCarrierLeaks | xs/xs.go:991-993 | a run that leaks in the second record of an SV |
| MagicChains.ExtOnlyConserves | xs/xs.go:681-766 | without sv_unmagic all are, however entries and SVs share objects |
| MagicChains.DelExact | xs/xs.go:984-987 | over runs, an entry stays through a removal if and only if it has another type, or a vtable was given and it has another; the others are among the record's removed and no other record changes |
| MagicChains.EntryStays | xs/xs.go:681-1021 | so a module's entry stays attached through whatever others add and remove, until its type is removed by its vtable or by none or its SV is freed |
| MagicChains.ExtAttaches | xs/xs.go:681-766 | sv_magicext attaches its entry in front of the SV's record |
| MagicChains.FreesExact | xs/xs.go:929-1008 | over runs svt_free is called for exactly the entries a call loses, once each and in chain order |
| MagicChains.AlwaysReleases | xs/xs.go:938-1000 | over runs a reference is released only right after the entry's svt_free, and none is taken or released for an entry without an object |
| MagicChains.ExtAsks | xs/xs.go:726-766 | what sv_magicext asks of the guest: the set hook exactly for a vtable with svt_set, an anchor with the next id exactly for an SV without a record, and otherwise a reference on the object if there is one |
| MagicChains.DetachExact | xs/xs.go:1010-1020 | the guest's anchor is detached exactly when a removal leaves nothing, once and last |
| MagicChains.RunTallied | xs/xs.go:681-1021 | the count every call keeps, over all SVs and records: for a record that is there one reference per entry in its chain plus the anchor's removed ones, for a dropped one what it left |
| MagicChains.DelNet | xs/xs.go:973-1000 | magicDel releases one reference per removed entry, none for the anchor's object |
| MagicChains.FreedNet | xs/xs.go:938-970 | magicFreed releases one per entry but one that carries the anchor's object |
| MagicChains.UnlinkKeeps | xs/xs.go:996-1003 | unlinking an entry keeps every chain, its own without it |
| MagicChains.PrependKeeps | xs/xs.go:681-766 | a new head keeps every chain |
| MagicChains.NameFreed | xs/xs.go:994-996 | freeing an entry's name copy frees no other's |
| MagicChains.ViewsWith | xs/xs.go:726-733 | a new record keeps the two maps inverse views with ids up to nextMagicID |
| MagicChains.ViewsWithout | xs/xs.go:1010-1016 | dropping one does too |
| MagicChains.PartlyUnlinked | xs/xs.go:980-1005 | a removed entry leaves the kept ones in order |
| MagicChains.Loader.MagicExt | xs/xs.go:681-766 | one more entry at the head of the SV's chain, a record and anchor if it is the first, and exactly the guest operations of its branch, on every outcome; the state after a run becomes the state after that run and this call |
| MagicChains.Loader.NewEntry | xs/xs.go:681-712 | the entry with its own copy of a name of positive length, at an address in no chain |
| MagicChains.Loader.EntrySelected | xs/xs.go:704-709 | the entry made for a type and a vtable is taken by exactly the removals of the same type in its low eight bits, with the same vtable or none |
| MagicChains.Loader.EntryReads | xs/xs.go:695-712 | what a module reads in the entry: object, and its own pointer and length 0 or a new copy and its length |
| MagicChains.Loader.CopyGivenBack | xs/xs.go:695-701 | freeing an entry gives back exactly the name copy made for it if and only if none was made or the length is positive as an int32 |
| MagicChains.Loader.MagicDel | xs/xs.go:973-1021 | the chain becomes the order-preserving filter, exactly the removed nodes and their names are freed, hooks and releases happen in order, an emptied record leaves both maps; a run's state becomes that of the run and this call |
| MagicChains.Loader.UnlinkSelected | xs/xs.go:981-1009 | the same for the loop |
| MagicChains.Loader.UnlinkEntry | xs/xs.go:994-1004 | relinks around one entry and frees it with its name |
| MagicChains.Loader.MagicFreed | xs/xs.go:929-971 | the record leaves both maps, every node and name of its chain is freed, hooks and releases happen in order; a run's state becomes that of the run and this report, also of an anchor already dropped |
| MagicChains.ExtTells | xs/xs.go:681-766 | what sv_magicext does to the records of a run is what it does to the loader's: a new one with the next id for an SV without one, and the entry in front otherwise |
| MagicChains.DelTells | xs/xs.go:973-1021 | the same for sv_unmagic: the filtered chain, or no record |
| MagicChains.FreedTells | xs/xs.go:929-971 | the same for a freed SV |
| MagicChains.NotTold | xs/xs.go:1017-1019 | an anchor whose record the loader has dropped changes nothing when it is freed |
| MagicChains.Loader.FreeOne | xs/xs.go:938-970 | one node of that walk; the first carrier of the anchor's object is the anchor's |
| MagicChains.Loader.MagicSetFired | xs/xs.go:810-834 | svt_set hooks run in chain order from the head, whatever entries a hook unlinks and frees besides the one after its own, and the chain is what they leave |
| MagicChains.FiredUnlessGone | xs/xs.go:810-834 | every entry's hook runs, unless a hook that ran unlinked the entry |
| MagicChains.FiredOnce | xs/xs.go:810-834 | no hook runs twice |
| MagicChains.OwnOnly | xs/xs.go:810-813 | hooks that unlink at most their own entries all run, in order, and the other entries stay |
| MagicChains.Loader.MagicSetHead | xs/xs.go:919-925 | the module's relinked chain replaces the SV's and the maps stay |
| MagicChains.Loader.HeadUnlinked | xs/xs.go:916-925 | unlinking the head is such a relinking |
| MagicChains.Loader.DropRecord | xs/xs.go:1010-1016 | a record leaves both maps together |
| PointerRegistry.RoundTrip | xs/xs.go:313-341 | every id of a run decodes to its pointer at the end of the run |
| PointerRegistry.IdentityHolds | xs/xs.go:319-327 | over a run equal pointers get equal ids and distinct ones distinct ids |
| PointerRegistry.CloneDecodes | xs/xs.go:235-246 | ids from before a clone decode identically in it and in the parent, whatever either encodes later |
| PointerRegistry.LaterIdsDiffer | xs/xs.go:235-246 | ids from after it are not shared |
| PointerRegistry.OneIdEach | xs/xs.go:315-341 | two issued ids with one meaning are one id |
| PointerRegistry.NullExact | xs/xs.go:329-341 | decoding gives null for null and exactly the ids never given out |
| PointerRegistry.Pointers.EncodePtr | xs/xs.go:315-328 | the search loop; the registry only grows at its end |
| PointerRegistry.Pointers.DecodePtr | xs/xs.go:330-341 | an id's pointer, 0 for one never issued |
| Interrupts.DisarmIsExact | internal/instance.go:521-553 | in every interleaving disarm returns true if and only if its watchdog stored the flag |
| Interrupts.StoredByCancel | internal/instance.go:536-544 | in every interleaving a store of the flag follows the cancellation of that call's own context |
| Interrupts.LiveContextReturns | internal/instance.go:521-553 | so a call whose context is not cancelled is not refused and can only return uninterrupted |
| Interrupts.RefusedIsCancelled | internal/instance.go:340-343 | a call is refused on entry if and only if its context was cancelled before the check |
| Interrupts.NoLateStore | internal/instance.go:529-553 | after a call returned nothing of it steps again, so no store comes late |
| Interrupts.NoLingeringFlag | internal/instance.go:622-634 | with no call open the flag is 0, whatever overlapped before |
| Interrupts.FlagBelongsToAnOpenCall | internal/instance.go:616-634 | a set flag was stored by the watchdog of a call still open |
| Interrupts.SequentialFlagClear | internal/instance.go:340-360 | over any sequence of guarded calls the flag is 0 when disarm has returned |
| Interrupts.SequentialInterruptKept | internal/instance.go:529-553 | and a stored interrupt stays until its own guest sees it or the call ends |
| Interrupts.OverlapLosesInterrupt | internal/instance.go:545-552 | a run of two overlapping calls in which it does not |
| Interrupts.TakenExact | internal/instance.go:161-634 | in every interleaving a call's interrupt is lost to its guest if and only if another call's disarm or guest, or the handle releases before another call is armed, took the flag after the store and before its own guest tested it; until then the flag is set. Unguarded guest entries are calls that cannot be cancelled |
| Interrupts.SafeExact | internal/instance.go:161-553 | an armed call's interrupt is safe in every continuation in which no call or unguarded entry begins before it ends if and only if no other call or unguarded entry can still test or clear the flag |
| Interrupts.AloneIsSafe | internal/instance.go:529-553 | the safe half, for every continuation |
| Interrupts.ThreatTakes | internal/instance.go:529-553 | any other call that can still test or clear the flag can take an armed call's interrupt |
| Interrupts.NewCallTakes | internal/instance.go:340-360 | and so can any call that begins before it ends, cancellable or not |
| Interrupts.DisarmCanStep | internal/instance.go:545-552 | inside disarm some step of the call or its watchdog is always enabled |
| Interrupts.DisarmEnds | internal/instance.go:545-552 | and at most five of them are left, so disarm never waits forever |
| Interrupts.WatchdogsEnd | internal/instance.go:534-544 | a watchdog's send never blocks, and a returned call leaves none behind |
| Interrupts.AlwaysInv | internal/instance.go:529-553 | the invariant of every interleaving |
| ModuleLock.MutualExclusion | internal/perl.go:651-681 | after every interleaving at most one goroutine is in guest code: the lock's holder |
| ModuleLock.UnlocksOwnLock | internal/perl.go:775-808 | every Unlock is by the holder, through callbacks, traps and panics |
| ModuleLock.Bracketed | internal/perl.go:775-808 | an invoke or a callback gives back its goroutine's stack and lock ownership as it found them, whatever nested in between |
| ModuleLock.PanicUnwinds | internal/perl.go:775-808 | once the lock is taken back after a handler that panicked its entry can only leave; after one that returned guest code goes on |
| ModuleLock.NoDeadlock | internal/perl.go:651-681 | while a call is in progress some step other than a new call is enabled |
| ModuleLock.MovedKeeps | internal/perl.go:651-808 | entries and handlers alternate on every goroutine's stack, and it owns the lock exactly while guest code is on top |
| ModuleLock.CallbackOvertakes | internal/perl.go:497-506 | a run in which a callback returns while another goroutine's later entry is still in progress |
| ModuleLock.NestingExact | internal/perl.go:497-506 | every other goroutine's entry begun in a window is over at its end if and only if none ends it with more entries in progress than it had at some point of it |
| ModuleLock.NestingExactFresh | internal/perl.go:497-506 | for a callback that no other goroutine's callback was open around: if and only if no other goroutine is in a callback when the lock is taken back |
| ModuleLock.OthersAtTakeBack | internal/perl.go:795-808 | when the lock can be taken back another goroutine has an entry in progress if and only if it is in a callback, and else is idle or waiting for the lock |
| ModuleLock.OpenIsInCallback | internal/perl.go:795-808 | an entry of the window still open then is in a callback of its own |
| ModuleLock.NestingWithoutCallbacks | internal/perl.go:775-808 | without a callback of another goroutine in the window the claim always holds |
| ModuleLock.EntriesStep | internal/perl.go:651-681 | an entry begins by taking the lock and ends by leaving; no other step counts |
| Protobuf.VarintRoundTrip | internal/perl.go:59-66 | every 64-bit value is read back from its varint, whatever follows |
| Protobuf.VarintSize | internal/perl.go:50-57 | k bytes suffice for values below 128^k |
| Protobuf.OrIsAdd | internal/perl.go:217-230 | or-ing the shifted bits into those read so far adds them modulo 2^64, and shifts beyond 64 bits lose them |
| Protobuf.OrAbove | internal/perl.go:217-230 | a bitwise or with bits that lie above all those of the other operand is their sum |
| Protobuf.SkipLands | internal/perl.go:311-326 | skip lands on the end of any value the append functions wrote |
| Protobuf.FindInMessage | internal/perl.go:446-456 | a walk over any such message stops at the first field sent under its number |
| Protobuf.ScalarRoundTrip | internal/perl.go:446-456 | readScalarAtField returns that field's value, or zero when there is none |
| Protobuf.EveryFieldRead | internal/perl.go:73-120 | with distinct numbers every appended value is read back; a number from 2^29 on is sent without its upper bits |
| Protobuf.SignExtended | internal/perl.go:78-86 | a negative int32 or int64 comes back as itself |
| Protobuf.TypedRoundTrip | internal/perl.go:73-299 | bools, signed and unsigned integers of both widths, floats, doubles and bytes read back as themselves from the first field of their number |
| Protobuf.VarintDigit | internal/perl.go:60-67 | the bytes of a varint: seven bits each, lowest first, the top bit on all but the last, none too many |
| Protobuf.FieldLayout | internal/perl.go:69-126 | the wire types and the number in a field's tag |
| Protobuf.ErrorRoundTrip | internal/perl.go:328-338 | the error string in field 15 is reported, and nothing else is taken for one |
| Protobuf.HandleRoundTrip | internal/perl.go:343-391 | readPtrAtField returns the pointer of an appended handle at any field number, 0 when absent |
| Protobuf.HandleExact | internal/perl.go:343-366 | a response's handle: the first field 1 as a varint, or the first varint in field 1 inside it as a submessage whatever fields are around it, else 0 |
| Protobuf.PtrExact | internal/perl.go:374-390 | the same in another field's submessage, 0 for any other value |
| Protobuf.ExtentExact | internal/perl.go:250-327 | a length prefix is a crash exactly when the wrapping 64-bit end comes before the data |
| Protobuf.AbsentIsZero | internal/perl.go:446-456 | an absent field reads as zero of its type |
| Protobuf.ShortFloat | internal/perl.go:281-299 | a float cut short reads as zero |
| Protobuf.HandleShape | internal/perl.go:128-141 | a handle's inner message is one tag byte and the pointer's varint |
| Protobuf.PbVarintLen | internal/perl.go:50-57 | the size of the varint without writing it |
| Protobuf.PbAppendVarint | internal/perl.go:60-66 | appends the base-128 form |
| Protobuf.PbAppendTag | internal/perl.go:69-71 | appends field and wire type in 32 bits, for every field |
| Protobuf.TagBack | internal/perl.go:232-238 | a tag gives back its wire type and its field, below 2^29, or the low bits of one from there on |
| Protobuf.PbAppendUint64 | internal/perl.go:73-76 | appends a varint field |
| Protobuf.PbAppendInt32 | internal/perl.go:78-81 | appends the sign-extended value |
| Protobuf.PbAppendInt64 | internal/perl.go:83-86 | appends the two's complement |
| Protobuf.PbAppendBool | internal/perl.go:88-94 | appends 0 or 1 as a varint field |
| Protobuf.PbAppendBytes | internal/perl.go:96-126 | appends a length-prefixed field; strings and submessages alike |
| Protobuf.PbAppendFloat | internal/perl.go:108-113 | appends 32 bits, little-endian |
| Protobuf.PbAppendDouble | internal/perl.go:115-120 | appends 64 bits, little-endian |
| Protobuf.PbAppendHandle | internal/perl.go:128-141 | the same bytes as the submessage of pbAppendUint64(nil, 1, ptr) |
| Protobuf.PbReader.ReadVarint | internal/perl.go:217-230 | the base-128 value modulo 2^64 up to its last byte or the end |
| Protobuf.PbReader.Next | internal/perl.go:232-238 | the tag's field and wire type, none at the end |
| Protobuf.PbReader.ReadBytes | internal/perl.go:240-259 | the prefixed bytes, cut at the end of the data |
| Protobuf.PbReader.ReadFixed | internal/perl.go:281-299 | 4 or 8 bytes, or 0 and the end |
| Protobuf.PbReader.Skip | internal/perl.go:311-326 | moves past a value of any wire type, not past the end |
| Protobuf.ReadScalarAtField | internal/perl.go:446-456 | the walk's loop |
| Protobuf.PbExtractError | internal/perl.go:329-338 | the walk for field 15 |
| Protobuf.ReadHandlePtr | internal/perl.go:343-366 | a direct varint or a submessage's field 1 |
| Protobuf.ReadPtrAtField | internal/perl.go:374-391 | that of field 1, or of the submessage at another field |
| Wire.ArgsRoundTrip | wire.go:67-150 | an ok envelope with encodeArgs(vs) and any bytes after it decodes to exactly vs and stops at its end: references keep id and kind and lose their class, nil becomes undef |
| Wire.NodeRoundTrip | wire.go:226-260 | the same for one node; a flattening node is refused |
| Wire.FlattenNode | wire.go:105-135 | an array's or hash's node in an argument list is tag 7 and the reference's id |
| Wire.NumberLayout | wire.go:80-92 | the bytes of int and float nodes |
| Wire.ScalarLayout | wire.go:74-102 | the bytes of undef, bool and string nodes |
| Wire.RefLayout | wire.go:120-140 | the bytes of reference nodes |
| Wire.EncodeArgsExact | wire.go:121-150 | encodeArgs fails if and only if a value has no node, and names the first |
| Wire.EvalExact | wire.go:345-370 | decodeEvalResult succeeds only when no read overran: of the cuts of an envelope that decodes exactly those that keep all it read decode, to the same result |
| Wire.EvalRoundTrip | wire.go:345-370 | the ok and die envelopes decode to what they carry, and an interrupted die to the cancellation |
| Wire.ListFailure | wire.go:266-284 | a list result's die carries its message, or the cancellation if the call was interrupted, and its exit the code |
| Wire.UnknownStatus | wire.go:282-284 | any other status is malformed |
| Wire.ListBound | wire.go:284-299 | a successful list has no more values than bytes consumed, whatever count was claimed |
| Wire.Sticky | wire.go:165-171 | after a read overran every later one yields nothing and moves nothing |
| Wire.NodeCut | wire.go:226-260 | decoding a cut buffer gives the same node or a failed reader |
| Wire.ListCutExact | wire.go:266-299 | of the cuts of a list response that decodes without an overrun exactly these decode: those that keep all of it, those in the status or count, to an empty list, and those in the last node that leave a bool, int or float tag, to the list with that value 0 |
| Wire.NodesCutExact | wire.go:226-240 | the same for the nodes alone |
| Wire.NodeCutExact | wire.go:226-240 | a node cut in its middle is a value if and only if its tag is there and its word unchecked |
| Wire.CutBoolAccepted | wire.go:284-299 | two truncated responses that decode: an empty one and one whose bool node ends after its tag |
| Wire.EncodeArgs | wire.go:140-150 | the loop, with the failing argument's index |
| Wire.NodeReader.Need | wire.go:165-171 | fails when bytes are missing and stays failed |
| Wire.NodeReader.U | wire.go:173-207 | a little-endian word inside the buffer, or 0 |
| Wire.NodeReader.Bytes | wire.go:209-216 | bytes inside the buffer, or none |
| Wire.NodeReader.LenPrefixed | wire.go:219-222 | a length-prefixed string |
| Wire.NodeReader.ReadNode | wire.go:226-260 | one node; bool, int and float nodes do not look at fail |
| Wire.NodeReader.ReadEnvelope | wire.go:266-282 | the status, with a die, a cancellation or an exit code as the error |
| Wire.DecodeListResult | wire.go:284-299 | the claimed number of nodes, or the first error |
| Wire.DecodeEvalResult | wire.go:345-370 | the value or $@, then both streams |
| Numify.ScanIsLongest | value.go:704-745 | the scan stops at the end of the longest prefix in sign? mantissa ([eE] sign? D+)?, the mantissa being D+ (. D*)? or . D+, and finds none if and only if there is none |
| Numify.NumberScanned | value.go:707-742 | a written number, with or without sign, dot and exponent, is scanned whole before anything that cannot go on with it |
| Numify.BlanksExact | value.go:704-707 | exactly the leading spaces, tabs, line feeds, carriage returns and form feeds are skipped |
| Numify.NumeralFits | value.go:704-745 | no numeral is longer |
| Numify.NumeralFound | value.go:704-745 | what is found is one |
| Numify.ScanMantissa | value.go:712-729 | the digits and dot, or the exit without digits |
| Numify.ScanExponent | value.go:730-742 | the exponent, given back when it has no digits |
| Numify.Scan | value.go:704-749 | the value of the longest numeral after leading blanks, zero when there is none or it has no value |
| PerlArgv.SeparateExact | gperl/perlrun.go:162-242 | giving every group's switches separately and every inline value apart parses the same, error texts aside, if and only if the line does not fail at a group's final dash |
| PerlArgv.LineExact | gperl/perlrun.go:167-250 | a line of any groups of switches and any ending parses to their -e, -I and -M/-m values in order, -l exactly when given, the script and the arguments |
| PerlArgv.AcceptedIsLine | gperl/perlrun.go:167-250 | and every accepted line is such a line |
| PerlArgv.ClusterSplit | gperl/perlrun.go:187-235 | one switch taken off a group: the same if and only if what is left is not a lone dash |
| PerlArgv.InlineValue | gperl/perlrun.go:193-225 | an inline value is the same as a separate one |
| PerlArgv.ArgsAreSuffix | gperl/perlrun.go:237-241 | what is left for @ARGV is a suffix of the command line |
| PerlArgv.ParsePerlArgv | gperl/perlrun.go:167-242 | the two nested loops against the recursive meaning of a command line |

## Left out

- The guest interpreter: its operations are abstract stores, fetches, reference steps and savestack pushes.
- Activation.DispatchExact: the runs have no 4-byte save inside a module's ENTER/LEAVE pair, because LEAVE restores with a pointer-wide store whatever the width (xs/sdk/include/perl.h:2449-2453); a guest call gets a frame other than its caller's.
- Activation.CroakExact: the pp-hook, keyword and svt entries that use the same protocol.
- Mirrors: addresses and growth of the mirror buffers, the op-table proxies that the flush also diffs, and the generation counter.
- Mirrors.MirrorRuntime.DropMirrors: the release of hook and hints slots in the outermost leave is not part of it.
- OpShadows.OpRegistry.FindKept: the long-lived list is a sequence, not linked nodes; the op fields of a shadow and their write-back are not modelled.
- MagicChains: hooks leave the chains alone during magicDel and magicFreed; a failed release there changes nothing the loader keeps.
- MagicChains.LeakExact: chains a module relinks itself and guest operations that fail are not calls of a run.
- MagicChains.ConservationExact: as for MagicChains.LeakExact.
- MagicChains.Loader.MagicExt: the anchor id is a 32-bit counter in the code and unbounded here.
- MagicChains.Loader.MagicSetFired: a hook that frees the entry after its own, whose address the walk has read already, and hooks that relink other SVs' chains.
- SaveStackSlots.Scopes.DtorInvoke: the current-frame bookkeeping and the croak guard around the destructor.
- SaveStackSlots: what a destructor does is a later step of the run, made after its slot is free again.
- Interrupts: the module lock that lets one guest run at a time (it is the subject of ModuleLock), a guarded call whose invoke panics, the closed-instance check before it is armed, and the memory accessor's own lock.
- ModuleLock: the callback table's lock, request and response buffers.
- Protobuf: a length prefix whose int is negative or runs past the largest int, where the Go code panics or moves backwards, is a crash result; pbAppendHandlePtr and pbAppendSubmessagePtr only test for nil.
- Wire: encodeKey, the single-value results and the conversion of floats to and from their bits.
- Wire.ArgsRoundTrip: strings and lists of 2^32 or more, whose length the u32 truncates.
- Numify.Scan: strconv.ParseFloat is a parameter.
- PerlArgv: the text of the use statements that -M and -m become, and of errors.
- PointerRegistry: ids that outgrow the guest's 32 bits.
- dlopen, wasm memory mapping, the CLI drivers, archive extraction, file systems, PSGI and generated tables: input and output, or tables with only easy members.
