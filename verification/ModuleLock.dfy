/** The lock of the transpiled module: every entry holds it, and a callback gives it up around the
    user's handler.  Goroutines are stacks of entries and handlers; their steps interleave. */
module ModuleLock {

  import opened Options

  type Gid = nat

  /** An entry waiting for the lock, an entry with guest code running or being unwound by a panic,
      a user handler, and the deferred Lock after it. */
  datatype Frame =
    | InvokeWait
    | Guest(unwinding: bool)
    | Handler
    | Relock(panicking: bool)

  datatype State = State(stacks: map<Gid, seq<Frame>>, holder: Option<Gid>)

  datatype Act =
    | Call
    | Lock
    | Leave
    | Callback(known: bool)
    | HandlerEnds(panics: bool)
    | TakeBack

  datatype Event = Event(g: Gid, act: Act)

  function StackOf(s: State, g: Gid): seq<Frame> {
    if g in s.stacks then s.stacks[g] else []
  }

  function Top(st: seq<Frame>): Option<Frame> {
    if st == [] then None else Some(st[|st| - 1])
  }

  function Pop(st: seq<Frame>): seq<Frame>
    requires st != []
  {
    st[..|st| - 1]
  }

  /** A goroutine's stack after its step; None when the step is not its next, the lock aside.
      Leave is the deferred Unlock of invoke, after a result, a trap or a panic. */
  function Moved(st: seq<Frame>, act: Act): Option<seq<Frame>> {
    match act
    case Call => if st == [] || Top(st) == Some(Handler) then Some(st + [InvokeWait]) else None
    case Lock => if Top(st) == Some(InvokeWait) then Some(Pop(st) + [Guest(false)]) else None
    case Leave => if Top(st).Some? && Top(st).value.Guest? then Some(Pop(st)) else None
    case Callback(known) => if Top(st) == Some(Guest(false)) then Some(if known then st + [Handler] else st) else None
    case HandlerEnds(panics) => if Top(st) == Some(Handler) then Some(Pop(st) + [Relock(panics)]) else None
    case TakeBack =>
      if !Top(st).Some? || !Top(st).value.Relock? || |st| < 2 then None
      else Some(st[..|st| - 2] + [if Top(st).value.panicking then Guest(true) else st[|st| - 2]])
  }

  predicate Locks(act: Act) {
    act.Lock? || act.TakeBack?
  }

  predicate Unlocks(act: Act) {
    act.Leave? || act == Callback(true)
  }

  /** sync.Mutex: locking waits for a free lock.  Unlocking a free lock would crash; it is allowed
      here, with no effect, and shown not to happen. */
  function Next(s: State, e: Event): Option<State> {
    var st := Moved(StackOf(s, e.g), e.act);
    if st == None || (Locks(e.act) && s.holder != None) then None
    else Some(State(s.stacks[e.g := st.value], if Locks(e.act) then Some(e.g) else if Unlocks(e.act) then None else s.holder))
  }

  function After(trace: seq<Event>): Option<State> {
    if trace == [] then Some(State(map[], None)) else
    var before := After(trace[..|trace| - 1]);
    if before == None then None else Next(before.value, trace[|trace| - 1])
  }

  // ---- what every step keeps ------------------------------------------------------------

  predicate InGuest(st: seq<Frame>) {
    Top(st).Some? && Top(st).value.Guest?
  }

  /** Entries and handlers alternate, an entry first; only the last of them is waiting or
      unwinding. */
  ghost predicate Shaped(st: seq<Frame>) {
    && (st != [] ==> IsEntry(st[0]))
    && forall i :: 0 <= i < |st| - 1 ==> Under(st[i], st[i + 1])
  }

  predicate IsEntry(f: Frame) {
    f.InvokeWait? || f.Guest?
  }

  /** What can be on top of what. */
  predicate Under(a: Frame, b: Frame) {
    (a == Guest(false) && !IsEntry(b)) || (a == Handler && IsEntry(b))
  }

  ghost predicate Inv(s: State) {
    && (forall g: Gid :: Shaped(StackOf(s, g)))
    && (forall g: Gid :: InGuest(StackOf(s, g)) <==> s.holder == Some(g))
  }

  lemma {:induction false} MovedKeeps(st: seq<Frame>, act: Act)
    requires Shaped(st) && Moved(st, act) != None
    ensures Shaped(Moved(st, act).value)
    ensures Locks(act) ==> !InGuest(st) && InGuest(Moved(st, act).value)
    ensures Unlocks(act) ==> InGuest(st) && !InGuest(Moved(st, act).value)
    ensures !Locks(act) && !Unlocks(act) ==> InGuest(st) == InGuest(Moved(st, act).value)
  {
    var r := Moved(st, act).value;
    if |st| > 1 {
      assert Under(st[|st| - 2], st[|st| - 1]);
    }
    forall i | 0 <= i < |r| - 1 ensures Under(r[i], r[i + 1]) {
      if i + 1 < |st| {
        assert Under(st[i], st[i + 1]);
      }
    }
  }

  lemma {:induction false} NextKeeps(s: State, e: Event)
    requires Inv(s) && Next(s, e) != None
    ensures Inv(Next(s, e).value)
    ensures Unlocks(e.act) ==> s.holder == Some(e.g)
  {
    hide Moved, Shaped, InGuest;
    var t := Next(s, e).value;
    MovedKeeps(StackOf(s, e.g), e.act);
    forall g | g != e.g ensures StackOf(t, g) == StackOf(s, g) {
    }
    assert StackOf(t, e.g) == Moved(StackOf(s, e.g), e.act).value;
    assert InGuest(StackOf(s, e.g)) <==> s.holder == Some(e.g);
  }

  lemma {:induction false} AlwaysInv(trace: seq<Event>)
    requires After(trace) != None
    ensures Inv(After(trace).value)
  {
    hide Next, Inv;
    if trace != [] {
      AlwaysInv(trace[..|trace| - 1]);
      NextKeeps(After(trace[..|trace| - 1]).value, trace[|trace| - 1]);
    } else {
      StartInv();
    }
  }

  lemma {:induction false} StartInv()
    ensures Inv(State(map[], None))
  {
  }

  /** In every reachable state at most one goroutine runs guest code, and it is the one that holds
      the lock. */
  lemma {:induction false} MutualExclusion(trace: seq<Event>, s: State, g: Gid, h: Gid)
    requires After(trace) == Some(s)
    ensures InGuest(StackOf(s, g)) <==> s.holder == Some(g)
    ensures InGuest(StackOf(s, g)) && InGuest(StackOf(s, h)) ==> g == h
  {
    AlwaysInv(trace);
  }

  /** Every Unlock is by the goroutine holding the lock. */
  lemma {:induction false} UnlocksOwnLock(trace: seq<Event>, e: Event)
    requires After(trace) != None && Next(After(trace).value, e) != None && Unlocks(e.act)
    ensures After(trace).value.holder == Some(e.g)
  {
    AlwaysInv(trace);
    NextKeeps(After(trace).value, e);
  }

  /** As long as a call is in progress some step other than a new call is enabled. */
  lemma {:induction false} NoDeadlock(trace: seq<Event>, g: Gid)
    requires After(trace) != None && StackOf(After(trace).value, g) != []
    ensures exists e: Event :: !e.act.Call? && !e.act.Callback? && Next(After(trace).value, e) != None
  {
    hide Inv, Moved, Shaped, InGuest;
    AlwaysInv(trace);
    var s := After(trace).value;
    var h := if s.holder == None then g else s.holder.value;
    ShapedOf(s, h);
    GuestIsSome(StackOf(s, h));
    var act := CanMove(StackOf(s, h));
    assert Next(s, Event(h, act)) != None;
  }

  lemma {:induction false} GuestIsSome(st: seq<Frame>)
    ensures InGuest(st) ==> st != []
  {
  }

  /** The top frame's own next step, which locks only when it is not in guest code. */
  lemma {:induction false} CanMove(st: seq<Frame>) returns (act: Act)
    requires Shaped(st) && st != []
    ensures !act.Call? && !act.Callback? && Moved(st, act) != None && (Locks(act) ==> !InGuest(st))
  {
    act := match Top(st).value
      case InvokeWait => Lock
      case Guest(_) => Leave
      case Handler => HandlerEnds(false)
      case Relock(_) => TakeBack;
  }

  // ---- brackets ----------------------------------------------------------------------------

  /** From trace to trace + more, g was deeper than d in between. */
  ghost predicate DeeperWithin(trace: seq<Event>, more: seq<Event>, g: Gid, d: nat) {
    && After(trace + more) != None
    && forall i :: 0 < i < |more| && After(trace + more[..i]) != None ==> |StackOf(After(trace + more[..i]).value, g)| > d
  }

  /** What a step leaves of the frames below depth d while the stack is deeper than that. */
  lemma {:induction false} BelowKept(st: seq<Frame>, act: Act, d: nat)
    requires Shaped(st) && |st| > d && Moved(st, act) != None
    ensures var r := Moved(st, act).value;
      |r| >= d && if |r| > d then r[..d] == st[..d] else r == st[..d] || (d > 0 && r == st[..d - 1] + [Guest(true)] && st[d - 1].Guest?)
  {
  }

  lemma {:induction false} Prefixes(trace: seq<Event>, more: seq<Event>, i: nat)
    requires After(trace + more) != None && i <= |more|
    ensures After(trace + more[..i]) != None
    decreases |more| - i
  {
    hide Next;
    if i < |more| {
      Prefixes(trace, more, i + 1);
      assert (trace + more[..i + 1])[..|trace| + i] == trace + more[..i];
    } else {
      assert more[..i] == more;
    }
  }

  /** As long as it is deeper than where it started, its frames there stay as they were. */
  lemma {:induction false} Inside(trace: seq<Event>, more: seq<Event>, g: Gid, st: seq<Frame>)
    requires After(trace) != None && StackOf(After(trace).value, g) == st && more != []
    requires forall i :: 0 < i <= |more| && After(trace + more[..i]) != None ==> |StackOf(After(trace + more[..i]).value, g)| > |st|
    requires After(trace + more) != None
    ensures |StackOf(After(trace + more).value, g)| > |st| && StackOf(After(trace + more).value, g)[..|st|] == st
  {
    hide Moved, Inv;
    var less, e := more[..|more| - 1], more[|more| - 1];
    assert more[..|more|] == more;
    assert (trace + more)[..|trace + more| - 1] == trace + less;
    assert forall i :: 0 < i <= |less| ==> less[..i] == more[..i];
    Prefixes(trace, more, |less|);
    if less == [] {
      assert trace + less == trace;
      FirstDeeper(st, e.act);
    } else {
      Inside(trace, less, g, st);
      AlwaysInv(trace + less);
      if e.g == g {
        ShapedOf(After(trace + less).value, g);
        BelowKept(StackOf(After(trace + less).value, g), e.act, |st|);
      }
    }
  }

  lemma {:induction false} ShapedOf(s: State, g: Gid)
    requires Inv(s)
    ensures Shaped(StackOf(s, g)) && (InGuest(StackOf(s, g)) <==> s.holder == Some(g))
  {
  }

  /** A step to a deeper stack pushes one frame. */
  lemma {:induction false} FirstDeeper(st: seq<Frame>, act: Act)
    ensures Moved(st, act) != None && |Moved(st, act).value| > |st| ==> Moved(st, act).value[..|st|] == st
  {
  }

  /** Whatever a goroutine did above it, an entry or a handler gives back the stack and the lock as
      it found them: a call, made where the lock is not held, returns there without it; a callback,
      made with the lock held, returns with it, to guest code or to its unwinding. */
  lemma {:induction false} Bracketed(trace: seq<Event>, more: seq<Event>, g: Gid, e: Event)
    requires After(trace) != None && e.g == g && (e.act == Call || e.act == Callback(true))
    requires After(trace + [e] + more) != None
    requires DeeperWithin(trace, [e] + more, g, |StackOf(After(trace).value, g)|)
    requires |StackOf(After(trace + [e] + more).value, g)| == |StackOf(After(trace).value, g)|
    ensures var s, t := After(trace).value, After(trace + [e] + more).value;
      && var st := StackOf(s, g);
      && (s.holder == Some(g) <==> t.holder == Some(g))
      && (s.holder == Some(g) <==> e.act == Callback(true))
      && (StackOf(t, g) == st || (e.act == Callback(true) && StackOf(t, g) == Pop(st) + [Guest(true)]))
  {
    hide Inv, Next, Shaped, Moved, InGuest;
    var st := StackOf(After(trace).value, g);
    var all := [e] + more;
    assert trace + [e] + more == trace + all;
    Prefixes(trace, all, 1);
    assert all[..1] == [e];
    Extended(trace, e);
    var less := all[..|all| - 1];
    OwnMove(After(trace).value, e);
    AlwaysInv(trace);
    ShapedOf(After(trace).value, g);
    CallOrCallback(st, e.act);
    assert trace + [e] + [] == trace + [e];
    Prefixes(trace, all, |less|);
    hide After;
    assert forall i :: 0 < i <= |less| ==> less[..i] == all[..i];
    Inside(trace, less, g, st);
    assert trace + less + [all[|all| - 1]] == trace + all;
    Extended(trace + less, all[|all| - 1]);
    LastStep(trace + less, all[|all| - 1], g, st);
  }

  /** Whatever other goroutines do before the lock is taken back, a handler that panicked leaves its
      entry nothing but to unwind, and one that returned lets guest code go on. */
  lemma {:induction false} PanicUnwinds(trace: seq<Event>, more: seq<Event>, g: Gid, panics: bool)
    requires var all := trace + [Event(g, HandlerEnds(panics))] + more;
      After(all) != None && Next(After(all).value, Event(g, TakeBack)) != None
    requires forall i :: 0 <= i < |more| ==> more[i].g != g
    ensures var t := Next(After(trace + [Event(g, HandlerEnds(panics))] + more).value, Event(g, TakeBack)).value;
      && t.holder == Some(g)
      && (panics ==> forall act :: Next(t, Event(g, act)) != None ==> act == Leave)
      && (!panics ==> Next(t, Event(g, Callback(true))) != None && Next(t, Event(g, Leave)) != None)
  {
    var ended := trace + [Event(g, HandlerEnds(panics))];
    StackWaits(ended, more, g);
    assert ended[..|trace|] == trace;
    var s := After(trace).value;
    AlwaysInv(trace);
    ShapedOf(s, g);
    var st := StackOf(s, g);
    assert Top(st) == Some(Handler);
    assert Under(st[|st| - 2], st[|st| - 1]);
    hide After;
    var u := After(ended + more).value;
    assert StackOf(u, g) == Pop(st) + [Relock(panics)];
    assert StackOf(u, g)[|st| - 2] == st[|st| - 2] == Guest(false);
  }

  /** A goroutine's stack waits while others step. */
  lemma {:induction false} StackWaits(trace: seq<Event>, more: seq<Event>, g: Gid)
    requires After(trace + more) != None && forall i :: 0 <= i < |more| ==> more[i].g != g
    ensures After(trace) != None && StackOf(After(trace + more).value, g) == StackOf(After(trace).value, g)
  {
    hide Moved;
    if more == [] {
      assert trace + more == trace;
    } else {
      assert (trace + more)[..|trace + more| - 1] == trace + more[..|more| - 1];
      StackWaits(trace, more[..|more| - 1], g);
    }
  }

  lemma {:induction false} OwnMove(s: State, e: Event)
    requires Next(s, e) != None
    ensures Moved(StackOf(s, e.g), e.act) == Some(StackOf(Next(s, e).value, e.g))
    ensures forall g: Gid :: g != e.g ==> StackOf(Next(s, e).value, g) == StackOf(s, g)
  {
    hide Moved;
  }

  lemma {:induction false} CallOrCallback(st: seq<Frame>, act: Act)
    requires Shaped(st) && Moved(st, act) != None && (act == Call || act == Callback(true))
    ensures |Moved(st, act).value| == |st| + 1 && (InGuest(st) <==> act == Callback(true))
  {
  }

  lemma {:induction false} LastStep(trace: seq<Event>, e: Event, g: Gid, st: seq<Frame>)
    requires After(trace) != None && Next(After(trace).value, e) != None && Shaped(st)
    requires |StackOf(After(trace).value, g)| > |st| && StackOf(After(trace).value, g)[..|st|] == st
    requires |StackOf(Next(After(trace).value, e).value, g)| == |st|
    ensures var t := Next(After(trace).value, e).value;
      && After(trace + [e]) == Some(t)
      && (InGuest(st) <==> t.holder == Some(g))
      && (StackOf(t, g) == st || (InGuest(st) && StackOf(t, g) == Pop(st) + [Guest(true)]))
  {
    hide Next, Inv, Moved, Shaped, InGuest;
    Extended(trace, e);
    AlwaysInv(trace);
    ShapedOf(After(trace).value, g);
    AlwaysInv(trace + [e]);
    ShapedOf(After(trace + [e]).value, g);
    OwnMove(After(trace).value, e);
    LastMove(StackOf(After(trace).value, g), st, e.act);
  }

  lemma {:induction false} LastMove(deep: seq<Frame>, st: seq<Frame>, act: Act)
    requires Shaped(deep) && |deep| > |st| && deep[..|st|] == st && Moved(deep, act) != None && |Moved(deep, act).value| == |st|
    ensures var r := Moved(deep, act).value;
      (r == st || (InGuest(st) && r == Pop(st) + [Guest(true)])) && (InGuest(r) <==> InGuest(st))
  {
    BelowKept(deep, act, |st|);
    if st != [] {
      assert st[|st| - 1] == deep[|st| - 1];
      assert st[..|st| - 1] == deep[..|st| - 1];
    }
  }

  // ---- nesting across goroutines --------------------------------------------------------------

  /** Entries in progress: those waiting for the lock have not begun. */
  function Entries(st: seq<Frame>): nat {
    if st == [] then 0 else Entries(Pop(st)) + if Top(st).value.Guest? then 1 else 0
  }

  /** They are every other frame, from the first on. */
  lemma {:induction false} EntriesShaped(st: seq<Frame>)
    requires Shaped(st)
    ensures Entries(st) + Entries(st) == |st| + if st == [] then 0 else if InGuest(st) then 1 else if Top(st) == Some(InvokeWait) then -1 else 0
  {
    if st != [] {
      var less := Pop(st);
      assert forall i :: 0 <= i < |less| ==> less[i] == st[i];
      EntriesShaped(less);
      if less != [] {
        assert Under(st[|st| - 2], st[|st| - 1]) && Top(less) == Some(st[|st| - 2]);
      }
    }
  }

  /** An entry begins by taking the lock and ends by leaving; nothing else counts. */
  lemma {:induction false} MovedEntries(st: seq<Frame>, act: Act)
    requires Shaped(st) && Moved(st, act) != None
    ensures Entries(Moved(st, act).value) == Entries(st) + (if act == Lock then 1 else 0) - (if act == Leave then 1 else 0)
  {
    MovedKeeps(st, act);
    EntriesShaped(st);
    EntriesShaped(Moved(st, act).value);
    hide Entries;
  }

  /** Entries of h in progress after j steps of more. */
  function EntriesAt(w: seq<Event>, more: seq<Event>, j: nat, h: Gid): nat
    requires j <= |more|
  {
    var s := After(w + more[..j]);
    if s == None then 0 else Entries(StackOf(s.value, h))
  }

  lemma {:induction false} EntriesStep(s: State, e: Event, h: Gid)
    requires Inv(s) && Next(s, e) != None
    ensures Entries(StackOf(Next(s, e).value, h)) ==
      Entries(StackOf(s, h)) + (if e == Event(h, Lock) then 1 else 0) - (if e == Event(h, Leave) then 1 else 0)
  {
    hide Moved, Entries, Inv, Next, Shaped;
    OwnMove(s, e);
    ShapedOf(s, h);
    if e.g == h {
      MovedEntries(StackOf(s, h), e.act);
    }
  }

  lemma {:induction false} EntriesMove(w: seq<Event>, more: seq<Event>, j: nat, h: Gid)
    requires After(w + more) != None && j < |more|
    ensures EntriesAt(w, more, j + 1, h) ==
      EntriesAt(w, more, j, h) + (if more[j] == Event(h, Lock) then 1 else 0) - (if more[j] == Event(h, Leave) then 1 else 0)
  {
    hide Entries, Inv, Next;
    Prefixes(w, more, j);
    Prefixes(w, more, j + 1);
    assert w + more[..j + 1] == w + more[..j] + [more[j]];
    Extended(w + more[..j], more[j]);
    hide After;
    AlwaysInv(w + more[..j]);
    EntriesStep(After(w + more[..j]).value, more[j], h);
  }

  /** The entry h began at step i of more is in progress to its end. */
  ghost predicate StillOpen(w: seq<Event>, more: seq<Event>, i: nat, h: Gid) {
    && i < |more| && more[i] == Event(h, Lock)
    && forall j :: i < j <= |more| ==> EntriesAt(w, more, j, h) >= EntriesAt(w, more, i + 1, h)
  }

  /** The claim made for the release window of a callback of g: every entry of another goroutine
      that began in more is over at its end. */
  ghost predicate NestingHolds(w: seq<Event>, more: seq<Event>, g: Gid) {
    forall h: Gid, i: nat :: h != g ==> !StillOpen(w, more, i, h)
  }

  /** More entries in progress at the end than before: the last to begin since is still open. */
  lemma {:induction false} LastRise(w: seq<Event>, more: seq<Event>, h: Gid, j: nat) returns (i: nat)
    requires After(w + more) != None && j <= |more| && EntriesAt(w, more, j, h) < EntriesAt(w, more, |more|, h)
    ensures StillOpen(w, more, i, h)
    decreases |more| - j
  {
    hide EntriesAt;
    if k :| j < k <= |more| && EntriesAt(w, more, k, h) < EntriesAt(w, more, |more|, h) {
      i := LastRise(w, more, h, k);
    } else {
      EntriesMove(w, more, j, h);
      i := j;
    }
  }

  /** h ends the window with no more entries in progress than it had at any point of it. */
  ghost predicate NoneAdded(w: seq<Event>, more: seq<Event>, h: Gid) {
    forall j: nat :: j <= |more| ==> EntriesAt(w, more, |more|, h) <= EntriesAt(w, more, j, h)
  }

  /** The claim holds exactly when every other goroutine does. */
  lemma {:induction false} NestingExact(w: seq<Event>, more: seq<Event>, g: Gid)
    requires After(w + more) != None
    ensures NestingHolds(w, more, g) <==> forall h: Gid :: h != g ==> NoneAdded(w, more, h)
  {
    hide EntriesAt, After;
    forall h: Gid | h != g && !NoneAdded(w, more, h) ensures !NestingHolds(w, more, g) {
      var j: nat :| j <= |more| && EntriesAt(w, more, |more|, h) > EntriesAt(w, more, j, h);
      var i := LastRise(w, more, h, j);
    }
    forall h: Gid, i: nat | h != g && StillOpen(w, more, i, h) ensures !NoneAdded(w, more, h) {
      EntriesMove(w, more, i, h);
    }
  }

  /** When a callback can take the lock back, another goroutine has an entry in progress exactly
      when it is in a callback itself; else it is idle or waiting for the lock. */
  lemma {:induction false} OthersAtTakeBack(trace: seq<Event>, g: Gid, h: Gid)
    requires After(trace) != None && After(trace).value.holder == None
    ensures var st := StackOf(After(trace).value, h);
      && Entries(st) + Entries(st) <= |st| <= Entries(st) + Entries(st) + 1
      && (|st| >= 2 <==> exists i :: 0 <= i < |st| && st[i].Guest?)
      && (|st| >= 2 ==> st[0] == Guest(false) && (st[1].Handler? || st[1].Relock?))
      && (|st| < 2 ==> st == [] || st == [InvokeWait])
  {
    AlwaysInv(trace);
    ShapedOf(After(trace).value, h);
    var st := StackOf(After(trace).value, h);
    EntriesShaped(st);
    hide Entries, After, Inv;
    if |st| >= 2 {
      assert Under(st[0], st[1]);
      assert st[0].Guest?;
    }
    if |st| == 1 {
      assert Top(st) == Some(st[0]);
    }
    if |st| == 2 {
      assert Top(st) == Some(st[1]);
    }
  }

  /** An entry of the window that is still open when the callback can take the lock back is in a
      callback of its own. */
  lemma {:induction false} OpenIsInCallback(w: seq<Event>, more: seq<Event>, g: Gid, h: Gid, i: nat)
    requires After(w + more) != None && Next(After(w + more).value, Event(g, TakeBack)) != None && StillOpen(w, more, i, h)
    ensures var st := StackOf(After(w + more).value, h);
      |st| >= 2 * EntriesAt(w, more, i + 1, h) >= 2
  {
    TakeBackFree(w + more, g);
    hide After, Next, Entries, EntriesAt;
    EntriesMove(w, more, i, h);
    EntriesAtEnd(w, more, h);
    OthersAtTakeBack(w + more, g, h);
    assert EntriesAt(w, more, |more|, h) >= EntriesAt(w, more, i + 1, h);
  }

  lemma {:induction false} EntriesAtEnd(w: seq<Event>, more: seq<Event>, h: Gid)
    requires After(w + more) != None
    ensures EntriesAt(w, more, |more|, h) == Entries(StackOf(After(w + more).value, h))
  {
    assert more[..|more|] == more;
  }

  lemma {:induction false} TakeBackFree(trace: seq<Event>, g: Gid)
    requires After(trace) != None && Next(After(trace).value, Event(g, TakeBack)) != None
    ensures After(trace).value.holder == None
  {
  }

  /** For a window no other goroutine enters in a callback: the claim holds exactly when no other
      goroutine is in a callback when it ends. */
  lemma {:induction false} NestingExactFresh(w: seq<Event>, more: seq<Event>, g: Gid)
    requires After(w) != None && After(w).value.holder == None
    requires forall h: Gid :: h != g ==> |StackOf(After(w).value, h)| < 2
    requires After(w + more) != None && Next(After(w + more).value, Event(g, TakeBack)) != None
    ensures NestingHolds(w, more, g) <==> forall h: Gid :: h != g ==> |StackOf(After(w + more).value, h)| < 2
  {
    TakeBackFree(w + more, g);
    hide StillOpen, Next, NestingHolds, After;
    NestingExact(w, more, g);
    forall h: Gid | h != g ensures NoneAdded(w, more, h) <==> |StackOf(After(w + more).value, h)| < 2 {
      EntriesAtStart(w, more, h);
      EntriesAtEnd(w, more, h);
      OthersAtTakeBack(w, g, h);
      OthersAtTakeBack(w + more, g, h);
      hide Entries, EntriesAt;
    }
  }

  lemma {:induction false} EntriesAtStart(w: seq<Event>, more: seq<Event>, h: Gid)
    requires After(w) != None
    ensures EntriesAt(w, more, 0, h) == Entries(StackOf(After(w).value, h))
  {
    assert w + more[..0] == w;
  }

  /** Without a callback of another goroutine in the window the claim always holds. */
  lemma {:induction false} NestingWithoutCallbacks(w: seq<Event>, more: seq<Event>, g: Gid)
    requires After(w + more) != None && Next(After(w + more).value, Event(g, TakeBack)) != None
    requires forall i :: 0 <= i < |more| && more[i].g != g ==> more[i].act != Callback(true)
    ensures NestingHolds(w, more, g)
  {
    TakeBackFree(w + more, g);
    hide After, Next;
    forall h: Gid, i: nat | h != g ensures !StillOpen(w, more, i, h) {
      if StillOpen(w, more, i, h) {
        StaysInGuest(w, more, h, i, |more|);
        assert more[..|more|] == more;
        AlwaysInv(w + more);
        ShapedOf(After(w + more).value, h);
      }
    }
  }

  /** An open entry without a callback is in guest code. */
  lemma {:induction false} StaysInGuest(w: seq<Event>, more: seq<Event>, h: Gid, i: nat, j: nat)
    requires After(w + more) != None && StillOpen(w, more, i, h) && i < j <= |more|
    requires forall m :: 0 <= m < |more| && more[m].g == h ==> more[m].act != Callback(true)
    ensures After(w + more[..j]) != None && InGuest(StackOf(After(w + more[..j]).value, h))
    ensures EntriesAt(w, more, j, h) == EntriesAt(w, more, i + 1, h)
    decreases j
  {
    hide Moved, Inv, EntriesAt, Entries, Next, InGuest;
    Prefixes(w, more, j - 1);
    Prefixes(w, more, j);
    var e := more[j - 1];
    assert w + more[..j] == w + more[..j - 1] + [e];
    Extended(w + more[..j - 1], e);
    hide After;
    AlwaysInv(w + more[..j - 1]);
    EntriesMove(w, more, j - 1, h);
    if j - 1 > i {
      StaysInGuest(w, more, h, i, j - 1);
    }
    assert e != Event(h, Leave);
    GuestStep(After(w + more[..j - 1]).value, e, h);
  }

  lemma {:induction false} GuestStep(s: State, e: Event, h: Gid)
    requires Inv(s) && Next(s, e) != None && e != Event(h, Leave) && e != Event(h, Callback(true))
    requires e == Event(h, Lock) || InGuest(StackOf(s, h))
    ensures InGuest(StackOf(Next(s, e).value, h))
    ensures InGuest(StackOf(s, h)) ==> e != Event(h, Lock)
  {
    hide Moved, Inv, Next, InGuest;
    ShapedOf(s, h);
    OwnMove(s, e);
    if e == Event(h, Lock) {
      MovedKeeps(StackOf(s, h), e.act);
    } else if e.g == h {
      MovedKeeps(StackOf(s, h), e.act);
      InGuestMoves(StackOf(s, h), e.act);
    }
  }

  lemma {:induction false} InGuestMoves(st: seq<Frame>, act: Act)
    requires InGuest(st) && Moved(st, act) != None && act != Callback(true) && act != Leave
    ensures InGuest(Moved(st, act).value)
  {
  }

  lemma {:induction false} Extended(trace: seq<Event>, e: Event)
    requires After(trace) != None
    ensures After(trace + [e]) == Next(After(trace).value, e)
  {
    assert (trace + [e])[..|trace|] == trace;
  }

  /** An entry of another goroutine that began during a callback need not be over when the callback
      returns: it may be in a callback of its own. */
  lemma {:induction false} CallbackOvertakes()
    ensures exists trace :: (After(trace) != None
      && StackOf(After(trace).value, 0) == [Guest(false)] && StackOf(After(trace).value, 1) == [Guest(false), Handler]
      && |trace| > 3 && After(trace[..3]) != None
      && StackOf(After(trace[..3]).value, 0) == [Guest(false), Handler] && StackOf(After(trace[..3]).value, 1) == [])
  {
    hide After, Moved;
    var a := [Event(0, Call), Event(0, Lock), Event(0, Callback(true))];
    var b := [Event(1, Call), Event(1, Lock), Event(1, Callback(true))];
    AtStart();
    InCallback([], State(map[], None), 0);
    assert [] + a == a;
    var s := State(map[0 := [Guest(false), Handler]], None);
    assert map[][0 := [Guest(false), Handler]] == s.stacks;
    InCallback(a, s, 1);
    var t := State(s.stacks[1 := [Guest(false), Handler]], None);
    HandlerReturned(a + b, t, 0);
    var trace := a + b + [Event(0, HandlerEnds(false)), Event(0, TakeBack)];
    assert trace[..3] == a;
  }

  lemma {:induction false} AtStart()
    ensures After([]) == Some(State(map[], None))
  {
  }

  lemma {:induction false} HandlerReturned(trace: seq<Event>, s: State, g: Gid)
    requires After(trace) == Some(s) && StackOf(s, g) == [Guest(false), Handler] && s.holder == None
    ensures After(trace + [Event(g, HandlerEnds(false)), Event(g, TakeBack)]) == Some(State(s.stacks[g := [Guest(false)]], Some(g)))
  {
    hide After;
    Extended(trace, Event(g, HandlerEnds(false)));
    assert Pop([Guest(false), Handler]) == [Guest(false)];
    assert [Guest(false)] + [Relock(false)] == [Guest(false), Relock(false)];
    var s1 := State(s.stacks[g := [Guest(false), Relock(false)]], None);
    assert After(trace + [Event(g, HandlerEnds(false))]) == Some(s1);
    Extended(trace + [Event(g, HandlerEnds(false))], Event(g, TakeBack));
    assert s1.stacks[g := [Guest(false)]] == s.stacks[g := [Guest(false)]];
    assert [] + [Guest(false)] == [Guest(false)];
    assert trace + [Event(g, HandlerEnds(false))] + [Event(g, TakeBack)] == trace + [Event(g, HandlerEnds(false)), Event(g, TakeBack)];
  }

  lemma {:induction false} InCallback(trace: seq<Event>, s: State, g: Gid)
    requires After(trace) == Some(s) && StackOf(s, g) == [] && s.holder == None
    ensures After(trace + [Event(g, Call), Event(g, Lock), Event(g, Callback(true))]) == Some(State(s.stacks[g := [Guest(false), Handler]], None))
  {
    hide After;
    Extended(trace, Event(g, Call));
    var s1 := State(s.stacks[g := [InvokeWait]], None);
    assert [] + [InvokeWait] == [InvokeWait];
    assert After(trace + [Event(g, Call)]) == Some(s1);
    Extended(trace + [Event(g, Call)], Event(g, Lock));
    var s2 := State(s.stacks[g := [Guest(false)]], Some(g));
    assert s1.stacks[g := [Guest(false)]] == s2.stacks;
    assert Pop([InvokeWait]) + [Guest(false)] == [Guest(false)];
    assert After(trace + [Event(g, Call)] + [Event(g, Lock)]) == Some(s2);
    Extended(trace + [Event(g, Call)] + [Event(g, Lock)], Event(g, Callback(true)));
    assert s2.stacks[g := [Guest(false), Handler]] == s.stacks[g := [Guest(false), Handler]];
    assert [Guest(false)] + [Handler] == [Guest(false), Handler];
    assert trace + [Event(g, Call)] + [Event(g, Lock)] + [Event(g, Callback(true))] == trace + [Event(g, Call), Event(g, Lock), Event(g, Callback(true))];
  }
}
