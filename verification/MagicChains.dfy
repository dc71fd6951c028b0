/** The loader's MAGIC mirrors: linked lists of entries in the C heap, found by SV and by anchor
    id, and the guest references the entries and the anchor hold between them. */
module MagicChains {

  import opened CHeap
  import opened Options
  import opened Words

  // A guest SV token.
  type Sv = nat

  // A guest object token: 32 bits, 0 for none.
  type Obj = o: nat | o < 0x1_0000_0000

  datatype Entry = Entry(more: Addr, vtbl: Addr, typ: nat, len: int, obj: Obj, ptr: Addr)

  /** What the loader asks of the guest, and the module hooks it runs. */
  datatype Event =
    | Attach(sv: Sv, id: nat, obj: Obj)
    | SetHook(sv: Sv)
    | Inc(obj: Obj)
    | Dec(obj: Obj)
    | Unattach(sv: Sv)
    | SvtFree(sv: Sv, mg: Addr)
    | SvtSet(sv: Sv, mg: Addr)

  /** An entry and where it is. */
  datatype Item = Item(at: Addr, e: Entry)

  // ---- the references of one SV's chain -----------------------------------------------

  /** Whether sv_unmagic(how, vtbl) removes an entry. */
  predicate Selected(e: Entry, how: int, vtbl: Addr) {
    e.typ == how % 256 && (vtbl == 0 || e.vtbl == vtbl)
  }

  function DelEventsOf(sv: Sv, m: Item, how: int, vtbl: Addr, anchor: Obj): seq<Event> {
    if !Selected(m.e, how, vtbl) then []
    else if m.e.obj != 0 && m.e.obj != anchor then [SvtFree(sv, m.at), Dec(m.e.obj)]
    else [SvtFree(sv, m.at)]
  }

  function DelEvents(sv: Sv, ms: seq<Item>, how: int, vtbl: Addr, anchor: Obj): seq<Event> {
    if ms == [] then [] else
    DelEvents(sv, ms[..|ms| - 1], how, vtbl, anchor) + DelEventsOf(sv, ms[|ms| - 1], how, vtbl, anchor)
  }

  /** The entries magicDel keeps, in order. */
  function Remaining(ms: seq<Item>, how: int, vtbl: Addr): seq<Item> {
    if ms == [] then [] else
    Remaining(ms[..|ms| - 1], how, vtbl) + if Selected(ms[|ms| - 1].e, how, vtbl) then [] else [ms[|ms| - 1]]
  }

  function Carrying(ms: seq<Item>, o: Obj): (n: int)
    ensures n >= 0
  {
    if ms == [] then 0 else Carrying(ms[..|ms| - 1], o) + if ms[|ms| - 1].e.obj == o then 1 else 0
  }

  /** The record's anchorObj after magicFreed walked ms: its first carrier clears it. */
  function AnchorAfter(ms: seq<Item>, anchor: Obj): Obj {
    if Carrying(ms, anchor) > 0 then 0 else anchor
  }

  function FreedEvents(sv: Sv, ms: seq<Item>, anchor: Obj): seq<Event> {
    if ms == [] then [] else
    var before := ms[..|ms| - 1];
    var m := ms[|ms| - 1];
    FreedEvents(sv, before, anchor)
    + if m.e.obj != 0 && m.e.obj != AnchorAfter(before, anchor) then [SvtFree(sv, m.at), Dec(m.e.obj)]
      else [SvtFree(sv, m.at)]
  }

  function Effect(ev: Event, o: Obj): int {
    match ev
    case Attach(_, _, obj) => if obj == o then 1 else 0
    case Inc(obj) => if obj == o then 1 else 0
    case Dec(obj) => if obj == o then -1 else 0
    case _ => 0
  }

  /** References the guest operations in evs take on o, less those they release.  The anchor's
      own release is not among them: it happens when the guest drops the anchor. */
  function Net(evs: seq<Event>, o: Obj): int {
    if evs == [] then 0 else Net(evs[..|evs| - 1], o) + Effect(evs[|evs| - 1], o)
  }

  lemma {:induction false} NetAppend(a: seq<Event>, b: seq<Event>, o: Obj)
    ensures Net(a + b, o) == Net(a, o) + Net(b, o)
  {
    if b == [] {
      assert a + b == a;
    } else {
      NetAppend(a, b[..|b| - 1], o);
      assert (a + b)[..|a + b| - 1] == a + b[..|b| - 1];
    }
  }

  lemma {:induction false} NetPair(x: Event, y: Event, o: Obj)
    ensures Net([x], o) == Effect(x, o) && Net([x, y], o) == Effect(x, o) + Effect(y, o)
  {
    assert [x, y][..1] == [x];
  }

  /** magicDel releases one reference per removed entry, except on the anchor's object. */
  lemma {:induction false} DelNet(sv: Sv, ms: seq<Item>, how: int, vtbl: Addr, anchor: Obj, o: Obj)
    requires o != 0
    ensures Net(DelEvents(sv, ms, how, vtbl, anchor), o) ==
      if o == anchor then 0 else Carrying(Remaining(ms, how, vtbl), o) - Carrying(ms, o)
  {
    if ms != [] {
      var before, m := ms[..|ms| - 1], ms[|ms| - 1];
      DelNet(sv, before, how, vtbl, anchor, o);
      NetAppend(DelEvents(sv, before, how, vtbl, anchor), DelEventsOf(sv, m, how, vtbl, anchor), o);
      NetPair(SvtFree(sv, m.at), Dec(m.e.obj), o);
      assert Remaining(before, how, vtbl) + [] == Remaining(before, how, vtbl);
    }
  }

  /** magicFreed releases one reference per entry, except for one that carries the anchor's
      object. */
  lemma {:induction false} FreedNet(sv: Sv, ms: seq<Item>, anchor: Obj, o: Obj)
    requires o != 0
    ensures Net(FreedEvents(sv, ms, anchor), o) ==
      (if o == anchor && Carrying(ms, o) > 0 then 1 else 0) - Carrying(ms, o)
  {
    if ms != [] {
      var before, m := ms[..|ms| - 1], ms[|ms| - 1];
      FreedNet(sv, before, anchor, o);
      NetPair(SvtFree(sv, m.at), Dec(m.e.obj), o);
      NetAppend(FreedEvents(sv, before, anchor), [SvtFree(sv, m.at), Dec(m.e.obj)], o);
      NetAppend(FreedEvents(sv, before, anchor), [SvtFree(sv, m.at)], o);
    }
  }

  // ---- a run over all records -----------------------------------------------------------

  /** A successful call: sv_magicext, whose hook says that the vtable has svt_set, sv_unmagic or
      sv_unmagicext, and the guest's report that the SV with anchor id is freed. */
  datatype Call = Ext(sv: Sv, m: Item, hook: bool) | Del(sv: Sv, how: int, vtbl: Addr) | Freed(id: nat)

  /** A record: its SV, its chain and anchor object, and the entries removed from it; gone once
      the loader dropped it, with the chain as it was then. */
  datatype Life = Life(sv: Sv, chain: seq<Item>, anchor: Obj, removed: seq<Item>, gone: bool)

  /** Every record there has been, the one with anchor id k + 1 at k, and the events so far. */
  datatype Run = Run(lives: seq<Life>, evs: seq<Event>)

  /** The place of the record sv has now. */
  function RecordOf(lives: seq<Life>, sv: Sv): (k: Option<nat>)
    ensures k.Some? ==> k.value < |lives| && !lives[k.value].gone && lives[k.value].sv == sv
    ensures k == None ==> forall i :: 0 <= i < |lives| && lives[i].sv == sv ==> lives[i].gone
  {
    if lives == [] then None
    else if !lives[|lives| - 1].gone && lives[|lives| - 1].sv == sv then Some(|lives| - 1)
    else RecordOf(lives[..|lives| - 1], sv)
  }

  /** Whether the record with anchor id is still there. */
  predicate Present(lives: seq<Life>, id: nat) {
    0 < id <= |lives| && !lives[id - 1].gone
  }

  function ExtEvents(sv: Sv, hook: bool, obj: Obj): seq<Event> {
    (if hook then [SetHook(sv)] else []) + if obj != 0 then [Inc(obj)] else []
  }

  function FirstEvents(sv: Sv, id: nat, hook: bool, obj: Obj): seq<Event> {
    [Attach(sv, id, obj)] + if hook then [SetHook(sv)] else []
  }

  function Removed(ms: seq<Item>, how: int, vtbl: Addr): seq<Item> {
    if ms == [] then [] else
    Removed(ms[..|ms| - 1], how, vtbl) + if Selected(ms[|ms| - 1].e, how, vtbl) then [ms[|ms| - 1]] else []
  }

  function Trimmed(l: Life, how: int, vtbl: Addr): Life {
    var left := Remaining(l.chain, how, vtbl);
    l.(chain := left, removed := l.removed + Removed(l.chain, how, vtbl), gone := left == [])
  }

  function TrimEvents(l: Life, how: int, vtbl: Addr): seq<Event> {
    DelEvents(l.sv, l.chain, how, vtbl, l.anchor) + if Remaining(l.chain, how, vtbl) == [] then [Unattach(l.sv)] else []
  }

  /** An SV without a record, because it never had one or because the last one was dropped, gets a
      new one with its own anchor. */
  function Next(r: Run, c: Call): Run {
    match c
    case Ext(sv, m, hook) =>
      (match RecordOf(r.lives, sv)
       case None => Run(r.lives + [Life(sv, [m], m.e.obj, [], false)], r.evs + FirstEvents(sv, |r.lives| + 1, hook, m.e.obj))
       case Some(k) => Run(r.lives[k := r.lives[k].(chain := [m] + r.lives[k].chain)], r.evs + ExtEvents(sv, hook, m.e.obj)))
    case Del(sv, how, vtbl) =>
      (match RecordOf(r.lives, sv)
       case None => r
       case Some(k) => Run(r.lives[k := Trimmed(r.lives[k], how, vtbl)], r.evs + TrimEvents(r.lives[k], how, vtbl)))
    case Freed(id) =>
      if !Present(r.lives, id) then r else
      var l := r.lives[id - 1];
      Run(r.lives[id - 1 := l.(gone := true)], r.evs + FreedEvents(l.sv, l.chain, l.anchor))
  }

  function After(calls: seq<Call>): Run {
    if calls == [] then Run([], []) else Next(After(calls[..|calls| - 1]), calls[|calls| - 1])
  }

  /** Anchors on o the guest has dropped, each with its own reference. */
  function AnchorsGone(lives: seq<Life>, o: Obj): nat {
    if lives == [] then 0 else
    AnchorsGone(lives[..|lives| - 1], o) + if lives[|lives| - 1].gone && lives[|lives| - 1].anchor == o then 1 else 0
  }

  /** References on o that were taken and not released. */
  function Held(r: Run, o: Obj): int {
    Net(r.evs, o) - AnchorsGone(r.lives, o)
  }

  /** What a record that is gone has left behind on o: nothing except on its anchor's object, and
      there one for each removed carrier, with the anchor standing for one of them when no carrier
      was left in the chain. */
  function Leak(l: Life, o: Obj): int {
    if o != l.anchor then 0 else Carrying(l.removed, o) - if Carrying(l.chain, o) > 0 then 0 else 1
  }

  /** What a record holds: one reference per entry, plus the anchor's removed ones. */
  function HeldBy(l: Life, o: Obj): int {
    if l.gone then Leak(l, o) else Carrying(l.chain, o) + if o == l.anchor then Carrying(l.removed, o) else 0
  }

  function HeldByAll(lives: seq<Life>, o: Obj): int {
    if lives == [] then 0 else HeldByAll(lives[..|lives| - 1], o) + HeldBy(lives[|lives| - 1], o)
  }

  function LeakedByAll(lives: seq<Life>, o: Obj): int {
    if lives == [] then 0 else LeakedByAll(lives[..|lives| - 1], o) + Leak(lives[|lives| - 1], o)
  }

  /** The anchor's object was carried by the first entry. */
  predicate Anchored(l: Life) {
    l.anchor != 0 ==> Carrying(l.chain, l.anchor) + Carrying(l.removed, l.anchor) > 0
  }

  predicate AllAnchored(lives: seq<Life>) {
    forall i :: 0 <= i < |lives| ==> Anchored(lives[i])
  }

  /** No SV has two records at a time. */
  predicate OneEach(lives: seq<Life>) {
    forall i, j :: 0 <= i < j < |lives| && !lives[i].gone && !lives[j].gone ==> lives[i].sv != lives[j].sv
  }

  lemma {:induction false} CarryingJoin(a: seq<Item>, b: seq<Item>, o: Obj)
    ensures Carrying(a + b, o) == Carrying(a, o) + Carrying(b, o)
  {
    if b == [] {
      assert a + b == a;
    } else {
      CarryingJoin(a, b[..|b| - 1], o);
      assert (a + b)[..|a + b| - 1] == a + b[..|b| - 1];
    }
  }

  lemma {:induction false} SplitCarrying(ms: seq<Item>, how: int, vtbl: Addr, o: Obj)
    ensures Carrying(Remaining(ms, how, vtbl), o) + Carrying(Removed(ms, how, vtbl), o) == Carrying(ms, o)
  {
    if ms != [] {
      var before, m := ms[..|ms| - 1], ms[|ms| - 1];
      SplitCarrying(before, how, vtbl, o);
      assert Remaining(before, how, vtbl) + [] == Remaining(before, how, vtbl);
      assert Removed(before, how, vtbl) + [] == Removed(before, how, vtbl);
    }
  }

  lemma {:induction false} OneChanged(lives: seq<Life>, k: nat, l: Life, o: Obj)
    requires k < |lives|
    ensures HeldByAll(lives[k := l], o) - HeldByAll(lives, o) == HeldBy(l, o) - HeldBy(lives[k], o)
    ensures AnchorsGone(lives[k := l], o) - AnchorsGone(lives, o) ==
      (if l.gone && l.anchor == o then 1 else 0) - if lives[k].gone && lives[k].anchor == o then 1 else 0
  {
    var n := |lives| - 1;
    if k < n {
      OneChanged(lives[..n], k, l, o);
      assert lives[k := l][..n] == lives[..n][k := l];
    } else {
      assert lives[k := l][..n] == lives[..n];
    }
  }

  lemma {:induction false} ExtHeld(l: Life, m: Item, hook: bool, o: Obj)
    requires !l.gone && o != 0
    ensures Net(ExtEvents(l.sv, hook, m.e.obj), o) == HeldBy(l.(chain := [m] + l.chain), o) - HeldBy(l, o)
    ensures Anchored(l) ==> Anchored(l.(chain := [m] + l.chain))
  {
    NetPair(Inc(m.e.obj), Inc(m.e.obj), o);
    NetPair(SetHook(l.sv), Inc(m.e.obj), o);
    NetAppend(if hook then [SetHook(l.sv)] else [], if m.e.obj != 0 then [Inc(m.e.obj)] else [], o);
    CarryingJoin([m], l.chain, o);
    CarryingJoin([m], l.chain, l.anchor);
    assert [] + [m] == [m];
  }

  lemma {:induction false} TrimHeld(l: Life, how: int, vtbl: Addr, o: Obj)
    requires !l.gone && o != 0
    ensures var t := Trimmed(l, how, vtbl);
      Net(TrimEvents(l, how, vtbl), o) - (if t.gone && o == l.anchor then 1 else 0) == HeldBy(t, o) - HeldBy(l, o)
  {
    hide DelEvents, Remaining, Removed;
    TrimNet(l, how, vtbl, o);
    DelNet(l.sv, l.chain, how, vtbl, l.anchor, o);
    SplitCarrying(l.chain, how, vtbl, o);
    CarryingJoin(l.removed, Removed(l.chain, how, vtbl), o);
  }

  lemma {:induction false} TrimNet(l: Life, how: int, vtbl: Addr, o: Obj)
    ensures Net(TrimEvents(l, how, vtbl), o) == Net(DelEvents(l.sv, l.chain, how, vtbl, l.anchor), o)
  {
    hide DelEvents, Remaining;
    var evs := DelEvents(l.sv, l.chain, how, vtbl, l.anchor);
    NetAppend(evs, [Unattach(l.sv)], o);
    NetPair(Unattach(l.sv), Unattach(l.sv), o);
    assert evs + [] == evs;
  }

  lemma {:induction false} TrimAnchored(l: Life, how: int, vtbl: Addr)
    requires Anchored(l)
    ensures Anchored(Trimmed(l, how, vtbl))
  {
    hide Remaining, Removed, Carrying;
    SplitCarrying(l.chain, how, vtbl, l.anchor);
    CarryingJoin(l.removed, Removed(l.chain, how, vtbl), l.anchor);
  }

  /** A record changes, and with it what is taken and released. */
  lemma {:induction false} ChangeTallied(r: Run, k: nat, l: Life, evs: seq<Event>, o: Obj)
    requires Held(r, o) == HeldByAll(r.lives, o) && AllAnchored(r.lives) && k < |r.lives| && !r.lives[k].gone && Anchored(l)
    requires Net(evs, o) - (if l.gone && l.anchor == o then 1 else 0) == HeldBy(l, o) - HeldBy(r.lives[k], o)
    ensures var t := Run(r.lives[k := l], r.evs + evs); Held(t, o) == HeldByAll(t.lives, o) && AllAnchored(t.lives)
  {
    hide Net, HeldBy, Anchored;
    NetAppend(r.evs, evs, o);
    OneChanged(r.lives, k, l, o);
  }

  lemma {:induction false} NextTallied(r: Run, c: Call, o: Obj)
    requires Held(r, o) == HeldByAll(r.lives, o) && AllAnchored(r.lives) && o != 0
    ensures Held(Next(r, c), o) == HeldByAll(Next(r, c).lives, o) && AllAnchored(Next(r, c).lives)
  {
    match c
    case Ext(sv, m, hook) => ExtTallied(r, sv, m, hook, o);
    case Del(sv, how, vtbl) =>
      hide Net, TrimEvents, HeldBy, Trimmed, Anchored, Held, HeldByAll;
      if RecordOf(r.lives, sv) != None {
        var k := RecordOf(r.lives, sv).value;
        var l := r.lives[k];
        TrimHeld(l, how, vtbl, o);
        TrimAnchored(l, how, vtbl);
        TrimKeeps(l, how, vtbl);
        ChangeTallied(r, k, Trimmed(l, how, vtbl), TrimEvents(l, how, vtbl), o);
      }
    case Freed(id) =>
      hide Net, FreedEvents, HeldBy, Anchored, Held, HeldByAll;
      if Present(r.lives, id) {
        var l := r.lives[id - 1];
        FreedHeld(l, o);
        ChangeTallied(r, id - 1, l.(gone := true), FreedEvents(l.sv, l.chain, l.anchor), o);
      }
  }

  lemma {:induction false} ExtTallied(r: Run, sv: Sv, m: Item, hook: bool, o: Obj)
    requires Held(r, o) == HeldByAll(r.lives, o) && AllAnchored(r.lives) && o != 0
    ensures var t := Next(r, Ext(sv, m, hook)); Held(t, o) == HeldByAll(t.lives, o) && AllAnchored(t.lives)
  {
    hide Net, ExtEvents, FirstEvents, HeldBy, Anchored;
    if RecordOf(r.lives, sv) == None {
      var id := |r.lives| + 1;
      NetAppend(r.evs, FirstEvents(sv, id, hook, m.e.obj), o);
      FirstHeld(sv, id, m, hook, o);
    } else {
      var k := RecordOf(r.lives, sv).value;
      ExtHeld(r.lives[k], m, hook, o);
      ChangeTallied(r, k, r.lives[k].(chain := [m] + r.lives[k].chain), ExtEvents(sv, hook, m.e.obj), o);
    }
  }

  lemma {:induction false} TrimKeeps(l: Life, how: int, vtbl: Addr)
    ensures Trimmed(l, how, vtbl).anchor == l.anchor && Trimmed(l, how, vtbl).sv == l.sv
  {
  }

  lemma {:induction false} FirstHeld(sv: Sv, id: nat, m: Item, hook: bool, o: Obj)
    requires o != 0
    ensures var l := Life(sv, [m], m.e.obj, [], false);
      Net(FirstEvents(sv, id, hook, m.e.obj), o) == HeldBy(l, o) && Anchored(l)
  {
    NetPair(Attach(sv, id, m.e.obj), SetHook(sv), o);
    assert FirstEvents(sv, id, hook, m.e.obj) == if hook then [Attach(sv, id, m.e.obj), SetHook(sv)] else [Attach(sv, id, m.e.obj)];
    assert Carrying([], o) == 0 && Effect(Attach(sv, id, m.e.obj), o) == if m.e.obj == o then 1 else 0;
    assert [] + [m] == [m];
  }

  lemma {:induction false} FreedHeld(l: Life, o: Obj)
    requires !l.gone && o != 0
    ensures Net(FreedEvents(l.sv, l.chain, l.anchor), o) - (if o == l.anchor then 1 else 0) ==
      HeldBy(l.(gone := true), o) - HeldBy(l, o)
    ensures Anchored(l) ==> Anchored(l.(gone := true))
  {
    FreedNet(l.sv, l.chain, l.anchor, o);
  }

  /** After any run of calls, on however many SVs and records, the references taken and not
      released are exactly those of the records. */
  lemma {:induction false} RunTallied(calls: seq<Call>, o: Obj)
    requires o != 0
    ensures Held(After(calls), o) == HeldByAll(After(calls).lives, o) && AllAnchored(After(calls).lives)
  {
    if calls != [] {
      RunTallied(calls[..|calls| - 1], o);
      NextTallied(After(calls[..|calls| - 1]), calls[|calls| - 1], o);
    }
  }

  predicate AllGone(lives: seq<Life>) {
    forall i :: 0 <= i < |lives| ==> lives[i].gone
  }

  lemma {:induction false} GoneLeaks(lives: seq<Life>, o: Obj)
    requires AllGone(lives) && AllAnchored(lives) && o != 0
    ensures HeldByAll(lives, o) == LeakedByAll(lives, o) >= 0
    ensures LeakedByAll(lives, o) == 0 <==> forall i :: 0 <= i < |lives| ==> Leak(lives[i], o) == 0
  {
    if lives != [] {
      GoneLeaks(lives[..|lives| - 1], o);
      assert Anchored(lives[|lives| - 1]);
      assert forall i :: 0 <= i < |lives| - 1 ==> lives[..|lives| - 1][i] == lives[i];
    }
  }

  /** Reference conservation: once no record is left, what is still held on an object is what the
      records have left behind, each only on its own anchor's object. */
  lemma {:induction false} LeakExact(calls: seq<Call>, o: Obj)
    requires AllGone(After(calls).lives) && o != 0
    ensures Held(After(calls), o) == LeakedByAll(After(calls).lives, o) >= 0
  {
    RunTallied(calls, o);
    GoneLeaks(After(calls).lives, o);
  }

  /** No removed entry carried the anchor's object, or the only entry that ever carried it is the
      one removed. */
  predicate Clean(l: Life) {
    || l.anchor == 0 || Carrying(l.removed, l.anchor) == 0
    || (Carrying(l.removed, l.anchor) == 1 && Carrying(l.chain, l.anchor) == 0)
  }

  /** So every reference is released exactly when every record there was is clean. */
  lemma {:induction false} ConservationExact(calls: seq<Call>)
    requires AllGone(After(calls).lives)
    ensures var r := After(calls);
      (forall o :: o != 0 ==> Held(r, o) == 0) <==> forall i :: 0 <= i < |r.lives| ==> Clean(r.lives[i])
  {
    var r := After(calls);
    forall o: Obj | o != 0
      ensures AllAnchored(r.lives) && (Held(r, o) == 0 <==> forall i :: 0 <= i < |r.lives| ==> Leak(r.lives[i], o) == 0)
    {
      LeakExact(calls, o);
      RunTallied(calls, o);
      GoneLeaks(r.lives, o);
    }
    RunTallied(calls, 1);
    forall i | 0 <= i < |r.lives| ensures Clean(r.lives[i]) <==> NoLeak(r.lives[i]) {
      assert Anchored(r.lives[i]);
      assert r.lives[i].anchor != 0 ==> (Clean(r.lives[i]) <==> Leak(r.lives[i], r.lives[i].anchor) == 0);
    }
    hide Leak, Held, Clean, After;
    if forall o :: o != 0 ==> Held(r, o) == 0 {
      forall i | 0 <= i < |r.lives| ensures NoLeak(r.lives[i]) {
        forall o: Obj | o != 0 ensures Leak(r.lives[i], o) == 0 {
          assert Held(r, o) == 0;
        }
      }
    }
    if forall i :: 0 <= i < |r.lives| ==> NoLeak(r.lives[i]) {
      forall o: Obj | o != 0 ensures Held(r, o) == 0 {
        assert forall i :: 0 <= i < |r.lives| ==> NoLeak(r.lives[i]) && Leak(r.lives[i], o) == 0;
      }
    }
  }

  ghost predicate NoLeak(l: Life) {
    forall o: Obj :: o != 0 ==> Leak(l, o) == 0
  }

  /** What a call does to the newest record. */
  lemma {:induction false} Newest(calls: seq<Call>, lives: seq<Life>, l: Life, c: Call)
    requires After(calls).lives == lives + [l] && !l.gone
    ensures c.Ext? && c.sv == l.sv ==> After(calls + [c]).lives == lives + [l.(chain := [c.m] + l.chain)]
    ensures c.Del? && c.sv == l.sv ==> After(calls + [c]).lives == lives + [Trimmed(l, c.how, c.vtbl)]
    ensures c == Freed(|lives| + 1) ==> After(calls + [c]).lives == lives + [l.(gone := true)]
  {
    assert (calls + [c])[..|calls|] == calls;
    assert RecordOf(lives + [l], l.sv) == Some(|lives|);
    assert forall l2 :: (lives + [l])[|lives| := l2] == lives + [l2];
  }

  lemma {:induction false} FirstOne(calls: seq<Call>, sv: Sv, m: Item)
    requires RecordOf(After(calls).lives, sv) == None
    ensures After(calls + [Ext(sv, m, false)]).lives == After(calls).lives + [Life(sv, [m], m.e.obj, [], false)]
  {
    assert (calls + [Ext(sv, m, false)])[..|calls|] == calls;
  }

  /** Trimming a chain by its head's type, alone or before an entry of another type. */
  lemma {:induction false} HeadTrimmed(m: Item, rest: seq<Item>)
    requires m.e.typ < 256 && |rest| <= 1 && (rest != [] ==> rest[0].e.typ != m.e.typ)
    ensures Remaining([m] + rest, m.e.typ, 0) == rest && Removed([m] + rest, m.e.typ, 0) == [m]
  {
    assert [m][..0] == [] && [] + [m] == [m];
    if rest == [] {
      assert [m] + rest == [m];
    } else {
      assert ([m] + rest)[..1] == [m] && rest == [rest[0]] && [] + rest == rest;
      assert Removed([m], m.e.typ, 0) == [m] && Remaining([m], m.e.typ, 0) == [];
    }
  }

  /** sv's first record is emptied, and the next one has two carriers of its anchor's object. */
  function Reattached(sv: Sv, x: Item, a: Item, b: Item): seq<Call> {
    [Ext(sv, x, false)] + [Del(sv, 1, 0)] + [Ext(sv, a, false)] + [Ext(sv, b, false)]
  }

  /** Then the second carrier is removed, and the SV freed. */
  function LeakingRun(sv: Sv, x: Item, a: Item, b: Item): seq<Call> {
    Reattached(sv, x, a, b) + [Del(sv, 2, 0)] + [Freed(2)]
  }

  lemma {:induction false} ReattachedLives(sv: Sv, x: Item, a: Item, b: Item)
    requires x.e.typ == 1
    ensures After(Reattached(sv, x, a, b)).lives ==
      [Life(sv, [], x.e.obj, [x], true)] + [Life(sv, [b] + [a], a.e.obj, [], false)]
  {
    hide After, RecordOf, Remaining, Removed;
    var l, k := Life(sv, [], x.e.obj, [x], true), Life(sv, [a], a.e.obj, [], false);
    NoRecord(sv, l);
    FirstOne([], sv, x);
    HeadTrimmed(x, []);
    assert [x] + [] == [x] && [] + [x] == [x] && [] + [Ext(sv, x, false)] == [Ext(sv, x, false)];
    Newest([Ext(sv, x, false)], [], Life(sv, [x], x.e.obj, [], false), Del(sv, 1, 0));
    assert Trimmed(Life(sv, [x], x.e.obj, [], false), 1, 0) == l;
    FirstOne([Ext(sv, x, false)] + [Del(sv, 1, 0)], sv, a);
    Newest([Ext(sv, x, false)] + [Del(sv, 1, 0)] + [Ext(sv, a, false)], [l], k, Ext(sv, b, false));
  }

  /** A run that leaks, in the second record an SV has. */
  lemma {:induction false} RemovedCarrierLeaks(sv: Sv, x: Item, a: Item, b: Item)
    requires x.e.typ == 1 && a.e.typ == 1 && b.e.typ == 2 && a.e.obj == b.e.obj && a.e.obj != 0
    ensures AllGone(After(LeakingRun(sv, x, a, b)).lives) && Held(After(LeakingRun(sv, x, a, b)), a.e.obj) == 1
  {
    hide After, Remaining, Removed, Held, Reattached;
    var l, k := Life(sv, [], x.e.obj, [x], true), Life(sv, [b] + [a], a.e.obj, [], false);
    var c := Reattached(sv, x, a, b);
    ReattachedLives(sv, x, a, b);
    HeadTrimmed(b, [a]);
    assert [] + [b] == [b];
    Newest(c, [l], k, Del(sv, 2, 0));
    assert Trimmed(k, 2, 0) == k.(chain := [a], removed := [b]);
    Newest(c + [Del(sv, 2, 0)], [l], k.(chain := [a], removed := [b]), Freed(2));
    var k2 := k.(chain := [a], removed := [b], gone := true);
    LeakExact(LeakingRun(sv, x, a, b), a.e.obj);
    TwoLeaks(l, k2, a.e.obj);
    assert [l] + [k2] == [l, k2];
    CarriedOnce(x, a.e.obj);
    CarriedOnce(a, a.e.obj);
    CarriedOnce(b, a.e.obj);
  }

  lemma {:induction false} NoRecord(sv: Sv, l: Life)
    requires l.gone
    ensures After([]) == Run([], []) && RecordOf([], sv) == None && RecordOf([l], sv) == None
  {
  }

  lemma {:induction false} TwoLeaks(k: Life, l: Life, o: Obj)
    ensures LeakedByAll([k, l], o) == Leak(k, o) + Leak(l, o)
  {
    assert [k, l][..1] == [k] && [k][..0] == [];
    assert LeakedByAll([k], o) == LeakedByAll([], o) + Leak(k, o);
    hide Leak;
  }

  lemma {:induction false} CarriedOnce(m: Item, o: Obj)
    ensures Carrying([m], o) == if m.e.obj == o then 1 else 0
  {
    assert [m][..0] == [];
  }

  /** Every run can end so: the guest frees the SVs. */
  lemma {:induction false} CanEnd(calls: seq<Call>) returns (more: seq<Call>)
    ensures AllGone(After(calls + more).lives) && forall i :: 0 <= i < |more| ==> more[i].Freed?
  {
    var n := |After(calls).lives|;
    more := [];
    assert calls + [] == calls;
    for k := 0 to n
      invariant |After(calls + more).lives| == n
      invariant forall i :: 0 <= i < k ==> After(calls + more).lives[i].gone
      invariant forall i :: 0 <= i < |more| ==> more[i].Freed?
    {
      assert (calls + (more + [Freed(k + 1)]))[..|calls| + |more|] == calls + more;
      more := more + [Freed(k + 1)];
    }
  }

  predicate NoDel(calls: seq<Call>) {
    forall i :: 0 <= i < |calls| ==> !calls[i].Del?
  }

  lemma {:induction false} NothingRemoved(calls: seq<Call>)
    requires NoDel(calls)
    ensures forall i :: 0 <= i < |After(calls).lives| ==> After(calls).lives[i].removed == []
  {
    if calls != [] {
      NothingRemoved(calls[..|calls| - 1]);
    }
  }

  /** Without sv_unmagic every reference is released, however many entries and SVs share objects. */
  lemma {:induction false} ExtOnlyConserves(calls: seq<Call>, o: Obj)
    requires NoDel(calls) && AllGone(After(calls).lives) && o != 0
    ensures Held(After(calls), o) == 0
  {
    NothingRemoved(calls);
    ConservationExact(calls);
  }

  // ---- which entries a removal takes -------------------------------------------------------

  lemma {:induction false} TrimmedExact(ms: seq<Item>, how: int, vtbl: Addr, x: Item)
    ensures x in Remaining(ms, how, vtbl) <==> x in ms && (x.e.typ != how % 256 || (vtbl != 0 && x.e.vtbl != vtbl))
    ensures x in Removed(ms, how, vtbl) <==> x in ms && x.e.typ == how % 256 && (vtbl == 0 || x.e.vtbl == vtbl)
  {
    if ms != [] {
      TrimmedExact(ms[..|ms| - 1], how, vtbl, x);
      assert ms == ms[..|ms| - 1] + [ms[|ms| - 1]];
    }
  }

  /** After sv_unmagicext an entry is still in the SV's chain exactly when it has another type, or a
      vtable was given and it has another; the others are among the record's removed.  sv_unmagic
      gives none. */
  lemma {:induction false} DelExact(calls: seq<Call>, sv: Sv, how: int, vtbl: Addr, x: Item)
    requires RecordOf(After(calls).lives, sv).Some?
    ensures var k := RecordOf(After(calls).lives, sv).value;
      var before, after := After(calls).lives, After(calls + [Del(sv, how, vtbl)]).lives;
      && |after| == |before|
      && (x in before[k].chain ==>
            (x in after[k].chain <==> x.e.typ != how % 256 || (vtbl != 0 && x.e.vtbl != vtbl))
            && (x !in after[k].chain ==> x in after[k].removed))
      && (x in after[k].chain ==> x in before[k].chain)
      && (forall i :: 0 <= i < |before| && i != k ==> after[i] == before[i])
  {
    var k := RecordOf(After(calls).lives, sv).value;
    assert (calls + [Del(sv, how, vtbl)])[..|calls|] == calls;
    TrimmedExact(After(calls).lives[k].chain, how, vtbl, x);
  }

  /** The svt_free calls among events, by entry. */
  function FreeCalls(evs: seq<Event>): seq<Addr> {
    if evs == [] then [] else FreeCalls(evs[..|evs| - 1]) + if evs[|evs| - 1].SvtFree? then [evs[|evs| - 1].mg] else []
  }

  function AtsOf(ms: seq<Item>): (r: seq<Addr>)
    ensures |r| == |ms|
  {
    seq(|ms|, i requires 0 <= i < |ms| => ms[i].at)
  }

  lemma {:induction false} FreeCallsAppend(a: seq<Event>, b: seq<Event>)
    ensures FreeCalls(a + b) == FreeCalls(a) + FreeCalls(b)
  {
    if b == [] {
      assert a + b == a;
    } else {
      FreeCallsAppend(a, b[..|b| - 1]);
      assert (a + b)[..|a + b| - 1] == a + b[..|b| - 1];
    }
  }

  lemma {:induction false} OneFreeCall(sv: Sv, m: Item)
    ensures FreeCalls([SvtFree(sv, m.at)]) == [m.at] && FreeCalls([SvtFree(sv, m.at), Dec(m.e.obj)]) == [m.at] && FreeCalls([Unattach(sv)]) == []
  {
    assert [SvtFree(sv, m.at), Dec(m.e.obj)][..1] == [SvtFree(sv, m.at)];
  }

  lemma {:induction false} DelFrees(sv: Sv, ms: seq<Item>, how: int, vtbl: Addr, anchor: Obj)
    ensures FreeCalls(DelEvents(sv, ms, how, vtbl, anchor)) == AtsOf(Removed(ms, how, vtbl))
  {
    if ms != [] {
      hide FreeCalls, AtsOf, DelEventsOf;
      var before, m := ms[..|ms| - 1], ms[|ms| - 1];
      DelFrees(sv, before, how, vtbl, anchor);
      FreeCallsAppend(DelEvents(sv, before, how, vtbl, anchor), DelEventsOf(sv, m, how, vtbl, anchor));
      OneDelFrees(sv, m, how, vtbl, anchor);
      OneAt(Removed(before, how, vtbl), m);
    } else {
      assert Removed(ms, how, vtbl) == [];
    }
  }

  lemma {:induction false} OneDelFrees(sv: Sv, m: Item, how: int, vtbl: Addr, anchor: Obj)
    ensures FreeCalls(DelEventsOf(sv, m, how, vtbl, anchor)) == if Selected(m.e, how, vtbl) then [m.at] else []
  {
    OneFreeCall(sv, m);
  }

  lemma {:induction false} OneAt(ms: seq<Item>, m: Item)
    ensures AtsOf(ms + [m]) == AtsOf(ms) + [m.at] && AtsOf(ms + []) == AtsOf(ms) + []
  {
    assert ms + [] == ms;
  }

  lemma {:induction false} FreedFrees(sv: Sv, ms: seq<Item>, anchor: Obj)
    ensures FreeCalls(FreedEvents(sv, ms, anchor)) == AtsOf(ms)
  {
    if ms != [] {
      var before, m := ms[..|ms| - 1], ms[|ms| - 1];
      FreedFrees(sv, before, anchor);
      FreeCallsAppend(FreedEvents(sv, before, anchor), [SvtFree(sv, m.at), Dec(m.e.obj)]);
      FreeCallsAppend(FreedEvents(sv, before, anchor), [SvtFree(sv, m.at)]);
      OneFreeCall(sv, m);
    }
  }

  /** The entries a record lost to a call, in chain order: all of them when its SV is freed. */
  function LostBy(r: Run, c: Call): seq<Item> {
    match c
    case Ext(_, _, _) => []
    case Del(sv, how, vtbl) =>
      (match RecordOf(r.lives, sv) case None => [] case Some(k) => Removed(r.lives[k].chain, how, vtbl))
    case Freed(id) => if Present(r.lives, id) then r.lives[id - 1].chain else []
  }

  /** Over a run svt_free is called for exactly the entries that were lost, once each and in order,
      with the call that loses them. */
  lemma {:induction false} FreesExact(calls: seq<Call>, c: Call)
    ensures var r, t := After(calls), After(calls + [c]);
      r.evs <= t.evs && FreeCalls(t.evs) == FreeCalls(r.evs) + AtsOf(LostBy(r, c))
  {
    assert (calls + [c])[..|calls|] == calls;
    hide Next;
    NextFrees(After(calls), c);
  }

  lemma {:induction false} NextFrees(r: Run, c: Call)
    ensures r.evs <= Next(r, c).evs && FreeCalls(Next(r, c).evs) == FreeCalls(r.evs) + AtsOf(LostBy(r, c))
  {
    hide FreeCalls, TrimEvents, ExtEvents, FirstEvents, FreedEvents, Removed, Trimmed, AtsOf;
    NothingLost(r);
    match c
    case Ext(sv, m, hook) =>
      ExtFrees(sv, |r.lives| + 1, hook, m.e.obj);
      FreeCallsAppend(r.evs, if RecordOf(r.lives, sv) == None then FirstEvents(sv, |r.lives| + 1, hook, m.e.obj) else ExtEvents(sv, hook, m.e.obj));
    case Del(sv, how, vtbl) =>
      if RecordOf(r.lives, sv).Some? {
        var l := r.lives[RecordOf(r.lives, sv).value];
        TrimFrees(l, how, vtbl);
        FreeCallsAppend(r.evs, TrimEvents(l, how, vtbl));
      }
    case Freed(id) =>
      if Present(r.lives, id) {
        var l := r.lives[id - 1];
        FreedFrees(l.sv, l.chain, l.anchor);
        FreeCallsAppend(r.evs, FreedEvents(l.sv, l.chain, l.anchor));
      }
  }

  lemma {:induction false} NothingLost(r: Run)
    ensures FreeCalls(r.evs) + AtsOf([]) == FreeCalls(r.evs) && FreeCalls(r.evs) + [] == FreeCalls(r.evs)
  {
    assert AtsOf([]) == [];
  }

  lemma {:induction false} TrimFrees(l: Life, how: int, vtbl: Addr)
    ensures FreeCalls(TrimEvents(l, how, vtbl)) == AtsOf(Removed(l.chain, how, vtbl))
  {
    hide FreeCalls, DelEvents, Removed, Remaining, AtsOf;
    var evs := DelEvents(l.sv, l.chain, how, vtbl, l.anchor);
    DelFrees(l.sv, l.chain, how, vtbl, l.anchor);
    FreeCallsAppend(evs, [Unattach(l.sv)]);
    OneFreeCall(l.sv, Item(0, Entry(0, 0, 0, 0, 0, 0)));
    assert evs + [] == evs && FreeCalls(evs) + [] == FreeCalls(evs);
  }

  lemma {:induction false} ExtFrees(sv: Sv, id: nat, hook: bool, obj: Obj)
    ensures FreeCalls(ExtEvents(sv, hook, obj)) == [] && FreeCalls(FirstEvents(sv, id, hook, obj)) == []
  {
    var e := ExtEvents(sv, hook, obj);
    assert e == [] || e == [SetHook(sv)] || e == [Inc(obj)] || e == [SetHook(sv), Inc(obj)];
    NoFreeCall(SetHook(sv), Inc(obj));
    NoFreeCall(Inc(obj), SetHook(sv));
    var f := FirstEvents(sv, id, hook, obj);
    assert f == [Attach(sv, id, obj)] || f == [Attach(sv, id, obj), SetHook(sv)];
    NoFreeCall(Attach(sv, id, obj), SetHook(sv));
  }

  lemma {:induction false} NoFreeCall(x: Event, y: Event)
    requires !x.SvtFree? && !y.SvtFree?
    ensures FreeCalls([]) == FreeCalls([x]) == FreeCalls([x, y]) == []
  {
    assert [x][..0] == [] && [x, y][..1] == [x];
  }

  /** A reference is released only right after an entry's svt_free has run, and neither taken nor
      released on no object. */
  predicate Releases(evs: seq<Event>) {
    forall i :: 0 <= i < |evs| ==> ReleaseAt(evs, i)
  }

  predicate ReleaseAt(evs: seq<Event>, i: nat)
    requires i < |evs|
  {
    evs[i] != Inc(0) && (evs[i].Dec? ==> evs[i].obj != 0 && i > 0 && evs[i - 1].SvtFree?)
  }

  lemma {:induction false} ReleasesAppend(a: seq<Event>, b: seq<Event>)
    requires Releases(a) && Releases(b)
    ensures Releases(a + b)
  {
    forall i | 0 <= i < |a + b| ensures ReleaseAt(a + b, i) {
      if i >= |a| {
        assert ReleaseAt(b, i - |a|);
      } else {
        assert ReleaseAt(a, i);
      }
    }
  }

  lemma {:induction false} DelReleases(sv: Sv, ms: seq<Item>, how: int, vtbl: Addr, anchor: Obj)
    ensures Releases(DelEvents(sv, ms, how, vtbl, anchor)) && Releases(FreedEvents(sv, ms, anchor))
  {
    if ms != [] {
      var before, m := ms[..|ms| - 1], ms[|ms| - 1];
      DelReleases(sv, before, how, vtbl, anchor);
      ReleasesAppend(DelEvents(sv, before, how, vtbl, anchor), DelEventsOf(sv, m, how, vtbl, anchor));
      ReleasesAppend(FreedEvents(sv, before, anchor),
                     if m.e.obj != 0 && m.e.obj != AnchorAfter(before, anchor) then [SvtFree(sv, m.at), Dec(m.e.obj)] else [SvtFree(sv, m.at)]);
    }
  }

  lemma {:induction false} NextReleases(r: Run, c: Call)
    requires Releases(r.evs)
    ensures Releases(Next(r, c).evs)
  {
    hide Releases, DelEvents, FreedEvents, Trimmed;
    match c
    case Ext(sv, m, hook) =>
      ExtReleases(sv, |r.lives| + 1, hook, m.e.obj);
      ReleasesAppend(r.evs, if RecordOf(r.lives, sv) == None then FirstEvents(sv, |r.lives| + 1, hook, m.e.obj) else ExtEvents(sv, hook, m.e.obj));
    case Del(sv, how, vtbl) =>
      if RecordOf(r.lives, sv).Some? {
        var l := r.lives[RecordOf(r.lives, sv).value];
        DelReleases(l.sv, l.chain, how, vtbl, l.anchor);
        NothingReleased(l.sv);
        ReleasesAppend(DelEvents(l.sv, l.chain, how, vtbl, l.anchor), if Remaining(l.chain, how, vtbl) == [] then [Unattach(l.sv)] else []);
        ReleasesAppend(r.evs, TrimEvents(l, how, vtbl));
      }
    case Freed(id) =>
      if Present(r.lives, id) {
        var l := r.lives[id - 1];
        DelReleases(l.sv, l.chain, 0, 0, l.anchor);
        ReleasesAppend(r.evs, FreedEvents(l.sv, l.chain, l.anchor));
      }
  }

  lemma {:induction false} NothingReleased(sv: Sv)
    ensures Releases([Unattach(sv)]) && Releases([])
  {
  }

  lemma {:induction false} ExtReleases(sv: Sv, id: nat, hook: bool, obj: Obj)
    ensures Releases(FirstEvents(sv, id, hook, obj)) && Releases(ExtEvents(sv, hook, obj))
  {
  }

  /** So it is over every run. */
  lemma {:induction false} AlwaysReleases(calls: seq<Call>)
    ensures Releases(After(calls).evs)
  {
    if calls != [] {
      hide Releases, Next;
      AlwaysReleases(calls[..|calls| - 1]);
      NextReleases(After(calls[..|calls| - 1]), calls[|calls| - 1]);
    } else {
      NothingReleased(0);
    }
  }

  /** What sv_magicext asks of the guest: the set hook exactly for a vtable with svt_set, an anchor
      with the next id and the entry's object exactly for an SV without a record, and otherwise a
      reference on the object if there is one. */
  lemma {:induction false} ExtAsks(calls: seq<Call>, sv: Sv, x: Item, hook: bool)
    ensures var r, t := After(calls), After(calls + [Ext(sv, x, hook)]);
      && r.evs <= t.evs
      && var asked := t.evs[|r.evs|..];
      if RecordOf(r.lives, sv) == None then
        forall e :: e in asked <==> e == Attach(sv, |r.lives| + 1, x.e.obj) || (hook && e == SetHook(sv))
      else
        forall e :: e in asked <==> (x.e.obj != 0 && e == Inc(x.e.obj)) || (hook && e == SetHook(sv))
  {
    assert (calls + [Ext(sv, x, hook)])[..|calls|] == calls;
    var r := After(calls);
    hide After, RecordOf;
    AskedFirst(sv, |r.lives| + 1, hook, x.e.obj);
    AskedMore(sv, hook, x.e.obj);
    hide FirstEvents, ExtEvents;
    var more := if RecordOf(r.lives, sv) == None then FirstEvents(sv, |r.lives| + 1, hook, x.e.obj) else ExtEvents(sv, hook, x.e.obj);
    assert Next(r, Ext(sv, x, hook)).evs == r.evs + more && (r.evs + more)[|r.evs|..] == more;
  }

  lemma {:induction false} AskedFirst(sv: Sv, id: nat, hook: bool, obj: Obj)
    ensures forall e :: e in FirstEvents(sv, id, hook, obj) <==> e == Attach(sv, id, obj) || (hook && e == SetHook(sv))
  {
  }

  lemma {:induction false} AskedMore(sv: Sv, hook: bool, obj: Obj)
    ensures forall e :: e in ExtEvents(sv, hook, obj) <==> (obj != 0 && e == Inc(obj)) || (hook && e == SetHook(sv))
  {
  }

  /** The guest's anchor goes exactly when sv_unmagic leaves nothing of a record, and last. */
  lemma {:induction false} DetachExact(calls: seq<Call>, sv: Sv, how: int, vtbl: Addr)
    requires RecordOf(After(calls).lives, sv).Some?
    ensures var k := RecordOf(After(calls).lives, sv).value;
      var r, t := After(calls), After(calls + [Del(sv, how, vtbl)]);
      && r.evs <= t.evs && k < |t.lives|
      && var asked := t.evs[|r.evs|..];
      && (t.lives[k].chain == [] <==> asked != [] && asked[|asked| - 1] == Unattach(sv))
      && (t.lives[k].gone <==> t.lives[k].chain == [])
      && forall i :: 0 <= i < |asked| - 1 ==> asked[i] != Unattach(sv)
  {
    assert (calls + [Del(sv, how, vtbl)])[..|calls|] == calls;
    var r := After(calls);
    var l := r.lives[RecordOf(r.lives, sv).value];
    NoDetach(l.sv, l.chain, how, vtbl, l.anchor);
    hide DelEvents;
    var more := TrimEvents(l, how, vtbl);
    assert After(calls + [Del(sv, how, vtbl)]).evs == r.evs + more && (r.evs + more)[|r.evs|..] == more;
  }

  lemma {:induction false} NoDetach(sv: Sv, ms: seq<Item>, how: int, vtbl: Addr, anchor: Obj)
    ensures forall e :: e in DelEvents(sv, ms, how, vtbl, anchor) ==> !e.Unattach?
  {
    if ms != [] {
      NoDetach(sv, ms[..|ms| - 1], how, vtbl, anchor);
    }
  }

  /** Whether a call can take an entry of the record at k away: its SV is freed, or entries of its
      type are removed by its vtable or by none. */
  predicate Takes(c: Call, sv: Sv, k: nat, x: Item) {
    || c == Freed(k + 1)
    || (c.Del? && c.sv == sv && c.how % 256 == x.e.typ && (c.vtbl == 0 || c.vtbl == x.e.vtbl))
  }

  /** x is in the chain of sv's record at k. */
  predicate Attached(lives: seq<Life>, sv: Sv, k: nat, x: Item) {
    RecordOf(lives, sv) == Some(k) && k < |lives| && x in lives[k].chain
  }

  /** So a module's entry stays attached through whatever other modules add and remove, until it is
      itself removed or its SV is freed. */
  lemma {:induction false} EntryStays(calls: seq<Call>, more: seq<Call>, sv: Sv, k: nat, x: Item)
    requires Attached(After(calls).lives, sv, k, x)
    requires forall i :: 0 <= i < |more| ==> !Takes(more[i], sv, k, x)
    ensures Attached(After(calls + more).lives, sv, k, x)
  {
    hide Next;
    if more == [] {
      assert calls + more == calls;
    } else {
      var less := more[..|more| - 1];
      EntryStays(calls, less, sv, k, x);
      assert (calls + more)[..|calls + more| - 1] == calls + less;
      AlwaysOneEach(calls + less);
      StaysAttached(After(calls + less), more[|more| - 1], sv, k, x);
    }
  }

  /** An entry is attached once sv_magicext has returned. */
  lemma {:induction false} ExtAttaches(calls: seq<Call>, sv: Sv, x: Item, hook: bool) returns (k: nat)
    ensures Attached(After(calls + [Ext(sv, x, hook)]).lives, sv, k, x)
    ensures var lives := After(calls + [Ext(sv, x, hook)]).lives; k < |lives| && lives[k].chain[0] == x
    ensures k == match RecordOf(After(calls).lives, sv) case None => |After(calls).lives| case Some(i) => i
  {
    assert (calls + [Ext(sv, x, hook)])[..|calls|] == calls;
    var r := After(calls);
    AlwaysOneEach(calls);
    match RecordOf(r.lives, sv) {
      case None =>
        k := |r.lives|;
        var l := Life(sv, [x], x.e.obj, [], false);
        assert After(calls + [Ext(sv, x, hook)]).lives == r.lives + [l] && (r.lives + [l])[k] == l;
      case Some(i) =>
        k := i;
        RecordChanged(r.lives, k, r.lives[k].(chain := [x] + r.lives[k].chain), sv);
    }
  }

  lemma {:induction false} StaysAttached(r: Run, c: Call, sv: Sv, k: nat, x: Item)
    requires OneEach(r.lives) && Attached(r.lives, sv, k, x) && !Takes(c, sv, k, x)
    ensures Attached(Next(r, c).lives, sv, k, x)
  {
    hide Remaining, Removed;
    match c
    case Ext(s, m, hook) =>
      if RecordOf(r.lives, s) == None {
        var l := Life(s, [m], m.e.obj, [], false);
        assert (r.lives + [l])[..|r.lives|] == r.lives;
      } else {
        var i := RecordOf(r.lives, s).value;
        RecordChanged(r.lives, i, r.lives[i].(chain := [m] + r.lives[i].chain), sv);
      }
    case Del(s, how, vtbl) =>
      if RecordOf(r.lives, s) != None {
        var i := RecordOf(r.lives, s).value;
        TrimmedExact(r.lives[i].chain, how, vtbl, x);
        RecordChanged(r.lives, i, Trimmed(r.lives[i], how, vtbl), sv);
      }
    case Freed(id) =>
      if Present(r.lives, id) {
        RecordChanged(r.lives, id - 1, r.lives[id - 1].(gone := true), sv);
        OnlyRecord(r.lives, id - 1, sv, k);
      }
  }

  /** The record present at k is its SV's. */
  lemma {:induction false} OnlyRecord(lives: seq<Life>, i: nat, sv: Sv, k: nat)
    requires OneEach(lives) && RecordOf(lives, sv) == Some(k) && i < |lives| && !lives[i].gone
    ensures lives[i].sv == sv <==> i == k
  {
  }

  lemma {:induction false} AlwaysOneEach(calls: seq<Call>)
    ensures OneEach(After(calls).lives)
  {
    if calls != [] {
      AlwaysOneEach(calls[..|calls| - 1]);
    }
  }

  // ---- what the records of a run tell of the loader's --------------------------------------

  /** A record as the loader has it: anchor id and object, and the entries of its chain. */
  datatype Told = Told(id: nat, anchor: Obj, items: seq<Item>)

  ghost predicate Tells(lives: seq<Life>, view: map<Sv, Told>) {
    && OneEach(lives)
    && forall sv :: TellsOf(lives, sv, view)
  }

  /** The run r has these events, this many records and this view. */
  ghost predicate LedTo(r: Run, events: seq<Event>, next: nat, view: map<Sv, Told>) {
    events == r.evs && next == |r.lives| && Tells(r.lives, view)
  }

  ghost predicate TellsOf(lives: seq<Life>, sv: Sv, view: map<Sv, Told>) {
    match RecordOf(lives, sv)
    case None => sv !in view
    case Some(i) => sv in view && view[sv] == Told(i + 1, lives[i].anchor, lives[i].chain)
  }

  /** A record that changes and stays, or goes, moves no other. */
  lemma {:induction false} RecordChanged(lives: seq<Life>, k: nat, l: Life, sv: Sv)
    requires k < |lives| && !lives[k].gone && l.sv == lives[k].sv && OneEach(lives)
    ensures RecordOf(lives[k := l], sv) == if l.gone && sv == l.sv then None else RecordOf(lives, sv)
  {
    var n := |lives| - 1;
    if k < n {
      RecordChanged(lives[..n], k, l, sv);
      assert lives[k := l][..n] == lives[..n][k := l];
    } else {
      assert lives[k := l][..n] == lives[..n];
    }
  }

  lemma {:induction false} TellsChanged(lives: seq<Life>, k: nat, l: Life, view: map<Sv, Told>)
    requires Tells(lives, view) && k < |lives| && !lives[k].gone && l.sv == lives[k].sv && l.anchor == lives[k].anchor
    ensures RecordOf(lives, l.sv) == Some(k) && l.sv in view && view[l.sv] == Told(k + 1, l.anchor, lives[k].chain)
    ensures Tells(lives[k := l], if l.gone then view - {l.sv} else view[l.sv := Told(k + 1, l.anchor, l.chain)])
  {
    assert TellsOf(lives, l.sv, view);
    var lives2 := lives[k := l];
    var view2 := if l.gone then view - {l.sv} else view[l.sv := Told(k + 1, l.anchor, l.chain)];
    forall sv: Sv ensures TellsOf(lives2, sv, view2) {
      assert TellsOf(lives, sv, view);
      RecordChanged(lives, k, l, sv);
    }
  }

  lemma {:induction false} TellsAdded(lives: seq<Life>, l: Life, view: map<Sv, Told>)
    requires Tells(lives, view) && RecordOf(lives, l.sv) == None && !l.gone
    ensures l.sv !in view && Tells(lives + [l], view[l.sv := Told(|lives| + 1, l.anchor, l.chain)])
  {
    assert TellsOf(lives, l.sv, view);
    var lives2, view2 := lives + [l], view[l.sv := Told(|lives| + 1, l.anchor, l.chain)];
    forall sv: Sv ensures TellsOf(lives2, sv, view2) {
      assert TellsOf(lives, sv, view);
      assert lives2[..|lives|] == lives;
    }
  }

  lemma {:induction false} ExtTells(r: Run, sv: Sv, m: Item, hook: bool, view: map<Sv, Told>, told: Told)
    requires Tells(r.lives, view)
    requires told.items == [m] + (if sv in view then view[sv].items else [])
    requires if sv in view then told.id == view[sv].id && told.anchor == view[sv].anchor else told.id == |r.lives| + 1 && told.anchor == m.e.obj
    ensures var t := Next(r, Ext(sv, m, hook));
      && Tells(t.lives, view[sv := told]) && |t.lives| == (if sv in view then |r.lives| else told.id)
      && t.evs == r.evs + if sv in view then ExtEvents(sv, hook, m.e.obj) else FirstEvents(sv, told.id, hook, m.e.obj)
  {
    hide Tells, ExtEvents, FirstEvents;
    match RecordOf(r.lives, sv) {
      case None =>
        TellsAdded(r.lives, Life(sv, [m], m.e.obj, [], false), view);
        assert [m] + [] == [m];
      case Some(k) =>
        TellsChanged(r.lives, k, r.lives[k].(chain := [m] + r.lives[k].chain), view);
    }
  }

  lemma {:induction false} DelTells(r: Run, sv: Sv, how: int, vtbl: Addr, view: map<Sv, Told>)
    requires Tells(r.lives, view)
    ensures var t := Next(r, Del(sv, how, vtbl));
      && |t.lives| == |r.lives|
      && if sv !in view then t == r else
         var left := Remaining(view[sv].items, how, vtbl);
         && Tells(t.lives, if left == [] then view - {sv} else view[sv := view[sv].(items := left)])
         && t.evs == r.evs + (DelEvents(sv, view[sv].items, how, vtbl, view[sv].anchor) + if left == [] then [Unattach(sv)] else [])
  {
    hide DelEvents, Remaining;
    assert TellsOf(r.lives, sv, view);
    if sv in view {
      var k := RecordOf(r.lives, sv).value;
      hide Tells;
      TellsChanged(r.lives, k, Trimmed(r.lives[k], how, vtbl), view);
    }
  }

  lemma {:induction false} FreedTells(r: Run, sv: Sv, view: map<Sv, Told>)
    requires Tells(r.lives, view) && sv in view
    ensures var t := Next(r, Freed(view[sv].id));
      && |t.lives| == |r.lives| && Tells(t.lives, view - {sv})
      && t.evs == r.evs + FreedEvents(sv, view[sv].items, view[sv].anchor)
  {
    hide FreedEvents;
    assert TellsOf(r.lives, sv, view);
    var k := RecordOf(r.lives, sv).value;
    hide Tells;
    TellsChanged(r.lives, k, r.lives[k].(gone := true), view);
  }

  lemma {:induction false} NotTold(r: Run, id: nat, view: map<Sv, Told>)
    requires Tells(r.lives, view) && forall sv :: sv in view ==> view[sv].id != id
    ensures Next(r, Freed(id)) == r
  {
    if Present(r.lives, id) {
      var l := r.lives[id - 1];
      TellsChanged(r.lives, id - 1, l, view);
    }
  }

  // ---- chains in the C heap -----------------------------------------------------------

  type Heap = map<Addr, Entry>

  ghost predicate Chain(heap: Heap, head: Addr, list: seq<Addr>)
    decreases |list|
  {
    if list == [] then head == 0
    else head == list[0] && head != 0 && head in heap && Chain(heap, heap[head].more, list[1..])
  }

  ghost predicate NoDup(s: seq<Addr>) {
    forall i, j :: 0 <= i < j < |s| ==> s[i] != s[j]
  }

  lemma {:induction false} ChainFrame(heap: Heap, heap2: Heap, head: Addr, list: seq<Addr>)
    requires Chain(heap, head, list)
    requires forall a :: a in list && a in heap ==> a in heap2 && heap2[a].more == heap[a].more
    ensures Chain(heap2, head, list)
    decreases |list|
  {
    if list != [] {
      ChainFrame(heap, heap2, heap[head].more, list[1..]);
    }
  }

  lemma {:induction false} ChainMembers(heap: Heap, head: Addr, list: seq<Addr>)
    requires Chain(heap, head, list)
    ensures forall a :: a in list ==> a in heap && a != 0
    decreases |list|
  {
    if list != [] {
      ChainMembers(heap, heap[head].more, list[1..]);
      assert list == [list[0]] + list[1..];
    }
  }

  /** The chain after its first entry x: what an unlink of x leaves, wherever its link is put. */
  lemma {:induction false} RestKept(heap: Heap, heap2: Heap, x: Addr, rest: seq<Addr>)
    requires Chain(heap, x, [x] + rest) && KeptAt(heap, heap2, rest)
    ensures x in heap && Chain(heap2, heap[x].more, rest)
  {
    assert ([x] + rest)[1..] == rest;
    ChainFrame(heap, heap2, heap[x].more, rest);
  }

  lemma {:induction false} UnlinkKeepsChain(heap: Heap, heap2: Heap, head: Addr, left: seq<Addr>, x: Addr, rest: seq<Addr>)
    requires Chain(heap, head, left + [x] + rest) && x in heap && KeptAt(heap, heap2, rest)
    requires forall i :: 0 <= i < |left| - 1 ==> left[i] in heap && left[i] in heap2 && heap2[left[i]].more == heap[left[i]].more
    requires left != [] ==> left[|left| - 1] in heap2 && heap2[left[|left| - 1]].more == heap[x].more
    ensures Chain(heap2, if left == [] then heap[x].more else head, left + rest)
    decreases |left|
  {
    var list := left + [x] + rest;
    if left == [] {
      assert list == [x] + rest && left + rest == rest;
      RestKept(heap, heap2, x, rest);
    } else {
      var tail := left[1..];
      assert list[1..] == tail + [x] + rest && (left + rest)[1..] == tail + rest;
      assert head == left[0];
      if tail == [] {
        assert tail + [x] + rest == [x] + rest && tail + rest == rest;
        RestKept(heap, heap2, x, rest);
      } else {
        assert left[|left| - 1] == tail[|tail| - 1];
        UnlinkKeepsChain(heap, heap2, heap[head].more, tail, x, rest);
      }
    }
  }

  // ---- the loader ---------------------------------------------------------------------

  /** The entries of a chain with their links left out. */
  function Items(list: seq<Addr>, heap: Heap): (r: seq<Item>)
    requires forall a :: a in list ==> a in heap
    ensures |r| == |list|
  {
    seq(|list|, i requires 0 <= i < |list| => Item(list[i], heap[list[i]].(more := 0)))
  }

  /** The entries of list are the same in both heaps, links aside. */
  ghost predicate SameEntries(heap0: Heap, heap: Heap, list: seq<Addr>) {
    forall a :: a in list ==> a in heap0 && a in heap && heap0[a].(more := 0) == heap[a].(more := 0)
  }

  /** view has the entries of the chains. */
  ghost predicate Listed(heap: Heap, chains: map<Sv, seq<Addr>>, view: map<Sv, Told>) {
    forall s :: s in view ==>
      s in chains && (forall a :: a in chains[s] ==> a in heap) && view[s].items == Items(chains[s], heap)
  }

  /** An entry that owns the copy of its name. */
  predicate OwnsName(e: Entry) {
    e.len > 0 && e.ptr != 0
  }

  ghost predicate NamesOk(heap: Heap, names: set<Addr>) {
    && (forall a :: a in heap && OwnsName(heap[a]) ==> heap[a].ptr in names)
    && (forall a, b :: a in heap && b in heap && a != b && OwnsName(heap[a]) && OwnsName(heap[b]) ==> heap[a].ptr != heap[b].ptr)
    && heap.Keys !! names && 0 !in heap && 0 !in names
  }

  /** Every head starts the chain listed for it and no entry is in two chains. */
  ghost predicate ChainsOk(heap: Heap, heads: map<Sv, Addr>, chains: map<Sv, seq<Addr>>) {
    && heads.Keys == chains.Keys
    && (forall sv :: sv in chains ==> Chain(heap, heads[sv], chains[sv]) && NoDup(chains[sv]))
    && (forall s1, s2 :: s1 in chains && s2 in chains && s1 != s2 ==> Apart(chains[s1], chains[s2]))
  }

  ghost predicate Apart(l1: seq<Addr>, l2: seq<Addr>) {
    forall a :: a in l1 ==> a !in l2
  }

  /** The heap is unchanged at every entry of the chains other than sv's. */
  ghost predicate OthersKept(heap: Heap, heap2: Heap, chains: map<Sv, seq<Addr>>, sv: Sv) {
    forall s :: s in chains && s != sv ==> KeptAt(heap, heap2, chains[s])
  }

  ghost predicate KeptAt(heap: Heap, heap2: Heap, list: seq<Addr>) {
    forall a :: a in list && a in heap ==> a in heap2 && heap2[a] == heap[a]
  }

  lemma {:induction false} OneChainChanged(heap: Heap, heap2: Heap, heads: map<Sv, Addr>, chains: map<Sv, seq<Addr>>, sv: Sv, head: Addr, list: seq<Addr>)
    requires ChainsOk(heap, heads, chains) && Chain(heap2, head, list) && NoDup(list)
    requires OthersKept(heap, heap2, chains, sv) && forall s :: s in chains && s != sv ==> Apart(chains[s], list)
    ensures ChainsOk(heap2, heads[sv := head], chains[sv := list])
  {
    hide Chain, NoDup, Apart, KeptAt;
    ChainDropped(heap, heap2, heads, chains, sv);
    ChainAdded(heap2, heads - {sv}, chains - {sv}, sv, head, list);
    assert heads[sv := head] == (heads - {sv})[sv := head] && chains[sv := list] == (chains - {sv})[sv := list];
  }

  lemma {:induction false} ChainAdded(heap: Heap, heads: map<Sv, Addr>, chains: map<Sv, seq<Addr>>, sv: Sv, head: Addr, list: seq<Addr>)
    requires ChainsOk(heap, heads, chains) && sv !in chains && Chain(heap, head, list) && NoDup(list)
    requires forall s :: s in chains ==> Apart(chains[s], list)
    ensures ChainsOk(heap, heads[sv := head], chains[sv := list])
  {
    hide Chain, NoDup, Apart;
    forall s | s in chains ensures Apart(list, chains[s]) {
      ApartBack(chains[s], list);
    }
  }

  lemma {:induction false} ApartBack(l1: seq<Addr>, l2: seq<Addr>)
    requires Apart(l1, l2)
    ensures Apart(l2, l1)
  {
  }

  lemma {:induction false} ChainDropped(heap: Heap, heap2: Heap, heads: map<Sv, Addr>, chains: map<Sv, seq<Addr>>, sv: Sv)
    requires ChainsOk(heap, heads, chains) && OthersKept(heap, heap2, chains, sv)
    ensures ChainsOk(heap2, heads - {sv}, chains - {sv})
  {
    forall s | s in chains && s != sv ensures Chain(heap2, heads[s], chains[s]) {
      ChainFrame(heap, heap2, heads[s], chains[s]);
    }
  }

  ghost predicate Unlisted(chains: map<Sv, seq<Addr>>, at: Addr) {
    forall s :: s in chains ==> at !in chains[s]
  }

  /** An entry at a fresh address is in no chain yet. */
  lemma {:induction false} FreshEntryKeeps(heap: Heap, heads: map<Sv, Addr>, chains: map<Sv, seq<Addr>>, at: Addr, e: Entry)
    requires ChainsOk(heap, heads, chains) && at !in heap
    ensures ChainsOk(heap[at := e], heads, chains) && Unlisted(chains, at)
  {
    forall s | s in chains ensures at !in chains[s] && Chain(heap[at := e], heads[s], chains[s]) {
      ChainMembers(heap, heads[s], chains[s]);
      ChainFrame(heap, heap[at := e], heads[s], chains[s]);
    }
  }

  /** An entry linked to the old head goes in front of its SV's chain. */
  lemma {:induction false} PrependKeeps(heap: Heap, heads: map<Sv, Addr>, chains: map<Sv, seq<Addr>>, sv: Sv, at: Addr)
    requires ChainsOk(heap, heads, chains) && at != 0 && at in heap && Unlisted(chains, at)
    requires heap[at].more == if sv in heads then heads[sv] else 0
    ensures ChainsOk(heap, heads[sv := at], chains[sv := [at] + if sv in chains then chains[sv] else []])
  {
    var was := if sv in chains then chains[sv] else [];
    assert ([at] + was)[1..] == was;
    OneChainChanged(heap, heap, heads, chains, sv, at, [at] + was);
  }

  function NameOf(e: Entry): set<Addr> {
    if OwnsName(e) then {e.ptr} else {}
  }

  /** heap2 is heap without the entries in gone; the others differ in links at most. */
  ghost predicate Lost(heap: Heap, heap2: Heap, gone: set<Addr>) {
    && heap2.Keys == heap.Keys - gone
    && forall a :: a in heap2 ==> heap2[a].(more := 0) == heap[a].(more := 0)
  }

  function Ats(ms: seq<Item>): set<Addr> {
    set i | 0 <= i < |ms| :: ms[i].at
  }

  /** The name copies the entries own. */
  function Names(ms: seq<Item>): set<Addr> {
    set i | 0 <= i < |ms| && OwnsName(ms[i].e) :: ms[i].e.ptr
  }

  lemma {:induction false} PartsApart(left: seq<Addr>, x: Addr, rest: seq<Addr>)
    requires NoDup(left + [x] + rest)
    ensures x !in left && x !in rest && (forall a :: a in rest ==> a !in left) && NoDup(left + rest)
  {
    var list := left + [x] + rest;
    forall i | 0 <= i < |left| ensures list[i] == left[i] {
    }
    forall i | 0 <= i < |rest| ensures list[|left| + 1 + i] == rest[i] {
    }
    assert list[|left|] == x;
    var l2 := left + rest;
    forall i, j | 0 <= i < j < |l2| ensures l2[i] != l2[j] {
      var i2 := if i < |left| then i else i + 1;
      var j2 := if j < |left| then j else j + 1;
      assert list[i2] == l2[i] && list[j2] == l2[j];
    }
  }

  /** The heap with prev, if any, linked past mg and mg freed. */
  function HeapWithout(heap: Heap, prev: Addr, mg: Addr, next: Addr): Heap
    requires prev != 0 ==> prev in heap
  {
    (if prev == 0 then heap else heap[prev := heap[prev].(more := next)]) - {mg}
  }

  lemma {:induction false} Unlinked(heap: Heap, mg: Addr, left: seq<Addr>, rest: seq<Addr>, next: Addr)
    requires mg in heap && (forall a :: a in left ==> a in heap && a != 0 && a != mg) && forall a :: a in rest ==> a in heap && a != mg && a !in left
    ensures var h := HeapWithout(heap, if left == [] then 0 else left[|left| - 1], mg, next);
      Lost(heap, h, {mg}) && forall a :: a in rest ==> a in h && h[a] == heap[a]
  {
  }

  /** Unlinking an entry keeps every chain, its own without it. */
  lemma {:induction false} UnlinkKeeps(heap: Heap, heap2: Heap, heads: map<Sv, Addr>, chains: map<Sv, seq<Addr>>, sv: Sv, left: seq<Addr>, x: Addr, rest: seq<Addr>)
    requires ChainsOk(heap, heads, chains) && sv in chains && chains[sv] == left + [x] + rest && x in heap
    requires forall a :: a in left ==> a in heap
    requires heap2 == (if left == [] then heap else
                         heap[left[|left| - 1] := heap[left[|left| - 1]].(more := heap[x].more)]) - {x}
    ensures ChainsOk(heap2, heads[sv := if left == [] then heap[x].more else heads[sv]], chains[sv := left + rest])
  {
    PartsApart(left, x, rest);
    assert forall a :: a in left + rest ==> a in chains[sv];
    forall i | 0 <= i < |left| - 1 ensures left[i] != left[|left| - 1] && left[i] != x {
      assert chains[sv][i] == left[i] && chains[sv][|left| - 1] == left[|left| - 1];
    }
    UnlinkKeepsChain(heap, heap2, heads[sv], left, x, rest);
    OneChainChanged(heap, heap2, heads, chains, sv, if left == [] then heap[x].more else heads[sv], left + rest);
  }

  /** An entry at a fresh address keeps the names apart, with a fresh copy of its own or with none. */
  lemma {:induction false} NewNameKeeps(heap: Heap, names: set<Addr>, node: Addr, e: Entry, copy: bool)
    requires NamesOk(heap, names) && node != 0 && node !in heap && node !in names
    requires if copy then e.ptr != 0 && e.ptr != node && e.ptr !in heap && e.ptr !in names else e.len == 0
    ensures NamesOk(heap[node := e], if copy then names + {e.ptr} else names)
  {
  }

  /** Freeing an entry and its name keeps the others' names. */
  lemma {:induction false} NameFreed(heap: Heap, heap2: Heap, names: set<Addr>, mg: Addr)
    requires NamesOk(heap, names) && mg in heap && Lost(heap, heap2, {mg})
    ensures NamesOk(heap2, names - NameOf(heap[mg]))
  {
    forall a | a in heap2 ensures OwnsName(heap2[a]) == OwnsName(heap[a]) && heap2[a].ptr == heap[a].ptr {
      assert heap2[a].(more := 0) == heap[a].(more := 0);
    }
  }

  // ---- magicDel's loop ----------------------------------------------------------------

  /** After j entries: left are the kept ones, the others and their names are gone. */
  ghost predicate Partly(ms: seq<Item>, j: nat, left: seq<Addr>, heap0: Heap, heap: Heap, names0: set<Addr>, names: set<Addr>, how: int, vtbl: Addr) {
    && j <= |ms|
    && Lost(heap0, heap, Ats(Removed(ms[..j], how, vtbl)))
    && names == names0 - Names(Removed(ms[..j], how, vtbl))
    && (forall a :: a in left ==> a in heap)
    && Items(left, heap) == Remaining(ms[..j], how, vtbl)
  }

  lemma {:induction false} PartlyStarts(ms: seq<Item>, heap: Heap, names: set<Addr>, how: int, vtbl: Addr)
    ensures Partly(ms, 0, [], heap, heap, names, names, how, vtbl)
  {
    assert Items([], heap) == [];
  }

  lemma {:induction false} PartlyEnds(ms: seq<Item>, left: seq<Addr>, heap0: Heap, heap: Heap, names0: set<Addr>, names: set<Addr>, how: int, vtbl: Addr)
    requires Partly(ms, |ms|, left, heap0, heap, names0, names, how, vtbl)
    ensures Lost(heap0, heap, Ats(Removed(ms, how, vtbl))) && names == names0 - Names(Removed(ms, how, vtbl))
    ensures (forall a :: a in left ==> a in heap) && Items(left, heap) == Remaining(ms, how, vtbl)
  {
    assert ms[..|ms|] == ms;
  }

  lemma {:induction false} OneMore(ms: seq<Item>, j: nat, how: int, vtbl: Addr)
    requires j < |ms|
    ensures Removed(ms[..j + 1], how, vtbl) == Removed(ms[..j], how, vtbl) + if Selected(ms[j].e, how, vtbl) then [ms[j]] else []
    ensures Remaining(ms[..j + 1], how, vtbl) == Remaining(ms[..j], how, vtbl) + if Selected(ms[j].e, how, vtbl) then [] else [ms[j]]
  {
    assert ms[..j + 1][..j] == ms[..j];
  }

  lemma {:induction false} AtsMore(ms: seq<Item>, m: Item)
    ensures Ats(ms + [m]) == Ats(ms) + {m.at}
    ensures Names(ms + [m]) == Names(ms) + NameOf(m.e)
  {
    var all := ms + [m];
    assert all[|ms|] == m;
    assert forall i :: 0 <= i < |ms| ==> all[i] == ms[i];
    forall a | a in Ats(ms) ensures a in Ats(all) {
      var i :| 0 <= i < |ms| && ms[i].at == a;
      assert all[i].at == a;
    }
    forall a | a in Names(ms) ensures a in Names(all) {
      var i :| 0 <= i < |ms| && OwnsName(ms[i].e) && ms[i].e.ptr == a;
      assert all[i].e.ptr == a;
    }
  }

  lemma {:induction false} PartlyUnlinked(ms: seq<Item>, j: nat, left: seq<Addr>, heap0: Heap, heap1: Heap, heap: Heap,
                                          names0: set<Addr>, names1: set<Addr>, names: set<Addr>, how: int, vtbl: Addr)
    requires Partly(ms, j, left, heap0, heap1, names0, names1, how, vtbl) && j < |ms| && Selected(ms[j].e, how, vtbl)
    requires ms[j].at in heap1 && ms[j].at !in left && ms[j].e == heap1[ms[j].at].(more := 0)
    requires Lost(heap1, heap, {ms[j].at}) && names == names1 - NameOf(heap1[ms[j].at])
    ensures Partly(ms, j + 1, left, heap0, heap, names0, names, how, vtbl)
  {
    hide Removed, Remaining, Names, Ats, Selected;
    OneMore(ms, j, how, vtbl);
    AtsMore(Removed(ms[..j], how, vtbl), ms[j]);
    assert Items(left, heap) == Items(left, heap1);
    assert Remaining(ms[..j], how, vtbl) + [] == Remaining(ms[..j], how, vtbl);
    assert NameOf(ms[j].e) == NameOf(heap1[ms[j].at]);
  }

  lemma {:induction false} PartlyKept(ms: seq<Item>, j: nat, left: seq<Addr>, heap0: Heap, heap: Heap, names0: set<Addr>, names: set<Addr>, how: int, vtbl: Addr)
    requires Partly(ms, j, left, heap0, heap, names0, names, how, vtbl) && j < |ms| && !Selected(ms[j].e, how, vtbl)
    requires ms[j].at in heap && ms[j].e == heap[ms[j].at].(more := 0)
    ensures Partly(ms, j + 1, left + [ms[j].at], heap0, heap, names0, names, how, vtbl)
  {
    hide Removed, Remaining, Names, Ats, Selected, Lost;
    OneMore(ms, j, how, vtbl);
    assert Removed(ms[..j], how, vtbl) + [] == Removed(ms[..j], how, vtbl);
    var left2 := left + [ms[j].at];
    assert forall a :: a in left2 ==> a in heap;
    assert Items(left2, heap) == Items(left, heap) + [ms[j]];
  }

  lemma {:induction false} DelStep(sv: Sv, ms: seq<Item>, j: nat, how: int, vtbl: Addr, anchor: Obj)
    requires j < |ms|
    ensures DelEvents(sv, ms[..j + 1], how, vtbl, anchor) == DelEvents(sv, ms[..j], how, vtbl, anchor) + DelEventsOf(sv, ms[j], how, vtbl, anchor)
  {
    assert ms[..j + 1][..j] == ms[..j];
  }

  /** Past a prefix, the rest of the list is chained from its first element. */
  lemma {:induction false} ChainSuffix(heap: Heap, head: Addr, left: seq<Addr>, rest: seq<Addr>)
    requires Chain(heap, head, left + rest)
    ensures Chain(heap, if rest == [] then 0 else rest[0], rest)
    decreases |left|
  {
    if left == [] {
      assert left + rest == rest;
    } else {
      assert (left + rest)[1..] == left[1..] + rest;
      ChainSuffix(heap, heap[head].more, left[1..], rest);
    }
  }

  lemma {:induction false} SelectedAlike(e: Entry, how: int, vtbl: Addr)
    ensures Selected(e.(more := 0), how, vtbl) <==> Selected(e, how, vtbl)
  {
  }

  /** A new entry in front adds its item in front. */
  lemma {:induction false} ItemsMore(heap0: Heap, heap: Heap, at: Addr, list: seq<Addr>)
    requires at !in heap0 && at in heap && heap == heap0[at := heap[at]] && forall a :: a in list ==> a in heap0
    ensures forall a :: a in [at] + list ==> a in heap
    ensures Items([at] + list, heap) == [Item(at, heap[at].(more := 0))] + Items(list, heap0)
  {
  }

  lemma {:induction false} RemovedAmong(ms: seq<Item>, how: int, vtbl: Addr)
    ensures forall m :: m in Removed(ms, how, vtbl) ==> m in ms
  {
    if ms != [] {
      RemovedAmong(ms[..|ms| - 1], how, vtbl);
    }
  }

  lemma {:induction false} ListedAts(heap: Heap, chains: map<Sv, seq<Addr>>, view: map<Sv, Told>, sv: Sv, how: int, vtbl: Addr)
    requires Listed(heap, chains, view) && sv in view
    ensures forall a :: a in Ats(Removed(view[sv].items, how, vtbl)) ==> a in chains[sv]
  {
    RemovedAmong(view[sv].items, how, vtbl);
    var gone := Removed(view[sv].items, how, vtbl);
    forall i | 0 <= i < |gone| ensures gone[i].at in chains[sv] {
      assert gone[i] in view[sv].items;
    }
  }

  /** What magicDel's loop started from. */
  datatype Walk = Walk(sv: Sv, how: int, vtbl: Addr, list: seq<Addr>, ms: seq<Item>, heap0: Heap, names0: set<Addr>,
                       chains0: map<Sv, seq<Addr>>, events0: seq<Event>, anchor: Obj)

  lemma {:induction false} UnlistedFreed(heap: Heap, heads: map<Sv, Addr>, chains: map<Sv, seq<Addr>>, mg: Addr)
    requires ChainsOk(heap, heads, chains) && Unlisted(chains, mg)
    ensures ChainsOk(heap - {mg}, heads, chains)
  {
    forall s | s in chains ensures Chain(heap - {mg}, heads[s], chains[s]) {
      assert mg !in chains[s];
      ChainFrame(heap, heap - {mg}, heads[s], chains[s]);
    }
  }

  lemma {:induction false} LinkIsNoName(e: Entry)
    ensures NameOf(e.(more := 0)) == NameOf(e)
  {
  }

  // ---- magicFreed's loop --------------------------------------------------------------

  lemma {:induction false} SweepStep(sv: Sv, ms: seq<Item>, j: nat, anchor: Obj)
    requires j < |ms|
    ensures Ats(ms[..j + 1]) == Ats(ms[..j]) + {ms[j].at} && Names(ms[..j + 1]) == Names(ms[..j]) + NameOf(ms[j].e)
    ensures AnchorAfter(ms[..j + 1], anchor) ==
      if ms[j].e.obj != 0 && ms[j].e.obj == AnchorAfter(ms[..j], anchor) then 0 else AnchorAfter(ms[..j], anchor)
    ensures FreedEvents(sv, ms[..j + 1], anchor) == FreedEvents(sv, ms[..j], anchor) + [SvtFree(sv, ms[j].at)]
      + if ms[j].e.obj != 0 && ms[j].e.obj != AnchorAfter(ms[..j], anchor) then [Dec(ms[j].e.obj)] else []
  {
    assert ms[..j + 1][..j] == ms[..j] && ms[..j + 1] == ms[..j] + [ms[j]];
    AtsMore(ms[..j], ms[j]);
  }

  lemma {:induction false} NotYetSwept(list: seq<Addr>, ms: seq<Item>, j: nat)
    requires j < |list| == |ms| && NoDup(list) && forall i :: 0 <= i < |list| ==> ms[i].at == list[i]
    ensures list[j] !in Ats(ms[..j])
  {
    forall i | 0 <= i < j ensures ms[..j][i].at != list[j] {
      assert ms[..j][i] == ms[i];
    }
  }

  lemma {:induction false} SweepStarts(sv: Sv, ms: seq<Item>, heap: Heap, names: set<Addr>, anchor: Obj)
    ensures heap == heap - Ats(ms[..0]) && names == names - Names(ms[..0])
    ensures AnchorAfter(ms[..0], anchor) == anchor && FreedEvents(sv, ms[..0], anchor) == []
  {
  }

  lemma {:induction false} AtsAre(list: seq<Addr>, ms: seq<Item>)
    requires |list| == |ms| && forall i :: 0 <= i < |list| ==> ms[i].at == list[i]
    ensures Ats(ms) == set a | a in list
  {
    forall a | a in list ensures a in Ats(ms) {
      var i :| 0 <= i < |list| && list[i] == a;
      assert ms[i].at == a;
    }
  }

  // ---- magicSetFired's loop -----------------------------------------------------------

  /** One svt_set per entry, in order. */
  function SetEvents(sv: Sv, list: seq<Addr>): seq<Event> {
    seq(|list|, i requires 0 <= i < |list| => SvtSet(sv, list[i]))
  }

  function Without(list: seq<Addr>, gone: set<Addr>): (r: seq<Addr>)
    ensures |r| <= |list|
  {
    if list == [] then [] else
    Without(list[..|list| - 1], gone) + if list[|list| - 1] in gone then [] else [list[|list| - 1]]
  }

  lemma {:induction false} WithoutMore(list: seq<Addr>, a: Addr, gone: set<Addr>)
    ensures Without(list + [a], gone) == Without(list, gone) + if a in gone then [] else [a]
  {
    assert (list + [a])[..|list|] == list;
  }

  lemma {:induction false} WithoutJoin(a: seq<Addr>, b: seq<Addr>, gone: set<Addr>)
    ensures Without(a + b, gone) == Without(a, gone) + Without(b, gone)
  {
    if b == [] {
      assert a + b == a;
    } else {
      WithoutJoin(a, b[..|b| - 1], gone);
      assert a + b == (a + b[..|b| - 1]) + [b[|b| - 1]];
      WithoutMore(a + b[..|b| - 1], b[|b| - 1], gone);
    }
  }

  lemma {:induction false} WithoutHead(a: Addr, rest: seq<Addr>, gone: set<Addr>)
    ensures Without([a] + rest, gone) == (if a in gone then [] else [a]) + Without(rest, gone)
  {
    WithoutJoin([a], rest, gone);
    WithoutMore([], a, gone);
    assert [] + [a] == [a];
  }

  lemma {:induction false} WithoutMembers(list: seq<Addr>, gone: set<Addr>)
    ensures forall a :: a in Without(list, gone) <==> a in list && a !in gone
  {
    if list != [] {
      WithoutMembers(list[..|list| - 1], gone);
      assert list == list[..|list| - 1] + [list[|list| - 1]];
    }
  }

  /** The entry after the current one is still the next when the hook kept it. */
  lemma {:induction false} WithoutFirst(list: seq<Addr>, gone: set<Addr>)
    requires list != [] && list[0] !in gone
    ensures Without(list, gone) != [] && Without(list, gone)[0] == list[0]
  {
    assert list == [list[0]] + list[1..];
    WithoutJoin([list[0]], list[1..], gone);
    WithoutMore([], list[0], gone);
    assert [] + [list[0]] == [list[0]];
  }

  /** What the hook of each entry unlinks and frees. */
  type Hooks = Addr -> set<Addr>

  /** The entries whose hooks run when the chain is walked from list on. */
  function Fired(list: seq<Addr>, gone: Hooks): seq<Addr>
    decreases |list|
  {
    if list == [] then [] else [list[0]] + Fired(Without(list[1..], gone(list[0])), gone)
  }

  /** The chain after the walk, left being what is linked before list. */
  function Stayed(left: seq<Addr>, list: seq<Addr>, gone: Hooks): seq<Addr>
    decreases |list|
  {
    if list == [] then left
    else Stayed(Without(left + [list[0]], gone(list[0])), Without(list[1..], gone(list[0])), gone)
  }

  /** No hook frees the entry after its own: the walk has read its address already. */
  predicate KeepsNext(list: seq<Addr>, gone: Hooks)
    decreases |list|
  {
    list == [] || ((|list| > 1 ==> list[1] !in gone(list[0])) && KeepsNext(Without(list[1..], gone(list[0])), gone))
  }

  /** Every entry's hook runs, unless another one that ran unlinked the entry. */
  lemma {:induction false} FiredUnlessGone(list: seq<Addr>, gone: Hooks, a: Addr)
    ensures a in Fired(list, gone) ==> a in list
    ensures a in list && a !in Fired(list, gone) ==> exists b :: b in Fired(list, gone) && a in gone(b)
    decreases |list|
  {
    if list != [] {
      var rest := Without(list[1..], gone(list[0]));
      assert list == [list[0]] + list[1..];
      WithoutMembers(list[1..], gone(list[0]));
      FiredUnlessGone(rest, gone, a);
      assert list[0] in Fired(list, gone);
      assert forall b :: b in Fired(rest, gone) ==> b in Fired(list, gone);
    }
  }

  /** No hook runs twice. */
  lemma {:induction false} FiredOnce(list: seq<Addr>, gone: Hooks)
    requires NoDup(list)
    ensures NoDup(Fired(list, gone))
    decreases |list|
  {
    if list != [] {
      var rest := Without(list[1..], gone(list[0]));
      assert list == [list[0]] + list[1..];
      WithoutNoDup(list[1..], gone(list[0]));
      FiredOnce(rest, gone);
      FiredUnlessGone(rest, gone, list[0]);
      WithoutMembers(list[1..], gone(list[0]));
    }
  }

  lemma {:induction false} WithoutNoDup(list: seq<Addr>, gone: set<Addr>)
    requires NoDup(list)
    ensures NoDup(Without(list, gone))
  {
    if list != [] {
      WithoutNoDup(list[..|list| - 1], gone);
      WithoutMembers(list[..|list| - 1], gone);
    }
  }

  /** Hooks that unlink at most their own entries all run, in the order of the chain, and leave the
      entries of the others. */
  lemma {:induction false} OwnOnly(left: seq<Addr>, list: seq<Addr>, gone: Hooks)
    requires NoDup(left + list) && forall a, b :: a in list && b in gone(a) ==> b == a
    ensures Fired(list, gone) == list && KeepsNext(list, gone)
    ensures Stayed(left, list, gone) == left + Without(list, OwnGone(list, gone))
    decreases |list|
  {
    hide Without;
    if list == [] {
      WithoutNone(list, OwnGone(list, gone));
      assert left + [] == left;
    } else {
      var x, rest, g := list[0], list[1..], gone(list[0]);
      assert list == [x] + rest && left + list == left + [x] + rest;
      OwnStep(left, x, rest, g);
      var left2 := Without(left + [x], g);
      OwnOnly(left2, rest, gone);
      OwnSplit(list, x, rest, gone);
    }
  }

  /** A hook that unlinks at most its own entry leaves the others. */
  lemma {:induction false} OwnStep(left: seq<Addr>, x: Addr, rest: seq<Addr>, g: set<Addr>)
    requires NoDup(left + [x] + rest) && forall b :: b in g ==> b == x
    ensures Without(left + [x], g) == left + (if x in g then [] else [x]) && Without(rest, g) == rest
    ensures NoDup(Without(left + [x], g) + rest) && (rest != [] ==> rest[0] !in g)
  {
    hide Without;
    PartsApart(left, x, rest);
    WithoutNone(left, g);
    WithoutNone(rest, g);
    WithoutMore(left, x, g);
    assert left + [] == left;
  }

  lemma {:induction false} OwnSplit(list: seq<Addr>, x: Addr, rest: seq<Addr>, gone: Hooks)
    requires list == [x] + rest
    ensures Without(list, OwnGone(list, gone)) == (if x in gone(x) then [] else [x]) + Without(rest, OwnGone(rest, gone))
  {
    hide Without;
    WithoutJoin([x], rest, OwnGone(list, gone));
    WithoutMore([], x, OwnGone(list, gone));
    WithoutNone([], OwnGone(list, gone));
    SameGone(rest, OwnGone(rest, gone), OwnGone(list, gone));
    assert [] + [x] == [x];
  }

  function OwnGone(list: seq<Addr>, gone: Hooks): set<Addr> {
    set a | a in list && a in gone(a)
  }

  lemma {:induction false} WithoutNone(list: seq<Addr>, gone: set<Addr>)
    requires forall a :: a in list ==> a !in gone
    ensures Without(list, gone) == list
  {
    if list != [] {
      WithoutNone(list[..|list| - 1], gone);
    }
  }

  lemma {:induction false} SameGone(list: seq<Addr>, g: set<Addr>, h: set<Addr>)
    requires forall a :: a in list ==> (a in g <==> a in h)
    ensures Without(list, g) == Without(list, h)
  {
    if list != [] {
      SameGone(list[..|list| - 1], g, h);
    }
  }

  class MagicRec {
    const svTok: Sv
    const anchorID: nat
    var head: Addr
    var anchorObj: Obj

    constructor (svTok: Sv, anchorID: nat, head: Addr, anchorObj: Obj)
      ensures this.svTok == svTok && this.anchorID == anchorID && this.head == head && this.anchorObj == anchorObj
    {
      this.svTok, this.anchorID, this.head, this.anchorObj := svTok, anchorID, head, anchorObj;
    }
  }

  /** The two maps are inverse views of the same records, with ids handed out so far. */
  ghost predicate ViewsOk(bySV: map<Sv, MagicRec>, byID: map<nat, MagicRec>, next: nat, heads: map<Sv, Addr>)
    reads bySV.Values
  {
    && heads.Keys == bySV.Keys
    && (forall sv :: sv in bySV ==> ViewedBySV(bySV[sv], sv, byID, heads[sv]))
    && (forall id :: id in byID ==> ViewedByID(byID[id], id, bySV, next))
  }

  ghost predicate ViewedBySV(rec: MagicRec, sv: Sv, byID: map<nat, MagicRec>, head: Addr)
    reads rec
  {
    rec.svTok == sv && rec.head == head && rec.anchorID in byID && byID[rec.anchorID] == rec
  }

  ghost predicate ViewedByID(rec: MagicRec, id: nat, bySV: map<Sv, MagicRec>, next: nat) {
    rec.anchorID == id && rec.svTok in bySV && bySV[rec.svTok] == rec && 0 < id <= next
  }

  lemma {:induction false} ViewsWith(bySV: map<Sv, MagicRec>, byID: map<nat, MagicRec>, next: nat, heads: map<Sv, Addr>, rec: MagicRec)
    requires ViewsOk(bySV, byID, next, heads) && rec.svTok !in bySV && rec.anchorID == next + 1
    ensures ViewsOk(bySV[rec.svTok := rec], byID[rec.anchorID := rec], next + 1, heads[rec.svTok := rec.head])
  {
    forall s | s in bySV ensures ViewedBySV(bySV[s], s, byID[rec.anchorID := rec], heads[s]) {
      assert ViewedBySV(bySV[s], s, byID, heads[s]);
      assert ViewedByID(bySV[s], bySV[s].anchorID, bySV, next);
    }
    forall id | id in byID ensures ViewedByID(byID[id], id, bySV[rec.svTok := rec], next + 1) {
      assert ViewedByID(byID[id], id, bySV, next);
    }
  }

  lemma {:induction false} ViewsWithout(bySV: map<Sv, MagicRec>, byID: map<nat, MagicRec>, next: nat, heads: map<Sv, Addr>, sv: Sv)
    requires ViewsOk(bySV, byID, next, heads) && sv in bySV
    ensures ViewsOk(bySV - {sv}, byID - {bySV[sv].anchorID}, next, heads - {sv})
  {
    var rec := bySV[sv];
    assert ViewedBySV(rec, sv, byID, heads[sv]);
    forall s | s in bySV && s != sv ensures ViewedBySV(bySV[s], s, byID - {rec.anchorID}, heads[s]) {
      assert ViewedBySV(bySV[s], s, byID, heads[s]);
    }
    forall id | id in byID && id != rec.anchorID ensures ViewedByID(byID[id], id, bySV - {sv}, next) {
      assert ViewedByID(byID[id], id, bySV, next);
    }
  }

  class Loader {
    var magicBySV: map<Sv, MagicRec>
    var magicByID: map<nat, MagicRec>
    var nextMagicID: nat
    var heap: Heap
    /** Live copies of entry names. */
    var names: set<Addr>
    var events: seq<Event>
    ghost var heads: map<Sv, Addr>
    ghost var chains: map<Sv, seq<Addr>>

    ghost predicate Views()
      reads this`magicBySV, this`magicByID, this`nextMagicID, this`heads, magicBySV.Values
    {
      ViewsOk(magicBySV, magicByID, nextMagicID, heads)
    }

    ghost predicate Valid()
      reads this`magicBySV, this`magicByID, this`nextMagicID, this`heads, this`heap, this`names, this`chains, magicBySV.Values
    {
      Views() && ChainsOk(heap, heads, chains) && NamesOk(heap, names)
    }

    constructor ()
      ensures Valid() && magicBySV == map[] && events == [] && Tracks(Run([], []))
    {
      magicBySV, magicByID, nextMagicID := map[], map[], 0;
      heap, names, events, heads, chains := map[], {}, [], map[], map[];
    }

    /** cMalloc: an address in use for nothing else. */
    method CMalloc(pending: set<Addr>) returns (a: Addr)
      ensures a != 0 && a !in heap && a !in names && a !in pending
    {
      UnusedAddr(heap.Keys + names + pending);
      a :| a != 0 && a !in heap.Keys + names + pending;
    }

    /** The chain of sv, empty when it has no record. */
    ghost function ChainOf(sv: Sv): seq<Addr>
      reads this`chains
    {
      if sv in chains then chains[sv] else []
    }

    ghost function ItemsOf(sv: Sv): seq<Item>
      reads this`heap, this`chains
    {
      if forall a :: a in ChainOf(sv) ==> a in heap then Items(ChainOf(sv), heap) else []
    }

    /** The records as a run tells them. */
    ghost function View(): map<Sv, Told>
      reads this`heap, this`chains, this`magicBySV, magicBySV.Values
    {
      map sv | sv in magicBySV :: Told(magicBySV[sv].anchorID, magicBySV[sv].anchorObj, ItemsOf(sv))
    }

    /** The run r has led to this state. */
    ghost predicate Tracks(r: Run)
      reads this`events, this`nextMagicID, this`heap, this`chains, this`magicBySV, magicBySV.Values
    {
      LedTo(r, events, nextMagicID, View())
    }

    /** view tells the anchors of the records that are still here. */
    ghost predicate SameAnchors(view: map<Sv, Told>)
      reads this`magicBySV, magicBySV.Values
    {
      forall s :: s in magicBySV && s in view ==> view[s].id == magicBySV[s].anchorID && view[s].anchor == magicBySV[s].anchorObj
    }

    lemma {:induction false} ViewNow()
      requires Valid()
      ensures View().Keys == magicBySV.Keys == chains.Keys && SameAnchors(View()) && Listed(heap, chains, View())
    {
      forall s | s in magicBySV ensures s in chains && forall a :: a in chains[s] ==> a in heap {
        ChainMembers(heap, heads[s], chains[s]);
      }
    }

    /** Where neither the chain nor its entries changed, links aside, the view is what it was. */
    lemma {:induction false} SameTold(heap0: Heap, chains0: map<Sv, seq<Addr>>, view: map<Sv, Told>, s: Sv)
      requires Listed(heap0, chains0, view) && SameAnchors(view) && s in magicBySV && s in view && s in chains && chains[s] == chains0[s]
      requires SameEntries(heap0, heap, chains[s])
      ensures View()[s] == view[s]
    {
      assert Items(chains[s], heap) == Items(chains[s], heap0);
    }

    lemma {:induction false} NewTold(heap0: Heap, chains0: map<Sv, seq<Addr>>, view: map<Sv, Told>, sv: Sv, at: Addr)
      requires Listed(heap0, chains0, view) && at !in heap0 && at in heap && heap == heap0[at := heap[at]] && sv in chains && sv in magicBySV
      requires chains[sv] == [at] + (if sv in chains0 then chains0[sv] else []) && chains0.Keys == view.Keys
      ensures View()[sv] == Told(magicBySV[sv].anchorID, magicBySV[sv].anchorObj, [Item(at, heap[at].(more := 0))] + if sv in view then view[sv].items else [])
    {
      ItemsMore(heap0, heap, at, if sv in chains0 then chains0[sv] else []);
    }

    /** The view after magicExt. */
    lemma {:induction false} ExtView(heap0: Heap, chains0: map<Sv, seq<Addr>>, view: map<Sv, Told>, sv: Sv, at: Addr)
      requires Listed(heap0, chains0, view) && SameAnchors(view) && at !in heap0 && at in heap && heap == heap0[at := heap[at]]
      requires chains == chains0[sv := [at] + if sv in chains0 then chains0[sv] else []]
      requires sv in magicBySV && magicBySV.Keys == view.Keys + {sv} && chains0.Keys == view.Keys
      ensures View() == view[sv := View()[sv]] && View()[sv].id == magicBySV[sv].anchorID && View()[sv].anchor == magicBySV[sv].anchorObj
      ensures View()[sv].items == [Item(at, heap[at].(more := 0))] + if sv in view then view[sv].items else []
      ensures sv in view ==> view[sv].id == magicBySV[sv].anchorID && view[sv].anchor == magicBySV[sv].anchorObj
    {
      NewTold(heap0, chains0, view, sv, at);
      forall s | s in view && s != sv ensures View()[s] == view[s] {
        SameTold(heap0, chains0, view, s);
      }
      hide ItemsOf, Listed;
    }

    lemma {:induction false} ExtTracked(heap0: Heap, chains0: map<Sv, seq<Addr>>, view: map<Sv, Told>, events0: seq<Event>, next0: nat,
                                        sv: Sv, at: Addr, hook: bool)
      requires Listed(heap0, chains0, view) && SameAnchors(view) && at !in heap0 && at in heap && heap == heap0[at := heap[at]]
      requires chains == chains0[sv := [at] + if sv in chains0 then chains0[sv] else []]
      requires sv in magicBySV && magicBySV.Keys == view.Keys + {sv} && chains0.Keys == view.Keys
      requires if sv in view then nextMagicID == next0 else nextMagicID == next0 + 1 == magicBySV[sv].anchorID
      requires sv !in view ==> magicBySV[sv].anchorObj == heap[at].obj
      requires events == events0 + if sv in view then ExtEvents(sv, hook, heap[at].obj) else FirstEvents(sv, nextMagicID, hook, heap[at].obj)
      ensures forall r :: LedTo(r, events0, next0, view) ==> Tracks(Next(r, Ext(sv, Item(at, heap[at].(more := 0)), hook)))
    {
      hide ExtEvents, FirstEvents, Tells, Next, Listed, SameAnchors, ItemsOf;
      ExtView(heap0, chains0, view, sv, at);
      var v2 := View();
      forall r | LedTo(r, events0, next0, view) ensures LedTo(Next(r, Ext(sv, Item(at, heap[at].(more := 0)), hook)), events, nextMagicID, v2) {
        ExtTells(r, sv, Item(at, heap[at].(more := 0)), hook, view, v2[sv]);
      }
    }

    /** Losing entries of sv's chain changes no other record's. */
    lemma {:induction false} OthersTold(heap0: Heap, chains0: map<Sv, seq<Addr>>, view: map<Sv, Told>, sv: Sv, gone: set<Addr>)
      requires Listed(heap0, chains0, view) && SameAnchors(view) && Lost(heap0, heap, gone) && sv in chains0
      requires forall a :: a in gone ==> a in chains0[sv]
      requires forall s :: s in view && s != sv ==> Apart(chains0[s], chains0[sv])
      requires forall s :: s in magicBySV && s != sv ==> s in view && s in chains && s in chains0 && chains[s] == chains0[s]
      ensures forall s :: s in magicBySV && s != sv ==> View()[s] == view[s]
    {
      forall s | s in magicBySV && s != sv ensures View()[s] == view[s] {
        assert Apart(chains0[s], chains0[sv]);
        SameTold(heap0, chains0, view, s);
      }
    }

    lemma {:induction false} DelTracked(heap0: Heap, chains0: map<Sv, seq<Addr>>, view: map<Sv, Told>, events0: seq<Event>,
                                        sv: Sv, how: int, vtbl: Addr)
      requires Listed(heap0, chains0, view) && SameAnchors(view) && sv in view && sv in chains0
      requires Lost(heap0, heap, Ats(Removed(view[sv].items, how, vtbl)))
      requires forall s :: s in view && s != sv ==> Apart(chains0[s], chains0[sv])
      requires var left := Remaining(view[sv].items, how, vtbl);
        && (if left == [] then magicBySV.Keys == view.Keys - {sv} && chains == chains0 - {sv}
            else magicBySV.Keys == view.Keys && chains == chains0[sv := ChainOf(sv)] && ItemsOf(sv) == left)
        && events == events0 + (DelEvents(sv, view[sv].items, how, vtbl, view[sv].anchor) + if left == [] then [Unattach(sv)] else [])
      requires chains0.Keys == view.Keys
      ensures forall r :: LedTo(r, events0, nextMagicID, view) ==> Tracks(Next(r, Del(sv, how, vtbl)))
    {
      hide DelEvents, Remaining, Tells, Next, ItemsOf, Lost, Listed;
      assert forall a :: a in Ats(Removed(view[sv].items, how, vtbl)) ==> a in chains0[sv] by {
        ListedAts(heap0, chains0, view, sv, how, vtbl);
      }
      OthersTold(heap0, chains0, view, sv, Ats(Removed(view[sv].items, how, vtbl)));
      var left := Remaining(view[sv].items, how, vtbl);
      var v2 := View();
      assert v2 == if left == [] then view - {sv} else view[sv := view[sv].(items := left)];
      forall r | LedTo(r, events0, nextMagicID, view) ensures LedTo(Next(r, Del(sv, how, vtbl)), events, nextMagicID, v2) {
        DelTells(r, sv, how, vtbl, view);
      }
    }

    lemma {:induction false} FreedTracked(heap0: Heap, chains0: map<Sv, seq<Addr>>, view: map<Sv, Told>, events0: seq<Event>, sv: Sv)
      requires Listed(heap0, chains0, view) && SameAnchors(view) && sv in view && sv in chains0
      requires heap == heap0 - (set a | a in chains0[sv])
      requires forall s :: s in view && s != sv ==> Apart(chains0[s], chains0[sv])
      requires magicBySV.Keys == view.Keys - {sv} && chains == chains0 - {sv} && chains0.Keys == view.Keys
      requires events == events0 + FreedEvents(sv, view[sv].items, view[sv].anchor)
      ensures forall r :: LedTo(r, events0, nextMagicID, view) ==> Tracks(Next(r, Freed(view[sv].id)))
    {
      hide FreedEvents, Tells, Next, ItemsOf, Listed;
      OthersTold(heap0, chains0, view, sv, set a | a in chains0[sv]);
      var v2 := View();
      assert v2 == view - {sv};
      forall r | LedTo(r, events0, nextMagicID, view) ensures LedTo(Next(r, Freed(view[sv].id)), events, nextMagicID, v2) {
        FreedTells(r, sv, view);
      }
    }

    /** The heap and the names without the selected entries of ms. */
    ghost predicate Deleted(ms: seq<Item>, heap0: Heap, names0: set<Addr>, how: int, vtbl: Addr)
      reads this`heap, this`names
    {
      && Lost(heap0, heap, Ats(Removed(ms, how, vtbl)))
      && names == names0 - Names(Removed(ms, how, vtbl))
    }

    /** magicExt.  setSlot is the svt_set pointer read through vtbl; the flags are the outcomes of
        the entry's allocation and of the three guest operations. */
    method MagicExt(sv: Sv, obj: Obj, how: int, vtbl: Addr, setSlot: Addr, namePtr: Addr, namLen: int,
                    nodeOk: bool, attachOk: bool, hookOk: bool, incOk: bool)
      returns (mg: Addr, failed: bool, ghost at: Addr)
      requires Valid()
      modifies this, magicBySV.Values
      ensures Valid()
      ensures !nodeOk ==> mg == 0 && failed && heap == old(heap) && chains == old(chains) && events == old(events)
      ensures nodeOk ==>
        && at !in old(heap) && at in heap && chains == old(chains)[sv := [at] + old(ChainOf(sv))]
        && heap == old(heap)[at := heap[at]] && names == old(names) + CopyOf(heap[at], namLen)
        && IsEntry(heap[at], old(names), names, obj, how, vtbl, namePtr, namLen)
      ensures nodeOk && sv !in old(magicBySV) ==>
        && nextMagicID == old(nextMagicID) + 1
        && events == old(events) + FirstEvents(sv, nextMagicID, attachOk && vtbl != 0 && setSlot != 0, obj)
        && sv in magicBySV && magicBySV[sv].anchorObj == obj && magicBySV[sv].anchorID == nextMagicID
        && mg == if attachOk then at else 0
      ensures nodeOk && sv in old(magicBySV) ==>
        && magicBySV == old(magicBySV) && mg == at
        && events == old(events) + ExtEvents(sv, vtbl != 0 && setSlot != 0, obj)
      ensures forall s :: s in old(magicBySV) ==> s in magicBySV && magicBySV[s] == old(magicBySV[s]) && magicBySV[s].anchorObj == old(magicBySV[s].anchorObj)
      ensures nodeOk && sv in old(magicBySV) ==> nextMagicID == old(nextMagicID)
      ensures forall r :: nodeOk && old(Tracks(r)) ==>
        Tracks(Next(r, Ext(sv, Item(at, heap[at].(more := 0)), vtbl != 0 && setSlot != 0 && (attachOk || sv in old(magicBySV)))))
    {
      hide Views, ChainsOk, NamesOk, Unlisted, IsEntry, LedTo, Next, Listed, ItemsOf;
      ViewNow();
      ghost var view := View();
      at, failed := 0, false;
      if !nodeOk {
        return 0, true, 0;
      }
      HeadsKeys();
      if sv in chains {
        ChainStart(sv);
      }
      mg := NewEntry(if sv in magicBySV then magicBySV[sv].head else 0, obj, how, vtbl, namePtr, namLen);
      assert [mg] + [] == [mg];
      at := mg;
      var wantSet := vtbl != 0 && setSlot != 0;
      if sv !in magicBySV {
        mg, failed := ExtFirst(sv, mg, obj, wantSet, attachOk, hookOk);
      } else {
        failed := ExtMore(sv, mg, obj, wantSet, hookOk, incOk);
      }
      EntryObj(heap[at], obj);
      ghost var hook := wantSet && (attachOk || sv in old(magicBySV));
      ExtTracked(old(heap), old(chains), view, old(events), old(nextMagicID), sv, at, hook);
    }

    /** The name copy made for an entry. */
    ghost function CopyOf(e: Entry, namLen: int): set<Addr> {
      if namLen > 0 then {e.ptr} else {}
    }

    /** What a module reads in the entry: its own pointer and length 0, or a copy and its length. */
    lemma {:induction false} EntryReads(e: Entry, names0: set<Addr>, names1: set<Addr>, obj: Obj, how: int, vtbl: Addr, namePtr: Addr, namLen: int)
      requires IsEntry(e, names0, names1, obj, how, vtbl, namePtr, namLen)
      ensures e.obj == obj && (namLen <= 0 ==> e.len == 0 && e.ptr == namePtr)
      ensures 0 < namLen < 0x8000_0000 ==> e.len == namLen && e.ptr in names1 && e.ptr !in names0
    {
    }

    /** The entry sv_magicext makes for a type and a vtable is one that a removal by type and vtable
        takes exactly when the types agree in their low eight bits, and the vtables do or none is
        given. */
    lemma {:induction false} EntrySelected(e: Entry, names0: set<Addr>, names1: set<Addr>, obj: Obj, how: int, vtbl: Addr, namePtr: Addr, namLen: int,
                                           how2: int, vtbl2: Addr)
      requires IsEntry(e, names0, names1, obj, how, vtbl, namePtr, namLen)
      ensures Selected(e, how2, vtbl2) <==> (how - how2) % 256 == 0 && (vtbl2 == 0 || vtbl2 == vtbl)
    {
    }

    /** Freeing an entry gives back exactly the name copy made for it if and only if the name's length
        is positive as an int32, or no copy was made. */
    lemma {:induction false} CopyGivenBack(e: Entry, names0: set<Addr>, names1: set<Addr>, obj: Obj, how: int, vtbl: Addr, namePtr: Addr, namLen: int)
      requires IsEntry(e, names0, names1, obj, how, vtbl, namePtr, namLen) && names1 == names0 + CopyOf(e, namLen) && 0 !in names1
      ensures names1 - NameOf(e) == names0 <==> namLen <= 0 || 0 < namLen % 0x1_0000_0000 < 0x8000_0000
    {
      if namLen > 0 {
        assert e.ptr in names1 && e.ptr !in names0;
      }
    }

    /** What NewEntry builds: names are the live name copies before and after. */
    ghost predicate IsEntry(e: Entry, names0: set<Addr>, names1: set<Addr>, obj: Obj, how: int, vtbl: Addr, namePtr: Addr, namLen: int) {
      && e.obj == obj && e.vtbl == vtbl && e.typ == how % 256
      && if namLen > 0 then e.len == ToI32(namLen) && e.ptr in names1 - names0 else e.len == 0 && e.ptr == namePtr
    }

    lemma {:induction false} EntryObj(e: Entry, obj: Obj)
      ensures forall n0, n1, how, vtbl, p, n :: IsEntry(e, n0, n1, obj, how, vtbl, p, n) ==> e.obj == obj
    {
    }

    /** The branch of magicExt that makes the record and its guest anchor. */
    method ExtFirst(sv: Sv, node: Addr, obj: Obj, wantSet: bool, attachOk: bool, hookOk: bool) returns (mg: Addr, failed: bool)
      requires Valid() && sv !in magicBySV && node != 0 && node in heap && heap[node].more == 0 && Unlisted(chains, node)
      modifies this`magicBySV, this`magicByID, this`nextMagicID, this`heads, this`chains, this`events
      ensures Valid() && chains == old(chains)[sv := [node]] && nextMagicID == old(nextMagicID) + 1
      ensures sv in magicBySV && magicBySV[sv].anchorObj == obj && magicBySV[sv].anchorID == nextMagicID
      ensures magicBySV == old(magicBySV)[sv := magicBySV[sv]]
      ensures events == old(events) + FirstEvents(sv, nextMagicID, attachOk && wantSet, obj)
      ensures mg == if attachOk then node else 0
    {
      hide Views, ChainsOk, NamesOk, Unlisted;
      AddRecord(sv, node, obj);
      Guest(Attach(sv, nextMagicID, obj));
      mg, failed := node, false;
      if !attachOk {
        return 0, true;
      }
      if wantSet {
        Guest(SetHook(sv));
        failed := !hookOk;
      }
    }

    /** The branch of magicExt that extends a record's chain. */
    method ExtMore(sv: Sv, node: Addr, obj: Obj, wantSet: bool, hookOk: bool, incOk: bool) returns (failed: bool)
      requires Valid() && sv in magicBySV && node != 0 && node in heap && heap[node].more == magicBySV[sv].head && Unlisted(chains, node)
      modifies this`heads, this`chains, this`events, magicBySV[sv]
      ensures Valid() && sv in old(chains) && chains == old(chains)[sv := [node] + old(chains)[sv]]
      ensures events == old(events) + ExtEvents(sv, wantSet, obj) && magicBySV[sv].anchorObj == old(magicBySV[sv].anchorObj)
    {
      hide Views, ChainsOk, NamesOk, Unlisted;
      failed := false;
      HeadsKeys();
      if wantSet {
        Guest(SetHook(sv));
        failed := !hookOk;
      }
      PrependRecord(sv, node);
      if obj != 0 {
        Guest(Inc(obj));
        failed := failed || !incOk;
      }
    }

    /** A guest operation or hook call; it leaves the loader's own state alone. */
    method Guest(e: Event)
      requires Valid()
      modifies this`events
      ensures Valid() && events == old(events) + [e]
    {
      events := events + [e];
    }

    lemma {:induction false} HeadsKeys()
      requires Valid()
      ensures heads.Keys == magicBySV.Keys == chains.Keys
    {
    }

    /** The entry magicExt builds, with its own copy of the name when namLen is positive. */
    method NewEntry(more: Addr, obj: Obj, how: int, vtbl: Addr, namePtr: Addr, namLen: int) returns (node: Addr)
      requires Valid()
      modifies this`heap, this`names
      ensures Valid() && node != 0 && node !in old(heap) && node in heap && heap == old(heap)[node := heap[node]]
      ensures Unlisted(chains, node) && names == old(names) + CopyOf(heap[node], namLen) && heap[node].more == more
      ensures IsEntry(heap[node], old(names), names, obj, how, vtbl, namePtr, namLen)
    {
      hide ToI32, ChainsOk, NamesOk, Unlisted, Views;
      node := CMalloc({});
      var mgPtr, mgLen := namePtr, 0;
      ghost var copy := namLen > 0;
      if namLen > 0 {
        mgPtr := CMalloc({node});
        mgLen := ToI32(namLen);
      }
      var e := Entry(more, vtbl, how % 256, mgLen, obj, mgPtr);
      FreshEntryKeeps(heap, heads, chains, node, e);
      NewNameKeeps(heap, names, node, e, copy);
      if namLen > 0 {
        names := names + {mgPtr};
      }
      heap := heap[node := e];
    }

    method AddRecord(sv: Sv, head: Addr, obj: Obj)
      requires Valid() && sv !in magicBySV && head != 0 && head in heap && heap[head].more == 0 && Unlisted(chains, head)
      modifies this`magicBySV, this`magicByID, this`nextMagicID, this`heads, this`chains
      ensures Valid() && nextMagicID == old(nextMagicID) + 1 && chains == old(chains)[sv := [head]]
      ensures sv in magicBySV && magicBySV == old(magicBySV)[sv := magicBySV[sv]]
      ensures magicBySV[sv].anchorObj == obj && magicBySV[sv].anchorID == nextMagicID
    {
      hide Views, ChainsOk, NamesOk, Unlisted;
      HeadsKeys();
      PrependKeeps(heap, heads, chains, sv, head);
      NewRecord(sv, head, obj);
      chains := chains[sv := [head]];
      assert [head] + [] == [head];
    }

    method NewRecord(sv: Sv, head: Addr, obj: Obj)
      requires Views() && sv !in magicBySV
      modifies this`magicBySV, this`magicByID, this`nextMagicID, this`heads
      ensures Views() && nextMagicID == old(nextMagicID) + 1 && heads == old(heads)[sv := head]
      ensures sv in magicBySV && magicBySV == old(magicBySV)[sv := magicBySV[sv]]
      ensures magicBySV[sv].anchorObj == obj && magicBySV[sv].anchorID == nextMagicID
    {
      hide ViewsOk;
      var rec := new MagicRec(sv, nextMagicID + 1, head, obj);
      ViewsWith(magicBySV, magicByID, nextMagicID, heads, rec);
      nextMagicID := nextMagicID + 1;
      magicBySV := magicBySV[sv := rec];
      magicByID := magicByID[nextMagicID := rec];
      heads := heads[sv := head];
    }

    method PrependRecord(sv: Sv, head: Addr)
      requires Valid() && sv in magicBySV && head != 0 && head in heap && heap[head].more == magicBySV[sv].head && Unlisted(chains, head)
      modifies this`heads, this`chains, magicBySV[sv]
      ensures Valid() && sv in old(chains) && chains == old(chains)[sv := [head] + old(chains)[sv]]
      ensures magicBySV[sv].anchorObj == old(magicBySV[sv].anchorObj)
    {
      hide ChainsOk, NamesOk, Unlisted;
      HeadsKeys();
      PrependKeeps(heap, heads, chains, sv, head);
      SetRecHead(sv, head);
      chains := chains[sv := [head] + chains[sv]];
    }

    lemma {:induction false} UnlinkSound(sv: Sv, prev: Addr, mg: Addr, left: seq<Addr>, rest: seq<Addr>)
      requires Valid() && sv in magicBySV && sv in chains && chains[sv] == left + [mg] + rest
      requires prev == if left == [] then 0 else left[|left| - 1]
      ensures sv in heads && mg in heap && (prev == 0 <==> left == []) && (prev != 0 ==> prev in heap)
      ensures var h := HeapWithout(heap, prev, mg, heap[mg].more);
        && ChainsOk(h, heads[sv := if left == [] then heap[mg].more else heads[sv]], chains[sv := left + rest])
        && NamesOk(h, names - NameOf(heap[mg])) && Lost(heap, h, {mg})
        && forall a :: a in rest ==> a in h && heap[a] == h[a]
    {
      hide ChainsOk, NamesOk, Views, OwnsName, Lost;
      HeadsKeys();
      InChain(sv, left, mg, rest);
      var h := HeapWithout(heap, prev, mg, heap[mg].more);
      Unlinked(heap, mg, left, rest, heap[mg].more);
      UnlinkKeeps(heap, h, heads, chains, sv, left, mg, rest);
      NameFreed(heap, h, names, mg);
    }

    /** The removal half of magicDel's loop body: free the name, relink, free the entry. */
    method UnlinkEntry(sv: Sv, prev: Addr, mg: Addr, ghost left: seq<Addr>, ghost rest: seq<Addr>)
      requires Valid() && sv in magicBySV && sv in chains && chains[sv] == left + [mg] + rest
      requires prev == if left == [] then 0 else left[|left| - 1]
      modifies this`heap, this`names, this`heads, this`chains, magicBySV[sv]
      ensures Valid() && chains == old(chains)[sv := left + rest]
      ensures magicBySV[sv].anchorObj == old(magicBySV[sv].anchorObj)
      ensures mg in old(heap) && Lost(old(heap), heap, {mg}) && forall a :: a in rest ==> a in heap && heap[a] == old(heap)[a]
      ensures names == old(names) - NameOf(old(heap)[mg])
    {
      hide ChainsOk, NamesOk, Views, OwnsName, Lost;
      HeadsKeys();
      UnlinkSound(sv, prev, mg, left, rest);
      var e := heap[mg];
      if OwnsName(e) {
        names := names - {e.ptr};
      }
      assert names == old(names) - NameOf(e);
      if prev == 0 {
        SetRecHead(sv, e.more);
      } else {
        heap := heap[prev := heap[prev].(more := e.more)];
      }
      heap := heap - {mg};
      chains := chains[sv := left + rest];
      assert heads == old(heads)[sv := if left == [] then e.more else old(heads)[sv]];
    }

    method SetRecHead(sv: Sv, head: Addr)
      requires Views() && sv in magicBySV
      modifies this`heads, magicBySV[sv]
      ensures Views() && heads == old(heads)[sv := head] && magicBySV[sv].anchorObj == old(magicBySV[sv].anchorObj)
    {
      magicBySV[sv].head := head;
      heads := heads[sv := head];
    }

    lemma {:induction false} InChain(sv: Sv, left: seq<Addr>, mg: Addr, rest: seq<Addr>)
      requires Valid() && sv in chains && chains[sv] == left + [mg] + rest
      ensures mg in heap && mg != 0 && (forall a :: a in left ==> a in heap && a != 0 && a != mg) && forall a :: a in rest ==> a in heap && a != mg && a !in left
    {
      ChainMembers(heap, heads[sv], chains[sv]);
      PartsApart(left, mg, rest);
    }

    lemma {:induction false} ChainStart(sv: Sv)
      requires Valid() && sv in chains
      ensures sv in heads && (forall a :: a in chains[sv] ==> a in heap && a != 0)
      ensures heads[sv] == (if chains[sv] == [] then 0 else chains[sv][0]) && (heads[sv] == 0 <==> chains[sv] == [])
    {
      ChainMembers(heap, heads[sv], chains[sv]);
    }

    lemma {:induction false} NextInChain(sv: Sv, left: seq<Addr>, mg: Addr, rest: seq<Addr>)
      requires Valid() && sv in chains && chains[sv] == left + [mg] + rest
      ensures mg in heap && heap[mg].more == if rest == [] then 0 else rest[0]
    {
      InChain(sv, left, mg, rest);
      hide Chain;
      assert left + [mg] + rest == left + ([mg] + rest);
      ChainSuffix(heap, heads[sv], left, [mg] + rest);
    }

    /** The hook, the release and the removal of one selected entry. */
    method DelEntry(sv: Sv, prev: Addr, mg: Addr, ghost left: seq<Addr>, ghost rest: seq<Addr>)
      requires Valid() && sv in magicBySV && sv in chains && chains[sv] == left + [mg] + rest && mg in heap
      requires prev == if left == [] then 0 else left[|left| - 1]
      modifies this`heap, this`names, this`heads, this`chains, this`events, magicBySV[sv]
      ensures Valid() && chains == old(chains)[sv := left + rest]
      ensures magicBySV[sv].anchorObj == old(magicBySV[sv].anchorObj)
      ensures Lost(old(heap), heap, {mg}) && forall a :: a in rest ==> a in heap && heap[a] == old(heap)[a]
      ensures mg !in left && names == old(names) - NameOf(old(heap)[mg])
      ensures events == old(events) + [SvtFree(sv, mg)]
        + if old(heap)[mg].obj != 0 && old(heap)[mg].obj != magicBySV[sv].anchorObj then [Dec(old(heap)[mg].obj)] else []
    {
      hide ChainsOk, NamesOk, Views, Lost, OwnsName;
      HeadsKeys();
      InChain(sv, left, mg, rest);
      var obj := heap[mg].obj;
      Guest(SvtFree(sv, mg));
      if obj != 0 && obj != magicBySV[sv].anchorObj {
        Guest(Dec(obj));
      }
      UnlinkEntry(sv, prev, mg, left, rest);
    }

    /** magicDel's loop at mg, after j entries: left are the kept ones. */
    ghost predicate Walking(w: Walk, j: nat, left: seq<Addr>, prev: Addr, mg: Addr)
      requires w.sv in magicBySV
      reads this`heap, this`names, this`chains, this`events, this`magicBySV, magicBySV[w.sv]
    {
      && j <= |w.list| && |w.ms| == |w.list|
      && chains == w.chains0[w.sv := left + w.list[j..]]
      && magicBySV[w.sv].anchorObj == w.anchor
      && mg == (if j < |w.list| then w.list[j] else 0)
      && prev == (if left == [] then 0 else left[|left| - 1])
      && Partly(w.ms, j, left, w.heap0, heap, w.names0, names, w.how, w.vtbl)
      && (forall i :: 0 <= i < |w.list| ==> w.list[i] in w.heap0 && w.ms[i] == Item(w.list[i], w.heap0[w.list[i]].(more := 0)))
      && (forall a :: a in w.list[j..] ==> a in heap && a != 0 && heap[a] == w.heap0[a])
      && events == w.events0 + DelEvents(w.sv, w.ms[..j], w.how, w.vtbl, w.anchor)
    }

    lemma {:induction false} WalkStarts(w: Walk)
      requires Valid() && w.sv in magicBySV && w.sv in chains
      requires w.list == chains[w.sv] && w.ms == ItemsOf(w.sv) && w.heap0 == heap && w.names0 == names
      requires w.chains0 == chains && w.events0 == events && w.anchor == magicBySV[w.sv].anchorObj
      ensures Walking(w, 0, [], 0, magicBySV[w.sv].head)
    {
      hide ChainsOk, NamesOk, Views, Partly, OwnsName;
      ChainStart(w.sv);
      RecHead(w.sv);
      PartlyStarts(w.ms, heap, names, w.how, w.vtbl);
      assert [] + w.list[0..] == w.list;
    }

    lemma {:induction false} WalkEnds(w: Walk, j: nat, left: seq<Addr>, prev: Addr)
      requires Valid() && w.sv in magicBySV && Walking(w, j, left, prev, 0)
      ensures Deleted(w.ms, w.heap0, w.names0, w.how, w.vtbl) && chains == w.chains0[w.sv := left]
      ensures (forall a :: a in left ==> a in heap) && Items(left, heap) == Remaining(w.ms, w.how, w.vtbl)
      ensures events == w.events0 + DelEvents(w.sv, w.ms, w.how, w.vtbl, w.anchor)
    {
      hide ChainsOk, NamesOk, Views, Partly, OwnsName, Lost, DelEvents;
      assert j == |w.list|;
      assert left + w.list[j..] == left && w.ms[..j] == w.ms;
      PartlyEnds(w.ms, left, w.heap0, heap, w.names0, names, w.how, w.vtbl);
    }

    /** What the loop knows of mg, and where it goes next. */
    lemma {:induction false} WalkAt(w: Walk, j: nat, left: seq<Addr>, prev: Addr, mg: Addr)
      requires Valid() && w.sv in magicBySV && Walking(w, j, left, prev, mg) && mg != 0
      ensures w.sv in chains && j < |w.list| && left + w.list[j..] == left + [mg] + w.list[j + 1..] && chains[w.sv] == left + [mg] + w.list[j + 1..]
      ensures w.list[j] == mg && mg in heap && heap[mg].more == (if j + 1 < |w.list| then w.list[j + 1] else 0)
      ensures w.ms[j] == Item(mg, heap[mg].(more := 0)) && chains == w.chains0[w.sv := chains[w.sv]]
    {
      hide ChainsOk, NamesOk, Views, Partly, DelEvents;
      HeadsKeys();
      assert w.list[j..] == [mg] + w.list[j + 1..];
      assert left + w.list[j..] == left + [mg] + w.list[j + 1..];
      NextInChain(w.sv, left, mg, w.list[j + 1..]);
    }

    /** The loop passes an entry it keeps. */
    lemma {:induction false} WalkKeeps(w: Walk, j: nat, left: seq<Addr>, prev: Addr, mg: Addr)
      requires Valid() && w.sv in magicBySV && Walking(w, j, left, prev, mg) && mg != 0 && mg in heap && !Selected(heap[mg], w.how, w.vtbl)
      ensures Walking(w, j + 1, left + [mg], mg, heap[mg].more)
    {
      hide ChainsOk, NamesOk, Views, Partly, DelEvents, Valid;
      WalkAt(w, j, left, prev, mg);
      DelStep(w.sv, w.ms, j, w.how, w.vtbl, w.anchor);
      PartlyKept(w.ms, j, left, w.heap0, heap, w.names0, names, w.how, w.vtbl);
      assert left + [mg] + w.list[j + 1..] == left + w.list[j..];
    }

    /** ... and removes one it does not. */
    method DelSelected(prev: Addr, mg: Addr, ghost w: Walk, ghost j: nat, ghost left: seq<Addr>, sv: Sv)
      requires Valid() && w.sv == sv && sv in magicBySV && Walking(w, j, left, prev, mg) && mg != 0 && mg in heap
      requires Selected(heap[mg], w.how, w.vtbl)
      modifies this`heap, this`names, this`heads, this`chains, this`events, magicBySV[sv]
      ensures Valid() && Walking(w, j + 1, left, prev, old(heap[mg].more)) && j < |w.list|
    {
      hide ChainsOk, NamesOk, Views, Partly, DelEvents, Lost, OwnsName, NameOf, Selected;
      WalkAt(w, j, left, prev, mg);
      ghost var rest, heap1, names1 := w.list[j + 1..], heap, names;
      DelStep(sv, w.ms, j, w.how, w.vtbl, w.anchor);
      SelectedAlike(heap[mg], w.how, w.vtbl);
      DelEntry(sv, prev, mg, left, rest);
      PartlyUnlinked(w.ms, j, left, w.heap0, heap1, heap, w.names0, names1, names, w.how, w.vtbl);
    }

    /** One round of magicDel's loop. */
    method DelOne(prev: Addr, mg: Addr, ghost w: Walk, ghost j: nat, ghost left: seq<Addr>, sv: Sv, how: int, vtbl: Addr)
      returns (prev2: Addr, next: Addr, ghost left2: seq<Addr>)
      requires Valid() && w.sv == sv && w.how == how && w.vtbl == vtbl && sv in magicBySV && Walking(w, j, left, prev, mg) && mg != 0
      modifies this`heap, this`names, this`heads, this`chains, this`events, magicBySV[sv]
      ensures Valid() && Walking(w, j + 1, left2, prev2, next) && j < |w.list|
    {
      hide ChainsOk, NamesOk, Views, Walking;
      WalkAt(w, j, left, prev, mg);
      var e := heap[mg];
      next, prev2, left2 := e.more, prev, left;
      if e.typ == how % 256 && (vtbl == 0 || e.vtbl == vtbl) {
        DelSelected(prev, mg, w, j, left, sv);
      } else {
        WalkKeeps(w, j, left, prev, mg);
        prev2, left2 := mg, left + [mg];
      }
    }

    /** magicDel's loop. */
    method UnlinkSelected(sv: Sv, how: int, vtbl: Addr)
      requires Valid() && sv in magicBySV
      modifies this`heap, this`names, this`heads, this`chains, this`events, magicBySV[sv]
      ensures Valid() && Deleted(old(ItemsOf(sv)), old(heap), old(names), how, vtbl)
      ensures magicBySV[sv].anchorObj == old(magicBySV[sv].anchorObj)
      ensures sv in chains && chains == old(chains)[sv := chains[sv]] && forall a :: a in chains[sv] ==> a in heap
      ensures Items(chains[sv], heap) == Remaining(old(ItemsOf(sv)), how, vtbl)
      ensures events == old(events) + DelEvents(sv, old(ItemsOf(sv)), how, vtbl, magicBySV[sv].anchorObj)
    {
      hide ChainsOk, NamesOk, Views, Partly, DelEvents, Lost, OwnsName, Deleted, ItemsOf;
      HeadsKeys();
      ghost var w := Walk(sv, how, vtbl, chains[sv], ItemsOf(sv), heap, names, chains, events, magicBySV[sv].anchorObj);
      ghost var left: seq<Addr>, j := [], 0;
      WalkStarts(w);
      var prev: Addr := 0;
      var mg := magicBySV[sv].head;
      while mg != 0
        invariant Valid() && Walking(w, j, left, prev, mg)
        decreases |w.list| - j
      {
        prev, mg, left := DelOne(prev, mg, w, j, left, sv, how, vtbl);
        j := j + 1;
      }
      WalkEnds(w, j, left, prev);
    }

    lemma {:induction false} RecHead(sv: Sv)
      requires Valid() && sv in magicBySV
      ensures sv in heads && magicBySV[sv].head == heads[sv]
    {
    }

    /** magicDel: sv_unmagic and sv_unmagicext over the mirror chain. */
    method MagicDel(sv: Sv, how: int, vtbl: Addr)
      requires Valid()
      modifies this, magicBySV.Values
      ensures Valid()
      ensures sv !in old(magicBySV) ==> magicBySV == old(magicBySV) && chains == old(chains) && heap == old(heap) && events == old(events)
      ensures sv in old(magicBySV) ==>
        && Deleted(old(ItemsOf(sv)), old(heap), old(names), how, vtbl)
        && events == old(events) + DelEvents(sv, old(ItemsOf(sv)), how, vtbl, old(magicBySV[sv].anchorObj))
                     + (if Remaining(old(ItemsOf(sv)), how, vtbl) == [] then [Unattach(sv)] else [])
      ensures sv in old(magicBySV) ==>
        if Remaining(old(ItemsOf(sv)), how, vtbl) == [] then
          && magicBySV == old(magicBySV) - {sv} && magicByID == old(magicByID) - {old(magicBySV[sv].anchorID)}
          && chains == old(chains) - {sv}
        else
          && magicBySV == old(magicBySV) && magicByID == old(magicByID)
          && chains == old(chains)[sv := ChainOf(sv)] && (forall a :: a in ChainOf(sv) ==> a in heap)
          && Items(ChainOf(sv), heap) == Remaining(old(ItemsOf(sv)), how, vtbl)
      ensures forall s :: s in magicBySV ==> s in old(magicBySV) && magicBySV[s] == old(magicBySV[s]) && magicBySV[s].anchorObj == old(magicBySV[s].anchorObj)
      ensures nextMagicID == old(nextMagicID) && forall r :: old(Tracks(r)) ==> Tracks(Next(r, Del(sv, how, vtbl)))
    {
      hide ChainsOk, NamesOk, Views, DelEvents, Lost, OwnsName, Ats, Names, Removed, LedTo, Next, Listed, ItemsOf, Apart, Remaining;
      HeadsKeys();
      ViewNow();
      ghost var view := View();
      if sv !in magicBySV {
        NotListed(view, sv, how, vtbl);
        return;
      }
      AllApart(sv);
      RecHead(sv);
      UnlinkSelected(sv, how, vtbl);
      ItemsAre(sv);
      DropIfEmpty(sv);
      DelTracked(old(heap), old(chains), view, old(events), sv, how, vtbl);
    }

    /** The end of magicDel: an emptied record goes, and its guest anchor. */
    method DropIfEmpty(sv: Sv)
      requires Valid() && sv in magicBySV && sv in chains
      modifies this`magicBySV, this`magicByID, this`heads, this`chains, this`events
      ensures Valid()
      ensures if old(chains)[sv] == [] then
          && magicBySV == old(magicBySV) - {sv} && magicByID == old(magicByID) - {old(magicBySV[sv].anchorID)}
          && chains == old(chains) - {sv} && events == old(events) + [Unattach(sv)]
        else magicBySV == old(magicBySV) && magicByID == old(magicByID) && chains == old(chains) && events == old(events)
    {
      hide ChainsOk, NamesOk, Views;
      RecHead(sv);
      ChainStart(sv);
      if magicBySV[sv].head == 0 {
        DropRecord(sv);
        Guest(Unattach(sv));
      }
    }

    /** Forget sv's record. */
    method DropRecord(sv: Sv)
      requires Valid() && sv in magicBySV
      modifies this`magicBySV, this`magicByID, this`heads, this`chains
      ensures Valid() && magicBySV == old(magicBySV) - {sv} && magicByID == old(magicByID) - {old(magicBySV[sv].anchorID)}
      ensures chains == old(chains) - {sv} && heads == old(heads) - {sv}
    {
      hide ChainsOk, NamesOk, Views;
      HeadsKeys();
      Dropped(sv);
      DropViews(sv);
      chains := chains - {sv};
    }

    lemma {:induction false} Dropped(sv: Sv)
      requires Valid()
      ensures ChainsOk(heap, heads - {sv}, chains - {sv})
    {
      ChainDropped(heap, heap, heads, chains, sv);
    }

    method DropViews(sv: Sv)
      requires Views() && sv in magicBySV
      modifies this`magicBySV, this`magicByID, this`heads
      ensures Views() && magicBySV == old(magicBySV) - {sv} && magicByID == old(magicByID) - {old(magicBySV[sv].anchorID)}
      ensures heads == old(heads) - {sv}
    {
      hide ViewsOk;
      ViewsWithout(magicBySV, magicByID, nextMagicID, heads, sv);
      var rec := magicBySV[sv];
      magicBySV := magicBySV - {sv};
      magicByID := magicByID - {rec.anchorID};
      heads := heads - {sv};
    }

    /** A node and its name copy, in no chain, go back to the C heap. */
    method FreeEntry(mg: Addr)
      requires Valid() && mg in heap && Unlisted(chains, mg)
      modifies this`heap, this`names
      ensures Valid() && heap == old(heap) - {mg} && names == old(names) - NameOf(old(heap)[mg])
    {
      hide ChainsOk, NamesOk, Views, OwnsName, Unlisted;
      UnlistedFreed(heap, heads, chains, mg);
      NameFreed(heap, heap - {mg}, names, mg);
      if OwnsName(heap[mg]) {
        names := names - {heap[mg].ptr};
      }
      assert names == old(names) - NameOf(old(heap)[mg]);
      heap := heap - {mg};
    }

    /** A dropped record keeps changing until its chain is gone. */
    method ClearAnchor(rec: MagicRec)
      requires Valid() && rec !in magicBySV.Values
      modifies rec`anchorObj
      ensures Valid() && rec.anchorObj == 0
    {
      rec.anchorObj := 0;
    }

    /** magicFreed's loop at mg, after j entries. */
    ghost predicate Sweeping(w: Walk, rec: MagicRec, j: nat, mg: Addr)
      reads this`heap, this`names, this`chains, this`events, this`magicBySV, rec
    {
      && j <= |w.list| && |w.ms| == |w.list| && NoDup(w.list) && rec !in magicBySV.Values && rec.svTok == w.sv
      && chains == w.chains0
      && (forall i :: 0 <= i < |w.list| ==> w.list[i] in w.heap0 && w.ms[i] == Item(w.list[i], w.heap0[w.list[i]].(more := 0)))
      && (forall a :: a in w.list ==> Unlisted(chains, a))
      && Chain(w.heap0, mg, w.list[j..])
      && heap == w.heap0 - Ats(w.ms[..j]) && names == w.names0 - Names(w.ms[..j])
      && rec.anchorObj == AnchorAfter(w.ms[..j], w.anchor)
      && events == w.events0 + FreedEvents(w.sv, w.ms[..j], w.anchor)
    }

    /** One round of magicFreed's loop. */
    method FreeOne(rec: MagicRec, mg: Addr, ghost w: Walk, ghost j: nat) returns (next: Addr)
      requires Valid() && Sweeping(w, rec, j, mg) && mg != 0
      modifies this`heap, this`names, this`events, rec`anchorObj
      ensures Valid() && j < |w.list| && Sweeping(w, rec, j + 1, next)
    {
      hide ChainsOk, NamesOk, Views, FreedEvents, Carrying, OwnsName, NameOf, Ats, Names, Unlisted;
      assert w.list[j..][1..] == w.list[j + 1..];
      NotYetSwept(w.list, w.ms, j);
      SweepStep(w.sv, w.ms, j, w.anchor);
      var node := heap[mg];
      next := node.more;
      Guest(SvtFree(rec.svTok, mg));
      if node.obj != 0 && node.obj != rec.anchorObj {
        Guest(Dec(node.obj));
      } else if node.obj != 0 && node.obj == rec.anchorObj {
        ClearAnchor(rec);
      }
      LinkIsNoName(node);
      FreeEntry(mg);
    }

    lemma {:induction false} SweepBegins(w: Walk, rec: MagicRec, list: seq<Addr>, head: Addr)
      requires Valid() && NoDup(list) && rec !in magicBySV.Values && rec.svTok == w.sv && rec.anchorObj == w.anchor
      requires chains == w.chains0 && heap == w.heap0 && names == w.names0 && events == w.events0
      requires Chain(heap, head, list) && (forall a :: a in list ==> Unlisted(chains, a))
      requires w.list == list && (forall a :: a in list ==> a in heap) && w.ms == Items(list, heap)
      ensures Sweeping(w, rec, 0, head)
    {
      hide ChainsOk, NamesOk, Views, FreedEvents, Carrying, AnchorAfter, NoDup, Chain, Ats, Names;
      SweepStarts(w.sv, w.ms, heap, names, w.anchor);
      assert w.list[0..] == w.list;
    }

    lemma {:induction false} SweepOver(w: Walk, rec: MagicRec, j: nat)
      requires Sweeping(w, rec, j, 0)
      ensures chains == w.chains0 && heap == w.heap0 - (set a | a in w.list) && names == w.names0 - Names(w.ms)
      ensures events == w.events0 + FreedEvents(w.sv, w.ms, w.anchor)
    {
      hide FreedEvents, AnchorAfter, NoDup, Ats, Names;
      assert j == |w.list| && w.ms[..j] == w.ms;
      AtsAre(w.list, w.ms);
    }

    /** magicFreed: the guest freed the SV carrying anchor id. */
    method MagicFreed(id: nat)
      requires Valid()
      modifies this, magicBySV.Values
      ensures Valid() && nextMagicID == old(nextMagicID)
      ensures id !in old(magicByID) ==>
        magicBySV == old(magicBySV) && magicByID == old(magicByID) && chains == old(chains) && heap == old(heap) && events == old(events)
      ensures id in old(magicByID) ==>
        && var sv := old(magicByID[id].svTok);
        && sv in old(magicBySV)
        && magicBySV == old(magicBySV) - {sv} && magicByID == old(magicByID) - {id} && chains == old(chains) - {sv}
        && heap == old(heap) - (set a | a in old(ChainOf(sv))) && names == old(names) - Names(old(ItemsOf(sv)))
        && events == old(events) + FreedEvents(sv, old(ItemsOf(sv)), old(magicByID[id].anchorObj))
      ensures forall s :: s in magicBySV ==> s in old(magicBySV) && magicBySV[s] == old(magicBySV[s]) && magicBySV[s].anchorObj == old(magicBySV[s].anchorObj)
      ensures forall r :: old(Tracks(r)) ==> Tracks(Next(r, Freed(id)))
    {
      hide ChainsOk, NamesOk, Views, FreedEvents, AnchorAfter, NoDup, Chain, Ats, Names, Unlisted, Sweeping, LedTo, Next, Listed;
      ViewNow();
      ghost var view := View();
      if id !in magicByID {
        NotPresent(view, id);
        return;
      }
      var rec := magicByID[id];
      var sv := rec.svTok;
      RecOf(id);
      ghost var list, ms := chains[sv], ItemsOf(sv);
      RecHead(sv);
      ChainStart(sv);
      OwnChain(sv);
      AllApart(sv);
      DropRecord(sv);
      ghost var w := Walk(sv, 0, 0, list, ms, heap, names, chains, events, rec.anchorObj);
      SweepBegins(w, rec, list, rec.head);
      var mg := rec.head;
      ghost var j := 0;
      while mg != 0
        invariant Valid() && j <= |list| && Sweeping(w, rec, j, mg)
        invariant nextMagicID == old(nextMagicID) && magicBySV == old(magicBySV) - {sv} && magicByID == old(magicByID) - {id}
        invariant forall s :: s in magicBySV ==> magicBySV[s] != rec && magicBySV[s].anchorObj == old(magicBySV[s].anchorObj)
        decreases |list| - j
      {
        mg := FreeOne(rec, mg, w, j);
        j := j + 1;
      }
      SweepOver(w, rec, j);
      FreedTracked(old(heap), old(chains), view, old(events), sv);
    }

    lemma {:induction false} ItemsAre(sv: Sv)
      requires sv in chains && forall a :: a in chains[sv] ==> a in heap
      ensures ItemsOf(sv) == Items(chains[sv], heap) && ChainOf(sv) == chains[sv] && (ItemsOf(sv) == [] <==> chains[sv] == [])
    {
    }

    lemma {:induction false} AllApart(sv: Sv)
      requires Valid() && sv in chains
      ensures forall s :: s in chains && s != sv ==> Apart(chains[s], chains[sv])
    {
    }

    /** The guest reports an anchor the loader has no record of any more. */
    lemma {:induction false} NotPresent(view: map<Sv, Told>, id: nat)
      requires Valid() && id !in magicByID && view == View()
      ensures forall r :: LedTo(r, events, nextMagicID, view) ==> Next(r, Freed(id)) == r
    {
      forall sv | sv in view ensures view[sv].id != id {
        assert ViewedBySV(magicBySV[sv], sv, magicByID, heads[sv]);
      }
      hide Next, Tells;
      forall r | LedTo(r, events, nextMagicID, view) ensures Next(r, Freed(id)) == r {
        NotTold(r, id, view);
      }
    }

    lemma {:induction false} NotListed(view: map<Sv, Told>, sv: Sv, how: int, vtbl: Addr)
      requires sv !in view
      ensures forall r :: LedTo(r, events, nextMagicID, view) ==> Next(r, Del(sv, how, vtbl)) == r
    {
      hide Next, Tells;
      forall r | LedTo(r, events, nextMagicID, view) ensures Next(r, Del(sv, how, vtbl)) == r {
        DelTells(r, sv, how, vtbl, view);
      }
    }

    lemma {:induction false} RecOf(id: nat)
      requires Valid() && id in magicByID
      ensures var rec := magicByID[id]; rec.svTok in magicBySV && magicBySV[rec.svTok] == rec && rec.anchorID == id
      ensures magicByID[id].svTok in chains
      ensures forall s :: s in magicBySV && s != magicByID[id].svTok ==> magicBySV[s] != magicByID[id]
    {
      assert ViewedByID(magicByID[id], id, magicBySV, nextMagicID);
      forall s | s in magicBySV && s != magicByID[id].svTok ensures magicBySV[s] != magicByID[id] {
        assert ViewedBySV(magicBySV[s], s, magicByID, heads[s]);
      }
    }

    lemma {:induction false} OwnChain(sv: Sv)
      requires Valid() && sv in chains
      ensures sv in heads && Chain(heap, heads[sv], chains[sv]) && NoDup(chains[sv])
      ensures forall a :: a in chains[sv] ==> Unlisted(chains - {sv}, a)
    {
    }

    /** magicSetHead: the module relinked sv's entries itself, into list. */
    method MagicSetHead(sv: Sv, mg: Addr, ghost list: seq<Addr>)
      requires Valid() && Chain(heap, mg, list) && NoDup(list) && forall s :: s in chains && s != sv ==> Apart(chains[s], list)
      modifies this`heads, this`chains, magicBySV.Values
      ensures Valid() && (forall s :: s in magicBySV ==> magicBySV[s].anchorObj == old(magicBySV[s].anchorObj))
      ensures chains == if sv in magicBySV then old(chains)[sv := list] else old(chains)
    {
      hide ChainsOk, NamesOk, Views, Chain, NoDup, Apart;
      HeadsKeys();
      if sv in magicBySV {
        OneChainChanged(heap, heap, heads, chains, sv, mg, list);
        SetRecHead(sv, mg);
        chains := chains[sv := list];
      }
    }

    /** The usual relinking: the head entry unlinked. */
    lemma {:induction false} HeadUnlinked(sv: Sv)
      requires Valid() && sv in chains && chains[sv] != []
      ensures var mg := chains[sv][0];
        mg in heap && Chain(heap, heap[mg].more, chains[sv][1..]) && NoDup(chains[sv][1..])
        && forall s :: s in chains && s != sv ==> Apart(chains[s], chains[sv][1..])
    {
      forall s | s in chains && s != sv ensures Apart(chains[s], chains[sv][1..]) {
        assert Apart(chains[s], chains[sv]);
        assert forall a :: a in chains[sv][1..] ==> a in chains[sv];
      }
    }

    /** What a hook that unlinks the entries in gone does to sv's chain. */
    method UnlinkAll(sv: Sv, gone: set<Addr>)
      requires Valid() && sv in magicBySV
      modifies this`heap, this`names, this`heads, this`chains, magicBySV[sv]
      ensures Valid() && sv in old(chains) && chains == old(chains)[sv := Without(old(chains)[sv], gone)]
      ensures magicBySV[sv].anchorObj == old(magicBySV[sv].anchorObj)
    {
      hide ChainsOk, NamesOk, Views, Without, Sifting;
      HeadsKeys();
      ghost var left: seq<Addr>, list := [], chains[sv];
      SiftingStarts(sv, gone);
      var prev: Addr, mg := 0, magicBySV[sv].head;
      while mg != 0
        invariant Valid() && Sifting(sv, gone, old(chains), left, list, prev, mg)
        invariant magicBySV[sv].anchorObj == old(magicBySV[sv].anchorObj)
        decreases |list|
      {
        prev, mg, left, list := UnlinkNext(sv, gone, prev, mg, old(chains), left, list);
      }
      SiftingOver(sv, gone, old(chains), left, list, prev);
    }

    /** It at mg: left are the entries kept before it, list those from it on. */
    ghost predicate Sifting(sv: Sv, gone: set<Addr>, chains0: map<Sv, seq<Addr>>, left: seq<Addr>, list: seq<Addr>, prev: Addr, mg: Addr)
      reads this`chains
    {
      && sv in chains0 && chains == chains0[sv := left + list]
      && mg == (if list == [] then 0 else list[0]) && prev == (if left == [] then 0 else left[|left| - 1])
      && left + Without(list, gone) == Without(chains0[sv], gone)
    }

    lemma {:induction false} SiftingStarts(sv: Sv, gone: set<Addr>)
      requires Valid() && sv in magicBySV && sv in chains
      ensures Sifting(sv, gone, chains, [], chains[sv], 0, magicBySV[sv].head)
    {
      hide ChainsOk, NamesOk, Views, Without;
      ChainStart(sv);
      RecHead(sv);
      assert [] + chains[sv] == chains[sv] && [] + Without(chains[sv], gone) == Without(chains[sv], gone);
      assert chains == chains[sv := chains[sv]];
    }

    lemma {:induction false} SiftingOver(sv: Sv, gone: set<Addr>, chains0: map<Sv, seq<Addr>>, left: seq<Addr>, list: seq<Addr>, prev: Addr)
      requires Valid() && Sifting(sv, gone, chains0, left, list, prev, 0)
      ensures chains == chains0[sv := Without(chains0[sv], gone)]
    {
      NonNull(sv);
      assert forall i :: 0 <= i < |list| ==> chains[sv][|left| + i] == list[i];
      assert list == [];
      assert left + [] == left;
    }

    /** No entry is at the null address. */
    lemma {:induction false} NonNull(sv: Sv)
      requires Valid() && sv in chains
      ensures forall i :: 0 <= i < |chains[sv]| ==> chains[sv][i] != 0
    {
      ChainMembers(heap, heads[sv], chains[sv]);
      assert forall i :: 0 <= i < |chains[sv]| ==> chains[sv][i] in chains[sv];
    }

    /** One round of it. */
    method UnlinkNext(sv: Sv, gone: set<Addr>, prev: Addr, mg: Addr, ghost chains0: map<Sv, seq<Addr>>, ghost left: seq<Addr>, ghost list: seq<Addr>)
      returns (prev2: Addr, next: Addr, ghost left2: seq<Addr>, ghost list2: seq<Addr>)
      requires Valid() && sv in magicBySV && mg != 0 && Sifting(sv, gone, chains0, left, list, prev, mg)
      modifies this`heap, this`names, this`heads, this`chains, magicBySV[sv]
      ensures Valid() && Sifting(sv, gone, chains0, left2, list2, prev2, next) && |list2| < |list|
      ensures magicBySV[sv].anchorObj == old(magicBySV[sv].anchorObj)
    {
      hide ChainsOk, NamesOk, Views, Lost, NameOf, Without;
      list2 := list[1..];
      assert list == [mg] + list2 && left + list == left + [mg] + list2;
      NextInChain(sv, left, mg, list2);
      WithoutHead(mg, list2, gone);
      next, prev2, left2 := heap[mg].more, mg, left + [mg];
      if mg in gone {
        prev2, left2 := prev, left;
        UnlinkEntry(sv, prev, mg, left, list2);
      }
    }

    /** magicSetFired's loop at mg: done have had their hooks run, left are still linked before it
        and list from it on. */
    ghost predicate Firing(sv: Sv, gone: Hooks, chains0: map<Sv, seq<Addr>>, events0: seq<Event>,
                           done: seq<Addr>, left: seq<Addr>, list: seq<Addr>, mg: Addr)
      reads this`chains, this`events
    {
      && sv in chains0 && chains == chains0[sv := left + list] && KeepsNext(list, gone)
      && mg == (if list == [] then 0 else list[0])
      && events == events0 + SetEvents(sv, done)
      && done + Fired(list, gone) == Fired(chains0[sv], gone)
      && Stayed(left, list, gone) == Stayed([], chains0[sv], gone)
    }

    lemma {:induction false} FiringStarts(sv: Sv, gone: Hooks)
      requires Valid() && sv in magicBySV && sv in chains && KeepsNext(chains[sv], gone)
      ensures Firing(sv, gone, chains, events, [], [], chains[sv], magicBySV[sv].head)
    {
      hide ChainsOk, NamesOk, Views, Fired, Stayed, KeepsNext;
      ChainStart(sv);
      RecHead(sv);
      assert [] + chains[sv] == chains[sv] && [] + Fired(chains[sv], gone) == Fired(chains[sv], gone);
      assert chains == chains[sv := chains[sv]];
      assert SetEvents(sv, []) == [] && events + [] == events;
    }

    /** One round of magicSetFired's loop: the successor is read, then the svt_set of mg runs. */
    method FireOne(sv: Sv, mg: Addr, gone: Hooks, ghost chains0: map<Sv, seq<Addr>>, ghost events0: seq<Event>,
                   ghost done: seq<Addr>, ghost left: seq<Addr>, ghost list: seq<Addr>)
      returns (next: Addr, ghost left2: seq<Addr>, ghost list2: seq<Addr>)
      requires Valid() && sv in magicBySV && mg != 0 && Firing(sv, gone, chains0, events0, done, left, list, mg)
      modifies this`heap, this`names, this`heads, this`chains, this`events, magicBySV[sv]
      ensures Valid() && Firing(sv, gone, chains0, events0, done + [mg], left2, list2, next) && |list2| < |list|
      ensures magicBySV[sv].anchorObj == old(magicBySV[sv].anchorObj)
    {
      hide ChainsOk, NamesOk, Views, Without;
      ghost var rest := list[1..];
      assert list == [mg] + rest && left + list == left + [mg] + rest;
      NextInChain(sv, left, mg, rest);
      next := heap[mg].more;
      Guest(SvtSet(sv, mg));
      left2, list2 := Without(left + [mg], gone(mg)), Without(rest, gone(mg));
      WithoutJoin(left + [mg], rest, gone(mg));
      if rest != [] {
        WithoutFirst(rest, gone(mg));
      }
      UnlinkAll(sv, gone(mg));
      assert done + Fired(list, gone) == done + [mg] + Fired(list2, gone);
    }

    /** magicSetFired: the guest assigned to the SV carrying anchor id.  The hooks of the entries in
        Fired run, in order, whatever entries a hook unlinks and frees besides the one after its
        own. */
    method MagicSetFired(id: nat, gone: Hooks)
      requires Valid() && (id in magicByID ==> KeepsNext(ChainOf(magicByID[id].svTok), gone))
      modifies this`heap, this`names, this`heads, this`chains, this`events, magicBySV.Values
      ensures Valid() && forall s :: s in magicBySV ==> magicBySV[s].anchorObj == old(magicBySV[s].anchorObj)
      ensures id !in magicByID ==> chains == old(chains) && heap == old(heap) && events == old(events)
      ensures id in magicByID ==>
        && var sv := magicByID[id].svTok;
        && events == old(events) + SetEvents(sv, Fired(old(ChainOf(sv)), gone))
        && chains == old(chains)[sv := Stayed([], old(ChainOf(sv)), gone)]
    {
      hide ChainsOk, NamesOk, Views, Firing, KeepsNext, Fired, Stayed;
      if id !in magicByID {
        return;
      }
      var rec := magicByID[id];
      var sv := rec.svTok;
      RecOf(id);
      ghost var done: seq<Addr>, left: seq<Addr>, list := [], [], chains[sv];
      FiringStarts(sv, gone);
      var mg := rec.head;
      while mg != 0
        invariant forall s :: s in magicBySV ==> magicBySV[s].anchorObj == old(magicBySV[s].anchorObj)
        invariant Valid() && Firing(sv, gone, old(chains), old(events), done, left, list, mg)
        decreases |list|
      {
        ghost var at := mg;
        mg, left, list := FireOne(sv, mg, gone, old(chains), old(events), done, left, list);
        done := done + [at];
      }
      FiringOver(sv, gone, old(chains), old(events), done, left, list);
    }

    lemma {:induction false} FiringOver(sv: Sv, gone: Hooks, chains0: map<Sv, seq<Addr>>, events0: seq<Event>, done: seq<Addr>, left: seq<Addr>, list: seq<Addr>)
      requires Valid() && Firing(sv, gone, chains0, events0, done, left, list, 0)
      ensures chains == chains0[sv := Stayed([], chains0[sv], gone)] && events == events0 + SetEvents(sv, Fired(chains0[sv], gone))
    {
      NonNull(sv);
      assert forall i :: 0 <= i < |list| ==> chains[sv][|left| + i] == list[i];
      assert list == [];
      assert left + [] == left && done + [] == done;
    }
  }
}
