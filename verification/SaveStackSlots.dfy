/** Scope destructors and savestack scratch blocks: registrations kept in a host table, fired by
    number when the guest pops its savestack. */
module SaveStackSlots {

  import opened CHeap
  import opened Options

  // GOPERL_DTOR_MAX and GOPERL_SSNEW_MAX
  const SLOTS := 4096

  datatype Fn = NullFn | UserFn(f: nat) | SsnewFree

  datatype Dtor = Dtor(fn: Fn, arg: nat, used: bool)

  // ---- what is registered, pending and fired, by registration number ---------------------

  /** Push: a registration put on the savestack.  Lose: one the guest did not take.  Pop: the
      guest pops its last entry. */
  datatype Op = Push | Lose | Pop

  datatype Hist = Hist(next: nat, stack: seq<nat>, fired: seq<nat>, lost: set<nat>)

  function Play(ops: seq<Op>): Hist {
    if ops == [] then Hist(0, [], [], {}) else
    var h := Play(ops[..|ops| - 1]);
    match ops[|ops| - 1]
    case Push => h.(next := h.next + 1, stack := h.stack + [h.next])
    case Lose => h.(next := h.next + 1, lost := h.lost + {h.next})
    case Pop => if h.stack == [] then h else h.(stack := h.stack[..|h.stack| - 1], fired := h.fired + [h.stack[|h.stack| - 1]])
  }

  ghost predicate Rising(s: seq<nat>) {
    forall i, j :: 0 <= i < j < |s| ==> s[i] < s[j]
  }

  ghost predicate Sound(h: Hist) {
    && Rising(h.stack)
    && (forall i, j :: 0 <= i < j < |h.fired| ==> h.fired[i] != h.fired[j])
    && (forall n :: n in h.stack ==> n < h.next && n !in h.fired && n !in h.lost)
    && (forall n :: n in h.fired ==> n < h.next && n !in h.lost)
    && (forall n :: n in h.lost ==> n < h.next)
    && (forall n :: 0 <= n < h.next ==> n in h.stack || n in h.fired || n in h.lost)
  }

  /** Every registration is pending, fired once or never taken, whatever the run. */
  lemma {:induction false} PlaySound(ops: seq<Op>)
    ensures Sound(Play(ops))
  {
    if ops != [] {
      var h := Play(ops[..|ops| - 1]);
      PlaySound(ops[..|ops| - 1]);
      match ops[|ops| - 1]
      case Push =>
        PushSound(h);
      case Lose =>
      case Pop =>
        if h.stack != [] {
          PopSound(h);
        }
    }
  }

  lemma {:induction false} PushSound(h: Hist)
    requires Sound(h)
    ensures Sound(h.(next := h.next + 1, stack := h.stack + [h.next]))
  {
    var t := h.(next := h.next + 1, stack := h.stack + [h.next]);
    forall i, j | 0 <= i < j < |t.stack| ensures t.stack[i] < t.stack[j] {
      assert h.stack[i] in h.stack;
    }
    assert forall n :: n in h.stack ==> n in t.stack;
    assert h.next in t.stack;
  }

  lemma {:induction false} PopSound(h: Hist)
    requires Sound(h) && h.stack != []
    ensures Sound(h.(stack := h.stack[..|h.stack| - 1], fired := h.fired + [h.stack[|h.stack| - 1]]))
  {
    var top := h.stack[|h.stack| - 1];
    var less, more := h.stack[..|h.stack| - 1], h.fired + [top];
    assert top in h.stack;
    forall i, j | 0 <= i < j < |more| ensures more[i] != more[j] {
      assert h.fired[i] in h.fired;
    }
    forall n | n in less ensures n in h.stack && n !in more {
      var i :| 0 <= i < |less| && less[i] == n;
      assert h.stack[i] == n && h.stack[i] < top;
    }
    forall n | 0 <= n < h.next ensures n in less || n in more || n in h.lost {
      if n in h.stack && n != top {
        var i :| 0 <= i < |h.stack| && h.stack[i] == n;
        assert less[i] == n;
      }
    }
  }

  ghost predicate Before(s: seq<nat>, n: nat, m: nat) {
    exists i, j :: 0 <= i < j < |s| && s[i] == n && s[j] == m
  }

  /** Of two pending registrations the later fires first: when the earlier has fired, the later
      has, before it. */
  lemma {:induction false} LifetimesNest(ops: seq<Op>, more: seq<Op>, m: nat, n: nat)
    requires m in Play(ops).stack && n in Play(ops).stack && m < n
    ensures var h := Play(ops + more);
      || (m in h.stack && (n in h.stack || n in h.fired))
      || Before(h.fired, n, m)
  {
    if more == [] {
      assert ops + more == ops;
    } else {
      var less, op := more[..|more| - 1], more[|more| - 1];
      assert ops + more == (ops + less) + [op];
      LifetimesNest(ops, less, m, n);
      PlaySound(ops + less);
      NestStep(Play(ops + less), op, Play(ops + more), m, n);
    }
  }

  lemma {:induction false} NestStep(h: Hist, op: Op, t: Hist, m: nat, n: nat)
    requires Rising(h.stack) && m < n && ((m in h.stack && (n in h.stack || n in h.fired)) || Before(h.fired, n, m))
    requires op == Pop && h.stack != [] ==> t == h.(stack := h.stack[..|h.stack| - 1], fired := h.fired + [h.stack[|h.stack| - 1]])
    requires !(op == Pop && h.stack != []) ==> t.fired == h.fired && h.stack <= t.stack
    ensures (m in t.stack && (n in t.stack || n in t.fired)) || Before(t.fired, n, m)
  {
    if Before(h.fired, n, m) {
      var i, j :| 0 <= i < j < |h.fired| && h.fired[i] == n && h.fired[j] == m;
      assert t.fired[i] == n && t.fired[j] == m;
    } else if op == Pop {
      var top := h.stack[|h.stack| - 1];
      assert h.stack == t.stack + [top];
      assert t.fired[|h.fired|] == top;
      if n in h.fired {
        var i :| 0 <= i < |h.fired| && h.fired[i] == n;
        assert t.fired[i] == n;
      } else {
        var i :| 0 <= i < |h.stack| && h.stack[i] == m;
        var j :| 0 <= j < |h.stack| && h.stack[j] == n;
        assert i < j;
        assert t.stack[i] == m;
      }
    } else {
      assert forall i :: 0 <= i < |h.stack| ==> t.stack[i] == h.stack[i];
    }
  }

  // ---- the tables --------------------------------------------------------------------------

  /** Each pending id is a used slot holding what its registration put there. */
  ghost predicate Holding(ds: seq<Dtor>, stack: seq<nat>, serials: seq<nat>, regs: seq<Dtor>)
    requires |ds| == SLOTS && |serials| == |stack|
  {
    forall p :: 0 <= p < |stack| ==> 0 < stack[p] <= SLOTS && serials[p] < |regs| && ds[stack[p] - 1].used && ds[stack[p] - 1] == regs[serials[p]]
  }

  ghost predicate NoDup(stack: seq<nat>) {
    forall p, q :: 0 <= p < q < |stack| ==> stack[p] != stack[q]
  }

  /** The used slots are the pending ids and those the guest did not take. */
  ghost predicate Listed(ds: seq<Dtor>, stack: seq<nat>, orphaned: set<nat>)
    requires |ds| == SLOTS
  {
    && (forall i :: 0 <= i < SLOTS && ds[i].used ==> i + 1 in stack || i in orphaned)
    && (forall i :: i in orphaned ==> i < SLOTS && ds[i].used && i + 1 !in stack)
  }

  ghost predicate Filled(ds: seq<Dtor>, stack: seq<nat>, serials: seq<nat>, regs: seq<Dtor>, orphaned: set<nat>) {
    && |ds| == SLOTS && |serials| == |stack|
    && Holding(ds, stack, serials, regs) && NoDup(stack) && Listed(ds, stack, orphaned)
  }

  predicate Frees(d: Dtor, ix: nat) {
    d.fn == SsnewFree && d.arg == ix
  }

  /** Every block is freed by exactly one pending registration, or has none and leaks. */
  ghost predicate Covered(ss: seq<Addr>, serials: seq<nat>, regs: seq<Dtor>, leaked: set<nat>) {
    && |ss| == SLOTS
    && (forall p :: 0 <= p < |serials| ==> serials[p] < |regs|)
    && (forall ix :: ix in leaked ==> ix < SLOTS && ss[ix] != 0)
    && (forall p :: 0 <= p < |serials| && regs[serials[p]].fn == SsnewFree ==>
          regs[serials[p]].arg < SLOTS && ss[regs[serials[p]].arg] != 0 && regs[serials[p]].arg !in leaked)
    && (forall p, q :: 0 <= p < q < |serials| && regs[serials[p]].fn == SsnewFree && regs[serials[q]].fn == SsnewFree ==>
          regs[serials[p]].arg != regs[serials[q]].arg)
    && (forall ix :: 0 <= ix < SLOTS && ss[ix] != 0 ==> ix in leaked || exists p :: 0 <= p < |serials| && Frees(regs[serials[p]], ix))
  }

  ghost predicate InRange(regs: seq<Dtor>, fired: seq<nat>) {
    forall i :: 0 <= i < |fired| ==> fired[i] < |regs|
  }

  /** The calls made by the fired registrations. */
  ghost function Performed(regs: seq<Dtor>, fired: seq<nat>): seq<Dtor>
    requires InRange(regs, fired)
  {
    if fired == [] then [] else
    Performed(regs, fired[..|fired| - 1]) + if regs[fired[|fired| - 1]].fn == NullFn then [] else [regs[fired[|fired| - 1]]]
  }

  lemma {:induction false} PerformedGrows(regs: seq<Dtor>, d: Dtor, fired: seq<nat>)
    requires InRange(regs, fired)
    ensures InRange(regs + [d], fired) && Performed(regs + [d], fired) == Performed(regs, fired)
  {
    if fired != [] {
      PerformedGrows(regs, d, fired[..|fired| - 1]);
    }
  }

  /** calls are what the fired registrations did, each once. */
  ghost predicate Recorded(calls: seq<Dtor>, ops: seq<Op>, regs: seq<Dtor>) {
    && Play(ops).next == |regs|
    && InRange(regs, Play(ops).fired)
    && calls == Performed(regs, Play(ops).fired)
  }

  lemma {:induction false} RecordedReg(calls: seq<Dtor>, ops: seq<Op>, regs: seq<Dtor>, d: Dtor, taken: bool)
    requires Recorded(calls, ops, regs)
    ensures Recorded(calls, ops + [if taken then Push else Lose], regs + [d])
  {
    PerformedGrows(regs, d, Play(ops).fired);
  }

  lemma {:induction false} RecordedPop(calls: seq<Dtor>, ops: seq<Op>, regs: seq<Dtor>)
    requires Recorded(calls, ops, regs) && Play(ops).stack != []
    ensures var st := Play(ops).stack;
      && Play(ops + [Pop]).stack == st[..|st| - 1] && st[|st| - 1] < |regs|
      && Recorded(calls + (if regs[st[|st| - 1]].fn == NullFn then [] else [regs[st[|st| - 1]]]), ops + [Pop], regs)
  {
    var h := Play(ops);
    PlaySound(ops);
    assert h.stack[|h.stack| - 1] in h.stack;
  }

  /** A free slot is not pending. */
  lemma {:induction false} FreeNotPending(ds: seq<Dtor>, stack: seq<nat>, serials: seq<nat>, regs: seq<Dtor>, slot: nat)
    requires |ds| == SLOTS && |serials| == |stack| && Holding(ds, stack, serials, regs) && slot < SLOTS && !ds[slot].used
    ensures slot + 1 !in stack
  {
  }

  lemma {:induction false} TakeHolding(ds: seq<Dtor>, stack: seq<nat>, serials: seq<nat>, regs: seq<Dtor>, slot: nat, d: Dtor)
    requires |ds| == SLOTS && |serials| == |stack| && Holding(ds, stack, serials, regs) && slot < SLOTS && slot + 1 !in stack && d.used
    ensures Holding(ds[slot := d], stack + [slot + 1], serials + [|regs|], regs + [d])
    ensures Holding(ds[slot := d], stack, serials, regs + [d])
  {
  }

  lemma {:induction false} TakeListed(ds: seq<Dtor>, stack: seq<nat>, orphaned: set<nat>, slot: nat, d: Dtor)
    requires |ds| == SLOTS && Listed(ds, stack, orphaned) && slot < SLOTS && slot + 1 !in stack && !ds[slot].used && d.used
    ensures Listed(ds[slot := d], stack + [slot + 1], orphaned)
    ensures Listed(ds[slot := d], stack, orphaned + {slot})
  {
    assert forall x :: x in stack + [slot + 1] <==> x in stack || x == slot + 1;
  }

  lemma {:induction false} TakeSlot(ds: seq<Dtor>, stack: seq<nat>, serials: seq<nat>, regs: seq<Dtor>, orphaned: set<nat>, slot: nat, d: Dtor, taken: bool)
    requires Filled(ds, stack, serials, regs, orphaned) && slot < SLOTS && !ds[slot].used && d.used
    ensures if taken then Filled(ds[slot := d], stack + [slot + 1], serials + [|regs|], regs + [d], orphaned)
            else Filled(ds[slot := d], stack, serials, regs + [d], orphaned + {slot})
  {
    hide Holding, Listed;
    FreeNotPending(ds, stack, serials, regs, slot);
    TakeHolding(ds, stack, serials, regs, slot, d);
    TakeListed(ds, stack, orphaned, slot, d);
  }

  lemma {:induction false} FireHolding(ds: seq<Dtor>, stack: seq<nat>, serials: seq<nat>, regs: seq<Dtor>)
    requires |ds| == SLOTS && |serials| == |stack| && Holding(ds, stack, serials, regs) && NoDup(stack) && stack != []
    ensures var slot := stack[|stack| - 1] - 1;
      0 <= slot < SLOTS && ds[slot].used && ds[slot] == regs[serials[|serials| - 1]]
      && Holding(ds[slot := ds[slot].(used := false)], stack[..|stack| - 1], serials[..|serials| - 1], regs)
  {
  }

  lemma {:induction false} FireListed(ds: seq<Dtor>, stack: seq<nat>, orphaned: set<nat>)
    requires |ds| == SLOTS && Listed(ds, stack, orphaned) && NoDup(stack) && stack != [] && 0 < stack[|stack| - 1] <= SLOTS
    ensures var slot := stack[|stack| - 1] - 1; Listed(ds[slot := ds[slot].(used := false)], stack[..|stack| - 1], orphaned)
  {
    var less := stack[..|stack| - 1];
    assert stack == less + [stack[|stack| - 1]];
    assert stack[|stack| - 1] in stack;
  }

  lemma {:induction false} FireSlot(ds: seq<Dtor>, stack: seq<nat>, serials: seq<nat>, regs: seq<Dtor>, orphaned: set<nat>)
    requires Filled(ds, stack, serials, regs, orphaned) && stack != []
    ensures var slot := stack[|stack| - 1] - 1;
      0 <= slot < SLOTS && ds[slot].used && ds[slot] == regs[serials[|serials| - 1]]
      && Filled(ds[slot := ds[slot].(used := false)], stack[..|stack| - 1], serials[..|serials| - 1], regs, orphaned)
  {
    hide Holding, Listed;
    FireHolding(ds, stack, serials, regs);
    FireListed(ds, stack, orphaned);
  }

  lemma {:induction false} CoveredUser(ss: seq<Addr>, serials: seq<nat>, regs: seq<Dtor>, leaked: set<nat>, d: Dtor, taken: bool)
    requires Covered(ss, serials, regs, leaked) && d.fn != SsnewFree
    ensures Covered(ss, if taken then serials + [|regs|] else serials, regs + [d], leaked)
  {
    var serials2 := if taken then serials + [|regs|] else serials;
    forall ix | 0 <= ix < SLOTS && ss[ix] != 0 && ix !in leaked ensures exists p :: 0 <= p < |serials2| && Frees((regs + [d])[serials2[p]], ix) {
      var p :| 0 <= p < |serials| && Frees(regs[serials[p]], ix);
      assert Frees((regs + [d])[serials2[p]], ix);
    }
  }

  /** A new block whose destructor is pending. */
  lemma {:induction false} CoveredBlock(ss: seq<Addr>, serials: seq<nat>, regs: seq<Dtor>, leaked: set<nat>, ix: nat, mem: Addr, d: Dtor)
    requires Covered(ss, serials, regs, leaked) && ix < SLOTS && ss[ix] == 0 && mem != 0 && Frees(d, ix)
    ensures Covered(ss[ix := mem], serials + [|regs|], regs + [d], leaked)
  {
    var ss2, serials2 := ss[ix := mem], serials + [|regs|];
    assert (regs + [d])[serials2[|serials|]] == d;
    assert forall p :: 0 <= p < |serials| ==> (regs + [d])[serials2[p]] == regs[serials[p]];
    forall i | 0 <= i < SLOTS && ss2[i] != 0 && i !in leaked ensures exists p :: 0 <= p < |serials2| && Frees((regs + [d])[serials2[p]], i) {
      if i == ix {
        assert Frees((regs + [d])[serials2[|serials|]], i);
      } else {
        var p :| 0 <= p < |serials| && Frees(regs[serials[p]], i);
        assert Frees((regs + [d])[serials2[p]], i);
      }
    }
  }

  /** A new block whose destructor is not, registered or not. */
  lemma {:induction false} LeakedBlock(ss: seq<Addr>, serials: seq<nat>, regs: seq<Dtor>, leaked: set<nat>, ix: nat, mem: Addr, more: seq<Dtor>)
    requires Covered(ss, serials, regs, leaked) && ix < SLOTS && ss[ix] == 0 && mem != 0
    ensures Covered(ss[ix := mem], serials, regs + more, leaked + {ix})
  {
    var ss2 := ss[ix := mem];
    assert forall p :: 0 <= p < |serials| ==> (regs + more)[serials[p]] == regs[serials[p]];
    forall i | 0 <= i < SLOTS && ss2[i] != 0 && i !in leaked + {ix} ensures exists p :: 0 <= p < |serials| && Frees((regs + more)[serials[p]], i) {
      var p :| 0 <= p < |serials| && Frees(regs[serials[p]], i);
      assert Frees((regs + more)[serials[p]], i);
    }
  }

  /** The last registration fires: a block it frees is live and was to be freed by no other. */
  lemma {:induction false} CoveredPop(ss: seq<Addr>, serials: seq<nat>, regs: seq<Dtor>, leaked: set<nat>)
    requires Covered(ss, serials, regs, leaked) && serials != []
    ensures var d := regs[serials[|serials| - 1]];
      if d.fn == SsnewFree then
        d.arg < SLOTS && ss[d.arg] != 0 && d.arg !in leaked && Covered(ss[d.arg := 0], serials[..|serials| - 1], regs, leaked)
      else Covered(ss, serials[..|serials| - 1], regs, leaked)
  {
    var less := serials[..|serials| - 1];
    var d := regs[serials[|serials| - 1]];
    forall i | 0 <= i < SLOTS && ss[i] != 0 && i !in leaked && !Frees(d, i) ensures exists p :: 0 <= p < |less| && Frees(regs[less[p]], i) {
      var p :| 0 <= p < |serials| && Frees(regs[serials[p]], i);
      assert p < |less| && less[p] == serials[p];
    }
  }

  function At(hint: nat, k: nat): (i: nat)
    ensures i < SLOTS
  {
    (hint + k) % SLOTS
  }

  /** The circular search from hint meets every slot. */
  lemma {:induction false} SearchMeets(hint: nat, i: nat) returns (k: nat)
    requires i < SLOTS
    ensures k < SLOTS && At(hint, k) == i
  {
    k := (i - hint) % SLOTS;
    var q := (i - hint) / SLOTS;
    assert hint + k == i - q * SLOTS;
  }

  predicate Full(ds: seq<Dtor>) {
    forall i :: 0 <= i < |ds| ==> ds[i].used
  }

  class Scopes {
    const dtors: array<Dtor>
    const ssnew: array<Addr>
    var dtorHint: nat
    var ssnewHint: nat
    /** The guest's savestack, as far as it carries destructors. */
    var savestack: seq<nat>
    /** The calls made, in order. */
    var calls: seq<Dtor>
    ghost var ops: seq<Op>
    ghost var regs: seq<Dtor>
    /** Slots of registrations the guest did not take, and blocks without a destructor. */
    ghost var orphaned: set<nat>
    ghost var leaked: set<nat>

    ghost predicate DtorsOk()
      reads this`savestack, this`calls, this`ops, this`regs, this`orphaned, dtors
    {
      && dtors.Length == SLOTS
      && Filled(dtors[..], savestack, Play(ops).stack, regs, orphaned)
      && Recorded(calls, ops, regs)
    }

    ghost predicate Valid()
      reads this, dtors, ssnew
    {
      && DtorsOk() && ssnew.Length == SLOTS
      && Covered(ssnew[..], Play(ops).stack, regs, leaked)
    }

    constructor ()
      ensures Valid() && fresh(dtors) && fresh(ssnew) && ops == [] && calls == [] && regs == []
    {
      var ds := new Dtor[SLOTS](_ => Dtor(NullFn, 0, false));
      var ss := new Addr[SLOTS](_ => 0);
      dtors, ssnew := ds, ss;
      dtorHint, ssnewHint, savestack, calls := 0, 0, [], [];
      ops, regs, orphaned, leaked := [], [], {}, {};
      hide Filled, Covered, Recorded;
      assert Play([]).stack == [];
    }

    /** The first free slot at or after the hint, going round; 4096 when none is free. */
    method FreeDtor() returns (id: nat)
      requires dtors.Length == SLOTS
      ensures (id == SLOTS <==> Full(dtors[..])) && id <= SLOTS
      ensures id < SLOTS ==> !dtors[id].used && exists k :: 0 <= k < SLOTS && id == At(dtorHint, k) && forall j :: 0 <= j < k ==> dtors[At(dtorHint, j)].used
    {
      for k := 0 to SLOTS
        invariant forall j :: 0 <= j < k ==> dtors[At(dtorHint, j)].used
      {
        id := At(dtorHint, k);
        if !dtors[id].used {
          return;
        }
      }
      id := SLOTS;
      forall i | 0 <= i < SLOTS ensures dtors[i].used {
        var k := SearchMeets(dtorHint, i);
      }
    }

    method FreeScratch() returns (ix: nat)
      requires ssnew.Length == SLOTS
      ensures (ix == SLOTS <==> forall i :: 0 <= i < SLOTS ==> ssnew[i] != 0) && ix <= SLOTS
      ensures ix < SLOTS ==> ssnew[ix] == 0 && exists k :: 0 <= k < SLOTS && ix == At(ssnewHint, k) && forall j :: 0 <= j < k ==> ssnew[At(ssnewHint, j)] != 0
    {
      for k := 0 to SLOTS
        invariant forall j :: 0 <= j < k ==> ssnew[At(ssnewHint, j)] != 0
      {
        ix := At(ssnewHint, k);
        if ssnew[ix] == 0 {
          return;
        }
      }
      ix := SLOTS;
      forall i | 0 <= i < SLOTS ensures ssnew[i] != 0 {
        var k := SearchMeets(ssnewHint, i);
      }
    }

    /** goperl_save_destructor_x: false when the full table croaks.  opOk: the guest took the entry;
        the caller is not told. */
    method SaveDestructorX(fn: Fn, arg: nat, opOk: bool) returns (ok: bool)
      requires DtorsOk()
      modifies this`dtorHint, this`savestack, this`ops, this`regs, this`orphaned, dtors
      ensures DtorsOk() && (ok <==> !Full(old(dtors[..])))
      ensures !ok ==>
        ops == old(ops) && regs == old(regs) && savestack == old(savestack) && dtors[..] == old(dtors[..]) && dtorHint == old(dtorHint)
      ensures ok ==>
        && 0 < dtorHint <= SLOTS && !old(dtors[..])[dtorHint - 1].used && dtors[..] == old(dtors[..])[dtorHint - 1 := Dtor(fn, arg, true)]
        && savestack == if opOk then old(savestack) + [dtorHint] else old(savestack)
      ensures ok ==> regs == old(regs) + [Dtor(fn, arg, true)] && ops == old(ops) + [if opOk then Push else Lose]
      ensures Play(ops).stack == if ok && opOk then old(Play(ops).stack) + [old(|regs|)] else old(Play(ops).stack)
    {
      hide Filled, Recorded, Full;
      var id := FreeDtor();
      if id == SLOTS {
        return false;
      }
      var d := Dtor(fn, arg, true);
      RecordedReg(calls, ops, regs, d, opOk);
      TakeSlot(dtors[..], savestack, Play(ops).stack, regs, orphaned, id, d, opOk);
      dtorHint := id + 1;
      dtors[id] := d;
      assert dtors[..] == old(dtors[..])[id := d];
      regs := regs + [d];
      if opOk {
        savestack := savestack + [id + 1];
        ops := ops + [Push];
      } else {
        orphaned := orphaned + {id};
        ops := ops + [Lose];
      }
      return true;
    }

    /** SAVEDESTRUCTOR_X of a module's own function. */
    method SaveDestructor(fn: Fn, arg: nat, opOk: bool) returns (ok: bool)
      requires Valid() && fn != SsnewFree
      modifies this`dtorHint, this`savestack, this`ops, this`regs, this`orphaned, dtors
      ensures Valid() && (ok <==> !Full(old(dtors[..])))
      ensures Play(ops).stack == if ok && opOk then old(Play(ops).stack) + [old(|regs|)] else old(Play(ops).stack)
      ensures regs == if ok then old(regs) + [Dtor(fn, arg, true)] else old(regs)
    {
      hide Filled, Recorded, Full, Covered;
      CoveredUser(ssnew[..], Play(ops).stack, regs, leaked, Dtor(fn, arg, true), true);
      CoveredUser(ssnew[..], Play(ops).stack, regs, leaked, Dtor(fn, arg, true), false);
      ok := SaveDestructorX(fn, arg, opOk);
    }

    /** SSNEW; mem is what calloc returned, 0 when out of memory.  The result is the slot, which is
        handed out even when the guest did not take its destructor; None when SSNEW croaks. */
    method SsNew(mem: Addr, opOk: bool) returns (r: Option<nat>)
      requires Valid()
      modifies this`dtorHint, this`ssnewHint, this`savestack, this`ops, this`regs, this`orphaned, this`leaked, dtors, ssnew
      ensures Valid() && old(leaked) <= leaked
      ensures r.Some? <==> (exists i :: 0 <= i < SLOTS && old(ssnew[i]) == 0) && mem != 0 && !Full(old(dtors[..]))
      ensures r.Some? ==>
        && r.value < SLOTS && old(ssnew[r.value]) == 0 && ssnew[..] == old(ssnew[..])[r.value := mem]
        && ssnewHint == r.value + 1 && regs == old(regs) + [Dtor(SsnewFree, r.value, true)]
        && (if opOk then Play(ops).stack == old(Play(ops).stack) + [old(|regs|)] && leaked == old(leaked)
            else Play(ops).stack == old(Play(ops).stack) && leaked == old(leaked) + {r.value} && r.value !in old(leaked))
      ensures r == None ==>
        && Play(ops).stack == old(Play(ops).stack)
        && if leaked == old(leaked) then ssnew[..] == old(ssnew[..])
           else exists ix :: 0 <= ix < SLOTS && old(ssnew[ix]) == 0 && ssnew[..] == old(ssnew[..])[ix := mem] && leaked == old(leaked) + {ix}
    {
      hide Filled, Recorded, Full, Covered, Play;
      var ix := FreeScratch();
      if ix == SLOTS {
        return None;
      }
      ssnewHint := ix + 1;
      if mem == 0 {
        return None;
      }
      var ok := AttachBlock(ix, mem, opOk);
      if !ok {
        return None;
      }
      return Some(ix);
    }

    /** The new block in its slot, with its destructor if that can be registered. */
    method AttachBlock(ix: nat, mem: Addr, opOk: bool) returns (ok: bool)
      requires Valid() && ix < SLOTS && ssnew[ix] == 0 && mem != 0
      modifies this`dtorHint, this`savestack, this`ops, this`regs, this`orphaned, this`leaked, dtors, ssnew
      ensures Valid() && (ok <==> !Full(old(dtors[..]))) && ssnew[..] == old(ssnew[..])[ix := mem]
      ensures Play(ops).stack == if ok && opOk then old(Play(ops).stack) + [old(|regs|)] else old(Play(ops).stack)
      ensures regs == if ok then old(regs) + [Dtor(SsnewFree, ix, true)] else old(regs)
      ensures ix !in old(leaked) && leaked == if ok && opOk then old(leaked) else old(leaked) + {ix}
    {
      hide Filled, Recorded, Full, Covered, Play, Frees;
      NewBlock(ix, mem);
      ssnew[ix] := mem;
      assert ssnew[..] == old(ssnew[..])[ix := mem];
      ok := SaveDestructorX(SsnewFree, ix, opOk);
      if !ok || !opOk {
        leaked := leaked + {ix};
      }
    }

    lemma {:induction false} NewBlock(ix: nat, mem: Addr)
      requires Valid() && ix < SLOTS && ssnew[ix] == 0 && mem != 0
      ensures ix !in leaked
      ensures var d := Dtor(SsnewFree, ix, true);
        && Covered(ssnew[..][ix := mem], Play(ops).stack + [|regs|], regs + [d], leaked)
        && Covered(ssnew[..][ix := mem], Play(ops).stack, regs + [d], leaked + {ix})
        && Covered(ssnew[..][ix := mem], Play(ops).stack, regs, leaked + {ix})
    {
      hide Covered, Filled, Recorded, Play;
      var d := Dtor(SsnewFree, ix, true);
      NotLeaked(ix);
      CoveredBlock(ssnew[..], Play(ops).stack, regs, leaked, ix, mem, d);
      LeakedBlock(ssnew[..], Play(ops).stack, regs, leaked, ix, mem, [d]);
      LeakedBlock(ssnew[..], Play(ops).stack, regs, leaked, ix, mem, []);
      assert regs + [] == regs;
    }

    lemma {:induction false} NotLeaked(ix: nat)
      requires Valid() && ix < SLOTS && ssnew[ix] == 0
      ensures ix !in leaked
    {
    }

    /** goperl_ssnew_free_cb */
    method SsnewFreeCb(ix: nat)
      requires ssnew.Length == SLOTS
      modifies ssnew
      ensures ssnew[..] == if ix < SLOTS then old(ssnew[..])[ix := 0] else old(ssnew[..])
    {
      if ix < SLOTS && ssnew[ix] != 0 {
        ssnew[ix] := 0;
      }
    }

    /** __goperl_dtor_invoke, for any id the guest may send. */
    method DtorInvoke(id1: nat)
      requires dtors.Length == ssnew.Length == SLOTS
      modifies dtors, ssnew, this`calls
      ensures id1 == 0 || id1 > SLOTS || !old(dtors[id1 - 1].used) ==> dtors[..] == old(dtors[..]) && ssnew[..] == old(ssnew[..]) && calls == old(calls)
      ensures 0 < id1 <= SLOTS && old(dtors[id1 - 1].used) ==>
        && var d := old(dtors[id1 - 1]);
        && dtors[..] == old(dtors[..])[id1 - 1 := d.(used := false)]
        && calls == old(calls) + (if d.fn == NullFn then [] else [d])
        && ssnew[..] == if d.fn == SsnewFree && d.arg < SLOTS then old(ssnew[..])[d.arg := 0] else old(ssnew[..])
    {
      if id1 == 0 || id1 > SLOTS {
        return;
      }
      var d := dtors[id1 - 1];
      dtors[id1 - 1] := d.(used := false);
      if !d.used || d.fn == NullFn {
        return;
      }
      calls := calls + [d];
      if d.fn == SsnewFree {
        SsnewFreeCb(d.arg);
      }
    }

    /** The guest pops its last savestack entry, on a normal exit or while unwinding, and fires it:
        the latest pending registration runs, and a block it frees was live. */
    method PopSavestack()
      requires Valid() && savestack != []
      modifies this`savestack, this`ops, this`calls, dtors, ssnew
      ensures Valid() && ops == old(ops) + [Pop] && |savestack| + 1 == old(|savestack|)
      ensures old(Play(ops).stack) != [] && old(Play(ops).stack)[|old(Play(ops).stack)| - 1] < |regs|
      ensures var d := regs[old(Play(ops).stack)[|old(Play(ops).stack)| - 1]];
        && calls == old(calls) + (if d.fn == NullFn then [] else [d])
        && if d.fn == SsnewFree then d.arg < SLOTS && old(ssnew[d.arg]) != 0 && ssnew[..] == old(ssnew[..])[d.arg := 0]
           else ssnew[..] == old(ssnew[..])
    {
      hide Filled, Recorded, Covered;
      SameLength();
      FireSlot(dtors[..], savestack, Play(ops).stack, regs, orphaned);
      CoveredPop(ssnew[..], Play(ops).stack, regs, leaked);
      RecordedPop(calls, ops, regs);
      var id := savestack[|savestack| - 1];
      savestack := savestack[..|savestack| - 1];
      ops := ops + [Pop];
      DtorInvoke(id);
    }

    lemma {:induction false} SameLength()
      requires Valid()
      ensures |Play(ops).stack| == |savestack|
    {
    }

    /** The used slots are exactly the pending ids, unless the guest failed to take one. */
    lemma {:induction false} UsedArePending()
      requires Valid()
      ensures (forall i :: 0 <= i < SLOTS ==> (dtors[i].used <==> i + 1 in savestack)) <==> orphaned == {}
    {
      if orphaned != {} {
        var i :| i in orphaned;
        assert dtors[..][i].used && i + 1 !in savestack;
      }
      forall i | 0 <= i < SLOTS && i + 1 in savestack ensures dtors[i].used {
        var p :| 0 <= p < |savestack| && savestack[p] == i + 1;
        assert dtors[..][savestack[p] - 1].used;
      }
      forall i | 0 <= i < SLOTS && dtors[i].used && orphaned == {} ensures i + 1 in savestack {
        assert dtors[..][i].used;
      }
    }

    /** A block whose destructor is pending is live, and it is the only pending one to free it. */
    lemma {:induction false} PendingBlockLive(p: nat, q: nat)
      requires Valid() && p < |savestack| && q < |savestack| && Play(ops).stack[p] < |regs| && regs[Play(ops).stack[p]].fn == SsnewFree
      ensures Play(ops).stack[q] < |regs|
      ensures var ix := regs[Play(ops).stack[p]].arg;
        && ix < SLOTS && ssnew[ix] != 0
        && (Frees(regs[Play(ops).stack[q]], ix) ==> p == q)
    {
    }
  }
}
