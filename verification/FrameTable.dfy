/** The per-thread current-frame table: every thread finds or claims its own slot by linear
    probing with one compare-and-swap, while any number of others do the same. */
module FrameTable {

  const SLOTS := 512

  // A thread's pthread_t; 0 marks a free slot.
  type Tid = t: int | t > 0 witness 1

  /** The probe sequence of t: its i-th slot. */
  function Probe(t: Tid, i: nat): (e: nat)
    ensures e < SLOTS
  {
    (t / 16 % SLOTS + i) % SLOTS
  }

  /** Where a thread stands in goperl_curframe_slot; i counts the slots it has passed. */
  datatype Pc = Idle | ReadOwn(i: nat) | ReadFree(i: nat) | Claim(i: nat) | Reread(i: nat) | Aborted

  /** The shared table and, per thread, its program counter, the slots its calls returned and
      the frame it last stored through one of them. */
  datatype Sys = Sys(tids: seq<int>, frames: seq<int>, pc: map<Tid, Pc>, got: map<Tid, seq<nat>>, stored: map<Tid, int>)
  {
    function PcOf(t: Tid): Pc { if t in pc then pc[t] else Idle }
    function GotBy(t: Tid): seq<nat> { if t in got then got[t] else [] }
    function StoredBy(t: Tid): int { if t in stored then stored[t] else 0 }
  }

  /** The zeroed table before any call. */
  function Init(): Sys {
    Sys(seq(SLOTS, _ => 0), seq(SLOTS, _ => 0), map[], map[], map[])
  }

  function Return(s: Sys, t: Tid, e: nat): Sys {
    s.(pc := s.pc[t := Idle], got := s.got[t := s.GotBy(t) + [e]])
  }

  function Advance(s: Sys, t: Tid, i: nat): Sys {
    s.(pc := s.pc[t := if i + 1 < SLOTS then ReadOwn(i + 1) else Aborted])
  }

  /** One atomic step of t inside goperl_curframe_slot. */
  function Step(s: Sys, t: Tid): Sys
    requires |s.tids| == SLOTS
  {
    match s.PcOf(t)
    case Idle => s
    case Aborted => s
    case ReadOwn(i) =>
      var e := Probe(t, i);
      if s.tids[e] == t then Return(s, t, e) else s.(pc := s.pc[t := ReadFree(i)])
    case ReadFree(i) =>
      if s.tids[Probe(t, i)] == 0 then s.(pc := s.pc[t := Claim(i)]) else Advance(s, t, i)
    case Claim(i) =>
      var e := Probe(t, i);
      if s.tids[e] == 0 then Return(s.(tids := s.tids[e := t]), t, e) else s.(pc := s.pc[t := Reread(i)])
    case Reread(i) =>
      var e := Probe(t, i);
      if s.tids[e] == t then Return(s, t, e) else Advance(s, t, i)
  }

  /** A thread calls goperl_curframe_slot, takes a step of it, or stores a frame through the slot
      its last call returned.  An action the thread cannot take changes nothing. */
  datatype Action = Call(t: Tid) | Run(t: Tid) | Store(t: Tid, f: int)

  function Next(s: Sys, a: Action): Sys
    requires |s.tids| == |s.frames| == SLOTS
  {
    match a
    case Call(t) => if s.PcOf(t) == Idle then s.(pc := s.pc[t := ReadOwn(0)]) else s
    case Run(t) => Step(s, t)
    case Store(t, f) =>
      var g := s.GotBy(t);
      if s.PcOf(t) == Idle && g != [] && g[|g| - 1] < SLOTS
      then s.(frames := s.frames[g[|g| - 1] := f], stored := s.stored[t := f]) else s
  }

  ghost predicate Shape(s: Sys) {
    |s.tids| == SLOTS && |s.frames| == SLOTS
  }

  /** The state after an interleaving of actions. */
  function After(run: seq<Action>): (s: Sys)
    ensures Shape(s)
  {
    if run == [] then Init() else Next(After(run[..|run| - 1]), run[|run| - 1])
  }

  // ---- the invariant ------------------------------------------------------------------

  ghost predicate OneSlotPerThread(tids: seq<int>) {
    forall a, b :: 0 <= a < b < |tids| && tids[a] != 0 ==> tids[a] != tids[b]
  }

  /** The first i slots t probes belong to other threads. */
  ghost predicate Passed(tids: seq<int>, t: Tid, i: nat)
    requires |tids| == SLOTS
  {
    forall j: nat :: j < i ==> tids[Probe(t, j)] != 0 && tids[Probe(t, j)] != t
  }

  /** Every slot a thread probes before its own was taken by another thread. */
  ghost predicate NoGapBefore(tids: seq<int>)
    requires |tids| == SLOTS
  {
    forall t: Tid, i: nat :: i < SLOTS && tids[Probe(t, i)] == t ==> Passed(tids, t, i)
  }

  ghost predicate PcOk(tids: seq<int>, pc: Pc, t: Tid)
    requires |tids| == SLOTS
  {
    match pc
    case Idle => true
    case Aborted => Passed(tids, t, SLOTS)
    case ReadOwn(i) => i < SLOTS && Passed(tids, t, i)
    case ReadFree(i) => i < SLOTS && Passed(tids, t, i) && tids[Probe(t, i)] != t
    case Claim(i) => i < SLOTS && Passed(tids, t, i) && tids[Probe(t, i)] != t
    case Reread(i) => i < SLOTS && Passed(tids, t, i + 1)
  }

  ghost predicate Owned(tids: seq<int>, slots: seq<nat>, t: Tid) {
    forall k :: 0 <= k < |slots| ==> slots[k] < |tids| && tids[slots[k]] == t
  }

  /** Each slot holds what its owner last stored. */
  ghost predicate FramesOk(s: Sys)
    requires Shape(s)
  {
    && (forall e :: 0 <= e < SLOTS && s.tids[e] > 0 ==> s.frames[e] == s.StoredBy(s.tids[e]))
    && (forall e :: 0 <= e < SLOTS && s.tids[e] == 0 ==> s.frames[e] == 0)
    && (forall t: Tid :: t !in s.tids ==> s.StoredBy(t) == 0)
  }

  ghost predicate TableOk(tids: seq<int>) {
    && |tids| == SLOTS && (forall e :: 0 <= e < SLOTS ==> tids[e] >= 0)
    && OneSlotPerThread(tids) && NoGapBefore(tids)
  }

  ghost predicate ThreadOk(s: Sys, t: Tid)
    requires Shape(s)
  {
    PcOk(s.tids, s.PcOf(t), t) && Owned(s.tids, s.GotBy(t), t)
  }

  ghost predicate Inv(s: Sys) {
    Shape(s) && TableOk(s.tids) && FramesOk(s) && forall t: Tid :: ThreadOk(s, t)
  }

  /** The probe sequence reaches every slot, once. */
  lemma {:induction false} ProbeReaches(t: Tid, e: nat) returns (i: nat)
    requires e < SLOTS
    ensures i < SLOTS && Probe(t, i) == e
  {
    i := (e + SLOTS - t / 16 % SLOTS) % SLOTS;
  }

  lemma {:induction false} ProbeInjective(t: Tid, i: nat, j: nat)
    requires i < SLOTS && j < SLOTS && Probe(t, i) == Probe(t, j)
    ensures i == j
  {
  }

  /** A thread about to claim a free slot owns none. */
  lemma {:induction false} ClaimerIsNew(tids: seq<int>, t: Tid, i: nat)
    requires TableOk(tids) && i < SLOTS && Passed(tids, t, i) && tids[Probe(t, i)] == 0
    ensures t !in tids
  {
    forall e | 0 <= e < SLOTS ensures tids[e] != t {
      var j := ProbeReaches(t, e);
    }
  }

  /** Claiming the first free slot of its probe sequence keeps the table. */
  lemma {:induction false} ClaimKeepsTable(tids: seq<int>, t: Tid, i: nat)
    requires TableOk(tids) && i < SLOTS && Passed(tids, t, i) && tids[Probe(t, i)] == 0
    ensures TableOk(tids[Probe(t, i) := t])
  {
    ClaimerIsNew(tids, t, i);
    var e := Probe(t, i);
    var n := tids[e := t];
    forall u: Tid, j: nat | j < SLOTS && n[Probe(u, j)] == u ensures Passed(n, u, j) {
      if Probe(u, j) == e {
        ProbeInjective(t, i, j);
        forall k: nat | k < i ensures n[Probe(t, k)] != 0 && n[Probe(t, k)] != t {
          assert tids[Probe(t, k)] != 0;
        }
      } else {
        assert tids[Probe(u, j)] == u;
      }
    }
  }

  lemma {:induction false} ClaimKeepsFrames(s: Sys, t: Tid, e: nat)
    requires Shape(s) && FramesOk(s) && t !in s.tids && e < SLOTS && s.tids[e] == 0
    ensures FramesOk(s.(tids := s.tids[e := t]))
  {
    var c := s.(tids := s.tids[e := t]);
    forall u: Tid | u in s.tids ensures u in c.tids {
      var k :| 0 <= k < SLOTS && s.tids[k] == u;
      assert c.tids[k] == u;
    }
  }

  lemma {:induction false} ClaimKeeps(s: Sys, t: Tid)
    requires Inv(s) && s.PcOf(t).Claim? && s.tids[Probe(t, s.PcOf(t).i)] == 0
    ensures Inv(Step(s, t))
  {
    var i := s.PcOf(t).i;
    var e := Probe(t, i);
    var n := Step(s, t);
    assert ThreadOk(s, t);
    ClaimerIsNew(s.tids, t, i);
    ClaimKeepsTable(s.tids, t, i);
    ClaimKeepsFrames(s, t, e);
    forall u: Tid ensures ThreadOk(n, u) {
      assert ThreadOk(s, u);
    }
  }

  lemma {:induction false} StepKeeps(s: Sys, t: Tid)
    requires Inv(s)
    ensures Inv(Step(s, t))
  {
    hide Step, PcOk, Owned, TableOk;
    assert ThreadOk(s, t);
    if s.PcOf(t).Claim? && s.tids[Probe(t, s.PcOf(t).i)] == 0 {
      ClaimKeeps(s, t);
    } else {
      LookingKeeps(s, t);
      forall u: Tid ensures ThreadOk(Step(s, t), u) {
        assert ThreadOk(s, u);
        if u != t {
          StepIsPrivate(s, t, u);
        }
      }
    }
  }

  lemma {:induction false} StepIsPrivate(s: Sys, t: Tid, u: Tid)
    requires Shape(s) && u != t
    ensures Step(s, t).PcOf(u) == s.PcOf(u) && Step(s, t).GotBy(u) == s.GotBy(u)
    ensures Step(s, t).StoredBy(u) == s.StoredBy(u)
  {
  }

  /** A step that claims nothing leaves the table alone and the thread knowing only true things. */
  lemma {:induction false} LookingKeeps(s: Sys, t: Tid)
    requires Shape(s) && ThreadOk(s, t) && !(s.PcOf(t).Claim? && s.tids[Probe(t, s.PcOf(t).i)] == 0)
    ensures var n := Step(s, t);
      n.tids == s.tids && n.frames == s.frames && n.stored == s.stored && ThreadOk(n, t)
  {
    match s.PcOf(t)
    case Idle =>
    case Aborted =>
    case ReadOwn(i) =>
    case ReadFree(i) => PassedOne(s.tids, t, i);
    case Claim(i) => PassedOne(s.tids, t, i);
    case Reread(i) =>
  }

  lemma {:induction false} PassedOne(tids: seq<int>, t: Tid, i: nat)
    requires |tids| == SLOTS && Passed(tids, t, i) && tids[Probe(t, i)] != t
    ensures tids[Probe(t, i)] != 0 ==> Passed(tids, t, i + 1)
  {
  }

  lemma {:induction false} StoreKeeps(s: Sys, t: Tid, f: int)
    requires Inv(s)
    ensures Inv(Next(s, Store(t, f)))
  {
    var n := Next(s, Store(t, f));
    var g := s.GotBy(t);
    assert ThreadOk(s, t);
    if g != [] {
      assert s.tids[g[|g| - 1]] == t;
    }
    forall u: Tid ensures ThreadOk(n, u) {
      assert ThreadOk(s, u);
    }
  }

  lemma {:induction false} NextKeeps(s: Sys, a: Action)
    requires Inv(s)
    ensures Inv(Next(s, a))
  {
    match a
    case Run(t) => StepKeeps(s, t);
    case Store(t, f) => StoreKeeps(s, t, f);
    case Call(t) =>
      var n := Next(s, a);
      forall u: Tid ensures ThreadOk(n, u) {
        assert ThreadOk(s, u);
      }
  }

  lemma {:induction false} Reachable(run: seq<Action>)
    ensures Inv(After(run))
  {
    if run != [] {
      Reachable(run[..|run| - 1]);
      NextKeeps(After(run[..|run| - 1]), run[|run| - 1]);
    }
  }

  // ---- what the threads see -----------------------------------------------------------

  /** No thread owns two slots, and a slot handed to one thread is never handed to another. */
  lemma {:induction false} SlotsArePrivate(run: seq<Action>, t: Tid, u: Tid, i: nat, j: nat)
    requires i < |After(run).GotBy(t)| && j < |After(run).GotBy(u)|
    ensures After(run).GotBy(t)[i] == After(run).GotBy(u)[j] <==> t == u
  {
    var s := After(run);
    Reachable(run);
    assert ThreadOk(s, t) && ThreadOk(s, u);
  }

  /** A thread aborts only when every slot belongs to some other thread. */
  lemma {:induction false} AbortMeansFull(run: seq<Action>, t: Tid, e: nat)
    requires After(run).PcOf(t) == Aborted && e < SLOTS
    ensures After(run).tids[e] > 0 && After(run).tids[e] != t
  {
    var s := After(run);
    Reachable(run);
    assert ThreadOk(s, t);
    var i := ProbeReaches(t, e);
  }

  /** Reading the current frame through any slot a call returned yields what that thread last
      stored: the table refines one private variable per thread. */
  lemma {:induction false} CurrentFrameIsThreadLocal(run: seq<Action>, t: Tid, i: nat)
    requires i < |After(run).GotBy(t)|
    ensures var e := After(run).GotBy(t)[i]; e < SLOTS && After(run).frames[e] == LastStore(run, t)
  {
    var s := After(run);
    Reachable(run);
    assert ThreadOk(s, t);
    LastStoreIsStored(run, t);
  }

  /** The last frame t stored in a run, read off the run itself. */
  function LastStore(run: seq<Action>, t: Tid): int {
    if run == [] then 0 else
    var before := run[..|run| - 1];
    match run[|run| - 1]
    case Store(u, f) =>
      if u == t && After(before).PcOf(t) == Idle && After(before).GotBy(t) != [] then f else LastStore(before, t)
    case _ => LastStore(before, t)
  }

  lemma {:induction false} LastStoreIsStored(run: seq<Action>, t: Tid)
    ensures After(run).StoredBy(t) == LastStore(run, t)
  {
    hide Step;
    if run != [] {
      var before := run[..|run| - 1];
      var a := run[|run| - 1];
      Reachable(before);
      LastStoreIsStored(before, t);
      StoredOnlyByStore(After(before), a, t);
    }
  }

  lemma {:induction false} StoredOnlyByStore(s: Sys, a: Action, t: Tid)
    requires Inv(s)
    ensures Next(s, a).StoredBy(t) ==
      if a.Store? && a.t == t && s.PcOf(t) == Idle && s.GotBy(t) != [] then a.f else s.StoredBy(t)
  {
    assert ThreadOk(s, t);
  }

  // ---- every call ends ----------------------------------------------------------------

  /** Steps of its own a thread can still take in its current call. */
  function StepsLeft(pc: Pc): int {
    match pc
    case Idle => 0
    case Aborted => 0
    case ReadOwn(i) => 4 * (SLOTS - i)
    case ReadFree(i) => 4 * (SLOTS - i) - 1
    case Claim(i) => 4 * (SLOTS - i) - 2
    case Reread(i) => 4 * (SLOTS - i) - 3
  }

  /** In every interleaving a call ends after at most 4 * 512 steps of its own thread: its steps
      use the bound up and nobody else's touch it. */
  lemma {:induction false} CallsAreWaitFree(run: seq<Action>, t: Tid, a: Action)
    ensures var before := After(run).PcOf(t);
      var now := After(run + [a]).PcOf(t);
      && 0 <= StepsLeft(now) <= 4 * SLOTS
      && (StepsLeft(before) == 0 <==> before == Idle || before == Aborted)
      && (a == Run(t) && StepsLeft(before) > 0 ==> StepsLeft(now) < StepsLeft(before))
      && (a != Run(t) && StepsLeft(before) > 0 ==> now == before)
  {
    assert (run + [a])[..|run|] == run && (run + [a])[|run|] == a;
    Reachable(run);
    Reachable(run + [a]);
    assert After(run + [a]) == Next(After(run), a);
    StepUsesBound(After(run), t, a);
  }

  lemma {:induction false} StepUsesBound(s: Sys, t: Tid, a: Action)
    requires Inv(s) && Inv(Next(s, a))
    ensures var before := s.PcOf(t);
      var now := Next(s, a).PcOf(t);
      && 0 <= StepsLeft(now) <= 4 * SLOTS
      && (StepsLeft(before) == 0 <==> before == Idle || before == Aborted)
      && (a == Run(t) && StepsLeft(before) > 0 ==> StepsLeft(now) < StepsLeft(before))
      && (a != Run(t) && StepsLeft(before) > 0 ==> now == before)
  {
    hide FramesOk, TableOk, Passed, Owned;
    assert ThreadOk(s, t) && ThreadOk(Next(s, a), t);
  }

  /** An idle thread's call begins, and a call that ends without aborting has one more slot to show
      for it, which is its thread's; nothing else adds to what a thread's calls returned. */
  lemma {:induction false} CallReturns(run: seq<Action>, t: Tid, a: Action)
    ensures var s, n := After(run), After(run + [a]);
      && (a == Call(t) && s.PcOf(t) == Idle ==> n.PcOf(t) == ReadOwn(0) && StepsLeft(n.PcOf(t)) == 4 * SLOTS)
      && (if StepsLeft(s.PcOf(t)) > 0 && n.PcOf(t) == Idle then
            exists e: nat :: e < SLOTS && n.tids[e] == t && n.GotBy(t) == s.GotBy(t) + [e]
          else n.GotBy(t) == s.GotBy(t))
  {
    assert (run + [a])[..|run|] == run && (run + [a])[|run|] == a;
    Reachable(run);
    assert ThreadOk(After(run), t);
    hide After, Inv;
    NextReturns(After(run), t, a);
  }

  lemma {:induction false} NextReturns(s: Sys, t: Tid, a: Action)
    requires Shape(s) && PcOk(s.tids, s.PcOf(t), t)
    ensures var n := Next(s, a);
      && (a == Call(t) && s.PcOf(t) == Idle ==> n.PcOf(t) == ReadOwn(0) && StepsLeft(n.PcOf(t)) == 4 * SLOTS)
      && (if StepsLeft(s.PcOf(t)) > 0 && n.PcOf(t) == Idle then
            exists e: nat :: e < SLOTS && n.tids[e] == t && n.GotBy(t) == s.GotBy(t) + [e]
          else n.GotBy(t) == s.GotBy(t))
  {
    hide Passed;
    if a == Run(t) && StepsLeft(s.PcOf(t)) > 0 {
      var e := Probe(t, s.PcOf(t).i);
      assert Next(s, a).PcOf(t) == Idle ==> Next(s, a).tids[e] == t && Next(s, a).GotBy(t) == s.GotBy(t) + [e];
    }
  }

  function OwnRuns(more: seq<Action>, t: Tid): nat {
    if more == [] then 0 else OwnRuns(more[..|more| - 1], t) + if more[|more| - 1] == Run(t) then 1 else 0
  }

  /** So a call its thread keeps running ends within 4 * 512 of its own steps, whatever the others
      do, and returns exactly one slot unless it aborts. */
  lemma {:induction false} CallEnds(run: seq<Action>, more: seq<Action>, t: Tid)
    requires After(run).PcOf(t) != Idle && After(run).PcOf(t) != Aborted
    requires forall i :: 0 <= i < |more| && more[i] != Run(t) ==> more[i].t != t
    ensures var s, n := After(run), After(run + more);
      && (n.PcOf(t) == Idle ==> |n.GotBy(t)| == |s.GotBy(t)| + 1)
      && (n.PcOf(t) != Idle ==> n.GotBy(t) == s.GotBy(t))
      && (n.PcOf(t) != Idle && n.PcOf(t) != Aborted ==> StepsLeft(n.PcOf(t)) + OwnRuns(more, t) <= StepsLeft(s.PcOf(t)) <= 4 * SLOTS)
      && (OwnRuns(more, t) >= 4 * SLOTS ==> n.PcOf(t) == Idle || n.PcOf(t) == Aborted)
  {
    hide After, StepsLeft;
    if more == [] {
      assert run + more == run;
      StepsOf(run, t);
    } else {
      var less, a := more[..|more| - 1], more[|more| - 1];
      assert run + less + [a] == run + more;
      CallEnds(run, less, t);
      StepsOf(run + less, t);
      StepsOf(run + more, t);
      CallsAreWaitFree(run + less, t, a);
      CallReturns(run + less, t, a);
      if After(run + less).PcOf(t) == Idle || After(run + less).PcOf(t) == Aborted {
        RestsAt(run + less, t, a);
      }
    }
  }

  lemma {:induction false} StepsOf(run: seq<Action>, t: Tid)
    ensures var pc := After(run).PcOf(t); 0 <= StepsLeft(pc) <= 4 * SLOTS && (StepsLeft(pc) == 0 <==> pc == Idle || pc == Aborted)
  {
    Reachable(run);
    assert ThreadOk(After(run), t);
    hide Passed;
  }

  /** A thread at rest stays there until it calls again. */
  lemma {:induction false} RestsAt(run: seq<Action>, t: Tid, a: Action)
    requires After(run).PcOf(t) == Idle || After(run).PcOf(t) == Aborted
    requires a == Run(t) || a.t != t
    ensures After(run + [a]).PcOf(t) == After(run).PcOf(t)
  {
    assert (run + [a])[..|run|] == run && (run + [a])[|run|] == a;
    assert After(run + [a]) == Next(After(run), a);
    hide After;
  }

  // ---- enough slots for 512 threads ---------------------------------------------------

  function Tids(tids: seq<int>): set<int> {
    set e | 0 <= e < |tids| :: tids[e]
  }

  lemma {:induction false} DistinctCount(tids: seq<int>)
    requires forall a, b :: 0 <= a < b < |tids| ==> tids[a] != tids[b]
    ensures |Tids(tids)| == |tids|
  {
    if tids != [] {
      var top := |tids| - 1;
      DistinctCount(tids[..top]);
      assert Tids(tids) == Tids(tids[..top]) + {tids[top]};
    }
  }

  ghost predicate OnlyThese(s: Sys, callers: set<int>)
    requires Shape(s)
  {
    && (forall t: Tid :: s.PcOf(t) != Idle ==> t in callers)
    && (forall e :: 0 <= e < SLOTS && s.tids[e] != 0 ==> s.tids[e] in callers)
  }

  lemma {:induction false} NextOnlyThese(s: Sys, a: Action, callers: set<int>)
    requires Shape(s) && OnlyThese(s, callers) && (a.Call? ==> a.t in callers)
    ensures OnlyThese(Next(s, a), callers)
  {
    assert a.Run? && s.PcOf(a.t) != Idle ==> a.t in callers;
  }

  lemma {:induction false} OnlyCallersAppear(run: seq<Action>, callers: set<int>)
    requires forall i :: 0 <= i < |run| && run[i].Call? ==> run[i].t in callers
    ensures OnlyThese(After(run), callers)
  {
    if run != [] {
      OnlyCallersAppear(run[..|run| - 1], callers);
      NextOnlyThese(After(run[..|run| - 1]), run[|run| - 1], callers);
    }
  }

  /** An abort takes more than 512 calling threads: with up to 512 no interleaving aborts. */
  lemma {:induction false} AbortNeedsMoreThreads(run: seq<Action>, callers: set<int>, t: Tid)
    requires forall i :: 0 <= i < |run| && run[i].Call? ==> run[i].t in callers
    requires After(run).PcOf(t) == Aborted
    ensures |callers| > SLOTS
  {
    hide After;
    var s := After(run);
    Reachable(run);
    OnlyCallersAppear(run, callers);
    forall e: nat | e < SLOTS ensures s.tids[e] != 0 && s.tids[e] in callers - {t} {
      AbortMeansFull(run, t, e);
    }
    DistinctCount(s.tids);
    var owners := Tids(s.tids);
    assert callers == owners + (callers - owners);
    assert t in callers - owners;
  }
}
