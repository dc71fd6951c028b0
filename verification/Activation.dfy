/** The XSUB activation protocol: entry (dXSARGS), XSRETURN, bare return, the dispatch
    epilogue and the host save-stack they share.  One thread running one instance. */
module Activation {

  import opened Words

  const HOSTSAVE_MAX := 256
  const EPILOGUE_MAX := 64

  // Frame addresses; 0 is the null frame of a thread at rest.
  type Frame = int
  const NULL: Frame := 0

  // ---- host memory --------------------------------------------------------------------

  datatype Cell = Word(a: nat) | Int32(a: nat)

  /** The host locations the save-stack can point at: three fields of every frame and the
      module's own cells. */
  datatype Loc = PrevFrame(f: Frame) | Jb(f: Frame) | HostsaveBase(f: Frame) | User(c: Cell)

  predicate Is32(l: Loc) {
    l.HostsaveBase? || (l.User? && l.c.Int32?)
  }

  type Mem = map<Loc, int>

  function Get(mem: Mem, l: Loc): int {
    if l in mem then mem[l] else 0
  }

  /** What a store of v through a pointer to l leaves in l. */
  function Stored(l: Loc, v: int): int {
    if Is32(l) then ToI32(v) else v
  }

  ghost predicate TypedMem(mem: Mem) {
    forall l :: Is32(l) ==> Get(mem, l) == ToI32(Get(mem, l))
  }

  /** The two memories hold the same value everywhere outside d. */
  ghost predicate Same(m1: Mem, m2: Mem, d: set<Loc>) {
    forall l :: l !in d ==> Get(m1, l) == Get(m2, l)
  }

  // ---- the save-stack -----------------------------------------------------------------

  datatype Saved = Saved(loc: Loc, val: int, scope: int, width: int)

  function SaveOf(mem: Mem, l: Loc, scope: int): Saved {
    Saved(l, Get(mem, l), scope, if Is32(l) then 4 else 0)
  }

  function Restored(mem: Mem, e: Saved): Mem {
    mem[e.loc := if e.width == 4 then ToI32(e.val) else e.val]
  }

  /** Memory after popping and restoring entries until at most base are left. */
  function Unwind(stack: seq<Saved>, mem: Mem, base: int): Mem {
    if |stack| <= base || stack == [] then mem
    else Unwind(stack[..|stack| - 1], Restored(mem, stack[|stack| - 1]), base)
  }

  function Cut(stack: seq<Saved>, base: int): seq<Saved> {
    if |stack| <= base then stack else if base <= 0 then [] else stack[..base]
  }

  function SavedLocs(stack: seq<Saved>, base: nat): set<Loc> {
    set i | base <= i < |stack| :: stack[i].loc
  }

  // ---- runtime state and its transitions ----------------------------------------------

  datatype State = State(cur: Frame, depth: int, scope: int, stack: seq<Saved>, mem: Mem)

  datatype Outcome = Running(s: State) | Croaked(s: State)

  function Save(s: State, l: Loc): Outcome {
    if |s.stack| >= HOSTSAVE_MAX then Croaked(s)
    else Running(s.(stack := s.stack + [SaveOf(s.mem, l, s.scope)]))
  }

  function UnwindTo(s: State, base: int): State {
    s.(stack := Cut(s.stack, base), mem := Unwind(s.stack, s.mem, base))
  }

  /** goperl_xs_leave: close the activation f's fields describe. */
  function XsLeave(s: State, f: Frame): State {
    var prev := Get(s.mem, PrevFrame(f));
    var u := UnwindTo(s, Get(s.mem, HostsaveBase(f)));
    if s.depth - 1 <= 0 then u.(depth := 0, scope := 0, cur := prev)
    else u.(depth := s.depth - 1, cur := prev)
  }

  function SaveFields(s: State, f: Frame): Outcome {
    var o := Save(s, HostsaveBase(f));
    if o.Croaked? then o else
    var o2 := Save(o.s, PrevFrame(f));
    if o2.Croaked? then o2 else Save(o2.s, Jb(f))
  }

  function SetFields(s: State, f: Frame, prev: Frame, base: int, jb: int): State {
    s.(depth := s.depth + 1,
       mem := s.mem[PrevFrame(f) := prev][HostsaveBase(f) := ToI32(base)][Jb(f) := jb])
  }

  /** dXSARGS: enter an activation of f whose setjmp buffer is jb. */
  function Enter(s: State, f: Frame, jb: int): Outcome {
    var o := SaveFields(s.(cur := f), f);
    if o.Croaked? then o
    else Running(SetFields(o.s, f, if f == s.cur then f else s.cur, |s.stack|, jb))
  }

  /** The setjmp branch of dXSARGS, reached by a croak. */
  function CroakBranch(s: State, f: Frame): State {
    XsLeave(UnwindTo(s, Get(s.mem, HostsaveBase(f))), f)
  }

  /** __goperl_xs_epilogue from its loop count n on: the final state and count. */
  function Epilogue(s: State, f: Frame, n: nat): (r: (State, nat))
    decreases EPILOGUE_MAX - n
  {
    if s.cur == f && s.depth > 0 && n < EPILOGUE_MAX then
      var t := XsLeave(s, f);
      if Get(s.mem, PrevFrame(f)) != f then (t, n + 1) else Epilogue(t, f, n + 1)
    else (s, n)
  }

  /** The pops of goperl_leave: entries on top whose scope is at least the current one, each
      restored by a pointer-width store. */
  function LeavePops(stack: seq<Saved>, mem: Mem, scope: int): (seq<Saved>, Mem) {
    if stack != [] && stack[|stack| - 1].scope >= scope then
      var e := stack[|stack| - 1];
      LeavePops(stack[..|stack| - 1], mem[e.loc := e.val], scope)
    else (stack, mem)
  }

  function LeaveScope(s: State): State {
    var r := LeavePops(s.stack, s.mem, s.scope);
    s.(stack := r.0, mem := r.1, scope := s.scope - 1)
  }

  // ---- runs ---------------------------------------------------------------------------

  datatype Prog = Done | Then(op: Op, rest: Prog)

  /** What the body of an activation can do.  Direct calls another XSUB by C pointer on the
      same frame; GuestCall goes through the guest, which dispatches an XSUB on frame g. */
  datatype Op =
    | SaveCell(c: Cell)
    | Write(c: Cell, v: int)
    | Direct(jb: int, body: Prog, bare: bool)
    | GuestCall(g: Frame, jb: int, body: Prog, bare: bool)
    | Scope(body: Prog)

  /** A run's state and the cells it wrote while no save above base covered them. */
  datatype Run = Run(o: Outcome, exposed: set<Loc>)

  function Exec(s: State, f: Frame, base: nat, p: Prog): Run
    decreases p, 0
  {
    match p
    case Done => Run(Running(s), {})
    case Then(op, rest) =>
      var r := ExecOp(s, f, base, op);
      if r.o.Croaked? then r else
      var r2 := Exec(r.o.s, f, base, rest);
      Run(r2.o, r.exposed + r2.exposed)
  }

  function ExecOp(s: State, f: Frame, base: nat, op: Op): Run
    decreases op, 0
  {
    match op
    case SaveCell(c) => Run(Save(s, User(c)), {})
    case Write(c, v) =>
      Run(Running(s.(mem := s.mem[User(c) := Stored(User(c), v)])), {User(c)} - SavedLocs(s.stack, base))
    case Direct(jb, body, bare) =>
      var e := Enter(s, f, jb);
      if e.Croaked? then Run(e, {}) else
      var r := Exec(e.s, f, base, body);
      if r.o.Croaked? || bare then r else r.(o := Running(XsLeave(r.o.s, f)))
    case GuestCall(g, jb, body, bare) =>
      var r := Dispatch(s, g, jb, body, bare);
      r.(exposed := r.exposed - SavedLocs(s.stack, base))
    case Scope(body) =>
      var r := Exec(s.(scope := s.scope + 1), f, base, body);
      if r.o.Croaked? then r else r.(o := Running(LeaveScope(r.o.s)))
  }

  /** One dispatch: the XSUB's entry, body and return on frame f, then the epilogue. */
  function Dispatch(s: State, f: Frame, jb: int, body: Prog, bare: bool): Run
    decreases body, 1
  {
    var e := Enter(s, f, jb);
    if e.Croaked? then Run(e, {}) else
    var r := Exec(e.s, f, |s.stack|, body);
    if r.o.Croaked? then r else
    r.(o := Running(Epilogue(if bare then r.o.s else XsLeave(r.o.s, f), f, 0).0))
  }

  /** Activation levels a body leaves open on its own frame. */
  function Open(p: Prog): nat {
    match p
    case Done => 0
    case Then(op, rest) => OpenOp(op) + Open(rest)
  }

  function OpenOp(op: Op): nat {
    match op
    case Direct(_, body, bare) => Open(body) + if bare then 1 else 0
    case Scope(body) => Open(body)
    case _ => 0
  }

  function OpenAtEnd(body: Prog, bare: bool): nat {
    Open(body) + if bare then 1 else 0
  }

  /** No 4-byte save is left for a LEAVE to pop. */
  predicate WordSaves(p: Prog) {
    match p
    case Done => true
    case Then(op, rest) => WordOp(op) && WordSaves(rest)
  }

  predicate WordOp(op: Op) {
    op.SaveCell? ==> op.c.Word?
  }

  /** The runs the protocol serves, on a thread whose current frame is cur: a guest call gets
      a frame other than its caller's and leaves at most 64 levels open; a module's ENTER/LEAVE
      pair contains neither an activation left open nor a 4-byte save of its own. */
  predicate Served(p: Prog, cur: Frame) {
    match p
    case Done => true
    case Then(op, rest) => Served(rest, cur) && ServedOp(op, cur)
  }

  predicate ServedOp(op: Op, cur: Frame) {
    match op
    case SaveCell(_) => true
    case Write(_, _) => true
    case Direct(_, body, _) => Served(body, cur)
    case GuestCall(g, _, body, bare) =>
      g != cur && Served(body, g) && OpenAtEnd(body, bare) <= EPILOGUE_MAX
    case Scope(body) => Served(body, cur) && Open(body) == 0 && WordSaves(body)
  }

  // ---- unwinding ----------------------------------------------------------------------

  lemma {:induction false} UnwindCompose(stack: seq<Saved>, mem: Mem, b: nat, c: nat)
    requires c <= b <= |stack|
    ensures Unwind(stack[..b], Unwind(stack, mem, b), c) == Unwind(stack, mem, c)
    decreases |stack|
  {
    if |stack| == b {
      assert stack[..b] == stack;
    } else {
      var top := |stack| - 1;
      assert stack[..top][..b] == stack[..b];
      UnwindCompose(stack[..top], Restored(mem, stack[top]), b, c);
    }
  }

  /** Unwinding forgets a difference at every location it restores. */
  lemma {:induction false} UnwindAgrees(stack: seq<Saved>, m1: Mem, m2: Mem, base: nat, d: set<Loc>)
    requires Same(m1, m2, d)
    ensures Same(Unwind(stack, m1, base), Unwind(stack, m2, base), d - SavedLocs(stack, base))
    decreases |stack|
  {
    if |stack| > base {
      var top := |stack| - 1;
      var e := stack[top];
      UnwindAgrees(stack[..top], Restored(m1, e), Restored(m2, e), base, d - {e.loc});
      assert SavedLocs(stack, base) == SavedLocs(stack[..top], base) + {e.loc};
    }
  }

  lemma {:induction false} UnwindSame(stack: seq<Saved>, m1: Mem, m2: Mem, base: nat, d: set<Loc>)
    requires Same(m1, m2, d)
    ensures Same(Unwind(stack, m1, base), Unwind(stack, m2, base), d)
  {
    UnwindAgrees(stack, m1, m2, base, d);
  }

  lemma {:induction false} UnwindPushed(stack: seq<Saved>, mem: Mem, l: Loc, scope: int, base: nat)
    requires TypedMem(mem) && base <= |stack|
    ensures Same(Unwind(stack + [SaveOf(mem, l, scope)], mem, base), Unwind(stack, mem, base), {})
  {
    var e := SaveOf(mem, l, scope);
    assert (stack + [e])[..|stack|] == stack;
    UnwindSame(stack, Restored(mem, e), mem, base, {});
  }

  ghost predicate TypedStack(stack: seq<Saved>) {
    forall i :: 0 <= i < |stack| ==> (stack[i].width == 4 <==> Is32(stack[i].loc))
  }

  lemma {:induction false} UnwindTyped(stack: seq<Saved>, mem: Mem, base: nat)
    requires TypedMem(mem) && TypedStack(stack)
    ensures TypedMem(Unwind(stack, mem, base))
    decreases |stack|
  {
    if |stack| > base {
      UnwindTyped(stack[..|stack| - 1], Restored(mem, stack[|stack| - 1]), base);
    }
  }

  // ---- open activation levels ---------------------------------------------------------

  /** k activations of f are open above a save-stack of n entries on a thread whose current
      frame was cur: each one's base and prev_frame are in f's fields once those above it are
      unwound. */
  ghost predicate Nest(f: Frame, cur: Frame, n: nat, k: nat, stack: seq<Saved>, mem: Mem)
    decreases k
  {
    if k == 0 then |stack| == n else
    var b := Get(mem, HostsaveBase(f));
    && n <= b <= |stack|
    && Get(mem, PrevFrame(f)) == (if k == 1 then cur else f)
    && Nest(f, cur, n, k - 1, stack[..b], Unwind(stack, mem, b))
  }

  lemma {:induction false} NestSame(f: Frame, cur: Frame, n: nat, k: nat, stack: seq<Saved>, m1: Mem, m2: Mem, d: set<Loc>)
    requires Nest(f, cur, n, k, stack, m1) && Same(m1, m2, d) && OnlyUser(d)
    ensures Nest(f, cur, n, k, stack, m2)
  {
    if k > 0 {
      var b := Get(m1, HostsaveBase(f));
      assert Get(m2, HostsaveBase(f)) == b && Get(m2, PrevFrame(f)) == Get(m1, PrevFrame(f));
      UnwindSame(stack, m1, m2, b, d);
      NestSame(f, cur, n, k - 1, stack[..b], Unwind(stack, m1, b), Unwind(stack, m2, b), d);
    }
  }

  ghost predicate OnlyUser(d: set<Loc>) {
    forall l: Loc :: l in d ==> l.User?
  }

  lemma {:induction false} NestPushed(f: Frame, cur: Frame, n: nat, k: nat, stack: seq<Saved>, mem: Mem, l: Loc, scope: int)
    requires k > 0 && Nest(f, cur, n, k, stack, mem) && TypedMem(mem)
    ensures Nest(f, cur, n, k, stack + [SaveOf(mem, l, scope)], mem)
  {
    var more := stack + [SaveOf(mem, l, scope)];
    var b := Get(mem, HostsaveBase(f));
    assert more[..b] == stack[..b];
    UnwindPushed(stack, mem, l, scope, b);
    NestSame(f, cur, n, k - 1, stack[..b], Unwind(stack, mem, b), Unwind(more, mem, b), {});
  }

  // ---- what every step of a body keeps ------------------------------------------------

  /** The state is in the body of an activation of f dispatched from s0, with k levels open and
      no location changed for good except those in d. */
  ghost predicate InBody(s0: State, f: Frame, k: nat, d: set<Loc>, s: State) {
    && s.cur == (if k == 0 then s0.cur else f) && s.depth == s0.depth + k && s.scope >= s0.scope
    && |s0.stack| <= |s.stack| <= HOSTSAVE_MAX && s.stack[..|s0.stack|] == s0.stack
    && TypedMem(s.mem) && TypedStack(s.stack) && OnlyUser(d)
    && (forall i :: 0 <= i < |s.stack| ==> s.stack[i].scope <= s.scope)
    && Nest(f, s0.cur, |s0.stack|, k, s.stack, s.mem)
    && Same(Unwind(s.stack, s.mem, |s0.stack|), s0.mem, d)
  }

  lemma {:induction false} SaveKeeps(s0: State, f: Frame, k: nat, d: set<Loc>, s: State, c: Cell)
    requires k > 0 && InBody(s0, f, k, d, s)
    requires Save(s, User(c)).Running?
    ensures InBody(s0, f, k, d, Save(s, User(c)).s)
  {
    NestPushed(f, s0.cur, |s0.stack|, k, s.stack, s.mem, User(c), s.scope);
    UnwindPushed(s.stack, s.mem, User(c), s.scope, |s0.stack|);
  }

  /** Changing user locations in e keeps the levels; those not saved above the base are exposed. */
  lemma {:induction false} ChangeKeeps(s0: State, f: Frame, k: nat, d: set<Loc>, s: State, m: Mem, e: set<Loc>)
    requires InBody(s0, f, k, d, s) && Same(s.mem, m, e) && OnlyUser(e) && TypedMem(m)
    ensures InBody(s0, f, k, d + (e - SavedLocs(s.stack, |s0.stack|)), s.(mem := m))
  {
    NestSame(f, s0.cur, |s0.stack|, k, s.stack, s.mem, m, e);
    UnwindAgrees(s.stack, s.mem, m, |s0.stack|, e);
  }

  function EntrySaves(s: State, f: Frame): seq<Saved> {
    [SaveOf(s.mem, HostsaveBase(f), s.scope), SaveOf(s.mem, PrevFrame(f), s.scope), SaveOf(s.mem, Jb(f), s.scope)]
  }

  lemma {:induction false} EnterShape(s: State, f: Frame, jb: int)
    requires Enter(s, f, jb).Running?
    ensures |s.stack| + 3 <= HOSTSAVE_MAX
    ensures Enter(s, f, jb).s == SetFields(s.(cur := f, stack := s.stack + EntrySaves(s, f)), f,
                                           if f == s.cur then f else s.cur, |s.stack|, jb)
  {
    var e := EntrySaves(s, f);
    assert s.stack + [e[0]] + [e[1]] + [e[2]] == s.stack + e;
  }

  /** Restoring the three saved fields undoes any change to just them. */
  lemma {:induction false} EntryUnwinds(s: State, f: Frame, mem: Mem)
    requires TypedMem(s.mem) && Same(mem, s.mem, {HostsaveBase(f), PrevFrame(f), Jb(f)})
    ensures Same(Unwind(s.stack + EntrySaves(s, f), mem, |s.stack|), s.mem, {})
  {
    var e := EntrySaves(s, f);
    var n := |s.stack|;
    var full := s.stack + e;
    assert full[..n + 2] == s.stack + e[..2] && (s.stack + e[..2])[..n + 1] == s.stack + e[..1];
    assert (s.stack + e[..1])[..n] == s.stack;
    var m2 := Restored(mem, e[2]);
    var m1 := Restored(m2, e[1]);
    assert Unwind(full, mem, n) == Unwind(s.stack + e[..2], m2, n);
    assert Unwind(s.stack + e[..2], m2, n) == Unwind(s.stack + e[..1], m1, n);
    assert Unwind(s.stack + e[..1], m1, n) == Restored(m1, e[0]);
  }

  /** Entering saves the three fields, so unwinding to the entry height undoes it. */
  lemma {:induction false} EnterUndone(s: State, f: Frame, jb: int)
    requires TypedMem(s.mem) && TypedStack(s.stack) && Enter(s, f, jb).Running?
    ensures var t := Enter(s, f, jb).s;
      && |t.stack| == |s.stack| + 3 <= HOSTSAVE_MAX && t.stack[..|s.stack|] == s.stack
      && (forall i :: |s.stack| <= i < |t.stack| ==> t.stack[i].scope == s.scope)
      && TypedMem(t.mem) && TypedStack(t.stack)
      && Get(t.mem, HostsaveBase(f)) == |s.stack|
      && Get(t.mem, PrevFrame(f)) == (if f == s.cur then f else s.cur)
      && Same(Unwind(t.stack, t.mem, |s.stack|), s.mem, {})
  {
    hide SaveFields, Unwind;
    EnterShape(s, f, jb);
    EntryUnwinds(s, f, Enter(s, f, jb).s.mem);
  }

  lemma {:induction false} EnterKeeps(s0: State, f: Frame, k: nat, d: set<Loc>, s: State, jb: int)
    requires InBody(s0, f, k, d, s) && f != s0.cur && Enter(s, f, jb).Running?
    ensures InBody(s0, f, k + 1, d, Enter(s, f, jb).s) && Enter(s, f, jb).s.scope == s.scope
  {
    EnterUndone(s, f, jb);
    var t := Enter(s, f, jb).s;
    var n := |s.stack|;
    var m := Unwind(t.stack, t.mem, n);
    NestSame(f, s0.cur, |s0.stack|, k, s.stack, s.mem, m, {});
    UnwindCompose(t.stack, t.mem, n, |s0.stack|);
    UnwindSame(s.stack, m, s.mem, |s0.stack|, {});
    assert t.stack[..|s0.stack|] == s.stack[..|s0.stack|];
    forall i | 0 <= i < |t.stack| ensures t.stack[i].scope <= t.scope {
      assert i < n ==> t.stack[i] == s.stack[i];
    }
  }

  lemma {:induction false} LeaveKeeps(s0: State, f: Frame, k: nat, d: set<Loc>, s: State)
    requires k > 0 && InBody(s0, f, k, d, s) && s0.depth >= 0
    requires k == 1 ==> s.scope == s0.scope && (s0.depth == 0 ==> s0.scope == 0)
    ensures InBody(s0, f, k - 1, d, XsLeave(s, f)) && XsLeave(s, f).scope == s.scope
    ensures XsLeave(s, f).stack == s.stack[..Get(s.mem, HostsaveBase(f))]
    ensures XsLeave(s, f).mem == Unwind(s.stack, s.mem, Get(s.mem, HostsaveBase(f)))
  {
    var b := Get(s.mem, HostsaveBase(f));
    var t := XsLeave(s, f);
    assert t.stack == s.stack[..b];
    UnwindTyped(s.stack, s.mem, b);
    UnwindCompose(s.stack, s.mem, b, |s0.stack|);
    assert s.stack[..b][..|s0.stack|] == s.stack[..|s0.stack|];
  }

  lemma {:induction false} WriteKeeps(s0: State, f: Frame, k: nat, d: set<Loc>, s: State, c: Cell, v: int)
    requires InBody(s0, f, k, d, s)
    ensures InBody(s0, f, k, d + ({User(c)} - SavedLocs(s.stack, |s0.stack|)),
                   s.(mem := s.mem[User(c) := Stored(User(c), v)]))
  {
    ChangeKeeps(s0, f, k, d, s, s.mem[User(c) := Stored(User(c), v)], {User(c)});
  }

  // ---- closed stretches of a body: what LEAVE relies on --------------------------------

  ghost predicate FramesSame(m1: Mem, m2: Mem) {
    forall l: Loc :: !l.User? ==> Get(m1, l) == Get(m2, l)
  }

  ghost predicate UserSaves(stack: seq<Saved>, n: nat, scope: int) {
    forall i :: n <= i < |stack| ==> stack[i].loc.User? && stack[i].scope == scope
  }

  ghost predicate WordsAbove(stack: seq<Saved>, n: nat) {
    forall i :: n <= i < |stack| ==> stack[i].width != 4
  }

  /** From s to t no activation was left open: t only adds saves of the module's own cells. */
  ghost predicate Closed(s: State, t: State) {
    && |s.stack| <= |t.stack| && t.stack[..|s.stack|] == s.stack
    && UserSaves(t.stack, |s.stack|, s.scope) && FramesSame(t.mem, s.mem) && t.scope == s.scope
  }

  lemma {:induction false} UnwindFrames(stack: seq<Saved>, m1: Mem, m2: Mem, base: nat)
    requires FramesSame(m1, m2)
    ensures FramesSame(Unwind(stack, m1, base), Unwind(stack, m2, base))
    decreases |stack|
  {
    if |stack| > base {
      var top := |stack| - 1;
      UnwindFrames(stack[..top], Restored(m1, stack[top]), Restored(m2, stack[top]), base);
    }
  }

  lemma {:induction false} UnwindUserSaves(stack: seq<Saved>, mem: Mem, base: nat)
    requires forall i :: base <= i < |stack| ==> stack[i].loc.User?
    ensures FramesSame(Unwind(stack, mem, base), mem)
    decreases |stack|
  {
    if |stack| > base {
      UnwindUserSaves(stack[..|stack| - 1], Restored(mem, stack[|stack| - 1]), base);
    }
  }

  /** LEAVE pops exactly the pointer-width saves of its scope and restores them like an unwind. */
  lemma {:induction false} LeavePopsScope(stack: seq<Saved>, mem: Mem, n: nat, scope: int)
    requires n <= |stack| && WordsAbove(stack, n)
    requires forall i :: n <= i < |stack| ==> stack[i].scope >= scope
    requires forall i :: 0 <= i < n ==> stack[i].scope < scope
    ensures LeavePops(stack, mem, scope) == (stack[..n], Unwind(stack, mem, n))
    decreases |stack|
  {
    if |stack| == n {
      assert stack[..n] == stack;
    } else {
      var top := |stack| - 1;
      assert stack[..top][..n] == stack[..n];
      LeavePopsScope(stack[..top], Restored(mem, stack[top]), n, scope);
    }
  }

  /** Popping saves above the current activation's base changes no level and exposes nothing. */
  lemma {:induction false} PopKeeps(s0: State, f: Frame, k: nat, d: set<Loc>, s: State, n: nat, scope: int)
    requires k > 0 && InBody(s0, f, k, d, s)
    requires |s0.stack| <= n <= |s.stack| && Get(s.mem, HostsaveBase(f)) <= n
    requires s0.scope <= scope && forall i :: 0 <= i < n ==> s.stack[i].scope <= scope
    requires FramesSame(Unwind(s.stack, s.mem, n), s.mem)
    ensures InBody(s0, f, k, d, UnwindTo(s, n).(scope := scope))
  {
    var b := Get(s.mem, HostsaveBase(f));
    UnwindTyped(s.stack, s.mem, n);
    UnwindCompose(s.stack, s.mem, n, b);
    UnwindCompose(s.stack, s.mem, n, |s0.stack|);
    assert s.stack[..n][..b] == s.stack[..b];
    assert s.stack[..n][..|s0.stack|] == s.stack[..|s0.stack|];
    assert Cut(s.stack, n) == s.stack[..n];
    assert !HostsaveBase(f).User? && !PrevFrame(f).User?;
  }

  // ---- the run theorem ----------------------------------------------------------------

  /** Where a dispatch can start: a state at rest or inside any other activation's body. */
  ghost predicate AtEntry(s: State) {
    && s.depth >= 0 && (s.depth == 0 ==> s.scope == 0) && |s.stack| <= HOSTSAVE_MAX
    && TypedMem(s.mem) && TypedStack(s.stack)
    && forall i :: 0 <= i < |s.stack| ==> s.stack[i].scope <= s.scope
  }

  /** t has everything s had, except the user cells in d. */
  ghost predicate Back(s: State, t: State, d: set<Loc>) {
    && t.cur == s.cur && t.depth == s.depth && t.scope == s.scope && t.stack == s.stack
    && TypedMem(t.mem) && Same(t.mem, s.mem, d) && OnlyUser(d)
  }

  /** Dispatching f runs its body with one level open and nothing exposed. */
  lemma {:induction false} FreshEntry(s: State, f: Frame, jb: int)
    requires AtEntry(s) && f != s.cur && Enter(s, f, jb).Running?
    ensures InBody(s, f, 1, {}, Enter(s, f, jb).s) && Enter(s, f, jb).s.scope == s.scope
  {
    assert s.stack[..|s.stack|] == s.stack;
    EnterUndone(s, f, jb);
    var t := Enter(s, f, jb).s;
    forall i | 0 <= i < |t.stack| ensures t.stack[i].scope <= t.scope {
      assert i < |s.stack| ==> t.stack[i] == s.stack[i];
    }
    assert Nest(f, s.cur, |s.stack|, 0, t.stack[..|s.stack|], Unwind(t.stack, t.mem, |s.stack|));
  }

  /** A point of a body of f, dispatched from s0. */
  ghost predicate Ready(s0: State, f: Frame, k: nat, d: set<Loc>, s: State) {
    k > 0 && InBody(s0, f, k, d, s) && AtEntry(s0) && f != s0.cur
  }

  /** What a stretch of a body has done when it reaches r: opened so many levels, exposed some
      cells, and, if it left nothing open, only added saves on top of the stack. */
  ghost predicate Ran(s0: State, f: Frame, k: nat, d: set<Loc>, s: State, r: Run, more: nat, words: bool) {
    && InBody(s0, f, k + more, d + r.exposed, r.o.s) && r.o.s.scope == s.scope
    && (more == 0 ==> Closed(s, r.o.s))
    && (more == 0 && words ==> WordsAbove(r.o.s.stack, |s.stack|))
  }

  lemma {:induction false} ExecKeeps(s0: State, f: Frame, k: nat, d: set<Loc>, s: State, p: Prog)
    requires Ready(s0, f, k, d, s) && Served(p, f) && Exec(s, f, |s0.stack|, p).o.Running?
    ensures Ran(s0, f, k, d, s, Exec(s, f, |s0.stack|, p), Open(p), WordSaves(p))
    decreases p, 0
  {
    hide ExecOp, InBody, Closed, WordsAbove, AtEntry;
    match p
    case Done =>
      RanNothing(s0, f, k, d, s);
    case Then(op, rest) =>
      ExecOpKeeps(s0, f, k, d, s, op);
      var r := ExecOp(s, f, |s0.stack|, op);
      ExecKeeps(s0, f, k + OpenOp(op), d + r.exposed, r.o.s, rest);
      RanChain(s0, f, k, d, s, r, OpenOp(op), WordOp(op),
               Exec(r.o.s, f, |s0.stack|, rest), Open(rest), WordSaves(rest));
  }

  lemma {:induction false} RanNothing(s0: State, f: Frame, k: nat, d: set<Loc>, s: State)
    requires Ready(s0, f, k, d, s)
    ensures Ran(s0, f, k, d, s, Run(Running(s), {}), 0, true)
  {
    assert d + {} == d && s.stack[..|s.stack|] == s.stack;
  }

  lemma {:induction false} RanChain(s0: State, f: Frame, k: nat, d: set<Loc>, s: State, r: Run, n: nat, w: bool, r2: Run, n2: nat, w2: bool)
    requires Ran(s0, f, k, d, s, r, n, w) && Ran(s0, f, k + n, d + r.exposed, r.o.s, r2, n2, w2)
    ensures Ran(s0, f, k, d, s, Run(r2.o, r.exposed + r2.exposed), n + n2, w && w2)
  {
    assert d + r.exposed + r2.exposed == d + (r.exposed + r2.exposed);
  }

  lemma {:induction false} ExecOpKeeps(s0: State, f: Frame, k: nat, d: set<Loc>, s: State, op: Op)
    requires Ready(s0, f, k, d, s) && ServedOp(op, f) && ExecOp(s, f, |s0.stack|, op).o.Running?
    ensures Ran(s0, f, k, d, s, ExecOp(s, f, |s0.stack|, op), OpenOp(op), WordOp(op))
    decreases op, 0
  {
    hide Exec, Enter, XsLeave, Nest, Unwind, Same, LeaveScope;
    match op
    case SaveCell(c) =>
      SaveKeeps(s0, f, k, d, s, c);
      assert d + {} == d;
    case Write(c, v) =>
      WriteKeeps(s0, f, k, d, s, c, v);
    case Direct(jb, body, bare) =>
      DirectKeeps(s0, f, k, d, s, jb, body, bare);
    case GuestCall(g, jb, body, bare) =>
      GuestCallKeeps(s0, f, k, d, s, g, jb, body, bare);
    case Scope(body) =>
      ScopeKeeps(s0, f, k, d, s, body);
  }

  lemma {:induction false} GuestCallKeeps(s0: State, f: Frame, k: nat, d: set<Loc>, s: State, g: Frame, jb: int, body: Prog, bare: bool)
    requires Ready(s0, f, k, d, s) && ServedOp(GuestCall(g, jb, body, bare), f)
    requires Dispatch(s, g, jb, body, bare).o.Running?
    ensures Ran(s0, f, k, d, s, ExecOp(s, f, |s0.stack|, GuestCall(g, jb, body, bare)), 0, true)
    decreases body, 4
  {
    DispatchRestores(s, g, jb, body, bare);
    var r := Dispatch(s, g, jb, body, bare);
    ChangeKeeps(s0, f, k, d, s, r.o.s.mem, r.exposed);
    assert r.o.s == s.(mem := r.o.s.mem);
  }

  lemma {:induction false} DirectKeeps(s0: State, f: Frame, k: nat, d: set<Loc>, s: State, jb: int, body: Prog, bare: bool)
    requires Ready(s0, f, k, d, s) && Served(body, f)
    requires Enter(s, f, jb).Running? && Exec(Enter(s, f, jb).s, f, |s0.stack|, body).o.Running?
    ensures Ran(s0, f, k, d, s, ExecOp(s, f, |s0.stack|, Direct(jb, body, bare)), OpenAtEnd(body, bare), true)
    decreases body, 1
  {
    hide Exec, Enter, XsLeave, Nest, Unwind, Same;
    EnterKeeps(s0, f, k, d, s, jb);
    var t := Enter(s, f, jb).s;
    ExecKeeps(s0, f, k + 1, d, t, body);
    var r := Exec(t, f, |s0.stack|, body);
    if !bare {
      DirectReturns(s0, f, k, d, s, jb, r, Open(body));
    }
  }

  lemma {:induction false} DirectReturns(s0: State, f: Frame, k: nat, d: set<Loc>, s: State, jb: int, r: Run, more: nat)
    requires Ready(s0, f, k, d, s) && Enter(s, f, jb).Running?
    requires Enter(s, f, jb).s.scope == s.scope && Ran(s0, f, k + 1, d, Enter(s, f, jb).s, r, more, false)
    ensures Ran(s0, f, k, d, s, r.(o := Running(XsLeave(r.o.s, f))), more, true)
  {
    LeaveKeeps(s0, f, k + 1 + more, d + r.exposed, r.o.s);
    if more == 0 {
      DirectCloses(s, f, jb, r.o.s);
      assert s.stack[..|s.stack|] == s.stack;
    }
  }

  /** A direct call that leaves nothing open gives the save-stack and every frame field back. */
  lemma {:induction false} DirectCloses(s: State, f: Frame, jb: int, u: State)
    requires TypedMem(s.mem) && TypedStack(s.stack) && Enter(s, f, jb).Running?
    requires Closed(Enter(s, f, jb).s, u)
    ensures XsLeave(u, f).stack == s.stack && FramesSame(XsLeave(u, f).mem, s.mem)
  {
    EnterUndone(s, f, jb);
    var t := Enter(s, f, jb).s;
    var n := |s.stack|;
    assert u.stack[..n] == u.stack[..|t.stack|][..n] == s.stack;
    assert Get(u.mem, HostsaveBase(f)) == n;
    UnwindUserSaves(u.stack, u.mem, |t.stack|);
    UnwindCompose(u.stack, u.mem, |t.stack|, n);
    UnwindFrames(t.stack, Unwind(u.stack, u.mem, |t.stack|), t.mem, n);
  }

  lemma {:induction false} ScopeKeeps(s0: State, f: Frame, k: nat, d: set<Loc>, s: State, body: Prog)
    requires Ready(s0, f, k, d, s) && ServedOp(Scope(body), f)
    requires ExecOp(s, f, |s0.stack|, Scope(body)).o.Running?
    ensures Ran(s0, f, k, d, s, ExecOp(s, f, |s0.stack|, Scope(body)), 0, true)
    decreases body, 1
  {
    var t := s.(scope := s.scope + 1);
    ExecKeeps(s0, f, k, d, t, body);
    ScopeLeaves(s0, f, k, d, s, Exec(t, f, |s0.stack|, body));
  }

  lemma {:induction false} ScopeLeaves(s0: State, f: Frame, k: nat, d: set<Loc>, s: State, r: Run)
    requires Ready(s0, f, k, d, s) && Ran(s0, f, k, d, s.(scope := s.scope + 1), r, 0, true)
    ensures Ran(s0, f, k, d, s, r.(o := Running(LeaveScope(r.o.s))), 0, true)
  {
    var u := r.o.s;
    var n := |s.stack|;
    forall i | 0 <= i < n ensures u.stack[i].scope <= s.scope {
      assert u.stack[i] == u.stack[..n][i] == s.stack[i];
    }
    LeavePopsScope(u.stack, u.mem, n, u.scope);
    UnwindUserSaves(u.stack, u.mem, n);
    PopKeeps(s0, f, k, d + r.exposed, u, n, s.scope);
    assert s.stack[..n] == s.stack;
  }

  lemma {:induction false} EpilogueCloses(s0: State, f: Frame, k: nat, d: set<Loc>, s: State, n: nat)
    requires InBody(s0, f, k, d, s) && AtEntry(s0) && f != s0.cur && s.scope == s0.scope && n <= EPILOGUE_MAX
    ensures var (t, m) := Epilogue(s, f, n);
      var closed := if k <= EPILOGUE_MAX - n then k else EPILOGUE_MAX - n;
      InBody(s0, f, k - closed, d, t) && t.scope == s0.scope && m == n + closed
    decreases EPILOGUE_MAX - n
  {
    if k > 0 && n < EPILOGUE_MAX {
      LeaveKeeps(s0, f, k, d, s);
      if k > 1 {
        EpilogueCloses(s0, f, k - 1, d, XsLeave(s, f), n + 1);
      }
    }
  }

  /** The state after a body and its return, before the epilogue: the levels left open. */
  lemma {:induction false} ReturnLevels(s: State, f: Frame, jb: int, body: Prog, bare: bool) returns (t: State)
    requires AtEntry(s) && f != s.cur && Served(body, f) && Dispatch(s, f, jb, body, bare).o.Running?
    ensures var r := Dispatch(s, f, jb, body, bare);
      && InBody(s, f, OpenAtEnd(body, bare), r.exposed, t) && t.scope == s.scope
      && r.o.s == Epilogue(t, f, 0).0
    decreases body, 2
  {
    hide ExecOp, Served, Nest, Unwind, Epilogue;
    FreshEntry(s, f, jb);
    var e := Enter(s, f, jb).s;
    ExecKeeps(s, f, 1, {}, e, body);
    var r := Exec(e, f, |s.stack|, body);
    assert {} + r.exposed == r.exposed;
    t := r.o.s;
    if !bare {
      LeaveKeeps(s, f, 1 + Open(body), r.exposed, t);
      t := XsLeave(t, f);
    }
  }

  lemma {:induction false} DispatchRestores(s: State, f: Frame, jb: int, body: Prog, bare: bool)
    requires AtEntry(s) && f != s.cur && Served(body, f) && Dispatch(s, f, jb, body, bare).o.Running?
    requires OpenAtEnd(body, bare) <= EPILOGUE_MAX
    ensures var r := Dispatch(s, f, jb, body, bare); Back(s, r.o.s, r.exposed)
    decreases body, 3
  {
    var t := ReturnLevels(s, f, jb, body, bare);
    var r := Dispatch(s, f, jb, body, bare);
    EpilogueCloses(s, f, OpenAtEnd(body, bare), r.exposed, t, 0);
    assert r.o.s.stack[..|s.stack|] == r.o.s.stack;
  }

  /** The dispatch theorem: the epilogue brings back the current frame, the depth, the scope, the
      save-stack and every location not exposed by the run exactly when at most 64 levels were
      left open. */
  lemma {:induction false} DispatchExact(s: State, f: Frame, jb: int, body: Prog, bare: bool)
    requires AtEntry(s) && f != s.cur && Served(body, f) && Dispatch(s, f, jb, body, bare).o.Running?
    ensures var r := Dispatch(s, f, jb, body, bare);
      Back(s, r.o.s, r.exposed) <==> OpenAtEnd(body, bare) <= EPILOGUE_MAX
  {
    var r := Dispatch(s, f, jb, body, bare);
    if OpenAtEnd(body, bare) <= EPILOGUE_MAX {
      DispatchRestores(s, f, jb, body, bare);
    } else {
      var t := ReturnLevels(s, f, jb, body, bare);
      EpilogueCloses(s, f, OpenAtEnd(body, bare), r.exposed, t, 0);
      assert r.o.s.cur == f;
    }
  }

  /** A run that saves each cell before writing it leaves no trace in memory. */
  lemma {:induction false} SavedRunLeavesNoTrace(s: State, f: Frame, jb: int, body: Prog, bare: bool, l: Loc)
    requires AtEntry(s) && f != s.cur && Served(body, f) && Dispatch(s, f, jb, body, bare).o.Running?
    requires OpenAtEnd(body, bare) <= EPILOGUE_MAX && Dispatch(s, f, jb, body, bare).exposed == {}
    ensures Get(Dispatch(s, f, jb, body, bare).o.s.mem, l) == Get(s.mem, l)
  {
    DispatchRestores(s, f, jb, body, bare);
  }

  ghost predicate ZeroFrame(mem: Mem, f: Frame) {
    Get(mem, PrevFrame(f)) == NULL && Get(mem, Jb(f)) == 0 && Get(mem, HostsaveBase(f)) == 0
  }

  /** A croak caught by a dispatched activation's own setjmp: the branch unwinds first, so the
      leave reads the fresh frame's zero fields.  It reaches the pre-dispatch state exactly when
      that state was a thread at rest with an empty save-stack. */
  lemma {:induction false} CroakExact(s: State, f: Frame, d: set<Loc>, t: State)
    requires AtEntry(s) && f != s.cur && ZeroFrame(s.mem, f) && (s.cur == NULL ==> s.depth == 0)
    requires InBody(s, f, 1, d, t)
    ensures Back(s, CroakBranch(t, f), d) <==> s.cur == NULL && s.stack == []
  {
    var b := Get(t.mem, HostsaveBase(f));
    assert b == |s.stack| && t.stack[..b] == s.stack;
    var u := UnwindTo(t, b);
    assert Cut(t.stack, b) == s.stack;
    UnwindTyped(t.stack, t.mem, b);
    var r := CroakBranch(t, f);
    assert r == XsLeave(u, f);
    assert Get(u.mem, HostsaveBase(f)) == 0 && Get(u.mem, PrevFrame(f)) == NULL;
    assert r.cur == NULL && r.stack == [];
  }

  /** A point of a body, inside any number of ENTERs and direct calls it has not left: what ran
      before each. */
  datatype Point = Here(p: Prog) | Inside(p: Prog, rest: Point) | Calling(p: Prog, jb: int, rest: Point)

  function ExecTo(s: State, f: Frame, base: nat, pt: Point): Run
    decreases pt
  {
    match pt
    case Here(p) => Exec(s, f, base, p)
    case Inside(p, rest) =>
      var r := Exec(s, f, base, p);
      if r.o.Croaked? then r else
      var r2 := ExecTo(r.o.s.(scope := r.o.s.scope + 1), f, base, rest);
      Run(r2.o, r.exposed + r2.exposed)
    case Calling(p, jb, rest) =>
      var r := Exec(s, f, base, p);
      if r.o.Croaked? then r else
      var e := Enter(r.o.s, f, jb);
      if e.Croaked? then Run(e, r.exposed) else
      var r2 := ExecTo(e.s, f, base, rest);
      Run(r2.o, r.exposed + r2.exposed)
  }

  /** A point of a served run. */
  predicate ServedTo(pt: Point, f: Frame) {
    Served(pt.p, f) && (!pt.Here? ==> ServedTo(pt.rest, f))
  }

  /** The levels open at a point, over those open where it starts. */
  function OpenTo(pt: Point): nat {
    Open(pt.p) + (if pt.Calling? then 1 else 0) + if pt.Here? then 0 else OpenTo(pt.rest)
  }

  lemma {:induction false} ToKeeps(s0: State, f: Frame, k: nat, d: set<Loc>, s: State, pt: Point)
    requires Ready(s0, f, k, d, s) && ServedTo(pt, f) && ExecTo(s, f, |s0.stack|, pt).o.Running?
    ensures InBody(s0, f, k + OpenTo(pt), d + ExecTo(s, f, |s0.stack|, pt).exposed, ExecTo(s, f, |s0.stack|, pt).o.s)
    decreases pt
  {
    hide Exec, Served, AtEntry, Enter, Nest, Unwind;
    ExecKeeps(s0, f, k, d, s, pt.p);
    if !pt.Here? {
      var r := Exec(s, f, |s0.stack|, pt.p);
      if pt.Calling? {
        EnterKeeps(s0, f, k + Open(pt.p), d + r.exposed, r.o.s, pt.jb);
      }
      var t := if pt.Inside? then r.o.s.(scope := r.o.s.scope + 1) else Enter(r.o.s, f, pt.jb).s;
      var r2 := ExecTo(t, f, |s0.stack|, pt.rest);
      ToKeeps(s0, f, k + Open(pt.p) + (if pt.Calling? then 1 else 0), d + r.exposed, t, pt.rest);
      assert d + r.exposed + r2.exposed == d + (r.exposed + r2.exposed);
    }
  }

  /** The same for a croak at every point of the outermost activation, inside open ENTERs too, at
      which its direct calls are closed. */
  lemma {:induction false} CroakAfterRun(s: State, f: Frame, jb: int, at: Point)
    requires AtEntry(s) && f != s.cur && ZeroFrame(s.mem, f) && (s.cur == NULL ==> s.depth == 0)
    requires ServedTo(at, f) && OpenTo(at) == 0 && Enter(s, f, jb).Running?
    requires ExecTo(Enter(s, f, jb).s, f, |s.stack|, at).o.Running?
    ensures var r := ExecTo(Enter(s, f, jb).s, f, |s.stack|, at);
      Back(s, CroakBranch(r.o.s, f), r.exposed) <==> s.cur == NULL && s.stack == []
  {
    FreshEntry(s, f, jb);
    ToKeeps(s, f, 1, {}, Enter(s, f, jb).s, at);
    var r := ExecTo(Enter(s, f, jb).s, f, |s.stack|, at);
    assert {} + r.exposed == r.exposed;
    CroakExact(s, f, r.exposed, r.o.s);
  }

  /** A croak while a direct call is open does not come back to that call's level: the branch
      unwinds the innermost level and leaves by the fields of the one below, so that both are
      closed and only one is taken off the depth. */
  lemma {:induction false} CroakInDirect(s: State, f: Frame, k: nat, d: set<Loc>, t: State)
    requires AtEntry(s) && f != s.cur && k >= 2 && InBody(s, f, k, d, t)
    ensures var r := CroakBranch(t, f);
      InBody(s, f, k - 2, d, r.(depth := s.depth + (k - 2))) && r.depth == s.depth + (k - 2) + 1 && r.scope == t.scope
  {
    var b := Get(t.mem, HostsaveBase(f));
    var u := UnwindTo(t, b);
    assert u.stack == t.stack[..b] && u.mem == Unwind(t.stack, t.mem, b);
    assert Nest(f, s.cur, |s.stack|, k - 1, u.stack, u.mem);
    var b2 := Get(u.mem, HostsaveBase(f));
    var r := CroakBranch(t, f);
    assert r.stack == u.stack[..b2] && r.mem == Unwind(u.stack, u.mem, b2);
    UnwindTyped(t.stack, t.mem, b);
    UnwindTyped(u.stack, u.mem, b2);
    UnwindCompose(t.stack, t.mem, b, b2);
    assert u.stack[..b2] == t.stack[..b2];
    UnwindCompose(t.stack, t.mem, b2, |s.stack|);
    assert t.stack[..b2][..|s.stack|] == t.stack[..|s.stack|];
  }

  // ---- where a croak lands --------------------------------------------------------------

  /** The setjmp buffers of the levels a body leaves open, the last one innermost.  A return closes
      the innermost level there is. */
  function OpenBuffers(p: Prog): seq<int> {
    match p
    case Done => []
    case Then(op, rest) => BuffersOf(op) + OpenBuffers(rest)
  }

  function BuffersOf(op: Op): seq<int> {
    match op
    case Direct(jb, body, bare) => ([jb] + OpenBuffers(body))[..|OpenBuffers(body)| + if bare then 1 else 0]
    case Scope(body) => OpenBuffers(body)
    case _ => []
  }

  function BuffersTo(pt: Point): seq<int> {
    OpenBuffers(pt.p) + (if pt.Calling? then [pt.jb] else []) + if pt.Here? then [] else BuffersTo(pt.rest)
  }

  lemma {:induction false} AsManyBuffers(p: Prog)
    ensures |OpenBuffers(p)| == Open(p)
  {
    if p.Then? {
      AsManyBuffers(p.rest);
      if p.op.Direct? || p.op.Scope? {
        AsManyBuffers(p.op.body);
      }
    }
  }

  /** Each open level's buffer is in f's field once those above it are unwound. */
  ghost predicate Buffers(f: Frame, jbs: seq<int>, stack: seq<Saved>, mem: Mem)
    decreases |jbs|
  {
    jbs == [] ||
    var b := Get(mem, HostsaveBase(f));
    && 0 <= b <= |stack| && Get(mem, Jb(f)) == jbs[|jbs| - 1]
    && Buffers(f, jbs[..|jbs| - 1], stack[..b], Unwind(stack, mem, b))
  }

  lemma {:induction false} BuffersSame(f: Frame, jbs: seq<int>, stack: seq<Saved>, m1: Mem, m2: Mem, d: set<Loc>)
    requires Buffers(f, jbs, stack, m1) && Same(m1, m2, d) && OnlyUser(d)
    ensures Buffers(f, jbs, stack, m2)
    decreases |jbs|
  {
    if jbs != [] {
      var b := Get(m1, HostsaveBase(f));
      assert Get(m2, HostsaveBase(f)) == b && Get(m2, Jb(f)) == Get(m1, Jb(f));
      UnwindSame(stack, m1, m2, b, d);
      BuffersSame(f, jbs[..|jbs| - 1], stack[..b], Unwind(stack, m1, b), Unwind(stack, m2, b), d);
    }
  }

  lemma {:induction false} BuffersPushed(f: Frame, jbs: seq<int>, stack: seq<Saved>, mem: Mem, l: Loc, scope: int)
    requires jbs != [] && Buffers(f, jbs, stack, mem) && TypedMem(mem)
    ensures Buffers(f, jbs, stack + [SaveOf(mem, l, scope)], mem)
  {
    var more := stack + [SaveOf(mem, l, scope)];
    var b := Get(mem, HostsaveBase(f));
    assert more[..b] == stack[..b];
    UnwindPushed(stack, mem, l, scope, b);
    BuffersSame(f, jbs[..|jbs| - 1], stack[..b], Unwind(stack, mem, b), Unwind(more, mem, b), {});
  }

  lemma {:induction false} BuffersEntered(s: State, f: Frame, jbs: seq<int>, jb: int)
    requires TypedMem(s.mem) && TypedStack(s.stack) && Buffers(f, jbs, s.stack, s.mem) && Enter(s, f, jb).Running?
    ensures Buffers(f, jbs + [jb], Enter(s, f, jb).s.stack, Enter(s, f, jb).s.mem)
  {
    EnterUndone(s, f, jb);
    EnterShape(s, f, jb);
    var t := Enter(s, f, jb).s;
    assert (jbs + [jb])[..|jbs|] == jbs;
    BuffersSame(f, jbs, s.stack, s.mem, Unwind(t.stack, t.mem, |s.stack|), {});
  }

  /** Popping a scope's saves above the innermost level's base. */
  lemma {:induction false} BuffersPopped(f: Frame, jbs: seq<int>, stack: seq<Saved>, mem: Mem, n: nat)
    requires jbs != [] && Buffers(f, jbs, stack, mem) && n <= |stack| && Get(mem, HostsaveBase(f)) <= n
    requires FramesSame(Unwind(stack, mem, n), mem)
    ensures Buffers(f, jbs, stack[..n], Unwind(stack, mem, n))
  {
    var b := Get(mem, HostsaveBase(f));
    UnwindCompose(stack, mem, n, b);
    assert stack[..n][..b] == stack[..b];
    assert !HostsaveBase(f).User? && !Jb(f).User?;
  }

  lemma {:induction false} BuffersLeft(s: State, f: Frame, jbs: seq<int>)
    requires jbs != [] && Buffers(f, jbs, s.stack, s.mem)
    ensures Buffers(f, jbs[..|jbs| - 1], XsLeave(s, f).stack, XsLeave(s, f).mem)
  {
    assert Cut(s.stack, Get(s.mem, HostsaveBase(f))) == s.stack[..Get(s.mem, HostsaveBase(f))];
  }

  lemma {:induction false} ExecBuffers(s0: State, f: Frame, jbs: seq<int>, d: set<Loc>, s: State, p: Prog)
    requires Ready(s0, f, |jbs|, d, s) && Served(p, f) && Exec(s, f, |s0.stack|, p).o.Running?
    requires Buffers(f, jbs, s.stack, s.mem)
    ensures Buffers(f, jbs + OpenBuffers(p), Exec(s, f, |s0.stack|, p).o.s.stack, Exec(s, f, |s0.stack|, p).o.s.mem)
    decreases p, 0
  {
    hide ExecOp, InBody, Closed, WordsAbove, AtEntry, Buffers;
    match p
    case Done =>
      assert jbs + [] == jbs;
    case Then(op, rest) =>
      OpBuffers(s0, f, jbs, d, s, op);
      ExecOpKeeps(s0, f, |jbs|, d, s, op);
      var r := ExecOp(s, f, |s0.stack|, op);
      AsManyBuffers(Then(op, Done));
      assert BuffersOf(op) + [] == BuffersOf(op);
      ExecBuffers(s0, f, jbs + BuffersOf(op), d + r.exposed, r.o.s, rest);
      assert jbs + BuffersOf(op) + OpenBuffers(rest) == jbs + (BuffersOf(op) + OpenBuffers(rest));
  }

  lemma {:induction false} OpBuffers(s0: State, f: Frame, jbs: seq<int>, d: set<Loc>, s: State, op: Op)
    requires Ready(s0, f, |jbs|, d, s) && ServedOp(op, f) && ExecOp(s, f, |s0.stack|, op).o.Running?
    requires Buffers(f, jbs, s.stack, s.mem)
    ensures Buffers(f, jbs + BuffersOf(op), ExecOp(s, f, |s0.stack|, op).o.s.stack, ExecOp(s, f, |s0.stack|, op).o.s.mem)
    decreases op, 0
  {
    hide Exec, Enter, XsLeave, Nest, Unwind, LeaveScope, Buffers;
    assert jbs + [] == jbs;
    match op
    case SaveCell(c) =>
      BuffersPushed(f, jbs, s.stack, s.mem, User(c), s.scope);
    case Write(c, v) =>
      BuffersSame(f, jbs, s.stack, s.mem, s.mem[User(c) := Stored(User(c), v)], {User(c)});
    case Direct(jb, body, bare) =>
      DirectBuffers(s0, f, jbs, d, s, jb, body, bare);
    case GuestCall(g, jb, body, bare) =>
      DispatchRestores(s, g, jb, body, bare);
      var r := Dispatch(s, g, jb, body, bare);
      BuffersSame(f, jbs, s.stack, s.mem, r.o.s.mem, r.exposed);
    case Scope(body) =>
      ScopeBuffers(s0, f, jbs, d, s, body);
  }

  lemma {:induction false} DirectBuffers(s0: State, f: Frame, jbs: seq<int>, d: set<Loc>, s: State, jb: int, body: Prog, bare: bool)
    requires Ready(s0, f, |jbs|, d, s) && Served(body, f) && Buffers(f, jbs, s.stack, s.mem)
    requires Enter(s, f, jb).Running? && Exec(Enter(s, f, jb).s, f, |s0.stack|, body).o.Running?
    ensures var r := ExecOp(s, f, |s0.stack|, Direct(jb, body, bare));
      Buffers(f, jbs + BuffersOf(Direct(jb, body, bare)), r.o.s.stack, r.o.s.mem)
    decreases body, 1
  {
    hide Exec, Enter, XsLeave, Nest, Unwind, Buffers;
    EnterKeeps(s0, f, |jbs|, d, s, jb);
    BuffersEntered(s, f, jbs, jb);
    var t := Enter(s, f, jb).s;
    ExecBuffers(s0, f, jbs + [jb], d, t, body);
    var u := Exec(t, f, |s0.stack|, body).o.s;
    var all := jbs + [jb] + OpenBuffers(body);
    assert all == jbs + ([jb] + OpenBuffers(body)) && all[..|all| - 1] == jbs + ([jb] + OpenBuffers(body))[..|OpenBuffers(body)|];
    if bare {
      assert ([jb] + OpenBuffers(body))[..|OpenBuffers(body)| + 1] == [jb] + OpenBuffers(body);
    } else {
      BuffersLeft(u, f, all);
    }
  }

  lemma {:induction false} ScopeBuffers(s0: State, f: Frame, jbs: seq<int>, d: set<Loc>, s: State, body: Prog)
    requires Ready(s0, f, |jbs|, d, s) && ServedOp(Scope(body), f) && Buffers(f, jbs, s.stack, s.mem)
    requires ExecOp(s, f, |s0.stack|, Scope(body)).o.Running?
    ensures var r := ExecOp(s, f, |s0.stack|, Scope(body)); Buffers(f, jbs + OpenBuffers(body), r.o.s.stack, r.o.s.mem)
    decreases body, 1
  {
    hide Exec, Buffers, Nest;
    var t := s.(scope := s.scope + 1);
    ExecKeeps(s0, f, |jbs|, d, t, body);
    ExecBuffers(s0, f, jbs, d, t, body);
    AsManyBuffers(body);
    assert jbs + OpenBuffers(body) == jbs;
    BuffersAtLeave(s0, f, jbs, d, s, Exec(t, f, |s0.stack|, body));
  }

  lemma {:induction false} BuffersAtLeave(s0: State, f: Frame, jbs: seq<int>, d: set<Loc>, s: State, r: Run)
    requires Ready(s0, f, |jbs|, d, s) && Ran(s0, f, |jbs|, d, s.(scope := s.scope + 1), r, 0, true)
    requires Buffers(f, jbs, r.o.s.stack, r.o.s.mem)
    ensures Buffers(f, jbs, LeaveScope(r.o.s).stack, LeaveScope(r.o.s).mem)
  {
    hide Buffers;
    var u := r.o.s;
    var n := |s.stack|;
    forall i | 0 <= i < n ensures u.stack[i].scope <= s.scope {
      assert u.stack[i] == u.stack[..n][i] == s.stack[i];
    }
    LeavePopsScope(u.stack, u.mem, n, u.scope);
    UnwindUserSaves(u.stack, u.mem, n);
    assert Get(u.mem, HostsaveBase(f)) == Get(s.mem, HostsaveBase(f));
    BuffersPopped(f, jbs, u.stack, u.mem, n);
  }

  lemma {:induction false} BuffersAt(s0: State, f: Frame, jbs: seq<int>, d: set<Loc>, s: State, pt: Point)
    requires Ready(s0, f, |jbs|, d, s) && ServedTo(pt, f) && ExecTo(s, f, |s0.stack|, pt).o.Running?
    requires Buffers(f, jbs, s.stack, s.mem)
    ensures var t := ExecTo(s, f, |s0.stack|, pt).o.s; Buffers(f, jbs + BuffersTo(pt), t.stack, t.mem)
    decreases pt
  {
    hide Exec, Served, AtEntry, Enter, Nest, Unwind, Buffers;
    ExecKeeps(s0, f, |jbs|, d, s, pt.p);
    ExecBuffers(s0, f, jbs, d, s, pt.p);
    AsManyBuffers(pt.p);
    var r := Exec(s, f, |s0.stack|, pt.p);
    var open := jbs + OpenBuffers(pt.p);
    match pt
    case Here(_) =>
      assert jbs + (OpenBuffers(pt.p) + [] + []) == open;
    case Inside(_, rest) =>
      BuffersAt(s0, f, open, d + r.exposed, r.o.s.(scope := r.o.s.scope + 1), rest);
      assert jbs + (OpenBuffers(pt.p) + [] + BuffersTo(rest)) == open + BuffersTo(rest);
    case Calling(_, jb, rest) =>
      EnterKeeps(s0, f, |open|, d + r.exposed, r.o.s, jb);
      BuffersEntered(r.o.s, f, open, jb);
      BuffersAt(s0, f, open + [jb], d + r.exposed, Enter(r.o.s, f, jb).s, rest);
      assert jbs + (OpenBuffers(pt.p) + [jb] + BuffersTo(rest)) == open + [jb] + BuffersTo(rest);
  }

  /** At every point of a served run a croak jumps to the buffer of the level opened last and not
      closed: the dispatch's own while no direct call is open. */
  lemma {:induction false} CroakLands(s: State, f: Frame, jb: int, at: Point)
    requires AtEntry(s) && f != s.cur && ServedTo(at, f) && Enter(s, f, jb).Running?
    requires ExecTo(Enter(s, f, jb).s, f, |s.stack|, at).o.Running?
    ensures var open := [jb] + BuffersTo(at);
      && Get(ExecTo(Enter(s, f, jb).s, f, |s.stack|, at).o.s.mem, Jb(f)) == open[|open| - 1]
      && |open| == 1 + OpenTo(at)
  {
    hide Exec, ExecTo, Served, AtEntry, Enter, Nest, Unwind;
    FreshEntry(s, f, jb);
    assert Buffers(f, [], s.stack, s.mem);
    EntryTyped(s);
    BuffersEntered(s, f, [], jb);
    assert [] + [jb] == [jb];
    BuffersAt(s, f, [jb], {}, Enter(s, f, jb).s, at);
    AsManyTo(at);
  }

  /** And at every such point the 32-bit locations, a frame's hostsave_base and a module's int32
      cells, and no others, are saved as four bytes. */
  lemma {:induction false} SavedWidths(s: State, f: Frame, jb: int, at: Point, i: nat)
    requires AtEntry(s) && f != s.cur && ServedTo(at, f) && Enter(s, f, jb).Running?
    requires ExecTo(Enter(s, f, jb).s, f, |s.stack|, at).o.Running?
    requires i < |ExecTo(Enter(s, f, jb).s, f, |s.stack|, at).o.s.stack|
    ensures var e := ExecTo(Enter(s, f, jb).s, f, |s.stack|, at).o.s.stack[i];
      e.width == 4 <==> e.loc.HostsaveBase? || (e.loc.User? && e.loc.c.Int32?)
  {
    FreshEntry(s, f, jb);
    ToKeeps(s, f, 1, {}, Enter(s, f, jb).s, at);
  }

  lemma {:induction false} EntryTyped(s: State)
    requires AtEntry(s)
    ensures TypedMem(s.mem) && TypedStack(s.stack)
  {
  }

  lemma {:induction false} AsManyTo(pt: Point)
    ensures |BuffersTo(pt)| == OpenTo(pt)
  {
    AsManyBuffers(pt.p);
    if !pt.Here? {
      AsManyTo(pt.rest);
    }
  }

  /** The same for a croak at a point with direct calls open. */
  lemma {:induction false} CroakInDirectCall(s: State, f: Frame, jb: int, at: Point)
    requires AtEntry(s) && f != s.cur && ServedTo(at, f) && OpenTo(at) > 0 && Enter(s, f, jb).Running?
    requires ExecTo(Enter(s, f, jb).s, f, |s.stack|, at).o.Running?
    ensures var t := ExecTo(Enter(s, f, jb).s, f, |s.stack|, at);
      var r := CroakBranch(t.o.s, f);
      && InBody(s, f, OpenTo(at) - 1, t.exposed, r.(depth := s.depth + OpenTo(at) - 1)) && r.depth == s.depth + OpenTo(at)
      && !Back(s, r, t.exposed)
  {
    FreshEntry(s, f, jb);
    ToKeeps(s, f, 1, {}, Enter(s, f, jb).s, at);
    var t := ExecTo(Enter(s, f, jb).s, f, |s.stack|, at);
    assert {} + t.exposed == t.exposed;
    CroakInDirect(s, f, 1 + OpenTo(at), t.exposed, t.o.s);
  }

  /** One turn of the epilogue's loop. */
  lemma {:induction false} LeaveStep(s0: State, f: Frame, k: nat, d: set<Loc>, s: State)
    requires InBody(s0, f, k, d, s) && AtEntry(s0) && f != s0.cur && s.scope == s0.scope && s.cur == f
    ensures k > 0 && Get(s.mem, HostsaveBase(f)) >= 0
    ensures InBody(s0, f, k - 1, d, XsLeave(s, f)) && XsLeave(s, f).scope == s0.scope
  {
    LeaveKeeps(s0, f, k, d, s);
  }

  // ---- the runtime --------------------------------------------------------------------

  /** The shared block's activation fields and the save-stack array they index. */
  class XsRuntime {
    var cur: Frame
    var depth: int
    var scope: int
    var hostsaveN: nat
    const hostsave: array<Saved>
    var mem: Mem

    ghost predicate Valid()
      reads this
    {
      hostsave.Length == HOSTSAVE_MAX && hostsaveN <= HOSTSAVE_MAX
    }

    ghost function Abs(): State
      requires Valid()
      reads this, hostsave
    {
      State(cur, depth, scope, hostsave[..hostsaveN], mem)
    }

    constructor ()
      ensures Valid() && fresh(hostsave) && Abs() == State(NULL, 0, 0, [], map[])
    {
      hostsave := new Saved[HOSTSAVE_MAX](_ => Saved(Jb(NULL), 0, 0, 0));
      cur, depth, scope, hostsaveN, mem := NULL, 0, 0, 0, map[];
    }

    /** goperl_hostsave_ptr and goperl_hostsave_i32, by the width of l; ok is false for a croak. */
    method Hostsave(l: Loc) returns (ok: bool)
      requires Valid()
      modifies this`hostsaveN, hostsave
      ensures Valid() && ok == Save(old(Abs()), l).Running? && Abs() == Save(old(Abs()), l).s
    {
      if hostsaveN >= HOSTSAVE_MAX {
        return false;
      }
      hostsave[hostsaveN] := Saved(l, Get(mem, l), scope, if Is32(l) then 4 else 0);
      hostsaveN := hostsaveN + 1;
      assert hostsave[..hostsaveN] == old(hostsave[..hostsaveN]) + [SaveOf(mem, l, scope)];
      return true;
    }

    method HostsaveUnwindTo(base: nat)
      requires Valid()
      modifies this`hostsaveN, this`mem
      ensures Valid() && Abs() == UnwindTo(old(Abs()), base)
    {
      ghost var start := Abs();
      while hostsaveN > base
        invariant Valid() && cur == start.cur && depth == start.depth && scope == start.scope
        invariant hostsaveN <= |start.stack| && hostsave[..hostsaveN] == start.stack[..hostsaveN]
        invariant hostsaveN < |start.stack| ==> hostsaveN >= base
        invariant Unwind(hostsave[..hostsaveN], mem, base) == Unwind(start.stack, start.mem, base)
        decreases hostsaveN
      {
        ghost var stack := hostsave[..hostsaveN];
        hostsaveN := hostsaveN - 1;
        var e := hostsave[hostsaveN];
        assert hostsave[..hostsaveN] == stack[..hostsaveN];
        if e.width == 4 {
          mem := mem[e.loc := ToI32(e.val)];
        } else {
          mem := mem[e.loc := e.val];
        }
      }
    }

    method Leave(f: Frame)
      requires Valid() && Get(mem, HostsaveBase(f)) >= 0
      modifies this
      ensures Valid() && Abs() == XsLeave(old(Abs()), f)
    {
      var leavePrev := Get(mem, PrevFrame(f));
      HostsaveUnwindTo(Get(mem, HostsaveBase(f)));
      depth := depth - 1;
      if depth <= 0 {
        depth := 0;
        scope := 0;
      }
      cur := leavePrev;
    }

    /** dXSARGS up to its setjmp; ok is false when one of the three saves croaks. */
    method DXsArgs(f: Frame, jb: int) returns (ok: bool)
      requires Valid()
      modifies this, hostsave
      ensures Valid() && ok == Enter(old(Abs()), f, jb).Running? && Abs() == Enter(old(Abs()), f, jb).s
    {
      var prevCur := cur;
      cur := f;
      var entryBase := hostsaveN;
      ok := Hostsave(HostsaveBase(f));
      if !ok { return; }
      ok := Hostsave(PrevFrame(f));
      if !ok { return; }
      ok := Hostsave(Jb(f));
      if !ok { return; }
      mem := mem[PrevFrame(f) := if f == prevCur then f else prevCur];
      depth := depth + 1;
      mem := mem[HostsaveBase(f) := ToI32(entryBase)];
      mem := mem[Jb(f) := jb];
    }

    /** The branch a longjmp to f's setjmp takes. */
    method CroakReturn(f: Frame)
      requires Valid() && 0 <= Get(mem, HostsaveBase(f))
      requires 0 <= Get(Unwind(Abs().stack, mem, Get(mem, HostsaveBase(f))), HostsaveBase(f))
      modifies this
      ensures Valid() && Abs() == CroakBranch(old(Abs()), f)
    {
      HostsaveUnwindTo(Get(mem, HostsaveBase(f)));
      Leave(f);
    }

    /** __goperl_xs_epilogue, in the states a dispatch can return in: k levels of f open. */
    method XsEpilogue(f: Frame, ghost s0: State, ghost k: nat, ghost d: set<Loc>) returns (n: nat)
      requires Valid() && InBody(s0, f, k, d, Abs()) && AtEntry(s0) && f != s0.cur && scope == s0.scope
      modifies this
      ensures Valid() && (Abs(), n) == Epilogue(old(Abs()), f, 0)
    {
      hide InBody, AtEntry, XsLeave;
      n := 0;
      ghost var j := k;
      while cur == f && depth > 0 && n < EPILOGUE_MAX
        invariant Valid() && n <= EPILOGUE_MAX && InBody(s0, f, j, d, Abs()) && scope == s0.scope
        invariant Epilogue(Abs(), f, n) == Epilogue(old(Abs()), f, 0)
        decreases EPILOGUE_MAX - n
      {
        LeaveStep(s0, f, j, d, Abs());
        var prev := Get(mem, PrevFrame(f));
        Leave(f);
        j := j - 1;
        n := n + 1;
        if prev != f {
          break;
        }
      }
    }

    /** ENTER's host half. */
    method EnterScope()
      modifies this`scope
      ensures scope == old(scope) + 1
    {
      scope := scope + 1;
    }

    /** goperl_leave's host half. */
    method LeaveHostScope()
      requires Valid()
      modifies this`scope, this`hostsaveN, this`mem
      ensures Valid() && Abs() == LeaveScope(old(Abs()))
    {
      ghost var start := Abs();
      while hostsaveN > 0 && hostsave[hostsaveN - 1].scope >= scope
        invariant Valid() && cur == start.cur && depth == start.depth && scope == start.scope
        invariant LeavePops(hostsave[..hostsaveN], mem, scope) == LeavePops(start.stack, start.mem, scope)
      {
        ghost var stack := hostsave[..hostsaveN];
        hostsaveN := hostsaveN - 1;
        var e := hostsave[hostsaveN];
        assert hostsave[..hostsaveN] == stack[..hostsaveN] && e == stack[|stack| - 1];
        mem := mem[e.loc := e.val];
      }
      scope := scope - 1;
    }
  }
}
