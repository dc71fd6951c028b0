/** The registry of host shadows of guest ops: 1024 bucket lists in the C heap, deduplicated by
    op token, and a side list of long-lived shadows that survive the registry's clearing. */
module OpShadows {

  import opened CHeap
  import opened Options

  const BUCKETS := 1024

  // A guest op token; 0 is no op.
  type Tok = nat

  function Bucket(tok: Tok): (h: nat)
    ensures h < BUCKETS
  {
    tok / 8 % BUCKETS
  }

  // ---- what the registry means --------------------------------------------------------

  /** Linked shadows and long-lived entries by token, and the token of every live shadow. */
  datatype Registry = Registry(linked: map<Tok, Addr>, kept: map<Tok, Addr>, toks: map<Addr, Tok>)

  ghost predicate Sound(r: Registry) {
    && (forall t :: t in r.linked ==> t != 0 && r.linked[t] in r.toks && r.toks[r.linked[t]] == t)
    && (forall t :: t in r.kept ==> t != 0 && r.kept[t] in r.toks && r.toks[r.kept[t]] == t)
    && 0 !in r.toks
  }

  /** goperl_op_shadow(tok): from r to r2 with result p.  hooked is the guest's answer when a
      long-lived entry is checked. */
  ghost predicate ShadowStep(r: Registry, tok: Tok, hooked: bool, r2: Registry, p: Addr) {
    if tok == 0 then r2 == r && p == 0
    else if tok in r.linked then r2 == r && p == r.linked[tok]
    else if tok in r.kept && hooked then r2 == r.(linked := r.linked[tok := p]) && p == r.kept[tok]
    else p != 0 && p !in r.toks && r2 == Registry(r.linked[tok := p], r.kept - {tok}, r.toks[p := tok])
  }

  /** goperl_perop_pp_register on the shadow p of tok; done is false when the list's entry cannot be
      allocated. */
  ghost predicate KeepStep(r: Registry, tok: Tok, done: bool, r2: Registry, p: Addr) {
    && p in r.toks && tok == r.toks[p] != 0
    && r2 == if done then r.(kept := r.kept[tok := p]) else r
  }

  /** NewOpSz: a shadow for a new guest op, which may have the token of one freed since. */
  ghost predicate NewOpStep(r: Registry, tok: Tok, r2: Registry, p: Addr) {
    && tok != 0 && p != 0 && p !in r.toks
    && r2 == r.(linked := r.linked[tok := p], toks := r.toks[p := tok])
  }

  /** Croak: goperl_op_shadow out of memory, a stale long-lived entry dropped. */
  datatype Request = Shadow(tok: Tok, hooked: bool) | Keep(tok: Tok, done: bool) | NewOp(tok: Tok) | Croak(tok: Tok)

  ghost predicate Step(r: Registry, q: Request, r2: Registry, p: Addr) {
    match q
    case Shadow(tok, hooked) => ShadowStep(r, tok, hooked, r2, p)
    case Keep(tok, done) => KeepStep(r, tok, done, r2, p)
    case NewOp(tok) => NewOpStep(r, tok, r2, p)
    case Croak(tok) => r2 == r.(kept := r.kept - {tok})
  }

  /** A stretch of one outermost activation: registry states, requests and their results. */
  ghost predicate Activation(rs: seq<Registry>, qs: seq<Request>, ps: seq<Addr>) {
    && |rs| == |qs| + 1 && |ps| == |qs| && Sound(rs[0])
    && forall i :: 0 <= i < |qs| ==> Step(rs[i], qs[i], rs[i + 1], ps[i])
  }

  lemma {:induction false} ActivationMore(rs: seq<Registry>, qs: seq<Request>, ps: seq<Addr>, q: Request, r: Registry, p: Addr)
    requires Activation(rs, qs, ps) && Step(rs[|qs|], q, r, p)
    ensures Activation(rs + [r], qs + [q], ps + [p]) && |rs| == |qs| + 1
  {
    hide Sound, Step;
    var rs2, qs2, ps2 := rs + [r], qs + [q], ps + [p];
    forall i | 0 <= i < |qs2| ensures Step(rs2[i], qs2[i], rs2[i + 1], ps2[i]) {
      if i < |qs| {
        assert Step(rs[i], qs[i], rs[i + 1], ps[i]);
        assert rs2[i] == rs[i] && rs2[i + 1] == rs[i + 1] && qs2[i] == qs[i] && ps2[i] == ps[i];
      }
    }
  }

  /** A request unlinks nothing, and only a new op under its own token takes a linked shadow's
      place. */
  lemma {:induction false} StepSound(r: Registry, q: Request, r2: Registry, p: Addr)
    requires Sound(r) && Step(r, q, r2, p)
    ensures Sound(r2)
    ensures forall t :: t in r.linked && q != NewOp(t) ==> t in r2.linked && r2.linked[t] == r.linked[t]
    ensures forall a :: a in r.toks ==> a in r2.toks && r2.toks[a] == r.toks[a]
  {
  }

  lemma {:induction false} ActivationGrows(rs: seq<Registry>, qs: seq<Request>, ps: seq<Addr>, i: nat, j: nat)
    requires Activation(rs, qs, ps) && i <= j <= |qs|
    ensures Sound(rs[j]) && forall a :: a in rs[i].toks ==> a in rs[j].toks && rs[j].toks[a] == rs[i].toks[a]
    decreases j
  {
    hide Sound, Step;
    if j > 0 {
      ActivationGrows(rs, qs, ps, if i < j then i else j - 1, j - 1);
      StepSound(rs[j - 1], qs[j - 1], rs[j], ps[j - 1]);
    }
  }

  predicate Hands(q: Request) {
    (q.Shadow? || q.NewOp?) && q.tok != 0
  }

  /** No new op got the token in the requests from i on, before j. */
  predicate NotReused(qs: seq<Request>, tok: Tok, i: nat, j: nat) {
    forall m :: i <= m < j && m < |qs| ==> qs[m] != NewOp(tok)
  }

  /** A handed pointer stays its token's until a new op gets the token. */
  lemma {:induction false} HandsLinked(rs: seq<Registry>, qs: seq<Request>, ps: seq<Addr>, i: nat, n: nat)
    requires Activation(rs, qs, ps) && i < n <= |qs| && Hands(qs[i]) && NotReused(qs, qs[i].tok, i + 1, n)
    ensures Sound(rs[n]) && qs[i].tok in rs[n].linked && rs[n].linked[qs[i].tok] == ps[i]
    decreases n
  {
    ActivationGrows(rs, qs, ps, 0, n - 1);
    assert Step(rs[n - 1], qs[n - 1], rs[n], ps[n - 1]);
    StepSound(rs[n - 1], qs[n - 1], rs[n], ps[n - 1]);
    if n - 1 > i {
      hide Step, Sound;
      HandsLinked(rs, qs, ps, i, n - 1);
    }
  }

  lemma {:induction false} SamePointer(rs: seq<Registry>, qs: seq<Request>, ps: seq<Addr>, i: nat, j: nat)
    requires Activation(rs, qs, ps) && i < j < |qs| && Hands(qs[i]) && Hands(qs[j]) && qs[i].tok == qs[j].tok
    requires NotReused(qs, qs[i].tok, i + 1, j + 1)
    ensures ps[i] == ps[j]
  {
    HandsLinked(rs, qs, ps, i, j);
    assert Step(rs[j], qs[j], rs[j + 1], ps[j]);
  }

  lemma {:induction false} LastReuse(qs: seq<Request>, tok: Tok, i: nat, j: nat) returns (m: nat)
    requires j < |qs| && !NotReused(qs, tok, i, j + 1)
    ensures i <= m <= j && qs[m] == NewOp(tok) && NotReused(qs, tok, m + 1, j + 1)
    decreases j
  {
    if qs[j] == NewOp(tok) {
      m := j;
    } else {
      m := LastReuse(qs, tok, i, j - 1);
    }
  }

  /** Within one outermost activation two requests hand out the same pointer exactly when they name
      the same token and no new op has got that token between them. */
  lemma {:induction false} IdentityExact(rs: seq<Registry>, qs: seq<Request>, ps: seq<Addr>, i: nat, j: nat)
    requires Activation(rs, qs, ps) && i <= j < |qs| && Hands(qs[i]) && Hands(qs[j])
    ensures ps[i] == ps[j] <==> qs[i].tok == qs[j].tok && NotReused(qs, qs[i].tok, i + 1, j + 1)
  {
    hide Sound, Step;
    HandsIn(rs, qs, ps, i);
    HandsIn(rs, qs, ps, j);
    ActivationGrows(rs, qs, ps, i + 1, j + 1);
    if i < j && qs[i].tok == qs[j].tok {
      if NotReused(qs, qs[i].tok, i + 1, j + 1) {
        SamePointer(rs, qs, ps, i, j);
      } else {
        var m := LastReuse(qs, qs[i].tok, i + 1, j);
        ActivationGrows(rs, qs, ps, i + 1, m);
        NewIsNew(rs[m], qs[m].tok, rs[m + 1], ps[m]);
        if m < j {
          SamePointer(rs, qs, ps, m, j);
        }
      }
    }
  }

  /** A handed pointer is a live shadow of its token. */
  lemma {:induction false} HandsIn(rs: seq<Registry>, qs: seq<Request>, ps: seq<Addr>, i: nat)
    requires Activation(rs, qs, ps) && i < |qs| && Hands(qs[i])
    ensures ps[i] in rs[i + 1].toks && rs[i + 1].toks[ps[i]] == qs[i].tok
  {
    ActivationGrows(rs, qs, ps, 0, i);
    assert Step(rs[i], qs[i], rs[i + 1], ps[i]);
  }

  lemma {:induction false} NewIsNew(r: Registry, tok: Tok, r2: Registry, p: Addr)
    requires Step(r, NewOp(tok), r2, p)
    ensures p !in r.toks
  {
  }

  /** No op is created under a token already handed out: the guest frees none of those ops. */
  predicate NoneRecycled(qs: seq<Request>) {
    forall i, m :: 0 <= i < m < |qs| && Hands(qs[i]) ==> qs[m] != NewOp(qs[i].tok)
  }

  /** Then pointer identity is token identity. */
  lemma {:induction false} IdentityHolds(rs: seq<Registry>, qs: seq<Request>, ps: seq<Addr>, i: nat, j: nat)
    requires Activation(rs, qs, ps) && NoneRecycled(qs) && i < |qs| && j < |qs| && Hands(qs[i]) && Hands(qs[j])
    ensures ps[i] == ps[j] <==> qs[i].tok == qs[j].tok
  {
    hide Activation;
    IdentityExact(rs, qs, ps, if i <= j then i else j, if i <= j then j else i);
  }

  // ---- whole histories ------------------------------------------------------------------

  /** goperl_opreg_clear: nothing stays linked, and long-lived shadows stay as they are. */
  ghost predicate ClearStep(r: Registry, r2: Registry) {
    && r2.linked == map[] && r2.kept == r.kept && Sound(r2)
    && forall a :: a in r2.toks ==> a in r.toks && r2.toks[a] == r.toks[a]
  }

  /** A request, or the end of an outermost activation. */
  datatype Move = Ask(q: Request) | Clear

  ghost predicate MoveStep(r: Registry, m: Move, r2: Registry, p: Addr) {
    match m
    case Ask(q) => Step(r, q, r2, p)
    case Clear => ClearStep(r, r2)
  }

  /** Everything since the registry was new: its states, what was asked of it and the results. */
  ghost predicate History(rs: seq<Registry>, ms: seq<Move>, ps: seq<Addr>) {
    && |rs| == |ms| + 1 && |ps| == |ms| && rs[0] == Registry(map[], map[], map[])
    && forall i :: 0 <= i < |ms| ==> MoveStep(rs[i], ms[i], rs[i + 1], ps[i])
  }

  lemma {:induction false} HistoryMore(rs: seq<Registry>, ms: seq<Move>, ps: seq<Addr>, m: Move, r: Registry, p: Addr)
    requires History(rs, ms, ps) && MoveStep(rs[|ms|], m, r, p)
    ensures History(rs + [r], ms + [m], ps + [p]) && |rs| == |ms| + 1
  {
    hide MoveStep;
    var rs2, ms2, ps2 := rs + [r], ms + [m], ps + [p];
    forall i | 0 <= i < |ms2| ensures MoveStep(rs2[i], ms2[i], rs2[i + 1], ps2[i]) {
      if i < |ms| {
        assert MoveStep(rs[i], ms[i], rs[i + 1], ps[i]);
        assert rs2[i] == rs[i] && rs2[i + 1] == rs[i + 1] && ms2[i] == ms[i] && ps2[i] == ps[i];
      }
    }
  }

  lemma {:induction false} HistorySound(rs: seq<Registry>, ms: seq<Move>, ps: seq<Addr>, i: nat)
    requires History(rs, ms, ps) && i <= |ms|
    ensures Sound(rs[i])
  {
    if i > 0 {
      hide Sound, Step;
      HistorySound(rs, ms, ps, i - 1);
      assert MoveStep(rs[i - 1], ms[i - 1], rs[i], ps[i - 1]);
      if ms[i - 1].Ask? {
        StepSound(rs[i - 1], ms[i - 1].q, rs[i], ps[i - 1]);
      }
    } else {
      assert Sound(rs[0]);
    }
  }

  /** A shadow of tok has been handed out since the last clearing. */
  predicate Out(ms: seq<Move>, tok: Tok) {
    ms != [] &&
    var m := ms[|ms| - 1];
    m.Ask? && ((Hands(m.q) && m.q.tok == tok) || Out(ms[..|ms| - 1], tok))
  }

  lemma {:induction false} LinkedIsOut(rs: seq<Registry>, ms: seq<Move>, ps: seq<Addr>, tok: Tok, i: nat)
    requires History(rs, ms, ps) && i <= |ms| && tok != 0
    ensures tok in rs[i].linked <==> Out(ms[..i], tok)
  {
    if i > 0 {
      LinkedIsOut(rs, ms, ps, tok, i - 1);
      assert ms[..i][..i - 1] == ms[..i - 1];
      assert MoveStep(rs[i - 1], ms[i - 1], rs[i], ps[i - 1]);
    }
  }

  /** Move i ends what kept tok's long-lived shadow p: the guest denies that it still runs it, or
      another one is registered. */
  predicate Drops(ms: seq<Move>, ps: seq<Addr>, tok: Tok, p: Addr, i: nat)
    requires i < |ms| == |ps|
  {
    || (ms[i] == Ask(Shadow(tok, false)) && !Out(ms[..i], tok)) || ms[i] == Ask(Croak(tok))
    || (ms[i] == Ask(Keep(tok, true)) && ps[i] != p)
  }

  /** p was registered for tok at i, and nothing before j has ended that. */
  predicate LongLived(ms: seq<Move>, ps: seq<Addr>, tok: Tok, p: Addr, i: nat, j: nat)
    requires |ms| == |ps|
  {
    && i < j <= |ms| && tok != 0 && ms[i] == Ask(Keep(tok, true)) && ps[i] == p
    && forall n :: i < n < j ==> !Drops(ms, ps, tok, p, n)
  }

  lemma {:induction false} StaysKept(rs: seq<Registry>, ms: seq<Move>, ps: seq<Addr>, tok: Tok, p: Addr, i: nat, j: nat)
    requires History(rs, ms, ps) && LongLived(ms, ps, tok, p, i, j)
    ensures tok in rs[j].kept && rs[j].kept[tok] == p
    decreases j
  {
    assert MoveStep(rs[j - 1], ms[j - 1], rs[j], ps[j - 1]);
    if j - 1 > i {
      StaysKept(rs, ms, ps, tok, p, i, j - 1);
      assert !Drops(ms, ps, tok, p, j - 1);
      LinkedIsOut(rs, ms, ps, tok, j - 1);
    }
  }

  /** A registered shadow is what a later activation is given for its token, after any number of
      clearings, when the guest confirms it; when the guest denies it, the shadow given is another. */
  lemma {:induction false} LongLivedReturns(rs: seq<Registry>, ms: seq<Move>, ps: seq<Addr>, tok: Tok, p: Addr, hooked: bool, i: nat, j: nat)
    requires History(rs, ms, ps) && j < |ms| && LongLived(ms, ps, tok, p, i, j)
    requires ms[j] == Ask(Shadow(tok, hooked)) && !Out(ms[..j], tok)
    ensures ps[j] == p <==> hooked
  {
    StaysKept(rs, ms, ps, tok, p, i, j);
    LinkedIsOut(rs, ms, ps, tok, j);
    HistorySound(rs, ms, ps, j);
    assert MoveStep(rs[j], ms[j], rs[j + 1], ps[j]);
  }

  /** p was handed out for tok at h, and neither a clearing nor a new op has come before i. */
  predicate StillOut(ms: seq<Move>, ps: seq<Addr>, tok: Tok, p: Addr, h: nat, i: nat)
    requires |ms| == |ps|
  {
    && h < i <= |ms| && ms[h].Ask? && Hands(ms[h].q) && ms[h].q.tok == tok && ps[h] == p
    && forall n :: h < n < i ==> ms[n] != Clear && ms[n] != Ask(NewOp(tok))
  }

  lemma {:induction false} StillLinked(rs: seq<Registry>, ms: seq<Move>, ps: seq<Addr>, tok: Tok, p: Addr, h: nat, i: nat)
    requires History(rs, ms, ps) && StillOut(ms, ps, tok, p, h, i)
    ensures tok in rs[i].linked && rs[i].linked[tok] == p
    decreases i
  {
    assert MoveStep(rs[i - 1], ms[i - 1], rs[i], ps[i - 1]);
    if i - 1 > h {
      StillLinked(rs, ms, ps, tok, p, h, i - 1);
    }
  }

  /** So a registered shadow is handed out for its token after any clearings and requests, as long
      as the guest confirms it whenever it is asked, no other is registered and no new op gets the
      token: if a clearing came between, or the shadow was out when it was registered. */
  lemma {:induction false} StateSurvives(rs: seq<Registry>, ms: seq<Move>, ps: seq<Addr>, tok: Tok, p: Addr, i: nat, j: nat)
    requires History(rs, ms, ps) && j < |ms| && LongLived(ms, ps, tok, p, i, j) && ms[j] == Ask(Shadow(tok, true))
    requires forall n :: i < n < j ==> ms[n] != Ask(NewOp(tok))
    requires !Out(ms[..i], tok) || (exists n :: i < n < j && ms[n] == Clear) || exists h: nat :: StillOut(ms, ps, tok, p, h, i)
    ensures ps[j] == p
  {
    LinkedIsOut(rs, ms, ps, tok, i);
    if h: nat :| StillOut(ms, ps, tok, p, h, i) {
      StillLinked(rs, ms, ps, tok, p, h, i);
    }
    assert MoveStep(rs[i], ms[i], rs[i + 1], ps[i]);
    OutIsKept(rs, ms, ps, tok, p, i, j);
    StaysKept(rs, ms, ps, tok, p, i, j);
    HistorySound(rs, ms, ps, j);
    assert MoveStep(rs[j], ms[j], rs[j + 1], ps[j]);
  }

  /** While p is long-lived for tok, what is linked for tok since is p. */
  lemma {:induction false} OutIsKept(rs: seq<Registry>, ms: seq<Move>, ps: seq<Addr>, tok: Tok, p: Addr, i: nat, j: nat)
    requires History(rs, ms, ps) && LongLived(ms, ps, tok, p, i, j)
    requires forall n :: i < n < j ==> ms[n] != Ask(NewOp(tok))
    ensures tok in rs[j].linked ==>
      rs[j].linked[tok] == p || (tok in rs[i].linked && rs[j].linked[tok] == rs[i].linked[tok] && forall n :: i < n < j ==> ms[n] != Clear)
    decreases j
  {
    assert MoveStep(rs[j - 1], ms[j - 1], rs[j], ps[j - 1]);
    if j - 1 > i {
      OutIsKept(rs, ms, ps, tok, p, i, j - 1);
      StaysKept(rs, ms, ps, tok, p, i, j - 1);
      assert !Drops(ms, ps, tok, p, j - 1);
      LinkedIsOut(rs, ms, ps, tok, j - 1);
    }
  }

  // ---- the lists in the heap ----------------------------------------------------------

  /** A goperl_opreg_ent_t: its link, its persist flag and its op's token. */
  datatype Node = Node(next: Addr, persist: bool, tok: Tok)

  datatype Kept = Kept(tok: Tok, op: Addr)

  /** The nodes from head on are exactly list, ending in null: no cycle is possible. */
  ghost predicate Chain(heap: map<Addr, Node>, head: Addr, list: seq<Addr>)
    decreases |list|
  {
    if list == [] then head == 0
    else head == list[0] && head != 0 && head in heap && Chain(heap, heap[head].next, list[1..])
  }

  ghost predicate NoDup<T>(s: seq<T>) {
    forall i, j :: 0 <= i < j < |s| ==> s[i] != s[j]
  }

  lemma {:induction false} ChainFrame(heap: map<Addr, Node>, heap2: map<Addr, Node>, head: Addr, list: seq<Addr>)
    requires Chain(heap, head, list)
    requires forall a :: a in list && a in heap ==> a in heap2 && heap2[a].next == heap[a].next
    ensures Chain(heap2, head, list)
    decreases list
  {
    if list != [] {
      ChainFrame(heap, heap2, heap[head].next, list[1..]);
    }
  }

  lemma {:induction false} ChainMembers(heap: map<Addr, Node>, head: Addr, list: seq<Addr>)
    requires Chain(heap, head, list)
    ensures forall a :: a in list ==> a in heap && a != 0
    decreases list
  {
    if list != [] {
      ChainMembers(heap, heap[head].next, list[1..]);
      assert list == [list[0]] + list[1..];
    }
  }

  ghost predicate KeptDistinct(ext: seq<Kept>) {
    forall i, j :: 0 <= i < j < |ext| ==> ext[i].tok != ext[j].tok
  }

  /** kept is the list ext read as a map. */
  ghost predicate KeptIs(ext: seq<Kept>, kept: map<Tok, Addr>) {
    && KeptDistinct(ext)
    && (forall e :: e in ext ==> e.tok in kept && kept[e.tok] == e.op)
    && (forall t :: t in kept ==> Kept(t, kept[t]) in ext)
  }

  lemma {:induction false} KeptReplace(ext: seq<Kept>, kept: map<Tok, Addr>, k: nat, op: Addr)
    requires KeptIs(ext, kept) && k < |ext|
    ensures KeptIs(ext[k := Kept(ext[k].tok, op)], kept[ext[k].tok := op])
  {
    var tok := ext[k].tok;
    var other := ext[k := Kept(tok, op)];
    var kept2 := kept[tok := op];
    forall t | t in kept2 ensures Kept(t, kept2[t]) in other {
      if t == tok {
        assert other[k] == Kept(t, kept2[t]);
      } else {
        var i :| 0 <= i < |ext| && ext[i] == Kept(t, kept[t]);
        assert other[i] == ext[i];
      }
    }
  }

  function Toks(heap: map<Addr, Node>): map<Addr, Tok> {
    map a | a in heap :: heap[a].tok
  }

  /** Bucket h is a chain of distinct shadows that belong there, of linked tokens. */
  ghost predicate BucketOk(heap: map<Addr, Node>, linked: map<Tok, Addr>, head: Addr, list: seq<Addr>, h: nat) {
    && Chain(heap, head, list) && NoDup(list)
    && forall a :: a in list ==> a in heap && Homed(heap[a], linked, h)
  }

  ghost predicate BucketsOk(heap: map<Addr, Node>, linked: map<Tok, Addr>, heads: seq<Addr>, lists: seq<seq<Addr>>) {
    && |heads| == BUCKETS == |lists|
    && forall h :: 0 <= h < BUCKETS ==> BucketOk(heap, linked, heads[h], lists[h], h)
  }

  ghost predicate Homed(n: Node, linked: map<Tok, Addr>, h: nat) {
    Bucket(n.tok) == h && n.tok in linked
  }

  /** a is in list, and the first shadow of tok there: any later one is of an op freed since. */
  ghost predicate First(heap: map<Addr, Node>, list: seq<Addr>, tok: Tok, a: Addr) {
    exists i :: 0 <= i < |list| && list[i] == a && forall j :: 0 <= j < i ==> list[j] in heap && heap[list[j]].tok != tok
  }

  lemma {:induction false} LinkKeepsBucket(heap: map<Addr, Node>, linked: map<Tok, Addr>, head: Addr, list: seq<Addr>, g: nat, a: Addr, n: Node)
    requires BucketOk(heap, linked, head, list, g) && a !in list
    ensures BucketOk(heap[a := n], linked[n.tok := a], head, list, g)
  {
    ChainFrame(heap, heap[a := n], head, list);
  }

  lemma {:induction false} LinkExtendsBucket(heap: map<Addr, Node>, linked: map<Tok, Addr>, head: Addr, list: seq<Addr>, a: Addr, n: Node)
    requires BucketOk(heap, linked, head, list, Bucket(n.tok)) && a !in list && a != 0
    requires n.next == head
    ensures BucketOk(heap[a := n], linked[n.tok := a], a, [a] + list, Bucket(n.tok))
  {
    LinkKeepsBucket(heap, linked, head, list, Bucket(n.tok), a, n);
    assert ([a] + list)[1..] == list;
  }

  /** In front of its bucket a shadow is the first of its token and leaves the first of others. */
  lemma {:induction false} LinkFirst(heap: map<Addr, Node>, list: seq<Addr>, a: Addr, n: Node)
    requires a !in list
    ensures First(heap[a := n], [a] + list, n.tok, a)
    ensures forall t, b :: t != n.tok && First(heap, list, t, b) ==> First(heap[a := n], [a] + list, t, b)
    ensures forall t, b :: First(heap, list, t, b) ==> First(heap[a := n], list, t, b)
  {
    var more, heap2 := [a] + list, heap[a := n];
    assert more[0] == a;
    forall t, b | First(heap, list, t, b) ensures First(heap2, list, t, b) && (t != n.tok ==> First(heap2, more, t, b)) {
      var i :| 0 <= i < |list| && list[i] == b && forall j :: 0 <= j < i ==> list[j] in heap && heap[list[j]].tok != t;
      assert forall j :: 0 <= j < i ==> heap2[list[j]] == heap[list[j]];
      if t != n.tok {
        assert more[i + 1] == b;
        forall j | 0 <= j < i + 1 ensures more[j] in heap2 && heap2[more[j]].tok != t {
          if j > 0 {
            assert more[j] == list[j - 1];
          }
        }
      }
    }
  }

  /** A long-lived entry points at a live persistent shadow of its token. */
  ghost predicate KeptOk(heap: map<Addr, Node>, k: Kept) {
    k.tok != 0 && k.op in heap && heap[k.op].tok == k.tok && heap[k.op].persist
  }

  /** heads[h] starts the chain lists[h], linked indexes all of them and ext is sound. */
  ghost predicate Consistent(heap: map<Addr, Node>, heads: seq<Addr>, lists: seq<seq<Addr>>, linked: map<Tok, Addr>, ext: seq<Kept>) {
    && 0 !in heap && BucketsOk(heap, linked, heads, lists)
    && (forall t :: t in linked ==> t != 0 && linked[t] in heap && heap[linked[t]].tok == t && First(heap, lists[Bucket(t)], t, linked[t]))
    && (forall a :: a in heap ==> heap[a].tok != 0)
    && (forall e :: e in ext ==> KeptOk(heap, e))
  }

  /** Putting a shadow that is in no list at the front of its bucket keeps the registry: a new one,
      or a long-lived one while its token is not linked. */
  lemma {:induction false} LinkKeeps(heap: map<Addr, Node>, heads: seq<Addr>, lists: seq<seq<Addr>>, linked: map<Tok, Addr>, ext: seq<Kept>, a: Addr, n: Node)
    requires Consistent(heap, heads, lists, linked, ext)
    requires a != 0 && n.tok != 0 && n.next == heads[Bucket(n.tok)]
    requires a in heap ==> n.tok !in linked && heap[a].tok == n.tok && heap[a].persist == n.persist
    ensures var h := Bucket(n.tok);
      Consistent(heap[a := n], heads[h := a], lists[h := [a] + lists[h]], linked[n.tok := a], ext)
  {
    hide First, BucketOk;
    var lists2 := lists[Bucket(n.tok) := [a] + lists[Bucket(n.tok)]];
    LinkUnlisted(heap, heads, lists, linked, a, n.tok);
    LinkBuckets(heap, heads, lists, linked, a, n);
    var linked2 := linked[n.tok := a];
    forall t | t in linked2 ensures First(heap[a := n], lists2[Bucket(t)], t, linked2[t]) {
      LinkFirst(heap, lists[Bucket(t)], a, n);
    }
  }

  /** Neither a new shadow nor one whose token is not linked is in a list. */
  lemma {:induction false} LinkUnlisted(heap: map<Addr, Node>, heads: seq<Addr>, lists: seq<seq<Addr>>, linked: map<Tok, Addr>, a: Addr, tok: Tok)
    requires BucketsOk(heap, linked, heads, lists)
    requires a in heap ==> tok !in linked && heap[a].tok == tok
    ensures forall h :: 0 <= h < BUCKETS ==> a !in lists[h]
  {
    hide Chain, NoDup;
    forall h | 0 <= h < BUCKETS ensures a !in lists[h] {
      assert BucketOk(heap, linked, heads[h], lists[h], h);
    }
  }

  lemma {:induction false} LinkBuckets(heap: map<Addr, Node>, heads: seq<Addr>, lists: seq<seq<Addr>>, linked: map<Tok, Addr>, a: Addr, n: Node)
    requires BucketsOk(heap, linked, heads, lists)
    requires a != 0 && n.next == heads[Bucket(n.tok)] && forall h :: 0 <= h < BUCKETS ==> a !in lists[h]
    ensures var h := Bucket(n.tok);
      BucketsOk(heap[a := n], linked[n.tok := a], heads[h := a], lists[h := [a] + lists[h]])
  {
    hide BucketOk;
    var h := Bucket(n.tok);
    var heads2, lists2 := heads[h := a], lists[h := [a] + lists[h]];
    forall g | 0 <= g < BUCKETS ensures BucketOk(heap[a := n], linked[n.tok := a], heads2[g], lists2[g], g) {
      if g == h {
        LinkExtendsBucket(heap, linked, heads[g], lists[g], a, n);
      } else {
        LinkKeepsBucket(heap, linked, heads[g], lists[g], g, a, n);
      }
    }
  }

  /** Marking a shadow persistent moves no link. */
  lemma {:induction false} PersistKeeps(heap: map<Addr, Node>, heads: seq<Addr>, lists: seq<seq<Addr>>, linked: map<Tok, Addr>, ext: seq<Kept>, o: Addr)
    requires Consistent(heap, heads, lists, linked, ext) && o in heap
    ensures Consistent(heap[o := heap[o].(persist := true)], heads, lists, linked, ext)
  {
    var heap2 := heap[o := heap[o].(persist := true)];
    forall g | 0 <= g < BUCKETS ensures BucketOk(heap2, linked, heads[g], lists[g], g) {
      assert BucketOk(heap, linked, heads[g], lists[g], g);
      ChainFrame(heap, heap2, heads[g], lists[g]);
    }
    hide BucketOk;
    forall t | t in linked ensures First(heap2, lists[Bucket(t)], t, linked[t]) {
    }
  }

  /** heap is was after clearing the nodes in done. */
  ghost predicate Cleared(was: map<Addr, Node>, heap: map<Addr, Node>, done: set<Addr>) {
    && (forall a :: a in heap <==> a in was && (a !in done || was[a].persist))
    && (forall a :: a in heap ==> heap[a] == if a in done then was[a].(next := 0) else was[a])
  }

  /** A bucket's nodes are in no earlier bucket. */
  lemma {:induction false} NotYetDone(heap: map<Addr, Node>, linked: map<Tok, Addr>, heads: seq<Addr>, lists: seq<seq<Addr>>, i: nat)
    requires BucketsOk(heap, linked, heads, lists) && i < BUCKETS
    ensures |heads| == BUCKETS == |lists|
    ensures Chain(heap, heads[i], lists[i]) && NoDup(lists[i])
    ensures forall a, h :: a in lists[i] && 0 <= h < i ==> a !in lists[h]
  {
    hide Chain, NoDup;
    assert BucketOk(heap, linked, heads[i], lists[i], i);
    forall a, h | a in lists[i] && 0 <= h < i ensures a !in lists[h] {
      assert BucketOk(heap, linked, heads[i], lists[i], i) && BucketOk(heap, linked, heads[h], lists[h], h);
    }
  }

  class OpRegistry {
    var heap: map<Addr, Node>
    const opreg: array<Addr>
    var ext: seq<Kept>
    var persistMode: bool
    ghost var lists: seq<seq<Addr>>
    ghost var linked: map<Tok, Addr>
    ghost var kept: map<Tok, Addr>
    /** The registry's states, requests and results since it was last cleared. */
    ghost var rs: seq<Registry>
    ghost var qs: seq<Request>
    ghost var ps: seq<Addr>
    /** The same since the registry was new, with its clearings. */
    ghost var states: seq<Registry>
    ghost var moves: seq<Move>
    ghost var results: seq<Addr>

    constructor ()
      ensures Valid() && fresh(opreg) && heap == map[] && ext == [] && linked == map[] && kept == map[] && qs == [] && moves == []
    {
      heap, ext, persistMode := map[], [], false;
      opreg := new Addr[BUCKETS](_ => 0);
      lists, linked, kept := seq(BUCKETS, _ => []), map[], map[];
      qs, ps := [], [];
      rs := [Registry(map[], map[], Toks(map[]))];
      states, moves, results := [Registry(map[], map[], map[])], [], [];
      assert Toks(map[]) == map[];
    }

    ghost function Abs(): Registry
      reads this`linked, this`kept, this`heap
    {
      Registry(linked, kept, Toks(heap))
    }

    ghost predicate Inv()
      reads this`heap, this`ext, this`lists, this`linked, this`kept, opreg
    {
      Consistent(heap, opreg[..], lists, linked, ext) && KeptIs(ext, kept)
    }

    ghost predicate Valid()
      reads this`heap, this`ext, this`lists, this`linked, this`kept, this`rs, this`qs, this`ps, this`states, this`moves, this`results, opreg
    {
      && Inv() && Activation(rs, qs, ps) && rs[|qs|] == Abs()
      && History(states, moves, results) && states[|moves|] == Abs()
    }

    lemma {:induction false} ValidSound()
      requires Inv()
      ensures Sound(Abs())
    {
      hide BucketOk, First;
    }

    /** The pointers handed out since the last clearing identify the guest's ops. */
    lemma {:induction false} PointersIdentify(i: nat, j: nat)
      requires Valid() && i <= j < |qs| && Hands(qs[i]) && Hands(qs[j])
      ensures ps[i] == ps[j] <==> qs[i].tok == qs[j].tok && NotReused(qs, qs[i].tok, i + 1, j + 1)
    {
      hide Inv;
      IdentityExact(rs, qs, ps, i, j);
    }

    ghost method Record(q: Request, p: Addr)
      requires Inv() && Activation(rs, qs, ps) && Step(rs[|qs|], q, Abs(), p)
      requires History(states, moves, results) && states[|moves|] == rs[|qs|]
      modifies this`rs, this`qs, this`ps, this`states, this`moves, this`results
      ensures Valid() && qs == old(qs) + [q] && ps == old(ps) + [p] && moves == old(moves) + [Ask(q)] && results == old(results) + [p]
    {
      hide Inv, Activation, Step, History;
      ActivationMore(rs, qs, ps, q, Abs(), p);
      HistoryMore(states, moves, results, Ask(q), Abs(), p);
      rs, qs, ps := rs + [Abs()], qs + [q], ps + [p];
      states, moves, results := states + [Abs()], moves + [Ask(q)], results + [p];
    }

    /** Over everything since the registry was new: what a call gives back for a token whose shadow
        p was registered in an earlier activation. */
    lemma {:induction false} RegisteredReturns(tok: Tok, p: Addr, hooked: bool, i: nat, j: nat)
      requires Valid() && j < |moves| == |results| && LongLived(moves, results, tok, p, i, j)
      requires moves[j] == Ask(Shadow(tok, hooked)) && !Out(moves[..j], tok)
      ensures results[j] == p <==> hooked
    {
      hide Inv, Activation;
      LongLivedReturns(states, moves, results, tok, p, hooked, i, j);
    }

    /** The search of the token's bucket: its first shadow there. */
    method Find(tok: Tok) returns (e: Addr)
      requires Inv() && tok != 0
      ensures e == if tok in linked then linked[tok] else 0
    {
      var h := Bucket(tok);
      assert BucketOk(heap, linked, opreg[h], lists[h], h);
      ghost var i := 0;
      e := opreg[h];
      while e != 0
        invariant i <= |lists[h]| && Chain(heap, e, lists[h][i..])
        invariant forall j :: 0 <= j < i ==> lists[h][j] in heap && heap[lists[h][j]].tok != tok
        decreases |lists[h]| - i
      {
        assert lists[h][i..][0] == lists[h][i] == e;
        if heap[e].tok == tok {
          return;
        }
        assert lists[h][i..][1..] == lists[h][i + 1..];
        e := heap[e].next;
        i := i + 1;
      }
    }

    /** Put shadow a at the front of its bucket. */
    method Link(a: Addr, persist: bool, tok: Tok)
      requires Inv() && tok != 0 && a != 0
      requires a in heap ==> tok !in linked && heap[a].tok == tok && heap[a].persist == persist
      modifies this`heap, this`lists, this`linked, opreg
      ensures Inv() && linked == old(linked)[tok := a]
      ensures Toks(heap) == Toks(old(heap))[a := tok]
      ensures a in heap && heap[a].persist == persist
      ensures forall b :: b in old(heap) && b != a ==> b in heap && heap[b] == old(heap[b])
    {
      hide BucketOk, KeptOk, KeptIs, First;
      var h := Bucket(tok);
      LinkKeeps(heap, opreg[..], lists, linked, ext, a, Node(opreg[h], persist, tok));
      ghost var heads := opreg[..][h := a];
      heap := heap[a := Node(opreg[h], persist, tok)];
      opreg[h] := a;
      lists := lists[h := [a] + lists[h]];
      linked := linked[tok := a];
      assert opreg[..] == heads;
    }

    /** The walk of the long-lived list: the entry's shadow if the guest still runs it, while a
        stale entry is dropped. */
    method FindKept(tok: Tok, hooked: bool) returns (op: Option<Addr>)
      requires Inv()
      modifies this`ext, this`kept
      ensures Inv()
      ensures op.Some? <==> tok in old(kept) && hooked
      ensures op.Some? ==> kept == old(kept) && op.value == old(kept)[tok] && KeptOk(heap, Kept(tok, op.value))
      ensures op.None? ==> kept == old(kept) - {tok}
    {
      hide BucketOk, First;
      var i := 0;
      while i < |ext|
        invariant i <= |ext| && Inv() && forall j :: 0 <= j < i ==> ext[j].tok != tok
        invariant kept == old(kept) || (!hooked && kept == old(kept) - {tok})
        decreases |ext| - i
      {
        if ext[i].tok == tok {
          assert ext[i] in ext;
          if hooked {
            return Some(ext[i].op);
          }
          ext := ext[..i] + ext[i + 1..];
          kept := kept - {tok};
        } else {
          i := i + 1;
        }
      }
      return None;
    }

    /** goperl_op_shadow; None for a croak on an exhausted heap (oom). */
    method OpShadow(tok: Tok, hooked: bool, oom: bool) returns (p: Option<Addr>)
      requires Valid()
      modifies this`heap, this`ext, this`lists, this`linked, this`kept, this`rs, this`qs, this`ps, this`states, this`moves, this`results, opreg
      ensures Valid()
      ensures p.Some? ==> ShadowStep(old(Abs()), tok, hooked, Abs(), p.value) && qs == old(qs) + [Shadow(tok, hooked)] && ps == old(ps) + [p.value]
      ensures p.Some? ==> moves == old(moves) + [Ask(Shadow(tok, hooked))] && results == old(results) + [p.value]
      ensures p.Some? && p.value != 0 && p.value !in old(heap) ==> p.value in heap && heap[p.value].persist == persistMode
      ensures p.None? ==> oom && Abs() == old(Abs()).(kept := old(Abs()).kept - {tok}) && qs == old(qs) + [Croak(tok)]
      ensures p.None? ==> moves == old(moves) + [Ask(Croak(tok))]
    {
      hide Inv, Activation, History;
      ghost var r := Abs();
      p := Serve(tok, hooked, oom);
      if p.Some? {
        assert Step(r, Shadow(tok, hooked), Abs(), p.value);
        Record(Shadow(tok, hooked), p.value);
      } else {
        assert Step(r, Croak(tok), Abs(), 0);
        Record(Croak(tok), 0);
      }
    }

    method Serve(tok: Tok, hooked: bool, oom: bool) returns (p: Option<Addr>)
      requires Inv()
      modifies this`heap, this`ext, this`lists, this`linked, this`kept, opreg
      ensures Inv()
      ensures p.Some? ==> ShadowStep(old(Abs()), tok, hooked, Abs(), p.value)
      ensures p.Some? && p.value != 0 && p.value !in old(heap) ==> p.value in heap && heap[p.value].persist == persistMode
      ensures p.None? ==> oom && Abs() == old(Abs()).(kept := old(Abs()).kept - {tok})
    {
      hide BucketOk, KeptIs, First;
      if tok == 0 {
        return Some(0);
      }
      var e := Find(tok);
      if e != 0 {
        return Some(e);
      }
      var op := FindKept(tok, hooked);
      if op.Some? {
        Link(op.value, heap[op.value].persist, tok);
        return op;
      }
      if oom {
        return None;
      }
      var a := Calloc();
      Link(a, persistMode, tok);
      return Some(a);
    }

    /** A successful allocation: any address not in use. */
    method Calloc() returns (a: Addr)
      ensures a != 0 && a !in heap
    {
      UnusedAddr(heap.Keys);
      a :| a != 0 && a !in heap.Keys;
    }

    /** goperl_newopsz for the new guest op tok; None for a croak. */
    method NewOpSz(tok: Tok, oom: bool) returns (p: Option<Addr>)
      requires Valid() && tok != 0
      modifies this`heap, this`lists, this`linked, this`rs, this`qs, this`ps, this`states, this`moves, this`results, opreg
      ensures Valid()
      ensures p.Some? ==> NewOpStep(old(Abs()), tok, Abs(), p.value) && p.value in heap && heap[p.value].persist
      ensures p.Some? ==> qs == old(qs) + [NewOp(tok)] && ps == old(ps) + [p.value] && moves == old(moves) + [Ask(NewOp(tok))] && results == old(results) + [p.value]
      ensures p.None? ==> oom && Abs() == old(Abs()) && qs == old(qs) && moves == old(moves)
    {
      hide BucketOk, KeptIs, First, Activation, History;
      if oom {
        return None;
      }
      ghost var r := Abs();
      var a := Calloc();
      Link(a, true, tok);
      assert Step(r, NewOp(tok), Abs(), a);
      Record(NewOp(tok), a);
      return Some(a);
    }

    /** goperl_perop_pp_register on the shadow o; oom is calloc failing in opext_put. */
    method PeropPpRegister(o: Addr, oom: bool)
      requires Valid() && o in heap
      modifies this`heap, this`ext, this`kept, this`rs, this`qs, this`ps, this`states, this`moves, this`results
      ensures Valid() && linked == old(linked) && o in old(heap) && heap == old(heap)[o := old(heap)[o].(persist := true)]
      ensures var tok := heap[o].tok;
        var done := tok in kept && kept[tok] == o;
        && (!oom ==> done) && kept == (if done then old(kept)[tok := o] else old(kept))
        && qs == old(qs) + [Keep(tok, done)] && moves == old(moves) + [Ask(Keep(tok, done))] && results == old(results) + [o]
    {
      hide Activation, History, First, BucketOk, KeptIs;
      ghost var r := Abs();
      PersistKeeps(heap, opreg[..], lists, linked, ext, o);
      heap := heap[o := heap[o].(persist := true)];
      assert Toks(heap) == r.toks;
      OpextPut(heap[o].tok, o, oom);
      ghost var q := Keep(heap[o].tok, heap[o].tok in kept && kept[heap[o].tok] == o);
      assert kept == old(kept) && q.done ==> old(kept)[q.tok := o] == old(kept);
      assert Step(r, q, Abs(), o);
      Record(q, o);
    }

    method OpextPut(tok: Tok, o: Addr, oom: bool)
      requires Inv() && KeptOk(heap, Kept(tok, o))
      modifies this`ext, this`kept
      ensures Inv() && (kept == old(kept)[tok := o] || (oom && kept == old(kept)))
    {
      hide BucketOk, First;
      for i := 0 to |ext|
        invariant Inv() && ext == old(ext) && kept == old(kept) && forall j :: 0 <= j < i ==> ext[j].tok != tok
      {
        if ext[i].tok == tok {
          KeptReplace(ext, kept, i, o);
          ext := ext[i := Kept(tok, o)];
          kept := kept[tok := o];
          return;
        }
      }
      if oom {
        return;
      }
      ext := [Kept(tok, o)] + ext;
      kept := kept[tok := o];
    }

    /** The walk of one bucket in goperl_opreg_clear. */
    method ClearBucket(i: nat, ghost was: map<Addr, Node>, ghost done: set<Addr>) returns (ghost more: set<Addr>)
      requires opreg.Length == BUCKETS == |lists| && i < BUCKETS
      requires Chain(was, opreg[i], lists[i]) && NoDup(lists[i])
      requires Cleared(was, heap, done) && forall a :: a in lists[i] ==> a !in done
      modifies this`heap
      ensures Cleared(was, heap, more) && forall a :: a in more <==> a in done || a in lists[i]
    {
      ghost var list := lists[i];
      ghost var j := 0;
      more := done;
      var e := opreg[i];
      ChainMembers(was, e, list);
      while e != 0
        invariant j <= |list| && Chain(was, e, list[j..]) && Cleared(was, heap, more)
        invariant forall a :: a in more <==> a in done || a in list[..j]
        decreases |list| - j
      {
        assert list[j..][0] == list[j] == e && list[j..][1..] == list[j + 1..];
        assert e !in more;
        var n := heap[e].next;
        if !heap[e].persist {
          heap := heap - {e};
        } else {
          heap := heap[e := heap[e].(next := 0)];
        }
        more := more + {e};
        assert list[..j + 1] == list[..j] + [e];
        e := n;
        j := j + 1;
      }
      assert list[..j] == list;
    }

    /** goperl_opreg_clear: every list emptied, its nodes freed except the persistent ones. */
    method OpregClear()
      requires Valid()
      modifies this`heap, this`lists, this`linked, this`rs, this`qs, this`ps, this`states, this`moves, this`results, opreg
      ensures Valid() && linked == map[] && kept == old(kept) && qs == [] && moves == old(moves) + [Clear]
      ensures forall a :: a in heap <==> a in old(heap) && (!IsListed(old(lists), a) || old(heap)[a].persist)
      ensures forall a :: a in heap && IsListed(old(lists), a) ==> heap[a] == old(heap)[a].(next := 0)
      ensures forall a :: a in heap && !IsListed(old(lists), a) ==> heap[a] == old(heap)[a]
    {
      hide Activation, History, Inv, Sound;
      ghost var r := Abs();
      UnlinkAll();
      ValidSound();
      assert ClearStep(r, Abs());
      HistoryMore(states, moves, results, Clear, Abs(), 0);
      states, moves, results := states + [Abs()], moves + [Clear], results + [0];
      rs, qs, ps := [Abs()], [], [];
      Fresh(rs);
    }

    method UnlinkAll()
      requires Inv()
      modifies this`heap, this`lists, this`linked, opreg
      ensures Inv() && linked == map[]
      ensures forall a :: a in heap <==> a in old(heap) && (!IsListed(old(lists), a) || old(heap)[a].persist)
      ensures forall a :: a in heap && IsListed(old(lists), a) ==> heap[a] == old(heap)[a].(next := 0)
      ensures forall a :: a in heap && !IsListed(old(lists), a) ==> heap[a] == old(heap)[a]
    {
      hide Consistent, KeptIs, KeptOk;
      EmptyLists();
      lists := seq(BUCKETS, _ => []);
      linked := map[];
      EmptyRegistry(heap, opreg[..], lists, ext);
    }

    lemma {:induction false} Fresh(rs: seq<Registry>)
      requires |rs| == 1 && Sound(rs[0])
      ensures Activation(rs, [], [])
    {
    }

    /** Its loop over the buckets. */
    method EmptyLists()
      requires Inv()
      modifies this`heap, opreg
      ensures opreg.Length == BUCKETS && forall h :: 0 <= h < BUCKETS ==> opreg[h] == 0
      ensures 0 !in heap && (forall a :: a in heap ==> heap[a].tok != 0) && forall e :: e in ext ==> KeptOk(heap, e)
      ensures forall a :: a in heap <==> a in old(heap) && (!IsListed(lists, a) || old(heap)[a].persist)
      ensures forall a :: a in heap && IsListed(lists, a) ==> heap[a] == old(heap)[a].(next := 0)
      ensures forall a :: a in heap && !IsListed(lists, a) ==> heap[a] == old(heap)[a]
    {
      hide Chain, NoDup, KeptIs, First, BucketsOk;
      ghost var was, heads := heap, opreg[..];
      ghost var done: set<Addr> := {};
      NotYetDone(was, linked, heads, lists, 0);
      for i := 0 to BUCKETS
        invariant opreg.Length == BUCKETS == |lists| && Cleared(was, heap, done)
        invariant forall h :: 0 <= h < i ==> opreg[h] == 0
        invariant forall h :: i <= h < BUCKETS ==> opreg[h] == heads[h]
        invariant forall a :: a in done <==> exists h :: 0 <= h < i && a in lists[h]
      {
        NotYetDone(was, linked, heads, lists, i);
        done := ClearBucket(i, was, done);
        opreg[i] := 0;
      }
      assert forall a :: a in done <==> IsListed(lists, a);
    }
  }

  predicate IsListed(lists: seq<seq<Addr>>, a: Addr) {
    exists h :: 0 <= h < |lists| && a in lists[h]
  }

  lemma {:induction false} EmptyRegistry(heap: map<Addr, Node>, heads: seq<Addr>, lists: seq<seq<Addr>>, ext: seq<Kept>)
    requires |heads| == BUCKETS == |lists| && forall h :: 0 <= h < BUCKETS ==> heads[h] == 0 && lists[h] == []
    requires 0 !in heap && (forall a :: a in heap ==> heap[a].tok != 0) && forall e :: e in ext ==> KeptOk(heap, e)
    ensures Consistent(heap, heads, lists, map[], ext)
  {
  }
}
