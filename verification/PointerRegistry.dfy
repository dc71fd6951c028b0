/** Host pointers crossing the guest as integers: a registry gives each a small id, and a clone of
    an instance starts with its parent's. */
module PointerRegistry {

  import opened Words

  type Ptr = p: int | 0 <= p < TWO64

  const ptrIDBase := 0x4000_0000

  /** No pointer twice, none a plain integer. */
  ghost predicate Registry(ptrs: seq<Ptr>) {
    && (forall i :: 0 <= i < |ptrs| ==> ptrs[i] >= ptrIDBase)
    && (forall i, j :: 0 <= i < j < |ptrs| ==> ptrs[i] != ptrs[j])
  }

  function IndexOf(ptrs: seq<Ptr>, p: Ptr): (i: nat)
    ensures i <= |ptrs| && (i < |ptrs| ==> ptrs[i] == p) && forall j :: 0 <= j < i ==> ptrs[j] != p
  {
    if ptrs == [] || ptrs[0] == p then 0 else 1 + IndexOf(ptrs[1..], p)
  }

  /** The registry with p in it, if it needs to be. */
  function With(ptrs: seq<Ptr>, p: Ptr): seq<Ptr> {
    if p < ptrIDBase || IndexOf(ptrs, p) < |ptrs| then ptrs else ptrs + [p]
  }

  function IdOf(ptrs: seq<Ptr>, p: Ptr): nat {
    if p < ptrIDBase then p else ptrIDBase + IndexOf(ptrs, p)
  }

  function Decoded(ptrs: seq<Ptr>, id: nat): Ptr {
    if id < ptrIDBase then id else if id - ptrIDBase < |ptrs| then ptrs[id - ptrIDBase] else 0
  }

  /** An id the registry has given out, or a plain integer. */
  predicate Issued(ptrs: seq<Ptr>, id: nat) {
    id < ptrIDBase + |ptrs|
  }

  /** Two issued ids with one meaning are one id. */
  lemma {:induction false} OneIdEach(ptrs: seq<Ptr>, a: nat, b: nat)
    requires Registry(ptrs) && Issued(ptrs, a) && Issued(ptrs, b) && Decoded(ptrs, a) == Decoded(ptrs, b)
    ensures a == b
  {
  }

  /** Decoding gives the null pointer for null and for exactly the ids never given out. */
  lemma {:induction false} NullExact(ptrs: seq<Ptr>, id: nat)
    requires Registry(ptrs)
    ensures Decoded(ptrs, id) == 0 <==> id == 0 || !Issued(ptrs, id)
  {
    if Issued(ptrs, id) && id >= ptrIDBase {
      assert ptrs[id - ptrIDBase] >= ptrIDBase;
    }
  }

  // ---- runs -------------------------------------------------------------------------------

  /** The registry after encoding ps in order, from ptrs. */
  function After(ptrs: seq<Ptr>, ps: seq<Ptr>): seq<Ptr> {
    if ps == [] then ptrs else With(After(ptrs, ps[..|ps| - 1]), ps[|ps| - 1])
  }

  /** The id the i-th of them got. */
  function IdAt(ptrs: seq<Ptr>, ps: seq<Ptr>, i: nat): nat
    requires i < |ps|
  {
    IdOf(After(ptrs, ps[..i]), ps[i])
  }

  lemma {:induction false} RunKeeps(ptrs: seq<Ptr>, ps: seq<Ptr>)
    requires Registry(ptrs)
    ensures Registry(After(ptrs, ps)) && ptrs <= After(ptrs, ps)
  {
    if ps != [] {
      RunKeeps(ptrs, ps[..|ps| - 1]);
    }
  }

  /** The i-th id decodes to the i-th pointer at the end of the run. */
  lemma {:induction false} RoundTrip(ptrs: seq<Ptr>, ps: seq<Ptr>, i: nat)
    requires Registry(ptrs) && i < |ps|
    ensures Issued(After(ptrs, ps), IdAt(ptrs, ps, i)) && Decoded(After(ptrs, ps), IdAt(ptrs, ps, i)) == ps[i]
  {
    var before := ps[..|ps| - 1];
    RunKeeps(ptrs, before);
    if i < |before| {
      RoundTrip(ptrs, before, i);
      assert before[..i] == ps[..i];
    }
  }

  /** Over any run equal pointers get equal ids and distinct ones distinct ids. */
  lemma {:induction false} IdentityHolds(ptrs: seq<Ptr>, ps: seq<Ptr>, i: nat, j: nat)
    requires Registry(ptrs) && i < |ps| && j < |ps|
    ensures IdAt(ptrs, ps, i) == IdAt(ptrs, ps, j) <==> ps[i] == ps[j]
  {
    RunKeeps(ptrs, ps);
    RoundTrip(ptrs, ps, i);
    RoundTrip(ptrs, ps, j);
    if ps[i] == ps[j] {
      OneIdEach(After(ptrs, ps), IdAt(ptrs, ps, i), IdAt(ptrs, ps, j));
    }
  }

  lemma {:induction false} AfterJoin(ptrs: seq<Ptr>, ps: seq<Ptr>, qs: seq<Ptr>)
    ensures After(ptrs, ps + qs) == After(After(ptrs, ps), qs)
  {
    if qs == [] {
      assert ps + qs == ps;
    } else {
      AfterJoin(ptrs, ps, qs[..|qs| - 1]);
      assert (ps + qs)[..|ps + qs| - 1] == ps + qs[..|qs| - 1];
    }
  }

  /** ps ran before a clone was made, qs after it in one of the two: ids from before mean the same
      there whatever the other one encodes, and again for a clone of the clone. */
  lemma {:induction false} CloneDecodes(ptrs: seq<Ptr>, ps: seq<Ptr>, qs: seq<Ptr>, i: nat)
    requires Registry(ptrs) && i < |ps|
    ensures Decoded(After(After(ptrs, ps), qs), IdAt(ptrs, ps, i)) == ps[i]
  {
    RoundTrip(ptrs, ps + qs, i);
    AfterJoin(ptrs, ps, qs);
    assert (ps + qs)[..i] == ps[..i];
  }

  /** Ids issued after it are the issuing instance's alone: parent and clone give the same id to
      whichever pointer each sees first. */
  lemma {:induction false} LaterIdsDiffer(ptrs: seq<Ptr>, p: Ptr, q: Ptr)
    requires Registry(ptrs) && p >= ptrIDBase && q >= ptrIDBase && p !in ptrs && q !in ptrs && p != q
    ensures IdOf(ptrs, p) == IdOf(ptrs, q) && Decoded(With(ptrs, p), IdOf(ptrs, q)) == p != q
  {
  }

  // ---- the state ----------------------------------------------------------------------------

  class Pointers {
    var ptrs: seq<Ptr>

    ghost predicate Valid()
      reads this
    {
      Registry(ptrs)
    }

    constructor ()
      ensures Valid() && ptrs == []
    {
      ptrs := [];
    }

    /** adoptClone: a copy of the parent's registry. */
    constructor Clone(parent: Pointers)
      requires parent.Valid()
      ensures Valid() && ptrs == parent.ptrs
    {
      ptrs := parent.ptrs;
    }

    method EncodePtr(p: Ptr) returns (id: nat)
      requires Valid()
      modifies this
      ensures Valid() && ptrs == With(old(ptrs), p) && old(ptrs) <= ptrs
      ensures id == IdOf(old(ptrs), p) && Issued(ptrs, id) && Decoded(ptrs, id) == p
    {
      if p < ptrIDBase {
        return p;
      }
      for i := 0 to |ptrs|
        invariant forall j :: 0 <= j < i ==> ptrs[j] != p
        invariant ptrs == old(ptrs)
      {
        if ptrs[i] == p {
          return ptrIDBase + i;
        }
      }
      ptrs := ptrs + [p];
      return ptrIDBase + |ptrs| - 1;
    }

    method DecodePtr(id: nat) returns (p: Ptr)
      ensures p == Decoded(ptrs, id)
    {
      if id < ptrIDBase {
        return id;
      }
      var ix := id - ptrIDBase;
      if ix >= |ptrs| {
        return 0;
      }
      return ptrs[ix];
    }
  }
}
