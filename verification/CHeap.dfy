/** Addresses of the C heap the SDK and the loader allocate from. */
module CHeap {

  // 0 is the null pointer.
  type Addr = nat

  /** An allocation can always find an address not in use. */
  lemma {:induction false} UnusedAddr(used: set<Addr>)
    ensures exists a: Addr :: a != 0 && a !in used
  {
    var top := Above(used);
    assert top !in used;
  }

  lemma {:induction false} Above(used: set<Addr>) returns (top: Addr)
    ensures top > 0 && forall a :: a in used ==> a < top
  {
    top := 1;
    var rest := used;
    while rest != {}
      invariant top > 0 && forall a :: a in used && a !in rest ==> a < top
      decreases |rest|
    {
      var a :| a in rest;
      rest := rest - {a};
      top := if a >= top then a + 1 else top;
    }
  }
}
