/** The host mirrors of guest state: array bodies, integer slots, interpreter variables and the
    string-length slot, written back by goperl_flush before every guest operation. */
module Mirrors {

  import opened Options

  const AVMIRROR_MAX := 64
  const IVMIRROR_MAX := 32
  const PLSHADOW_MAX := 32
  const PL_DIEHOOK := 1
  const PL_WARNHOOK := 2
  const PL_HINTS := 24

  // ---- the guest: cells the raw operations read and write -----------------------------

  datatype Cell = Elem(av: int, i: int) | Iv(sv: int) | Pl(id: int) | Cur(sv: int)

  datatype Write = Write(cell: Cell, val: int)

  datatype Guest = Guest(cells: map<Cell, int>, lens: map<int, nat>)
  {
    function Get(c: Cell): int { if c in cells then cells[c] else 0 }
    function Len(av: int): nat { if av in lens then lens[av] else 0 }
  }

  /** One raw guest write; storing past the end of an array extends it. */
  function Apply(g: Guest, w: Write): Guest {
    Guest(g.cells[w.cell := w.val],
          if w.cell.Elem? && w.cell.i >= g.Len(w.cell.av) then g.lens[w.cell.av := w.cell.i + 1] else g.lens)
  }

  function ApplyAll(g: Guest, ws: seq<Write>): Guest {
    if ws == [] then g else Apply(ApplyAll(g, ws[..|ws| - 1]), ws[|ws| - 1])
  }

  // Guest tokens are 32 bits wide; a store passes the low half of the host word.
  function Tok32(v: int): int {
    v % 0x1_0000_0000
  }

  // ---- host mirror state --------------------------------------------------------------

  datatype AvMirror = AvMirror(tok: int, buf: seq<int>, shadow: seq<int>)

  datatype IvMirror = IvMirror(tok: int, val: int, shadow: int)

  datatype PlShadow = PlShadow(val: int, dirty: bool)

  datatype Host = Host(
    avs: seq<AvMirror>,
    ivs: seq<IvMirror>, ivN: nat,
    pls: seq<PlShadow>,
    hintsLive: bool, hintsSlot: int, hintsBase: int,
    dieDirty: bool, warnDirty: bool, dieVal: int, warnVal: int,
    curSv: int, curVal: int, curOrig: int)

  predicate Shaped(h: Host) {
    && |h.avs| <= AVMIRROR_MAX && (forall m :: 0 <= m < |h.avs| ==> |h.avs[m].buf| == |h.avs[m].shadow|)
    && |h.ivs| == IVMIRROR_MAX && h.ivN <= IVMIRROR_MAX && |h.pls| == PLSHADOW_MAX
  }

  /** No guest object has two mirrors. */
  predicate Distinct(h: Host) {
    && (forall m, n :: 0 <= m < n < |h.avs| ==> h.avs[m].tok != h.avs[n].tok)
    && (forall m, n :: 0 <= m < n < h.ivN && n < |h.ivs| ==> h.ivs[m].tok != h.ivs[n].tok)
  }

  /** Slots beyond the ones in use have nothing to write. */
  predicate CleanUnused(h: Host) {
    forall k :: h.ivN <= k < |h.ivs| ==> h.ivs[k].val == h.ivs[k].shadow
  }

  ghost predicate Good(h: Host) {
    Shaped(h) && Distinct(h) && CleanUnused(h)
  }

  // ---- what a flush writes, in order --------------------------------------------------

  function CurWrites(h: Host): seq<Write> {
    if h.curSv != 0 && h.curVal != h.curOrig then [Write(Cur(h.curSv), h.curVal)] else []
  }

  function HintWrites(h: Host): seq<Write> {
    if h.hintsLive && h.hintsSlot != h.hintsBase then [Write(Pl(PL_HINTS), h.hintsSlot)] else []
  }

  function HookWrites(h: Host): seq<Write> {
    (if h.dieDirty then [Write(Pl(PL_DIEHOOK), h.dieVal)] else [])
    + (if h.warnDirty then [Write(Pl(PL_WARNHOOK), h.warnVal)] else [])
  }

  function ScalarWrites(h: Host): seq<Write> {
    CurWrites(h) + HintWrites(h) + HookWrites(h)
  }

  function PlWrites(pls: seq<PlShadow>, i: nat): seq<Write>
    decreases |pls| - i
  {
    if i >= |pls| then [] else
    (if pls[i].dirty then [Write(Pl(i), pls[i].val)] else []) + PlWrites(pls, i + 1)
  }

  function IvWrites(ivs: seq<IvMirror>, n: nat, i: nat): seq<Write>
    requires n <= |ivs|
    decreases n - i
  {
    if i >= n then [] else
    (if ivs[i].val != ivs[i].shadow then [Write(Iv(ivs[i].tok), ivs[i].val)] else []) + IvWrites(ivs, n, i + 1)
  }

  function ElemWrites(m: AvMirror, i: nat): seq<Write>
    requires |m.buf| == |m.shadow|
    decreases |m.buf| - i
  {
    if i >= |m.buf| then [] else
    (if m.buf[i] != m.shadow[i] then [Write(Elem(m.tok, i), Tok32(m.buf[i]))] else []) + ElemWrites(m, i + 1)
  }

  function AvWrites(avs: seq<AvMirror>, m: nat): seq<Write>
    requires forall k :: 0 <= k < |avs| ==> |avs[k].buf| == |avs[k].shadow|
    decreases |avs| - m
  {
    if m >= |avs| then [] else ElemWrites(avs[m], 0) + AvWrites(avs, m + 1)
  }

  function Pending(h: Host): seq<Write>
    requires Shaped(h)
  {
    ScalarWrites(h) + PlWrites(h.pls, 0) + IvWrites(h.ivs, h.ivN, 0) + AvWrites(h.avs, 0)
  }

  function SettledIvs(ivs: seq<IvMirror>, n: nat): (r: seq<IvMirror>)
    requires n <= |ivs|
  {
    seq(|ivs|, k requires 0 <= k < |ivs| => if k < n then ivs[k].(shadow := ivs[k].val) else ivs[k])
  }

  function SettledAvs(avs: seq<AvMirror>): seq<AvMirror> {
    seq(|avs|, k requires 0 <= k < |avs| => avs[k].(shadow := avs[k].buf))
  }

  function CleanPls(pls: seq<PlShadow>): seq<PlShadow> {
    seq(|pls|, k requires 0 <= k < |pls| => pls[k].(dirty := false))
  }

  /** The host after a flush: nothing differs from its last sync any more. */
  function Settled(h: Host): Host
    requires Shaped(h)
  {
    h.(avs := SettledAvs(h.avs), ivs := SettledIvs(h.ivs, h.ivN), pls := CleanPls(h.pls),
       hintsBase := if h.hintsLive then h.hintsSlot else h.hintsBase,
       dieDirty := false, warnDirty := false, curSv := 0)
  }

  // ---- the merge ----------------------------------------------------------------------

  /** What the host wants in a guest cell, if it changed the cell since the last sync. */
  ghost predicate Wants(h: Host, c: Cell, v: int)
    requires Shaped(h)
  {
    match c
    case Elem(av, i) =>
      exists m :: 0 <= m < |h.avs| && ElemChanged(h.avs[m], av, i) && v == Tok32(h.avs[m].buf[i])
    case Iv(sv) =>
      exists k :: 0 <= k < h.ivN && h.ivs[k].tok == sv && h.ivs[k].val != h.ivs[k].shadow && v == h.ivs[k].val
    case Pl(id) => PlWants(h, id, v)
    case Cur(sv) => sv != 0 && h.curSv == sv && h.curVal != h.curOrig && v == h.curVal
  }

  ghost predicate ElemChanged(m: AvMirror, av: int, i: int)
    requires |m.buf| == |m.shadow|
  {
    m.tok == av && 0 <= i < |m.buf| && m.buf[i] != m.shadow[i]
  }

  /** A shadow slot outranks the dedicated hook and hints slots of the same variable. */
  ghost predicate PlWants(h: Host, id: int, v: int)
    requires Shaped(h)
  {
    if 0 <= id < PLSHADOW_MAX && h.pls[id].dirty then v == h.pls[id].val
    else if id == PL_DIEHOOK then h.dieDirty && v == h.dieVal
    else if id == PL_WARNHOOK then h.warnDirty && v == h.warnVal
    else id == PL_HINTS && h.hintsLive && h.hintsSlot != h.hintsBase && v == h.hintsSlot
  }

  /** The value the last write to c leaves, if there is one. */
  function LastWrite(ws: seq<Write>, c: Cell): Option<int> {
    if ws == [] then None
    else if ws[|ws| - 1].cell == c then Some(ws[|ws| - 1].val)
    else LastWrite(ws[..|ws| - 1], c)
  }

  lemma {:induction false} ApplyAppend(g: Guest, a: seq<Write>, b: seq<Write>)
    ensures ApplyAll(g, a + b) == ApplyAll(ApplyAll(g, a), b)
  {
    if b == [] {
      assert a + b == a;
    } else {
      ApplyAppend(g, a, b[..|b| - 1]);
      assert (a + b)[..|a + b| - 1] == a + b[..|b| - 1];
    }
  }

  lemma {:induction false} EmptyWrites(g: Guest)
    ensures ApplyAll(g, []) == g
  {
  }

  lemma {:induction false} LastAppend(a: seq<Write>, b: seq<Write>, c: Cell)
    ensures LastWrite(a + b, c) == if LastWrite(b, c).Some? then LastWrite(b, c) else LastWrite(a, c)
  {
    if b == [] {
      assert a + b == a;
    } else {
      LastAppend(a, b[..|b| - 1], c);
      assert (a + b)[..|a + b| - 1] == a + b[..|b| - 1];
    }
  }

  lemma {:induction false} CellAfter(g: Guest, ws: seq<Write>, c: Cell)
    ensures ApplyAll(g, ws).Get(c) == if LastWrite(ws, c).Some? then LastWrite(ws, c).value else g.Get(c)
  {
    if ws != [] {
      CellAfter(g, ws[..|ws| - 1], c);
    }
  }

  lemma {:induction false} LastPl(pls: seq<PlShadow>, i: nat, c: Cell)
    ensures LastWrite(PlWrites(pls, i), c) ==
      if c.Pl? && i <= c.id < |pls| && pls[c.id].dirty then Some(pls[c.id].val) else None
    decreases |pls| - i
  {
    if i < |pls| {
      LastPl(pls, i + 1, c);
      LastAppend(if pls[i].dirty then [Write(Pl(i), pls[i].val)] else [], PlWrites(pls, i + 1), c);
    }
  }

  ghost predicate IvWants(ivs: seq<IvMirror>, n: nat, i: nat, c: Cell, v: int)
    requires n <= |ivs|
  {
    c.Iv? && exists k :: i <= k < n && ivs[k].tok == c.sv && ivs[k].val != ivs[k].shadow && v == ivs[k].val
  }

  lemma {:induction false} LastIv(ivs: seq<IvMirror>, n: nat, i: nat, c: Cell)
    requires n <= |ivs|
    ensures var r := LastWrite(IvWrites(ivs, n, i), c);
      && (r.Some? ==> IvWants(ivs, n, i, c, r.value))
      && (r.None? ==> forall v :: !IvWants(ivs, n, i, c, v))
    decreases n - i
  {
    if i < n {
      LastIv(ivs, n, i + 1, c);
      var w := if ivs[i].val != ivs[i].shadow then [Write(Iv(ivs[i].tok), ivs[i].val)] else [];
      LastAppend(w, IvWrites(ivs, n, i + 1), c);
      forall v ensures IvWants(ivs, n, i, c, v) <==>
          IvWants(ivs, n, i + 1, c, v) || (c == Iv(ivs[i].tok) && ivs[i].val != ivs[i].shadow && v == ivs[i].val) {
      }
    }
  }

  ghost predicate ElemWants(m: AvMirror, i: nat, c: Cell, v: int)
    requires |m.buf| == |m.shadow|
  {
    c.Elem? && i <= c.i && ElemChanged(m, c.av, c.i) && v == Tok32(m.buf[c.i])
  }

  lemma {:induction false} LastElem(m: AvMirror, i: nat, c: Cell)
    requires |m.buf| == |m.shadow|
    ensures var r := LastWrite(ElemWrites(m, i), c);
      && (r.Some? ==> ElemWants(m, i, c, r.value))
      && (r.None? ==> forall v :: !ElemWants(m, i, c, v))
    decreases |m.buf| - i
  {
    if i < |m.buf| {
      LastElem(m, i + 1, c);
      var w := if m.buf[i] != m.shadow[i] then [Write(Elem(m.tok, i), Tok32(m.buf[i]))] else [];
      hide Tok32;
      LastAppend(w, ElemWrites(m, i + 1), c);
      forall v ensures ElemWants(m, i, c, v) <==>
          ElemWants(m, i + 1, c, v) || (c == Elem(m.tok, i) && m.buf[i] != m.shadow[i] && v == Tok32(m.buf[i])) {
      }
    }
  }

  ghost predicate AvWants(avs: seq<AvMirror>, m: nat, c: Cell, v: int)
    requires forall k :: 0 <= k < |avs| ==> |avs[k].buf| == |avs[k].shadow|
  {
    exists k :: m <= k < |avs| && ElemWants(avs[k], 0, c, v)
  }

  lemma {:induction false} LastAv(avs: seq<AvMirror>, m: nat, c: Cell)
    requires forall k :: 0 <= k < |avs| ==> |avs[k].buf| == |avs[k].shadow|
    ensures var r := LastWrite(AvWrites(avs, m), c);
      && (r.Some? ==> AvWants(avs, m, c, r.value))
      && (r.None? ==> forall v :: !AvWants(avs, m, c, v))
    decreases |avs| - m
  {
    if m < |avs| {
      LastAv(avs, m + 1, c);
      LastElem(avs[m], 0, c);
      LastAppend(ElemWrites(avs[m], 0), AvWrites(avs, m + 1), c);
      forall v ensures AvWants(avs, m, c, v) <==> AvWants(avs, m + 1, c, v) || ElemWants(avs[m], 0, c, v) {
      }
    }
  }

  lemma {:induction false} LastPending(h: Host, c: Cell)
    requires Shaped(h)
    ensures var r := LastWrite(Pending(h), c);
      && (r.Some? ==> Wants(h, c, r.value))
      && (r.None? ==> forall v :: !Wants(h, c, v))
  {
    hide LastWrite, PlWrites, IvWrites, AvWrites, ScalarWrites, AvWants, IvWants, Wants;
    var a := ScalarWrites(h);
    LastAppend(a + PlWrites(h.pls, 0) + IvWrites(h.ivs, h.ivN, 0), AvWrites(h.avs, 0), c);
    LastAppend(a + PlWrites(h.pls, 0), IvWrites(h.ivs, h.ivN, 0), c);
    LastAppend(a, PlWrites(h.pls, 0), c);
    LastAv(h.avs, 0, c);
    LastIv(h.ivs, h.ivN, 0, c);
    LastPl(h.pls, 0, c);
    LastDedicated(h, c);
    forall v ensures Wants(h, c, v) <==> WantsBySource(h, c, v) {
      WantsSplits(h, c, v);
    }
  }

  ghost predicate WantsBySource(h: Host, c: Cell, v: int)
    requires Shaped(h)
  {
    || AvWants(h.avs, 0, c, v) || IvWants(h.ivs, h.ivN, 0, c, v) || (c.Pl? && PlWants(h, c.id, v))
    || (c == Cur(h.curSv) && h.curSv != 0 && h.curVal != h.curOrig && v == h.curVal)
  }

  lemma {:induction false} WantsSplits(h: Host, c: Cell, v: int)
    requires Shaped(h)
    ensures Wants(h, c, v) <==> WantsBySource(h, c, v)
  {
    hide Tok32;
    if c.Elem? {
      forall m | 0 <= m < |h.avs| && ElemChanged(h.avs[m], c.av, c.i) && v == Tok32(h.avs[m].buf[c.i])
        ensures AvWants(h.avs, 0, c, v) {
        assert ElemWants(h.avs[m], 0, c, v);
      }
    }
  }

  lemma {:induction false} LastDedicated(h: Host, c: Cell)
    ensures LastWrite(ScalarWrites(h), c) ==
      if c == Pl(PL_WARNHOOK) && h.warnDirty then Some(h.warnVal)
      else if c == Pl(PL_DIEHOOK) && h.dieDirty then Some(h.dieVal)
      else if c == Pl(PL_HINTS) && h.hintsLive && h.hintsSlot != h.hintsBase then Some(h.hintsSlot)
      else if c == Cur(h.curSv) && h.curSv != 0 && h.curVal != h.curOrig then Some(h.curVal)
      else None
  {
    LastAppend(CurWrites(h) + HintWrites(h), HookWrites(h), c);
    LastAppend(CurWrites(h), HintWrites(h), c);
    var die := if h.dieDirty then [Write(Pl(PL_DIEHOOK), h.dieVal)] else [];
    var warn := if h.warnDirty then [Write(Pl(PL_WARNHOOK), h.warnVal)] else [];
    LastAppend(die, warn, c);
  }

  /** A flush is a three-way merge: a guest cell becomes the host's value exactly when the host
      changed it since the last sync, and keeps its own otherwise. */
  lemma {:induction false} FlushMerges(h: Host, g: Guest, c: Cell, v: int)
    requires Good(h)
    ensures Wants(h, c, v) ==> ApplyAll(g, Pending(h)).Get(c) == v
    ensures (forall u :: !Wants(h, c, u)) ==> ApplyAll(g, Pending(h)).Get(c) == g.Get(c)
  {
    CellAfter(g, Pending(h), c);
    LastPending(h, c);
  }

  /** Writes inside an array leave its length. */
  lemma {:induction false} LenKept(g: Guest, ws: seq<Write>, av: int)
    requires forall w :: w in ws && w.cell.Elem? && w.cell.av == av ==> w.cell.i < g.Len(av)
    ensures ApplyAll(g, ws).Len(av) == g.Len(av)
  {
    if ws != [] {
      LenKept(g, ws[..|ws| - 1], av);
      assert ws[|ws| - 1] in ws;
    }
  }

  /** A write to an array is one the last write to its cell could be. */
  lemma {:induction false} WriteHasLast(ws: seq<Write>, w: Write)
    requires w in ws
    ensures LastWrite(ws, w.cell).Some?
  {
    if ws[|ws| - 1] != w {
      assert w in ws[..|ws| - 1];
      WriteHasLast(ws[..|ws| - 1], w);
    }
  }

  /** Every array element the host changed is the low half of its word in the guest after a flush,
      and so the word itself when that is a guest token. */
  lemma {:induction false} ElemReadsBack(h: Host, g: Guest, m: nat, i: nat)
    requires Good(h) && m < |h.avs| && i < |h.avs[m].buf|
    requires h.avs[m].buf[i] != h.avs[m].shadow[i]
    ensures var v := ApplyAll(g, Pending(h)).Get(Elem(h.avs[m].tok, i));
      && 0 <= v < 0x1_0000_0000 && (h.avs[m].buf[i] - v) % 0x1_0000_0000 == 0
      && (0 <= h.avs[m].buf[i] < 0x1_0000_0000 ==> v == h.avs[m].buf[i])
  {
    assert ElemChanged(h.avs[m], h.avs[m].tok, i);
    FlushMerges(h, g, Elem(h.avs[m].tok, i), Tok32(h.avs[m].buf[i]));
    LowHalf(h.avs[m].buf[i]);
  }

  lemma {:induction false} LowHalf(v: int)
    ensures 0 <= Tok32(v) < 0x1_0000_0000 && (v - Tok32(v)) % 0x1_0000_0000 == 0
    ensures 0 <= v < 0x1_0000_0000 ==> Tok32(v) == v
  {
  }

  /** Read after write: a mirror taken from the guest, with guest tokens then stored into it at any
      places, is what the guest's array is after a flush. */
  lemma {:induction false} ArrayReadsBack(h: Host, g: Guest, m: nat)
    requires Good(h) && m < |h.avs| && |h.avs[m].shadow| == g.Len(h.avs[m].tok)
    requires forall i :: 0 <= i < |h.avs[m].shadow| ==> h.avs[m].shadow[i] == g.Get(Elem(h.avs[m].tok, i))
    requires forall i :: 0 <= i < |h.avs[m].buf| ==> h.avs[m].buf[i] == h.avs[m].shadow[i] || 0 <= h.avs[m].buf[i] < 0x1_0000_0000
    ensures var g2 := ApplyAll(g, Pending(h));
      g2.Len(h.avs[m].tok) == |h.avs[m].buf| && forall i :: 0 <= i < |h.avs[m].buf| ==> g2.Get(Elem(h.avs[m].tok, i)) == h.avs[m].buf[i]
  {
    hide Tok32, Pending, ApplyAll;
    var a := h.avs[m];
    forall i | 0 <= i < |a.buf| ensures ApplyAll(g, Pending(h)).Get(Elem(a.tok, i)) == a.buf[i] {
      if a.buf[i] != a.shadow[i] {
        ElemReadsBack(h, g, m, i);
      } else {
        forall v ensures !Wants(h, Elem(a.tok, i), v) {
          OnlyMirror(h, m, i, v);
        }
        FlushMerges(h, g, Elem(a.tok, i), 0);
      }
    }
    forall w | w in Pending(h) && w.cell.Elem? && w.cell.av == a.tok ensures w.cell.i < g.Len(a.tok) {
      WriteHasLast(Pending(h), w);
      LastPending(h, w.cell);
      OnlyMirror(h, m, w.cell.i, LastWrite(Pending(h), w.cell).value);
    }
    LenKept(g, Pending(h), a.tok);
  }

  /** What the host wants in an element comes from the array's one mirror. */
  lemma {:induction false} OnlyMirror(h: Host, m: nat, i: int, v: int)
    requires Good(h) && m < |h.avs|
    ensures Wants(h, Elem(h.avs[m].tok, i), v) ==> 0 <= i < |h.avs[m].buf| && h.avs[m].buf[i] != h.avs[m].shadow[i]
  {
    hide Tok32;
  }

  /** An integer the host set reads back as set. */
  lemma {:induction false} IntegerReadsBack(h: Host, g: Guest, k: nat)
    requires Good(h) && k < h.ivN && (h.ivs[k].val == h.ivs[k].shadow ==> h.ivs[k].shadow == g.Get(Iv(h.ivs[k].tok)))
    ensures ApplyAll(g, Pending(h)).Get(Iv(h.ivs[k].tok)) == h.ivs[k].val
  {
    hide Pending, ApplyAll;
    var m := h.ivs[k];
    FlushMerges(h, g, Iv(m.tok), m.val);
  }

  // A variable with a slot of its own besides the shadow table.
  predicate Dedicated(id: int) {
    id == PL_DIEHOOK || id == PL_WARNHOOK || id == PL_HINTS
  }

  /** Reading an interpreter variable marks it dirty with the guest's own value.  Without an
      assignment the flush then writes that value back: no cell differs from a flush without the
      read, unless the variable has a slot of its own with a write pending. */
  lemma {:induction false} ReadIsHarmless(h: Host, g: Guest, id: nat, c: Cell)
    requires Good(h) && id < PLSHADOW_MAX && !h.pls[id].dirty
    ensures var t := h.(pls := h.pls[id := PlShadow(g.Get(Pl(id)), true)]);
      && Good(t)
      && ApplyAll(g, Pending(t)).Get(c) == (if c == Pl(id) then g.Get(c) else ApplyAll(g, Pending(h)).Get(c))
      && (!Dedicated(id) ==> ApplyAll(g, Pending(t)).Get(c) == ApplyAll(g, Pending(h)).Get(c))
  {
    hide Pending, ApplyAll, ElemChanged;
    var t := h.(pls := h.pls[id := PlShadow(g.Get(Pl(id)), true)]);
    assert Distinct(t) && CleanUnused(t);
    if v :| Wants(h, c, v) {
      ReadWants(h, g, id, c, v);
      FlushMerges(h, g, c, v);
      FlushMerges(t, g, c, if c == Pl(id) then g.Get(c) else v);
    } else {
      ReadWants(h, g, id, c, g.Get(c));
      FlushMerges(h, g, c, 0);
      forall v ensures c != Pl(id) ==> !Wants(t, c, v) {
        ReadWants(h, g, id, c, v);
      }
      FlushMerges(t, g, c, g.Get(c));
    }
  }

  lemma {:induction false} ReadWants(h: Host, g: Guest, id: nat, c: Cell, v: int)
    requires Good(h) && id < PLSHADOW_MAX && !h.pls[id].dirty
    ensures var t := h.(pls := h.pls[id := PlShadow(g.Get(Pl(id)), true)]);
      && Shaped(t)
      && (Wants(t, c, v) <==> if c == Pl(id) then v == g.Get(c) else Wants(h, c, v))
      && (!Dedicated(id) && c == Pl(id) ==> !Wants(h, c, v))
  {
    hide Tok32;
  }

  lemma {:induction false} SettledIvWrites(ivs: seq<IvMirror>, n: nat, m: nat, i: nat)
    requires n <= |ivs| && m <= |ivs| && forall k :: n <= k < m ==> ivs[k].val == ivs[k].shadow
    ensures IvWrites(SettledIvs(ivs, n), m, i) == []
    decreases m - i
  {
    if i < m {
      SettledIvWrites(ivs, n, m, i + 1);
    }
  }

  lemma {:induction false} SettledElemWrites(m: AvMirror, i: nat)
    requires m.buf == m.shadow
    ensures ElemWrites(m, i) == []
    decreases |m.buf| - i
  {
    if i < |m.buf| {
      SettledElemWrites(m, i + 1);
    }
  }

  lemma {:induction false} SettledAvWrites(avs: seq<AvMirror>, m: nat)
    requires forall k :: 0 <= k < |avs| ==> avs[k].buf == avs[k].shadow
    ensures AvWrites(avs, m) == []
    decreases |avs| - m
  {
    if m < |avs| {
      SettledElemWrites(avs[m], 0);
      SettledAvWrites(avs, m + 1);
    }
  }

  lemma {:induction false} CleanPlWrites(pls: seq<PlShadow>, i: nat)
    requires forall k :: 0 <= k < |pls| ==> !pls[k].dirty
    ensures PlWrites(pls, i) == []
    decreases |pls| - i
  {
    if i < |pls| {
      CleanPlWrites(pls, i + 1);
    }
  }

  /** A flush leaves nothing to write: the next one issues no guest operation. */
  lemma {:induction false} FlushSettles(h: Host)
    requires Good(h)
    ensures Good(Settled(h)) && Pending(Settled(h)) == []
  {
    var s := Settled(h);
    SettledIvWrites(h.ivs, h.ivN, h.ivN, 0);
    SettledAvWrites(s.avs, 0);
    CleanPlWrites(s.pls, 0);
  }

  // ---- taking a mirror ----------------------------------------------------------------

  lemma {:induction false} FreshAvWrites(avs: seq<AvMirror>, tok: int, m: nat)
    requires m <= |avs| && forall k :: 0 <= k < |avs| ==> |avs[k].buf| == |avs[k].shadow|
    ensures AvWrites(avs + [AvMirror(tok, [], [])], m) == AvWrites(avs, m)
    decreases |avs| - m
  {
    var more := avs + [AvMirror(tok, [], [])];
    if m < |avs| {
      FreshAvWrites(avs, tok, m + 1);
    } else {
      assert AvWrites(more, m) == ElemWrites(more[m], 0) + AvWrites(more, m + 1);
    }
  }

  lemma {:induction false} FreshIvWrites(ivs: seq<IvMirror>, n: nat, tok: int, i: nat)
    requires n < |ivs| && i <= n && ivs[n].val == ivs[n].shadow
    ensures IvWrites(ivs[n := ivs[n].(tok := tok)], n + 1, i) == IvWrites(ivs, n, i)
    decreases n - i
  {
    if i < n {
      FreshIvWrites(ivs, n, tok, i + 1);
    } else {
      assert IvWrites(ivs[n := ivs[n].(tok := tok)], n + 1, n + 1) == [];
    }
  }

  function WithAv(h: Host, tok: int): Host {
    h.(avs := h.avs + [AvMirror(tok, [], [])])
  }

  function WithIv(h: Host, tok: int): Host
    requires h.ivN < |h.ivs|
  {
    h.(ivs := h.ivs[h.ivN := h.ivs[h.ivN].(tok := tok)], ivN := h.ivN + 1)
  }

  predicate HasAv(h: Host, tok: int) {
    exists m :: 0 <= m < |h.avs| && h.avs[m].tok == tok
  }

  predicate HasIv(h: Host, tok: int) {
    exists k :: 0 <= k < h.ivN && k < |h.ivs| && h.ivs[k].tok == tok
  }

  /** A new mirror starts clean, so taking it adds nothing to the coming flush. */
  lemma {:induction false} FreshAvIsClean(h: Host, tok: int)
    requires Good(h) && |h.avs| < AVMIRROR_MAX && !HasAv(h, tok)
    ensures Good(WithAv(h, tok)) && Pending(WithAv(h, tok)) == Pending(h)
  {
    hide AvWrites, IvWrites, PlWrites;
    FreshAvWrites(h.avs, tok, 0);
  }

  lemma {:induction false} FreshIvIsClean(h: Host, tok: int)
    requires Good(h) && h.ivN < IVMIRROR_MAX && !HasIv(h, tok)
    ensures Good(WithIv(h, tok)) && Pending(WithIv(h, tok)) == Pending(h)
  {
    hide AvWrites, IvWrites, PlWrites;
    FreshIvWrites(h.ivs, h.ivN, tok, 0);
  }

  /** No pending write can hit an integer that had no mirror. */
  lemma {:induction false} FreshIvUnchanged(h: Host, g: Guest, tok: int)
    requires Good(h)
    ensures !HasIv(h, tok) ==> ApplyAll(g, Pending(h)).Get(Iv(tok)) == g.Get(Iv(tok))
  {
    FlushMerges(h, g, Iv(tok), 0);
  }

  function Contents(g: Guest, av: int): (r: seq<int>)
    ensures |r| == g.Len(av)
  {
    seq(g.Len(av), i => g.Get(Elem(av, i)))
  }

  // ---- the runtime --------------------------------------------------------------------

  lemma {:induction false} SyncedIvWrites(ivs: seq<IvMirror>, n: nat, k: nat, v: int, i: nat)
    requires k < n <= |ivs| && IvWrites(ivs, n, i) == []
    ensures IvWrites(ivs[k := ivs[k].(val := v, shadow := v)], n, i) == []
    decreases n - i
  {
    if i < n {
      SyncedIvWrites(ivs, n, k, v, i + 1);
    }
  }

  lemma {:induction false} SyncedAvWrites(avs: seq<AvMirror>, m: nat, e: AvMirror, i: nat)
    requires m < |avs| && e.buf == e.shadow && forall k :: 0 <= k < |avs| ==> |avs[k].buf| == |avs[k].shadow|
    requires AvWrites(avs, i) == []
    ensures AvWrites(avs[m := e], i) == []
    decreases |avs| - i
  {
    if i < |avs| {
      SettledElemWrites(e, 0);
      SyncedAvWrites(avs, m, e, i + 1);
    }
  }

  lemma {:induction false} NoIvWrites(ivs: seq<IvMirror>, n: nat, i: nat, k: nat)
    requires n <= |ivs| && IvWrites(ivs, n, i) == [] && i <= k < n
    ensures ivs[k].val == ivs[k].shadow
    decreases n - i
  {
    if i < k {
      NoIvWrites(ivs, n, i + 1, k);
    }
  }

  /** Slots dropped after a flush are clean, like those never used. */
  lemma {:induction false} DroppedIvsClean(ivs: seq<IvMirror>, n: nat)
    requires n <= |ivs| && IvWrites(ivs, n, 0) == [] && forall k :: n <= k < |ivs| ==> ivs[k].val == ivs[k].shadow
    ensures forall k :: 0 <= k < |ivs| ==> ivs[k].val == ivs[k].shadow
  {
    forall k | 0 <= k < n ensures ivs[k].val == ivs[k].shadow {
      NoIvWrites(ivs, n, 0, k);
    }
  }

  lemma {:induction false} GoodShape(h: Host)
    ensures Good(h) ==> Shaped(h)
  {
  }

  lemma {:induction false} SameScalars(h: Host, t: Host)
    requires t.(avs := h.avs, ivs := h.ivs, ivN := h.ivN) == h
    ensures ScalarWrites(t) == ScalarWrites(h)
  {
  }

  /** An AV mirror with its shadow copied from its buffer leaves nothing to write. */
  lemma {:induction false} SyncedAv(h: Host, m: nat, buf: seq<int>)
    requires Good(h) && m < |h.avs| && Pending(h) == []
    ensures var t := h.(avs := h.avs[m := AvMirror(h.avs[m].tok, buf, buf)]); Good(t) && Pending(t) == []
  {
    var t := h.(avs := h.avs[m := AvMirror(h.avs[m].tok, buf, buf)]);
    hide AvWrites, PlWrites, IvWrites, Pending, HintWrites, HookWrites, CurWrites;
    assert forall k :: 0 <= k < |h.avs| ==> t.avs[k].tok == h.avs[k].tok;
    SameScalars(h, t);
    SyncedAvWrites(h.avs, m, t.avs[m], 0);
    PendingParts(h);
    PendingParts(t);
  }

  lemma {:induction false} IvStep(ivs: seq<IvMirror>, n: nat, i: nat, ws: seq<Write>)
    requires i < n <= |ivs|
    ensures ws + IvWrites(ivs, n, i) == (if ivs[i].val != ivs[i].shadow then ws + [Write(Iv(ivs[i].tok), ivs[i].val)] else ws) + IvWrites(ivs, n, i + 1)
  {
  }

  lemma {:induction false} IvsOver(ivs: seq<IvMirror>, n: nat, ws: seq<Write>)
    requires n <= |ivs|
    ensures ws + IvWrites(ivs, n, n) == ws
  {
  }

  lemma {:induction false} PlStep(pls: seq<PlShadow>, i: nat, ws: seq<Write>)
    requires i < |pls|
    ensures ws + PlWrites(pls, i) == (if pls[i].dirty then ws + [Write(Pl(i), pls[i].val)] else ws) + PlWrites(pls, i + 1)
  {
  }

  lemma {:induction false} PlsOver(pls: seq<PlShadow>, ws: seq<Write>)
    ensures ws + PlWrites(pls, |pls|) == ws
  {
  }

  lemma {:induction false} ElemStep(m: AvMirror, i: nat, ws: seq<Write>)
    requires |m.buf| == |m.shadow| && i < |m.buf|
    ensures ws + ElemWrites(m, i) ==
      (if m.buf[i] != m.shadow[i] then ws + [Write(Elem(m.tok, i), Tok32(m.buf[i]))] else ws) + ElemWrites(m, i + 1)
  {
  }

  lemma {:induction false} ElemsOver(m: AvMirror, ws: seq<Write>)
    requires |m.buf| == |m.shadow|
    ensures ws + ElemWrites(m, |m.buf|) == ws
  {
  }

  /** An IV mirror with its shadow set to its value leaves nothing to write. */
  lemma {:induction false} SyncedIv(h: Host, k: nat, v: int)
    requires Good(h) && k < h.ivN && Pending(h) == []
    ensures k < |h.ivs|
    ensures var t := h.(ivs := h.ivs[k := IvMirror(h.ivs[k].tok, v, v)]); Good(t) && Pending(t) == []
  {
    var t := h.(ivs := h.ivs[k := IvMirror(h.ivs[k].tok, v, v)]);
    SyncedIvGood(h, k, v);
    GoodShape(h);
    GoodShape(t);
    hide Good, Shaped, AvWrites, PlWrites, IvWrites, Pending, ScalarWrites;
    GoodSlots(h);
    SyncedIvWrites(h.ivs, h.ivN, k, v, 0);
    assert h.ivs[k].(val := v, shadow := v) == IvMirror(h.ivs[k].tok, v, v);
    PendingParts(h);
    PendingParts(t);
    SameScalars(h, t);
  }

  lemma {:induction false} GoodSlots(h: Host)
    requires Good(h)
    ensures h.ivN <= |h.ivs| && forall k :: 0 <= k < |h.avs| ==> |h.avs[k].buf| == |h.avs[k].shadow|
  {
  }

  lemma {:induction false} PendingParts(h: Host)
    requires Shaped(h)
    ensures Pending(h) == [] <==>
      ScalarWrites(h) == [] && PlWrites(h.pls, 0) == [] && IvWrites(h.ivs, h.ivN, 0) == [] && AvWrites(h.avs, 0) == []
  {
  }

  lemma {:induction false} SyncedIvGood(h: Host, k: nat, v: int)
    requires Good(h) && k < h.ivN
    ensures k < |h.ivs| && Good(h.(ivs := h.ivs[k := IvMirror(h.ivs[k].tok, v, v)]))
  {
    var t := h.(ivs := h.ivs[k := IvMirror(h.ivs[k].tok, v, v)]);
    assert forall j :: 0 <= j < |h.ivs| ==> t.ivs[j].tok == h.ivs[j].tok;
  }

  /** With nothing pending the mirrors can be let go. */
  lemma {:induction false} DroppedClean(h: Host)
    requires Good(h) && Pending(h) == []
    ensures var t := h.(avs := [], ivN := 0); Good(t) && Pending(t) == []
  {
    PendingParts(h);
    DroppedIvsClean(h.ivs, h.ivN);
    PendingParts(h.(avs := [], ivN := 0));
  }

  class MirrorRuntime {
    var avs: seq<AvMirror>
    const ivs: array<IvMirror>
    var ivN: nat
    const pls: array<PlShadow>
    var hintsLive: bool
    var hintsSlot: int
    var hintsBase: int
    var dieDirty: bool
    var warnDirty: bool
    var dieVal: int
    var warnVal: int
    var curSv: int
    var curVal: int
    var curOrig: int

    /** The guest behind the raw operations, and every write they made. */
    var guest: Guest
    var log: seq<Write>

    ghost function Abs(): Host
      reads this, ivs, pls
    {
      Host(avs, ivs[..], ivN, pls[..], hintsLive, hintsSlot, hintsBase, dieDirty, warnDirty, dieVal, warnVal,
           curSv, curVal, curOrig)
    }

    ghost predicate Valid()
      reads this, ivs, pls
    {
      Good(Abs())
    }

    /** ws have been written since the guest was g0 and the log was log0. */
    ghost predicate Wrote(g0: Guest, log0: seq<Write>, ws: seq<Write>)
      reads this`guest, this`log
    {
      guest == ApplyAll(g0, ws) && log == log0 + ws
    }

    method RawWrite(c: Cell, v: int)
      modifies this`guest, this`log
      ensures guest == Apply(old(guest), Write(c, v)) && log == old(log) + [Write(c, v)]
    {
      guest := Apply(guest, Write(c, v));
      log := log + [Write(c, v)];
    }

    method SvcurWriteback()
      modifies this`guest, this`log, this`curSv
      ensures curSv == 0 && Wrote(old(guest), old(log), CurWrites(old(Abs())))
    {
      if curSv != 0 && curVal != curOrig {
        var sv := curSv;
        curSv := 0;
        RawWrite(Cur(sv), curVal);
      }
      curSv := 0;
    }

    method HintsFlush()
      modifies this`guest, this`log, this`hintsBase
      ensures hintsBase == if hintsLive then hintsSlot else old(hintsBase)
      ensures Wrote(old(guest), old(log), HintWrites(old(Abs())))
    {
      if hintsLive && hintsSlot != hintsBase {
        hintsBase := hintsSlot;
        RawWrite(Pl(PL_HINTS), hintsSlot);
      }
    }

    method HooksFlush()
      modifies this`guest, this`log, this`dieDirty, this`warnDirty
      ensures !dieDirty && !warnDirty && Wrote(old(guest), old(log), HookWrites(old(Abs())))
    {
      var die, warn := dieDirty, warnDirty;
      dieDirty, warnDirty := false, false;
      ghost var ws: seq<Write> := [];
      if die {
        RawWrite(Pl(PL_DIEHOOK), dieVal);
        ws := Extend(old(guest), ws, Write(Pl(PL_DIEHOOK), dieVal));
      }
      if warn {
        RawWrite(Pl(PL_WARNHOOK), warnVal);
        ws := Extend(old(guest), ws, Write(Pl(PL_WARNHOOK), warnVal));
      }
      assert ws == HookWrites(old(Abs()));
    }

    method PlShadowFlush()
      modifies this`guest, this`log, pls
      ensures pls[..] == CleanPls(old(pls[..])) && Wrote(old(guest), old(log), PlWrites(old(pls[..]), 0))
    {
      hide ApplyAll, PlWrites;
      EmptyWrites(guest);
      ghost var was := pls[..];
      ghost var ws: seq<Write> := [];
      for i := 0 to pls.Length
        invariant Wrote(old(guest), old(log), ws) && ws + PlWrites(was, i) == PlWrites(was, 0)
        invariant forall k :: 0 <= k < i ==> pls[k] == was[k].(dirty := false)
        invariant forall k :: i <= k < pls.Length ==> pls[k] == was[k]
      {
        PlStep(was, i, ws);
        if pls[i].dirty {
          pls[i] := pls[i].(dirty := false);
          RawWrite(Pl(i), pls[i].val);
          ws := Extend(old(guest), ws, Write(Pl(i), was[i].val));
        }
      }
      PlsOver(was, ws);
    }

    method IvMirrorFlush()
      requires ivN <= ivs.Length
      modifies this`guest, this`log, ivs
      ensures ivs[..] == SettledIvs(old(ivs[..]), ivN)
      ensures Wrote(old(guest), old(log), IvWrites(old(ivs[..]), ivN, 0))
    {
      hide ApplyAll, IvWrites;
      EmptyWrites(guest);
      ghost var was := ivs[..];
      ghost var ws: seq<Write> := [];
      for i := 0 to ivN
        invariant Wrote(old(guest), old(log), ws) && ws + IvWrites(was, ivN, i) == IvWrites(was, ivN, 0)
        invariant forall k :: 0 <= k < i ==> ivs[k] == was[k].(shadow := was[k].val)
        invariant forall k :: i <= k < ivs.Length ==> ivs[k] == was[k]
      {
        IvStep(was, ivN, i, ws);
        if ivs[i].val != ivs[i].shadow {
          RawWrite(Iv(ivs[i].tok), ivs[i].val);
          ivs[i] := ivs[i].(shadow := ivs[i].val);
          ws := Extend(old(guest), ws, Write(Iv(was[i].tok), was[i].val));
        }
      }
      IvsOver(was, ivN, ws);
    }

    ghost method Extend(g: Guest, ws: seq<Write>, w: Write) returns (r: seq<Write>)
      ensures r == ws + [w] && ApplyAll(g, r) == Apply(ApplyAll(g, ws), w)
    {
      r := ws + [w];
    }

    /** The inner loop of goperl_avmirror_flush, on one mirror. */
    method ElemFlush(mir: AvMirror) returns (shadow: seq<int>)
      requires |mir.buf| == |mir.shadow|
      modifies this`guest, this`log
      ensures shadow == mir.buf && Wrote(old(guest), old(log), ElemWrites(mir, 0))
    {
      hide ApplyAll, ElemWrites;
      shadow := mir.shadow;
      ghost var ws: seq<Write> := [];
      EmptyWrites(guest);
      for i := 0 to |mir.buf|
        invariant |shadow| == |mir.shadow|
        invariant (forall k :: 0 <= k < i ==> shadow[k] == mir.buf[k]) && forall k :: i <= k < |shadow| ==> shadow[k] == mir.shadow[k]
        invariant Wrote(old(guest), old(log), ws) && ws + ElemWrites(mir, i) == ElemWrites(mir, 0)
      {
        ElemStep(mir, i, ws);
        if mir.buf[i] != shadow[i] {
          RawWrite(Elem(mir.tok, i), Tok32(mir.buf[i]));
          shadow := shadow[i := mir.buf[i]];
          ws := Extend(old(guest), ws, Write(Elem(mir.tok, i), Tok32(mir.buf[i])));
        }
      }
      ElemsOver(mir, ws);
    }

    ghost method Chain(g: Guest, l: seq<Write>, a: seq<Write>, b: seq<Write>) returns (ws: seq<Write>)
      requires guest == ApplyAll(ApplyAll(g, a), b) && log == l + a + b
      ensures ws == a + b && Wrote(g, l, ws)
    {
      ws := a + b;
      ApplyAppend(g, a, b);
    }

    method AvMirrorFlush()
      requires forall m :: 0 <= m < |avs| ==> |avs[m].buf| == |avs[m].shadow|
      modifies this`guest, this`log, this`avs
      ensures avs == SettledAvs(old(avs)) && Wrote(old(guest), old(log), AvWrites(old(avs), 0))
    {
      hide ApplyAll, ElemWrites;
      ghost var was := avs;
      ghost var ws: seq<Write> := [];
      EmptyWrites(guest);
      for m := 0 to |avs|
        invariant |avs| == |was|
        invariant Wrote(old(guest), old(log), ws) && ws + AvWrites(was, m) == AvWrites(was, 0)
        invariant forall k :: 0 <= k < m ==> avs[k] == was[k].(shadow := was[k].buf)
        invariant forall k :: m <= k < |was| ==> avs[k] == was[k]
      {
        var shadow := ElemFlush(avs[m]);
        avs := avs[m := avs[m].(shadow := shadow)];
        ApplyAppend(old(guest), ws, ElemWrites(was[m], 0));
        ws := ws + ElemWrites(was[m], 0);
      }
      assert ws + [] == ws;
    }

    /** The three dedicated slots, first in goperl_flush. */
    method ScalarFlush()
      modifies this`guest, this`log, this`curSv, this`hintsBase, this`dieDirty, this`warnDirty
      ensures curSv == 0 && !dieDirty && !warnDirty
      ensures hintsBase == if hintsLive then hintsSlot else old(hintsBase)
      ensures Wrote(old(guest), old(log), ScalarWrites(old(Abs())))
    {
      hide ApplyAll;
      ghost var h := Abs();
      ghost var g, l := guest, log;
      SvcurWriteback();
      HintsFlush();
      ghost var ws := Chain(g, l, CurWrites(h), HintWrites(h));
      HooksFlush();
      ws := Chain(g, l, ws, HookWrites(h));
    }

    /** The interpreter variables, the IV mirrors and the array mirrors, in that order. */
    method TableFlush()
      requires ivN <= ivs.Length && forall m :: 0 <= m < |avs| ==> |avs[m].buf| == |avs[m].shadow|
      modifies this`guest, this`log, this`avs, ivs, pls
      ensures pls[..] == CleanPls(old(pls[..])) && ivs[..] == SettledIvs(old(ivs[..]), ivN) && avs == SettledAvs(old(avs))
      ensures Wrote(old(guest), old(log), PlWrites(old(pls[..]), 0) + IvWrites(old(ivs[..]), ivN, 0) + AvWrites(old(avs), 0))
    {
      hide ApplyAll, PlWrites, IvWrites, AvWrites, CleanPls, SettledIvs, SettledAvs;
      ghost var g, l := guest, log;
      ghost var p, v, a := PlWrites(pls[..], 0), IvWrites(ivs[..], ivN, 0), AvWrites(avs, 0);
      PlShadowFlush();
      IvMirrorFlush();
      ghost var ws := Chain(g, l, p, v);
      AvMirrorFlush();
      ws := Chain(g, l, ws, a);
    }

    /** goperl_flush, without the op-table proxies. */
    method Flush()
      requires Valid()
      modifies this, ivs, pls
      ensures Abs() == Settled(old(Abs())) && Valid() && Pending(Abs()) == []
      ensures Wrote(old(guest), old(log), Pending(old(Abs())))
    {
      hide ApplyAll, PlWrites, IvWrites, AvWrites, ScalarWrites, Distinct, CleanUnused;
      ghost var h := Abs();
      ghost var g, l := guest, log;
      FlushSettles(h);
      GoodShape(h);
      hide Good, SettledIvs, SettledAvs, CleanPls, Shaped;
      ScalarFlush();
      TableFlush();
      ghost var ws := Chain(g, l, ScalarWrites(h), PlWrites(h.pls, 0) + IvWrites(h.ivs, h.ivN, 0) + AvWrites(h.avs, 0));
      assert ws == Pending(h);
    }

    /** goperl_do_op: the funnel every guest operation goes through. */
    method DoOp(effect: Guest -> Guest)
      requires Valid()
      modifies this, ivs, pls
      ensures Abs() == Settled(old(Abs())) && Valid()
      ensures guest == effect(ApplyAll(old(guest), Pending(old(Abs())))) && log == old(log) + Pending(old(Abs()))
    {
      Flush();
      guest := effect(guest);
    }

    /** goperl_plint_ref: refresh the shadow of a variable unless a write is pending. */
    method PlintRef(id: nat)
      requires Valid() && id < PLSHADOW_MAX
      modifies pls
      ensures Valid() && pls[id].dirty
      ensures pls[id].val == if old(pls[id].dirty) then old(pls[id].val) else guest.Get(Pl(id))
      ensures forall k :: 0 <= k < pls.Length && k != id ==> pls[k] == old(pls[k])
    {
      if !pls[id].dirty {
        pls[id] := pls[id].(val := guest.Get(Pl(id)));
      }
      pls[id] := pls[id].(dirty := true);
    }

    /** The lookup loop of goperl_ivx_ref. */
    method FindIv(tok: int) returns (k: Option<nat>)
      requires Valid()
      ensures k.Some? ==> k.value < ivN && ivs[k.value].tok == tok
      ensures k.None? ==> !HasIv(Abs(), tok)
    {
      for i := 0 to ivN
        invariant ivN <= ivs.Length && forall j :: 0 <= j < i ==> ivs[j].tok != tok
      {
        if ivs[i].tok == tok {
          return Some(i);
        }
      }
      return None;
    }

    /** goperl_ivx_ref: the slot whose value SvIVX reads and assigns; None for a croak. */
    method IvxRef(tok: int) returns (k: Option<nat>)
      requires Valid()
      modifies this, ivs, pls
      ensures Valid()
      ensures k.None? <==> !HasIv(old(Abs()), tok) && old(ivN) == IVMIRROR_MAX
      ensures k.None? ==> Abs() == old(Abs()) && guest == old(guest) && log == old(log)
      ensures k.Some? ==>
        && k.value < ivN && ivs[k.value] == IvMirror(tok, guest.Get(Iv(tok)), guest.Get(Iv(tok)))
        && Wrote(old(guest), old(log), Pending(old(Abs()))) && Pending(Abs()) == []
        && ivN == (if HasIv(old(Abs()), tok) then old(ivN) else old(ivN) + 1)
      ensures k.Some? && !HasIv(old(Abs()), tok) ==> guest.Get(Iv(tok)) == old(guest).Get(Iv(tok))
    {
      hide Pending;
      ghost var h, g := Abs(), guest;
      k := TakeIv(tok);
      if k == None {
        return;
      }
      Flush();
      FreshIvUnchanged(h, g, tok);
      SyncedIv(Abs(), k.value, guest.Get(Iv(tok)));
      SyncIv(k.value, tok);
    }

    /** The slot mirroring tok, found or claimed. */
    method TakeIv(tok: int) returns (k: Option<nat>)
      requires Valid()
      modifies this`ivN, ivs
      ensures Valid()
      ensures k.None? <==> !HasIv(old(Abs()), tok) && old(ivN) == IVMIRROR_MAX
      ensures k.None? || HasIv(old(Abs()), tok) ==> Abs() == old(Abs())
      ensures k.Some? && !HasIv(old(Abs()), tok) ==> Abs() == WithIv(old(Abs()), tok)
      ensures k.Some? ==> k.value < ivN && ivs[k.value].tok == tok && Pending(Abs()) == Pending(old(Abs()))
    {
      hide Pending;
      ghost var h := Abs();
      k := FindIv(tok);
      if k == None {
        if ivN >= IVMIRROR_MAX {
          return None;
        }
        FreshIvIsClean(h, tok);
        ivs[ivN] := ivs[ivN].(tok := tok);
        k := Some(ivN);
        ivN := ivN + 1;
        assert Abs() == WithIv(h, tok);
      }
    }

    /** The refresh of the slot from the guest. */
    method SyncIv(k: nat, tok: int)
      requires k < ivs.Length
      modifies ivs
      ensures ivs[..] == old(ivs[..])[k := IvMirror(tok, guest.Get(Iv(tok)), guest.Get(Iv(tok)))]
    {
      var v := guest.Get(Iv(tok));
      ivs[k] := IvMirror(tok, v, v);
    }

    /** A module assigns through the slot IvxRef gave it. */
    method AssignIv(k: nat, v: int)
      requires Valid() && k < ivN
      modifies ivs
      ensures Valid() && Abs() == old(Abs()).(ivs := old(Abs()).ivs[k := old(ivs[k]).(val := v)])
    {
      ivs[k] := ivs[k].(val := v);
    }

    /** A module stores through the array AvArray gave it. */
    method AssignElem(m: nat, i: nat, v: int)
      requires Valid() && m < |avs| && i < |avs[m].buf|
      modifies this`avs
      ensures Valid() && Abs() == old(Abs()).(avs := old(avs)[m := old(avs)[m].(buf := old(avs)[m].buf[i := v])])
    {
      avs := avs[m := avs[m].(buf := avs[m].buf[i := v])];
    }

    method FindAv(tok: int) returns (m: Option<nat>)
      requires Valid()
      ensures m.Some? ==> m.value < |avs| && avs[m.value].tok == tok
      ensures m.None? ==> !HasAv(Abs(), tok)
    {
      for i := 0 to |avs|
        invariant forall j :: 0 <= j < i ==> avs[j].tok != tok
      {
        if avs[i].tok == tok {
          return Some(i);
        }
      }
      return None;
    }

    /** The mirror of array tok, found or appended. */
    method TakeAv(tok: int) returns (m: Option<nat>)
      requires Valid()
      modifies this`avs
      ensures Valid()
      ensures m.None? <==> !HasAv(old(Abs()), tok) && |old(avs)| == AVMIRROR_MAX
      ensures m.None? || HasAv(old(Abs()), tok) ==> Abs() == old(Abs())
      ensures m.Some? && !HasAv(old(Abs()), tok) ==> Abs() == WithAv(old(Abs()), tok)
      ensures m.Some? ==> m.value < |avs| && avs[m.value].tok == tok && Pending(Abs()) == Pending(old(Abs()))
    {
      hide Pending;
      ghost var h := Abs();
      m := FindAv(tok);
      if m == None {
        if |avs| >= AVMIRROR_MAX {
          return None;
        }
        FreshAvIsClean(h, tok);
        m := Some(|avs|);
        avs := avs + [AvMirror(tok, [], [])];
        assert Abs() == WithAv(h, tok);
      }
    }

    /** goperl_av_array: host writes land first, then the buffer is refreshed whole, so what the
        module sees is the guest's array.  None for a croak. */
    method AvArray(tok: int) returns (m: Option<nat>)
      requires Valid()
      modifies this, ivs, pls
      ensures Valid()
      ensures m.None? <==> !HasAv(old(Abs()), tok) && |old(avs)| == AVMIRROR_MAX
      ensures m.None? ==> Abs() == old(Abs()) && guest == old(guest) && log == old(log)
      ensures m.Some? ==>
        && m.value < |avs| && avs[m.value] == AvMirror(tok, Contents(guest, tok), Contents(guest, tok))
        && Wrote(old(guest), old(log), Pending(old(Abs()))) && Pending(Abs()) == []
    {
      hide Pending;
      m := TakeAv(tok);
      if m == None {
        return;
      }
      Flush();
      SyncAv(m.value, tok);
    }

    /** A module stores into element i of an array and looks at the array again: it sees the array
        it saw, with the stored token at i, and the guest has that token there. */
    method StoreAndLook(tok: int, i: nat, v: int) returns (before: Option<seq<int>>, after: seq<int>)
      requires Valid() && 0 <= v < 0x1_0000_0000
      modifies this, ivs, pls
      ensures Valid()
      ensures before.None? <==> !HasAv(old(Abs()), tok) && |old(avs)| == AVMIRROR_MAX
      ensures before.Some? ==>
        var g := ApplyAll(old(guest), Pending(old(Abs())));
        |before.value| == g.Len(tok) && forall j :: 0 <= j < |before.value| ==> before.value[j] == g.Get(Elem(tok, j))
      ensures before.Some? && i < |before.value| ==> after == before.value[i := v] && guest.Get(Elem(tok, i)) == v
    {
      before, after := None, [];
      var m := AvArray(tok);
      if m == None {
        return;
      }
      before := Some(avs[m.value].buf);
      if i >= |avs[m.value].buf| {
        return;
      }
      hide Pending, ApplyAll, Good;
      GoodShape(Abs());
      AssignElem(m.value, i, v);
      GoodShape(Abs());
      ArrayReadsBack(Abs(), guest, m.value);
      var n := AvArray(tok);
      assert n.Some?;
      after := avs[n.value].buf;
    }

    /** The same for an integer. */
    method SetAndLook(tok: int, v: int) returns (ok: bool, after: int)
      requires Valid()
      modifies this, ivs, pls
      ensures Valid() && (ok <==> HasIv(old(Abs()), tok) || old(ivN) < IVMIRROR_MAX)
      ensures ok ==> after == v && guest.Get(Iv(tok)) == v
    {
      var k := IvxRef(tok);
      if k == None {
        return false, 0;
      }
      hide Pending, ApplyAll, Good;
      AssignIv(k.value, v);
      IntegerReadsBack(Abs(), guest, k.value);
      k := IvxRef(tok);
      assert k.Some?;
      return true, ivs[k.value].val;
    }

    /** Every element of the guest array, in order. */
    method ReadElems(tok: int) returns (buf: seq<int>)
      ensures buf == Contents(guest, tok)
    {
      buf := [];
      var len := guest.Len(tok);
      for i := 0 to len
        invariant |buf| == i && buf == Contents(guest, tok)[..i]
      {
        buf := buf + [guest.Get(Elem(tok, i))];
      }
    }

    /** The refresh loop of goperl_av_array. */
    method SyncAv(m: nat, tok: int)
      requires Valid() && m < |avs| && avs[m].tok == tok && Pending(Abs()) == []
      modifies this`avs
      ensures Valid() && m < |avs| && avs[m] == AvMirror(tok, Contents(guest, tok), Contents(guest, tok))
      ensures Pending(Abs()) == []
    {
      hide Good, Pending;
      ghost var h := Abs();
      GoodShape(h);
      var buf := ReadElems(tok);
      SyncedAv(h, m, buf);
      avs := avs[m := AvMirror(tok, buf, buf)];
      assert Abs() == h.(avs := avs);
    }

    /** The mirror half of goperl_xs_leave for the outermost activation. */
    method DropMirrors()
      requires Valid()
      modifies this, ivs, pls
      ensures Valid() && avs == [] && ivN == 0 && Pending(Abs()) == []
      ensures Wrote(old(guest), old(log), Pending(old(Abs())))
    {
      hide Good, Pending, ApplyAll, Settled, Shaped;
      GoodShape(Abs());
      Flush();
      ghost var h := Abs();
      GoodShape(h);
      DroppedClean(h);
      avs := [];
      ivN := 0;
      assert Abs() == h.(avs := [], ivN := 0);
    }
  }
}
