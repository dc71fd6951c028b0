/** The typed value protocol between Go and the guest: value nodes, argument lists and result
    envelopes, all little-endian. */
module Wire {

  import opened Endian
  import opened Options
  import opened Words

  // Node tags and envelope statuses.
  const wireUndef: Byte := 0
  const wireBool: Byte := 1
  const wireInt: Byte := 2
  const wireFloat: Byte := 3
  const wireString: Byte := 4
  const wireRef: Byte := 5
  const wireFlatten: Byte := 7
  const wireOK: Byte := 0
  const wireDie: Byte := 1
  const wireExit: Byte := 2

  type Word64 = v: int | 0 <= v < TWO64

  type Int64 = v: int | -TWO63 <= v < TWO63

  /** A reference held for a guest value, of the Perl instance `owner`. */
  datatype Handle = Handle(id: Word64, refkind: Byte, class_: seq<Byte>, owner: nat, released: bool)

  /** A Go value as far as it crosses: floats by their bits, the four kinds of value that hold a
      reference apart from arrays and hashes, and anything else. */
  datatype Value =
    | Nil
    | Undef
    | Bool(b: bool)
    | Int(i: Int64)
    | Float(bits: Word64)
    | Str(s: seq<Byte>, utf8: bool)
    | Ref(h: Option<Handle>)
    | Code(h: Option<Handle>)
    | Glob(h: Option<Handle>)
    | Io(h: Option<Handle>)
    | Array(h: Option<Handle>)
    | Hash(h: Option<Handle>)
    | Foreign

  datatype Error =
    | Released
    | OtherInstance
    | ArraySlot
    | HashSlot
    | CannotEncode
    | Argument(i: nat, e: Error)
    | MalformedNode
    | MalformedString
    | MalformedRef
    | UnknownTag(tag: Byte)
    | Die(message: seq<Byte>)
    | Exit(code: int)
    | Cancelled
    | MalformedEnvelope

  datatype Result<+T> = Ok(value: T) | Err(error: Error)

  // ---- encoding ---------------------------------------------------------------------------

  function EncodeHandle(p: nat, h: Option<Handle>, tag: Byte): Result<seq<Byte>> {
    if h == None || h.value.released then Err(Released)
    else if h.value.owner != p then Err(OtherInstance)
    else Ok([tag] + LittleEndian(h.value.id, 8) + if tag == wireRef then [h.value.refkind] + LittleEndian(0, 2) else [])
  }

  /** One node; listPos: arrays and hashes flatten into their contents. */
  function EncodeValue(p: nat, v: Value, listPos: bool): Result<seq<Byte>> {
    match v
    case Nil => Ok([wireUndef])
    case Undef => Ok([wireUndef])
    case Bool(b) => Ok([wireBool, if b then 1 else 0])
    case Int(i) => Ok([wireInt] + LittleEndian(i % TWO64, 8))
    case Float(bits) => Ok([wireFloat] + LittleEndian(bits, 8))
    case Str(s, utf8) => Ok([wireString, if utf8 then 1 else 0] + LittleEndian(|s| % TWO32, 4) + s)
    case Ref(h) => EncodeHandle(p, h, wireRef)
    case Code(h) => EncodeHandle(p, h, wireRef)
    case Glob(h) => EncodeHandle(p, h, wireRef)
    case Io(h) => EncodeHandle(p, h, wireRef)
    case Array(h) => if listPos then EncodeHandle(p, h, wireFlatten) else Err(ArraySlot)
    case Hash(h) => if listPos then EncodeHandle(p, h, wireFlatten) else Err(HashSlot)
    case Foreign => Err(CannotEncode)
  }

  /** A list's nodes: the first value that has none is reported by its index. */
  function EncodeNodes(p: nat, vs: seq<Value>): Result<seq<Byte>> {
    if vs == [] then Ok([]) else
    match EncodeNodes(p, vs[..|vs| - 1])
    case Err(e) => Err(e)
    case Ok(b) =>
      match EncodeValue(p, vs[|vs| - 1], true)
      case Err(e) => Err(Argument(|vs| - 1, e))
      case Ok(node) => Ok(b + node)
  }

  function EncodedArgs(p: nat, vs: seq<Value>): Result<seq<Byte>> {
    match EncodeNodes(p, vs)
    case Err(e) => Err(e)
    case Ok(b) => Ok(LittleEndian(|vs| % TWO32, 4) + b)
  }

  lemma {:induction false} EncodeNodesStep(p: nat, vs: seq<Value>, i: nat)
    requires i < |vs|
    ensures EncodeNodes(p, vs[..i + 1]) ==
      match EncodeNodes(p, vs[..i])
      case Err(e) => Err(e)
      case Ok(b) =>
        match EncodeValue(p, vs[i], true)
        case Err(e) => Err(Argument(i, e))
        case Ok(node) => Ok(b + node)
  {
    assert vs[..i + 1][..i] == vs[..i];
  }

  lemma {:induction false} ErrorStays(p: nat, vs: seq<Value>, i: nat)
    requires i <= |vs| && EncodeNodes(p, vs[..i]).Err?
    ensures EncodeNodes(p, vs) == EncodeNodes(p, vs[..i])
    decreases |vs| - i
  {
    if i < |vs| {
      EncodeNodesStep(p, vs, i);
      ErrorStays(p, vs, i + 1);
    } else {
      assert vs[..i] == vs;
    }
  }

  method EncodeArgs(p: nat, args: seq<Value>) returns (r: Result<seq<Byte>>)
    ensures r == EncodedArgs(p, args)
  {
    hide EncodeValue;
    var b := LittleEndian(|args| % TWO32, 4);
    for i := 0 to |args|
      invariant EncodeNodes(p, args[..i]).Ok? && b == LittleEndian(|args| % TWO32, 4) + EncodeNodes(p, args[..i]).value
    {
      EncodeNodesStep(p, args, i);
      match EncodeValue(p, args[i], true)
      case Err(e) =>
        ErrorStays(p, args, i + 1);
        return Err(Argument(i, e));
      case Ok(node) =>
        b := b + node;
    }
    assert args[..|args|] == args;
    return Ok(b);
  }

  /** A value with a node in list position. */
  predicate Encodable(p: nat, v: Value) {
    match v
    case Foreign => false
    case Ref(h) => Live(p, h)
    case Code(h) => Live(p, h)
    case Glob(h) => Live(p, h)
    case Io(h) => Live(p, h)
    case Array(h) => Live(p, h)
    case Hash(h) => Live(p, h)
    case _ => true
  }

  predicate Live(p: nat, h: Option<Handle>) {
    h.Some? && !h.value.released && h.value.owner == p
  }

  /** encodeArgs fails exactly when a value has no node, and names the first. */
  lemma {:induction false} EncodeArgsExact(p: nat, vs: seq<Value>)
    ensures EncodedArgs(p, vs).Ok? <==> forall i :: 0 <= i < |vs| ==> Encodable(p, vs[i])
    ensures EncodeNodes(p, vs).Err? ==>
      && EncodeNodes(p, vs).error.Argument?
      && var i := EncodeNodes(p, vs).error.i;
      i < |vs| && !Encodable(p, vs[i]) && forall j :: 0 <= j < i ==> Encodable(p, vs[j])
  {
    if vs != [] {
      var less := vs[..|vs| - 1];
      EncodeArgsExact(p, less);
      assert forall i :: 0 <= i < |less| ==> less[i] == vs[i];
      assert vs == less + [vs[|vs| - 1]];
    }
  }

  // ---- reading, as functions of the buffer and the cursor -----------------------------------

  datatype Cursor = Cursor(off: nat, fail: bool)

  /** n bytes, or none and a cursor that fails from here on. */
  function Take(b: seq<Byte>, c: Cursor, n: nat): (r: (seq<Byte>, Cursor))
    requires c.off <= |b|
    ensures r.1.off <= |b|
  {
    if c.fail || |b| - c.off < n then ([], Cursor(c.off, true)) else (b[c.off..c.off + n], Cursor(c.off + n, false))
  }

  function Word(b: seq<Byte>, c: Cursor, n: nat): (r: (nat, Cursor))
    requires c.off <= |b|
    ensures r.1.off <= |b|
  {
    (FromLittleEndian(Take(b, c, n).0), Take(b, c, n).1)
  }

  function LenBytes(b: seq<Byte>, c: Cursor): (r: (seq<Byte>, Cursor))
    requires c.off <= |b|
    ensures r.1.off <= |b|
  {
    var n := Word(b, c, 4);
    Take(b, n.1, n.0)
  }

  function DecodeStr(b: seq<Byte>, c: Cursor): (r: (Result<Value>, Cursor))
    requires c.off <= |b|
    ensures r.1.off <= |b|
  {
    var utf8 := Word(b, c, 1);
    var s := LenBytes(b, utf8.1);
    (if s.1.fail then Err(MalformedString) else Ok(Str(s.0, utf8.0 != 0)), s.1)
  }

  function DecodeRef(p: nat, b: seq<Byte>, c: Cursor): (r: (Result<Value>, Cursor))
    requires c.off <= |b|
    ensures r.1.off <= |b|
  {
    var id := Word(b, c, 8);
    var kind := Word(b, id.1, 1);
    var n := Word(b, kind.1, 2);
    var cl := Take(b, n.1, n.0);
    WordRange(b, c, 8);
    WordRange(b, id.1, 1);
    (if cl.1.fail then Err(MalformedRef) else Ok(Ref(Some(Handle(id.0, kind.0, cl.0, p, false)))), cl.1)
  }

  lemma {:induction false} WordRange(b: seq<Byte>, c: Cursor, n: nat)
    requires c.off <= |b|
    ensures Word(b, c, n).0 < Pow256(n) && Pow256(1) == 0x100 && Pow256(8) == TWO64
  {
    LittleEndianForth(Take(b, c, n).0);
    Pow256Table();
    PowPositive(n);
  }

  /** decodeNode: bool, int and float nodes do not look at fail. */
  function DecodeNode(p: nat, b: seq<Byte>, c: Cursor): (r: (Result<Value>, Cursor))
    requires c.off <= |b|
    ensures r.1.off <= |b|
  {
    var tag := Word(b, c, 1);
    WordRange(b, c, 1);
    if tag.1.fail then (Err(MalformedNode), tag.1)
    else if tag.0 == wireUndef then (Ok(Undef), tag.1)
    else if tag.0 == wireBool then (Ok(Bool(Word(b, tag.1, 1).0 != 0)), Word(b, tag.1, 1).1)
    else if tag.0 == wireInt then (Ok(Int(ToI64(Word(b, tag.1, 8).0))), Word(b, tag.1, 8).1)
    else if tag.0 == wireFloat then
      WordRange(b, tag.1, 8);
      (Ok(Float(Word(b, tag.1, 8).0)), Word(b, tag.1, 8).1)
    else if tag.0 == wireString then DecodeStr(b, tag.1)
    else if tag.0 == wireRef then DecodeRef(p, b, tag.1)
    else (Err(UnknownTag(tag.0)), tag.1)
  }

  /** count nodes, after those in acc. */
  function DecodeNodes(p: nat, b: seq<Byte>, c: Cursor, count: nat, acc: seq<Value>): (r: (Result<seq<Value>>, Cursor))
    requires c.off <= |b|
    ensures r.1.off <= |b|
    decreases count
  {
    if count == 0 then (Ok(acc), c) else
    var v := DecodeNode(p, b, c);
    if v.0.Err? then (Err(v.0.error), v.1) else DecodeNodes(p, b, v.1, count - 1, acc + [v.0.value])
  }

  /** decodeEnvelope: None positions the cursor at the ok payload. */
  function Envelope(b: seq<Byte>, interrupted: bool): (r: (Option<Error>, Cursor))
    ensures r.1.off <= |b|
  {
    var status := Word(b, Cursor(0, false), 1);
    if status.0 == wireOK then (None, status.1)
    else if status.0 == wireDie then
      var msg := LenBytes(b, status.1);
      (Some(if interrupted then Cancelled else Die(msg.0)), msg.1)
    else if status.0 == wireExit then
      var code := Word(b, status.1, 4);
      (Some(Exit(ToI32(code.0))), code.1)
    else (Some(MalformedEnvelope), status.1)
  }

  function ListResult(p: nat, b: seq<Byte>, interrupted: bool): (r: (Result<seq<Value>>, Cursor))
    ensures r.1.off <= |b|
  {
    var e := Envelope(b, interrupted);
    if e.0.Some? then (Err(e.0.value), e.1) else
    var count := Word(b, e.1, 4);
    DecodeNodes(p, b, count.1, count.0, [])
  }

  /** The outcome of an eval: a value, or the text of $@. */
  datatype Outcome = Returned(v: Value) | Died(message: seq<Byte>)

  datatype EvalResult = EvalResult(outcome: Outcome, stdout: seq<Byte>, stderr: seq<Byte>)

  /** The two captured streams that end an eval's envelope. */
  function Streams(b: seq<Byte>, c: Cursor, outcome: Outcome): (r: (Result<EvalResult>, Cursor))
    requires c.off <= |b|
    ensures r.1.off <= |b|
  {
    var out := LenBytes(b, c);
    var err := LenBytes(b, out.1);
    (if err.1.fail then Err(MalformedEnvelope) else Ok(EvalResult(outcome, out.0, err.0)), err.1)
  }

  function Eval(p: nat, b: seq<Byte>, interrupted: bool): (r: (Result<EvalResult>, Cursor))
    ensures r.1.off <= |b|
  {
    var status := Word(b, Cursor(0, false), 1);
    if status.0 == wireOK then
      var v := DecodeNode(p, b, status.1);
      if v.0.Err? then (Err(v.0.error), v.1) else Streams(b, v.1, Returned(v.0.value))
    else if status.0 == wireDie then
      var msg := LenBytes(b, status.1);
      if interrupted then (Err(Cancelled), msg.1) else Streams(b, msg.1, Died(msg.0))
    else (Err(MalformedEnvelope), status.1)
  }

  // ---- the reader -----------------------------------------------------------------------------

  class NodeReader {
    const b: seq<Byte>
    var off: nat
    var fail: bool

    predicate Valid()
      reads this
    {
      off <= |b|
    }

    function Place(): (c: Cursor)
      reads this
    {
      Cursor(off, fail)
    }

    constructor (b: seq<Byte>)
      ensures Valid() && this.b == b && Place() == Cursor(0, false)
    {
      this.b, off, fail := b, 0, false;
    }

    method Need(n: nat) returns (ok: bool)
      requires Valid()
      modifies this`fail
      ensures Valid() && ok == !fail && fail == (old(fail) || |b| - off < n)
    {
      if fail || |b| - off < n {
        fail := true;
        return false;
      }
      return true;
    }

    /** u8, u16, u32 and u64. */
    method U(n: nat) returns (v: nat)
      requires Valid()
      modifies this
      ensures Valid() && v == Word(b, old(Place()), n).0 && Place() == Word(b, old(Place()), n).1
    {
      var ok := Need(n);
      if !ok {
        return 0;
      }
      v := FromLittleEndian(b[off..off + n]);
      off := off + n;
    }

    method Bytes(n: nat) returns (s: seq<Byte>)
      requires Valid()
      modifies this
      ensures Valid() && s == Take(b, old(Place()), n).0 && Place() == Take(b, old(Place()), n).1
    {
      var ok := Need(n);
      if !ok {
        return [];
      }
      s := b[off..off + n];
      off := off + n;
    }

    method LenPrefixed() returns (s: seq<Byte>)
      requires Valid()
      modifies this
      ensures Valid() && s == LenBytes(b, old(Place())).0 && Place() == LenBytes(b, old(Place())).1
    {
      hide Word, Take;
      var n := U(4);
      s := Bytes(n);
    }

    method ReadNode(p: nat) returns (r: Result<Value>)
      requires Valid()
      modifies this
      ensures Valid() && r == DecodeNode(p, b, old(Place())).0 && Place() == DecodeNode(p, b, old(Place())).1
    {
      hide Word, Take, LenBytes;
      ghost var c := Place();
      WordRange(b, c, 1);
      var tag := U(1);
      if fail {
        return Err(MalformedNode);
      }
      if tag == wireUndef {
        return Ok(Undef);
      } else if tag == wireBool {
        var v := U(1);
        return Ok(Bool(v != 0));
      } else if tag == wireInt {
        var v := U(8);
        return Ok(Int(ToI64(v)));
      } else if tag == wireFloat {
        WordRange(b, Place(), 8);
        var v := U(8);
        return Ok(Float(v));
      } else if tag == wireString {
        var utf8 := U(1);
        var s := LenPrefixed();
        return if fail then Err(MalformedString) else Ok(Str(s, utf8 != 0));
      } else if tag == wireRef {
        WordRange(b, Place(), 8);
        var id := U(8);
        WordRange(b, Place(), 1);
        var kind := U(1);
        var n := U(2);
        var cl := Bytes(n);
        return if fail then Err(MalformedRef) else Ok(Ref(Some(Handle(id, kind, cl, p, false))));
      } else {
        return Err(UnknownTag(tag));
      }
    }

    method ReadEnvelope(interrupted: bool) returns (e: Option<Error>)
      requires Valid() && Place() == Cursor(0, false)
      modifies this
      ensures Valid() && e == Envelope(b, interrupted).0 && Place() == Envelope(b, interrupted).1
    {
      hide Word, Take, LenBytes;
      var status := U(1);
      if status == wireOK {
        return None;
      } else if status == wireDie {
        var msg := LenPrefixed();
        return Some(if interrupted then Cancelled else Die(msg));
      } else if status == wireExit {
        var code := U(4);
        return Some(Exit(ToI32(code)));
      }
      return Some(MalformedEnvelope);
    }
  }

  method DecodeListResult(p: nat, resp: seq<Byte>, interrupted: bool) returns (r: Result<seq<Value>>)
    ensures r == ListResult(p, resp, interrupted).0
  {
    hide Word, Take, LenBytes, DecodeNode, Envelope;
    var reader := new NodeReader(resp);
    var e := reader.ReadEnvelope(interrupted);
    if e.Some? {
      return Err(e.value);
    }
    var count := reader.U(4);
    var out := [];
    for i := 0 to count
      invariant reader.Valid() && reader.b == resp
      invariant ListResult(p, resp, interrupted) == DecodeNodes(p, resp, reader.Place(), count - i, out)
    {
      var v := reader.ReadNode(p);
      if v.Err? {
        return Err(v.error);
      }
      out := out + [v.value];
    }
    return Ok(out);
  }

  method DecodeEvalResult(p: nat, resp: seq<Byte>, interrupted: bool) returns (r: Result<EvalResult>)
    ensures r == Eval(p, resp, interrupted).0
  {
    hide Word, Take, LenBytes, DecodeNode;
    var reader := new NodeReader(resp);
    var outcome := Returned(Undef);
    var status := reader.U(1);
    if status == wireOK {
      var v := reader.ReadNode(p);
      if v.Err? {
        return Err(v.error);
      }
      outcome := Returned(v.value);
    } else if status == wireDie {
      var msg := reader.LenPrefixed();
      if interrupted {
        return Err(Cancelled);
      }
      outcome := Died(msg);
    } else {
      return Err(MalformedEnvelope);
    }
    var out := reader.LenPrefixed();
    var err := reader.LenPrefixed();
    if reader.fail {
      return Err(MalformedEnvelope);
    }
    return Ok(EvalResult(outcome, out, err));
  }

  // ---- decoding what was encoded --------------------------------------------------------------

  /** What the guest's answer to v would be: references keep id and kind, the class is not sent. */
  function Norm(p: nat, v: Value): Value {
    match v
    case Nil => Undef
    case Ref(h) => NormRef(p, h)
    case Code(h) => NormRef(p, h)
    case Glob(h) => NormRef(p, h)
    case Io(h) => NormRef(p, h)
    case _ => v
  }

  function NormRef(p: nat, h: Option<Handle>): Value {
    if h == None then Undef else Ref(Some(Handle(h.value.id, h.value.refkind, [], p, false)))
  }

  /** The u32 length of a string holds it. */
  predicate Short(v: Value) {
    v.Str? ==> |v.s| < TWO32
  }

  predicate Flattens(v: Value) {
    v.Array? || v.Hash?
  }

  lemma {:induction false} TakeAt(b: seq<Byte>, c: Cursor, s: seq<Byte>)
    requires !c.fail && At(b, c.off, s)
    ensures Take(b, c, |s|) == (s, Cursor(c.off + |s|, false))
  {
  }

  lemma {:induction false} WordAt(b: seq<Byte>, c: Cursor, v: nat, n: nat)
    requires !c.fail && At(b, c.off, LittleEndian(v, n)) && v < Pow256(n)
    ensures Word(b, c, n) == (v, Cursor(c.off + n, false))
  {
    TakeAt(b, c, LittleEndian(v, n));
    LittleEndianBack(v, n);
  }

  lemma {:induction false} ByteAt(b: seq<Byte>, c: Cursor, x: Byte)
    requires !c.fail && At(b, c.off, [x])
    ensures Word(b, c, 1) == (x, Cursor(c.off + 1, false))
  {
    TakeAt(b, c, [x]);
    assert [x][1..] == [];
    assert FromLittleEndian([x]) == x + 0x100 * FromLittleEndian([]);
  }

  /** A length-prefixed byte string. */
  function Prefixed(s: seq<Byte>): seq<Byte> {
    LittleEndian(|s| % TWO32, 4) + s
  }

  lemma {:induction false} PrefixedAt(b: seq<Byte>, c: Cursor, s: seq<Byte>)
    requires !c.fail && |s| < TWO32 && At(b, c.off, Prefixed(s))
    ensures LenBytes(b, c) == (s, Cursor(c.off + |Prefixed(s)|, false))
  {
    Pow256Table();
    hide LittleEndian, Word, Take;
    AtSplit(b, c.off, LittleEndian(|s|, 4), s);
    WordAt(b, c, |s|, 4);
    TakeAt(b, Cursor(c.off + 4, false), s);
  }

  /** The tag of a node and what follows it. */
  lemma {:induction false} TagAt(p: nat, b: seq<Byte>, c: Cursor, tag: Byte, rest: seq<Byte>)
    requires !c.fail && At(b, c.off, [tag] + rest)
    ensures Word(b, c, 1) == (tag, Cursor(c.off + 1, false)) && At(b, c.off + 1, rest)
  {
    AtSplit(b, c.off, [tag], rest);
    ByteAt(b, c, tag);
  }

  lemma {:induction false} WordNode(p: nat, b: seq<Byte>, c: Cursor, tag: Byte, v: Word64)
    requires !c.fail && At(b, c.off, [tag] + LittleEndian(v, 8)) && (tag == wireInt || tag == wireFloat)
    ensures DecodeNode(p, b, c) == (Ok(if tag == wireInt then Int(ToI64(v)) else Float(v)), Cursor(c.off + 9, false))
  {
    Pow256Table();
    hide LittleEndian, Word, Take, DecodeStr, DecodeRef, ToI64;
    TagAt(p, b, c, tag, LittleEndian(v, 8));
    WordAt(b, Cursor(c.off + 1, false), v, 8);
  }

  lemma {:induction false} StrNode(p: nat, b: seq<Byte>, c: Cursor, s: seq<Byte>, flag: Byte)
    requires !c.fail && |s| < TWO32 && At(b, c.off, [wireString] + ([flag] + Prefixed(s)))
    ensures DecodeNode(p, b, c) == (Ok(Str(s, flag != 0)), Cursor(c.off + 2 + |Prefixed(s)|, false))
  {
    hide Word, Take, LenBytes, Prefixed, DecodeRef;
    TagAt(p, b, c, wireString, [flag] + Prefixed(s));
    TagAt(p, b, Cursor(c.off + 1, false), flag, Prefixed(s));
    PrefixedAt(b, Cursor(c.off + 2, false), s);
  }

  lemma {:induction false} RefNode(p: nat, b: seq<Byte>, c: Cursor, id: Word64, kind: Byte)
    requires !c.fail && At(b, c.off, [wireRef] + (LittleEndian(id, 8) + ([kind] + LittleEndian(0, 2))))
    ensures DecodeNode(p, b, c) == (Ok(Ref(Some(Handle(id, kind, [], p, false)))), Cursor(c.off + 12, false))
  {
    Pow256Table();
    hide LittleEndian, Word, Take, DecodeStr;
    TagAt(p, b, c, wireRef, LittleEndian(id, 8) + ([kind] + LittleEndian(0, 2)));
    AtSplit(b, c.off + 1, LittleEndian(id, 8), [kind] + LittleEndian(0, 2));
    WordAt(b, Cursor(c.off + 1, false), id, 8);
    TagAt(p, b, Cursor(c.off + 9, false), kind, LittleEndian(0, 2));
    WordAt(b, Cursor(c.off + 10, false), 0, 2);
    TakeNone(b, Cursor(c.off + 12, false));
  }

  lemma {:induction false} TakeNone(b: seq<Byte>, c: Cursor)
    requires !c.fail && c.off <= |b|
    ensures Take(b, c, 0) == ([], c)
  {
    assert b[c.off..c.off + 0] == [];
  }

  lemma {:induction false} SignBack(i: Int64)
    ensures ToI64(i % TWO64) == i && 0 <= i % TWO64 < TWO64
  {
  }

  /** A node decodes to its value, up to Norm, and ends where it ends; a flattening node is
      refused. */
  lemma {:induction false} NodeRoundTrip(p: nat, v: Value, b: seq<Byte>, c: Cursor)
    requires EncodeValue(p, v, true).Ok? && Short(v) && !c.fail && At(b, c.off, EncodeValue(p, v, true).value)
    ensures !Flattens(v) ==> DecodeNode(p, b, c) == (Ok(Norm(p, v)), Cursor(c.off + |EncodeValue(p, v, true).value|, false))
    ensures Flattens(v) ==> DecodeNode(p, b, c) == (Err(UnknownTag(wireFlatten)), Cursor(c.off + 1, false))
  {
    hide LittleEndian, Word, Take, DecodeStr, DecodeRef, ToI64;
    var node := EncodeValue(p, v, true).value;
    match v
    case Bool(x) =>
      assert node == [wireBool] + [if x then 1 else 0];
      TagAt(p, b, c, wireBool, [if x then 1 else 0]);
      ByteAt(b, Cursor(c.off + 1, false), if x then 1 else 0);
    case Int(i) =>
      SignBack(i);
      WordNode(p, b, c, wireInt, i % TWO64);
    case Float(bits) =>
      WordNode(p, b, c, wireFloat, bits);
    case Str(s, utf8) =>
      assert node == [wireString] + ([if utf8 then 1 else 0] + Prefixed(s));
      StrNode(p, b, c, s, if utf8 then 1 else 0);
    case Ref(h) => HandleNode(p, h, b, c);
    case Code(h) => HandleNode(p, h, b, c);
    case Glob(h) => HandleNode(p, h, b, c);
    case Io(h) => HandleNode(p, h, b, c);
    case Array(h) => TagAt(p, b, c, wireFlatten, LittleEndian(h.value.id, 8) + []);
    case Hash(h) => TagAt(p, b, c, wireFlatten, LittleEndian(h.value.id, 8) + []);
    case Nil =>
      assert node == [wireUndef] + [];
      TagAt(p, b, c, wireUndef, []);
    case Undef =>
      assert node == [wireUndef] + [];
      TagAt(p, b, c, wireUndef, []);
    case Foreign =>
  }

  /** The node of an array or a hash in an argument list carries its reference's id. */
  lemma {:induction false} FlattenNode(p: nat, v: Value, b: seq<Byte>, c: Cursor)
    requires Flattens(v) && EncodeValue(p, v, true).Ok? && !c.fail && At(b, c.off, EncodeValue(p, v, true).value)
    ensures |EncodeValue(p, v, true).value| == 9
    ensures Word(b, c, 1) == (7, Cursor(c.off + 1, false)) && Word(b, Cursor(c.off + 1, false), 8) == (v.h.value.id, Cursor(c.off + 9, false))
  {
    Pow256Table();
    hide LittleEndian, Word, Take;
    var id := v.h.value.id;
    assert EncodeValue(p, v, true).value == [wireFlatten] + LittleEndian(id, 8);
    TagAt(p, b, c, wireFlatten, LittleEndian(id, 8));
    WordAt(b, Cursor(c.off + 1, false), id, 8);
  }

  /** The bytes of a number's node, digit by digit: after the tag the word's byte k is its k-th digit
      in base 256. */
  lemma {:induction false} NumberLayout(p: nat, i: Int64, bits: Word64, k: nat)
    requires k < 8
    ensures Pow256(k) > 0
    ensures var n := EncodeValue(p, Int(i), true).value;
      |n| == 9 && n[0] == 2 && n[1 + k] == (if i < 0 then i + TWO64 else i) / Pow256(k) % 256
    ensures var n := EncodeValue(p, Float(bits), true).value; |n| == 9 && n[0] == 3 && n[1 + k] == bits / Pow256(k) % 256
  {
    LittleEndianDigit(i % TWO64, 8, k);
    LittleEndianDigit(bits, 8, k);
    assert i % TWO64 == if i < 0 then i + TWO64 else i;
    hide LittleEndian, Pow256;
  }

  /** The bytes of the other scalars' nodes: a string's length has four. */
  lemma {:induction false} ScalarLayout(p: nat, x: bool, s: seq<Byte>, utf8: bool, k: nat)
    requires k < 4
    ensures Pow256(k) > 0
    ensures EncodeValue(p, Undef, true) == EncodeValue(p, Nil, true) == Ok([0])
    ensures EncodeValue(p, Bool(x), true) == Ok([1, if x then 1 else 0])
    ensures var n := EncodeValue(p, Str(s, utf8), true).value;
      && |n| == 6 + |s| && n[0] == 4 && n[1] == (if utf8 then 1 else 0) && n[6..] == s
      && (|s| < TWO32 ==> n[2 + k] == |s| / Pow256(k) % 256)
  {
    LittleEndianDigit(|s| % TWO32, 4, k);
    hide LittleEndian, Pow256;
  }

  /** The bytes of a reference node: the id, the kind and an empty class name. */
  lemma {:induction false} RefLayout(p: nat, h: Handle, k: nat)
    requires !h.released && h.owner == p && k < 8
    ensures Pow256(k) > 0
    ensures var n := EncodeValue(p, Ref(Some(h)), true).value;
      |n| == 12 && n[0] == 5 && n[1 + k] == h.id / Pow256(k) % 256 && n[9] == h.refkind && n[10..] == [0, 0]
    ensures EncodeValue(p, Code(Some(h)), true) == EncodeValue(p, Glob(Some(h)), true)
      == EncodeValue(p, Io(Some(h)), true) == EncodeValue(p, Ref(Some(h)), true)
  {
    LittleEndianDigit(h.id, 8, k);
    assert LittleEndian(0, 2) == [0] + LittleEndian(0, 1) && LittleEndian(0, 1) == [0] + LittleEndian(0, 0);
    hide LittleEndian;
  }

  lemma {:induction false} HandleNode(p: nat, h: Option<Handle>, b: seq<Byte>, c: Cursor)
    requires EncodeHandle(p, h, wireRef).Ok? && !c.fail && At(b, c.off, EncodeHandle(p, h, wireRef).value)
    ensures DecodeNode(p, b, c) == (Ok(NormRef(p, h)), Cursor(c.off + |EncodeHandle(p, h, wireRef).value|, false))
  {
    hide LittleEndian, DecodeNode;
    var id, kind := h.value.id, h.value.refkind;
    assert EncodeHandle(p, h, wireRef).value == [wireRef] + (LittleEndian(id, 8) + ([kind] + LittleEndian(0, 2)));
    RefNode(p, b, c, id, kind);
  }

  function Norms(p: nat, vs: seq<Value>): (r: seq<Value>)
    ensures |r| == |vs|
  {
    seq(|vs|, i requires 0 <= i < |vs| => Norm(p, vs[i]))
  }

  lemma {:induction false} NodesPrefix(p: nat, vs: seq<Value>, i: nat)
    requires i <= |vs| && EncodeNodes(p, vs).Ok?
    ensures EncodeNodes(p, vs[..i]).Ok? && EncodeNodes(p, vs[..i]).value <= EncodeNodes(p, vs).value
    decreases |vs| - i
  {
    hide EncodeValue;
    if i < |vs| {
      NodesPrefix(p, vs, i + 1);
      EncodeNodesStep(p, vs, i);
    } else {
      assert vs[..i] == vs;
    }
  }

  /** Where the nodes of vs start in b, the i-th and those after it decode to their values. */
  lemma {:induction false} NodesRoundTrip(p: nat, vs: seq<Value>, b: seq<Byte>, start: nat, i: nat)
    requires EncodeNodes(p, vs).Ok? && i <= |vs| && At(b, start, EncodeNodes(p, vs).value)
    requires forall j :: 0 <= j < |vs| ==> Short(vs[j]) && !Flattens(vs[j])
    ensures EncodeNodes(p, vs[..i]).Ok? && start + |EncodeNodes(p, vs[..i]).value| <= |b|
    ensures DecodeNodes(p, b, Cursor(start + |EncodeNodes(p, vs[..i]).value|, false), |vs| - i, Norms(p, vs)[..i])
         == (Ok(Norms(p, vs)), Cursor(start + |EncodeNodes(p, vs).value|, false))
    decreases |vs| - i
  {
    hide EncodeValue, DecodeNode, Norm;
    NodesPrefix(p, vs, i);
    var before := EncodeNodes(p, vs[..i]).value;
    if i < |vs| {
      NodesPrefix(p, vs, i + 1);
      EncodeNodesStep(p, vs, i);
      var node := EncodeValue(p, vs[i], true).value;
      var upto := EncodeNodes(p, vs[..i + 1]).value;
      assert upto == before + node && At(b, start, upto) by {
        var all := EncodeNodes(p, vs).value;
        assert all == upto + all[|upto|..];
        AtSplit(b, start, upto, all[|upto|..]);
      }
      AtSplit(b, start, before, node);
      NodeRoundTrip(p, vs[i], b, Cursor(start + |before|, false));
      NodesRoundTrip(p, vs, b, start, i + 1);
      assert Norms(p, vs)[..i] + [Norm(p, vs[i])] == Norms(p, vs)[..i + 1];
    } else {
      assert vs[..i] == vs && Norms(p, vs)[..i] == Norms(p, vs);
    }
  }

  /** An ok envelope with the argument list of any scalars and references decodes to exactly them
      and ends where the list ends, whatever follows. */
  lemma {:induction false} ArgsRoundTrip(p: nat, vs: seq<Value>, rest: seq<Byte>, interrupted: bool)
    requires EncodedArgs(p, vs).Ok? && |vs| < TWO32
    requires forall j :: 0 <= j < |vs| ==> Short(vs[j]) && !Flattens(vs[j])
    ensures ListResult(p, [wireOK] + EncodedArgs(p, vs).value + rest, interrupted)
         == (Ok(Norms(p, vs)), Cursor(1 + |EncodedArgs(p, vs).value|, false))
  {
    Pow256Table();
    hide LittleEndian, Word, Take, LenBytes, DecodeNodes, EncodeNodes;
    var args := EncodedArgs(p, vs).value;
    var nodes := EncodeNodes(p, vs).value;
    var b := [wireOK] + args + rest;
    assert At(b, 0, [wireOK] + args) && args == LittleEndian(|vs|, 4) + nodes;
    TagAt(p, b, Cursor(0, false), wireOK, args);
    AtSplit(b, 1, LittleEndian(|vs|, 4), nodes);
    WordAt(b, Cursor(1, false), |vs|, 4);
    NodesRoundTrip(p, vs, b, 5, 0);
    NoNodes(p, vs);
  }

  lemma {:induction false} NoNodes(p: nat, vs: seq<Value>)
    ensures EncodeNodes(p, vs[..0]) == Ok([]) && Norms(p, vs)[..0] == []
  {
  }

  // ---- failure is sticky ----------------------------------------------------------------------

  /** Once a read overran, every later one yields nothing and moves nothing. */
  lemma {:induction false} Sticky(p: nat, b: seq<Byte>, c: Cursor, n: nat)
    requires c.fail && c.off <= |b|
    ensures Take(b, c, n) == ([], c) && Word(b, c, n) == (0, c) && LenBytes(b, c) == ([], c)
    ensures DecodeNode(p, b, c) == (Err(MalformedNode), c)
  {
  }

  lemma {:induction false} Forward(p: nat, b: seq<Byte>, c: Cursor, n: nat)
    requires c.off <= |b|
    ensures Take(b, c, n).1.off >= c.off && Word(b, c, n).1.off >= c.off && LenBytes(b, c).1.off >= c.off
    ensures DecodeNode(p, b, c).1.off >= c.off
    ensures DecodeNode(p, b, c).0.Ok? ==> DecodeNode(p, b, c).1.off > c.off
  {
    ReadForward(b, c, n);
    hide Take, LenBytes, FromLittleEndian, DecodeStr, DecodeRef, ToI64;
    var tag := Word(b, c, 1);
    ReadForward(b, c, 1);
    ReadForward(b, tag.1, 1);
    ReadForward(b, tag.1, 8);
    StrForward(p, b, tag.1);
  }

  lemma {:induction false} ReadForward(b: seq<Byte>, c: Cursor, n: nat)
    requires c.off <= |b|
    ensures Take(b, c, n).1.off >= c.off && Word(b, c, n).1.off >= c.off && LenBytes(b, c).1.off >= c.off
  {
    hide FromLittleEndian;
  }

  /** Each value of a successful list took a byte, whatever count the guest claimed. */
  lemma {:induction false} NodesBound(p: nat, b: seq<Byte>, c: Cursor, count: nat, acc: seq<Value>)
    requires c.off <= |b| && DecodeNodes(p, b, c, count, acc).0.Ok?
    ensures var r := DecodeNodes(p, b, c, count, acc);
      |r.0.value| == |acc| + count && c.off + count <= r.1.off
    decreases count
  {
    hide DecodeNode;
    if count > 0 {
      Forward(p, b, c, 0);
      var v := DecodeNode(p, b, c);
      NodesBound(p, b, v.1, count - 1, acc + [v.0.value]);
    }
  }

  lemma {:induction false} ListBound(p: nat, b: seq<Byte>, interrupted: bool)
    requires ListResult(p, b, interrupted).0.Ok?
    ensures |ListResult(p, b, interrupted).0.value| <= ListResult(p, b, interrupted).1.off <= |b|
  {
    hide Word, DecodeNodes;
    var e := Envelope(b, interrupted);
    var count := Word(b, e.1, 4);
    NodesBound(p, b, count.1, count.0, []);
  }

  // ---- truncation -----------------------------------------------------------------------------

  /** Reading a prefix of b gives q: the same as r if r stays within it, else a failed cursor. */
  ghost predicate Cut<T(!new)>(r: (T, Cursor), q: (T, Cursor), k: nat) {
    if r.1.off <= k then q == r else q.1.fail
  }

  lemma {:induction false} TakeCut(b: seq<Byte>, k: nat, c: Cursor, n: nat)
    requires c.off <= k <= |b|
    ensures Cut(Take(b, c, n), Take(b[..k], c, n), k) && Cut(Word(b, c, n), Word(b[..k], c, n), k)
  {
    hide FromLittleEndian;
    if c.off + n <= k {
      assert b[..k][c.off..c.off + n] == b[c.off..c.off + n];
    }
  }

  lemma {:induction false} LenBytesCut(b: seq<Byte>, k: nat, c: Cursor)
    requires c.off <= k <= |b|
    ensures Cut(LenBytes(b, c), LenBytes(b[..k], c), k)
  {
    hide Word, Take;
    var n, m := Word(b, c, 4), Word(b[..k], c, 4);
    TakeCut(b, k, c, 4);
    Forward(0, b, n.1, n.0);
    if n.1.off <= k {
      TakeCut(b, k, n.1, n.0);
    } else {
      Sticky(0, b[..k], m.1, m.0);
    }
  }

  lemma {:induction false} StrCut(b: seq<Byte>, k: nat, c: Cursor)
    requires c.off <= k <= |b|
    ensures Cut(DecodeStr(b, c), DecodeStr(b[..k], c), k)
  {
    hide Word, Take, LenBytes;
    var u, w := Word(b, c, 1), Word(b[..k], c, 1);
    TakeCut(b, k, c, 1);
    Forward(0, b, u.1, 0);
    if u.1.off <= k {
      LenBytesCut(b, k, u.1);
    } else {
      Sticky(0, b[..k], w.1, 0);
    }
  }

  lemma {:induction false} RefCut(p: nat, b: seq<Byte>, k: nat, c: Cursor)
    requires c.off <= k <= |b|
    ensures Cut(DecodeRef(p, b, c), DecodeRef(p, b[..k], c), k)
  {
    hide Word, Take, LenBytes;
    var d := b[..k];
    var id, id2 := Word(b, c, 8), Word(d, c, 8);
    TakeCut(b, k, c, 8);
    var kind, kind2 := Word(b, id.1, 1), Word(d, id2.1, 1);
    Forward(p, b, id.1, 1);
    if id.1.off <= k { TakeCut(b, k, id.1, 1); } else { Sticky(p, d, id2.1, 1); }
    var n, n2 := Word(b, kind.1, 2), Word(d, kind2.1, 2);
    Forward(p, b, kind.1, 2);
    if kind.1.off <= k { TakeCut(b, k, kind.1, 2); } else { Sticky(p, d, kind2.1, 2); }
    Forward(p, b, n.1, n.0);
    if n.1.off <= k { TakeCut(b, k, n.1, n.0); } else { Sticky(p, d, n2.1, n2.0); }
  }

  lemma {:induction false} NodeCut(p: nat, b: seq<Byte>, k: nat, c: Cursor)
    requires c.off <= k <= |b|
    ensures Cut(DecodeNode(p, b, c), DecodeNode(p, b[..k], c), k)
  {
    hide Word, Take, DecodeStr, DecodeRef, ToI64;
    var d := b[..k];
    var tag, tag2 := Word(b, c, 1), Word(d, c, 1);
    TakeCut(b, k, c, 1);
    Forward(p, b, tag.1, 8);
    Forward(p, b, tag.1, 1);
    StrForward(p, b, tag.1);
    if tag.1.off <= k {
      TakeCut(b, k, tag.1, 1);
      TakeCut(b, k, tag.1, 8);
      StrCut(b, k, tag.1);
      RefCut(p, b, k, tag.1);
    }
  }

  lemma {:induction false} StrForward(p: nat, b: seq<Byte>, c: Cursor)
    requires c.off <= |b|
    ensures DecodeStr(b, c).1.off >= c.off && DecodeRef(p, b, c).1.off >= c.off
  {
    hide FromLittleEndian;
  }

  lemma {:induction false} StreamsCut(b: seq<Byte>, k: nat, c: Cursor, outcome: Outcome)
    requires c.off <= k <= |b|
    ensures Cut(Streams(b, c, outcome), Streams(b[..k], c, outcome), k)
  {
    hide LenBytes;
    var out, out2 := LenBytes(b, c), LenBytes(b[..k], c);
    LenBytesCut(b, k, c);
    Forward(0, b, out.1, 0);
    if out.1.off <= k { LenBytesCut(b, k, out.1); } else { Sticky(0, b[..k], out2.1, 0); }
  }

  lemma {:induction false} StreamsForward(b: seq<Byte>, c: Cursor, outcome: Outcome)
    requires c.off <= |b|
    ensures Streams(b, c, outcome).1.off >= c.off
    ensures c.fail ==> Streams(b, c, outcome) == (Err(MalformedEnvelope), c)
    ensures Streams(b, c, outcome).0.Ok? ==> !Streams(b, c, outcome).1.fail
  {
    hide LenBytes;
    Forward(0, b, c, 0);
    Forward(0, b, LenBytes(b, c).1, 0);
    if c.fail {
      Sticky(0, b, c, 0);
    }
  }

  lemma {:induction false} EvalCut(p: nat, b: seq<Byte>, k: nat, interrupted: bool)
    requires k <= |b|
    ensures Cut(Eval(p, b, interrupted), Eval(p, b[..k], interrupted), k)
  {
    hide Word, Take, LenBytes, DecodeNode, Streams;
    var d, c := b[..k], Cursor(0, false);
    var s := Word(b, c, 1);
    TakeCut(b, k, c, 1);
    if s.1.off <= k {
      if s.0 == wireOK {
        OkCut(p, b, k, s.1);
      } else if s.0 == wireDie {
        DieCut(b, k, s.1);
      }
    } else {
      NoStatus(p, d, interrupted);
      EvalForward(p, b, interrupted);
    }
  }

  lemma {:induction false} OkCut(p: nat, b: seq<Byte>, k: nat, c: Cursor)
    requires c.off <= k <= |b|
    ensures var r, q := DecodeNode(p, b, c), DecodeNode(p, b[..k], c);
      && Cut(r, q, k)
      && (r.0.Ok? && r.1.off <= k ==> Cut(Streams(b, r.1, Returned(r.0.value)), Streams(b[..k], q.1, Returned(r.0.value)), k))
      && (r.0.Ok? ==> Streams(b, r.1, Returned(r.0.value)).1.off >= r.1.off)
      && (r.1.off > k && q.0.Ok? ==> Streams(b[..k], q.1, Returned(q.0.value)).1.fail)
  {
    hide DecodeNode, Streams;
    var r, q := DecodeNode(p, b, c), DecodeNode(p, b[..k], c);
    NodeCut(p, b, k, c);
    if r.0.Ok? {
      StreamsForward(b, r.1, Returned(r.0.value));
      if r.1.off <= k {
        StreamsCut(b, k, r.1, Returned(r.0.value));
      }
    }
    if q.0.Ok? {
      StreamsForward(b[..k], q.1, Returned(q.0.value));
    }
  }

  lemma {:induction false} DieCut(b: seq<Byte>, k: nat, c: Cursor)
    requires c.off <= k <= |b|
    ensures var r, q := LenBytes(b, c), LenBytes(b[..k], c);
      && Cut(r, q, k)
      && (r.1.off <= k ==> Cut(Streams(b, r.1, Died(r.0)), Streams(b[..k], q.1, Died(q.0)), k))
      && Streams(b, r.1, Died(r.0)).1.off >= r.1.off
      && (r.1.off > k ==> Streams(b[..k], q.1, Died(q.0)).1.fail)
  {
    hide LenBytes, Streams;
    var r, q := LenBytes(b, c), LenBytes(b[..k], c);
    LenBytesCut(b, k, c);
    StreamsForward(b, r.1, Died(r.0));
    StreamsForward(b[..k], q.1, Died(q.0));
    if r.1.off <= k {
      StreamsCut(b, k, r.1, Died(r.0));
    }
  }

  lemma {:induction false} NoStatus(p: nat, b: seq<Byte>, interrupted: bool)
    requires Word(b, Cursor(0, false), 1).1.fail
    ensures Eval(p, b, interrupted).1.fail
  {
    Sticky(p, b, Cursor(0, true), 0);
  }

  lemma {:induction false} EvalForward(p: nat, b: seq<Byte>, interrupted: bool)
    ensures Eval(p, b, interrupted).1.off >= Word(b, Cursor(0, false), 1).1.off
    ensures Eval(p, b, interrupted).0.Ok? ==> !Eval(p, b, interrupted).1.fail
  {
    hide Word, Take, LenBytes, DecodeNode, Streams;
    var s := Word(b, Cursor(0, false), 1);
    Forward(p, b, s.1, 0);
    var v, m := DecodeNode(p, b, s.1), LenBytes(b, s.1);
    if v.0.Ok? {
      StreamsForward(b, v.1, Returned(v.0.value));
    }
    StreamsForward(b, m.1, Died(m.0));
  }

  /** decodeEvalResult succeeds only when no read ever overran: of the cuts of an envelope that
      decodes, exactly those that keep all it read decode, to the same result. */
  lemma {:induction false} EvalExact(p: nat, b: seq<Byte>, k: nat, interrupted: bool)
    requires k <= |b| && Eval(p, b, interrupted).0.Ok?
    ensures !Eval(p, b, interrupted).1.fail
    ensures Eval(p, b[..k], interrupted).0.Ok? <==> k >= Eval(p, b, interrupted).1.off
    ensures k >= Eval(p, b, interrupted).1.off ==> Eval(p, b[..k], interrupted) == Eval(p, b, interrupted)
  {
    hide Eval;
    EvalForward(p, b, interrupted);
    EvalForward(p, b[..k], interrupted);
    EvalCut(p, b, k, interrupted);
  }

  // ---- cut lists --------------------------------------------------------------------------

  /** Where the last of count nodes starts. */
  function LastStart(p: nat, b: seq<Byte>, c: Cursor, count: nat): nat
    requires c.off <= |b| && count > 0
    decreases count
  {
    if count == 1 then c.off else LastStart(p, b, DecodeNode(p, b, c).1, count - 1)
  }

  /** A node whose word decodeNode does not check. */
  predicate Unchecked(tag: Byte) {
    tag == wireBool || tag == wireInt || tag == wireFloat
  }

  /** An unchecked word that is not there reads as 0. */
  function Zeroed(v: Value): Value {
    match v
    case Bool(_) => Bool(false)
    case Int(_) => Int(0)
    case Float(_) => Float(0)
    case _ => v
  }

  lemma {:induction false} TagOf(p: nat, b: seq<Byte>, c: Cursor)
    requires c.off < |b| && !c.fail
    ensures Word(b, c, 1) == (b[c.off], Cursor(c.off + 1, false))
  {
    assert b[c.off..c.off + 1] == [b[c.off]];
    ByteAt(b, c, b[c.off]);
  }

  /** A node cut off in its middle: only an unchecked one is still a value, its word read as 0. */
  lemma {:induction false} NodeCutExact(p: nat, b: seq<Byte>, k: nat, c: Cursor)
    requires c.off <= k <= |b| && !c.fail && k < DecodeNode(p, b, c).1.off
    requires DecodeNode(p, b, c).0.Ok? && !DecodeNode(p, b, c).1.fail
    ensures var q := DecodeNode(p, b[..k], c);
      && c.off < |b| && q.1.fail
      && (q.0.Ok? <==> c.off < k && Unchecked(b[c.off]))
      && (q.0.Ok? ==> q.0.value == Zeroed(DecodeNode(p, b, c).0.value))
  {
    Present(p, b, c);
    NodeCut(p, b, k, c);
    TagOf(p, b, c);
    var d := b[..k];
    if c.off < k {
      TagOf(p, d, c);
      var c1 := Cursor(c.off + 1, false);
      RefFails(p, d, c1);
      hide Word, Take, DecodeStr, DecodeRef;
      SignBack(0);
    }
  }

  lemma {:induction false} Present(p: nat, b: seq<Byte>, c: Cursor)
    requires c.off <= |b| && !c.fail && DecodeNode(p, b, c).0.Ok?
    ensures c.off < |b|
  {
    hide DecodeStr, DecodeRef;
  }

  lemma {:induction false} RefFails(p: nat, d: seq<Byte>, c: Cursor)
    requires c.off <= |d|
    ensures DecodeRef(p, d, c).1.fail ==> DecodeRef(p, d, c).0.Err?
  {
  }

  lemma {:induction false} NodeStaysFailed(p: nat, b: seq<Byte>, c: Cursor)
    requires c.off <= |b| && c.fail
    ensures DecodeNode(p, b, c).1.fail
  {
    Sticky(p, b, c, 0);
  }

  lemma {:induction false} NodesStayFailed(p: nat, b: seq<Byte>, c: Cursor, count: nat, acc: seq<Value>)
    requires c.off <= |b| && c.fail
    ensures DecodeNodes(p, b, c, count, acc) == if count == 0 then (Ok(acc), c) else (Err(MalformedNode), c)
  {
    Sticky(p, b, c, 0);
  }

  /** A list of nodes cut at k decodes exactly when it is all there, or the cut is in the last node
      and leaves the tag of an unchecked one. */
  lemma {:induction false} NodesCutExact(p: nat, b: seq<Byte>, k: nat, c: Cursor, count: nat, acc: seq<Value>)
    requires c.off <= k <= |b| && DecodeNodes(p, b, c, count, acc).0.Ok? && !DecodeNodes(p, b, c, count, acc).1.fail
    ensures var r, q := DecodeNodes(p, b, c, count, acc), DecodeNodes(p, b[..k], c, count, acc);
      && (count > 0 ==> LastStart(p, b, c, count) < |b|)
      && (q.0.Ok? <==> k >= r.1.off || (count > 0 && LastStart(p, b, c, count) < k && Unchecked(b[LastStart(p, b, c, count)])))
      && (k >= r.1.off ==> q == r)
      && (k < r.1.off && q.0.Ok? ==> |r.0.value| > 0 && q.0.value == r.0.value[..|r.0.value| - 1] + [Zeroed(r.0.value[|r.0.value| - 1])])
    decreases count
  {
    hide DecodeNode, Zeroed, Unchecked;
    if count > 0 {
      LastPresent(p, b, c, count, acc);
      var v, w := DecodeNode(p, b, c), DecodeNode(p, b[..k], c);
      if v.1.fail {
        NodesStayFailed(p, b, v.1, count - 1, acc + [v.0.value]);
      }
      if c.fail {
        NodeStaysFailed(p, b, c);
      }
      Present(p, b, c);
      NodesBound(p, b, v.1, count - 1, acc + [v.0.value]);
      if v.1.off <= k {
        NodeCut(p, b, k, c);
        NodesCutExact(p, b, k, v.1, count - 1, acc + [v.0.value]);
        if count > 1 {
          LastLater(p, b, v.1, count - 1);
        }
      } else {
        NodeCutExact(p, b, k, c);
        if w.0.Ok? {
          NodesStayFailed(p, b[..k], w.1, count - 1, acc + [w.0.value]);
        }
        if count > 1 {
          LastLater(p, b, v.1, count - 1);
        }
      }
    }
  }

  lemma {:induction false} LastPresent(p: nat, b: seq<Byte>, c: Cursor, count: nat, acc: seq<Value>)
    requires c.off <= |b| && count > 0 && DecodeNodes(p, b, c, count, acc).0.Ok?
    ensures LastStart(p, b, c, count) < |b|
    decreases count
  {
    hide DecodeNode;
    var v := DecodeNode(p, b, c);
    if c.fail {
      Sticky(p, b, c, 0);
    } else if count == 1 {
      Present(p, b, c);
    } else {
      LastPresent(p, b, v.1, count - 1, acc + [v.0.value]);
    }
  }

  /** The last node starts at the cursor or later. */
  lemma {:induction false} LastLater(p: nat, b: seq<Byte>, c: Cursor, count: nat)
    requires c.off <= |b| && count > 0
    ensures c.off <= LastStart(p, b, c, count)
    decreases count
  {
    hide DecodeNode;
    if count > 1 {
      Forward(p, b, c, 0);
      LastLater(p, b, DecodeNode(p, b, c).1, count - 1);
    }
  }

  /** The count word of a list response and the cursor after it. */
  function Counted(b: seq<Byte>): (r: (nat, Cursor))
    ensures r.1.off <= |b|
  {
    Word(b, Word(b, Cursor(0, false), 1).1, 4)
  }

  /** decodeListResult does not look at fail, so it accepts some truncated responses.  Exactly: of
      the cuts of a response that decodes without an overrun, those that keep all of it, those
      that cut the status or the count, which read as an empty list, and those that cut only the
      last node and leave the tag of a bool, an int or a float, which reads as 0. */
  lemma {:induction false} ListCutExact(p: nat, b: seq<Byte>, k: nat, interrupted: bool)
    requires k <= |b| && ListResult(p, b, interrupted).0.Ok? && !ListResult(p, b, interrupted).1.fail
    ensures var r, q := ListResult(p, b, interrupted), ListResult(p, b[..k], interrupted);
      var n := Counted(b);
      && n.1 == Cursor(5, false) && 5 <= r.1.off
      && (n.0 > 0 ==> LastStart(p, b, n.1, n.0) < |b|)
      && (q.0.Ok? <==> k < 5 || k >= r.1.off || (n.0 > 0 && LastStart(p, b, n.1, n.0) < k && Unchecked(b[LastStart(p, b, n.1, n.0)])))
      && (k < 5 ==> q.0 == Ok([]))
      && (k >= r.1.off ==> q == r)
      && (5 <= k < r.1.off && q.0.Ok? ==> |r.0.value| > 0 && q.0.value == r.0.value[..|r.0.value| - 1] + [Zeroed(r.0.value[|r.0.value| - 1])])
  {
    hide Word, Take, LenBytes, DecodeNodes, LastStart, Unchecked, Zeroed;
    OkList(p, b, interrupted);
    var n := Counted(b);
    if k < 5 {
      ShortList(p, b[..k], interrupted);
    } else {
      TakeCut(b, k, Cursor(0, false), 1);
      TakeCut(b, k, Cursor(1, false), 4);
      NodesBound(p, b, n.1, n.0, []);
      NodesCutExact(p, b, k, n.1, n.0, []);
    }
    NodesBound(p, b, n.1, n.0, []);
    if n.0 > 0 {
      LastPresent(p, b, n.1, n.0, []);
    }
  }

  /** What a response that decodes without an overrun begins with. */
  lemma {:induction false} OkList(p: nat, b: seq<Byte>, interrupted: bool)
    requires ListResult(p, b, interrupted).0.Ok? && !ListResult(p, b, interrupted).1.fail
    ensures |b| >= 5 && b[0] == wireOK && Word(b, Cursor(0, false), 1) == (wireOK, Cursor(1, false)) && Counted(b).1 == Cursor(5, false)
    ensures ListResult(p, b, interrupted) == DecodeNodes(p, b, Counted(b).1, Counted(b).0, [])
  {
    hide DecodeNodes, LenBytes;
    var n := Counted(b);
    if n.1.fail {
      NodesStayFailed(p, b, n.1, n.0, []);
    } else {
      TagOf(p, b, Cursor(0, false));
    }
  }

  /** A response cut in its status or its count is an empty list. */
  lemma {:induction false} ShortList(p: nat, d: seq<Byte>, interrupted: bool)
    requires |d| < 5 && (d != [] ==> d[0] == wireOK)
    ensures ListResult(p, d, interrupted).0 == Ok([])
  {
    hide DecodeNodes, LenBytes;
    if d != [] {
      TagOf(p, d, Cursor(0, false));
    }
    assert Word(d, Word(d, Cursor(0, false), 1).1, 4).0 == 0;
    NoMore(p, d, Word(d, Word(d, Cursor(0, false), 1).1, 4).1);
  }

  lemma {:induction false} NoMore(p: nat, d: seq<Byte>, c: Cursor)
    requires c.off <= |d|
    ensures DecodeNodes(p, d, c, 0, []) == (Ok([]), c)
  {
  }

  /** Two truncated responses it accepts: an empty one, and one whose bool node ends after its
      tag. */
  lemma {:induction false} CutBoolAccepted(p: nat)
    ensures ListResult(p, [wireOK, 1, 0, 0, 0, wireBool], false) == (Ok([Bool(false)]), Cursor(6, true))
    ensures ListResult(p, [], false) == (Ok([]), Cursor(0, true))
  {
    NothingAccepted(p);
    var b := [wireOK, 1, 0, 0, 0, wireBool];
    hide DecodeNode, Word, Take;
    assert At(b, 0, [wireOK] + [1, 0, 0, 0, wireBool]);
    TagAt(p, b, Cursor(0, false), wireOK, [1, 0, 0, 0, wireBool]);
    assert LittleEndian(1, 4) == [1, 0, 0, 0] by { OneWord(); }
    Pow256Table();
    assert At(b, 1, LittleEndian(1, 4));
    WordAt(b, Cursor(1, false), 1, 4);
    CutBool(p, b);
    assert [] + [Bool(false)] == [Bool(false)];
    assert DecodeNodes(p, b, Cursor(5, false), 1, []) == DecodeNodes(p, b, Cursor(6, true), 0, [Bool(false)]);
  }

  lemma {:induction false} NothingAccepted(p: nat)
    ensures ListResult(p, [], false) == (Ok([]), Cursor(0, true))
  {
  }

  lemma {:induction false} OneWord()
    ensures LittleEndian(1, 4) == [1, 0, 0, 0]
  {
    assert LittleEndian(0, 1) == [0] + LittleEndian(0, 0);
    assert LittleEndian(0, 2) == [0] + LittleEndian(0, 1);
    assert LittleEndian(0, 3) == [0] + LittleEndian(0, 2);
  }

  lemma {:induction false} CutBool(p: nat, b: seq<Byte>)
    requires |b| == 6 && b[5] == wireBool
    ensures DecodeNode(p, b, Cursor(5, false)) == (Ok(Bool(false)), Cursor(6, true))
  {
    assert At(b, 5, [wireBool]);
    ByteAt(b, Cursor(5, false), wireBool);
  }

  /** The envelopes perl_eval sends back decode to what they carry. */
  lemma {:induction false} EvalRoundTrip(p: nat, v: Value, message: seq<Byte>, out: seq<Byte>, err: seq<Byte>, rest: seq<Byte>)
    requires EncodeValue(p, v, true).Ok? && !Flattens(v) && Short(v) && |message| < TWO32 && |out| < TWO32 && |err| < TWO32
    ensures var b := [wireOK] + (EncodeValue(p, v, true).value + (Prefixed(out) + (Prefixed(err) + rest)));
      Eval(p, b, false).0 == Ok(EvalResult(Returned(Norm(p, v)), out, err))
    ensures var b := [wireDie] + (Prefixed(message) + (Prefixed(out) + (Prefixed(err) + rest)));
      && Eval(p, b, false).0 == Ok(EvalResult(Died(message), out, err))
      && Eval(p, b, true).0 == Err(Cancelled)
  {
    hide Word, Take, LenBytes, DecodeNode, Streams, EncodeValue, Prefixed, Norm;
    var node, tail := EncodeValue(p, v, true).value, Prefixed(out) + (Prefixed(err) + rest);
    var b := [wireOK] + (node + tail);
    TagAt(p, b, Cursor(0, false), wireOK, node + tail);
    AtSplit(b, 1, node, tail);
    NodeRoundTrip(p, v, b, Cursor(1, false));
    StreamsAt(b, Cursor(1 + |node|, false), out, err, rest, Returned(Norm(p, v)));
    var d := [wireDie] + (Prefixed(message) + tail);
    TagAt(p, d, Cursor(0, false), wireDie, Prefixed(message) + tail);
    AtSplit(d, 1, Prefixed(message), tail);
    PrefixedAt(d, Cursor(1, false), message);
    StreamsAt(d, Cursor(1 + |Prefixed(message)|, false), out, err, rest, Died(message));
  }

  /** The failures a list result can carry: a die's message, or the cancellation if the call was
      interrupted, and the exit code of a guest that left, whatever follows. */
  lemma {:induction false} ListFailure(p: nat, message: seq<Byte>, code: int, rest: seq<Byte>, interrupted: bool)
    requires |message| < TWO32 && -0x8000_0000 <= code < 0x8000_0000
    ensures ListResult(p, [1] + (Prefixed(message) + rest), interrupted).0 == Err(if interrupted then Cancelled else Die(message))
    ensures ListResult(p, [2] + (LittleEndian(code % TWO32, 4) + rest), interrupted).0 == Err(Exit(code))
  {
    Pow256Table();
    hide Word, Take, LenBytes, Prefixed, LittleEndian;
    var b := [wireDie] + (Prefixed(message) + rest);
    TagAt(p, b, Cursor(0, false), wireDie, Prefixed(message) + rest);
    AtSplit(b, 1, Prefixed(message), rest);
    PrefixedAt(b, Cursor(1, false), message);
    var d := [wireExit] + (LittleEndian(code % TWO32, 4) + rest);
    TagAt(p, d, Cursor(0, false), wireExit, LittleEndian(code % TWO32, 4) + rest);
    AtSplit(d, 1, LittleEndian(code % TWO32, 4), rest);
    WordAt(d, Cursor(1, false), code % TWO32, 4);
  }

  /** Any other status is malformed, for a list and for an eval. */
  lemma {:induction false} UnknownStatus(p: nat, status: Byte, rest: seq<Byte>, interrupted: bool)
    ensures status > 2 ==> ListResult(p, [status] + rest, interrupted).0 == Err(MalformedEnvelope)
    ensures status > 1 ==> Eval(p, [status] + rest, interrupted).0 == Err(MalformedEnvelope)
  {
    hide Word, Take, LenBytes;
    TagAt(p, [status] + rest, Cursor(0, false), status, rest);
  }

  lemma {:induction false} StreamsAt(b: seq<Byte>, c: Cursor, out: seq<Byte>, err: seq<Byte>, rest: seq<Byte>, outcome: Outcome)
    requires !c.fail && |out| < TWO32 && |err| < TWO32 && At(b, c.off, Prefixed(out) + (Prefixed(err) + rest))
    ensures Streams(b, c, outcome).0 == Ok(EvalResult(outcome, out, err))
  {
    hide LenBytes, Prefixed;
    AtSplit(b, c.off, Prefixed(out), Prefixed(err) + rest);
    AtSplit(b, c.off + |Prefixed(out)|, Prefixed(err), rest);
    PrefixedAt(b, c, out);
    PrefixedAt(b, Cursor(c.off + |Prefixed(out)|, false), err);
  }
}
