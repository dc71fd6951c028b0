/** The bridge's protobuf subset: the append functions, the reader that walks a message in place,
    and the two meeting again (Protocol Buffers encoding, "Base 128 Varints" and "Message
    Structure"). */
module Protobuf {

  import opened Endian
  import opened Options
  import opened Words

  type U64 = v: int | 0 <= v < TWO64

  // A Go slice is no longer than an int can say.
  predicate Sliceable(s: seq<Byte>) {
    |s| < TWO63
  }

  // ---- varints ----------------------------------------------------------------------------

  function Varint(v: nat): (s: seq<Byte>)
    ensures s != []
  {
    if v < 0x80 then [v] else [v % 0x80 + 0x80] + Varint(v / 0x80)
  }

  function Pow128(k: nat): (p: nat)
    ensures p > 0
  {
    if k == 0 then 1 else 0x80 * Pow128(k - 1)
  }

  /** The bytes of a varint at the front of s, its end or the end of s. */
  function VLen(s: seq<Byte>): (n: nat)
    ensures n <= |s| && (s != [] ==> n > 0)
  {
    if s == [] then 0 else if s[0] < 0x80 then 1 else 1 + VLen(s[1..])
  }

  /** Seven bits a byte, the first the lowest. */
  function Value(s: seq<Byte>): nat {
    if s == [] then 0 else s[0] % 0x80 + 0x80 * Value(s[1..])
  }

  /** What readVarint makes of the front of s: bits beyond 64 are shifted out. */
  function VVal(s: seq<Byte>): (v: U64) {
    Value(s[..VLen(s)]) % TWO64
  }

  lemma {:induction false} VarintBack(v: nat, rest: seq<Byte>)
    ensures VLen(Varint(v) + rest) == |Varint(v)| && Value(Varint(v)) == v
  {
    var s := Varint(v) + rest;
    if v >= 0x80 {
      VarintBack(v / 0x80, rest);
      assert s[1..] == Varint(v / 0x80) + rest;
    }
  }

  /** Any 64-bit value survives, whatever follows. */
  lemma {:induction false} VarintRoundTrip(v: U64, rest: seq<Byte>)
    ensures VLen(Varint(v) + rest) == |Varint(v)| && VVal(Varint(v) + rest) == v
  {
    VarintBack(v, rest);
    assert (Varint(v) + rest)[..|Varint(v)|] == Varint(v);
  }

  /** k bytes hold 7k bits; ten hold any 64-bit value. */
  lemma {:induction false} VarintSize(v: nat, k: nat)
    requires v < Pow128(k) && k > 0
    ensures |Varint(v)| <= k
  {
    if v >= 0x80 {
      VarintSize(v / 0x80, k - 1);
    }
  }

  lemma {:induction false} ValueMore(s: seq<Byte>, b: Byte)
    ensures Value(s + [b]) == Value(s) + (b % 0x80) * Pow128(|s|) && Value(s) < Pow128(|s|)
  {
    if s == [] {
      assert [] + [b] == [b] && [b][1..] == [];
    } else {
      ValueMore(s[1..], b);
      assert (s + [b])[1..] == s[1..] + [b];
      MulThrough(Value(s[1..]), b % 0x80, Pow128(|s| - 1));
    }
  }

  lemma {:induction false} MulThrough(v: nat, b: nat, p: nat)
    ensures 0x80 * (v + b * p) == 0x80 * v + b * (0x80 * p)
  {
  }

  /** Bitwise or. */
  function Or(a: nat, b: nat): nat {
    if a == 0 && b == 0 then 0 else (if a % 2 == 1 || b % 2 == 1 then 1 else 0) + 2 * Or(a / 2, b / 2)
  }

  function Pow2(k: nat): (p: nat)
    ensures p > 0
  {
    if k == 0 then 1 else 2 * Pow2(k - 1)
  }

  lemma {:induction false} OrZero(a: nat)
    ensures Or(a, 0) == a && Or(0, a) == a
  {
    if a > 0 {
      OrZero(a / 2);
    }
  }

  /** Or-ing in bits that lie above all those of v adds them. */
  lemma {:induction false} OrAbove(v: nat, m: nat, k: nat)
    requires v < Pow2(k)
    ensures Or(v, m * Pow2(k)) == v + m * Pow2(k)
  {
    if k == 0 {
      OrZero(m);
    } else {
      OrAbove(v / 2, m, k - 1);
      var w := m * Pow2(k);
      TwiceMul(m, Pow2(k - 1));
      assert w == 2 * (m * Pow2(k - 1)) && w / 2 == m * Pow2(k - 1) && w % 2 == 0;
    }
  }

  lemma {:induction false} TwiceMul(m: nat, p: nat)
    ensures m * (2 * p) == 2 * (m * p)
  {
  }

  lemma {:induction false} Pow128Is(k: nat)
    ensures Pow128(k) == Pow2(7 * k)
  {
    if k > 0 {
      Pow128Is(k - 1);
      var n := 7 * (k - 1);
      assert Pow2(n + 7) == 2 * Pow2(n + 6) && Pow2(n + 6) == 2 * Pow2(n + 5) && Pow2(n + 5) == 2 * Pow2(n + 4);
      assert Pow2(n + 4) == 2 * Pow2(n + 3) && Pow2(n + 3) == 2 * Pow2(n + 2) && Pow2(n + 2) == 2 * Pow2(n + 1);
    }
  }

  /** The step of readVarint: or-ing the shifted bits into those read so far is adding them modulo
      2^64; a shift beyond 64 loses them. */
  lemma {:induction false} OrIsAdd(v: nat, b: nat, k: nat)
    requires v < Pow128(k) && b < 0x80
    ensures Or(v % TWO64, (b * Pow128(k)) % TWO64) == (v + b * Pow128(k)) % TWO64
  {
    var p := Pow128(k);
    if k <= 9 {
      var q := Pow128Divides(k);
      ModOfMultiple(b, p, q);
      ModSum(v, b, p, q);
      Pow128Is(k);
      OrAbove(v, b % q, 7 * k);
    } else {
      var m := Pow128Beyond(k);
      MulThree(b, m, TWO64);
      ModAway(v, b * m, TWO64);
      ModAway(0, b * m, TWO64);
      OrZero(v % TWO64);
    }
  }

  lemma {:induction false} MulThree(a: nat, b: nat, c: nat)
    ensures a * (b * c) == (a * b) * c
  {
  }

  /** Up to nine bytes the next one's bits start below the 64th. */
  lemma {:induction false} Pow128Divides(k: nat) returns (q: nat)
    requires k <= 9
    ensures q > 0 && TWO64 == Pow128(k) * q
  {
    Pow128Table();
    match k
    case 0 => q := TWO64;
    case 1 => q := 0x200_0000_0000_0000;
    case 2 => q := 0x4_0000_0000_0000;
    case 3 => q := 0x800_0000_0000;
    case 4 => q := 0x10_0000_0000;
    case 5 => q := 0x2000_0000;
    case 6 => q := 0x40_0000;
    case 7 => q := 0x8000;
    case 8 => q := 0x100;
    case 9 => q := 2;
  }

  /** From the tenth on they start above it. */
  lemma {:induction false} Pow128Beyond(k: nat) returns (m: nat)
    requires k >= 10
    ensures Pow128(k) == m * TWO64
  {
    if k == 10 {
      Pow128Table();
      m := 0x40;
    } else {
      var n := Pow128Beyond(k - 1);
      m := 0x80 * n;
    }
  }

  lemma {:induction false} Pow128Table()
    ensures Pow128(0) == 1 && Pow128(1) == 0x80 && Pow128(2) == 0x4000 && Pow128(3) == 0x20_0000
    ensures Pow128(4) == 0x1000_0000 && Pow128(5) == 0x8_0000_0000 && Pow128(6) == 0x400_0000_0000
    ensures Pow128(7) == 0x2_0000_0000_0000 && Pow128(8) == 0x100_0000_0000_0000
    ensures Pow128(9) == 0x8000_0000_0000_0000 && Pow128(10) == 0x40_0000_0000_0000_0000
  {
    assert Pow128(2) == 0x80 * Pow128(1);
    assert Pow128(3) == 0x80 * Pow128(2);
    assert Pow128(4) == 0x80 * Pow128(3);
    assert Pow128(5) == 0x80 * Pow128(4);
    assert Pow128(6) == 0x80 * Pow128(5);
    assert Pow128(7) == 0x80 * Pow128(6);
    assert Pow128(8) == 0x80 * Pow128(7);
    assert Pow128(9) == 0x80 * Pow128(8);
  }

  lemma {:induction false} ModAway(r: nat, q: nat, d: nat)
    requires d > 0
    ensures (r + q * d) % d == r % d
  {
    var q0, r0 := r / d, r % d;
    assert r == q0 * d + r0;
    assert r + q * d == (q0 + q) * d + r0;
    DivMod(r + q * d, d, q0 + q, r0);
  }

  lemma {:induction false} ModOfMultiple(b: nat, p: nat, q: nat)
    requires p > 0 && q > 0
    ensures p * q > 0 && (b * p) % (p * q) == (b % q) * p
  {
    ModSum(0, b, p, q);
  }

  lemma {:induction false} ModSum(v: nat, b: nat, p: nat, q: nat)
    requires v < p && q > 0
    ensures p * q > 0 && v % (p * q) == v && (v + b * p) % (p * q) == v + (b % q) * p
  {
    var d, r := b / q, b % q;
    assert b == d * q + r;
    MulLe(1, q, p);
    MulLe(r + 1, q, p);
    assert b * p == (d * q) * p + r * p;
    assert (d * q) * p == d * (p * q);
    DivMod(v + b * p, p * q, d, v + r * p);
    DivMod(v, p * q, 0, v);
  }

  // ---- messages -----------------------------------------------------------------------------

  /** A field's value by wire type; Fixed64 and Fixed32 are the bits of a float. */
  datatype Payload =
    | VarintValue(v: U64)
    | Fixed64(bits: U64)
    | Bytes(data: seq<Byte>)
    | Fixed32(bits32: Word32)

  type Word32 = v: int | 0 <= v < TWO32

  datatype Field = Field(num: Word32, value: Payload)

  /** The field number a tag carries: the upper three bits of a uint32 are shifted out. */
  function Sent(num: Word32): (f: Word32)
    ensures num < 0x2000_0000 ==> f == num
  {
    num % 0x2000_0000
  }

  function WireType(p: Payload): (w: nat)
    ensures w < 8
  {
    match p
    case VarintValue(_) => 0
    case Fixed64(_) => 1
    case Bytes(_) => 2
    case Fixed32(_) => 5
  }

  function EncodePayload(p: Payload): seq<Byte> {
    match p
    case VarintValue(v) => Varint(v)
    case Fixed64(bits) => LittleEndian(bits, 8)
    case Bytes(data) => Varint(|data|) + data
    case Fixed32(bits) => LittleEndian(bits, 4)
  }

  /** field<<3|wireType in uint32. */
  function TagOf(field: Word32, wireType: nat): (t: Word32)
    requires wireType < 8
  {
    field * 8 % TWO32 + wireType
  }

  function EncodeField(f: Field): seq<Byte> {
    Varint(TagOf(f.num, WireType(f.value))) + EncodePayload(f.value)
  }

  function EncodeMsg(fs: seq<Field>): seq<Byte> {
    if fs == [] then [] else EncodeField(fs[0]) + EncodeMsg(fs[1..])
  }

  lemma {:induction false} EncodeMsgMore(fs: seq<Field>, f: Field)
    ensures EncodeMsg(fs + [f]) == EncodeMsg(fs) + EncodeField(f)
  {
    hide EncodeField;
    if fs == [] {
      assert [] + [f] == [f] && [f][1..] == [];
    } else {
      EncodeMsgMore(fs[1..], f);
      assert (fs + [f])[1..] == fs[1..] + [f] && (fs + [f])[0] == fs[0];
    }
  }

  // ---- the append functions ---------------------------------------------------------------

  /** pbVarintLen: the size without writing it. */
  method PbVarintLen(v: U64) returns (n: nat)
    ensures n == |Varint(v)|
  {
    n := 1;
    var rest: nat := v;
    while rest >= 0x80
      invariant n + |Varint(rest)| == |Varint(v)| + 1
    {
      rest := rest / 0x80;
      n := n + 1;
    }
  }

  method PbAppendVarint(buf: seq<Byte>, v: U64) returns (r: seq<Byte>)
    ensures r == buf + Varint(v)
  {
    r := buf;
    var rest: nat := v;
    while rest >= 0x80
      invariant r + Varint(rest) == buf + Varint(v)
    {
      r := r + [rest % 0x80 + 0x80];
      rest := rest / 0x80;
    }
    r := r + [rest];
  }

  method PbAppendTag(buf: seq<Byte>, field: Word32, wireType: nat) returns (r: seq<Byte>)
    requires wireType < 8
    ensures r == buf + Varint(TagOf(field, wireType))
  {
    r := PbAppendVarint(buf, TagOf(field, wireType));
  }

  method PbAppendUint64(buf: seq<Byte>, field: Word32, v: U64) returns (r: seq<Byte>)
    ensures r == buf + EncodeField(Field(field, VarintValue(v)))
  {
    hide Varint, TagOf;
    r := PbAppendTag(buf, field, 0);
    r := PbAppendVarint(r, v);
  }

  /** An int32 as a uint64: its sign extends. */
  method PbAppendInt32(buf: seq<Byte>, field: Word32, v: int) returns (r: seq<Byte>)
    requires v == ToI32(v)
    ensures r == buf + EncodeField(Field(field, VarintValue(v % TWO64)))
  {
    hide Varint, TagOf, ToI32;
    r := PbAppendTag(buf, field, 0);
    r := PbAppendVarint(r, v % TWO64);
  }

  method PbAppendInt64(buf: seq<Byte>, field: Word32, v: int) returns (r: seq<Byte>)
    requires v == ToI64(v)
    ensures r == buf + EncodeField(Field(field, VarintValue(v % TWO64)))
  {
    hide Varint, TagOf, ToI64;
    r := PbAppendTag(buf, field, 0);
    r := PbAppendVarint(r, v % TWO64);
  }

  method PbAppendBool(buf: seq<Byte>, field: Word32, v: bool) returns (r: seq<Byte>)
    ensures r == buf + EncodeField(Field(field, VarintValue(if v then 1 else 0)))
  {
    hide TagOf;
    r := PbAppendTag(buf, field, 0);
    if v {
      r := r + [1];
    } else {
      r := r + [0];
    }
  }

  /** pbAppendString, pbAppendBytes and pbAppendSubmessage write the same bytes. */
  method PbAppendBytes(buf: seq<Byte>, field: Word32, data: seq<Byte>) returns (r: seq<Byte>)
    requires Sliceable(data)
    ensures r == buf + EncodeField(Field(field, Bytes(data)))
  {
    hide Varint, TagOf;
    r := PbAppendTag(buf, field, 2);
    r := PbAppendVarint(r, |data|);
    r := r + data;
  }

  method PbAppendFloat(buf: seq<Byte>, field: Word32, bits: Word32) returns (r: seq<Byte>)
    ensures r == buf + EncodeField(Field(field, Fixed32(bits)))
  {
    hide Varint, TagOf, LittleEndian;
    r := PbAppendTag(buf, field, 5);
    r := r + LittleEndian(bits, 4);
  }

  method PbAppendDouble(buf: seq<Byte>, field: Word32, bits: U64) returns (r: seq<Byte>)
    ensures r == buf + EncodeField(Field(field, Fixed64(bits)))
  {
    hide Varint, TagOf, LittleEndian;
    r := PbAppendTag(buf, field, 1);
    r := r + LittleEndian(bits, 8);
  }

  /** What pbAppendUint64(nil, 1, ptr) builds. */
  function HandleMessage(ptr: U64): seq<Byte> {
    EncodeField(Field(1, VarintValue(ptr)))
  }

  /** A handle written straight into buf, its length counted beforehand: the same bytes as the
      submessage with the pointer in field 1. */
  method PbAppendHandle(buf: seq<Byte>, field: Word32, ptr: U64) returns (r: seq<Byte>)
    ensures r == buf + EncodeField(Field(field, Bytes(HandleMessage(ptr))))
  {
    HandleShape(ptr);
    hide TagOf, HandleMessage, Varint;
    var n := PbVarintLen(ptr);
    var inner := 1 + n;
    r := PbAppendTag(buf, field, 2);
    r := PbAppendVarint(r, inner);
    r := r + [0x08];
    r := PbAppendVarint(r, ptr);
    assert r == buf + (Varint(TagOf(field, 2)) + (Varint(inner) + ([0x08] + Varint(ptr))));
  }

  lemma {:induction false} HandleShape(ptr: U64)
    ensures HandleMessage(ptr) == [0x08] + Varint(ptr) && |Varint(ptr)| <= 10
  {
    assert Varint(TagOf(1, 0)) == [0x08];
    Pow128Table();
    VarintSize(ptr, 10);
  }

  // ---- reading, as functions of the bytes and the place ---------------------------------------

  /** Where a length prefix at pos says its data is: None when its int is negative or runs past
      the largest int, where the source panics or moves backwards. */
  function Extent(data: seq<Byte>, pos: nat): (r: Option<(nat, nat)>)
    requires pos <= |data|
    ensures r.Some? ==> pos <= r.value.0 <= |data|
  {
    var start := pos + VLen(data[pos..]);
    var n := ToI64(VVal(data[pos..]));
    if n < 0 || start + n >= TWO63 then None else Some((start, start + n))
  }

  function Clamp(end: nat, data: seq<Byte>): nat {
    if end > |data| then |data| else end
  }

  /** skip: the place after a value of the wire type. */
  function SkipTo(data: seq<Byte>, pos: nat, wireType: nat): (r: Option<nat>)
    requires pos <= |data|
    ensures r.Some? ==> pos <= r.value <= |data|
  {
    match wireType
    case 0 => Some(pos + VLen(data[pos..]))
    case 1 => Some(Clamp(pos + 8, data))
    case 2 => (match Extent(data, pos) case None => None case Some(e) => Some(Clamp(e.1, data)))
    case 5 => Some(Clamp(pos + 4, data))
    case _ => Some(pos)
  }

  function FieldOf(tag: U64): Word32 {
    tag / 8 % TWO32
  }

  /** A walk for a field: where its value starts and its wire type, no such field, or a length
      prefix no message has. */
  datatype Walk = Found(pos: nat, wireType: nat) | Absent | Crash

  function Find(data: seq<Byte>, pos: nat, f: Word32): (r: Walk)
    requires pos <= |data|
    ensures r.Found? ==> r.pos <= |data|
    decreases |data| - pos
  {
    if pos >= |data| then Absent else
    var tag := VVal(data[pos..]);
    var p := pos + VLen(data[pos..]);
    if FieldOf(tag) == f then Found(p, tag % 8)
    else match SkipTo(data, p, tag % 8)
      case None => Crash
      case Some(q) => Find(data, q, f)
  }

  /** The kinds of scalar a response field is read as. */
  datatype Kind = KBool | KInt32 | KInt64 | KUint32 | KUint64 | KFloat | KDouble | KBytes

  datatype Scalar =
    | BoolS(b: bool)
    | IntS(i: int)
    | FloatS(bits: nat)
    | BytesS(data: seq<Byte>)

  function Zero(k: Kind): Scalar {
    match k
    case KBool => BoolS(false)
    case KFloat => FloatS(0)
    case KDouble => FloatS(0)
    case KBytes => BytesS([])
    case _ => IntS(0)
  }

  function OfVarint(v: U64, k: Kind): Scalar {
    match k
    case KBool => BoolS(v != 0)
    case KInt32 => IntS(ToI32(v))
    case KInt64 => IntS(ToI64(v))
    case KUint32 => IntS(v % TWO32)
    case _ => IntS(v)
  }

  /** The readers; None is a panic. */
  function ReadAs(data: seq<Byte>, pos: nat, k: Kind): Option<Scalar>
    requires pos <= |data|
  {
    match k
    case KFloat => Some(if pos + 4 > |data| then FloatS(0) else FloatS(FromLittleEndian(data[pos..pos + 4])))
    case KDouble => Some(if pos + 8 > |data| then FloatS(0) else FloatS(FromLittleEndian(data[pos..pos + 8])))
    case KBytes => (match Extent(data, pos) case None => None case Some(e) => Some(BytesS(data[e.0..Clamp(e.1, data)])))
    case _ => Some(OfVarint(VVal(data[pos..]), k))
  }

  /** readScalarAtField */
  function ScalarAt(data: seq<Byte>, f: Word32, k: Kind): Option<Scalar> {
    match Find(data, 0, f)
    case Found(p, _) => ReadAs(data, p, k)
    case Absent => Some(Zero(k))
    case Crash => None
  }

  /** The inner walk of readHandlePtr: a varint in field 1, other fields skipped. */
  function InnerPtr(data: seq<Byte>, pos: nat): Option<U64>
    requires pos <= |data|
    decreases |data| - pos
  {
    if pos >= |data| then Some(0) else
    var tag := VVal(data[pos..]);
    var p := pos + VLen(data[pos..]);
    if FieldOf(tag) == 1 && tag % 8 == 0 then Some(VVal(data[p..]))
    else match SkipTo(data, p, tag % 8)
      case None => None
      case Some(q) => InnerPtr(data, q)
  }

  /** readHandlePtr */
  function HandlePtr(data: seq<Byte>): Option<U64> {
    match Find(data, 0, 1)
    case Absent => Some(0)
    case Crash => None
    case Found(p, w) =>
      if w == 0 then Some(VVal(data[p..]))
      else if w == 2 then (match Extent(data, p) case None => None case Some(e) => InnerPtr(data[e.0..Clamp(e.1, data)], 0))
      else Some(0)
  }

  /** readPtrAtField */
  function PtrAt(data: seq<Byte>, f: Word32): Option<U64> {
    if f == 1 then HandlePtr(data) else
    match Find(data, 0, f)
    case Absent => Some(0)
    case Crash => None
    case Found(p, w) =>
      if w != 2 then Some(0)
      else match Extent(data, p) case None => None case Some(e) => HandlePtr(data[e.0..Clamp(e.1, data)])
  }

  /** pbExtractError: the string in field 15. */
  function ErrorIn(resp: seq<Byte>): Option<Option<seq<Byte>>> {
    match Find(resp, 0, 15)
    case Absent => Some(None)
    case Crash => None
    case Found(p, _) => (match Extent(resp, p) case None => None case Some(e) => Some(Some(resp[e.0..Clamp(e.1, resp)])))
  }

  // ---- reading what was written -------------------------------------------------------------

  lemma {:induction false} VarintAt(data: seq<Byte>, pos: nat, v: U64)
    requires At(data, pos, Varint(v))
    ensures VLen(data[pos..]) == |Varint(v)| && VVal(data[pos..]) == v
  {
    var rest := data[pos + |Varint(v)|..];
    assert data[pos..] == Varint(v) + rest;
    VarintRoundTrip(v, rest);
  }

  lemma {:induction false} TagBack(f: Word32, w: nat)
    requires w < 8
    ensures TagOf(f, w) < TWO64 && FieldOf(TagOf(f, w)) == Sent(f) && TagOf(f, w) % 8 == w
  {
    var q := f / 0x2000_0000;
    assert f == q * 0x2000_0000 + Sent(f) && f * 8 == q * TWO32 + Sent(f) * 8;
    assert f * 8 % TWO32 == Sent(f) * 8;
  }

  lemma {:induction false} SmallInt(n: nat)
    requires n < TWO63
    ensures ToI64(n) == n && n < TWO64
  {
  }

  /** skip lands on the end of the value. */
  lemma {:induction false} SkipLands(data: seq<Byte>, pos: nat, p: Payload)
    requires Sliceable(data) && At(data, pos, EncodePayload(p))
    ensures SkipTo(data, pos, WireType(p)) == Some(pos + |EncodePayload(p)|)
  {
    match p
    case VarintValue(v) =>
      VarintAt(data, pos, v);
    case Bytes(d) =>
      BytesAt(data, pos, d);
    case _ =>
  }

  lemma {:induction false} BytesAt(data: seq<Byte>, pos: nat, d: seq<Byte>)
    requires Sliceable(data) && At(data, pos, Varint(|d|) + d)
    ensures |d| < TWO63 && Extent(data, pos) == Some((pos + |Varint(|d|)|, pos + |Varint(|d|) + d|))
    ensures At(data, pos + |Varint(|d|)|, d)
  {
    hide Varint, VVal, VLen, ToI64;
    AtSplit(data, pos, Varint(|d|), d);
    VarintAt(data, pos, |d|);
    SmallInt(|d|);
  }

  /** The bytes of the first i fields. */
  function Offset(fs: seq<Field>, i: nat): nat
    requires i <= |fs|
  {
    |EncodeMsg(fs[..i])|
  }

  lemma {:induction false} FieldAt(fs: seq<Field>, i: nat)
    requires i < |fs|
    ensures Offset(fs, i + 1) == Offset(fs, i) + |EncodeField(fs[i])|
    ensures At(EncodeMsg(fs), Offset(fs, i), EncodeField(fs[i]))
  {
    hide EncodeField;
    EncodeMsgMore(fs[..i], fs[i]);
    assert fs[..i] + [fs[i]] == fs[..i + 1];
    EncodeMsgJoin(fs[..i + 1], fs[i + 1..]);
    assert fs[..i + 1] + fs[i + 1..] == fs;
    var e, rest := EncodeMsg(fs[..i]), EncodeMsg(fs[i + 1..]);
    assert EncodeMsg(fs) == e + EncodeField(fs[i]) + rest;
  }

  lemma {:induction false} EncodeMsgJoin(a: seq<Field>, b: seq<Field>)
    ensures EncodeMsg(a + b) == EncodeMsg(a) + EncodeMsg(b)
  {
    hide EncodeField;
    if a == [] {
      assert a + b == b;
    } else {
      EncodeMsgJoin(a[1..], b);
      assert (a + b)[1..] == a[1..] + b && (a + b)[0] == a[0];
    }
  }

  /** One round of a walk over an encoded message. */
  lemma {:induction false} FieldRead(data: seq<Byte>, pos: nat, f: Field)
    requires Sliceable(data) && At(data, pos, EncodeField(f))
    ensures var t := Varint(TagOf(f.num, WireType(f.value)));
      && pos < |data| && VLen(data[pos..]) == |t| && FieldOf(VVal(data[pos..])) == Sent(f.num) && VVal(data[pos..]) % 8 == WireType(f.value)
      && At(data, pos + |t|, EncodePayload(f.value))
      && SkipTo(data, pos + |t|, WireType(f.value)) == Some(pos + |EncodeField(f)|)
  {
    hide Varint, VVal, VLen, EncodePayload, TagOf, FieldOf;
    var t := TagOf(f.num, WireType(f.value));
    TagBack(f.num, WireType(f.value));
    AtSplit(data, pos, Varint(t), EncodePayload(f.value));
    VarintAt(data, pos, t);
    SkipLands(data, pos + |Varint(t)|, f.value);
  }

  /** The index of the first field sent as f, |fs| when there is none. */
  function FirstOf(fs: seq<Field>, f: Word32): (i: nat)
    ensures i <= |fs| && (i < |fs| ==> Sent(fs[i].num) == f) && forall j :: 0 <= j < i ==> Sent(fs[j].num) != f
  {
    if fs == [] || Sent(fs[0].num) == f then 0 else 1 + FirstOf(fs[1..], f)
  }

  /** Where its value starts. */
  function ValueOffset(fs: seq<Field>, i: nat): nat
    requires i < |fs|
  {
    Offset(fs, i) + |Varint(TagOf(fs[i].num, WireType(fs[i].value)))|
  }

  lemma {:induction false} FindNothing(data: seq<Byte>, f: Word32)
    ensures Find(data, |data|, f) == Absent
  {
  }

  /** One round of the walk, over a tag and a value it can skip. */
  lemma {:induction false} FindOne(data: seq<Byte>, pos: nat, f: Word32)
    requires pos < |data|
    ensures var tag, p := VVal(data[pos..]), pos + VLen(data[pos..]);
      && (FieldOf(tag) == f ==> Find(data, pos, f) == Found(p, tag % 8))
      && (FieldOf(tag) != f && SkipTo(data, p, tag % 8).Some? ==> Find(data, pos, f) == Find(data, SkipTo(data, p, tag % 8).value, f))
  {
    hide VVal, VLen, SkipTo, FieldOf;
  }

  /** A walk over an encoded message stops at the first field of the number, whatever the fields. */
  lemma {:induction false} FindInMessage(fs: seq<Field>, f: Word32, i: nat)
    requires Sliceable(EncodeMsg(fs)) && i <= FirstOf(fs, f)
    ensures Offset(fs, i) <= |EncodeMsg(fs)|
    ensures var k := FirstOf(fs, f);
      Find(EncodeMsg(fs), Offset(fs, i), f) == if k < |fs| then Found(ValueOffset(fs, k), WireType(fs[k].value)) else Absent
    decreases |fs| - i
  {
    hide Find, EncodeMsg, EncodeField, EncodePayload, VVal, VLen, SkipTo, Varint, TagOf, FieldOf, FirstOf;
    var data := EncodeMsg(fs);
    if i == |fs| {
      assert fs[..i] == fs;
      FindNothing(data, f);
    } else {
      FieldAt(fs, i);
      FieldRead(data, Offset(fs, i), fs[i]);
      FindOne(data, Offset(fs, i), f);
      if i < FirstOf(fs, f) {
        FindInMessage(fs, f, i + 1);
      }
    }
  }

  /** The kind fits the payload an append function wrote. */
  predicate Fits(p: Payload, k: Kind) {
    match p
    case VarintValue(_) => !k.KFloat? && !k.KDouble? && !k.KBytes?
    case Fixed64(_) => k.KDouble?
    case Fixed32(_) => k.KFloat?
    case Bytes(_) => k.KBytes?
  }

  function ScalarOf(p: Payload, k: Kind): Scalar {
    match p
    case VarintValue(v) => OfVarint(v, k)
    case Fixed64(bits) => FloatS(bits)
    case Fixed32(bits) => FloatS(bits)
    case Bytes(data) => BytesS(data)
  }

  lemma {:induction false} PayloadRead(data: seq<Byte>, pos: nat, p: Payload, k: Kind)
    requires Sliceable(data) && At(data, pos, EncodePayload(p)) && Fits(p, k)
    ensures ReadAs(data, pos, k) == Some(ScalarOf(p, k))
  {
    match p
    case VarintValue(v) =>
      VarintAt(data, pos, v);
    case Bytes(d) =>
      BytesAt(data, pos, d);
    case Fixed64(bits) =>
      Pow256Table();
      LittleEndianBack(bits, 8);
    case Fixed32(bits) =>
      Pow256Table();
      LittleEndianBack(bits, 4);
  }

  /** readScalarAtField on any message the append functions built: the first field of the number,
      zero when there is none. */
  lemma {:induction false} ScalarRoundTrip(fs: seq<Field>, f: Word32, k: Kind)
    requires Sliceable(EncodeMsg(fs))
    requires FirstOf(fs, f) < |fs| ==> Fits(fs[FirstOf(fs, f)].value, k)
    ensures ScalarAt(EncodeMsg(fs), f, k) == Some(if FirstOf(fs, f) < |fs| then ScalarOf(fs[FirstOf(fs, f)].value, k) else Zero(k))
  {
    hide EncodeMsg, EncodeField, Find, ReadAs, EncodePayload, ScalarOf, Varint, TagOf, FirstOf;
    var i := FirstOf(fs, f);
    StartOf(fs);
    FindInMessage(fs, f, 0);
    if i < |fs| {
      FieldAt(fs, i);
      FieldRead(EncodeMsg(fs), Offset(fs, i), fs[i]);
      PayloadRead(EncodeMsg(fs), ValueOffset(fs, i), fs[i].value, k);
    }
  }

  lemma {:induction false} StartOf(fs: seq<Field>)
    ensures Offset(fs, 0) == 0
  {
  }

  predicate Distinct(fs: seq<Field>) {
    forall i, j :: 0 <= i < j < |fs| ==> Sent(fs[i].num) != Sent(fs[j].num)
  }

  /** A negative int32 or int64 is written as a 64-bit two's complement and read back. */
  lemma {:induction false} SignExtended(v: int)
    ensures v == ToI32(v) ==> OfVarint(v % TWO64, KInt32) == IntS(v)
    ensures v == ToI64(v) ==> OfVarint(v % TWO64, KInt64) == IntS(v)
  {
    assert -TWO64 <= v < TWO64 ==> v % TWO64 == if v < 0 then v + TWO64 else v;
  }

  /** A typed value of kind k as it is appended: pbAppendBool, -Int32, -Int64, -Uint32, -Uint64,
      -Float, -Double, -Bytes. */
  predicate Appends(x: Scalar, k: Kind, p: Payload) {
    match k
    case KBool => x.BoolS? && p == VarintValue(if x.b then 1 else 0)
    case KInt32 => x.IntS? && -0x8000_0000 <= x.i < 0x8000_0000 && p == VarintValue(x.i % TWO64)
    case KInt64 => x.IntS? && -TWO63 <= x.i < TWO63 && p == VarintValue(x.i % TWO64)
    case KUint32 => x.IntS? && 0 <= x.i < TWO32 && p == VarintValue(x.i)
    case KUint64 => x.IntS? && 0 <= x.i < TWO64 && p == VarintValue(x.i)
    case KFloat => x.FloatS? && x.bits < TWO32 && p == Fixed32(x.bits)
    case KDouble => x.FloatS? && x.bits < TWO64 && p == Fixed64(x.bits)
    case KBytes => x.BytesS? && p == Bytes(x.data)
  }

  lemma {:induction false} AppendedBack(x: Scalar, k: Kind, p: Payload)
    requires Appends(x, k, p)
    ensures Fits(p, k) && ScalarOf(p, k) == x
  {
  }

  /** Values of every type read back as themselves: the first field of a number with the reader of
      its type. */
  lemma {:induction false} TypedRoundTrip(fs: seq<Field>, i: nat, x: Scalar, k: Kind)
    requires Sliceable(EncodeMsg(fs)) && i < |fs| && Appends(x, k, fs[i].value)
    requires forall j :: 0 <= j < i ==> Sent(fs[j].num) != Sent(fs[i].num)
    ensures ScalarAt(EncodeMsg(fs), Sent(fs[i].num), k) == Some(x)
  {
    hide EncodeMsg, Fits, ScalarOf, ScalarAt, Appends;
    FirstIs(fs, i);
    AppendedBack(x, k, fs[i].value);
    ScalarRoundTrip(fs, Sent(fs[i].num), k);
  }

  lemma {:induction false} FirstIs(fs: seq<Field>, i: nat)
    requires i < |fs| && forall j :: 0 <= j < i ==> Sent(fs[j].num) != Sent(fs[i].num)
    ensures FirstOf(fs, Sent(fs[i].num)) == i
  {
    if i > 0 {
      FirstIs(fs[1..], i - 1);
    }
  }

  /** The bytes of a varint: seven bits each, the lowest first, the top bit set on all but the last,
      and no byte too many. */
  lemma {:induction false} VarintDigit(v: nat, k: nat)
    requires k < |Varint(v)|
    ensures Varint(v)[k] == v / Pow128(k) % 0x80 + if k + 1 < |Varint(v)| then 0x80 else 0
    ensures Pow128(|Varint(v)| - 1) <= v || |Varint(v)| == 1
  {
    if v >= 0x80 {
      VarintDigit(v / 0x80, if k > 0 then k - 1 else 0);
      if k > 0 {
        DivTwice128(v, Pow128(k - 1));
      }
      Times128(Pow128(|Varint(v)| - 2), v);
    }
  }

  lemma {:induction false} DivTwice128(v: nat, b: nat)
    requires b > 0
    ensures v / 0x80 / b == v / (0x80 * b)
  {
    var q := v / 0x80;
    var q2, r2 := q / b, q % b;
    assert q == b * q2 + r2;
    assert v == q2 * (0x80 * b) + (0x80 * r2 + v % 0x80);
    DivMod(v, 0x80 * b, q2, 0x80 * r2 + v % 0x80);
  }

  lemma {:induction false} Times128(p: nat, v: nat)
    ensures p <= v / 0x80 ==> 0x80 * p <= v
  {
  }

  /** A field is its number and wire type in one varint, then its value: wire type 0 for a varint,
      1 for 8 bytes, 2 for a length and bytes, 5 for 4 bytes. */
  lemma {:induction false} FieldLayout(num: Word32, v: U64, bits: U64, bits32: Word32, data: seq<Byte>)
    requires num < 0x2000_0000
    ensures EncodeField(Field(num, VarintValue(v))) == Varint(8 * num) + Varint(v)
    ensures EncodeField(Field(num, Fixed64(bits))) == Varint(8 * num + 1) + LittleEndian(bits, 8)
    ensures EncodeField(Field(num, Bytes(data))) == Varint(8 * num + 2) + (Varint(|data|) + data)
    ensures EncodeField(Field(num, Fixed32(bits32))) == Varint(8 * num + 5) + LittleEndian(bits32, 4)
  {
    hide Varint, LittleEndian;
  }

  /** With distinct numbers every appended value is read back. */
  lemma {:induction false} EveryFieldRead(fs: seq<Field>, i: nat, k: Kind)
    requires Sliceable(EncodeMsg(fs)) && Distinct(fs) && i < |fs| && Fits(fs[i].value, k)
    ensures ScalarAt(EncodeMsg(fs), Sent(fs[i].num), k) == Some(ScalarOf(fs[i].value, k))
  {
    hide EncodeMsg, Fits, ScalarOf, ScalarAt;
    assert FirstOf(fs, Sent(fs[i].num)) == i;
    ScalarRoundTrip(fs, Sent(fs[i].num), k);
  }

  /** An error string in field 15 is reported, and nothing else is taken for one. */
  lemma {:induction false} ErrorRoundTrip(fs: seq<Field>)
    requires Sliceable(EncodeMsg(fs)) && (FirstOf(fs, 15) < |fs| ==> fs[FirstOf(fs, 15)].value.Bytes?)
    ensures ErrorIn(EncodeMsg(fs)) == Some(if FirstOf(fs, 15) < |fs| then Some(fs[FirstOf(fs, 15)].value.data) else None)
  {
    hide EncodeMsg, Find, ScalarAt, ErrorIn, FirstOf;
    StartOf(fs);
    FindInMessage(fs, 15, 0);
    ErrorAsBytes(EncodeMsg(fs));
    ScalarRoundTrip(fs, 15, KBytes);
  }

  lemma {:induction false} ErrorAsBytes(resp: seq<Byte>)
    ensures Find(resp, 0, 15) == Absent ==> ErrorIn(resp) == Some(None)
    ensures forall d :: Find(resp, 0, 15).Found? && ScalarAt(resp, 15, KBytes) == Some(BytesS(d)) ==> ErrorIn(resp) == Some(Some(d))
  {
    hide Find, Extent;
  }

  /** readPtrAtField of a field appendHandle wrote is the pointer, of an absent one 0. */
  lemma {:induction false} HandleRoundTrip(fs: seq<Field>, f: Word32, ptr: U64)
    requires Sliceable(EncodeMsg(fs))
    requires FirstOf(fs, f) < |fs| ==> fs[FirstOf(fs, f)].value == Bytes(HandleMessage(ptr))
    ensures PtrAt(EncodeMsg(fs), f) == Some(if FirstOf(fs, f) < |fs| then ptr else 0)
  {
    hide EncodeMsg, EncodeField, Find, EncodePayload, Varint, TagOf, FirstOf, HandleMessage, InnerPtr, HandlePtr;
    var data := EncodeMsg(fs);
    var i := FirstOf(fs, f);
    StartOf(fs);
    FindInMessage(fs, f, 0);
    if i < |fs| {
      FieldAt(fs, i);
      FieldRead(data, Offset(fs, i), fs[i]);
      HandleAt(data, ValueOffset(fs, i), ptr, fs[i].value);
    }
    OnePath(data, f);
  }

  lemma {:induction false} OnePath(data: seq<Byte>, f: Word32)
    ensures f == 1 ==> PtrAt(data, f) == HandlePtr(data)
    ensures f == 1 && Find(data, 0, 1) == Absent ==> HandlePtr(data) == Some(0)
    ensures Find(data, 0, 1).Found? && Find(data, 0, 1).wireType == 2 ==>
      HandlePtr(data) == var p := Find(data, 0, 1).pos; match Extent(data, p) case None => None case Some(e) => InnerPtr(data[e.0..Clamp(e.1, data)], 0)
  {
    hide Find, Extent, InnerPtr;
  }

  /** The submessage at pos, and the pointer in it. */
  lemma {:induction false} HandleAt(data: seq<Byte>, pos: nat, ptr: U64, p: Payload)
    requires Sliceable(data) && p == Bytes(HandleMessage(ptr)) && At(data, pos, EncodePayload(p))
    ensures Extent(data, pos).Some?
    ensures var e := Extent(data, pos).value;
      var sub := data[e.0..Clamp(e.1, data)];
      sub == HandleMessage(ptr) && InnerPtr(sub, 0) == Some(ptr) && HandlePtr(sub) == Some(ptr)
  {
    hide HandleMessage, Varint, Extent, InnerPtr, HandlePtr;
    BytesAt(data, pos, HandleMessage(ptr));
    HandleInside(ptr);
  }

  lemma {:induction false} HandleInside(ptr: U64)
    ensures InnerPtr(HandleMessage(ptr), 0) == Some(ptr) && HandlePtr(HandleMessage(ptr)) == Some(ptr)
  {
    var m := HandleMessage(ptr);
    HandleShape(ptr);
    FieldRead(m, 0, Field(1, VarintValue(ptr)));
    assert Varint(TagOf(1, 0)) == [0x08];
    VarintAt(m, 1, ptr);
    assert m[1..] == Varint(ptr);
    hide VVal, VLen, Varint, SkipTo, TagOf, FieldOf;
    assert Find(m, 0, 1) == Found(1, 0);
  }

  /** The pointer in a submessage: its first varint sent as field 1, whatever fields are around it. */
  function PtrInside(fs: seq<Field>): U64 {
    if fs == [] then 0
    else if Sent(fs[0].num) == 1 && fs[0].value.VarintValue? then fs[0].value.v
    else PtrInside(fs[1..])
  }

  /** One round of the inner walk. */
  lemma {:induction false} InnerOne(data: seq<Byte>, pos: nat)
    requires pos < |data|
    ensures var tag, p := VVal(data[pos..]), pos + VLen(data[pos..]);
      && (FieldOf(tag) == 1 && tag % 8 == 0 ==> InnerPtr(data, pos) == Some(VVal(data[p..])))
      && (!(FieldOf(tag) == 1 && tag % 8 == 0) && SkipTo(data, p, tag % 8).Some? ==> InnerPtr(data, pos) == InnerPtr(data, SkipTo(data, p, tag % 8).value))
  {
    hide VVal, VLen, SkipTo, FieldOf;
  }

  lemma {:induction false} InnerInMessage(fs: seq<Field>, i: nat)
    requires Sliceable(EncodeMsg(fs)) && i <= |fs|
    ensures Offset(fs, i) <= |EncodeMsg(fs)| && InnerPtr(EncodeMsg(fs), Offset(fs, i)) == Some(PtrInside(fs[i..]))
    decreases |fs| - i
  {
    hide EncodeMsg, EncodeField, VVal, VLen, SkipTo, Varint, TagOf, FieldOf;
    var data := EncodeMsg(fs);
    if i == |fs| {
      assert fs[..i] == fs;
    } else {
      FieldAt(fs, i);
      FieldRead(data, Offset(fs, i), fs[i]);
      InnerOne(data, Offset(fs, i));
      if fs[i].value.VarintValue? {
        VarintAt(data, Offset(fs, i) + |Varint(TagOf(fs[i].num, 0))|, fs[i].value.v);
      }
      assert fs[i..][0] == fs[i] && fs[i..][1..] == fs[i + 1..];
      hide InnerPtr;
      InnerInMessage(fs, i + 1);
    }
  }

  /** What readHandlePtr makes of a response: the first field sent as 1 as a varint, or the pointer
      inside it as a submessage, and 0 otherwise. */
  lemma {:induction false} HandleExact(fs: seq<Field>, inner: seq<Field>)
    requires Sliceable(EncodeMsg(fs))
    ensures var i := FirstOf(fs, 1);
      && (i == |fs| ==> HandlePtr(EncodeMsg(fs)) == Some(0))
      && (i < |fs| && fs[i].value.VarintValue? ==> HandlePtr(EncodeMsg(fs)) == Some(fs[i].value.v))
      && (i < |fs| && fs[i].value == Bytes(EncodeMsg(inner)) ==> HandlePtr(EncodeMsg(fs)) == Some(PtrInside(inner)))
      && (i < |fs| && (fs[i].value.Fixed32? || fs[i].value.Fixed64?) ==> HandlePtr(EncodeMsg(fs)) == Some(0))
  {
    hide EncodeMsg, EncodeField, Find, Varint, TagOf, FirstOf, InnerPtr, Extent, PtrInside;
    var data, i := EncodeMsg(fs), FirstOf(fs, 1);
    StartOf(fs);
    FindInMessage(fs, 1, 0);
    if i < |fs| {
      FieldAt(fs, i);
      FieldRead(data, Offset(fs, i), fs[i]);
      match fs[i].value {
        case VarintValue(v) => VarintAt(data, ValueOffset(fs, i), v);
        case Bytes(d) =>
          if d == EncodeMsg(inner) {
            SubmessageAt(data, ValueOffset(fs, i), inner);
          }
        case _ =>
      }
    }
  }

  lemma {:induction false} SubmessageAt(data: seq<Byte>, pos: nat, inner: seq<Field>)
    requires Sliceable(data) && At(data, pos, EncodePayload(Bytes(EncodeMsg(inner))))
    ensures Extent(data, pos).Some?
    ensures var e := Extent(data, pos).value;
      data[e.0..Clamp(e.1, data)] == EncodeMsg(inner) && Sliceable(EncodeMsg(inner)) && InnerPtr(EncodeMsg(inner), 0) == Some(PtrInside(inner))
  {
    hide EncodeMsg, Varint, Extent, InnerPtr, PtrInside;
    BytesAt(data, pos, EncodeMsg(inner));
    StartOf(inner);
    InnerInMessage(inner, 0);
    assert inner[0..] == inner;
  }

  /** And readPtrAtField of another field: the handle in its submessage, 0 for any other value. */
  lemma {:induction false} PtrExact(fs: seq<Field>, f: Word32, sub: seq<Field>)
    requires Sliceable(EncodeMsg(fs)) && f != 1
    ensures var i := FirstOf(fs, f);
      && (i == |fs| || !fs[i].value.Bytes? ==> PtrAt(EncodeMsg(fs), f) == Some(0))
      && (i < |fs| && fs[i].value == Bytes(EncodeMsg(sub)) ==> PtrAt(EncodeMsg(fs), f) == HandlePtr(EncodeMsg(sub)))
  {
    hide EncodeMsg, EncodeField, Find, Varint, TagOf, FirstOf, HandlePtr, Extent;
    var data, i := EncodeMsg(fs), FirstOf(fs, f);
    StartOf(fs);
    FindInMessage(fs, f, 0);
    if i < |fs| && fs[i].value == Bytes(EncodeMsg(sub)) {
      FieldAt(fs, i);
      FieldRead(data, Offset(fs, i), fs[i]);
      SubmessageAt(data, ValueOffset(fs, i), sub);
    }
  }

  /** A length prefix has no extent exactly when the end, in the source's wrapping 64-bit arithmetic,
      comes before the data. */
  lemma {:induction false} ExtentExact(data: seq<Byte>, pos: nat)
    requires Sliceable(data) && pos <= |data|
    ensures var start := pos + VLen(data[pos..]);
      && (Extent(data, pos) == None <==> ToI64(start + ToI64(VVal(data[pos..]))) < start)
      && (Extent(data, pos).Some? ==> Extent(data, pos).value == (start, ToI64(start + ToI64(VVal(data[pos..])))))
  {
    hide VLen, VVal;
  }

  /** A field that is not there reads as zero, and so does a float cut short. */
  lemma {:induction false} AbsentIsZero(fs: seq<Field>, f: Word32)
    requires Sliceable(EncodeMsg(fs)) && FirstOf(fs, f) == |fs|
    ensures var m := EncodeMsg(fs);
      && ScalarAt(m, f, KBool) == Some(BoolS(false)) && ScalarAt(m, f, KBytes) == Some(BytesS([]))
      && ScalarAt(m, f, KInt32) == ScalarAt(m, f, KInt64) == ScalarAt(m, f, KUint32) == ScalarAt(m, f, KUint64) == Some(IntS(0))
      && ScalarAt(m, f, KFloat) == ScalarAt(m, f, KDouble) == Some(FloatS(0))
  {
    hide EncodeMsg, Find, FirstOf;
    StartOf(fs);
    FindInMessage(fs, f, 0);
  }

  lemma {:induction false} ShortFloat(num: Word32, cut: seq<Byte>)
    requires num < 0x2000_0000
    ensures |cut| < 4 ==> ScalarAt(Varint(8 * num + 5) + cut, num, KFloat) == Some(FloatS(0))
    ensures |cut| < 8 ==> ScalarAt(Varint(8 * num + 1) + cut, num, KDouble) == Some(FloatS(0))
  {
    ShortFound(num, 5, cut);
    ShortFound(num, 1, cut);
    hide Find, Varint;
  }

  lemma {:induction false} ShortFound(num: Word32, w: nat, cut: seq<Byte>)
    requires num < 0x2000_0000 && w < 8
    ensures Find(Varint(8 * num + w) + cut, 0, num) == Found(|Varint(8 * num + w)|, w)
  {
    var data := Varint(8 * num + w) + cut;
    VarintAt(data, 0, 8 * num + w);
    hide VVal, VLen, Varint, SkipTo;
    assert 0 + |Varint(8 * num + w)| == |Varint(8 * num + w)|;
  }

  // ---- the reader ---------------------------------------------------------------------------

  lemma {:induction false} NoBytes()
    ensures Value([]) == 0 && VLen([]) == 0
  {
  }

  /** One byte of readVarint: the value so far and where it ends. */
  lemma {:induction false} VarintStep(from: seq<Byte>, k: nat)
    requires k < |from| && Value(from[..k]) < Pow128(k) && VLen(from) == k + VLen(from[k..])
    ensures Or(Value(from[..k]) % TWO64, from[k] % 0x80 * Pow128(k) % TWO64) == Value(from[..k + 1]) % TWO64
    ensures Value(from[..k + 1]) < Pow128(k + 1)
    ensures if from[k] < 0x80 then VLen(from) == k + 1 else VLen(from) == k + 1 + VLen(from[k + 1..])
  {
    assert from[..k] + [from[k]] == from[..k + 1] && from[k..][1..] == from[k + 1..] && from[k..][0] == from[k];
    ValueMore(from[..k], from[k]);
    ValueMore(from[..k + 1], 0);
    OrIsAdd(Value(from[..k]), from[k] % 0x80, k);
  }

  class PbReader {
    const data: seq<Byte>
    var pos: nat

    predicate Valid()
      reads this`pos
    {
      pos <= |data|
    }

    constructor (data: seq<Byte>)
      ensures Valid() && this.data == data && pos == 0
    {
      this.data, pos := data, 0;
    }

    predicate HasData()
      reads this`pos
    {
      pos < |data|
    }

    /** Bytes up to and including one below 0x80, or to the end; v is a uint64. */
    method ReadVarint() returns (v: U64)
      requires Valid()
      modifies this`pos
      ensures Valid() && v == VVal(data[old(pos)..]) && pos == old(pos) + VLen(data[old(pos)..])
    {
      v := 0;
      hide VLen, Value, Or;
      ghost var from, k := data[pos..], 0;
      assert from[..0] == [] && from[0..] == from;
      NoBytes();
      var shift := 1;
      while pos < |data|
        invariant old(pos) <= pos <= |data| && k == pos - old(pos) && shift == Pow128(k)
        invariant v == Value(from[..k]) % TWO64 && Value(from[..k]) < Pow128(k)
        invariant VLen(from) == k + VLen(from[k..])
        decreases |data| - pos
      {
        var b := data[pos];
        assert from[k] == b;
        VarintStep(from, k);
        pos := pos + 1;
        v := Or(v, b % 0x80 * shift % TWO64);
        if b < 0x80 {
          return;
        }
        shift := shift * 0x80;
        k := k + 1;
      }
      assert from[..k] == from && from[k..] == [];
      NoBytes();
    }

    method Next() returns (field: Word32, wireType: nat, ok: bool)
      requires Valid()
      modifies this`pos
      ensures Valid() && ok == (old(pos) < |data|)
      ensures ok ==>
        && field == FieldOf(VVal(data[old(pos)..])) && wireType == VVal(data[old(pos)..]) % 8
        && pos == old(pos) + VLen(data[old(pos)..])
      ensures !ok ==> pos == old(pos)
    {
      if !HasData() {
        return 0, 0, false;
      }
      var tag := ReadVarint();
      return tag / 8 % TWO32, tag % 8, true;
    }

    /** readString, readBytes and readSubmessage; None is a panic on a length no slice has. */
    method ReadBytes() returns (r: Option<seq<Byte>>)
      requires Valid()
      modifies this`pos
      ensures Valid()
      ensures r == match Extent(data, old(pos)) case None => None case Some(e) => Some(data[e.0..Clamp(e.1, data)])
      ensures r.Some? ==> pos == Clamp(Extent(data, old(pos)).value.1, data)
    {
      hide VVal, VLen, ToI64;
      var v := ReadVarint();
      var n := ToI64(v);
      if n < 0 || pos + n >= TWO63 {
        return None;
      }
      if pos + n > |data| {
        n := |data| - pos;
      }
      r := Some(data[pos..pos + n]);
      pos := pos + n;
    }

    method ReadFixed(n: nat) returns (bits: nat)
      requires Valid()
      modifies this`pos
      ensures Valid() && bits == if old(pos) + n > |data| then 0 else FromLittleEndian(data[old(pos)..old(pos) + n])
      ensures pos == Clamp(old(pos) + n, data)
    {
      if pos + n > |data| {
        pos := |data|;
        return 0;
      }
      bits := FromLittleEndian(data[pos..pos + n]);
      pos := pos + n;
    }

    /** One of the scalar readers. */
    method Read(k: Kind) returns (r: Option<Scalar>)
      requires Valid()
      modifies this`pos
      ensures Valid() && r == ReadAs(data, old(pos), k)
    {
      hide VVal, VLen, Extent, FromLittleEndian;
      match k
      case KFloat =>
        var bits := ReadFixed(4);
        r := Some(FloatS(bits));
      case KDouble =>
        var bits := ReadFixed(8);
        r := Some(FloatS(bits));
      case KBytes =>
        var b := ReadBytes();
        r := if b == None then None else Some(BytesS(b.value));
      case _ =>
        var v := ReadVarint();
        r := Some(OfVarint(v, k));
    }

    method Skip(wireType: nat) returns (ok: bool)
      requires Valid()
      modifies this`pos
      ensures Valid() && ok == SkipTo(data, old(pos), wireType).Some?
      ensures ok ==> pos == SkipTo(data, old(pos), wireType).value
    {
      hide VVal, VLen, ToI64;
      if wireType == 0 {
        var v := ReadVarint();
      } else if wireType == 1 {
        pos := Clamp(pos + 8, data);
      } else if wireType == 2 {
        var v := ReadVarint();
        var n := ToI64(v);
        if n < 0 || pos + n >= TWO63 {
          return false;
        }
        pos := Clamp(pos + n, data);
      } else if wireType == 5 {
        pos := Clamp(pos + 4, data);
      }
      return true;
    }
  }

  // ---- the walks ----------------------------------------------------------------------------

  method ReadScalarAtField(resp: seq<Byte>, f: Word32, k: Kind) returns (r: Option<Scalar>)
    ensures r == ScalarAt(resp, f, k)
  {
    hide ReadAs, VVal, VLen, SkipTo, FieldOf;
    var pr := new PbReader(resp);
    while true
      invariant pr.Valid() && pr.data == resp && Find(resp, pr.pos, f) == Find(resp, 0, f)
      decreases |resp| - pr.pos
    {
      var ff, w, ok := pr.Next();
      if !ok {
        return Some(Zero(k));
      }
      if ff == f {
        r := pr.Read(k);
        return;
      }
      var more := pr.Skip(w);
      if !more {
        return None;
      }
    }
  }

  /** pbExtractError; None is a panic. */
  method PbExtractError(resp: seq<Byte>) returns (r: Option<Option<seq<Byte>>>)
    ensures r == ErrorIn(resp)
  {
    hide VVal, VLen, SkipTo, FieldOf, Extent;
    var pr := new PbReader(resp);
    while true
      invariant pr.Valid() && pr.data == resp && Find(resp, pr.pos, 15) == Find(resp, 0, 15)
      decreases |resp| - pr.pos
    {
      var ff, w, ok := pr.Next();
      if !ok {
        return Some(None);
      }
      if ff == 15 {
        var s := pr.ReadBytes();
        return if s == None then None else Some(s);
      }
      var more := pr.Skip(w);
      if !more {
        return None;
      }
    }
  }

  method ReadInnerPtr(sub: PbReader) returns (r: Option<U64>)
    requires sub.Valid() && sub.pos == 0
    modifies sub`pos
    ensures r == InnerPtr(sub.data, 0)
  {
    hide VVal, VLen, SkipTo, FieldOf;
    while true
      invariant sub.Valid() && InnerPtr(sub.data, sub.pos) == InnerPtr(sub.data, 0)
      decreases |sub.data| - sub.pos
    {
      var sf, sw, sok := sub.Next();
      if !sok {
        return Some(0);
      }
      if sf == 1 && sw == 0 {
        var v := sub.ReadVarint();
        return Some(v);
      }
      var more := sub.Skip(sw);
      if !more {
        return None;
      }
    }
  }

  method ReadHandlePtr(data: seq<Byte>) returns (r: Option<U64>)
    ensures r == HandlePtr(data)
  {
    hide VVal, VLen, SkipTo, FieldOf, Extent, InnerPtr;
    var pr := new PbReader(data);
    while true
      invariant pr.Valid() && pr.data == data && Find(data, pr.pos, 1) == Find(data, 0, 1)
      decreases |data| - pr.pos
    {
      var f, w, ok := pr.Next();
      if !ok {
        return Some(0);
      }
      if f == 1 {
        if w == 0 {
          var v := pr.ReadVarint();
          return Some(v);
        }
        if w == 2 {
          var b := pr.ReadBytes();
          if b == None {
            return None;
          }
          var sub := new PbReader(b.value);
          r := ReadInnerPtr(sub);
          return;
        }
        return Some(0);
      }
      var more := pr.Skip(w);
      if !more {
        return None;
      }
    }
  }

  method ReadPtrAtField(resp: seq<Byte>, f: Word32) returns (r: Option<U64>)
    ensures r == PtrAt(resp, f)
  {
    hide VVal, VLen, SkipTo, FieldOf, Extent, HandlePtr;
    if f == 1 {
      r := ReadHandlePtr(resp);
      return;
    }
    var pr := new PbReader(resp);
    while true
      invariant pr.Valid() && pr.data == resp && Find(resp, pr.pos, f) == Find(resp, 0, f)
      decreases |resp| - pr.pos
    {
      var ff, w, ok := pr.Next();
      if !ok {
        return Some(0);
      }
      if ff == f {
        if w == 2 {
          var b := pr.ReadBytes();
          if b == None {
            return None;
          }
          r := ReadHandlePtr(b.value);
          return;
        }
        return Some(0);
      }
      var more := pr.Skip(w);
      if !more {
        return None;
      }
    }
  }
}
