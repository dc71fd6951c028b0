/** The SDK's UTF-8 byte math: code points and byte strings to UTF-8 and back, in place on the way
    back. */
module Utf8 {

  import opened Options

  type Byte = bv8

  // A UV: 64 bits.
  type Uv = bv64

  /** A decoded code point and the bytes it took. */
  datatype Char = Char(uv: Uv, len: nat)

  // ---- one code point ---------------------------------------------------------------------

  /** UTF8SKIP: the length a first byte announces, by its upper four bits. */
  function Skip(b: Byte): (n: nat)
    ensures 1 <= n <= 4
  {
    if b >> 4 < 12 then 1 else if b >> 4 < 14 then 2 else if b >> 4 == 14 then 3 else 4
  }

  predicate Continuation(b: Byte) {
    b & 0xc0 == 0x80
  }

  function Low(uv: Uv): Byte {
    (uv & 0xff) as Byte
  }

  // The first byte of a sequence of two, three and four, and the continuation byte that carries
  // the six bits from `shift` on.
  function Head2(uv: Uv): Byte { Low(0xc0 | (uv >> 6)) }
  function Head3(uv: Uv): Byte { Low(0xe0 | (uv >> 12)) }
  function Head4(uv: Uv): Byte { Low(0xf0 | (uv >> 18)) }
  function Tail0(uv: Uv): Byte { Low(0x80 | (uv & 0x3f)) }
  function Tail6(uv: Uv): Byte { Low(0x80 | ((uv >> 6) & 0x3f)) }
  function Tail12(uv: Uv): Byte { Low(0x80 | ((uv >> 12) & 0x3f)) }

  function Encode(uv: Uv): (s: seq<Byte>)
    ensures 1 <= |s| <= 4 && Skip(s[0]) == |s|
  {
    if uv < 0x80 then [Low(uv)]
    else if uv < 0x800 then [Head2(uv), Tail0(uv)]
    else if uv < 0x10000 then [Head3(uv), Tail6(uv), Tail0(uv)]
    else [Head4(uv), Tail12(uv), Tail6(uv), Tail0(uv)]
  }

  /** The bits a first byte contributes, below its length mark. */
  function Lead(b: Byte, n: nat): Uv
    requires 2 <= n <= 4
  {
    (b & (if n == 2 then 0x1f else if n == 3 then 0x0f else 0x07)) as Uv
  }

  /** Six more bits, from a continuation byte. */
  function Shifted(uv: Uv, c: Byte): Uv {
    (uv << 6) | ((c & 0x3f) as Uv)
  }

  function Accumulated(lead: Uv, cs: seq<Byte>): Uv {
    if cs == [] then lead else Shifted(Accumulated(lead, cs[..|cs| - 1]), cs[|cs| - 1])
  }

  /** Not the shortest form of uv. */
  predicate Overlong(n: nat, uv: Uv) {
    (n == 2 && uv < 0x80) || (n == 3 && uv < 0x800) || (n == 4 && uv < 0x10000)
  }

  predicate Surrogate(uv: Uv) {
    0xD800 <= uv <= 0xDFFF
  }

  predicate Disallowed(uv: Uv, noSurrogate: bool, noSuper: bool) {
    (noSurrogate && Surrogate(uv)) || (noSuper && uv > 0x10FFFF)
  }

  function Decode(s: seq<Byte>, noSurrogate: bool, noSuper: bool): (r: Option<Char>)
    ensures r.Some? ==> s != [] && r.value.len == Skip(s[0]) <= |s|
  {
    if s == [] || Skip(s[0]) > |s| then None
    else if Skip(s[0]) == 1 then Some(Char(s[0] as Uv, 1))
    else
      var n := Skip(s[0]);
      var uv := Accumulated(Lead(s[0], n), s[1..n]);
      if (exists i :: 1 <= i < n && !Continuation(s[i])) || Overlong(n, uv) || Disallowed(uv, noSurrogate, noSuper) then None
      else Some(Char(uv, n))
  }

  lemma {:induction false} AccumulatedMore(lead: Uv, cs: seq<Byte>, c: Byte)
    ensures Accumulated(lead, cs + [c]) == Shifted(Accumulated(lead, cs), c)
  {
    assert (cs + [c])[..|cs|] == cs;
  }

  /** goperl_utf8n_to_uvchr */
  method Utf8nToUvchr(s: seq<Byte>, noSurrogate: bool, noSuper: bool) returns (r: Option<Char>)
    ensures r == Decode(s, noSurrogate, noSuper)
  {
    hide Accumulated, Continuation, Skip, Shifted, Lead, Overlong, Disallowed;
    if s == [] || Skip(s[0]) > |s| {
      return None;
    }
    var n := Skip(s[0]);
    if n == 1 {
      return Some(Char(s[0] as Uv, 1));
    }
    var uv := Lead(s[0], n);
    LeadAlone(uv, s);
    for i := 1 to n
      invariant uv == Accumulated(Lead(s[0], n), s[1..i])
      invariant forall j :: 1 <= j < i ==> Continuation(s[j])
    {
      if !Continuation(s[i]) {
        return None;
      }
      AccumulatedMore(Lead(s[0], n), s[1..i], s[i]);
      assert s[1..i] + [s[i]] == s[1..i + 1];
      uv := Shifted(uv, s[i]);
    }
    if Overlong(n, uv) || Disallowed(uv, noSurrogate, noSuper) {
      return None;
    }
    return Some(Char(uv, n));
  }

  lemma {:induction false} LeadAlone(lead: Uv, s: seq<Byte>)
    requires s != []
    ensures Accumulated(lead, s[1..1]) == lead
  {
  }

  lemma {:induction false} Accumulated1(lead: Uv, a: Byte)
    ensures Accumulated(lead, [a]) == Shifted(lead, a)
  {
    hide Shifted;
    assert [a][..0] == [];
  }

  lemma {:induction false} Accumulated2(lead: Uv, a: Byte, b: Byte)
    ensures Accumulated(lead, [a, b]) == Shifted(Shifted(lead, a), b)
  {
    hide Shifted, Accumulated;
    Accumulated1(lead, a);
    assert [a, b] == [a] + [b];
    AccumulatedMore(lead, [a], b);
  }

  lemma {:induction false} Accumulated3(lead: Uv, a: Byte, b: Byte, c: Byte)
    ensures Accumulated(lead, [a, b, c]) == Shifted(Shifted(Shifted(lead, a), b), c)
  {
    hide Shifted, Accumulated;
    Accumulated2(lead, a, b);
    assert [a, b, c] == [a, b] + [c];
    AccumulatedMore(lead, [a, b], c);
  }

  // ---- decode after encode ------------------------------------------------------------------

  lemma {:induction false} Bits2(uv: Uv)
    requires 0x80 <= uv < 0x800
    ensures Continuation(Tail0(uv)) && Shifted(Lead(Head2(uv), 2), Tail0(uv)) == uv
  {
  }

  lemma {:induction false} Bits3(uv: Uv)
    requires 0x800 <= uv < 0x10000
    ensures Continuation(Tail6(uv)) && Continuation(Tail0(uv))
    ensures Shifted(Shifted(Lead(Head3(uv), 3), Tail6(uv)), Tail0(uv)) == uv
  {
  }

  /** Four bytes carry the low 21 bits, whatever the code point. */
  lemma {:induction false} Bits4(uv: Uv)
    requires 0x10000 <= uv
    ensures Continuation(Tail12(uv)) && Continuation(Tail6(uv)) && Continuation(Tail0(uv))
    ensures Shifted(Shifted(Shifted(Lead(Head4(uv), 4), Tail12(uv)), Tail6(uv)), Tail0(uv)) == Cut(uv)
  {
  }

  function Cut(uv: Uv): Uv {
    uv & 0x1fffff
  }

  lemma {:induction false} CutExact(uv: Uv)
    ensures Cut(uv) == uv <==> uv < 0x200000
  {
  }

  /** What the decoder makes of a sequence of n bytes. */
  lemma {:induction false} DecodeOne(s: seq<Byte>, noSurrogate: bool, noSuper: bool)
    requires s != [] && Skip(s[0]) == 1
    ensures Decode(s, noSurrogate, noSuper) == Some(Char(s[0] as Uv, 1))
  {
  }

  function Checked(n: nat, uv: Uv, noSurrogate: bool, noSuper: bool): Option<Char> {
    if Overlong(n, uv) || Disallowed(uv, noSurrogate, noSuper) then None else Some(Char(uv, n))
  }

  lemma {:induction false} DecodeTwo(s: seq<Byte>, noSurrogate: bool, noSuper: bool)
    requires |s| >= 2 && Skip(s[0]) == 2
    ensures Decode(s, noSurrogate, noSuper) ==
      if !Continuation(s[1]) then None else Checked(2, Shifted(Lead(s[0], 2), s[1]), noSurrogate, noSuper)
  {
    hide Accumulated, Continuation, Skip, Lead, Shifted, Overlong, Disallowed;
    assert s[1..2] == [s[1]];
    Accumulated1(Lead(s[0], 2), s[1]);
  }

  lemma {:induction false} DecodeThree(s: seq<Byte>, noSurrogate: bool, noSuper: bool)
    requires |s| >= 3 && Skip(s[0]) == 3
    ensures Decode(s, noSurrogate, noSuper) ==
      if !Continuation(s[1]) || !Continuation(s[2]) then None
      else Checked(3, Shifted(Shifted(Lead(s[0], 3), s[1]), s[2]), noSurrogate, noSuper)
  {
    hide Accumulated, Continuation, Skip, Lead, Shifted, Overlong, Disallowed;
    assert s[1..3] == [s[1], s[2]];
    Accumulated2(Lead(s[0], 3), s[1], s[2]);
  }

  lemma {:induction false} DecodeFour(s: seq<Byte>, noSurrogate: bool, noSuper: bool)
    requires |s| >= 4 && Skip(s[0]) == 4
    ensures Decode(s, noSurrogate, noSuper) ==
      if !Continuation(s[1]) || !Continuation(s[2]) || !Continuation(s[3]) then None
      else Checked(4, Shifted(Shifted(Shifted(Lead(s[0], 4), s[1]), s[2]), s[3]), noSurrogate, noSuper)
  {
    hide Accumulated, Continuation, Skip, Lead, Shifted, Overlong, Disallowed;
    assert s[1..4] == [s[1], s[2], s[3]];
    Accumulated3(Lead(s[0], 4), s[1], s[2], s[3]);
  }

  /** Decoding an encoded code point, whatever follows it: the low 21 bits of a code point from
      0x10000 on, else itself, with the same checks. */
  lemma {:induction false} DecodeOfEncode(uv: Uv, rest: seq<Byte>, noSurrogate: bool, noSuper: bool)
    ensures Decode(Encode(uv) + rest, noSurrogate, noSuper) ==
      if uv < 0x80 then Some(Char(uv, 1))
      else Checked(|Encode(uv)|, if uv < 0x10000 then uv else Cut(uv), noSurrogate, noSuper)
  {
    var e := Encode(uv);
    var s := e + rest;
    assert forall i :: 0 <= i < |e| ==> s[i] == e[i];
    hide Decode, Continuation, Skip, Low, Lead, Shifted, Overlong, Disallowed, Head2, Head3, Head4, Tail0, Tail6, Tail12, Cut;
    if uv < 0x80 {
      DecodeOne(s, noSurrogate, noSuper);
    } else if uv < 0x800 {
      Bits2(uv);
      DecodeTwo(s, noSurrogate, noSuper);
    } else if uv < 0x10000 {
      Bits3(uv);
      DecodeThree(s, noSurrogate, noSuper);
    } else {
      Bits4(uv);
      DecodeFour(s, noSurrogate, noSuper);
    }
  }

  /** A code point below 0x200000 comes back as itself unless a flag disallows it. */
  lemma {:induction false} DecodeEncode(uv: Uv, rest: seq<Byte>, noSurrogate: bool, noSuper: bool)
    requires uv < 0x200000
    ensures Decode(Encode(uv) + rest, noSurrogate, noSuper) ==
      if Disallowed(uv, noSurrogate, noSuper) then None else Some(Char(uv, |Encode(uv)|))
  {
    DecodeOfEncode(uv, rest, noSurrogate, noSuper);
    hide Decode, Head2, Head3, Head4, Tail0, Tail6, Tail12, Low, Cut, Skip;
    CutExact(uv);
  }

  /** Above that range the encoder truncates: the decoder never gives the code point back. */
  lemma {:induction false} RoundTripExact(uv: Uv, rest: seq<Byte>)
    ensures Decode(Encode(uv) + rest, false, false) == Some(Char(uv, |Encode(uv)|)) <==> uv < 0x200000
  {
    DecodeOfEncode(uv, rest, false, false);
    hide Decode, Head2, Head3, Head4, Tail0, Tail6, Tail12, Low, Cut, Skip;
    CutExact(uv);
  }

  // ---- encode after decode --------------------------------------------------------------------

  lemma {:induction false} Back2(a: Byte, b: Byte)
    requires Skip(a) == 2 && Continuation(b)
    ensures var uv := Shifted(Lead(a, 2), b); uv < 0x800 && a == Head2(uv) && b == Tail0(uv)
  {
  }

  lemma {:induction false} Back3(a: Byte, b: Byte, c: Byte)
    requires Skip(a) == 3 && Continuation(b) && Continuation(c)
    ensures var uv := Shifted(Shifted(Lead(a, 3), b), c); uv < 0x10000 && a == Head3(uv) && b == Tail6(uv) && c == Tail0(uv)
  {
  }

  lemma {:induction false} Back4(a: Byte, b: Byte, c: Byte, d: Byte)
    requires Skip(a) == 4 && Continuation(b) && Continuation(c) && Continuation(d)
    ensures var uv := Shifted(Shifted(Shifted(Lead(a, 4), b), c), d);
      (a == Head4(uv) <==> a < 0xf8) && b == Tail12(uv) && c == Tail6(uv) && d == Tail0(uv)
  {
  }

  lemma {:induction false} Back1(a: Byte)
    requires Skip(a) == 1
    ensures a < 0x80 ==> a as Uv < 0x80 && Low(a as Uv) == a
    ensures a >= 0x80 ==> 0x80 <= a as Uv < 0x800
  {
  }

  /** A first byte that starts a sequence the encoder makes. */
  predicate Proper(b: Byte) {
    b < 0x80 || 0xc0 <= b < 0xf8
  }

  /** What decodes is the encoding of the code point exactly when its first byte is proper: a
      stray continuation byte and an f8..ff lead decode too. */
  lemma {:induction false} EncodeDecode(s: seq<Byte>)
    requires Decode(s, false, false).Some?
    ensures var c := Decode(s, false, false).value;
      Encode(c.uv) == s[..c.len] <==> Proper(s[0])
  {
    hide Encode, Decode, Continuation, Skip, Proper;
    ProperSkip(s[0]);
    match Skip(s[0])
    case 1 => Encode1(s);
    case 2 => Encode2(s);
    case 3 => Encode3(s);
    case _ => Encode4(s);
  }

  lemma {:induction false} Encode1(s: seq<Byte>)
    requires s != [] && Skip(s[0]) == 1
    ensures Encode(Decode(s, false, false).value.uv) == s[..1] <==> s[0] < 0x80
  {
    hide Decode, Skip, Low;
    DecodeOne(s, false, false);
    Back1(s[0]);
  }

  lemma {:induction false} Encode2(s: seq<Byte>)
    requires |s| >= 2 && Skip(s[0]) == 2 && Decode(s, false, false).Some?
    ensures Encode(Decode(s, false, false).value.uv) == s[..2]
  {
    hide Decode, Continuation, Skip, Lead, Shifted, Head2, Tail0;
    DecodeTwo(s, false, false);
    Back2(s[0], s[1]);
    assert s[..2] == [s[0], s[1]];
  }

  lemma {:induction false} Encode3(s: seq<Byte>)
    requires |s| >= 3 && Skip(s[0]) == 3 && Decode(s, false, false).Some?
    ensures Encode(Decode(s, false, false).value.uv) == s[..3]
  {
    hide Decode, Continuation, Skip, Lead, Shifted, Head3, Tail6, Tail0;
    DecodeThree(s, false, false);
    Back3(s[0], s[1], s[2]);
    assert s[..3] == [s[0], s[1], s[2]];
  }

  lemma {:induction false} Encode4(s: seq<Byte>)
    requires |s| >= 4 && Skip(s[0]) == 4 && Decode(s, false, false).Some?
    ensures Encode(Decode(s, false, false).value.uv) == s[..4] <==> s[0] < 0xf8
  {
    hide Decode, Continuation, Skip, Lead, Shifted, Head4, Tail12, Tail6, Tail0;
    DecodeFour(s, false, false);
    Back4(s[0], s[1], s[2], s[3]);
    assert s[..4] == [s[0], s[1], s[2], s[3]];
  }

  lemma {:induction false} ProperSkip(b: Byte)
    ensures Skip(b) == 1 ==> b < 0xc0 && (Proper(b) <==> b < 0x80)
    ensures Skip(b) == 2 || Skip(b) == 3 ==> Proper(b)
    ensures Skip(b) == 4 ==> (Proper(b) <==> b < 0xf8)
  {
  }

  // ---- strings ----------------------------------------------------------------------------

  function EncodeAll(uvs: seq<Uv>): seq<Byte> {
    if uvs == [] then [] else Encode(uvs[0]) + EncodeAll(uvs[1..])
  }

  function Wide(b: Byte): Uv {
    b as Uv
  }

  /** Latin-1 bytes as code points. */
  function Widen(s: seq<Byte>): (r: seq<Uv>)
    ensures |r| == |s|
  {
    seq(|s|, i requires 0 <= i < |s| => Wide(s[i]))
  }

  /** bytes_to_utf8 */
  function Upgrade(s: seq<Byte>): seq<Byte> {
    EncodeAll(Widen(s))
  }

  /** The characters utf8_length counts: the last may be cut off. */
  function Length(s: seq<Byte>): nat {
    if s == [] then 0
    else if Skip(s[0]) >= |s| then 1
    else 1 + Length(s[Skip(s[0])..])
  }

  /** utf8_to_bytes; None when a character is malformed or no byte. */
  function Downgrade(s: seq<Byte>): (r: Option<seq<Byte>>)
    decreases |s|
  {
    if s == [] then Some([]) else
    match Decode(s, false, false)
    case None => None
    case Some(c) =>
      if c.uv > 0xff || Downgrade(s[c.len..]) == None then None
      else Some([Low(c.uv)] + Downgrade(s[c.len..]).value)
  }

  /** The bytes utf8_to_bytes has written when it stops, at the end or at the character it
      rejects. */
  function Written(s: seq<Byte>): (r: seq<Byte>)
    ensures |r| <= |s|
    decreases |s|
  {
    if s == [] then [] else
    match Decode(s, false, false)
    case None => []
    case Some(c) => if c.uv > 0xff then [] else [Low(c.uv)] + Written(s[c.len..])
  }

  lemma {:induction false} WrittenAll(s: seq<Byte>)
    ensures Downgrade(s).Some? ==> Downgrade(s).value == Written(s)
    decreases |s|
  {
    hide Decode, Low;
    if s != [] {
      match Decode(s, false, false)
      case None =>
      case Some(c) =>
        WrittenAll(s[c.len..]);
    }
  }

  lemma {:induction false} EncodeAllMore(uvs: seq<Uv>, uv: Uv)
    ensures EncodeAll(uvs + [uv]) == EncodeAll(uvs) + Encode(uv)
  {
    hide Encode;
    if uvs == [] {
      assert [] + [uv] == [uv] && [uv][1..] == [];
    } else {
      EncodeAllMore(uvs[1..], uv);
      assert (uvs + [uv])[1..] == uvs[1..] + [uv];
    }
  }

  /** utf8_length of an encoded string is its number of code points, for all 64-bit ones. */
  lemma {:induction false} LengthOfEncoded(uvs: seq<Uv>)
    ensures Length(EncodeAll(uvs)) == |uvs|
  {
    if uvs != [] {
      LengthOfEncoded(uvs[1..]);
      var e, rest := Encode(uvs[0]), EncodeAll(uvs[1..]);
      hide Encode, Skip;
      assert (e + rest)[0] == e[0] && (e + rest)[|e|..] == rest;
    }
  }

  /** Downgrading an upgraded byte string gives it back. */
  lemma {:induction false} DowngradeUpgrade(s: seq<Byte>)
    ensures Downgrade(Upgrade(s)) == Some(s)
    ensures Length(Upgrade(s)) == |s|
  {
    LengthOfEncoded(Widen(s));
    if s != [] {
      DowngradeUpgrade(s[1..]);
      assert Widen(s)[1..] == Widen(s[1..]);
      var e, rest := Encode(Wide(s[0])), Upgrade(s[1..]);
      DecodeEncode(Wide(s[0]), rest, false, false);
      hide Encode, Decode, Low, Length, Wide, Disallowed;
      assert Upgrade(s) == e + rest;
      assert (e + rest)[|e|..] == rest;
      assert [Low(Wide(s[0]))] + s[1..] == s;
    }
  }

  /** What the flags refuse: an encoded code point decodes unless surrogates are refused and it is one
      (D800 to DFFF), or what is beyond Unicode is and it is beyond 10FFFF. */
  lemma {:induction false} StrictExact(uv: Uv, rest: seq<Byte>, noSurrogate: bool, noSuper: bool)
    requires uv < 0x200000
    ensures Decode(Encode(uv) + rest, noSurrogate, noSuper).Some? <==>
      !(noSurrogate && 0xD800 <= uv && uv < 0xE000) && !(noSuper && uv >= 0x110000)
  {
    DecodeEncode(uv, rest, noSurrogate, noSuper);
    hide Decode, Encode;
  }

  /** No character of s begins with a continuation byte. */
  predicate NoStray(s: seq<Byte>)
    decreases |s|
  {
    s == [] || (!Continuation(s[0]) && match Decode(s, false, false)
                                       case None => true
                                       case Some(c) => NoStray(s[c.len..]))
  }

  /** The other way round a string comes back exactly when it has no stray continuation byte. */
  lemma {:induction false} UpgradeDowngrade(s: seq<Byte>)
    requires Downgrade(s).Some?
    ensures Upgrade(Downgrade(s).value) == s <==> NoStray(s)
    decreases |s|
  {
    hide Encode, Decode, Low, Continuation, Wide, Proper, Upgrade;
    if s == [] {
      UpgradeEmpty();
    } else {
      var c := Decode(s, false, false).value;
      var b, rest := Low(c.uv), s[c.len..];
      var below := Downgrade(rest).value;
      UpgradeDowngrade(rest);
      EncodeDecode(s);
      SmallProper(s);
      LowWide(c.uv);
      UpgradeFirst(b, below);
      assert s == s[..c.len] + rest;
      SameSplit(Encode(c.uv), Upgrade(below), s[..c.len], rest);
    }
  }

  lemma {:induction false} UpgradeEmpty()
    ensures Upgrade([]) == []
  {
    assert Widen([]) == [];
  }

  lemma {:induction false} LowWide(uv: Uv)
    ensures uv <= 0xff ==> Wide(Low(uv)) == uv
  {
  }

  lemma {:induction false} UpgradeFirst(b: Byte, below: seq<Byte>)
    ensures Upgrade([b] + below) == Encode(Wide(b)) + Upgrade(below)
  {
    hide Encode, Wide;
    assert Widen([b] + below)[1..] == Widen(below);
  }

  /** A decoded byte begins with a proper lead or is a stray continuation byte, whose encoding is
      two bytes long. */
  lemma {:induction false} SmallProper(s: seq<Byte>)
    requires Decode(s, false, false).Some? && Decode(s, false, false).value.uv <= 0xff
    ensures var c := Decode(s, false, false).value;
      (Proper(s[0]) <==> !Continuation(s[0])) && (Continuation(s[0]) ==> c.len == 1 && |Encode(c.uv)| == 2)
  {
  }

  lemma {:induction false} SameSplit(a: seq<Byte>, b: seq<Byte>, c: seq<Byte>, d: seq<Byte>)
    ensures |a| == |c| ==> (a + b == c + d <==> a == c && b == d)
  {
    if |a| == |c| && a + b == c + d {
      assert (a + b)[..|a|] == a && (c + d)[..|c|] == c;
      assert (a + b)[|a|..] == b && (c + d)[|c|..] == d;
    }
  }

  // ---- the string functions -----------------------------------------------------------------

  /** goperl_utf8_length */
  method Utf8Length(s: seq<Byte>) returns (n: nat)
    ensures n == Length(s)
  {
    n := 0;
    var p := 0;
    while p < |s|
      invariant n + Length(if p < |s| then s[p..] else []) == Length(s)
      decreases |s| - p
    {
      if p + Skip(s[p]) < |s| {
        assert s[p..][Skip(s[p])..] == s[p + Skip(s[p])..];
      }
      p := p + Skip(s[p]);
      n := n + 1;
    }
  }

  /** goperl_uvchr_to_utf8: uv's bytes at d, and the place after them. */
  method UvchrToUtf8(buf: array<Byte>, d: nat, uv: Uv) returns (end: nat)
    requires d + |Encode(uv)| <= buf.Length
    modifies buf
    ensures end == d + |Encode(uv)|
    ensures buf[..] == old(buf[..d]) + Encode(uv) + old(buf[end..])
  {
    hide Head2, Head3, Head4, Tail0, Tail6, Tail12, Low;
    ghost var was := buf[..];
    end := d;
    if uv < 0x80 {
      end := Put(buf, end, Low(uv));
    } else if uv < 0x800 {
      end := Put(buf, end, Head2(uv));
      end := Put(buf, end, Tail0(uv));
    } else if uv < 0x10000 {
      end := Put(buf, end, Head3(uv));
      end := Put(buf, end, Tail6(uv));
      end := Put(buf, end, Tail0(uv));
    } else {
      end := Put(buf, end, Head4(uv));
      end := Put(buf, end, Tail12(uv));
      end := Put(buf, end, Tail6(uv));
      end := Put(buf, end, Tail0(uv));
    }
    Spliced(was, d, Encode(uv));
  }

  /** *d++ = b */
  method Put(buf: array<Byte>, d: nat, b: Byte) returns (end: nat)
    requires d < buf.Length
    modifies buf
    ensures end == d + 1 && buf[..] == old(buf[..])[d := b]
  {
    buf[d] := b;
    end := d + 1;
  }

  /** One byte after another, or all at once. */
  lemma {:induction false} Spliced(s: seq<Byte>, d: nat, e: seq<Byte>)
    requires 1 <= |e| <= 4 && d + |e| <= |s|
    ensures var t := s[..d] + e + s[d + |e|..];
      && t == (if |e| == 1 then s[d := e[0]]
               else if |e| == 2 then s[d := e[0]][d + 1 := e[1]]
               else if |e| == 3 then s[d := e[0]][d + 1 := e[1]][d + 2 := e[2]]
               else s[d := e[0]][d + 1 := e[1]][d + 2 := e[2]][d + 3 := e[3]])
  {
  }

  /** A byte is one or two in UTF-8, as the first pass of bytes_to_utf8 counts. */
  lemma {:induction false} ByteSize(b: Byte)
    ensures |Encode(Wide(b))| == if b < 0x80 then 1 else 2
  {
  }

  lemma {:induction false} UpgradeMore(s: seq<Byte>, i: nat)
    requires i < |s|
    ensures Upgrade(s[..i + 1]) == Upgrade(s[..i]) + Encode(Wide(s[i]))
  {
    EncodeAllMore(Widen(s[..i]), Wide(s[i]));
    assert Widen(s[..i + 1]) == Widen(s[..i]) + [Wide(s[i])];
  }

  lemma {:induction false} UpgradePrefix(s: seq<Byte>, i: nat)
    requires i <= |s|
    ensures |Upgrade(s[..i])| <= |Upgrade(s)|
    decreases |s| - i
  {
    if i < |s| {
      UpgradePrefix(s, i + 1);
      UpgradeMore(s, i);
    } else {
      assert s[..i] == s;
    }
  }

  /** goperl_bytes_to_utf8: the length counted in the first pass is exactly what the second writes,
      with a NUL after it. */
  method BytesToUtf8(s: seq<Byte>) returns (d: array<Byte>, out: nat)
    ensures fresh(d) && out == |Upgrade(s)| && d[..] == Upgrade(s) + [0]
  {
    hide Encode, Upgrade, Wide;
    out := 0;
    UpgradeNothing(s);
    for i := 0 to |s|
      invariant out == |Upgrade(s[..i])|
    {
      UpgradeMore(s, i);
      ByteSize(s[i]);
      out := out + if s[i] < 0x80 then 1 else 2;
    }
    assert s[..|s|] == s;
    d := new Byte[out + 1];
    var p := 0;
    for i := 0 to |s|
      invariant p == |Upgrade(s[..i])| <= out && d[..p] == Upgrade(s[..i])
    {
      UpgradeMore(s, i);
      UpgradePrefix(s, i + 1);
      p := UvchrToUtf8(d, p, Wide(s[i]));
    }
    d[p] := 0;
  }

  lemma {:induction false} UpgradeNothing(s: seq<Byte>)
    ensures Upgrade(s[..0]) == []
  {
    assert Widen(s[..0]) == [];
  }

  lemma {:induction false} EmptyEnds(s: seq<Byte>)
    requires s == []
    ensures Written(s) == [] && Downgrade(s) == Some([])
  {
  }

  /** One character of utf8_to_bytes, accepted or rejected. */
  lemma {:induction false} Step(s: seq<Byte>)
    requires s != []
    ensures match Decode(s, false, false)
      case None => Downgrade(s) == None && Written(s) == []
      case Some(c) =>
        && (c.uv > 0xff ==> Downgrade(s) == None && Written(s) == [])
        && (c.uv <= 0xff ==> Written(s) == [Low(c.uv)] + Written(s[c.len..]) && (Downgrade(s) == None <==> Downgrade(s[c.len..]) == None))
  {
    hide Decode, Low;
  }

  /** utf8_to_bytes has read p bytes of the first len and written d of them: it has not passed
      what it reads, and what it has not written is as it was. */
  ghost predicate Doing(was: seq<Byte>, now: seq<Byte>, len: nat, d: nat, p: nat) {
    && |now| == |was| && d <= p <= len <= |was| && now[d..] == was[d..]
    && Written(was[..len]) == now[..d] + Written(was[p..len])
    && (Downgrade(was[..len]) == None <==> Downgrade(was[p..len]) == None)
  }

  lemma {:induction false} DoingStarts(was: seq<Byte>, len: nat)
    requires len <= |was|
    ensures Doing(was, was, len, 0, 0)
  {
    assert was[0..len] == was[..len];
  }

  lemma {:induction false} DoingReads(was: seq<Byte>, now: seq<Byte>, len: nat, d: nat, p: nat)
    requires Doing(was, now, len, d, p)
    ensures now[p..len] == was[p..len]
  {
    assert forall i :: p <= i < len ==> now[i] == now[d..][i - d] && was[i] == was[d..][i - d];
  }

  lemma {:induction false} DoingStep(was: seq<Byte>, now: seq<Byte>, len: nat, d: nat, p: nat, c: Char)
    requires Doing(was, now, len, d, p) && p < len && Decode(was[p..len], false, false) == Some(c) && c.uv <= 0xff
    ensures Doing(was, now[d := Low(c.uv)], len, d + 1, p + c.len)
  {
    hide Decode, Low, Written, Downgrade;
    Step(was[p..len]);
    assert was[p..len][c.len..] == was[p + c.len..len];
    var next := now[d := Low(c.uv)];
    assert next[..d + 1] == now[..d] + [Low(c.uv)];
    assert next[d + 1..] == now[d..][1..] && was[d + 1..] == was[d..][1..];
  }

  /** It stops at the end or at a character it rejects. */
  lemma {:induction false} DoingOver(was: seq<Byte>, now: seq<Byte>, len: nat, d: nat, p: nat)
    requires Doing(was, now, len, d, p) && Written(was[p..len]) == []
    ensures var w := Written(was[..len]); |w| == d && now == w + was[d..] && now[..d] == w
  {
    hide Written, Downgrade;
    assert now == now[..d] + now[d..];
  }

  /** goperl_utf8_to_bytes on the first len bytes of buf: what it writes never passes what it has
      read.  A string it rejects is left overwritten up to there. */
  method Utf8ToBytes(buf: array<Byte>, len: nat) returns (r: Option<nat>)
    requires len <= buf.Length
    modifies buf
    ensures r.Some? ==> r.value <= len && Downgrade(old(buf[..len])) == Some(buf[..r.value])
    ensures r == None ==> Downgrade(old(buf[..len])) == None
    ensures var w := Written(old(buf[..len])); |w| <= len && buf[..] == w + old(buf[..])[|w|..] && (r == None || r.value == |w|)
  {
    hide Decode, Low, Written, Downgrade, Doing;
    ghost var was := buf[..];
    assert buf[..len] == was[..len];
    var d, p := 0, 0;
    WrittenAll(was[..len]);
    DoingStarts(was, len);
    while p < len
      invariant d <= p <= len && Doing(was, buf[..], len, d, p)
      decreases len - p
    {
      DoingReads(was, buf[..], len, d, p);
      Step(was[p..len]);
      var c := Utf8nToUvchr(buf[p..len], false, false);
      assert buf[p..len] == was[p..len];
      if c == None || c.value.uv > 0xff {
        DoingOver(was, buf[..], len, d, p);
        SameVerdict(was, buf[..], len, d, p);
        return None;
      }
      DoingStep(was, buf[..], len, d, p, c.value);
      ghost var now := buf[..];
      buf[d] := Low(c.value.uv);
      assert buf[..] == now[d := Low(c.value.uv)];
      d := d + 1;
      p := p + c.value.len;
    }
    EmptyEnds(was[p..len]);
    DoingOver(was, buf[..], len, d, p);
    SameVerdict(was, buf[..], len, d, p);
    return Some(d);
  }

  lemma {:induction false} SameVerdict(was: seq<Byte>, now: seq<Byte>, len: nat, d: nat, p: nat)
    requires Doing(was, now, len, d, p)
    ensures Downgrade(was[..len]) == None <==> Downgrade(was[p..len]) == None
  {
  }
}
