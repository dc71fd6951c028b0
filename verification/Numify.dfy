/** The scan that finds the number a string starts with. */
module Numify {

  import opened Options

  // ---- the grammar ------------------------------------------------------------------------

  predicate Blank(c: char) {
    c == ' ' || c == '\t' || c == '\n' || c == '\r' || c == 12 as char
  }

  predicate Digit(c: char) {
    '0' <= c <= '9'
  }

  predicate SignChar(c: char) {
    c == '+' || c == '-'
  }

  predicate Digits(t: string) {
    forall i :: 0 <= i < |t| ==> Digit(t[i])
  }

  predicate Sign(t: string) {
    t == "" || (|t| == 1 && SignChar(t[0]))
  }

  /** D+ (. D*)? | . D+ : a dot at k, or none at all. */
  ghost predicate Mantissa(t: string) {
    || (t != "" && Digits(t))
    || exists k :: 0 <= k < |t| && t[k] == '.' && Digits(t[..k]) && Digits(t[k + 1..]) && |t| > 1
  }

  /** ([eE] sign? D+)? */
  ghost predicate Exponent(t: string) {
    || t == ""
    || ((t[0] == 'e' || t[0] == 'E')
        && exists k :: 1 <= k < |t| && Sign(t[1..k]) && Digits(t[k..]))
  }

  /** sign? mantissa exponent */
  ghost predicate Numeral(t: string) {
    exists i, j :: 0 <= i <= j <= |t| && Sign(t[..i]) && Mantissa(t[i..j]) && Exponent(t[j..])
  }

  /** From start on, the longest numeral ends at n. */
  ghost predicate Longest(s: string, start: nat, n: nat) {
    start <= n <= |s| && Numeral(s[start..n]) && forall m :: n < m <= |s| ==> !Numeral(s[start..m])
  }

  // ---- where the scan stops ---------------------------------------------------------------

  function BlanksEnd(s: string, i: nat): (r: nat)
    requires i <= |s|
    ensures i <= r <= |s| && (forall k :: i <= k < r ==> Blank(s[k])) && (r < |s| ==> !Blank(s[r]))
    decreases |s| - i
  {
    if i < |s| && Blank(s[i]) then BlanksEnd(s, i + 1) else i
  }

  function DigitsEnd(s: string, i: nat): (r: nat)
    requires i <= |s|
    ensures i <= r <= |s|
    decreases |s| - i
  {
    if i < |s| && Digit(s[i]) then DigitsEnd(s, i + 1) else i
  }

  /** All digits up to there, and none there. */
  lemma {:induction false} DigitsUpTo(s: string, i: nat)
    requires i <= |s|
    ensures var r := DigitsEnd(s, i); (forall k :: i <= k < r ==> Digit(s[k])) && (r < |s| ==> !Digit(s[r]))
    decreases |s| - i
  {
    if i < |s| && Digit(s[i]) {
      DigitsUpTo(s, i + 1);
    }
  }

  function SignEnd(s: string, i: nat): (r: nat)
    requires i <= |s|
    ensures i <= r <= |s|
  {
    if i < |s| && SignChar(s[i]) then i + 1 else i
  }

  function MantissaEnd(s: string, i: nat): (r: Option<nat>)
    requires i <= |s|
    ensures r.Some? ==> i < r.value <= |s|
  {
    var d := DigitsEnd(s, i);
    if d < |s| && s[d] == '.' then
      var j := DigitsEnd(s, d + 1);
      if j > d + 1 || d > i then Some(j) else None
    else if d > i then Some(d) else None
  }

  function ExponentEnd(s: string, i: nat): (r: nat)
    requires i <= |s|
    ensures i <= r <= |s|
  {
    if i < |s| && (s[i] == 'e' || s[i] == 'E') then
      var k := SignEnd(s, i + 1);
      var e := DigitsEnd(s, k);
      if e > k then e else i
    else i
  }

  function NumeralEnd(s: string, start: nat): (r: Option<nat>)
    requires start <= |s|
    ensures r.Some? ==> start < r.value <= |s|
  {
    match MantissaEnd(s, SignEnd(s, start))
    case None => None
    case Some(m) => Some(ExponentEnd(s, m))
  }

  // ---- the two agree ----------------------------------------------------------------------

  lemma {:induction false} DigitsSpan(s: string, i: nat, j: nat)
    requires i <= j <= |s|
    ensures Digits(s[i..j]) <==> DigitsEnd(s, i) >= j
  {
    DigitsUpTo(s, i);
    var d := DigitsEnd(s, i);
    if d < j {
      assert s[i..j][d - i] == s[d];
    }
    if Digits(s[i..j]) {
      forall k | i <= k < j ensures Digit(s[k]) {
        assert s[i..j][k - i] == s[k];
      }
    }
  }

  /** A mantissa from i to j, with its dot at k, ends where the scan does or earlier. */
  lemma {:induction false} DottedFits(s: string, i: nat, k: nat, j: nat)
    requires i <= k < j <= |s| && s[k] == '.' && Digits(s[i..k]) && Digits(s[k + 1..j]) && j > i + 1
    ensures MantissaEnd(s, i).Some? && j <= MantissaEnd(s, i).value
  {
    hide Digits;
    DigitsSpan(s, i, k);
    DigitsSpan(s, k + 1, j);
    DigitsUpTo(s, i);
    assert DigitsEnd(s, i) == k;
  }

  lemma {:induction false} MantissaFits(s: string, i: nat, j: nat)
    requires i <= j <= |s| && Mantissa(s[i..j])
    ensures MantissaEnd(s, i).Some? && j <= MantissaEnd(s, i).value
  {
    hide Digits;
    var t := s[i..j];
    if t != "" && Digits(t) {
      DigitsSpan(s, i, j);
    } else {
      hide MantissaEnd;
      var k :| 0 <= k < |t| && t[k] == '.' && Digits(t[..k]) && Digits(t[k + 1..]);
      assert t[..k] == s[i..i + k] && t[k + 1..] == s[i + k + 1..j];
      DottedFits(s, i, i + k, j);
    }
  }

  lemma {:induction false} MantissaFound(s: string, i: nat)
    requires i <= |s| && MantissaEnd(s, i).Some?
    ensures Mantissa(s[i..MantissaEnd(s, i).value])
  {
    var m := MantissaEnd(s, i).value;
    var t := s[i..m];
    var d := DigitsEnd(s, i);
    if d < |s| && s[d] == '.' {
      var k := d - i;
      DigitsSpan(s, i, d);
      DigitsSpan(s, d + 1, m);
      assert t[k] == '.' && t[..k] == s[i..d] && t[k + 1..] == s[d + 1..m];
    } else {
      DigitsSpan(s, i, m);
    }
  }

  /** Every place before the end of the mantissa holds a digit or the dot. */
  lemma {:induction false} MantissaChars(s: string, i: nat, j: nat)
    requires i <= j && i <= |s| && MantissaEnd(s, i).Some? && j < MantissaEnd(s, i).value
    ensures Digit(s[j]) || s[j] == '.'
  {
    DigitsUpTo(s, i);
    if DigitsEnd(s, i) < |s| {
      DigitsUpTo(s, DigitsEnd(s, i) + 1);
    }
  }

  lemma {:induction false} ExponentFits(s: string, j: nat, m: nat)
    requires j <= m <= |s| && Exponent(s[j..m])
    ensures m <= ExponentEnd(s, j)
  {
    var t := s[j..m];
    if t != "" {
      var k :| 1 <= k < |t| && Sign(t[1..k]) && Digits(t[k..]);
      assert t[0] == s[j] && t[k..] == s[j + k..m] && Digit(t[k..][0]);
      DigitsSpan(s, j + k, m);
      if k > 1 {
        assert SignChar(t[1..k][0]);
      }
      assert s[j + k] == t[k];
    }
  }

  lemma {:induction false} ExponentFound(s: string, j: nat)
    requires j <= |s|
    ensures Exponent(s[j..ExponentEnd(s, j)])
  {
    var e := ExponentEnd(s, j);
    if e > j {
      var k := SignEnd(s, j + 1);
      var t := s[j..e];
      DigitsSpan(s, k, e);
      assert t[0] == s[j] && t[1..k - j] == s[j + 1..k] && t[k - j..] == s[k..e];
    }
  }

  lemma {:induction false} ExponentStart(s: string, j: nat, m: nat)
    requires j < m <= |s| && Exponent(s[j..m])
    ensures s[j] == 'e' || s[j] == 'E'
  {
    assert s[j..m][0] == s[j];
  }

  /** A mantissa has no sign in front. */
  lemma {:induction false} SignPlace(s: string, start: nat, i: nat, j: nat)
    requires start <= i <= j <= |s| && Sign(s[start..i]) && Mantissa(s[i..j])
    ensures i == SignEnd(s, start)
  {
    if i == start {
      var t := s[i..j];
      assert t[0] == s[i];
      if !Digits(t) {
        var k :| 0 <= k < |t| && t[k] == '.' && Digits(t[..k]) && Digits(t[k + 1..]);
        assert k > 0 ==> Digit(t[..k][0]);
      }
    } else {
      assert SignChar(s[start..i][0]);
    }
  }

  lemma {:induction false} Slices(s: string, start: nat, n: nat, i: nat, j: nat)
    requires start <= n <= |s| && i <= j <= n - start
    ensures s[start..n][..i] == s[start..start + i] && s[start..n][i..j] == s[start + i..start + j] && s[start..n][j..] == s[start + j..n]
  {
    var a, b := s[start..n][i..j], s[start + i..start + j];
    assert |a| == |b| && forall k :: 0 <= k < |a| ==> a[k] == s[start..n][i + k] == b[k];
  }

  /** No numeral from start on is longer than what the scan finds. */
  lemma {:induction false} NumeralFits(s: string, start: nat, n: nat)
    requires start <= n <= |s| && Numeral(s[start..n])
    ensures NumeralEnd(s, start).Some? && n <= NumeralEnd(s, start).value
  {
    hide MantissaEnd, ExponentEnd, Mantissa, Exponent, Sign;
    var t := s[start..n];
    var i0, j0 :| 0 <= i0 <= j0 <= |t| && Sign(t[..i0]) && Mantissa(t[i0..j0]) && Exponent(t[j0..]);
    var i, j := start + i0, start + j0;
    Slices(s, start, n, i0, j0);
    SignPlace(s, start, i, j);
    MantissaFits(s, i, j);
    if j == MantissaEnd(s, i).value {
      ExponentFits(s, j, n);
    } else if n > j {
      ExponentStart(s, j, n);
      MantissaChars(s, i, j);
    }
  }

  lemma {:induction false} NumeralFound(s: string, start: nat)
    requires start <= |s| && NumeralEnd(s, start).Some?
    ensures Numeral(s[start..NumeralEnd(s, start).value])
  {
    hide MantissaEnd, ExponentEnd, Mantissa, Exponent;
    var i := SignEnd(s, start);
    var j := MantissaEnd(s, i).value;
    var n := NumeralEnd(s, start).value;
    var t := s[start..n];
    MantissaFound(s, i);
    ExponentFound(s, j);
    Slices(s, start, n, i - start, j - start);
    assert 0 <= i - start <= j - start <= |t| && Sign(t[..i - start]);
  }

  /** The scan stops at the end of the longest numeral, and finds none exactly when there is none. */
  lemma {:induction false} ScanIsLongest(s: string, start: nat)
    requires start <= |s|
    ensures NumeralEnd(s, start).Some? ==> Longest(s, start, NumeralEnd(s, start).value)
    ensures NumeralEnd(s, start) == None <==> forall n :: start <= n <= |s| ==> !Numeral(s[start..n])
  {
    if NumeralEnd(s, start).Some? {
      NumeralFound(s, start);
    }
    forall n | start <= n <= |s| && Numeral(s[start..n]) ensures NumeralEnd(s, start).Some? && n <= NumeralEnd(s, start).value {
      NumeralFits(s, start, n);
    }
  }

  // ---- numbers as they are written ------------------------------------------------------

  predicate AllIn(t: string, among: string) {
    forall i :: 0 <= i < |t| ==> t[i] in among
  }

  const BLANKS: string := [' ', '\t', '\n', '\r', 12 as char]
  const DIGITS: string := "0123456789"

  /** What a text starts with is skipped exactly as far as it is blank. */
  lemma {:induction false} BlanksExact(blanks: string, rest: string)
    requires AllIn(blanks, BLANKS) && (rest == "" || rest[0] !in BLANKS)
    ensures BlanksEnd(blanks + rest, 0) == |blanks|
  {
    var s := blanks + rest;
    assert forall k :: 0 <= k < |blanks| ==> s[k] == blanks[k] && Blank(s[k]);
    assert rest != "" ==> s[|blanks|] == rest[0] && !Blank(rest[0]);
  }

  /** No digit goes on at j. */
  predicate Stops(s: string, j: nat) {
    j < |s| ==> s[j] !in DIGITS
  }

  lemma {:induction false} DigitsRun(s: string, i: nat, t: string)
    requires i + |t| <= |s| && s[i..i + |t|] == t && AllIn(t, DIGITS) && Stops(s, i + |t|)
    ensures DigitsEnd(s, i) == i + |t|
  {
    DigitsUpTo(s, i);
    assert forall k :: i <= k < i + |t| ==> s[k] == t[k - i] && Digit(s[k]);
  }

  /** A number as people write it: a sign, digits with a dot among them or not, an exponent or not. */
  datatype Written = Written(sign: string, whole: string, dot: bool, frac: string, exp: string, expSign: string, power: string)

  function Text(w: Written): string {
    w.sign + w.whole + DotPart(w) + ExpPart(w)
  }

  predicate WellWritten(w: Written) {
    && (w.sign == "" || w.sign == "+" || w.sign == "-") && (w.expSign == "" || w.expSign == "+" || w.expSign == "-")
    && AllIn(w.whole, DIGITS) && AllIn(w.frac, DIGITS) && AllIn(w.power, DIGITS)
    && (w.whole != "" || (w.dot && w.frac != ""))
    && (w.exp == "" || ((w.exp == "e" || w.exp == "E") && w.power != ""))
  }

  /** From i on the text is t. */
  predicate From(s: string, i: nat, t: string) {
    i <= |s| && s[i..] == t
  }

  /** A part t of a text at i, and what follows it. */
  lemma {:induction false} Part(s: string, i: nat, t: string, q: string)
    requires From(s, i, t + q)
    ensures From(s, i + |t|, q) && i + |t| <= |s| && s[i..i + |t|] == t
    ensures t != "" ==> s[i] == t[0]
    ensures if q == "" then i + |t| == |s| else i + |t| < |s| && s[i + |t|] == q[0]
  {
    assert |s| - i == |t| + |q|;
    assert forall k :: 0 <= k < |t| ==> s[i + k] == s[i..][k] == t[k];
    assert forall k :: 0 <= k < |q| ==> s[i + |t| + k] == s[i..][|t| + k] == q[k];
  }

  predicate Ends(rest: string) {
    rest == "" || (rest[0] !in DIGITS && rest[0] !in ".eE")
  }

  function DotPart(w: Written): string {
    if w.dot then "." + w.frac else ""
  }

  function ExpPart(w: Written): string {
    if w.exp == "" then "" else w.exp + w.expSign + w.power
  }

  /** Before anything that cannot go on with it, it is scanned whole. */
  lemma {:induction false} NumberScanned(before: string, w: Written, rest: string)
    requires WellWritten(w) && Ends(rest)
    ensures NumeralEnd(before + Text(w) + rest, |before|) == Some(|before| + |Text(w)|)
  {
    var s := before + Text(w) + rest;
    Regrouped(w, rest);
    assert s[|before|..] == Text(w) + rest;
    assert From(s, |before|, w.sign + (w.whole + (DotPart(w) + (ExpPart(w) + rest))));
    hide *;
    ScannedAt(s, |before|, w, rest);
  }

  lemma {:induction false} ScannedAt(s: string, i: nat, w: Written, rest: string)
    requires WellWritten(w) && Ends(rest) && From(s, i, w.sign + (w.whole + (DotPart(w) + (ExpPart(w) + rest))))
    ensures i <= |s| && NumeralEnd(s, i) == Some(i + |w.sign| + |w.whole| + |DotPart(w)| + |ExpPart(w)|)
  {
    hide WellWritten, MantissaEnd, ExponentEnd, SignEnd, DotPart, ExpPart, Ends, From;
    Starts(w, rest);
    var q := ExpPart(w) + rest;
    SignScanned(s, i, w, DotPart(w) + q);
    Part(s, i, w.sign, w.whole + (DotPart(w) + q));
    var j := i + |w.sign|;
    MantissaScanned(s, j, w, q);
    Part(s, j, w.whole, DotPart(w) + q);
    Part(s, j + |w.whole|, DotPart(w), q);
    ExponentScanned(s, j + |w.whole| + |DotPart(w)|, w, rest);
  }

  lemma {:induction false} Regrouped(w: Written, rest: string)
    ensures Text(w) + rest == w.sign + (w.whole + (DotPart(w) + (ExpPart(w) + rest)))
    ensures |Text(w)| == |w.sign| + |w.whole| + |DotPart(w)| + |ExpPart(w)|
  {
    hide DotPart, ExpPart;
    var a, b, c, d := w.sign, w.whole, DotPart(w), ExpPart(w);
    assert (a + b + c + d) + rest == (a + b + c) + (d + rest);
    assert (a + b + c) + (d + rest) == (a + b) + (c + (d + rest));
    assert (a + b) + (c + (d + rest)) == a + (b + (c + (d + rest)));
  }

  /** What can come after the parts. */
  lemma {:induction false} Starts(w: Written, rest: string)
    requires WellWritten(w) && Ends(rest)
    ensures var q := ExpPart(w) + rest; q == "" || (q[0] !in DIGITS && q[0] != '.')
    ensures w.whole == "" ==> DotPart(w) + (ExpPart(w) + rest) != "" && (DotPart(w) + (ExpPart(w) + rest))[0] == '.'
  {
  }

  lemma {:induction false} SignScanned(s: string, i: nat, w: Written, q: string)
    requires WellWritten(w) && (w.whole == "" ==> q != "" && q[0] == '.') && From(s, i, w.sign + (w.whole + q))
    ensures i <= |s| && SignEnd(s, i) == i + |w.sign|
  {
    Part(s, i, w.sign, w.whole + q);
    assert w.whole != "" ==> (w.whole + q)[0] == w.whole[0];
    assert w.whole == "" ==> (w.whole + q)[0] == q[0];
  }

  lemma {:induction false} MantissaScanned(s: string, i: nat, w: Written, q: string)
    requires WellWritten(w) && (q == "" || (q[0] !in DIGITS && q[0] != '.'))
    requires From(s, i, w.whole + (DotPart(w) + q))
    ensures i <= |s| && MantissaEnd(s, i) == Some(i + |w.whole| + |DotPart(w)|)
  {
    WrittenDigits(w);
    DotParts(w, q);
    hide *;
    if w.dot {
      DottedScanned(s, i, w.whole, w.frac, q);
    } else {
      WholeScanned(s, i, w.whole, q);
    }
  }

  lemma {:induction false} DotParts(w: Written, q: string)
    ensures DotPart(w) + q == (if w.dot then "." + (w.frac + q) else q) && |DotPart(w)| == if w.dot then 1 + |w.frac| else 0
  {
  }

  lemma {:induction false} WholeScanned(s: string, i: nat, whole: string, q: string)
    requires AllIn(whole, DIGITS) && whole != "" && (q == "" || (q[0] !in DIGITS && q[0] != '.'))
    requires From(s, i, whole + q)
    ensures i <= |s| && MantissaEnd(s, i) == Some(i + |whole|)
  {
    hide AllIn, DigitsEnd, From;
    Part(s, i, whole, q);
    DigitsRun(s, i, whole);
  }

  lemma {:induction false} DottedScanned(s: string, i: nat, whole: string, frac: string, q: string)
    requires AllIn(whole, DIGITS) && AllIn(frac, DIGITS) && (whole != "" || frac != "") && (q == "" || q[0] !in DIGITS)
    requires From(s, i, whole + ("." + (frac + q)))
    ensures i <= |s| && MantissaEnd(s, i) == Some(i + |whole| + 1 + |frac|)
  {
    hide AllIn, DigitsEnd, From;
    var b := i + |whole|;
    Part(s, i, whole, "." + (frac + q));
    Part(s, b, ".", frac + q);
    Part(s, b + 1, frac, q);
    DotStops();
    DigitsRun(s, i, whole);
    DigitsRun(s, b + 1, frac);
  }

  lemma {:induction false} WrittenDigits(w: Written)
    requires WellWritten(w)
    ensures AllIn(w.whole, DIGITS) && AllIn(w.frac, DIGITS) && AllIn(w.power, DIGITS) && (w.whole != "" || (w.dot && w.frac != ""))
  {
  }

  lemma {:induction false} DotStops()
    ensures '.' !in DIGITS
  {
  }

  lemma {:induction false} ExponentScanned(s: string, i: nat, w: Written, rest: string)
    requires WellWritten(w) && Ends(rest) && From(s, i, ExpPart(w) + rest)
    ensures i <= |s| && ExponentEnd(s, i) == i + |ExpPart(w)|
  {
    hide From;
    if w.exp == "" {
      assert ExpPart(w) + rest == "" + rest;
      Part(s, i, "", rest);
    } else {
      ExpParts(w, rest);
      EndsStop(rest);
      PowerAt(s, i, w, rest);
    }
  }

  lemma {:induction false} EndsStop(rest: string)
    requires Ends(rest)
    ensures rest != "" ==> rest[0] !in DIGITS
  {
  }

  lemma {:induction false} PowerAt(s: string, i: nat, w: Written, rest: string)
    requires WellWritten(w) && w.exp != "" && (rest != "" ==> rest[0] !in DIGITS)
    requires From(s, i, w.exp + (w.expSign + (w.power + rest)))
    ensures i <= |s| && ExponentEnd(s, i) == i + |w.exp| + |w.expSign| + |w.power|
  {
    ExpShape(w);
    hide WellWritten, AllIn, ExponentEnd, From;
    var k := i + 1 + |w.expSign|;
    Part(s, i, w.exp, w.expSign + (w.power + rest));
    Part(s, i + 1, w.expSign, w.power + rest);
    Part(s, k, w.power, rest);
    PowerScanned(s, i, k, w);
  }

  lemma {:induction false} ExpShape(w: Written)
    requires WellWritten(w) && w.exp != ""
    ensures |w.exp| == 1 && w.power != "" && |w.expSign| <= 1
  {
  }

  lemma {:induction false} ExpParts(w: Written, rest: string)
    requires w.exp != ""
    ensures ExpPart(w) + rest == w.exp + (w.expSign + (w.power + rest)) && |ExpPart(w)| == |w.exp| + |w.expSign| + |w.power|
  {
    assert (w.exp + w.expSign + w.power) + rest == (w.exp + w.expSign) + (w.power + rest);
    assert (w.exp + w.expSign) + (w.power + rest) == w.exp + (w.expSign + (w.power + rest));
  }

  lemma {:induction false} PowerScanned(s: string, i: nat, k: nat, w: Written)
    requires WellWritten(w) && w.exp != "" && k == i + 1 + |w.expSign| && k + |w.power| <= |s|
    requires s[i] == w.exp[0] && s[k..k + |w.power|] == w.power && s[k] == w.power[0]
    requires (w.expSign != "" ==> s[i + 1] == w.expSign[0]) && Stops(s, k + |w.power|)
    ensures ExponentEnd(s, i) == k + |w.power|
  {
    DigitsRun(s, k, w.power);
    assert SignEnd(s, i + 1) == k;
  }

  // ---- numify -----------------------------------------------------------------------------

  /** The digits and the dot; None is the exit without digits. */
  method ScanMantissa(s: string, start: nat) returns (r: Option<nat>)
    requires start <= |s|
    ensures r == MantissaEnd(s, start)
  {
    var i := start;
    var digits := false;
    while i < |s| && Digit(s[i])
      invariant start <= i <= |s| && DigitsEnd(s, i) == DigitsEnd(s, start) && digits == (i > start)
    {
      i := i + 1;
      digits := true;
    }
    if i < |s| && s[i] == '.' {
      var j := i + 1;
      ghost var some := digits;
      while j < |s| && Digit(s[j])
        invariant i < j <= |s| && DigitsEnd(s, j) == DigitsEnd(s, i + 1) && digits == (some || j > i + 1)
      {
        j := j + 1;
        digits := true;
      }
      if j > i + 1 || digits {
        i := j;
      }
    }
    if !digits {
      return None;
    }
    return Some(i);
  }

  method ScanExponent(s: string, start: nat) returns (i: nat)
    requires start <= |s|
    ensures i == ExponentEnd(s, start)
  {
    i := start;
    if i < |s| && (s[i] == 'e' || s[i] == 'E') {
      var j := i + 1;
      if j < |s| && SignChar(s[j]) {
        j := j + 1;
      }
      ghost var k := j;
      var expDigits := false;
      while j < |s| && Digit(s[j])
        invariant k <= j <= |s| && DigitsEnd(s, j) == DigitsEnd(s, k) && expDigits == (j > k)
      {
        j := j + 1;
        expDigits := true;
      }
      if expDigits {
        i := j;
      }
    }
  }

  /** numify.  parse is strconv.ParseFloat, with None for its error.  The result is zero exactly
      where no numeral follows the leading blanks or parse has no value for the longest one. */
  method Scan<F(==)>(s: string, parse: string -> Option<F>, zero: F) returns (f: F)
    ensures var start := BlanksEnd(s, 0);
      if exists n: nat :: Longest(s, start, n) then
        exists n: nat :: Longest(s, start, n) && f == if parse(s[start..n]).Some? then parse(s[start..n]).value else zero
      else f == zero && forall n :: start <= n <= |s| ==> !Numeral(s[start..n])
  {
    hide MantissaEnd, ExponentEnd, Numeral;
    var i := 0;
    while i < |s| && Blank(s[i])
      invariant i <= |s| && BlanksEnd(s, i) == BlanksEnd(s, 0)
    {
      i := i + 1;
    }
    var start := i;
    ScanIsLongest(s, start);
    if i < |s| && SignChar(s[i]) {
      i := i + 1;
    }
    var m := ScanMantissa(s, i);
    if m == None {
      return zero;
    }
    i := ScanExponent(s, m.value);
    assert Longest(s, start, i);
    var parsed := parse(s[start..i]);
    return if parsed == None then zero else parsed.value;
  }
}
