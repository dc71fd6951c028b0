/** Conversions between machine integer widths. */
module Words {

  const TWO32 := 0x1_0000_0000
  const TWO63 := 0x8000_0000_0000_0000
  const TWO64 := 0x1_0000_0000_0000_0000

  /** The int32 with the low 32 bits of v. */
  function ToI32(v: int): int {
    (v + 0x8000_0000) % TWO32 - 0x8000_0000
  }

  /** The int64 with the low 64 bits of v. */
  function ToI64(v: int): int {
    (v + TWO63) % TWO64 - TWO63
  }

  lemma {:induction false} MulLe(a: nat, b: nat, d: nat)
    requires a <= b
    ensures a * d <= b * d
  {
  }

  /** Quotient and remainder are what they have to be. */
  lemma {:induction false} DivMod(x: nat, d: nat, q: nat, r: nat)
    requires r < d && x == q * d + r
    ensures x / d == q && x % d == r
  {
    var q2 := x / d;
    if q2 < q {
      MulLe(q2 + 1, q, d);
    } else if q2 > q {
      MulLe(q + 1, q2, d);
    }
  }
}
