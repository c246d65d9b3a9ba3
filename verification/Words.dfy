/** The 32-bit unsigned arithmetic of the hash tables. */
module Words {
  const WORD: nat := 0x1_0000_0000

  /** Twice this is the first power of two that no longer fits. */
  const HALF_WORD: nat := 0x8000_0000

  type Word = x: nat | x < 0x1_0000_0000

  /** The multiplication method: floor(frac(h * 0.618) * m), with 0.618 taken as 618/1000. */
  function Scaled(h: Word, m: nat): (r: nat)
    ensures m > 0 ==> r < m
  {
    var f := h * 618 % 1000;
    assert m > 0 ==> f * m / 1000 < m by {
      if m > 0 {
        MulBelow(f, 1000, m);
        DivBelow(f * m, 1000, m);
      }
    }
    f * m / 1000
  }

  lemma DivBelow(w: nat, d: nat, c: nat)
    requires d > 0 && w < c * d
    ensures w / d < c
  {
    var q := w / d;
    assert w == q * d + w % d;
    if c <= q {
      MulMonotone(c, q, d);
    }
  }

  lemma MulMonotone(a: nat, b: nat, d: nat)
    requires a <= b
    ensures a * d <= b * d
  {
  }

  lemma MulBelow(a: nat, b: nat, d: nat)
    requires a < b && d > 0
    ensures a * d < d * b
  {
  }

  /** The index i is the whole part of f * m / 1000, where f / 1000 is the fractional part of h * 0.618. */
  ghost predicate IsScaled(h: Word, m: nat, i: nat) {
    exists q: nat, f: nat :: f < 1000 && h * 618 == q * 1000 + f && i * 1000 <= f * m < (i + 1) * 1000
  }

  /** The multiplication method gives this index and no other. */
  lemma ScaledIff(h: Word, m: nat, i: nat)
    ensures Scaled(h, m) == i <==> IsScaled(h, m, i)
  {
    var f0 := FractionOf(h, m);
    if Scaled(h, m) == i {
      WholePart(f0 * m, i);
      assert IsScaled(h, m, i);
    }
    if IsScaled(h, m, i) {
      var q: nat, f: nat :| f < 1000 && h * 618 == q * 1000 + f && i * 1000 <= f * m < (i + 1) * 1000;
      SameFraction(h * 618, q, f);
      WholePart(f0 * m, i);
    }
  }

  lemma FractionOf(h: Word, m: nat) returns (f: nat)
    ensures f == h * 618 % 1000 < 1000 && Scaled(h, m) == f * m / 1000
    ensures h * 618 == h * 618 / 1000 * 1000 + f
  {
    f := h * 618 % 1000;
  }

  lemma SameFraction(x: nat, q: nat, f: nat)
    requires f < 1000 && x == q * 1000 + f
    ensures f == x % 1000
  {
  }

  lemma WholePart(x: nat, i: nat)
    ensures x / 1000 == i <==> i * 1000 <= x < (i + 1) * 1000
  {
  }
}
