/** Which hashing method a table of a given size uses. */
module HashMethods {
  import opened Words
  import opened Stepping

  predicate PowerOfTwo(x: nat) {
    x == 1 || (x > 1 && x % 2 == 0 && PowerOfTwo(x / 2))
  }

  /** The largest power of two up to n. */
  function Lower(n: nat): (p: nat)
    requires n > 0
    ensures PowerOfTwo(p) && p <= n < 2 * p
  {
    if n == 1 then 1 else 2 * Lower(n / 2)
  }

  lemma {:induction false} LowerIsUnique(n: nat, p: nat, q: nat)
    requires PowerOfTwo(p) && PowerOfTwo(q) && p <= n < 2 * p && q <= n < 2 * q
    ensures p == q
  {
    if n > 1 {
      LowerIsUnique(n / 2, p / 2, q / 2);
    }
  }

  function Distance(a: nat, b: nat): nat {
    if a > b then a - b else b - a
  }

  function Min(a: nat, b: nat): nat {
    if b < a then b else a
  }

  /** How many of the odd numbers from d to 19, but for 15, divide n. */
  function Divisors(n: nat, d: nat): nat
    requires d > 0
    decreases 20 - d
  {
    if d >= 20 then 0 else (if d != 15 && n % d == 0 then 1 else 0) + Divisors(n, d + 2)
  }

  /** Well between the bounds. */
  predicate Centered(n: nat, lower: nat, upper: nat)
    requires lower <= n <= upper
  {
    Distance((lower + upper) / 2, n) < Min((n - lower) / 2, (upper - n) / 2)
  }

  /** Odd, well between two powers of two, and divided by at most one of the small odd numbers. */
  predicate DivisionIsSafe(n: nat) {
    && n % 2 == 1
    && Centered(n, Lower(n), 2 * Lower(n))
    && Divisors(n, 3) < 2
  }

  function MethodFor(n: nat): HashMethod {
    if DivisionIsSafe(n) then Division else Multiplication
  }

  /** privSetHashMethod, in 32-bit arithmetic. */
  method SetHashMethod(targetSize: Word) returns (how: HashMethod)
    requires targetSize % 2 == 1 ==> targetSize <= HALF_WORD
    ensures how == MethodFor(targetSize)
  {
    how := Multiplication;
    if targetSize % 2 == 1 {
      var lowerBound, upperBound := FindBounds(targetSize);
      if Centered(targetSize, lowerBound, upperBound) {
        var divided := CountDivisors(targetSize);
        if divided < 2 {
          how := Division;
        }
      }
    }
  }

  /** The divisor loop gives up at the second divisor. */
  method CountDivisors(targetSize: nat) returns (divided: nat)
    ensures divided < 2 <==> Divisors(targetSize, 3) < 2
  {
    divided := 0;
    var divisor: nat := 3;
    while divided < 2 && divisor < 20
      invariant 3 <= divisor <= 21 && divisor % 2 == 1
      invariant divided + Divisors(targetSize, divisor) == Divisors(targetSize, 3)
      decreases 21 - divisor
    {
      if divisor != 15 {
        if targetSize % divisor == 0 {
          divided := divided + 1;
        }
      }
      divisor := divisor + 2;
    }
  }

  /** The bracketing loops: the bounds are neighbouring powers of two around the size. */
  method FindBounds(targetSize: Word) returns (lowerBound: nat, upperBound: nat)
    requires targetSize % 2 == 1 && targetSize <= HALF_WORD
    ensures lowerBound <= targetSize <= upperBound == 2 * lowerBound
    ensures lowerBound == Lower(targetSize) && upperBound <= HALF_WORD
  {
    lowerBound, upperBound := 64, 128;
    HalfWordIsPower();
    while lowerBound > targetSize
      invariant PowerOfTwo(lowerBound) && upperBound == 2 * lowerBound <= 128
    {
      upperBound := lowerBound;
      lowerBound := lowerBound / 2;
    }
    while upperBound < targetSize
      invariant PowerOfTwo(lowerBound) && upperBound == 2 * lowerBound <= HALF_WORD
      invariant lowerBound <= targetSize
      decreases targetSize - lowerBound
    {
      DoubleFits(upperBound);
      lowerBound := upperBound;
      upperBound := upperBound * 2 % WORD;
    }
    assert upperBound != targetSize || targetSize == 1;
    LowerIsUnique(targetSize, lowerBound, Lower(targetSize));
  }

  lemma {:induction false} NextPower(u: nat, b: nat)
    requires PowerOfTwo(u) && PowerOfTwo(b) && u < b
    ensures 2 * u <= b
  {
    if u > 1 {
      NextPower(u / 2, b / 2);
    }
  }

  lemma DoubleIsPower(x: nat)
    requires PowerOfTwo(x)
    ensures PowerOfTwo(2 * x)
  {
    assert 2 * x / 2 == x;
  }

  /** Doubling a power of two below 2^31 does not wrap. */
  lemma DoubleFits(u: nat)
    requires PowerOfTwo(u) && u < HALF_WORD
    ensures PowerOfTwo(2 * u) && u * 2 % WORD == 2 * u <= HALF_WORD
  {
    HalfWordIsPower();
    NextPower(u, HALF_WORD);
    DoubleIsPower(u);
  }

  lemma Sixteenfold(x: nat)
    requires PowerOfTwo(x)
    ensures PowerOfTwo(16 * x)
  {
    var x2, x4, x8 := 2 * x, 4 * x, 8 * x;
    DoubleIsPower(x);
    DoubleIsPower(x2);
    DoubleIsPower(x4);
    DoubleIsPower(x8);
  }

  lemma HalfWordIsPower()
    ensures PowerOfTwo(64) && PowerOfTwo(128) && PowerOfTwo(HALF_WORD)
  {
    Sixteenfold(1);
    DoubleIsPower(16);
    DoubleIsPower(32);
    DoubleIsPower(64);
    Sixteenfold(0x80);
    Sixteenfold(0x800);
    Sixteenfold(0x8000);
    Sixteenfold(0x8_0000);
    Sixteenfold(0x80_0000);
    Sixteenfold(0x800_0000);
  }

  // ---- What the choice means

  /** The divisors that are tried. */
  const DIVISORS: set<nat> := {3, 5, 7, 9, 11, 13, 17, 19}

  /** Division is chosen exactly for odd sizes in the middle third between two neighbouring powers of two that
      at most one of the small odd numbers divides. */
  lemma DivisionIff(n: nat, p: nat)
    requires PowerOfTwo(p) && p <= n < 2 * p
    ensures MethodFor(n).Division? <==>
              && n % 2 == 1 && p + 1 < 3 * (n - p) < 2 * p - 1
              && forall d, e | d in DIVISORS && e in DIVISORS && n % d == 0 && n % e == 0 :: d == e
  {
    hide Divisors;
    LowerIsUnique(n, Lower(n), p);
    if n % 2 == 1 {
      if p == 1 {
        assert n == 1;
      } else {
        MiddleThird(n, p);
      }
      FewDivisors(n);
    }
  }

  lemma MiddleThird(n: nat, p: nat)
    requires p % 2 == 0 && n % 2 == 1 && p <= n < 2 * p
    ensures Centered(n, p, 2 * p) <==> p + 1 < 3 * (n - p) < 2 * p - 1
  {
    var h, x := p / 2, (n - p) / 2;
    assert p == 2 * h && n - p == 2 * x + 1;
    assert (p + 2 * p) / 2 == 3 * h;
    assert (2 * p - n) / 2 == h - x - 1;
  }

  function One(n: nat, d: nat): nat
    requires d > 0
  {
    if n % d == 0 then 1 else 0
  }

  lemma DivisorSum(n: nat)
    ensures Divisors(n, 3) == One(n, 3) + One(n, 5) + One(n, 7) + One(n, 9) + One(n, 11) + One(n, 13) + One(n, 17)
                              + One(n, 19)
  {
    assert Divisors(n, 21) == 0;
    assert Divisors(n, 19) == One(n, 19);
    assert Divisors(n, 17) == One(n, 17) + Divisors(n, 19);
    assert Divisors(n, 15) == Divisors(n, 17);
    assert Divisors(n, 13) == One(n, 13) + Divisors(n, 15);
    assert Divisors(n, 11) == One(n, 11) + Divisors(n, 13);
    assert Divisors(n, 9) == One(n, 9) + Divisors(n, 11);
    assert Divisors(n, 7) == One(n, 7) + Divisors(n, 9);
    assert Divisors(n, 5) == One(n, 5) + Divisors(n, 7);
    assert Divisors(n, 3) == One(n, 3) + Divisors(n, 5);
  }

  lemma FewDivisors(n: nat)
    ensures Divisors(n, 3) < 2 <==>
              forall d, e | d in DIVISORS && e in DIVISORS && n % d == 0 && n % e == 0 :: d == e
  {
    DivisorSum(n);
    if d, e :| d in DIVISORS && e in DIVISORS && n % d == 0 && n % e == 0 && d != e {
      assert One(n, d) == 1 && One(n, e) == 1;
    }
  }

  // ---- Odd sizes beyond 2^31

  /** The upper bound after k rounds of the second loop, in 32-bit arithmetic. */
  function UpperAfter(k: nat): nat {
    if k == 0 then 128 else UpperAfter(k - 1) * 2 % WORD
  }

  /** The bracketing loop ends exactly for sizes up to 2^31: beyond, the upper bound wraps to zero. */
  lemma {:induction false} BracketingEndsIff(targetSize: Word)
    ensures (exists k :: UpperAfter(k) >= targetSize) <==> targetSize <= HALF_WORD
  {
    if targetSize <= HALF_WORD {
      UpperReachesHalfWord();
      assert UpperAfter(24) >= targetSize;
    } else {
      forall k: nat
        ensures UpperAfter(k) < targetSize
      {
        UpperIsPower(k);
      }
    }
  }

  lemma UpperReachesHalfWord()
    ensures UpperAfter(24) == HALF_WORD
  {
    assert UpperAfter(1) == 0x100;
    assert UpperAfter(2) == 0x200;
    assert UpperAfter(3) == 0x400;
    assert UpperAfter(4) == 0x800;
    assert UpperAfter(5) == 0x1000;
    assert UpperAfter(6) == 0x2000;
    assert UpperAfter(7) == 0x4000;
    assert UpperAfter(8) == 0x8000;
    assert UpperAfter(9) == 0x10000;
    assert UpperAfter(10) == 0x20000;
    assert UpperAfter(11) == 0x40000;
    assert UpperAfter(12) == 0x80000;
    assert UpperAfter(13) == 0x100000;
    assert UpperAfter(14) == 0x200000;
    assert UpperAfter(15) == 0x400000;
    assert UpperAfter(16) == 0x800000;
    assert UpperAfter(17) == 0x1000000;
    assert UpperAfter(18) == 0x2000000;
    assert UpperAfter(19) == 0x4000000;
    assert UpperAfter(20) == 0x8000000;
    assert UpperAfter(21) == 0x10000000;
    assert UpperAfter(22) == 0x20000000;
    assert UpperAfter(23) == 0x40000000;
    assert UpperAfter(24) == 0x80000000;
  }

  lemma {:induction false} UpperIsPower(k: nat)
    ensures UpperAfter(k) == 0 || (PowerOfTwo(UpperAfter(k)) && UpperAfter(k) <= HALF_WORD)
  {
    HalfWordIsPower();
    if k > 0 {
      UpperIsPower(k - 1);
      var u := UpperAfter(k - 1);
      if 0 < u < HALF_WORD {
        DoubleFits(u);
      }
    }
  }
}
