/** The secondary hash of the open table: the step between two probes of one key. */
module Stepping {
  import opened Words

  datatype HashMethod = Division | Multiplication

  /** tabSize * k / (k + 1) in 32-bit arithmetic. */
  function Fraction(n: nat, k: nat): nat {
    n * k % WORD / (k + 1)
  }

  predicate Forbidden(n: nat, s: nat) {
    exists k :: 3 <= k < 9 && s == Fraction(n, k)
  }

  /** A step the adjustment loop leaves alone. */
  predicate Accepted(n: nat, s: nat) {
    0 < s <= n && !Forbidden(n, s) && n % s != 0
  }

  /** The table sizes for which the adjustment loop ends; see SteppingTerminatesIff. */
  predicate Steppable(n: nat) {
    5 <= n < WORD && n != 6
  }

  /** The range of the secondary hash; 32-bit, so it wraps for size one. */
  function Range(n: Word): (r: nat)
    requires n > 0
    ensures r > 0
  {
    if n == 1 then WORD - 1 else if n % 2 == 1 then n - 2 else n - 1
  }

  /** At least three (two for odd sizes), and not the parity of the size. */
  function Sane(n: Word, raw: nat): nat {
    var least := if raw < 3 then (if n % 2 == 1 then 2 else 3) else raw;
    if n % 2 == least % 2 then least + 1 else least
  }

  /** The first candidate, before the adjustment loop. */
  function Start(sec: Word, n: Word, how: HashMethod): nat
    requires n > 0
  {
    Sane(n, if how.Division? then sec % Range(n) else Scaled(sec, Range(n)))
  }

  /** The candidates the loop can meet. Sizes below ten may wrap around. */
  predicate Candidate(n: nat, s: nat)
    requires Steppable(n)
  {
    if n >= 10 then 2 <= s < n && s % 2 != n % 2
    else if n == 5 then s == 2
    else if n == 7 then s in {2, 4}
    else if n == 8 then s in {1, 3, 5, 7}
    else s in {1, 2, 3, 4, 5, 6, 8}
  }

  ghost function Rank(n: nat, s: nat): nat
    requires Steppable(n) && Candidate(n, s)
  {
    if n >= 10 then n - s
    else if s == 6 then 5
    else if s >= 7 then 4
    else if s == 1 then 3
    else if s == 3 then 2
    else 0
  }

  /** Two further, reduced modulo the size once it is passed. */
  function Next(n: nat, s: nat): nat
    requires n > 0
  {
    if s + 2 > n then (s + 2) % n else s + 2
  }

  lemma LargestIsAccepted(n: nat)
    requires 10 <= n < WORD
    ensures Accepted(n, n - 1)
  {
    assert n % (n - 1) == 1;
    forall k | 3 <= k < 9
      ensures n - 1 != Fraction(n, k)
    {
      FractionBelow(n, k);
    }
  }

  /** Not even a wrapped product reaches n - 1. */
  lemma FractionBelow(n: nat, k: nat)
    requires n > k + 1
    ensures Fraction(n, k) < n - 1
  {
    var p, w := n * k, n * k % WORD;
    QuotientBelow(p, w, n, k);
  }

  lemma QuotientBelow(p: nat, w: nat, n: nat, k: nat)
    requires n > k + 1 && p == n * k && w <= p
    ensures w / (k + 1) < n - 1
  {
    assert (n - 1) * (k + 1) == p + n - k - 1;
    DivBelow(w, k + 1, n - 1);
  }

  /** What the loop accepts below size ten. */
  lemma SmallSizes(n: nat, s: nat)
    requires (n == 5 && s == 2) || (n == 7 && s in {2, 4}) || (n == 8 && s in {3, 5}) || (n == 9 && s in {2, 4, 5})
    ensures Accepted(n, s)
  {
    forall k | 3 <= k < 9
      ensures Fraction(n, k) != s
    {
      assert k == 3 || k == 4 || k == 5 || k == 6 || k == 7 || k == 8;
      SmallFraction(n, k);
    }
  }

  lemma SmallFraction(n: nat, k: nat)
    requires n in {5, 7, 8, 9} && k in {3, 4, 5, 6, 7, 8}
    ensures Fraction(n, k) > if n == 5 then 2 else if n == 7 then 4 else 5
  {
    assert n * k <= 72;
    QuotientAtLeast(n * k, k + 1, if n == 5 then 3 else if n == 7 then 5 else 6);
  }

  lemma QuotientAtLeast(p: nat, d: nat, c: nat)
    requires d > 0 && c * d <= p < WORD
    ensures p % WORD / d >= c
  {
    assert p % WORD == p;
    var q := p / d;
    assert p == q * d + p % d;
    if q < c {
      MulMonotone(q + 1, c, d);
    }
  }

  lemma NextIsCandidate(n: nat, s: nat)
    requires Steppable(n) && Candidate(n, s) && !Accepted(n, s)
    ensures Candidate(n, Next(n, s)) && Rank(n, Next(n, s)) < Rank(n, s)
    ensures n >= 10 ==> Next(n, s) == s + 2
  {
    hide Forbidden;
    if n >= 10 {
      if s == n - 1 {
        LargestIsAccepted(n);
        assert false;
      }
    } else if (n != 8 && s in {2, 4, 5}) || (n == 8 && s in {3, 5}) {
      SmallSizes(n, s);
      assert false;
    }
  }

  lemma SaneIsCandidate(n: Word, raw: nat)
    requires Steppable(n) && raw < Range(n)
    ensures Candidate(n, Sane(n, raw))
  {
  }

  lemma StartIsCandidate(sec: Word, n: Word, how: HashMethod)
    requires Steppable(n)
    ensures Candidate(n, Start(sec, n, how))
  {
    SaneIsCandidate(n, if how.Division? then sec % Range(n) else Scaled(sec, Range(n)));
  }

  /** The first accepted candidate from s on. */
  function NextAccepted(n: nat, s: nat): (r: nat)
    requires Steppable(n) && Candidate(n, s)
    ensures Candidate(n, r) && Accepted(n, r)
    decreases Rank(n, s)
  {
    if Accepted(n, s) then s
    else
      NextIsCandidate(n, s);
      NextAccepted(n, Next(n, s))
  }

  function Step(sec: Word, n: Word, how: HashMethod): (s: nat)
    requires Steppable(n)
    ensures Accepted(n, s)
  {
    StartIsCandidate(sec, n, how);
    NextAccepted(n, Start(sec, n, how))
  }

  /** A pass of the while loop before its last test. */
  function Raised(n: nat, s: nat): nat {
    var s1 := if Forbidden(n, s) then s + 2 else s;
    if s1 > 0 && n % s1 == 0 then s1 + 2 else s1
  }

  /** One pass of the while loop. */
  function Pass(n: nat, s: nat): nat
    requires n > 0
  {
    if Raised(n, s) > n then Raised(n, s) % n else Raised(n, s)
  }

  /** A pass skips nothing but rejected candidates, so it leads to the same step. */
  lemma PassLeadsOn(n: nat, s: nat)
    requires Steppable(n) && Candidate(n, s)
    ensures Candidate(n, Pass(n, s)) && NextAccepted(n, Pass(n, s)) == NextAccepted(n, s)
    ensures if Accepted(n, s) then Pass(n, s) == s else Rank(n, Pass(n, s)) < Rank(n, s)
  {
    hide Forbidden, Rank;
    if !Accepted(n, s) {
      NextIsCandidate(n, s);
      if Pass(n, s) != Next(n, s) {
        assert !Accepted(n, Next(n, s));
        NextIsCandidate(n, Next(n, s));
        assert Pass(n, s) == Next(n, Next(n, s));
      }
    }
  }

  /** The inner loop: leave n*k/(k+1) of the table size, for k from 3 to 8. */
  method SkipFraction(n: nat, s: nat) returns (isAdapted: bool, stepping: nat)
    ensures isAdapted <==> Forbidden(n, s)
    ensures stepping == if isAdapted then s + 2 else s
  {
    isAdapted, stepping := false, s;
    var k: nat := 3;
    while !isAdapted && k < 9
      invariant 3 <= k <= 9
      invariant isAdapted ==> Forbidden(n, s) && stepping == s + 2
      invariant !isAdapted ==> stepping == s && forall j | 3 <= j < k :: s != Fraction(n, j)
    {
      if stepping == Fraction(n, k) {
        isAdapted, stepping := true, stepping + 2;
      }
      k := k + 1;
    }
  }

  /** privGetStepping: the adjustment loop computes the first accepted candidate. */
  method GetStepping(sec: Word, n: Word, how: HashMethod) returns (stepping: nat)
    requires Steppable(n)
    ensures stepping == Step(sec, n, how)
  {
    stepping := FirstStepping(sec, n, how);
    StartIsCandidate(sec, n, how);
    var isAdapted := true;
    while isAdapted
      invariant Candidate(n, stepping)
      invariant NextAccepted(n, stepping) == Step(sec, n, how)
      invariant !isAdapted ==> Accepted(n, stepping)
      decreases isAdapted, Rank(n, stepping)
    {
      ghost var was := stepping;
      PassLeadsOn(n, was);
      isAdapted, stepping := SkipFraction(n, stepping);
      if n % stepping == 0 {
        isAdapted := true;
        stepping := stepping + 2;
      }
      if stepping > n {
        isAdapted := true;
        stepping := stepping % n;
      }
      assert stepping == Pass(n, was);
    }
  }

  method FirstStepping(sec: Word, n: Word, how: HashMethod) returns (stepping: nat)
    requires n >= 3
    ensures stepping == Start(sec, n, how)
  {
    var secSize := n - if n % 2 == 1 then 2 else 1;
    if how.Division? {
      stepping := sec % secSize;
    } else {
      stepping := Scaled(sec, secSize);
    }
    if stepping < 3 {
      stepping := if n % 2 == 1 then 2 else 3;
    }
    if n % 2 == stepping % 2 {
      stepping := stepping + 1;
    }
  }

  // ---- What the step is, and for which sizes the loop ends.

  /** From size ten on: a proper step of the other parity, no divisor and no n*k/(k+1) of the size. */
  lemma StepProperties(sec: Word, n: Word, how: HashMethod)
    requires n >= 10
    ensures var s := Step(sec, n, how);
            2 <= s < n && s % 2 != n % 2 && n % s != 0 && forall k | 3 <= k < 9 :: s != Fraction(n, k)
  {
    StartIsCandidate(sec, n, how);
  }

  /** From size ten on, no pass comes to the branch for a step beyond the table size. */
  lemma NeverBeyondTheSize(n: nat, s: nat)
    requires 10 <= n < WORD && Candidate(n, s)
    ensures Raised(n, s) < n && Pass(n, s) == Raised(n, s)
  {
    if !Accepted(n, s) {
      NextIsCandidate(n, s);
      if Forbidden(n, s) && !Accepted(n, Next(n, s)) {
        NextIsCandidate(n, Next(n, s));
      }
    }
  }

  /** The adjustment goes no further than it must: all earlier candidates are rejected ones. */
  lemma StepIsLeast(sec: Word, n: Word, how: HashMethod, j: nat)
    requires n >= 10 && Start(sec, n, how) + 2 * j < Step(sec, n, how)
    ensures !Accepted(n, Start(sec, n, how) + 2 * j)
  {
    StartIsCandidate(sec, n, how);
    NextAcceptedSkips(n, Start(sec, n, how), j);
  }

  lemma {:induction false} NextAcceptedSkips(n: nat, s: nat, j: nat)
    requires 10 <= n < WORD && Candidate(n, s) && s + 2 * j < NextAccepted(n, s)
    ensures !Accepted(n, s + 2 * j)
    decreases j
  {
    if j > 0 {
      NextIsCandidate(n, s);
      NextAcceptedSkips(n, s + 2, j - 1);
    }
  }

  /** The range of the secondary hash from size ten on. */
  function SecSize(n: nat): nat
    requires n >= 10
  {
    if n % 2 == 1 then n - 2 else n - 1
  }

  /** What the secondary hash gives: the remainder under division, the scaled part under multiplication. */
  ghost predicate IsRaw(sec: Word, n: nat, how: HashMethod, raw: nat)
    requires n >= 10
  {
    match how
    case Division => raw < SecSize(n) && exists q: nat :: sec == q * SecSize(n) + raw
    case Multiplication => IsScaled(sec, SecSize(n), raw)
  }

  /** A step of this length divides the size, or is one of the six fractions of it. */
  predicate Rejected(n: nat, s: nat)
    requires s > 0
  {
    || n % s == 0
    || s == n * 3 % WORD / 4 || s == n * 4 % WORD / 5 || s == n * 5 % WORD / 6
    || s == n * 6 % WORD / 7 || s == n * 7 % WORD / 8 || s == n * 8 % WORD / 9
  }

  /** What the step is: the raw value, but not below three (two for odd sizes), one more if it has the parity of
      the size, and two more for each rejected step. */
  lemma StepFromHash(sec: Word, n: Word, how: HashMethod, raw: nat) returns (j: nat)
    requires n >= 10 && IsRaw(sec, n, how, raw)
    ensures var least := if raw >= 3 then raw else if n % 2 == 1 then 2 else 3;
            var first := if least % 2 == n % 2 then least + 1 else least;
            && Step(sec, n, how) == first + 2 * j && !Rejected(n, first + 2 * j)
            && forall i | 0 <= i < j :: Rejected(n, first + 2 * i)
  {
    hide NextAccepted, Accepted;
    RawIs(sec, n, how, raw);
    var first := Start(sec, n, how);
    StartIsCandidate(sec, n, how);
    j := StepsOn(n, first);
    AcceptedIff(n, first + 2 * j);
    forall i | 0 <= i < j
      ensures Rejected(n, first + 2 * i)
    {
      AcceptedIff(n, first + 2 * i);
    }
  }

  lemma RawIs(sec: Word, n: Word, how: HashMethod, raw: nat)
    requires n >= 10 && IsRaw(sec, n, how, raw)
    ensures raw == if how.Division? then sec % Range(n) else Scaled(sec, Range(n))
  {
    match how
    case Division =>
      var q: nat :| sec == q * SecSize(n) + raw;
      RemainderIs(sec, SecSize(n), q, raw);
    case Multiplication =>
      ScaledIff(sec, SecSize(n), raw);
  }

  lemma RemainderIs(x: nat, n: nat, q: nat, r: nat)
    requires r < n && x == q * n + r
    ensures x % n == r
  {
    var q' := x / n;
    assert x == q' * n + x % n;
    if q < q' {
      MulMonotone(q + 1, q', n);
    } else if q' < q {
      MulMonotone(q' + 1, q, n);
    }
  }

  /** The first accepted candidate, counted in steps of two. */
  lemma {:induction false} StepsOn(n: nat, s: nat) returns (j: nat)
    requires 10 <= n < WORD && Candidate(n, s)
    ensures NextAccepted(n, s) == s + 2 * j && s + 2 * j < n && Accepted(n, s + 2 * j)
    ensures forall i | 0 <= i < j :: !Accepted(n, s + 2 * i)
    decreases n - s
  {
    if Accepted(n, s) {
      j := 0;
    } else {
      NextIsCandidate(n, s);
      var k := StepsOn(n, s + 2);
      j := k + 1;
      forall i | 0 <= i < j
        ensures !Accepted(n, s + 2 * i)
      {
        if i > 0 {
          assert s + 2 * i == s + 2 + 2 * (i - 1);
        }
      }
    }
  }

  lemma AcceptedIff(n: nat, s: nat)
    requires 0 < s < n
    ensures Accepted(n, s) <==> !Rejected(n, s)
  {
    assert Fraction(n, 3) == n * 3 % WORD / 4 && Fraction(n, 4) == n * 4 % WORD / 5;
    assert Fraction(n, 5) == n * 5 % WORD / 6 && Fraction(n, 6) == n * 6 % WORD / 7;
    assert Fraction(n, 7) == n * 7 % WORD / 8 && Fraction(n, 8) == n * 8 % WORD / 9;
    if Forbidden(n, s) {
      var k :| 3 <= k < 9 && s == Fraction(n, k);
      assert k == 3 || k == 4 || k == 5 || k == 6 || k == 7 || k == 8;
    }
  }

  /** Below 2^29 no product wraps, so the fractions avoided are the real ones. */
  lemma FractionIsExact(n: nat, k: nat)
    requires n < 0x2000_0000 && 3 <= k < 9
    ensures Fraction(n, k) == n * k / (k + 1)
  {
    var p := n * k;
    MulMonotone(k, 8, n);
    assert p % WORD == p;
  }

  /** The candidate after p passes of the loop. */
  function After(n: nat, s: nat, p: nat): nat
    requires n > 0
    decreases p
  {
    if p == 0 then s else After(n, Pass(n, s), p - 1)
  }

  ghost predicate Ends(n: nat, s: nat)
    requires n > 0
  {
    exists p: nat :: Accepted(n, After(n, s, p))
  }

  /** The loop ends for every secondary hash exactly from size five on, except for six. */
  lemma {:induction false} SteppingTerminatesIff(n: Word)
    requires n > 0
    ensures (forall sec: Word, how: HashMethod :: Ends(n, Start(sec, n, how))) <==> n >= 5 && n != 6
  {
    if n >= 5 && n != 6 {
      forall sec: Word, how: HashMethod
        ensures Ends(n, Start(sec, n, how))
      {
        StartIsCandidate(sec, n, how);
        var p := PassesNeeded(n, Start(sec, n, how));
        assert Accepted(n, After(n, Start(sec, n, how), p));
      }
    } else {
      var sec: Word := 0;
      forall p: nat
        ensures !Accepted(n, After(n, Start(sec, n, Division), p))
      {
        NeverAccepted(n, Start(sec, n, Division), p);
      }
      assert !Ends(n, Start(sec, n, Division));
    }
  }

  lemma {:induction false} PassesNeeded(n: nat, s: nat) returns (p: nat)
    requires Steppable(n) && Candidate(n, s)
    ensures Accepted(n, After(n, s, p))
    decreases Rank(n, s)
  {
    if Accepted(n, s) {
      p := 0;
    } else {
      PassLeadsOn(n, s);
      var q := PassesNeeded(n, Pass(n, s));
      p := q + 1;
    }
  }

  /** The candidates the loop runs through for the sizes at which it never ends. */
  predicate Trapped(n: nat, s: nat) {
    (n == 1 && s in {0, 2}) || (n == 2 && s in {1, 3}) || (n == 3 && s in {1, 2, 3})
    || (n == 4 && s in {1, 3}) || (n == 6 && s in {1, 3, 5})
  }

  lemma {:induction false} NeverAccepted(n: nat, s: nat, p: nat)
    requires Trapped(n, s)
    ensures !Accepted(n, After(n, s, p))
    decreases p
  {
    TrapHolds(n, s);
    if p > 0 {
      NeverAccepted(n, Pass(n, s), p - 1);
    }
  }

  lemma TrapHolds(n: nat, s: nat)
    requires Trapped(n, s)
    ensures !Accepted(n, s) && Trapped(n, Pass(n, s))
  {
    TinyFractions();
  }

  lemma TinyFractions()
    ensures Fraction(1, 3) == 0 && Fraction(2, 3) == 1 && Fraction(3, 3) == 2 && Fraction(4, 3) == 3
            && Fraction(6, 5) == 5
  {
  }
}
