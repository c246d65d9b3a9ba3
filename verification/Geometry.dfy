/** The probe sequences the open hash really uses: double hashing over the primary hash of the key. */
module Geometry {
  import opened Words
  import opened Numbers
  import opened Stepping
  import opened Probing
  import opened OpenTable

  function ProbeOf(hash: Word, sec: Word, n: Word, how: HashMethod, i: nat): nat {
    if Steppable(n) then At(n, Scaled(hash, n), Step(sec, n, how), i) else 0
  }

  function LayoutOf<K>(hash: K -> Word, sec: Word -> Word, n: Word, how: HashMethod): Layout<K> {
    Layout(n, (k: K, i: nat) => ProbeOf(hash(k), sec(hash(k)), n, how, i))
  }

  lemma PathIsProbe<K>(hash: K -> Word, sec: Word -> Word, n: Word, how: HashMethod, k: K, i: nat)
    requires Steppable(n)
    ensures LayoutOf(hash, sec, n, how).Path(k, i) == At(n, Scaled(hash(k), n), Step(sec(hash(k)), n, how), i)
  {
  }

  /** The first probe is at the scaled fraction of the primary hash. */
  lemma BaseIs<K>(hash: K -> Word, sec: Word -> Word, n: Word, how: HashMethod, k: K, base: nat)
    requires Steppable(n)
    ensures LayoutOf(hash, sec, n, how).Path(k, 0) == base <==> IsScaled(hash(k), n, base)
  {
    PathIsProbe(hash, sec, n, how, k, 0);
    ScaledIff(hash(k), n, base);
  }

  /** For prime sizes from eleven on every search probes all slots, each once:
      there is room as long as a single slot is free. */
  lemma PrimeSizes<K>(hash: K -> Word, sec: Word -> Word, n: Word, how: HashMethod, k: K)
    requires Prime(n) && 11 <= n <= HALF_WORD
    ensures var l := LayoutOf(hash, sec, n, how);
            l.Valid() && l.Distinct(k) && |l.Visited(k)| == n
  {
    var l := LayoutOf(hash, sec, n, how);
    var base, step := Scaled(hash(k), n), Step(sec(hash(k)), n, how);
    StepProperties(sec(hash(k)), n, how);
    PrimeIsCoprime(step, n);
    forall i: nat
      ensures l.Path(k, i) == At(n, base, step, i)
    {
      PathIsProbe(hash, sec, n, how, k, i);
    }
    forall i, j | 0 <= i < j < n
      ensures l.Path(k, i) != l.Path(k, j)
    {
      ProbesAreDistinct(n, base, step, i, j);
    }
    FullProbing(n, base, step);
    assert l.Visited(k) == Reach(n, base, step);
  }

  lemma PrimeIsRoomy<K(!new)>(hash: K -> Word, sec: Word -> Word, n: Word, how: HashMethod, c: nat)
    requires Prime(n) && 11 <= n <= HALF_WORD && c < n
    ensures Roomy(LayoutOf(hash, sec, n, how), c)
  {
    forall k: K
      ensures |LayoutOf(hash, sec, n, how).Visited(k)| > c
    {
      PrimeSizes(hash, sec, n, how, k);
    }
  }

  // ---- A new table of size 15, with hashes that lead to base 0 and step 6

  const ZERO_HASH: nat -> Word := key => 0
  const SIX: Word -> Word := h => 6

  lemma StepSixOfFifteen()
    ensures Step(6, 15, Division) == 6
  {
    forall k | 3 <= k < 9
      ensures Fraction(15, k) >= 11
    {
      assert 15 * k <= 120;
      QuotientAtLeast(15 * k, k + 1, 11);
    }
    assert Accepted(15, 6);
    assert Start(6, 15, Division) == 6;
  }

  /** The load bound leaves no room there: some search visits no more than nine slots, while up to
      twelve may be taken. */
  lemma FifteenIsNotRoomy()
    ensures !Roomy(LayoutOf(ZERO_HASH, SIX, 15, Division), 12)
  {
    hide Step, At, Reach, AlwaysMeetsFree;
    var l := LayoutOf(ZERO_HASH, SIX, 15, Division);
    StepSixOfFifteen();
    forall i: nat
      ensures l.Path(0, i) == At(15, 0, 6, i)
    {
      PathIsProbe(ZERO_HASH, SIX, 15, Division, 0, i);
    }
    VisitedIsReach(l, 0, 0, 6);
    LoadBoundIsNotEnough();
  }

  lemma VisitedIsReach<K>(l: Layout<K>, key: K, base: nat, step: nat)
    requires l.Valid() && base < l.size && forall i: nat :: l.Path(key, i) == At(l.size, base, step, i)
    ensures l.Visited(key) == Reach(l.size, base, step)
  {
  }

  /** For a prime size the probe after the last is back at the base. */
  lemma BackAtBase<K>(hash: K -> Word, sec: Word -> Word, n: Word, how: HashMethod, k: K)
    requires Prime(n) && 11 <= n <= HALF_WORD
    ensures LayoutOf(hash, sec, n, how).Path(k, n) == Scaled(hash(k), n)
  {
    var base, step := Scaled(hash(k), n), Step(sec(hash(k)), n, how);
    StepProperties(sec(hash(k)), n, how);
    PrimeIsCoprime(step, n);
    ProbesAreLinear(n, base, step, n);
    Swap(n, step);
    ModUnique(base + n * step, n, step, base);
    PathIsProbe(hash, sec, n, how, k, n);
  }
}
