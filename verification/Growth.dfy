/** VTHashBase: when an insertion makes a table grow, and to what size. */
module Growth {
  /** What an automatic growth asks for. */
  function GrownSize(size: nat, factor: real): int {
    (size as real * factor).Floor
  }

  /** Whether so many elements overload a table of the size. */
  predicate Overloads(count: int, size: nat, maxLoad: real) {
    size > 0 && count as real / size as real > maxLoad
  }

  /** The size the table has after an insertion that leaves it with count elements. */
  function NextSize(count: int, size: nat, maxLoad: real, growth: real): int {
    if Overloads(count, size, maxLoad) && GrownSize(size, growth) > size then GrownSize(size, growth) else size
  }

  /** The size asked for is the whole part of the product. */
  lemma GrownSizeIs(size: nat, factor: real, target: int)
    ensures GrownSize(size, factor) == target <==>
              target as real <= size as real * factor < target as real + 1.0
  {
  }

  // ---- The default factors of the two tables keep the load bound.

  const OPEN_MAX_LOAD: real := 0.8
  const OPEN_GROWTH: real := 1.5
  const CHAIN_MAX_LOAD: real := 3.0
  const CHAIN_GROWTH: real := 1.25

  /** What the default factors make of a size. */
  lemma DefaultGrowth(size: nat)
    ensures GrownSize(size, OPEN_GROWTH) == size * 3 / 2 && GrownSize(size, CHAIN_GROWTH) == size * 5 / 4
  {
    var t, u := size * 3 / 2, size * 5 / 4;
    assert 2 * t <= 3 * size < 2 * t + 2 && 4 * u <= 5 * size < 4 * u + 4;
    GrownSizeIs(size, OPEN_GROWTH, t);
    GrownSizeIs(size, CHAIN_GROWTH, u);
  }

  /** The default table of 100 slots grows to 150 with the 81st element, and not before. */
  lemma FirstGrowth(count: nat)
    requires count <= 81
    ensures NextSize(count, 100, OPEN_MAX_LOAD, OPEN_GROWTH) == if count == 81 then 150 else 100
  {
    LoadIsProduct(count, 100, OPEN_MAX_LOAD);
    DefaultGrowth(100);
  }

  /** In an open table the load bound survives every insertion, so that a free slot is left for the
      next one. */
  lemma OpenLoadBoundKept(count: nat, size: nat)
    requires size >= 4 && !Overloads(count, size, OPEN_MAX_LOAD)
    ensures var next := NextSize(count + 1, size, OPEN_MAX_LOAD, OPEN_GROWTH);
            next >= size && !Overloads(count + 1, next, OPEN_MAX_LOAD) && count + 1 < next
  {
    assert GrownSize(size, OPEN_GROWTH) == size * 3 / 2;
    LoadIsProduct(count, size, OPEN_MAX_LOAD);
    LoadIsProduct(count + 1, size, OPEN_MAX_LOAD);
    LoadIsProduct(count + 1, size * 3 / 2, OPEN_MAX_LOAD);
  }

  /** A table of fewer slots than this does not grow: a quarter of its size is not a slot. */
  lemma ChainLoadBoundKept(count: nat, size: nat)
    requires size >= 4 && !Overloads(count, size, CHAIN_MAX_LOAD)
    ensures var next := NextSize(count + 1, size, CHAIN_MAX_LOAD, CHAIN_GROWTH);
            next >= size && !Overloads(count + 1, next, CHAIN_MAX_LOAD)
  {
    assert GrownSize(size, CHAIN_GROWTH) == size * 5 / 4;
    LoadIsProduct(count, size, CHAIN_MAX_LOAD);
    LoadIsProduct(count + 1, size, CHAIN_MAX_LOAD);
    LoadIsProduct(count + 1, size * 5 / 4, CHAIN_MAX_LOAD);
  }

  /** With the default factors a chained hash of fewer than 2^32 elements can always grow when it has to:
      the size it grows to stays below 2^31. */
  lemma ChainGrowthFits(count: nat, size: nat)
    requires Overloads(count, size, CHAIN_MAX_LOAD) && count < 0x1_0000_0000
    ensures 0 <= GrownSize(size, CHAIN_GROWTH) < 0x8000_0000
  {
    assert GrownSize(size, CHAIN_GROWTH) == size * 5 / 4;
    LoadIsProduct(count, size, CHAIN_MAX_LOAD);
  }

  lemma LoadIsProduct(count: nat, size: nat, maxLoad: real)
    requires size > 0
    ensures Overloads(count, size, maxLoad) <==> count as real > maxLoad * size as real
  {
    var c, n := count as real, size as real;
    Quotient(c, n);
    if c / n > maxLoad {
      ScaledUp(maxLoad, c / n, n);
    } else if c / n < maxLoad {
      ScaledUp(c / n, maxLoad, n);
    }
  }

  lemma Quotient(c: real, n: real)
    requires n > 0.0
    ensures c / n * n == c
  {
  }

  lemma ScaledUp(a: real, b: real, d: real)
    requires a < b && d > 0.0
    ensures a * d < b * d
  {
  }
}
