/** The probe sequence of the open table. It depends on the table size, the base index and the
    step alone, never on what the table holds. */
module Probing {
  import opened Words
  import opened Numbers

  datatype Probe = Probe(pos: nat, step: nat)

  /** The loop's re-step once the sequence has come round to its base. */
  function Restep(n: nat, step: nat): nat {
    var wider := step + if step % 2 == 1 then 2 else 3;
    if wider >= n then 3 else wider
  }

  /** One hop, in 32-bit arithmetic. */
  function Hop(n: nat, pos: nat, step: nat): (p: nat)
    requires n > 0
    ensures p < n
  {
    (pos + step) % WORD % n
  }

  /** From probe i to probe i + 1. */
  function Advance(n: nat, base: nat, p: Probe, i: nat): (q: Probe)
    requires n > 0
    ensures q.pos < n
  {
    var pos := Hop(n, p.pos, p.step);
    if i + 1 < n && pos == base then
      var step := Restep(n, p.step);
      Probe(Hop(n, pos, step), step)
    else Probe(pos, p.step)
  }

  function ProbeAt(n: nat, base: nat, step: nat, i: nat): (p: Probe)
    requires base < n
    ensures p.pos < n
    decreases i
  {
    if i == 0 then Probe(base, step) else Advance(n, base, ProbeAt(n, base, step, i - 1), i - 1)
  }

  function At(n: nat, base: nat, step: nat, i: nat): (pos: nat)
    requires base < n
    ensures pos < n
  {
    ProbeAt(n, base, step, i).pos
  }

  /** The body of the probe loop: one hop, and the re-step if the stepping goes round. */
  method NextProbe(n: nat, base: nat, ghost step: nat, ghost i: nat, pos: nat, idxStep: nat, last: bool)
    returns (pos': nat, idxStep': nat)
    requires base < n && ProbeAt(n, base, step, i) == Probe(pos, idxStep) && (last <==> i + 1 >= n)
    ensures ProbeAt(n, base, step, i + 1) == Probe(pos', idxStep')
  {
    pos', idxStep' := Hop(n, pos, idxStep), idxStep;
    if !last && pos' == base {
      idxStep' := Restep(n, idxStep);
      pos' := Hop(n, pos', idxStep');
    }
  }

  /** The slots the n probes of a search visit. */
  ghost function Reach(n: nat, base: nat, step: nat): (r: set<nat>)
    requires base < n
    ensures forall i | 0 <= i < n :: At(n, base, step, i) in r
    ensures forall x | x in r :: x < n && exists i: nat :: i < n && At(n, base, step, i) == x
  {
    set i: nat | 0 <= i < n :: At(n, base, step, i)
  }

  /** After a round the step is the least odd number that is at least two more, or three if there is none below
      the size. */
  lemma RestepIs(n: nat, step: nat)
    ensures var r := Restep(n, step);
            && r % 2 == 1
            && (r == 3 || step + 2 <= r < n)
            && (forall odd: nat | odd % 2 == 1 && step + 2 <= odd < n :: r <= odd && step + 2 <= r)
  {
  }

  /** The path is arithmetic but for the rounds: a hop that comes back to the base before the last probe is
      followed by a hop with the next step, which is kept. */
  lemma NextHop(n: nat, base: nat, step: nat, i: nat)
    requires base < n <= HALF_WORD && ProbeAt(n, base, step, i).step < n
    ensures var p, q := ProbeAt(n, base, step, i), ProbeAt(n, base, step, i + 1);
            if (p.pos + p.step) % n == base && i + 1 < n
            then q.step == Restep(n, p.step) && (q.step < n ==> q.pos == (base + q.step) % n)
            else q == Probe((p.pos + p.step) % n, p.step)
  {
    hide Restep;
    var p := ProbeAt(n, base, step, i);
    HopIsSum(n, p.pos, p.step);
    if Restep(n, p.step) < n {
      HopIsSum(n, base, Restep(n, p.step));
    }
  }

  // ---- Coprime steps visit every slot exactly once.

  ghost predicate Coprime(n: nat, base: nat, step: nat) {
    base < n <= HALF_WORD && 0 < step < n && Gcd(step, n) == 1
  }

  lemma HopIsSum(n: nat, pos: nat, step: nat)
    requires pos < n <= HALF_WORD && step < n
    ensures Hop(n, pos, step) == (pos + step) % n
  {
  }

  /** Where the i-th probe lies if the steps just add up. */
  function Linear(n: nat, base: nat, step: nat, i: nat): (x: nat)
    requires n > 0
    ensures x < n
  {
    (base + i * step) % n
  }

  lemma LinearHop(n: nat, base: nat, step: nat, i: nat)
    requires n > 0
    ensures (Linear(n, base, step, i) + step) % n == Linear(n, base, step, i + 1)
  {
    ModAdd(base + i * step, step, n);
    Distribute(i, 1, step);
  }

  lemma LinearStart(n: nat, base: nat, step: nat)
    requires base < n
    ensures Linear(n, base, step, 0) == base
  {
    ModUnique(base, n, 0, base);
  }

  /** The wrap-around repair never fires: the i-th probe is base + i * step modulo the size. */
  lemma {:induction false} ProbesAreLinear(n: nat, base: nat, step: nat, i: nat)
    requires Coprime(n, base, step) && i <= n
    ensures ProbeAt(n, base, step, i) == Probe(Linear(n, base, step, i), step)
    decreases i
  {
    LinearStart(n, base, step);
    if i > 0 {
      ProbesAreLinear(n, base, step, i - 1);
      LinearHop(n, base, step, i - 1);
      HopIsSum(n, Linear(n, base, step, i - 1), step);
      if i < n {
        NotBackAtBase(n, base, step, 0, i);
      }
    }
  }

  lemma NotBackAtBase(n: nat, base: nat, step: nat, i: nat, j: nat)
    requires Coprime(n, base, step) && i < j < i + n
    ensures Linear(n, base, step, i) != Linear(n, base, step, j)
  {
    if Linear(n, base, step, i) == Linear(n, base, step, j) {
      SameRemainder(base + j * step, base + i * step, n);
      Distribute(j - i, i, step);
      Cancel(j - i, step, n);
      NoSmallMultiple(j - i, n);
    }
  }

  /** No two of the n probes hit the same slot. */
  lemma ProbesAreDistinct(n: nat, base: nat, step: nat, i: nat, j: nat)
    requires Coprime(n, base, step) && i < j < n
    ensures At(n, base, step, i) != At(n, base, step, j)
  {
    ProbesAreLinear(n, base, step, i);
    ProbesAreLinear(n, base, step, j);
    NotBackAtBase(n, base, step, i, j);
  }

  /** Full probing: the n probes visit all n slots. */
  lemma FullProbing(n: nat, base: nat, step: nat)
    requires Coprime(n, base, step)
    ensures Reach(n, base, step) == Slots(n)
    ensures |Reach(n, base, step)| == n
  {
    forall x: nat | x < n
      ensures x in Reach(n, base, step)
    {
      var i := IndexOf(n, base, step, x);
    }
    assert Reach(n, base, step) == Slots(n);
  }

  /** The probe that visits slot x: (x - base) / step in the residues modulo n. */
  lemma IndexOf(n: nat, base: nat, step: nat, x: nat) returns (i: nat)
    requires Coprime(n, base, step) && x < n
    ensures i < n && At(n, base, step, i) == x
  {
    i := Index(n, base, step, x);
    ProbesAreLinear(n, base, step, i);
  }

  lemma Index(n: nat, base: nat, step: nat, x: nat) returns (i: nat)
    requires 0 < n && Gcd(step, n) == 1 && x < n
    ensures i < n && Linear(n, base, step, i) == x
  {
    var u, v := Bezout(step, n);
    var d := (x - base) * u;
    i := d % n;
    assert d == d / n * n + i;
    Solves(x - base, u, v, step, n, d / n, i);
    ShiftedResidue(x, base + i * step, n);
  }

  // ---- When does a bound on the occupancy guarantee a free slot?

  /** However c slots are occupied, the search meets a free one. */
  ghost predicate AlwaysMeetsFree(n: nat, base: nat, step: nat, c: nat)
    requires base < n
  {
    forall occupied: set<nat> | |occupied| <= c :: exists i | 0 <= i < n :: At(n, base, step, i) !in occupied
  }

  /** A bound of c occupied slots guarantees a free slot exactly if the path visits more than c slots. */
  lemma FreeSlotIff(n: nat, base: nat, step: nat, c: nat)
    requires base < n
    ensures AlwaysMeetsFree(n, base, step, c) <==> |Reach(n, base, step)| > c
  {
    var r := Reach(n, base, step);
    if |r| > c {
      forall occupied: set<nat> | |occupied| <= c
        ensures exists i | 0 <= i < n :: At(n, base, step, i) !in occupied
      {
        FreeSlotOn(n, base, step, occupied);
      }
    } else {
      assert forall i | 0 <= i < n :: At(n, base, step, i) in r;
      assert |r| <= c;
    }
  }

  lemma FreeSlotOn(n: nat, base: nat, step: nat, occupied: set<nat>)
    requires base < n && |occupied| < |Reach(n, base, step)|
    ensures exists i | 0 <= i < n :: At(n, base, step, i) !in occupied
  {
    var r := Reach(n, base, step);
    if r <= occupied {
      SubsetSize(r, occupied);
      assert false;
    }
    var x :| x in r && x !in occupied;
  }

  // ---- Size 15, one growth by the default factor 1.5 from size 10.

  /** Step 6 is accepted for size 15 but shares the divisor 3 with it. The path comes round to its
      base after five probes, and the wider step 9 keeps to multiples of 3 until the next re-step. */
  const PATH_OF_FIFTEEN: seq<nat> := [0, 6, 12, 3, 9, 9, 3, 12, 6, 11, 7, 3, 14, 10, 6, 2]

  lemma ProbesOfFifteen(i: nat)
    requires i < 16
    ensures At(15, 0, 6, i) == PATH_OF_FIFTEEN[i]
  {
    assert ProbeAt(15, 0, 6, 0) == Probe(0, 6);
    assert ProbeAt(15, 0, 6, 1) == Probe(6, 6);
    assert ProbeAt(15, 0, 6, 2) == Probe(12, 6);
    assert ProbeAt(15, 0, 6, 3) == Probe(3, 6);
    assert ProbeAt(15, 0, 6, 4) == Probe(9, 6);
    assert ProbeAt(15, 0, 6, 5) == Probe(9, 9);
    assert ProbeAt(15, 0, 6, 6) == Probe(3, 9);
    assert ProbeAt(15, 0, 6, 7) == Probe(12, 9);
    assert ProbeAt(15, 0, 6, 8) == Probe(6, 9);
    assert ProbeAt(15, 0, 6, 9) == Probe(11, 11);
    assert ProbeAt(15, 0, 6, 10) == Probe(7, 11);
    assert ProbeAt(15, 0, 6, 11) == Probe(3, 11);
    assert ProbeAt(15, 0, 6, 12) == Probe(14, 11);
    assert ProbeAt(15, 0, 6, 13) == Probe(10, 11);
    assert ProbeAt(15, 0, 6, 14) == Probe(6, 11);
    assert ProbeAt(15, 0, 6, 15) == Probe(2, 11);
  }

  /** At load 0.8 the table holds up to twelve elements, but this path visits only 9 slots:
      the load bound does not guarantee that an insertion finds a free slot. */
  lemma LoadBoundIsNotEnough()
    ensures |Reach(15, 0, 6)| <= 9
    ensures !AlwaysMeetsFree(15, 0, 6, 12)
  {
    var visited: set<nat> := {0, 3, 6, 7, 9, 10, 11, 12, 14};
    forall x | x in Reach(15, 0, 6)
      ensures x in visited
    {
      var i: nat :| i < 15 && At(15, 0, 6, i) == x;
      ProbesOfFifteen(i);
    }
    SubsetSize(Reach(15, 0, 6), visited);
    FreeSlotIff(15, 0, 6, 12);
  }
}
