/** The little number theory that full probing rests on. */
module Numbers {
  function Gcd(a: nat, b: nat): nat
    decreases b
  {
    if b == 0 then a else Gcd(b, a % b)
  }

  predicate Prime(n: nat) {
    n >= 2 && forall d | 2 <= d < n :: n % d != 0
  }

  ghost predicate Multiple(x: int, n: int) {
    exists q: int :: x == q * n
  }

  lemma Distribute(a: int, b: int, n: int)
    ensures (a + b) * n == a * n + b * n
  {
  }

  lemma Associate(a: int, b: int, c: int)
    ensures a * (b * c) == (a * b) * c
  {
  }

  lemma AtLeast(d: int, n: int)
    requires d >= 1 && n >= 0
    ensures d * n >= n
  {
    Distribute(d - 1, 1, n);
  }

  /** Quotient and remainder are unique. */
  lemma ModUnique(x: int, n: int, q: int, r: int)
    requires 0 <= r < n && x == q * n + r
    ensures x % n == r
  {
    var q', r' := x / n, x % n;
    assert x == q' * n + r';
    Distribute(q - q', q', n);
    Distribute(q' - q, q, n);
    if q > q' {
      AtLeast(q - q', n);
    } else if q < q' {
      AtLeast(q' - q, n);
    }
  }

  lemma ModAdd(x: int, s: int, n: int)
    requires n > 0
    ensures (x % n + s) % n == (x + s) % n
  {
    var y := x % n + s;
    assert y == y / n * n + y % n;
    assert x == x / n * n + x % n;
    assert x + s == (x / n + y / n) * n + y % n;
    ModUnique(x + s, n, x / n + y / n, y % n);
  }

  /** Equal remainders differ by a multiple. */
  lemma SameRemainder(x: int, y: int, n: int)
    requires n > 0 && x % n == y % n
    ensures Multiple(x - y, n)
  {
    assert x == x / n * n + x % n;
    assert y == y / n * n + y % n;
    assert x - y == (x / n - y / n) * n;
  }

  lemma {:induction false} Bezout(a: nat, b: nat) returns (x: int, y: int)
    ensures a * x + b * y == Gcd(a, b)
    decreases b
  {
    if b == 0 {
      x, y := 1, 0;
    } else {
      var x', y' := Bezout(b, a % b);
      x, y := y', x' - a / b * y';
      assert a == a / b * b + a % b;
      calc {
        a * x + b * y;
        a * y' + b * x' - b * (a / b * y');
        { assert b * (a / b * y') == (a / b * b) * y'; }
        (a - a / b * b) * y' + b * x';
        (a % b) * y' + b * x';
      }
    }
  }

  lemma {:induction false} GcdDivides(a: nat, b: nat)
    requires a > 0 || b > 0
    ensures Gcd(a, b) > 0 && Multiple(a, Gcd(a, b)) && Multiple(b, Gcd(a, b))
    decreases b
  {
    if b == 0 {
      assert a == 1 * a && b == 0 * a;
    } else {
      var t, r := a / b, a % b;
      assert a == t * b + r;
      GcdDivides(b, r);
      var g := Gcd(b, r);
      var p :| b == p * g;
      var q :| r == q * g;
      Combine(a, t, b, r, p, q, g);
    }
  }

  lemma Combine(a: int, t: int, b: int, r: int, p: int, q: int, g: int)
    requires a == t * b + r && b == p * g && r == q * g
    ensures Multiple(a, g)
  {
    Associate(t, p, g);
    Distribute(t * p, q, g);
    assert a == (t * p + q) * g;
  }

  /** Every step below a prime size is coprime to it. */
  lemma PrimeIsCoprime(s: nat, n: nat)
    requires Prime(n) && 0 < s < n
    ensures Gcd(s, n) == 1
  {
    GcdDivides(s, n);
    var g := Gcd(s, n);
    var p :| s == p * g;
    var q :| n == q * g;
    assert p > 0;
    assert g <= s;
    if g != 1 {
      ModUnique(n, g, q, 0);
      assert false;
    }
  }

  /** Euclid: a factor coprime to n cancels. */
  lemma Cancel(i: int, s: nat, n: nat)
    requires n > 0 && Gcd(s, n) == 1 && Multiple(i * s, n)
    ensures Multiple(i, n)
  {
    var x, y := Bezout(s, n);
    var q :| i * s == q * n;
    assert i * (s * x + n * y) == i * 1;
    Distribute(s * x, n * y, i);
    Associate(i, s, x);
    Swap(q * n, x);
    Associate(x, q, n);
    Associate(i, y, n);
    Distribute(x * q, i * y, n);
    assert i == (x * q + i * y) * n;
  }

  lemma Swap(a: int, b: int)
    ensures a * b == b * a
  {
  }

  /** With step * u + n * v == 1, the residue i of e * u solves i * step == e modulo n. */
  lemma Solves(e: int, u: int, v: int, step: int, n: int, t: int, i: int)
    requires step * u + n * v == 1 && e * u == t * n + i
    ensures Multiple(i * step - e, n)
  {
    var q := -(e * v) - t * step;
    assert e * (step * u) == e - (e * v) * n by {
      Distribute(step * u, n * v, e);
      Swap(e, step * u);
      Swap(e, n * v);
      Swap(n, v);
      Associate(e, v, n);
    }
    assert (t * n + i) * step == e * (step * u) by {
      Swap(step, u);
      Associate(e, u, step);
    }
    assert (t * n) * step == (t * step) * n by {
      Associate(t, n, step);
      Swap(n, step);
      Associate(t, step, n);
    }
    Distribute(t * n, i, step);
    Distribute(-(e * v), -(t * step), n);
    assert i * step - e == q * n;
  }

  /** A multiple of n added to x < n leaves the residue x. */
  lemma ShiftedResidue(x: int, y: int, n: int)
    requires 0 <= x < n && Multiple(y - x, n)
    ensures y % n == x
  {
    var q :| y - x == q * n;
    ModUnique(y, n, q, x);
  }

  lemma NoSmallMultiple(d: int, n: int)
    requires 0 < d < n
    ensures !Multiple(d, n)
  {
    if Multiple(d, n) {
      var q :| d == q * n;
      ModUnique(d, n, q, 0);
      ModUnique(d, n, 0, d);
    }
  }

  lemma {:induction false} SubsetSize<T>(a: set<T>, b: set<T>)
    requires a <= b
    ensures |a| <= |b|
  {
    if a != {} {
      var x :| x in a;
      SubsetSize(a - {x}, b - {x});
    }
  }

  lemma SizeWith<A>(a: set<A>, x: A)
    ensures |a + {x}| == |a| + if x in a then 0 else 1
    ensures |a - {x}| == |a| - if x in a then 1 else 0
  {
    assert x in a ==> a + {x} == a;
    assert x !in a ==> a - {x} == a;
  }

  function Slots(n: nat): (r: set<nat>)
    ensures |r| == n && forall x :: x in r <==> 0 <= x < n
  {
    if n == 0 then {} else Slots(n - 1) + {n - 1}
  }
}
