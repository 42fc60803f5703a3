/** The stride that scatters the generated rows: a step coprime to the row count visits every index once. */
module Coprime {
  import opened Basics

  /** Euclid's algorithm, as a recursion. */
  function Gcd(left: nat, right: nat): nat
    decreases right
  {
    if right == 0 then left else Gcd(right, left % right)
  }

  method GreatestCommonDivisor(left: nat, right: nat) returns (gcd: nat)
    ensures gcd == Gcd(left, right)
  {
    var l, r := left, right;
    while r != 0
      invariant Gcd(l, r) == Gcd(left, right)
      decreases r
    {
      l, r := r, l % r;
    }
    gcd := l;
  }

  ghost predicate Divides(d: int, a: int) {
    exists q: int :: Product(d, q) == a
  }

  ghost function Product(d: int, q: int): int {
    d * q
  }

  lemma DividesCombination(d: int, a: int, b: int, x: int, y: int)
    requires Divides(d, a) && Divides(d, b)
    ensures Divides(d, a * x + b * y)
  {
    var p :| Product(d, p) == a;
    var q :| Product(d, q) == b;
    calc {
      Product(d, p * x + q * y);
      d * (p * x) + d * (q * y);
      (d * p) * x + (d * q) * y;
      a * x + b * y;
    }
  }

  /** Bezout: the greatest common divisor is an integer combination of the two numbers. */
  lemma {:induction false} Bezout(a: nat, b: nat) returns (x: int, y: int)
    ensures a * x + b * y == Gcd(a, b)
    decreases b
  {
    if b == 0 {
      x, y := 1, 0;
    } else {
      var u, v := Bezout(b, a % b);
      x, y := v, u - (a / b) * v;
      BezoutStep(a, b, a / b, a % b, u, v);
    }
  }

  lemma BezoutStep(a: int, b: int, q: int, r: int, u: int, v: int)
    requires a == b * q + r
    ensures a * v + b * (u - q * v) == b * u + r * v
  {
    assert b * (u - q * v) == b * u - b * (q * v);
    assert b * (q * v) == (b * q) * v;
    assert a * v == (b * q) * v + r * v;
  }

  /** Euclid's result divides both numbers, and every common divisor divides it. */
  lemma {:induction false} GcdDivides(a: nat, b: nat)
    ensures Divides(Gcd(a, b), a) && Divides(Gcd(a, b), b)
    decreases b
  {
    if b == 0 {
      assert Product(a, 1) == a && Product(a, 0) == 0;
    } else {
      GcdDivides(b, a % b);
      DividesCombination(Gcd(a, b), b, a % b, a / b, 1);
      assert b * (a / b) + (a % b) * 1 == a;
    }
  }

  lemma GcdGreatest(a: nat, b: nat, d: nat)
    requires Divides(d, a) && Divides(d, b)
    ensures Divides(d, Gcd(a, b))
  {
    var x, y := Bezout(a, b);
    DividesCombination(d, a, b, x, y);
  }

  lemma CommonDivisorOfOne(d: nat)
    requires Divides(d, 1)
    ensures d == 1
  {
    var q :| Product(d, q) == 1;
    ProductGrows(d, q);
  }

  /** Coprime when an integer combination gives one. */
  lemma CoprimeByCombination(a: nat, b: nat, x: int, y: int)
    requires a * x + b * y == 1
    ensures Gcd(a, b) == 1
  {
    GcdDivides(a, b);
    DividesCombination(Gcd(a, b), a, b, x, y);
    CommonDivisorOfOne(Gcd(a, b));
  }

  const WORD := 0x1_0000_0000

  /** The signed 32-bit integer that a bitwise operator makes of a number. */
  function ToInt32(x: nat): int {
    if x % WORD < WORD / 2 then x % WORD else x % WORD - WORD
  }

  /** x | 1: sets the low bit of a two's complement integer. */
  function WithLowBit(x: int): int {
    if x % 2 == 1 then x else x + 1
  }

  /** Math.max(1, Math.floor(modulus / 2) | 1); the bitwise operator sees only 32 bits of the half. */
  function FirstCandidate(modulus: nat): nat {
    Larger(1, WithLowBit(ToInt32(modulus / 2)))
  }

  /** The first candidate is the odd one of the half and its successor, as far as the half's low 32 bits are a positive
      signed integer, and 1 otherwise. */
  lemma FirstCandidateOdd(modulus: nat)
    ensures FirstCandidate(modulus) % 2 == 1 && FirstCandidate(modulus) <= modulus / 2 + 1
    ensures var low := (modulus / 2) % 0x1_0000_0000;
            if low < 0x8000_0000 then low <= FirstCandidate(modulus) <= low + 1 else FirstCandidate(modulus) == 1
    ensures modulus < WORD ==> modulus / 2 <= FirstCandidate(modulus) == WithLowBit(modulus / 2)
  {
  }

  lemma EvenHalfIdentity(k: nat)
    ensures (2 * k + 1) * (2 * k + 1) + (4 * k) * (-(k + 1)) == 1
  {
    assert (2 * k + 1) * (2 * k + 1) == (2 * k) * (2 * k) + 4 * k + 1;
    assert (2 * k) * (2 * k) == 4 * (k * k);
    assert (4 * k) * (-(k + 1)) == -(4 * (k * k)) - 4 * k;
  }

  lemma OddHalfIdentity(k: nat)
    ensures (2 * k + 3) * (2 * (k * k) + 2 * k + 1) + (4 * k + 2) * (-(k * k + 2 * k + 1)) == 1
  {
    var kk := k * k;
    var kkk := k * kk;
    assert (2 * k + 3) * (2 * kk + 2 * k + 1) == 4 * kkk + 10 * kk + 8 * k + 3 by {
      assert (2 * k) * (2 * kk + 2 * k + 1) == (2 * k) * (2 * kk) + (2 * k) * (2 * k) + 2 * k;
      assert (2 * k) * (2 * kk) == 4 * kkk;
      assert (2 * k) * (2 * k) == 4 * kk;
    }
    assert (4 * k + 2) * (kk + 2 * k + 1) == 4 * kkk + 10 * kk + 8 * k + 2 by {
      assert (4 * k) * (kk + 2 * k + 1) == (4 * k) * kk + (4 * k) * (2 * k) + 4 * k;
      assert (4 * k) * kk == 4 * kkk;
      assert (4 * k) * (2 * k) == 8 * kk;
    }
    assert (4 * k + 2) * (-(kk + 2 * k + 1)) == -((4 * k + 2) * (kk + 2 * k + 1));
  }

  /** Below 2^32 one of the first two candidates is coprime to the modulus, so the search ends after at most one step. */
  lemma EarlyCandidateCoprime(modulus: nat)
    requires 1 <= modulus < WORD
    ensures Gcd(FirstCandidate(modulus), modulus) == 1
         || (FirstCandidate(modulus) == modulus / 2 && Gcd(FirstCandidate(modulus) + 2, modulus) == 1)
  {
    var half, first := modulus / 2, FirstCandidate(modulus);
    var k := half / 2;
    if modulus % 2 == 1 {
      CoprimeByCombination(first, modulus, if half % 2 == 1 then -2 else 2, if half % 2 == 1 then 1 else -1);
    } else if half % 2 == 0 {
      EvenHalfIdentity(k);
      assert first == 2 * k + 1 && modulus == 4 * k;
      CoprimeByCombination(first, modulus, 2 * k + 1, -(k + 1));
    } else {
      OddHalfIdentity(k);
      assert first + 2 == 2 * k + 3 && modulus == 4 * k + 2;
      CoprimeByCombination(first + 2, modulus, 2 * (k * k) + 2 * k + 1, -(k * k + 2 * k + 1));
    }
  }

  /** Twice the modulus plus one is odd and coprime to it, so the search cannot pass it. */
  lemma LastCandidateCoprime(modulus: nat)
    requires modulus >= 1
    ensures Gcd(2 * modulus + 1, modulus) == 1
  {
    CoprimeByCombination(2 * modulus + 1, modulus, 1, -2);
  }

  /** Terminates for every positive modulus with the first odd number from the first candidate on that is coprime to it;
      below 2^32 the step is at most two above half the modulus. */
  method CoprimeStep(modulus: nat) returns (candidate: nat)
    requires modulus >= 1
    ensures Gcd(candidate, modulus) == 1
    ensures 1 <= candidate <= 2 * modulus + 1
    ensures FirstCandidate(modulus) <= candidate && candidate % 2 == 1
    ensures forall c: nat :: FirstCandidate(modulus) <= c < candidate && c % 2 == 1 ==> Gcd(c, modulus) != 1
    ensures modulus < WORD ==> candidate <= modulus / 2 + 2
  {
    hide Gcd;
    candidate := FirstCandidate(modulus);
    FirstCandidateOdd(modulus);
    LastCandidateCoprime(modulus);
    if modulus < WORD { EarlyCandidateCoprime(modulus); }
    hide FirstCandidate;
    var gcd := GreatestCommonDivisor(candidate, modulus);
    while gcd != 1
      invariant gcd == Gcd(candidate, modulus)
      invariant candidate % 2 == 1 && 1 <= FirstCandidate(modulus) <= candidate <= 2 * modulus + 1
      invariant forall c: nat :: FirstCandidate(modulus) <= c < candidate && c % 2 == 1 ==> Gcd(c, modulus) != 1
      invariant modulus < WORD ==>
                  || candidate == FirstCandidate(modulus)
                  || (candidate == FirstCandidate(modulus) + 2 == modulus / 2 + 2 && gcd == 1)
      decreases 2 * modulus + 1 - candidate
    {
      candidate := candidate + 2;
      gcd := GreatestCommonDivisor(candidate, modulus);
    }
  }

  /** The index that the i-th generated row stands for. */
  function Canonical(i: nat, step: nat, count: nat): nat
    requires count >= 1
  {
    Times(i, step) % count
  }

  function Times(i: nat, step: nat): nat {
    i * step
  }

  /** Different positions stand for different indexes. */
  lemma CanonicalInjective(i: nat, j: nat, step: nat, count: nat)
    requires count >= 1 && Gcd(step, count) == 1
    requires i < count && j < count
    requires Canonical(i, step, count) == Canonical(j, step, count)
    ensures i == j
  {
    var q := SameRemainder(Times(i, step), Times(j, step), count);
    Distribute(i, j, step);
    CoprimeCancels(i - j, step, count, q);
  }

  lemma Distribute(i: nat, j: nat, step: nat)
    ensures (i - j) * step == Times(i, step) - Times(j, step)
  {
  }

  lemma SameRemainder(a: nat, b: nat, count: nat) returns (q: int)
    requires count >= 1 && a % count == b % count
    ensures a - b == count * q
  {
    Difference(a, b, count, a / count, b / count);
    q := a / count - b / count;
  }

  lemma Difference(a: int, b: int, count: nat, p: int, q: int)
    requires a - count * p == b - count * q
    ensures a - b == count * (p - q)
  {
    assert count * (p - q) == count * p - count * q;
  }

  /** A number smaller in size than the count, whose product with a coprime step is a multiple of it, is zero. */
  lemma CoprimeCancels(d: int, step: nat, count: nat, q: int)
    requires Gcd(step, count) == 1 && 0 - count < d < count
    requires d * step == count * q
    ensures d == 0
  {
    var x, y := Bezout(step, count);
    Regroup(d, step, x, count, y, q);
    SmallMultiple(count, d, q * x + d * y);
  }

  lemma Regroup(d: int, step: int, x: int, count: int, y: int, q: int)
    requires step * x + count * y == 1 && d * step == count * q
    ensures d == count * (q * x + d * y)
  {
    assert d * (step * x) == (d * step) * x;
    assert (count * q) * x == count * (q * x);
    assert d * (count * y) == count * (d * y);
    assert d == d * (step * x + count * y);
    assert d * (step * x + count * y) == d * (step * x) + d * (count * y);
    assert count * (q * x + d * y) == count * (q * x) + count * (d * y);
  }

  predicate Below(k: nat, n: nat) {
    k < n
  }

  ghost function Indexes(n: nat): set<nat> {
    set k: nat | k < n && Below(k, n)
  }

  ghost function Visited(n: nat, step: nat, count: nat): set<nat>
    requires count >= 1
  {
    set i: nat | i < n :: Canonical(i, step, count)
  }

  lemma {:induction false} IndexesSize(n: nat)
    ensures |Indexes(n)| == n
  {
    if n == 0 {
      assert Indexes(0) == {};
    } else {
      IndexesSize(n - 1);
      assert Indexes(n) == Indexes(n - 1) + {n - 1};
    }
  }

  lemma {:induction false} VisitedSize(n: nat, step: nat, count: nat)
    requires count >= 1 && n <= count && Gcd(step, count) == 1
    ensures |Visited(n, step, count)| == n
  {
    hide Canonical, Gcd;
    if n == 0 {
      assert Visited(0, step, count) == {};
    } else {
      VisitedSize(n - 1, step, count);
      var c := Canonical(n - 1, step, count);
      assert Visited(n, step, count) == Visited(n - 1, step, count) + {c};
      if c in Visited(n - 1, step, count) {
        var i: nat :| i < n - 1 && Canonical(i, step, count) == c;
        CanonicalInjective(i, n - 1, step, count);
      }
    }
  }

  /** A coprime step visits exactly the indexes below the count, each once. */
  lemma VisitsEveryIndex(step: nat, count: nat)
    requires count >= 1 && Gcd(step, count) == 1
    ensures Visited(count, step, count) == Indexes(count)
    ensures forall i: nat, j: nat :: i < count && j < count && Canonical(i, step, count) == Canonical(j, step, count)
              ==> i == j
  {
    VisitedSize(count, step, count);
    IndexesSize(count);
    hide Gcd;
    var visited, all := Visited(count, step, count), Indexes(count);
    assert visited <= all;
    assert all == visited + (all - visited);
    assert |all| == |visited| + |all - visited|;
    forall i: nat, j: nat | i < count && j < count && Canonical(i, step, count) == Canonical(j, step, count)
      ensures i == j
    {
      CanonicalInjective(i, j, step, count);
    }
  }
}
