/** Small shared types and the rounding operations of the scripts, over real numbers. */
module Basics {

  datatype Option<+T> = None | Some(value: T)

  datatype Result<+T> = Success(value: T) | Thrown(message: string)

  /** Only lower-case hexadecimal digits. */
  predicate LowerHex(s: string) {
    forall i :: 0 <= i < |s| ==> '0' <= s[i] <= '9' || 'a' <= s[i] <= 'f'
  }

  function Larger(a: int, b: int): int {
    if a < b then b else a
  }

  /** All parts, one after another. */
  function Flatten<T>(parts: seq<seq<T>>): seq<T> {
    if parts == [] then [] else Flatten(parts[..|parts| - 1]) + parts[|parts| - 1]
  }

  lemma FlattenAppend<T>(parts: seq<seq<T>>, last: seq<T>)
    ensures Flatten(parts + [last]) == Flatten(parts) + last
  {
    assert (parts + [last])[..|parts|] == parts;
  }

  lemma {:induction false} FlattenJoin<T>(a: seq<seq<T>>, b: seq<seq<T>>)
    ensures Flatten(a + b) == Flatten(a) + Flatten(b)
    decreases |b|
  {
    if b == [] {
      assert a + b == a;
    } else {
      var shorter, last := b[..|b| - 1], b[|b| - 1];
      assert (a + b)[..|a + b| - 1] == a + shorter && (a + b)[|a + b| - 1] == last;
      FlattenJoin(a, shorter);
    }
  }

  function Floor(x: real): real {
    x.Floor as real
  }

  function Ceil(x: real): real {
    -Floor(-x)
  }

  function Min(a: real, b: real): real {
    if b < a then b else a
  }

  function Max(a: real, b: real): real {
    if a < b then b else a
  }

  /** Math.min(...values) */
  function Minimum(values: seq<real>): (r: real)
    requires values != []
    ensures r in values && forall i :: 0 <= i < |values| ==> r <= values[i]
  {
    if |values| == 1 then values[0] else Min(Minimum(values[..|values| - 1]), values[|values| - 1])
  }

  /** Math.max(...values) */
  function Maximum(values: seq<real>): (r: real)
    requires values != []
    ensures r in values && forall i :: 0 <= i < |values| ==> values[i] <= r
  {
    if |values| == 1 then values[0] else Max(Maximum(values[..|values| - 1]), values[|values| - 1])
  }

  lemma CeilBounds(x: real)
    ensures x <= Ceil(x) < x + 1.0
  {
  }

  lemma FloorMonotone(x: real, y: real)
    requires x <= y
    ensures x.Floor <= y.Floor
  {
    var m, n := x.Floor, y.Floor;
    assert m as real <= x && y < n as real + 1.0;
    assert m as real < (n + 1) as real;
  }

  lemma CeilMonotone(x: real, y: real)
    requires x <= y
    ensures Ceil(x) <= Ceil(y)
  {
    FloorMonotone(-y, -x);
    IntegerOrder((-y).Floor, (-x).Floor);
  }

  lemma IntegerOrder(m: int, n: int)
    requires m <= n
    ensures m as real <= n as real
  {
  }

  lemma ProductGrows(d: nat, q: int)
    ensures q >= 1 ==> d * q >= d
    ensures q <= 0 ==> d * q <= 0
    ensures q <= -1 ==> d * q <= 0 - d
  {
    if q >= 1 { assert d * q == d * (q - 1) + d; }
    if q <= -1 { assert d * q == d * (q + 1) - d; }
  }

  /** A multiple of a number that is smaller in size than that number is zero. */
  lemma SmallMultiple(count: nat, d: int, q: int)
    requires 0 - count < d < count && d == count * q
    ensures d == 0
  {
    ProductGrows(count, q);
  }

  /** Quotient and remainder are unique. */
  lemma QuotientUnique(total: int, n: nat, low: int, high: int)
    requires n >= 1 && total == n * low + high && 0 <= high < n
    ensures low == total / n && high == total % n
  {
    SameQuotient(n, low, high, total / n, total % n);
  }

  lemma SameQuotient(n: nat, low: int, high: int, q: int, r: int)
    requires n * low + high == n * q + r && 0 <= high < n && 0 <= r < n
    ensures low == q && high == r
  {
    assert n * (low - q) == r - high;
    ProductGrows(n, low - q);
  }
}
