/** The library sort that the scripts call on arrays, as a function, with the facts the other modules use. */
module Sorting {

  ghost predicate TotalPreorder<T(!new)>(leq: (T, T) -> bool) {
    && (forall x, y :: leq(x, y) || leq(y, x))
    && (forall x, y, z :: leq(x, y) && leq(y, z) ==> leq(x, z))
  }

  ghost predicate Sorted<T>(s: seq<T>, leq: (T, T) -> bool) {
    forall i, j :: 0 <= i < j < |s| ==> leq(s[i], s[j])
  }

  /** Places x before the first element it does not exceed. */
  function Insert<T>(x: T, s: seq<T>, leq: (T, T) -> bool): seq<T> {
    if s == [] then [x]
    else if leq(x, s[0]) then [x] + s
    else [s[0]] + Insert(x, s[1..], leq)
  }

  /** Stable ascending sort, as Array.prototype.sort is. */
  function Sort<T>(s: seq<T>, leq: (T, T) -> bool): seq<T> {
    if s == [] then [] else Insert(s[0], Sort(s[1..], leq), leq)
  }

  lemma {:induction false} InsertPermutes<T>(x: T, s: seq<T>, leq: (T, T) -> bool)
    ensures multiset(Insert(x, s, leq)) == multiset{x} + multiset(s)
  {
    if s != [] {
      assert s == [s[0]] + s[1..];
      InsertPermutes(x, s[1..], leq);
    }
  }

  lemma {:induction false} SortPermutes<T>(s: seq<T>, leq: (T, T) -> bool)
    ensures multiset(Sort(s, leq)) == multiset(s)
    ensures |Sort(s, leq)| == |s|
  {
    if s != [] {
      assert s == [s[0]] + s[1..];
      SortPermutes(s[1..], leq);
      InsertPermutes(s[0], Sort(s[1..], leq), leq);
      assert |multiset(Sort(s, leq))| == |multiset(s)|;
    }
  }

  lemma {:induction false} InsertSorts<T(!new)>(x: T, s: seq<T>, leq: (T, T) -> bool)
    requires TotalPreorder(leq) && Sorted(s, leq)
    ensures Sorted(Insert(x, s, leq), leq)
  {
    if s != [] && !leq(x, s[0]) {
      InsertSorts(x, s[1..], leq);
      InsertPermutes(x, s[1..], leq);
      var rest := Insert(x, s[1..], leq);
      forall j | 0 <= j < |rest| ensures leq(s[0], rest[j]) {
        assert rest[j] in multiset(rest);
      }
    }
  }

  lemma {:induction false} SortSorts<T(!new)>(s: seq<T>, leq: (T, T) -> bool)
    requires TotalPreorder(leq)
    ensures Sorted(Sort(s, leq), leq)
  {
    if s != [] {
      SortSorts(s[1..], leq);
      InsertSorts(s[0], Sort(s[1..], leq), leq);
    }
  }

  lemma SortedTail<T>(s: seq<T>, leq: (T, T) -> bool)
    requires s != [] && Sorted(s, leq)
    ensures Sorted(s[1..], leq)
  {
  }

  lemma SameFirst<T>(a: seq<T>, b: seq<T>, leq: (T, T) -> bool)
    requires a != [] && b != [] && Sorted(a, leq) && Sorted(b, leq)
    requires multiset(a) == multiset(b)
    requires forall x, y :: x in a && y in a && leq(x, y) && leq(y, x) ==> x == y
    ensures a[0] == b[0]
  {
    assert a[0] in multiset(b) && b[0] in multiset(a);
    var i :| 0 <= i < |b| && b[i] == a[0];
    var j :| 0 <= j < |a| && a[j] == b[0];
    if i > 0 && j > 0 { assert leq(b[0], b[i]) && leq(a[0], a[j]); }
  }

  /** Two sorted arrangements of the same elements coincide when no two different elements tie. */
  lemma {:induction false} SortedUnique<T>(a: seq<T>, b: seq<T>, leq: (T, T) -> bool)
    requires Sorted(a, leq) && Sorted(b, leq)
    requires multiset(a) == multiset(b)
    requires forall x, y :: x in a && y in a && leq(x, y) && leq(y, x) ==> x == y
    ensures a == b
  {
    assert |multiset(a)| == |a| && |multiset(b)| == |b|;
    if a != [] {
      SameFirst(a, b, leq);
      SortedTail(a, leq);
      SortedTail(b, leq);
      hide Sorted;
      assert a == [a[0]] + a[1..] && b == [b[0]] + b[1..];
      assert multiset(a[1..]) == multiset(a) - multiset{a[0]};
      assert multiset(b[1..]) == multiset(b) - multiset{b[0]};
      SortedUnique(a[1..], b[1..], leq);
    }
  }
}
