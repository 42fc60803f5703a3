/** Classification of a primary query's parity between an incremental and a same-overlay snapshot. */
module QueryParity {
  import opened Sorting
  import Text

  datatype Node = Node(id: string, contentHash: string, score: real, payload: string)

  /** A node without its content hash. */
  datatype PlainNode = PlainNode(id: string, score: real, payload: string)

  datatype ScorelessNode = ScorelessNode(id: string, payload: string)

  datatype Edge = Edge(id: string, payload: string)

  datatype QueryResult = QueryResult(
    nodes: seq<Node>, edges: seq<Edge>, operation: string, elapsedTimePartial: bool)

  /** What a digest is taken of. The digest itself is injective, so digests are equal exactly when documents are. */
  datatype Document =
    | Structure(edges: seq<Edge>, nodes: seq<PlainNode>, operation: string)
    | Scoreless(edges: seq<Edge>, scorelessNodes: seq<ScorelessNode>, operation: string)
    | Identities(ids: seq<string>)

  datatype Evidence = Evidence(
    ordered: Document, canonical: Document, scoreless: Document, nodeIds: Document, edgeIds: Document,
    elapsedTimePartial: bool)

  datatype Classification =
    | OrderedMatch | ElapsedTimePartial | OrderingOnly | ScoreOnly | PayloadDrift | MembershipDrift

  function Map<A, B>(f: A -> B, s: seq<A>): seq<B> {
    if s == [] then [] else [f(s[0])] + Map(f, s[1..])
  }

  function Plain(n: Node): PlainNode {
    PlainNode(n.id, n.score, n.payload)
  }

  function WithoutScore(n: PlainNode): ScorelessNode {
    ScorelessNode(n.id, n.payload)
  }

  function NodeId(n: PlainNode): string { n.id }

  function EdgeId(e: Edge): string { e.id }

  predicate NodeLeq(a: PlainNode, b: PlainNode) { Text.Leq(a.id, b.id) }

  predicate ScorelessLeq(a: ScorelessNode, b: ScorelessNode) { Text.Leq(a.id, b.id) }

  predicate EdgeLeq(a: Edge, b: Edge) { Text.Leq(a.id, b.id) }

  predicate IdLeq(a: string, b: string) { Text.Leq(a, b) }

  function PlainNodes(r: QueryResult): seq<PlainNode> {
    Map(Plain, r.nodes)
  }

  function DigestEvidence(r: QueryResult): Evidence {
    var nodes := PlainNodes(r);
    var canonicalNodes, canonicalEdges := Sort(nodes, NodeLeq), Sort(r.edges, EdgeLeq);
    Evidence(
      Structure(r.edges, nodes, r.operation),
      Structure(canonicalEdges, canonicalNodes, r.operation),
      Scoreless(canonicalEdges, Map(WithoutScore, canonicalNodes), r.operation),
      Identities(Map(NodeId, canonicalNodes)),
      Identities(Map(EdgeId, canonicalEdges)),
      r.elapsedTimePartial)
  }

  function Classify(incremental: QueryResult, reference: QueryResult): Classification {
    var i, r := DigestEvidence(incremental), DigestEvidence(reference);
    if i.ordered == r.ordered then OrderedMatch
    else if i.elapsedTimePartial || r.elapsedTimePartial then ElapsedTimePartial
    else if i.canonical == r.canonical then OrderingOnly
    else if i.scoreless == r.scoreless then ScoreOnly
    else if i.nodeIds == r.nodeIds && i.edgeIds == r.edgeIds then PayloadDrift
    else MembershipDrift
  }

  // ----- What the results share, said without sorting -----

  /** Items that share an id are equal: an id may be repeated, but never for two different items. */
  predicate Identified<T(==)>(s: seq<T>, id: T -> string) {
    forall i, j :: 0 <= i < |s| && 0 <= j < |s| && id(s[i]) == id(s[j]) ==> s[i] == s[j]
  }

  /** Nodes that share an id are equal apart from their content hash, and edges that share an id are equal. */
  predicate ConsistentIds(r: QueryResult) {
    Identified(PlainNodes(r), NodeId) && Identified(r.edges, EdgeId)
  }

  /** The same edges, nodes and operation, in the same order; content hashes do not count. */
  predicate SameOrdered(a: QueryResult, b: QueryResult) {
    a.edges == b.edges && PlainNodes(a) == PlainNodes(b) && a.operation == b.operation
  }

  /** Permutations of each other. */
  predicate Permuted(a: QueryResult, b: QueryResult) {
    && multiset(a.edges) == multiset(b.edges)
    && multiset(PlainNodes(a)) == multiset(PlainNodes(b))
    && a.operation == b.operation
  }

  /** Permutations of each other once scores are dropped. */
  predicate PermutedWithoutScores(a: QueryResult, b: QueryResult) {
    && multiset(a.edges) == multiset(b.edges)
    && multiset(Map(WithoutScore, PlainNodes(a))) == multiset(Map(WithoutScore, PlainNodes(b)))
    && a.operation == b.operation
  }

  /** The same node and edge ids. */
  predicate SameMembers(a: QueryResult, b: QueryResult) {
    && multiset(Map(NodeId, PlainNodes(a))) == multiset(Map(NodeId, PlainNodes(b)))
    && multiset(Map(EdgeId, a.edges)) == multiset(Map(EdgeId, b.edges))
  }

  /** What the relations drop: two nodes look alike exactly when they agree in id, score and payload, without scores when
      they agree in id and payload, and by identity when they agree in id. */
  lemma WhatIsDropped()
    ensures forall x: Node, y: Node :: Plain(x) == Plain(y) <==> x.id == y.id && x.score == y.score && x.payload == y.payload
    ensures forall x: Node, y: Node ::
              WithoutScore(Plain(x)) == WithoutScore(Plain(y)) <==> x.id == y.id && x.payload == y.payload
    ensures forall x: Node, y: Node :: NodeId(Plain(x)) == NodeId(Plain(y)) <==> x.id == y.id
    ensures forall x: Edge, y: Edge :: EdgeId(x) == EdgeId(y) <==> x.id == y.id
  {
  }

  /** The ordered relation, index by index on the nodes as returned. */
  lemma SameOrderedNodes(a: QueryResult, b: QueryResult)
    ensures SameOrdered(a, b) <==>
              && a.edges == b.edges && a.operation == b.operation && |a.nodes| == |b.nodes|
              && forall i :: 0 <= i < |a.nodes| ==>
                   && a.nodes[i].id == b.nodes[i].id && a.nodes[i].score == b.nodes[i].score
                   && a.nodes[i].payload == b.nodes[i].payload
  {
    MapMembers(Plain, a.nodes);
    MapMembers(Plain, b.nodes);
    hide Map;
    if |a.nodes| == |b.nodes|
       && forall i :: 0 <= i < |a.nodes| ==>
            && a.nodes[i].id == b.nodes[i].id && a.nodes[i].score == b.nodes[i].score
            && a.nodes[i].payload == b.nodes[i].payload
    {
      assert forall i :: 0 <= i < |a.nodes| ==> PlainNodes(a)[i] == PlainNodes(b)[i];
    }
    if PlainNodes(a) == PlainNodes(b) {
      assert forall i :: 0 <= i < |a.nodes| ==> Plain(a.nodes[i]) == PlainNodes(b)[i];
    }
  }

  /** How many nodes agree with this one in id, score and payload. */
  ghost function Alike(nodes: seq<Node>, node: Node): nat {
    if nodes == [] then 0
    else
      (if nodes[0].id == node.id && nodes[0].score == node.score && nodes[0].payload == node.payload then 1 else 0)
      + Alike(nodes[1..], node)
  }

  lemma {:induction false} AlikeCounts(nodes: seq<Node>, node: Node)
    ensures multiset(Map(Plain, nodes))[Plain(node)] == Alike(nodes, node)
  {
    if nodes != [] {
      AlikeCounts(nodes[1..], node);
      assert Map(Plain, nodes) == [Plain(nodes[0])] + Map(Plain, nodes[1..]);
    }
  }

  lemma PlainOf(node: Node, p: PlainNode)
    requires node == Node(p.id, "", p.score, p.payload)
    ensures Plain(node) == p
  {
  }

  lemma EquallyOften(x: seq<Node>, y: seq<Node>)
    ensures multiset(Map(Plain, x)) == multiset(Map(Plain, y)) <==> forall node: Node :: Alike(x, node) == Alike(y, node)
  {
    hide Map, Alike, Plain;
    var p, q := multiset(Map(Plain, x)), multiset(Map(Plain, y));
    if p == q {
      forall node: Node ensures Alike(x, node) == Alike(y, node) {
        AlikeCounts(x, node);
        AlikeCounts(y, node);
      }
    } else {
      var n :| p[n] != q[n];
      var node := Node(n.id, "", n.score, n.payload);
      PlainOf(node, n);
      AlikeCounts(x, node);
      AlikeCounts(y, node);
      assert Alike(x, node) != Alike(y, node);
    }
  }

  /** Permuted results return every node, told by id, score and payload, equally often. */
  lemma PermutedNodes(a: QueryResult, b: QueryResult)
    ensures Permuted(a, b) <==>
              && multiset(a.edges) == multiset(b.edges) && a.operation == b.operation
              && forall node: Node :: Alike(a.nodes, node) == Alike(b.nodes, node)
  {
    EquallyOften(a.nodes, b.nodes);
    hide Map, Alike;
  }

  // ----- Sorting by consistent ids is canonical -----

  lemma LeqPreorder()
    ensures TotalPreorder(IdLeq) && TotalPreorder(NodeLeq) && TotalPreorder(EdgeLeq) && TotalPreorder(ScorelessLeq)
  {
    forall x: string, y: string ensures Text.Leq(x, y) || Text.Leq(y, x) { Text.LeqTotal(x, y); }
    forall x: string, y: string, z: string | Text.Leq(x, y) && Text.Leq(y, z) ensures Text.Leq(x, z) {
      Text.LeqTransitive(x, y, z);
    }
  }

  lemma {:induction false} MapInsert<A, B>(f: A -> B, x: A, s: seq<A>, leq: (A, A) -> bool, image: (B, B) -> bool)
    requires forall a, b :: a in [x] + s && b in [x] + s ==> image(f(a), f(b)) == leq(a, b)
    ensures Map(f, Insert(x, s, leq)) == Insert(f(x), Map(f, s), image)
  {
    if s != [] {
      assert s[0] in [x] + s && x in [x] + s;
      if !leq(x, s[0]) {
        forall a, b | a in [x] + s[1..] && b in [x] + s[1..] ensures image(f(a), f(b)) == leq(a, b) {
          assert a in [x] + s && b in [x] + s;
        }
        MapInsert(f, x, s[1..], leq, image);
        assert ([s[0]] + Insert(x, s[1..], leq))[1..] == Insert(x, s[1..], leq);
        assert Map(f, s)[1..] == Map(f, s[1..]);
      } else {
        assert ([x] + s)[1..] == s;
      }
    }
  }

  /** Dropping fields that the order ignores commutes with sorting. */
  lemma {:induction false} MapSort<A, B>(f: A -> B, s: seq<A>, leq: (A, A) -> bool, image: (B, B) -> bool)
    requires forall a, b :: a in s && b in s ==> image(f(a), f(b)) == leq(a, b)
    ensures Map(f, Sort(s, leq)) == Sort(Map(f, s), image)
  {
    if s != [] {
      assert s == [s[0]] + s[1..];
      MapSort(f, s[1..], leq, image);
      SortPermutes(s[1..], leq);
      forall a, b | a in [s[0]] + Sort(s[1..], leq) && b in [s[0]] + Sort(s[1..], leq)
        ensures image(f(a), f(b)) == leq(a, b)
      {
        InSorted(s, leq, a);
        InSorted(s, leq, b);
      }
      MapInsert(f, s[0], Sort(s[1..], leq), leq, image);
    }
  }

  lemma InSorted<A>(s: seq<A>, leq: (A, A) -> bool, x: A)
    requires s != [] && x in [s[0]] + Sort(s[1..], leq)
    ensures x in s
  {
    SortPermutes(s[1..], leq);
    if x in Sort(s[1..], leq) {
      assert x in multiset(Sort(s[1..], leq));
      assert x in multiset(s[1..]);
    }
  }

  /** When no two different elements tie, sorted lists agree exactly when the elements do. */
  lemma SortCanonical<T(!new)>(a: seq<T>, b: seq<T>, leq: (T, T) -> bool)
    requires TotalPreorder(leq)
    requires forall x, y :: x in a && y in a && leq(x, y) && leq(y, x) ==> x == y
    ensures Sort(a, leq) == Sort(b, leq) <==> multiset(a) == multiset(b)
  {
    SortPermutes(a, leq);
    SortPermutes(b, leq);
    if multiset(a) == multiset(b) {
      SortSorts(a, leq);
      SortSorts(b, leq);
      forall x, y | x in Sort(a, leq) && y in Sort(a, leq) && leq(x, y) && leq(y, x) ensures x == y {
        assert x in multiset(a) && y in multiset(a);
      }
      SortedUnique(Sort(a, leq), Sort(b, leq), leq);
    }
  }

  lemma {:induction false} MapMembers<A, B>(f: A -> B, s: seq<A>)
    ensures |Map(f, s)| == |s|
    ensures forall i :: 0 <= i < |s| ==> Map(f, s)[i] == f(s[i])
  {
    if s != [] { MapMembers(f, s[1..]); }
  }

  /** Items that tie in the order of their ids are equal. */
  lemma TiesAreEqual<T>(s: seq<T>, id: T -> string)
    requires Identified(s, id)
    ensures forall x, y :: x in s && y in s && IdLeq(id(x), id(y)) && IdLeq(id(y), id(x)) ==> x == y
  {
    forall x, y | x in s && y in s && IdLeq(id(x), id(y)) && IdLeq(id(y), id(x)) ensures x == y {
      Text.LeqAntisymmetric(id(x), id(y));
    }
  }

  function ScorelessId(n: ScorelessNode): string { n.id }

  lemma ScorelessIdentified(nodes: seq<PlainNode>)
    requires Identified(nodes, NodeId)
    ensures Identified(Map(WithoutScore, nodes), ScorelessId)
  {
    MapMembers(WithoutScore, nodes);
  }

  /** Each pair of digests agrees exactly when the results agree in the matching sense. */
  lemma DigestsCompare(a: QueryResult, b: QueryResult)
    requires ConsistentIds(a)
    ensures DigestEvidence(a).elapsedTimePartial == a.elapsedTimePartial
    ensures DigestEvidence(b).elapsedTimePartial == b.elapsedTimePartial
    ensures DigestEvidence(a).ordered == DigestEvidence(b).ordered <==> SameOrdered(a, b)
    ensures DigestEvidence(a).canonical == DigestEvidence(b).canonical <==> Permuted(a, b)
    ensures DigestEvidence(a).scoreless == DigestEvidence(b).scoreless <==> PermutedWithoutScores(a, b)
    ensures DigestEvidence(a).nodeIds == DigestEvidence(b).nodeIds && DigestEvidence(a).edgeIds == DigestEvidence(b).edgeIds
       <==> SameMembers(a, b)
  {
    hide Sort, Map, Identified, Text.Leq;
    LeqPreorder();
    TiesAreEqual(PlainNodes(a), NodeId);
    TiesAreEqual(a.edges, EdgeId);
    SortCanonical(PlainNodes(a), PlainNodes(b), NodeLeq);
    SortCanonical(a.edges, b.edges, EdgeLeq);
    ScorelessCompare(a, b);
    IdsCompare(PlainNodes(a), PlainNodes(b), NodeLeq, NodeId);
    IdsCompare(a.edges, b.edges, EdgeLeq, EdgeId);
  }

  lemma ScorelessCompare(a: QueryResult, b: QueryResult)
    requires ConsistentIds(a)
    ensures Map(WithoutScore, Sort(PlainNodes(a), NodeLeq)) == Map(WithoutScore, Sort(PlainNodes(b), NodeLeq))
       <==> multiset(Map(WithoutScore, PlainNodes(a))) == multiset(Map(WithoutScore, PlainNodes(b)))
  {
    hide Sort, Map, Text.Leq;
    LeqPreorder();
    ScorelessIdentified(PlainNodes(a));
    TiesAreEqual(Map(WithoutScore, PlainNodes(a)), ScorelessId);
    MapSort(WithoutScore, PlainNodes(a), NodeLeq, ScorelessLeq);
    MapSort(WithoutScore, PlainNodes(b), NodeLeq, ScorelessLeq);
    SortCanonical(Map(WithoutScore, PlainNodes(a)), Map(WithoutScore, PlainNodes(b)), ScorelessLeq);
  }

  lemma IdsCompare<T>(a: seq<T>, b: seq<T>, leq: (T, T) -> bool, id: T -> string)
    requires forall x, y :: x in a + b && y in a + b ==> leq(x, y) == IdLeq(id(x), id(y))
    ensures Map(id, Sort(a, leq)) == Map(id, Sort(b, leq)) <==> multiset(Map(id, a)) == multiset(Map(id, b))
  {
    hide Sort, Map;
    LeqPreorder();
    forall x, y | x in a && y in a ensures IdLeq(id(x), id(y)) == leq(x, y) { assert x in a + b && y in a + b; }
    forall x, y | x in b && y in b ensures IdLeq(id(x), id(y)) == leq(x, y) { assert x in a + b && y in a + b; }
    MapSort(id, a, leq, IdLeq);
    MapSort(id, b, leq, IdLeq);
    forall x: string, y: string | IdLeq(x, y) && IdLeq(y, x) ensures x == y { Text.LeqAntisymmetric(x, y); }
    SortCanonical(Map(id, a), Map(id, b), IdLeq);
  }

  /** Each class holds exactly when the results are related as its name says and in no closer way. */
  predicate ClassifiedExactly(a: QueryResult, b: QueryResult) {
    var partial := a.elapsedTimePartial || b.elapsedTimePartial;
    && (Classify(a, b) == OrderedMatch <==> SameOrdered(a, b))
    && (Classify(a, b) == ElapsedTimePartial <==> !SameOrdered(a, b) && partial)
    && (Classify(a, b) == OrderingOnly <==> !SameOrdered(a, b) && !partial && Permuted(a, b))
    && (Classify(a, b) == ScoreOnly <==> !partial && !Permuted(a, b) && PermutedWithoutScores(a, b))
    && (Classify(a, b) == PayloadDrift <==>
          !partial && !Permuted(a, b) && !PermutedWithoutScores(a, b) && SameMembers(a, b))
    && (Classify(a, b) == MembershipDrift <==> !partial && !SameMembers(a, b))
  }

  /** With consistent ids the classification against any other result is exact. */
  lemma ClassificationIsExact(a: QueryResult, b: QueryResult)
    requires ConsistentIds(a)
    ensures ClassifiedExactly(a, b)
  {
    hide Sort, Map, DigestEvidence, ConsistentIds, Text.Leq;
    DigestsCompare(a, b);
    Nested(a, b);
  }

  /** The exact condition: a result is classified exactly against every other result if and only if it is partial or
      its ids are consistent. */
  lemma ExactIffConsistent(a: QueryResult)
    ensures (forall b :: ClassifiedExactly(a, b)) <==> a.elapsedTimePartial || ConsistentIds(a)
  {
    hide ConsistentIds, ClassifiedExactly;
    if a.elapsedTimePartial {
      forall b ensures ClassifiedExactly(a, b) { PartialIsExact(a, b); }
    } else if ConsistentIds(a) {
      forall b ensures ClassifiedExactly(a, b) { ClassificationIsExact(a, b); }
    } else {
      var b := Misreported(a);
      assert !ClassifiedExactly(a, b);
    }
  }

  lemma PartialIsExact(a: QueryResult, b: QueryResult)
    requires a.elapsedTimePartial
    ensures ClassifiedExactly(a, b)
  {
    hide Sort, Map;
    Nested(a, b);
  }

  /** Each way of agreeing implies the next weaker one. */
  lemma Nested(a: QueryResult, b: QueryResult)
    ensures SameOrdered(a, b) ==> Permuted(a, b)
    ensures Permuted(a, b) ==> PermutedWithoutScores(a, b)
    ensures PermutedWithoutScores(a, b) ==> SameMembers(a, b)
  {
    if Permuted(a, b) { MapPermutes(WithoutScore, PlainNodes(a), PlainNodes(b)); }
    if PermutedWithoutScores(a, b) {
      var f := (n: ScorelessNode) => n.id;
      MapPermutes(f, Map(WithoutScore, PlainNodes(a)), Map(WithoutScore, PlainNodes(b)));
      MapPermutes(EdgeId, a.edges, b.edges);
      MapTwice(WithoutScore, f, NodeId, PlainNodes(a));
      MapTwice(WithoutScore, f, NodeId, PlainNodes(b));
    }
  }

  lemma {:induction false} MapTwice<A, B, C>(f: A -> B, g: B -> C, h: A -> C, s: seq<A>)
    requires forall x :: x in s ==> g(f(x)) == h(x)
    ensures Map(g, Map(f, s)) == Map(h, s)
  {
    if s != [] {
      MapTwice(f, g, h, s[1..]);
      assert Map(f, s)[1..] == Map(f, s[1..]);
    }
  }

  lemma {:induction false} MapPermutes<A, B>(f: A -> B, a: seq<A>, b: seq<A>)
    requires multiset(a) == multiset(b)
    ensures multiset(Map(f, a)) == multiset(Map(f, b))
  {
    assert |multiset(a)| == |a| && |multiset(b)| == |b|;
    if a != [] {
      var i := Occurrence(a, b);
      var rest := b[..i] + b[i + 1..];
      MapPermutes(f, a[1..], rest);
      MapSplice(f, a, 0);
      MapSplice(f, b, i);
      assert a[..0] + a[1..] == a[1..];
    }
  }

  /** Where the first element of one arrangement is in the other one, and that the others are the same. */
  lemma Occurrence<A>(a: seq<A>, b: seq<A>) returns (i: nat)
    requires multiset(a) == multiset(b) && a != []
    ensures i < |b| && b[i] == a[0] && multiset(a[1..]) == multiset(b[..i] + b[i + 1..])
  {
    assert a == [a[0]] + a[1..];
    assert a[0] in multiset(b);
    i :| 0 <= i < |b| && b[i] == a[0];
    assert b == b[..i] + [b[i]] + b[i + 1..];
    assert multiset(a[1..]) == multiset(a) - multiset{a[0]};
    assert multiset(b[..i] + b[i + 1..]) == multiset(b) - multiset{b[i]};
  }

  lemma {:induction false} MapAppend<A, B>(f: A -> B, x: seq<A>, y: seq<A>)
    ensures Map(f, x + y) == Map(f, x) + Map(f, y)
  {
    if x == [] {
      assert x + y == y;
    } else {
      var z := x + y;
      assert z[0] == x[0] && z[1..] == x[1..] + y;
      assert Map(f, z) == [f(x[0])] + Map(f, x[1..] + y);
      assert Map(f, x) == [f(x[0])] + Map(f, x[1..]);
      hide Map;
      MapAppend(f, x[1..], y);
    }
  }

  lemma MapOne<A, B>(f: A -> B, x: A)
    ensures Map(f, [x]) == [f(x)]
  {
    assert [x][1..] == [];
  }

  lemma MapSplice<A, B>(f: A -> B, b: seq<A>, i: nat)
    requires i < |b|
    ensures multiset(Map(f, b)) == multiset{f(b[i])} + multiset(Map(f, b[..i] + b[i + 1..]))
  {
    hide Map;
    var x, c, y := b[..i], [b[i]], b[i + 1..];
    assert b == x + (c + y);
    MapAppend(f, x, c + y);
    MapAppend(f, c, y);
    MapAppend(f, x, y);
    MapOne(f, b[i]);
  }

  // ----- Inconsistent ids -----

  /** The items with that id, in order. */
  function Class<T>(s: seq<T>, id: T -> string, key: string): seq<T> {
    if s == [] then []
    else (if id(s[0]) == key then [s[0]] else []) + Class(s[1..], id, key)
  }

  lemma ClassHead<T>(x: T, s: seq<T>, id: T -> string, key: string)
    ensures Class([x] + s, id, key) == (if id(x) == key then [x] else []) + Class(s, id, key)
  {
    assert ([x] + s)[1..] == s;
  }

  lemma {:induction false} ClassInsert<T>(x: T, s: seq<T>, leq: (T, T) -> bool, id: T -> string, key: string)
    requires forall a, b :: id(a) == id(b) ==> leq(a, b)
    ensures Class(Insert(x, s, leq), id, key) == Class([x] + s, id, key)
  {
    hide Class;
    if s == [] {
      assert [x] + s == [x];
    } else if !leq(x, s[0]) {
      var rest := Insert(x, s[1..], leq);
      ClassInsert(x, s[1..], leq, id, key);
      assert Insert(x, s, leq) == [s[0]] + rest;
      assert s == [s[0]] + s[1..];
      ClassHead(s[0], rest, id, key);
      ClassHead(x, s, id, key);
      ClassHead(x, s[1..], id, key);
      ClassHead(s[0], s[1..], id, key);
    }
  }

  /** Sorting by id keeps the items of one id in their order. */
  lemma {:induction false} SortKeepsClass<T>(s: seq<T>, leq: (T, T) -> bool, id: T -> string, key: string)
    requires forall a, b :: id(a) == id(b) ==> leq(a, b)
    ensures Class(Sort(s, leq), id, key) == Class(s, id, key)
  {
    if s != [] {
      assert s == [s[0]] + s[1..];
      SortKeepsClass(s[1..], leq, id, key);
      ClassInsert(s[0], Sort(s[1..], leq), leq, id, key);
      ClassHead(s[0], Sort(s[1..], leq), id, key);
    }
  }

  lemma {:induction false} ClassFirst<T>(s: seq<T>, id: T -> string, i: nat)
    requires i < |s| && forall k :: 0 <= k < i ==> id(s[k]) != id(s[i])
    ensures Class(s, id, id(s[i])) != [] && Class(s, id, id(s[i]))[0] == s[i]
  {
    if i > 0 {
      ClassFirst(s[1..], id, i - 1);
      assert id(s[0]) != id(s[i]);
    }
  }

  /** The first item with the id of item j. */
  lemma {:induction false} FirstWithId<T>(s: seq<T>, id: T -> string, j: nat) returns (i: nat)
    requires j < |s|
    ensures i <= j && id(s[i]) == id(s[j]) && forall k :: 0 <= k < i ==> id(s[k]) != id(s[i])
  {
    if k :| 0 <= k < j && id(s[k]) == id(s[j]) {
      i := FirstWithId(s, id, k);
    } else {
      i := j;
    }
  }

  function Swap<T>(s: seq<T>, i: nat, j: nat): seq<T>
    requires i < |s| && j < |s|
  {
    s[i := s[j]][j := s[i]]
  }

  lemma SwapPermutes<T>(s: seq<T>, i: nat, j: nat)
    requires i < |s| && j < |s|
    ensures multiset(Swap(s, i, j)) == multiset(s)
  {
  }

  /** Swapping the first item of an id with a different item of the same id changes the sorted list. */
  lemma SwapChangesSort<T>(s: seq<T>, i: nat, j: nat, leq: (T, T) -> bool, id: T -> string)
    requires i < |s| && j < |s| && id(s[i]) == id(s[j]) && s[i] != s[j]
    requires forall k :: 0 <= k < i ==> id(s[k]) != id(s[i])
    requires forall a, b :: id(a) == id(b) ==> leq(a, b)
    ensures Sort(Swap(s, i, j), leq) != Sort(s, leq)
  {
    var swapped, key := Swap(s, i, j), id(s[i]);
    ClassFirst(s, id, i);
    ClassFirst(swapped, id, i);
    SortKeepsClass(s, leq, id, key);
    SortKeepsClass(swapped, leq, id, key);
  }

  /** Two different items that share an id, the first of them the first of that id. */
  lemma Inconsistent<T>(s: seq<T>, id: T -> string) returns (i: nat, j: nat)
    requires !Identified(s, id)
    ensures i < |s| && j < |s| && id(s[i]) == id(s[j]) && s[i] != s[j]
    ensures forall k :: 0 <= k < i ==> id(s[k]) != id(s[i])
  {
    var p: nat, q: nat :| p < |s| && q < |s| && id(s[p]) == id(s[q]) && s[p] != s[q];
    i := FirstWithId(s, id, p);
    j := if s[i] != s[p] then p else q;
  }

  /** For every result that is neither partial nor consistent there is another one that is the same up to order, and
      yet not reported so: two different items that share an id have changed places. */
  lemma Misreported(a: QueryResult) returns (b: QueryResult)
    requires !a.elapsedTimePartial && !ConsistentIds(a)
    ensures Permuted(a, b) && !b.elapsedTimePartial && Classify(a, b) !in {OrderedMatch, OrderingOnly}
    ensures !ClassifiedExactly(a, b)
  {
    hide Sort, Map, Identified, Text.Leq;
    SameIdLeq();
    if !Identified(PlainNodes(a), NodeId) {
      var i, j := Inconsistent(PlainNodes(a), NodeId);
      MapMembers(Plain, a.nodes);
      b := a.(nodes := Swap(a.nodes, i, j));
      MapMembers(Plain, b.nodes);
      assert PlainNodes(b) == Swap(PlainNodes(a), i, j);
      SwapPermutes(PlainNodes(a), i, j);
      SwapChangesSort(PlainNodes(a), i, j, NodeLeq, NodeId);
      assert PlainNodes(b)[i] != PlainNodes(a)[i];
    } else {
      var i, j := Inconsistent(a.edges, EdgeId);
      b := a.(edges := Swap(a.edges, i, j));
      SwapPermutes(a.edges, i, j);
      SwapChangesSort(a.edges, i, j, EdgeLeq, EdgeId);
      assert b.edges[i] != a.edges[i];
    }
  }

  lemma SameIdLeq()
    ensures forall x: PlainNode, y: PlainNode :: NodeId(x) == NodeId(y) ==> NodeLeq(x, y)
    ensures forall x: Edge, y: Edge :: EdgeId(x) == EdgeId(y) ==> EdgeLeq(x, y)
  {
    forall s: string ensures Text.Leq(s, s) { Text.LeqTotal(s, s); }
  }

  /** Concretely: two different nodes that share an id and swap places are reported as payload drift. */
  lemma SharedIdsMisreported()
    ensures exists a: QueryResult, b: QueryResult :: Permuted(a, b) && Classify(a, b) == PayloadDrift
  {
    var x, y := Node("n", "", 0.0, "x"), Node("n", "", 0.0, "y");
    var a := QueryResult([x, y], [], "op", false);
    var b := QueryResult([y, x], [], "op", false);
    SwappedNodes(a, b, x, y);
  }

  lemma SwappedNodes(a: QueryResult, b: QueryResult, x: Node, y: Node)
    requires x == Node("n", "", 0.0, "x") && y == Node("n", "", 0.0, "y")
    requires a == QueryResult([x, y], [], "op", false) && b == QueryResult([y, x], [], "op", false)
    ensures Permuted(a, b) && Classify(a, b) == PayloadDrift
  {
    var p, q := Plain(x), Plain(y);
    MapMembers(Plain, [x, y]);
    MapMembers(Plain, [y, x]);
    assert PlainNodes(a) == [p, q] && PlainNodes(b) == [q, p];
    Tie();
    SortTwo(p, q, NodeLeq);
    SortTwo(q, p, NodeLeq);
    assert "x"[0] != "y"[0];
    MapMembers(WithoutScore, [p, q]);
    MapMembers(WithoutScore, [q, p]);
    MapMembers(NodeId, [p, q]);
    MapMembers(NodeId, [q, p]);
    assert Map(NodeId, [p, q]) == Map(NodeId, [q, p]);
    assert Map(WithoutScore, [p, q])[0] != Map(WithoutScore, [q, p])[0];
  }

  lemma SortTwo<T>(x: T, y: T, leq: (T, T) -> bool)
    requires leq(x, y)
    ensures Sort([x, y], leq) == [x, y]
  {
    assert [x, y][1..] == [y];
    assert [y][1..] == [];
    assert Sort([y], leq) == [y];
  }

  lemma Tie()
    ensures Text.Leq("n", "n")
  {
    assert "n"[1..] == "";
  }
}
