/** The length-prefixed input of the vector mapping digest. A byte string is written as a string of characters; only the
    digits and the colon of the prefix matter. */
module VectorMappingDigest {
  import opened Basics
  import Text

  type Bytes = string

  /** What one update feeds the hash: the decimal byte length, a colon, the bytes. */
  function Frame(chunk: Bytes): Bytes {
    Text.Decimal(|chunk|) + ([':'] + chunk)
  }

  /** Everything a list of updates feeds the hash. */
  function Feed(chunks: seq<Bytes>): Bytes {
    if chunks == [] then [] else Frame(chunks[0]) + Feed(chunks[1..])
  }

  // ----- Reading the input back -----

  function Digits(s: Bytes): Bytes {
    if s == [] || !Text.IsDigit(s[0]) then [] else [s[0]] + Digits(s[1..])
  }

  lemma {:induction false} DigitsLength(s: Bytes)
    ensures |Digits(s)| <= |s|
  {
    if s != [] && Text.IsDigit(s[0]) { DigitsLength(s[1..]); }
  }

  /** The first chunk and what follows it, when the input starts with a well-formed frame. */
  function FirstChunk(s: Bytes): Option<(Bytes, Bytes)> {
    DigitsLength(s);
    var digits := Digits(s);
    var body := s[|digits|..];
    if digits == [] || body == [] || body[0] != ':' then None
    else
      var length := Text.Value(digits);
      if length > |body| - 1 then None else Some((body[1..1 + length], body[1 + length..]))
  }

  function Decode(s: Bytes): Option<seq<Bytes>>
    decreases |s|
  {
    if s == [] then Some([])
    else
      match FirstChunk(s)
      case None => None
      case Some((chunk, rest)) =>
        DigitsLength(s);
        match Decode(rest)
        case None => None
        case Some(chunks) => Some([chunk] + chunks)
  }

  lemma {:induction false} DigitsOf(digits: Bytes, rest: Bytes)
    requires Text.AllDigits(digits) && (rest == [] || !Text.IsDigit(rest[0]))
    ensures Digits(digits + rest) == digits
  {
    if digits == [] {
      assert digits + rest == rest;
    } else {
      DigitsOf(digits[1..], rest);
      assert (digits + rest)[1..] == digits[1..] + rest;
    }
  }

  /** A frame is read back whatever follows it. */
  lemma FirstChunkOfFrame(chunk: Bytes, rest: Bytes)
    ensures FirstChunk(Frame(chunk) + rest) == Some((chunk, rest))
  {
    var digits := Text.Decimal(|chunk|);
    var s := Frame(chunk) + rest;
    var body := [':'] + chunk + rest;
    Text.DecimalValue(|chunk|);
    assert s == digits + body;
    DigitsOf(digits, body);
    assert s[|digits|..] == body;
    assert body[1..1 + |chunk|] == chunk;
    assert body[1 + |chunk|..] == rest;
  }

  /** Round trip: the input of any list of chunks decodes to exactly that list. */
  lemma {:induction false} DecodeFeed(chunks: seq<Bytes>)
    ensures Decode(Feed(chunks)) == Some(chunks)
  {
    hide FirstChunk, Frame;
    if chunks != [] {
      var s, rest := Feed(chunks), Feed(chunks[1..]);
      FirstChunkOfFrame(chunks[0], rest);
      FrameLength(chunks[0]);
      DecodeFeed(chunks[1..]);
      assert s == Frame(chunks[0]) + rest && s != [];
      assert Decode(s) == Some([chunks[0]] + chunks[1..]);
      assert chunks == [chunks[0]] + chunks[1..];
    }
  }

  lemma FrameLength(chunk: Bytes)
    ensures |Frame(chunk)| > |chunk|
  {
  }

  /** Different chunk lists never give the same digest input. */
  lemma FeedInjective(a: seq<Bytes>, b: seq<Bytes>)
    requires Feed(a) == Feed(b)
    ensures a == b
  {
    DecodeFeed(a);
    DecodeFeed(b);
  }

  // ----- The mapping rows behind the chunks -----

  datatype Mapping = Mapping(symbolId: Bytes, fingerprint: Bytes, vector: Bytes)

  /** The active rows of one vector database of a model directory. */
  datatype ModelRows = ModelRows(model: Bytes, mappings: seq<Mapping>)

  function RowChunks(mappings: seq<Mapping>): seq<Bytes> {
    if mappings == [] then []
    else [mappings[0].symbolId, mappings[0].fingerprint, mappings[0].vector] + RowChunks(mappings[1..])
  }

  function Chunks(databases: seq<ModelRows>): seq<Bytes> {
    if databases == [] then []
    else [databases[0].model] + RowChunks(databases[0].mappings) + Chunks(databases[1..])
  }

  function RowCount(databases: seq<ModelRows>): nat {
    if databases == [] then 0 else |databases[0].mappings| + RowCount(databases[1..])
  }

  /** Feeds every database's model name and rows; refused when there is no row at all. */
  method VectorMappingInput(databases: seq<ModelRows>) returns (input: Option<Bytes>)
    ensures input.Some? <==> RowCount(databases) > 0
    ensures input.Some? ==> input.value == Feed(Chunks(databases))
  {
    hide Frame, Feed, Chunks, RowChunks;
    var fed: Bytes := [];
    var rows := 0;
    ghost var all := Feed(Chunks(databases));
    assert databases[0..] == databases;
    for d := 0 to |databases|
      invariant fed + Feed(Chunks(databases[d..])) == all
      invariant rows + RowCount(databases[d..]) == RowCount(databases)
    {
      var model, mappings := databases[d].model, databases[d].mappings;
      ghost var after := Chunks(databases[d + 1..]);
      DatabaseAt(databases, d);
      fed := fed + Frame(model);
      assert mappings[0..] == mappings;
      for r := 0 to |mappings|
        invariant fed + Feed(RowChunks(mappings[r..]) + after) == all
        invariant rows + (|mappings| - r) + RowCount(databases[d + 1..]) == RowCount(databases)
      {
        var mapping := mappings[r];
        RowAt(mappings, r, after);
        fed := fed + Frame(mapping.symbolId) + Frame(mapping.fingerprint) + Frame(mapping.vector);
        rows := rows + 1;
      }
      NoRows(after);
      assert mappings[|mappings|..] == [];
    }
    NoDatabases();
    assert databases[|databases|..] == [];
    input := if rows == 0 then None else Some(fed);
  }

  lemma NoRows(after: seq<Bytes>)
    ensures RowChunks([]) + after == after
  {
  }

  lemma NoDatabases()
    ensures Feed(Chunks([])) == []
  {
  }

  lemma FeedHead(chunk: Bytes, rest: seq<Bytes>)
    ensures Feed([chunk] + rest) == Frame(chunk) + Feed(rest)
  {
    assert ([chunk] + rest)[1..] == rest;
  }

  lemma DatabaseAt(databases: seq<ModelRows>, d: nat)
    requires d < |databases|
    ensures Feed(Chunks(databases[d..]))
         == Frame(databases[d].model) + Feed(RowChunks(databases[d].mappings) + Chunks(databases[d + 1..]))
    ensures RowCount(databases[d..]) == |databases[d].mappings| + RowCount(databases[d + 1..])
  {
    var rows, after := RowChunks(databases[d].mappings), Chunks(databases[d + 1..]);
    assert databases[d..][1..] == databases[d + 1..];
    assert [databases[d].model] + rows + after == [databases[d].model] + (rows + after);
    FeedHead(databases[d].model, rows + after);
  }

  lemma RowAt(mappings: seq<Mapping>, r: nat, after: seq<Bytes>)
    requires r < |mappings|
    ensures Feed(RowChunks(mappings[r..]) + after)
         == Frame(mappings[r].symbolId) + Frame(mappings[r].fingerprint) + Frame(mappings[r].vector)
            + Feed(RowChunks(mappings[r + 1..]) + after)
  {
    hide Frame;
    var m, rest := mappings[r], RowChunks(mappings[r + 1..]) + after;
    assert mappings[r..][1..] == mappings[r + 1..];
    assert RowChunks(mappings[r..]) + after == [m.symbolId] + ([m.fingerprint] + ([m.vector] + rest));
    FeedHead(m.vector, rest);
    FeedHead(m.fingerprint, [m.vector] + rest);
    FeedHead(m.symbolId, [m.fingerprint] + ([m.vector] + rest));
  }

  /** Model names and symbol ids that can be told apart by one test. */
  ghost predicate ToldApart(databases: seq<ModelRows>, isModel: Bytes -> bool) {
    forall d :: 0 <= d < |databases| ==>
      && isModel(databases[d].model)
      && forall r :: 0 <= r < |databases[d].mappings| ==> !isModel(databases[d].mappings[r].symbolId)
  }

  /** The rows at the front of a chunk list: triples until a model name or the end. */
  lemma {:induction false} RowsUnique(a: seq<Mapping>, b: seq<Mapping>, x: seq<Bytes>, y: seq<Bytes>,
                                      isModel: Bytes -> bool)
    requires RowChunks(a) + x == RowChunks(b) + y
    requires forall r :: 0 <= r < |a| ==> !isModel(a[r].symbolId)
    requires forall r :: 0 <= r < |b| ==> !isModel(b[r].symbolId)
    requires (x != [] ==> isModel(x[0])) && (y != [] ==> isModel(y[0]))
    ensures a == b && x == y
  {
    if a == [] || b == [] {
      NoFrontRows(a, x, isModel);
      NoFrontRows(b, y, isModel);
    } else {
      FrontRow(a, x);
      FrontRow(b, y);
      hide RowChunks;
      var l, r := RowChunks(a) + x, RowChunks(b) + y;
      assert l[0] == r[0] && l[1] == r[1] && l[2] == r[2];
      assert l[3..] == r[3..];
      RowsUnique(a[1..], b[1..], x, y, isModel);
      assert a == [a[0]] + a[1..] && b == [b[0]] + b[1..];
    }
  }

  lemma FrontRow(a: seq<Mapping>, x: seq<Bytes>)
    requires a != []
    ensures var l := RowChunks(a) + x;
            && |l| >= 3 && l[0] == a[0].symbolId && l[1] == a[0].fingerprint && l[2] == a[0].vector
            && l[3..] == RowChunks(a[1..]) + x
  {
    var triple, rest := [a[0].symbolId, a[0].fingerprint, a[0].vector], RowChunks(a[1..]);
    assert RowChunks(a) == triple + rest;
    hide RowChunks;
    assert RowChunks(a) + x == triple + (rest + x);
  }

  lemma NoFrontRows(a: seq<Mapping>, x: seq<Bytes>, isModel: Bytes -> bool)
    requires (forall r :: 0 <= r < |a| ==> !isModel(a[r].symbolId)) && (x != [] ==> isModel(x[0]))
    ensures a == [] ==> RowChunks(a) + x == x
    ensures a != [] ==> |RowChunks(a) + x| > 0 && !isModel((RowChunks(a) + x)[0])
  {
  }

  lemma ChunksHead(a: seq<ModelRows>)
    requires a != []
    ensures Chunks(a) == [a[0].model] + (RowChunks(a[0].mappings) + Chunks(a[1..]))
  {
  }

  lemma FirstIsModel(a: seq<ModelRows>, isModel: Bytes -> bool)
    requires ToldApart(a, isModel)
    ensures Chunks(a) != [] <==> a != []
    ensures Chunks(a) != [] ==> isModel(Chunks(a)[0])
  {
    if a != [] { ChunksHead(a); }
  }

  lemma {:induction false} ChunksUnique(a: seq<ModelRows>, b: seq<ModelRows>, isModel: Bytes -> bool)
    requires Chunks(a) == Chunks(b) && ToldApart(a, isModel) && ToldApart(b, isModel)
    ensures a == b
  {
    hide Chunks, RowChunks;
    FirstIsModel(a, isModel);
    FirstIsModel(b, isModel);
    if a != [] && b != [] {
      ChunksHead(a);
      ChunksHead(b);
      var x, y := Chunks(a[1..]), Chunks(b[1..]);
      assert Chunks(a)[1..] == RowChunks(a[0].mappings) + x;
      assert Chunks(b)[1..] == RowChunks(b[0].mappings) + y;
      FirstIsModel(a[1..], isModel);
      FirstIsModel(b[1..], isModel);
      RowsUnique(a[0].mappings, b[0].mappings, x, y, isModel);
      ChunksUnique(a[1..], b[1..], isModel);
      assert a == [a[0]] + a[1..] && b == [b[0]] + b[1..];
    }
  }

  /** Equal digest inputs come from equal mappings, whenever one test tells model names from symbol ids. */
  lemma MappingsDetermined(a: seq<ModelRows>, b: seq<ModelRows>, isModel: Bytes -> bool)
    requires Feed(Chunks(a)) == Feed(Chunks(b)) && ToldApart(a, isModel) && ToldApart(b, isModel)
    ensures a == b
  {
    FeedInjective(Chunks(a), Chunks(b));
    ChunksUnique(a, b, isModel);
  }

  // ----- When the digest input determines the mappings -----

  /** Strictly ascending: the rows of one database are ordered by their key, the symbol id. */
  ghost predicate RowsAscend(mappings: seq<Mapping>) {
    forall i, j :: 0 <= i < j < |mappings| ==> !Text.Leq(mappings[j].symbolId, mappings[i].symbolId)
  }

  /** What the loops can visit: model directories in sorted order, each with any number of databases, the rows of a
      database ordered by symbol id, and at least one row in all. */
  ghost predicate Visited(databases: seq<ModelRows>, isModel: Bytes -> bool, isSymbol: Bytes -> bool) {
    && RowCount(databases) > 0
    && (forall i, j :: 0 <= i < j < |databases| ==> Text.Leq(databases[i].model, databases[j].model))
    && (forall d :: 0 <= d < |databases| ==> isModel(databases[d].model) && RowsAscend(databases[d].mappings))
    && (forall d, r :: 0 <= d < |databases| && 0 <= r < |databases[d].mappings| ==>
          isSymbol(databases[d].mappings[r].symbolId))
  }

  ghost predicate Determines(isModel: Bytes -> bool, isSymbol: Bytes -> bool) {
    forall a: seq<ModelRows>, b: seq<ModelRows> ::
      Visited(a, isModel, isSymbol) && Visited(b, isModel, isSymbol) && Feed(Chunks(a)) == Feed(Chunks(b)) ==> a == b
  }

  /** The exact condition: the digest input determines the mappings behind it if and only if no string is both a model
      directory name and a symbol id. */
  lemma DeterminesIff(isModel: Bytes -> bool, isSymbol: Bytes -> bool)
    ensures Determines(isModel, isSymbol) <==> forall s: Bytes :: !(isModel(s) && isSymbol(s))
  {
    hide Feed, Chunks;
    if forall s: Bytes :: !(isModel(s) && isSymbol(s)) {
      forall a: seq<ModelRows>, b: seq<ModelRows>
        | Visited(a, isModel, isSymbol) && Visited(b, isModel, isSymbol) && Feed(Chunks(a)) == Feed(Chunks(b))
        ensures a == b
      {
        MappingsDetermined(a, b, isModel);
      }
    } else {
      var s: Bytes :| isModel(s) && isSymbol(s);
      var a, b := AmbiguousMappings(s, isModel, isSymbol);
    }
  }

  /** A string that is both can be read either way: one model directory with two databases, the only row in the second
      database or in the first. */
  lemma AmbiguousMappings(s: Bytes, isModel: Bytes -> bool, isSymbol: Bytes -> bool)
    returns (a: seq<ModelRows>, b: seq<ModelRows>)
    requires isModel(s) && isSymbol(s)
    ensures Visited(a, isModel, isSymbol) && Visited(b, isModel, isSymbol)
    ensures a != b && Feed(Chunks(a)) == Feed(Chunks(b))
  {
    hide Feed;
    var none: seq<Mapping> := [];
    var early, late := [Mapping(s, s, "t")], [Mapping(s, "t", s)];
    a := [ModelRows(s, none), ModelRows(s, late)];
    b := [ModelRows(s, early), ModelRows(s, none)];
    TwoDatabases(a[0], a[1]);
    TwoDatabases(b[0], b[1]);
    OneRow(early[0]);
    OneRow(late[0]);
    assert Chunks(a) == [s, s, s, "t", s];
    assert Chunks(b) == [s, s, s, "t", s];
    assert |a[0].mappings| != |b[0].mappings|;
    Text.LeqTotal(s, s);
  }

  lemma TwoDatabases(first: ModelRows, last: ModelRows)
    ensures Chunks([first, last])
         == [first.model] + (RowChunks(first.mappings) + ([last.model] + RowChunks(last.mappings)))
    ensures RowCount([first, last]) == |first.mappings| + |last.mappings|
  {
    OneDatabase(last);
    DatabaseHead(first, [last]);
    assert [first, last] == [first] + [last];
  }

  lemma DatabaseHead(first: ModelRows, rest: seq<ModelRows>)
    ensures Chunks([first] + rest) == [first.model] + (RowChunks(first.mappings) + Chunks(rest))
    ensures RowCount([first] + rest) == |first.mappings| + RowCount(rest)
  {
    assert ([first] + rest)[1..] == rest;
    ChunksHead([first] + rest);
  }

  lemma OneDatabase(d: ModelRows)
    ensures Chunks([d]) == [d.model] + RowChunks(d.mappings) && RowCount([d]) == |d.mappings|
  {
    assert [d][1..] == [];
  }

  lemma OneRow(m: Mapping)
    ensures RowChunks([m]) == [m.symbolId, m.fingerprint, m.vector]
  {
    assert [m][1..] == [];
  }

  // ----- The names in use -----

  predicate LowerOrDigit(c: char) {
    'a' <= c <= 'z' || '0' <= c <= '9'
  }

  /** One to 128 of a-z, 0-9, '.', '_' and '-', starting and ending with a letter or digit. */
  predicate ModelDirectoryName(s: Bytes) {
    && 1 <= |s| <= 128
    && LowerOrDigit(s[0]) && LowerOrDigit(s[|s| - 1])
    && forall i :: 0 <= i < |s| ==> LowerOrDigit(s[i]) || s[i] == '.' || s[i] == '_' || s[i] == '-'
  }

  /** "cgs_" and 32 to 64 lower-case hexadecimal digits. */
  predicate SymbolId(s: Bytes) {
    && 36 <= |s| <= 68
    && s[..4] == "cgs_"
    && LowerHex(s[4..])
  }

  /** With the names in use the mappings are not determined: every symbol id is also a model directory name. */
  lemma NamesInUseOverlap()
    ensures forall s: Bytes :: SymbolId(s) ==> ModelDirectoryName(s)
    ensures !Determines(ModelDirectoryName, SymbolId)
  {
    forall s: Bytes | SymbolId(s) ensures ModelDirectoryName(s) { SymbolIdIsModelName(s); }
    var s := "cgs_" + seq(32, i => '0');
    assert s[..4] == "cgs_" && s[4..] == seq(32, i => '0');
    assert SymbolId(s) && ModelDirectoryName(s);
    DeterminesIff(ModelDirectoryName, SymbolId);
  }

  lemma SymbolIdIsModelName(s: Bytes)
    requires SymbolId(s)
    ensures ModelDirectoryName(s)
  {
    assert s[0] == s[..4][0] && s[1] == s[..4][1] && s[2] == s[..4][2] && s[3] == s[..4][3];
    forall i | 4 <= i < |s| ensures LowerOrDigit(s[i]) {
      assert s[i] == s[4..][i - 4];
    }
  }
}
