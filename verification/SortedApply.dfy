/** The lookup-table admission screen: a locally sorted batched writer against append, global sort and paged apply.
    Tables hold the rows of the one snapshot that is written, so their constant columns are left implicit. */
module SortedApply {
  import opened Basics
  import opened Sorting
  import Text
  import Coprime

  datatype LookupRow = LookupRow(exported: nat, lookupKey: string, resolutionDomain: string, symbolId: string)

  /** The primary key (lookup_key, symbol_id) of a row. */
  type Key = (string, string)

  type Table = map<Key, LookupRow>

  function KeyOf(row: LookupRow): Key {
    (row.lookupKey, row.symbolId)
  }

  // ----- Tables with a primary key -----

  /** INSERT of one row: refused when its key is taken. */
  function InsertRow(table: Table, row: LookupRow): Option<Table> {
    if KeyOf(row) in table then None else Some(table[KeyOf(row) := row])
  }

  /** A multi-row INSERT, all or nothing. */
  function InsertRows(table: Table, rows: seq<LookupRow>): Option<Table>
    decreases rows
  {
    if rows == [] then Some(table)
    else
      match InsertRow(table, rows[0])
      case None => None
      case Some(next) => InsertRows(next, rows[1..])
  }

  /** Every row occurs once and no two rows share a key. */
  ghost predicate Distinct(rows: multiset<LookupRow>) {
    && (forall r :: r in rows ==> rows[r] == 1)
    && (forall r, s :: r in rows && s in rows && KeyOf(r) == KeyOf(s) ==> r == s)
  }

  /** The table holds exactly these rows, each once under its own key. */
  ghost predicate Stored(table: Table, rows: multiset<LookupRow>) {
    && Distinct(rows)
    && |table| == |rows|
    && (forall r :: r in rows ==> KeyOf(r) in table && table[KeyOf(r)] == r)
    && (forall k :: k in table ==> table[k] in rows && KeyOf(table[k]) == k)
  }

  lemma {:induction false} InsertRowsStores(table: Table, before: multiset<LookupRow>, rows: seq<LookupRow>)
    requires Stored(table, before)
    ensures InsertRows(table, rows).Some? <==> Distinct(before + multiset(rows))
    ensures InsertRows(table, rows).Some? ==> Stored(InsertRows(table, rows).value, before + multiset(rows))
    decreases rows
  {
    if rows == [] {
      assert before + multiset(rows) == before;
    } else {
      assert rows == [rows[0]] + rows[1..];
      var all := before + multiset(rows);
      assert all == before + multiset{rows[0]} + multiset(rows[1..]);
      if KeyOf(rows[0]) in table {
        var taken := table[KeyOf(rows[0])];
        assert taken in all && rows[0] in all && KeyOf(taken) == KeyOf(rows[0]);
        assert !Distinct(all) by {
          if taken == rows[0] { assert all[taken] >= 2; }
        }
      } else {
        assert rows[0] !in before;
        var after := before + multiset{rows[0]};
        InsertRowStores(table, before, rows[0]);
        InsertRowsStores(table[KeyOf(rows[0]) := rows[0]], after, rows[1..]);
      }
    }
  }

  lemma InsertRowStores(table: Table, before: multiset<LookupRow>, row: LookupRow)
    requires Stored(table, before) && KeyOf(row) !in table
    ensures Stored(table[KeyOf(row) := row], before + multiset{row})
  {
  }

  /** The rows determine the table. */
  lemma StoredUnique(a: Table, b: Table, rows: multiset<LookupRow>)
    requires Stored(a, rows) && Stored(b, rows)
    ensures a == b
  {
    forall k ensures k in a <==> k in b {
      if k in a { assert KeyOf(a[k]) in b; }
      if k in b { assert KeyOf(b[k]) in a; }
    }
    assert a.Keys == b.Keys;
  }

  lemma StoredDistinct(table: Table, rows: multiset<LookupRow>)
    requires Stored(table, rows)
    ensures Distinct(rows)
  {
  }

  lemma DistinctPart(part: multiset<LookupRow>, whole: multiset<LookupRow>)
    requires part <= whole && Distinct(whole)
    ensures Distinct(part)
  {
    forall r | r in part ensures part[r] == 1 {
      assert part[r] <= whole[r];
    }
  }

  // ----- The order of both sorts -----

  predicate RowLeq(left: LookupRow, right: LookupRow) {
    if left.lookupKey != right.lookupKey then Text.Leq(left.lookupKey, right.lookupKey)
    else Text.Leq(left.symbolId, right.symbolId)
  }

  lemma RowLeqTransitive(x: LookupRow, y: LookupRow, z: LookupRow)
    requires RowLeq(x, y) && RowLeq(y, z)
    ensures RowLeq(x, z)
  {
    if x.lookupKey == y.lookupKey == z.lookupKey {
      Text.LeqTransitive(x.symbolId, y.symbolId, z.symbolId);
    } else if x.lookupKey != y.lookupKey && y.lookupKey != z.lookupKey {
      Text.LeqTransitive(x.lookupKey, y.lookupKey, z.lookupKey);
      if x.lookupKey == z.lookupKey { Text.LeqAntisymmetric(x.lookupKey, y.lookupKey); }
    }
  }

  lemma RowOrder()
    ensures TotalPreorder(RowLeq)
  {
    forall x, y ensures RowLeq(x, y) || RowLeq(y, x) {
      Text.LeqTotal(x.lookupKey, y.lookupKey);
      Text.LeqTotal(x.symbolId, y.symbolId);
    }
    forall x, y, z | RowLeq(x, y) && RowLeq(y, z) ensures RowLeq(x, z) {
      RowLeqTransitive(x, y, z);
    }
  }

  // ----- The direct writer -----

  /** The rows of a table after the batches are added. */
  ghost function With(before: multiset<LookupRow>, batches: seq<seq<LookupRow>>): multiset<LookupRow> {
    before + multiset(Flatten(batches))
  }

  /** One transaction: the batches are inserted in order, and a refused row rolls all of them back. */
  method InsertDirectTransaction(table: Table, batches: seq<seq<LookupRow>>, ghost before: multiset<LookupRow>)
    returns (result: Option<Table>)
    requires Stored(table, before)
    ensures result.Some? <==> Distinct(With(before, batches))
    ensures result.Some? ==> Stored(result.value, With(before, batches))
  {
    assert With(before, batches[..0]) == before;
    hide *;
    var current := table;
    for i := 0 to |batches|
      invariant Stored(current, With(before, batches[..i]))
    {
      FlattenGrows(batches, i, before);
      InsertRowsStores(current, With(before, batches[..i]), batches[i]);
      var next := InsertRows(current, batches[i]);
      if next.None? {
        FlattenDistinct(batches, i + 1, before);
        return None;
      }
      current := next.value;
    }
    assert batches[..|batches|] == batches;
    StoredDistinct(current, With(before, batches));
    return Some(current);
  }

  lemma FlattenGrows(batches: seq<seq<LookupRow>>, i: nat, before: multiset<LookupRow>)
    requires i < |batches|
    ensures With(before, batches[..i + 1])
         == With(before, batches[..i]) + multiset(batches[i])
  {
    assert batches[..i + 1][..i] == batches[..i];
  }

  lemma FlattenDistinct(batches: seq<seq<LookupRow>>, n: nat, before: multiset<LookupRow>)
    requires n <= |batches|
    ensures Distinct(With(before, batches)) ==> Distinct(With(before, batches[..n]))
  {
    FlattenPrefix(batches, n);
    if Distinct(With(before, batches)) {
      DistinctPart(With(before, batches[..n]), With(before, batches));
    }
  }

  lemma {:induction false} FlattenPrefix(batches: seq<seq<LookupRow>>, n: nat)
    requires n <= |batches|
    ensures multiset(Flatten(batches[..n])) <= multiset(Flatten(batches))
    decreases |batches|
  {
    if n < |batches| {
      var shorter := batches[..|batches| - 1];
      FlattenPrefix(shorter, n);
      assert shorter[..n] == batches[..n];
    } else {
      assert batches[..n] == batches;
    }
  }

  /** The rows a writer has taken over so far: written, waiting in full batches, or in the open batch. */
  ghost function Held(written: multiset<LookupRow>, pending: seq<seq<LookupRow>>, batch: seq<LookupRow>)
    : multiset<LookupRow>
  {
    written + multiset(Flatten(pending)) + multiset(batch)
  }

  lemma HoldRow(written: multiset<LookupRow>, pending: seq<seq<LookupRow>>, batch: seq<LookupRow>,
                rows: seq<LookupRow>, i: nat)
    requires i < |rows| && Held(written, pending, batch) == multiset(rows[..i])
    ensures Held(written, pending, batch + [rows[i]]) == multiset(rows[..i + 1])
  {
    assert rows[..i + 1] == rows[..i] + [rows[i]];
  }

  lemma HoldBatch(written: multiset<LookupRow>, pending: seq<seq<LookupRow>>, batch: seq<LookupRow>)
    ensures Held(written, pending + [Sort(batch, RowLeq)], []) == Held(written, pending, batch)
  {
    SortPermutes(batch, RowLeq);
    var more := pending + [Sort(batch, RowLeq)];
    assert more[..|more| - 1] == pending;
    assert Flatten(more) == Flatten(pending) + Sort(batch, RowLeq);
  }

  lemma HoldWritten(written: multiset<LookupRow>, pending: seq<seq<LookupRow>>)
    ensures Held(With(written, pending), [], []) == Held(written, pending, []) == With(written, pending)
  {
  }

  lemma HoldEmpty(written: multiset<LookupRow>)
    ensures Held(written, [], []) == written
  {
  }

  /** Batches of limited size, each in key order. */
  ghost predicate LocallySorted(batches: seq<seq<LookupRow>>, batchRows: nat) {
    forall i :: 0 <= i < |batches| ==> 0 < |batches[i]| <= batchRows && Sorted(batches[i], RowLeq)
  }

  lemma SortsLocally(batches: seq<seq<LookupRow>>, batch: seq<LookupRow>, batchRows: nat)
    requires LocallySorted(batches, batchRows) && 0 < |batch| <= batchRows
    ensures LocallySorted(batches + [Sort(batch, RowLeq)], batchRows)
  {
    RowOrder();
    SortSorts(batch, RowLeq);
    SortPermutes(batch, RowLeq);
  }

  lemma InsertedGrows(inserted: seq<seq<LookupRow>>, pending: seq<seq<LookupRow>>, batchRows: nat)
    requires LocallySorted(inserted, batchRows) && LocallySorted(pending, batchRows)
    ensures LocallySorted(inserted + pending, batchRows)
    ensures multiset(Flatten(inserted + pending)) == With(multiset(Flatten(inserted)), pending)
  {
    FlattenJoin(inserted, pending);
  }

  /** Batches are sorted locally and inserted a transaction at a time. The run fails exactly when two rows share a key;
      otherwise the table ends with exactly the given rows, inserted in locally sorted batches. */
  method DirectWriter(rows: seq<LookupRow>, batchRows: nat, transactionBatches: nat)
    returns (table: Option<Table>, ghost inserted: seq<seq<LookupRow>>)
    requires batchRows >= 1 && transactionBatches >= 1
    ensures table.Some? <==> Distinct(multiset(rows))
    ensures table.Some? ==> Stored(table.value, multiset(rows))
    ensures table.Some? ==> LocallySorted(inserted, batchRows) && multiset(Flatten(inserted)) == multiset(rows)
  {
    inserted := [];
    assert LocallySorted(inserted, batchRows) && multiset(Flatten(inserted)) == multiset{};
    var current: Table := map[];
    assert Stored(current, multiset{}) && multiset(rows[..0]) == multiset{};
    hide *;
    var batch: seq<LookupRow> := [];
    var pending: seq<seq<LookupRow>> := [];
    HoldEmpty(multiset{});
    ghost var written: multiset<LookupRow> := multiset{};
    for i := 0 to |rows|
      invariant Stored(current, written)
      invariant Held(written, pending, batch) == multiset(rows[..i])
      invariant written == multiset(Flatten(inserted))
      invariant LocallySorted(inserted, batchRows) && LocallySorted(pending, batchRows)
      invariant |batch| < batchRows && |pending| < transactionBatches
    {
      HoldRow(written, pending, batch, rows, i);
      batch := batch + [rows[i]];
      if |batch| >= batchRows {
        HoldBatch(written, pending, batch);
        SortsLocally(pending, batch, batchRows);
        pending, batch := pending + [Sort(batch, RowLeq)], [];
        if |pending| >= transactionBatches {
          HoldWritten(written, pending);
          var next := InsertDirectTransaction(current, pending, written);
          if next.None? {
            PrefixDistinct(rows, i + 1);
            return None, inserted;
          }
          InsertedGrows(inserted, pending, batchRows);
          NoBatches(batchRows);
          inserted := inserted + pending;
          current, written, pending := next.value, With(written, pending), [];
        }
      }
    }
    assert rows[..|rows|] == rows;
    if batch == [] && pending == [] {
      HoldEmpty(written);
      StoredDistinct(current, written);
      return Some(current), inserted;
    }
    if |batch| > 0 {
      HoldBatch(written, pending, batch);
      SortsLocally(pending, batch, batchRows);
      pending, batch := pending + [Sort(batch, RowLeq)], [];
    }
    HoldWritten(written, pending);
    table := InsertDirectTransaction(current, pending, written);
    InsertedGrows(inserted, pending, batchRows);
    inserted := inserted + pending;
  }

  lemma NoBatches(batchRows: nat)
    ensures LocallySorted([], batchRows)
  {
  }

  lemma PrefixDistinct(rows: seq<LookupRow>, n: nat)
    requires n <= |rows|
    ensures Distinct(multiset(rows)) ==> Distinct(multiset(rows[..n]))
  {
    if Distinct(multiset(rows)) {
      assert rows == rows[..n] + rows[n..];
      assert multiset(rows) == multiset(rows[..n]) + multiset(rows[n..]);
      DistinctPart(multiset(rows[..n]), multiset(rows));
    }
  }

  // ----- The spool: append, global sort, paged apply -----

  /** The unindexed spool receives the rows in generation order. */
  method AppendToSpool(rows: seq<LookupRow>, batchRows: nat, transactionBatches: nat) returns (raw: seq<LookupRow>)
    requires batchRows >= 1 && transactionBatches >= 1
    ensures raw == rows
  {
    raw := [];
    var batch: seq<LookupRow> := [];
    var pending: seq<seq<LookupRow>> := [];
    for i := 0 to |rows|
      invariant raw + Flatten(pending) + batch == rows[..i]
      invariant |batch| < batchRows && |pending| < transactionBatches
    {
      batch := batch + [rows[i]];
      if |batch| >= batchRows {
        assert (pending + [batch])[..|pending|] == pending;
        pending, batch := pending + [batch], [];
        if |pending| >= transactionBatches {
          raw, pending := raw + Flatten(pending), [];
        }
      }
    }
    if |batch| > 0 {
      assert (pending + [batch])[..|pending|] == pending;
      pending := pending + [batch];
    }
    if |pending| > 0 {
      raw := raw + Flatten(pending);
    }
  }

  /** SELECT ... WHERE rowid > after ORDER BY rowid LIMIT limit, over rowids 1, 2, ... */
  function Page(ordered: seq<LookupRow>, after: nat, limit: nat): seq<LookupRow> {
    if after >= |ordered| then []
    else if after + limit <= |ordered| then ordered[after..after + limit]
    else ordered[after..]
  }

  /** Applies the ordered rows page by page. The cursor neither skips nor repeats a row: after each page the table holds
      exactly the first `cursor` rows. */
  method ApplyPages(ordered: seq<LookupRow>, rowCount: nat, pageRows: nat) returns (table: Option<Table>)
    requires rowCount == |ordered| && pageRows >= 1
    ensures table.Some? <==> Distinct(multiset(ordered))
    ensures table.Some? ==> Stored(table.value, multiset(ordered))
  {
    var current: Table := map[];
    var cursor := 0;
    while cursor < rowCount
      invariant cursor <= rowCount
      invariant Stored(current, multiset(ordered[..cursor]))
    {
      var page := Page(ordered, cursor, pageRows);
      var nextCursor := if rowCount < cursor + pageRows then rowCount else cursor + pageRows;
      assert ordered[..nextCursor] == ordered[..cursor] + page;
      InsertRowsStores(current, multiset(ordered[..cursor]), page);
      var next := InsertRows(current, page);
      if next.None? {
        PrefixDistinct(ordered, nextCursor);
        return None;
      }
      current := next.value;
      cursor := nextCursor;
    }
    assert ordered[..cursor] == ordered;
    return Some(current);
  }

  method SortedWriter(rows: seq<LookupRow>, batchRows: nat, transactionBatches: nat, pageRows: nat)
    returns (table: Option<Table>, ordered: seq<LookupRow>)
    requires batchRows >= 1 && transactionBatches >= 1 && pageRows >= 1
    ensures Sorted(ordered, RowLeq) && multiset(ordered) == multiset(rows)
    ensures table.Some? <==> Distinct(multiset(rows))
    ensures table.Some? ==> Stored(table.value, multiset(rows))
  {
    var raw := AppendToSpool(rows, batchRows, transactionBatches);
    ordered := Sort(raw, RowLeq);
    SortPermutes(raw, RowLeq);
    RowOrder();
    SortSorts(raw, RowLeq);
    table := ApplyPages(ordered, |rows|, pageRows);
  }

  // ----- The generated rows -----

  function RowAt(i: nat, step: nat, rowCount: nat, symbolCount: nat): LookupRow
    requires rowCount >= 1 && symbolCount >= 1
  {
    CanonicalRow(Coprime.Canonical(i, step, rowCount), symbolCount)
  }

  function CanonicalRow(canonical: nat, symbolCount: nat): LookupRow
    requires symbolCount >= 1
  {
    OrdinalRow(canonical, canonical % symbolCount, Variant(canonical, symbolCount), symbolCount)
  }

  function Variant(canonical: nat, symbolCount: nat): nat
    requires symbolCount >= 1
  {
    canonical / symbolCount
  }

  function OrdinalRow(canonical: nat, symbolOrdinal: nat, variant: nat, symbolCount: nat): LookupRow
    requires symbolCount >= 1
  {
    LookupRow(
      if canonical % 7 == 0 then 1 else 0,
      LookupKey(variant, LookupOrdinal(symbolOrdinal, variant, symbolCount)),
      "domain-" + Text.Decimal(canonical % 97),
      SymbolId(symbolOrdinal))
  }

  function LookupOrdinal(symbolOrdinal: nat, variant: nat, symbolCount: nat): nat
    requires symbolCount >= 1
  {
    (symbolOrdinal * 2_654_435_761 + variant * 40_503) % (symbolCount * 2)
  }

  function LookupKey(variant: nat, lookupOrdinal: nat): string {
    "lookup-" + (Text.Padded(variant, 2) + ['-'] + Text.Padded(lookupOrdinal, 9))
  }

  function SymbolId(symbolOrdinal: nat): string {
    "symbol-" + Text.Padded(symbolOrdinal, 8)
  }

  lemma SymbolIdInjective(a: nat, b: nat)
    requires SymbolId(a) == SymbolId(b)
    ensures a == b
  {
    assert SymbolId(a)[7..] == Text.Padded(a, 8) && SymbolId(b)[7..] == Text.Padded(b, 8);
    Text.PaddedValue(a, 8);
    Text.PaddedValue(b, 8);
  }

  lemma LookupKeyVariant(v: nat, l: nat, w: nat, m: nat)
    requires LookupKey(v, l) == LookupKey(w, m)
    ensures v == w
  {
    assert LookupKey(v, l)[7..] == Text.Padded(v, 2) + ['-'] + Text.Padded(l, 9);
    assert LookupKey(w, m)[7..] == Text.Padded(w, 2) + ['-'] + Text.Padded(m, 9);
    Text.PaddedValue(v, 2);
    Text.PaddedValue(w, 2);
    Text.FieldUnique(Text.Padded(v, 2), Text.Padded(w, 2), '-', Text.Padded(l, 9), Text.Padded(m, 9));
  }

  lemma DivModInjective(a: nat, b: nat, n: nat)
    requires n >= 1 && Variant(a, n) == Variant(b, n) && a % n == b % n
    ensures a == b
  {
    assert a == n * (a / n) + a % n && b == n * (b / n) + b % n;
  }

  lemma OrdinalRowKey(canonical: nat, symbolOrdinal: nat, variant: nat, symbolCount: nat)
    requires symbolCount >= 1
    ensures KeyOf(OrdinalRow(canonical, symbolOrdinal, variant, symbolCount))
         == (LookupKey(variant, LookupOrdinal(symbolOrdinal, variant, symbolCount)), SymbolId(symbolOrdinal))
  {
    hide LookupOrdinal, LookupKey, SymbolId, Text.Decimal;
  }

  lemma CanonicalRowKey(canonical: nat, symbolCount: nat) returns (lookupOrdinal: nat)
    requires symbolCount >= 1
    ensures KeyOf(CanonicalRow(canonical, symbolCount))
         == (LookupKey(Variant(canonical, symbolCount), lookupOrdinal), SymbolId(canonical % symbolCount))
  {
    hide LookupOrdinal, LookupKey, SymbolId, OrdinalRow;
    var symbolOrdinal, variant := canonical % symbolCount, Variant(canonical, symbolCount);
    OrdinalRowKey(canonical, symbolOrdinal, variant, symbolCount);
    lookupOrdinal := LookupOrdinal(symbolOrdinal, variant, symbolCount);
  }

  lemma CanonicalKeyInjective(a: nat, b: nat, symbolCount: nat)
    requires symbolCount >= 1
    requires KeyOf(CanonicalRow(a, symbolCount)) == KeyOf(CanonicalRow(b, symbolCount))
    ensures a == b
  {
    hide *;
    var m := CanonicalRowKey(a, symbolCount);
    var n := CanonicalRowKey(b, symbolCount);
    SymbolIdInjective(a % symbolCount, b % symbolCount);
    LookupKeyVariant(Variant(a, symbolCount), m, Variant(b, symbolCount), n);
    DivModInjective(a, b, symbolCount);
  }

  /** Different generated rows have different primary keys. */
  lemma RowKeysDiffer(i: nat, j: nat, step: nat, rowCount: nat, symbolCount: nat)
    requires rowCount >= 1 && symbolCount >= 1 && Coprime.Gcd(step, rowCount) == 1
    requires i < rowCount && j < rowCount
    requires KeyOf(RowAt(i, step, rowCount, symbolCount)) == KeyOf(RowAt(j, step, rowCount, symbolCount))
    ensures i == j
  {
    CanonicalKeyInjective(Coprime.Canonical(i, step, rowCount), Coprime.Canonical(j, step, rowCount), symbolCount);
    Coprime.CanonicalInjective(i, j, step, rowCount);
  }

  function Rows(step: nat, rowCount: nat, symbolCount: nat): seq<LookupRow>
    requires rowCount >= 1 && symbolCount >= 1
  {
    seq(rowCount, i requires 0 <= i < rowCount => RowAt(i, step, rowCount, symbolCount))
  }

  lemma AppendDistinct(rows: seq<LookupRow>, last: LookupRow)
    requires Distinct(multiset(rows))
    requires forall i :: 0 <= i < |rows| ==> KeyOf(rows[i]) != KeyOf(last)
    ensures Distinct(multiset(rows + [last]))
  {
    assert multiset(rows + [last]) == multiset(rows) + multiset{last};
    forall r | r in multiset(rows) ensures KeyOf(r) != KeyOf(last) {
      assert r in rows;
    }
  }

  lemma {:induction false} KeysDistinct(rows: seq<LookupRow>)
    requires forall i, j :: 0 <= i < j < |rows| ==> KeyOf(rows[i]) != KeyOf(rows[j])
    ensures Distinct(multiset(rows))
  {
    if rows != [] {
      var fewer, last := rows[..|rows| - 1], rows[|rows| - 1];
      KeysDistinct(fewer);
      AppendDistinct(fewer, last);
      assert rows == fewer + [last];
    }
  }

  lemma RowsDistinct(step: nat, rowCount: nat, symbolCount: nat)
    requires rowCount >= 1 && symbolCount >= 1 && Coprime.Gcd(step, rowCount) == 1
    ensures Distinct(multiset(Rows(step, rowCount, symbolCount)))
  {
    hide CanonicalRow, RowAt;
    var rows := Rows(step, rowCount, symbolCount);
    forall i, j | 0 <= i < j < |rows| ensures KeyOf(rows[i]) != KeyOf(rows[j]) {
      if KeyOf(rows[i]) == KeyOf(rows[j]) { RowKeysDiffer(i, j, step, rowCount, symbolCount); }
    }
    KeysDistinct(rows);
  }

  /** Whatever the coprime stride, the generated rows are those of all canonical indexes. */
  lemma EveryCanonicalRow(step: nat, rowCount: nat, symbolCount: nat)
    requires rowCount >= 1 && symbolCount >= 1 && Coprime.Gcd(step, rowCount) == 1
    ensures forall c: nat :: c < rowCount ==> CanonicalRow(c, symbolCount) in Rows(step, rowCount, symbolCount)
  {
    Coprime.VisitsEveryIndex(step, rowCount);
    hide CanonicalRow, Coprime.Canonical, Coprime.Gcd;
    forall c: nat | c < rowCount ensures CanonicalRow(c, symbolCount) in Rows(step, rowCount, symbolCount) {
      assert Coprime.Below(c, rowCount) && c in Coprime.Indexes(rowCount);
      var i: nat :| i < rowCount && Coprime.Canonical(i, step, rowCount) == c;
      assert Rows(step, rowCount, symbolCount)[i] == RowAt(i, step, rowCount, symbolCount);
    }
  }

  /** The whole screen. For every positive row count, symbol count, batch size, transaction size and page size, neither
      writer is refused, both end with the same keyed table, and that table holds every generated row exactly once. */
  method CompareWriters(rowCount: nat, symbolCount: nat, batchRows: nat, transactionBatches: nat, pageRows: nat)
    returns (direct: Option<Table>, sorted: Option<Table>, ghost rows: seq<LookupRow>)
    requires rowCount >= 1 && symbolCount >= 1 && batchRows >= 1 && transactionBatches >= 1 && pageRows >= 1
    ensures direct.Some? && sorted == direct
    ensures |direct.value| == |rows| == rowCount
    ensures Stored(direct.value, multiset(rows))
    ensures exists step: nat :: Coprime.Gcd(step, rowCount) == 1 && rows == Rows(step, rowCount, symbolCount)
    ensures forall c: nat :: c < rowCount ==> CanonicalRow(c, symbolCount) in rows
  {
    var inputStep := Coprime.CoprimeStep(rowCount);
    var generated := Rows(inputStep, rowCount, symbolCount);
    RowsDistinct(inputStep, rowCount, symbolCount);
    EveryCanonicalRow(inputStep, rowCount, symbolCount);
    ghost var inserted;
    direct, inserted := DirectWriter(generated, batchRows, transactionBatches);
    var ordered;
    sorted, ordered := SortedWriter(generated, batchRows, transactionBatches, pageRows);
    StoredUnique(direct.value, sorted.value, multiset(generated));
    rows := generated;
  }
}
