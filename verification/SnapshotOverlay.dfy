/** Reading a snapshot that is stored as a delta over a base snapshot. */
module SnapshotOverlay {
  import opened Basics

  /** A table keyed by (snapshot_id, key), and the keys that a snapshot declares deleted. */
  datatype Tables<!K(==,!new), Row> = Tables(rows: map<(string, K), Row>, deletions: set<(string, K)>)

  /** The rows that belong to one snapshot. */
  function RowsOf<K(!new), Row>(rows: map<(string, K), Row>, snapshot: string): (own: map<K, Row>)
    ensures forall k :: k in own <==> (snapshot, k) in rows
    ensures forall k :: k in own ==> own[k] == rows[(snapshot, k)]
  {
    var keys := set p | p in rows && p.0 == snapshot :: p.1;
    assert forall k :: (snapshot, k) in rows ==> (snapshot, k).1 in keys;
    map k | k in keys && (snapshot, k) in rows :: rows[(snapshot, k)]
  }

  function DeletionsOf<K(!new)>(deletions: set<(string, K)>, snapshot: string): (own: set<K>)
    ensures forall k :: k in own <==> (snapshot, k) in deletions
  {
    var keys := set p | p in deletions && p.0 == snapshot :: p.1;
    assert forall k :: (snapshot, k) in deletions ==> (snapshot, k).1 in keys;
    keys
  }

  /** The base rows that the overlay query lets through. */
  function Inherited<K(!new), Row>(current: map<K, Row>, base: map<K, Row>, deleted: set<K>): map<K, Row> {
    map k | k in base && k !in current && k !in deleted :: base[k]
  }

  /** The effective-row query: all current rows, UNION ALL the base rows that are neither overridden nor deleted. */
  ghost function EffectiveRows<K(!new), Row>(t: Tables<K, Row>, snapshot: string, base: string): multiset<(K, Row)> {
    var current := RowsOf(t.rows, snapshot);
    multiset(current.Items)
    + multiset(Inherited(current, RowsOf(t.rows, base), DeletionsOf(t.deletions, snapshot)).Items)
  }

  lemma DisjointUnion<K(!new), Row>(a: map<K, Row>, b: map<K, Row>)
    requires a.Keys !! b.Keys
    ensures multiset(a.Items) + multiset(b.Items) == multiset((a + b).Items)
  {
    assert a.Items !! b.Items by {
      forall p | p in a.Items ensures p !in b.Items { assert p.0 in a.Keys; }
    }
    assert (a + b).Items == a.Items + b.Items by {
      forall p ensures p in (a + b).Items <==> p in a.Items + b.Items {
        if p in (a + b).Items { assert p.0 in a + b && (a + b)[p.0] == p.1; }
        if p in a.Items { assert p.0 in a && a[p.0] == p.1; }
        if p in b.Items { assert p.0 in b && b[p.0] == p.1; }
      }
    }
  }

  lemma ItemsEqual<K(!new), Row>(a: map<K, Row>, b: map<K, Row>)
    ensures multiset(a.Items) == multiset(b.Items) <==> a == b
  {
    if multiset(a.Items) == multiset(b.Items) {
      forall p ensures p in a.Items <==> p in b.Items {
        assert p in multiset(a.Items) <==> p in multiset(b.Items);
      }
      forall k | k in a ensures k in b && b[k] == a[k] { assert (k, a[k]) in b.Items; }
      forall k | k in b ensures k in a { assert (k, b[k]) in a.Items; }
      assert a.Keys == b.Keys;
    }
  }

  /** The query is the overlay of two maps: keys are unique, and a current row wins over any deletion of its key. */
  lemma EffectiveIsOverlay<K(!new), Row>(t: Tables<K, Row>, snapshot: string, base: string)
    ensures var current := RowsOf(t.rows, snapshot);
            var overlay := Inherited(current, RowsOf(t.rows, base), DeletionsOf(t.deletions, snapshot)) + current;
            && EffectiveRows(t, snapshot, base) == multiset(overlay.Items)
            && forall k :: k in current ==> overlay[k] == current[k]
  {
    var current := RowsOf(t.rows, snapshot);
    var inherited := Inherited(current, RowsOf(t.rows, base), DeletionsOf(t.deletions, snapshot));
    DisjointUnion(current, inherited);
    assert current + inherited == inherited + current;
  }

  /** Row by row: a current row is returned once; a base row once if neither overridden nor deleted; nothing else is. */
  lemma EffectiveRowCount<K(!new), Row>(t: Tables<K, Row>, snapshot: string, base: string, key: K, row: Row)
    ensures EffectiveRows(t, snapshot, base)[(key, row)]
         == if (snapshot, key) in t.rows then (if t.rows[(snapshot, key)] == row then 1 else 0)
            else if (base, key) in t.rows && t.rows[(base, key)] == row && (snapshot, key) !in t.deletions then 1 else 0
  {
    var current, from := RowsOf(t.rows, snapshot), RowsOf(t.rows, base);
    var inherited := Inherited(current, from, DeletionsOf(t.deletions, snapshot));
    ItemCount(current, key, row);
    ItemCount(inherited, key, row);
  }

  lemma ItemCount<K(!new), Row>(m: map<K, Row>, key: K, row: Row)
    ensures multiset(m.Items)[(key, row)] == if key in m && m[key] == row then 1 else 0
  {
    if key in m && m[key] == row { assert (key, row) in m.Items; }
    if (key, row) in m.Items { assert key in m && m[key] == row; }
  }

  /** The delta fits the full table: current rows are the full ones, every other full row is an undeleted base row, and
      every base row absent from the full table is deleted. */
  ghost predicate Fits<K(!new), Row>(current: map<K, Row>, base: map<K, Row>, deleted: set<K>, full: map<K, Row>) {
    && (forall k :: k in current ==> k in full && full[k] == current[k])
    && (forall k :: k in full && k !in current ==> k in base && base[k] == full[k] && k !in deleted)
    && (forall k :: k in base && k !in full ==> k in deleted)
  }

  lemma FittingOverlay<K(!new), Row>(current: map<K, Row>, from: map<K, Row>, deleted: set<K>, full: map<K, Row>)
    requires Fits(current, from, deleted, full)
    ensures Inherited(current, from, deleted) + current == full
  {
    var overlay := Inherited(current, from, deleted) + current;
    assert overlay.Keys == full.Keys;
  }

  lemma OverlayFits<K(!new), Row>(current: map<K, Row>, from: map<K, Row>, deleted: set<K>, full: map<K, Row>)
    requires Inherited(current, from, deleted) + current == full
    ensures Fits(current, from, deleted, full)
  {
    var inherited := Inherited(current, from, deleted);
    forall k | k in full && k !in current ensures k in from && from[k] == full[k] && k !in deleted {
      assert k in inherited;
    }
    forall k | k in from && k !in full ensures k in deleted {
      assert k !in inherited && k !in current;
    }
  }

  /** The query reads back exactly the full table, each row once, if and only if the delta fits it. */
  lemma ReadsBackIffFits<K(!new), Row>(t: Tables<K, Row>, snapshot: string, base: string, full: map<K, Row>)
    ensures EffectiveRows(t, snapshot, base) == multiset(full.Items)
       <==> Fits(RowsOf(t.rows, snapshot), RowsOf(t.rows, base), DeletionsOf(t.deletions, snapshot), full)
  {
    EffectiveIsOverlay(t, snapshot, base);
    hide *;
    var current, from := RowsOf(t.rows, snapshot), RowsOf(t.rows, base);
    var deleted := DeletionsOf(t.deletions, snapshot);
    var overlay := Inherited(current, from, deleted) + current;
    ItemsEqual(overlay, full);
    if Fits(current, from, deleted, full) {
      FittingOverlay(current, from, deleted, full);
    }
    if overlay == full {
      OverlayFits(current, from, deleted, full);
    }
  }

  /** What activation stores for a snapshot over a base: the changed and new rows, and the vanished keys. */
  function ChangedRows<K(!new), Row(==)>(base: map<K, Row>, full: map<K, Row>): map<K, Row> {
    map k | k in full && (k !in base || base[k] != full[k]) :: full[k]
  }

  function VanishedKeys<K(!new), Row>(base: map<K, Row>, full: map<K, Row>): set<K> {
    base.Keys - full.Keys
  }

  /** Reading an activated delta over its base equals rebuilding the full table, for any base and any full table. */
  lemma OverlayEqualsRebuild<K(!new), Row>(t: Tables<K, Row>, snapshot: string, base: string, full: map<K, Row>)
    requires RowsOf(t.rows, snapshot) == ChangedRows(RowsOf(t.rows, base), full)
    requires DeletionsOf(t.deletions, snapshot) == VanishedKeys(RowsOf(t.rows, base), full)
    ensures EffectiveRows(t, snapshot, base) == multiset(full.Items)
  {
    hide EffectiveRows;
    ReadsBackIffFits(t, snapshot, base, full);
  }

  /** And no smaller delta would do: every delta that fits stores at least those rows and deletes at least those keys. */
  lemma LeastDelta<K(!new), Row>(current: map<K, Row>, base: map<K, Row>, deleted: set<K>, full: map<K, Row>)
    requires Fits(current, base, deleted, full)
    ensures forall k :: k in ChangedRows(base, full) ==> k in current && current[k] == ChangedRows(base, full)[k]
    ensures VanishedKeys(base, full) <= deleted
  {
    forall k | k in ChangedRows(base, full) ensures k in current {
      assert k in full && (k !in base || base[k] != full[k]);
    }
  }

  // ----- The symbol lookup -----

  datatype Provenance = Alias | Symbol

  datatype LookupRow = LookupRow(
    resolutionDomain: string, exported: bool, provenance: Provenance, evidenceEdgeId: Option<string>,
    evidencePath: Option<string>)

  /** (lookup_key, symbol_id) */
  type LookupKey = (string, string)

  /** The lookup table with the tables of (snapshot_id, symbol_id) deletions and of (snapshot_id, path) files and file
      deletions; the lookup query does not read the file deletions. */
  datatype LookupTables = LookupTables(
    rows: map<(string, LookupKey), LookupRow>, symbolDeletions: set<(string, string)>,
    files: set<(string, string)>, fileDeletions: set<(string, string)>)

  /** A base row that the lookup query drops: its symbol is deleted, or it is an alias whose evidence file changed. */
  predicate Hidden(key: LookupKey, row: LookupRow, deletedSymbols: set<string>, changedFiles: set<string>) {
    || key.1 in deletedSymbols
    || !(row.provenance == Symbol || row.evidencePath.None? || row.evidencePath.value !in changedFiles)
  }

  ghost function HiddenKeys(base: map<LookupKey, LookupRow>, deletedSymbols: set<string>, changedFiles: set<string>)
    : set<LookupKey>
  {
    set k | k in base && Hidden(k, base[k], deletedSymbols, changedFiles)
  }

  ghost function EffectiveLookup(t: LookupTables, snapshot: string, base: string): multiset<(LookupKey, LookupRow)> {
    var current, from := RowsOf(t.rows, snapshot), RowsOf(t.rows, base);
    var hidden := HiddenKeys(from, DeletionsOf(t.symbolDeletions, snapshot), DeletionsOf(t.files, snapshot));
    multiset(current.Items) + multiset(Inherited(current, from, hidden).Items)
  }

  /** Row by row: a current row is returned once; a base row once if it is not overridden, its symbol is not deleted, and
      it is not an alias of a file of the snapshot; nothing else is. */
  lemma EffectiveLookupCount(t: LookupTables, snapshot: string, base: string, key: LookupKey, row: LookupRow)
    ensures EffectiveLookup(t, snapshot, base)[(key, row)]
         == if (snapshot, key) in t.rows then (if t.rows[(snapshot, key)] == row then 1 else 0)
            else if && (base, key) in t.rows && t.rows[(base, key)] == row
                    && (snapshot, key.1) !in t.symbolDeletions
                    && (row.provenance == Symbol || row.evidencePath.None?
                        || (snapshot, row.evidencePath.value) !in t.files)
                 then 1 else 0
  {
    var current, from := RowsOf(t.rows, snapshot), RowsOf(t.rows, base);
    var hidden := HiddenKeys(from, DeletionsOf(t.symbolDeletions, snapshot), DeletionsOf(t.files, snapshot));
    ItemCount(current, key, row);
    ItemCount(Inherited(current, from, hidden), key, row);
  }

  lemma LookupOverlay(t: LookupTables, snapshot: string, base: string, full: map<LookupKey, LookupRow>)
    ensures var current, from := RowsOf(t.rows, snapshot), RowsOf(t.rows, base);
            var hidden := HiddenKeys(from, DeletionsOf(t.symbolDeletions, snapshot), DeletionsOf(t.files, snapshot));
            EffectiveLookup(t, snapshot, base) == multiset(full.Items)
            <==> Inherited(current, from, hidden) + current == full
  {
    hide HiddenKeys;
    var current, from := RowsOf(t.rows, snapshot), RowsOf(t.rows, base);
    var hidden := HiddenKeys(from, DeletionsOf(t.symbolDeletions, snapshot), DeletionsOf(t.files, snapshot));
    var inherited := Inherited(current, from, hidden);
    DisjointUnion(current, inherited);
    assert current + inherited == inherited + current;
    ItemsEqual(inherited + current, full);
  }

  /** The lookup query reads back exactly the full table, each row once, if and only if the stored rows fit it, where a
      base row counts as deleted when its symbol is deleted or it is an alias of a changed evidence file. */
  lemma LookupReadsBackIffFits(t: LookupTables, snapshot: string, base: string, full: map<LookupKey, LookupRow>)
    ensures var current, from := RowsOf(t.rows, snapshot), RowsOf(t.rows, base);
            var hidden := HiddenKeys(from, DeletionsOf(t.symbolDeletions, snapshot), DeletionsOf(t.files, snapshot));
            EffectiveLookup(t, snapshot, base) == multiset(full.Items) <==> Fits(current, from, hidden, full)
  {
    LookupOverlay(t, snapshot, base, full);
    hide *;
    var current, from := RowsOf(t.rows, snapshot), RowsOf(t.rows, base);
    var hidden := HiddenKeys(from, DeletionsOf(t.symbolDeletions, snapshot), DeletionsOf(t.files, snapshot));
    if Fits(current, from, hidden, full) {
      FittingOverlay(current, from, hidden, full);
    }
    if Inherited(current, from, hidden) + current == full {
      OverlayFits(current, from, hidden, full);
    }
  }

  /** A snapshot over a base is activated without lookup rows of its own: it reads back the full table if and only if
      that table is the base one less the hidden rows. */
  lemma UnstagedFitsIff(from: map<LookupKey, LookupRow>, full: map<LookupKey, LookupRow>, deletedSymbols: set<string>,
                        changedFiles: set<string>)
    ensures Fits(map[], from, HiddenKeys(from, deletedSymbols, changedFiles), full)
       <==> full == from - HiddenKeys(from, deletedSymbols, changedFiles)
  {
    hide Hidden;
    var hidden := HiddenKeys(from, deletedSymbols, changedFiles);
    if Fits(map[], from, hidden, full) {
      assert full.Keys == (from - hidden).Keys;
    }
  }

  /** Staged rows: new and changed ones, and every alias row whose evidence file changed. */
  function StagedLookup(base: map<LookupKey, LookupRow>, full: map<LookupKey, LookupRow>, changedFiles: set<string>)
    : map<LookupKey, LookupRow>
  {
    map k | k in full && (|| k !in base || base[k] != full[k]
                          || (full[k].provenance == Alias && full[k].evidencePath.Some?
                              && full[k].evidencePath.value in changedFiles)) :: full[k]
  }

  /** With those rows staged the full table is read back if and only if every vanished base row belonged to a deleted
      symbol or was an alias whose evidence file is among the changed files, and no unstaged row of the full table
      belongs to a deleted symbol. */
  lemma StagedFitsIff(from: map<LookupKey, LookupRow>, full: map<LookupKey, LookupRow>, deletedSymbols: set<string>,
                      changedFiles: set<string>)
    ensures Fits(StagedLookup(from, full, changedFiles), from, HiddenKeys(from, deletedSymbols, changedFiles), full)
       <==> && (forall k :: k in from && k !in full ==> Hidden(k, from[k], deletedSymbols, changedFiles))
            && (forall k :: k in full && k !in StagedLookup(from, full, changedFiles) ==> k.1 !in deletedSymbols)
  {
    var staged, hidden := StagedLookup(from, full, changedFiles), HiddenKeys(from, deletedSymbols, changedFiles);
    forall k | k in full && k !in staged ensures k in from && (k in hidden <==> k.1 in deletedSymbols) {
      assert from[k] == full[k];
    }
  }

  /** Everything to be staged is staged, and the symbol of the stale key survives: it is not deleted and owns another
      row of the full table. Yet the query returns the base row of the stale key, which the full table lacks. */
  ghost predicate Stale(t: LookupTables, snapshot: string, base: string, full: map<LookupKey, LookupRow>,
                        stale: LookupKey, own: LookupKey)
  {
    var from := RowsOf(t.rows, base);
    && RowsOf(t.rows, snapshot) == StagedLookup(from, full, DeletionsOf(t.files, snapshot))
    && own in full && own.1 == stale.1 && stale.1 !in DeletionsOf(t.symbolDeletions, snapshot)
    && stale in from && stale !in full
    && EffectiveLookup(t, snapshot, base)[(stale, from[stale])] > 0
  }

  /** The row's evidence file is a file of the base that is deleted outright. */
  predicate EvidenceDeleted(t: LookupTables, snapshot: string, base: string, row: LookupRow) {
    && row.evidencePath.Some?
    && (base, row.evidencePath.value) in t.files && (snapshot, row.evidencePath.value) !in t.files
    && (snapshot, row.evidencePath.value) in t.fileDeletions
  }

  /** The row's evidence file is a file of the base that changed. */
  predicate EvidenceChanged(t: LookupTables, snapshot: string, base: string, row: LookupRow) {
    && row.evidencePath.Some?
    && (base, row.evidencePath.value) in t.files && (snapshot, row.evidencePath.value) in t.files
  }

  /** An alias row stays visible although its evidence file is deleted outright; for any snapshot over any other one, any
      two lookup keys of one symbol and any file. */
  lemma DeletedEvidenceFileStaysVisible(snapshot: string, base: string, alias: LookupKey, own: LookupKey, file: string)
    requires snapshot != base && alias != own && alias.1 == own.1
    ensures exists t: LookupTables, full: map<LookupKey, LookupRow> ::
              && Stale(t, snapshot, base, full, alias, own)
              && RowsOf(t.rows, base)[alias].provenance == Alias
              && EvidenceDeleted(t, snapshot, base, RowsOf(t.rows, base)[alias])
  {
    var kept := LookupRow("domain", true, Symbol, None, None);
    var row := LookupRow("domain", true, Alias, Some("edge"), Some(file));
    var t := LookupTables(map[(base, own) := kept, (base, alias) := row], {}, {(base, file)}, {(snapshot, file)});
    hide RowsOf, Stale;
    StaleRow(t, snapshot, base, alias, row, own, kept);
    assert Stale(t, snapshot, base, map[own := kept], alias, own);
  }

  /** A symbol row of a changed file stays visible although the surviving symbol dropped that lookup key. */
  lemma DroppedSymbolKeyStaysVisible(snapshot: string, base: string, dropped: LookupKey, own: LookupKey, file: string)
    requires snapshot != base && dropped != own && dropped.1 == own.1
    ensures exists t: LookupTables, full: map<LookupKey, LookupRow> ::
              && Stale(t, snapshot, base, full, dropped, own)
              && RowsOf(t.rows, base)[dropped].provenance == Symbol
              && EvidenceChanged(t, snapshot, base, RowsOf(t.rows, base)[dropped])
  {
    var row := LookupRow("domain", true, Symbol, None, Some(file));
    var t := LookupTables(map[(base, own) := row, (base, dropped) := row], {}, {(base, file), (snapshot, file)}, {});
    hide RowsOf, Stale;
    StaleRow(t, snapshot, base, dropped, row, own, row);
    assert Stale(t, snapshot, base, map[own := row], dropped, own);
  }

  /** A base with a stale row and a kept symbol row, over which nothing is stored and nothing hides the stale row. */
  lemma StaleRow(t: LookupTables, snapshot: string, base: string, stale: LookupKey, row: LookupRow, own: LookupKey,
                 kept: LookupRow)
    requires snapshot != base && stale != own && stale.1 == own.1
    requires t.rows == map[(base, own) := kept, (base, stale) := row]
    requires kept.provenance == Symbol && t.symbolDeletions == {}
    requires row.provenance == Alias && row.evidencePath.Some? ==> (snapshot, row.evidencePath.value) !in t.files
    ensures Stale(t, snapshot, base, map[own := kept], stale, own) && RowsOf(t.rows, base)[stale] == row
  {
    var from, none: map<LookupKey, LookupRow> := RowsOf(t.rows, base), map[];
    assert (base, stale) in t.rows && (base, own) in t.rows;
    assert RowsOf(t.rows, snapshot) == none by {
      forall k ensures k !in RowsOf(t.rows, snapshot) {}
    }
    assert StagedLookup(from, map[own := kept], DeletionsOf(t.files, snapshot)) == none;
    var hidden := HiddenKeys(from, DeletionsOf(t.symbolDeletions, snapshot), DeletionsOf(t.files, snapshot));
    assert stale !in hidden;
    var inherited := Inherited(none, from, hidden);
    assert stale in inherited && inherited[stale] == row;
    assert (stale, row) in inherited.Items;
  }
}
