/**
 * What a processing run promises: the output is the target with one status column
 * more, a row says "YES" exactly when a reference row has the same stripped key, the
 * count is the number of "YES" rows, and the outcome depends only on the set of
 * selected columns and on their mapping entries.
 */
module MatchingProperties {
  import opened Wrappers
  import opened Text
  import opened Matching

  // ----- keys -----

  /** Two rows have keys, and the keys are equal exactly when the rows agree on every selected column after stripping. */
  ghost predicate SameCells(a: Row, sa: Side, b: Row, sb: Side, mapping: map<string, string>, cols: seq<string>) {
    forall c :: c in cols && c in mapping && Column(sa, mapping, c) in a && Column(sb, mapping, c) in b ==>
      Strip(a[Column(sa, mapping, c)]) == Strip(b[Column(sb, mapping, c)])
  }

  /** Keys compare cell by cell: two keys are equal exactly when every selected column strips to the same value. */
  lemma KeysEqualIff(a: Row, sa: Side, b: Row, sb: Side, mapping: map<string, string>, cols: seq<string>)
    requires HasKey(a, mapping, cols, sa) && HasKey(b, mapping, cols, sb)
    ensures CompositeKey(a, mapping, cols, sa) == CompositeKey(b, mapping, cols, sb) <==> SameCells(a, sa, b, sb, mapping, cols)
  {
    KeyValues(a, mapping, cols, sa);
    KeyValues(b, mapping, cols, sb);
    var ka := CompositeKey(a, mapping, cols, sa).value;
    var kb := CompositeKey(b, mapping, cols, sb).value;
    if ka == kb {
      forall c | c in cols && c in mapping && Column(sa, mapping, c) in a && Column(sb, mapping, c) in b
        ensures Strip(a[Column(sa, mapping, c)]) == Strip(b[Column(sb, mapping, c)])
      {
        var p :| 0 <= p < |cols| && cols[p] == c;
        assert ka[p] == kb[p];
      }
    }
    if SameCells(a, sa, b, sb, mapping, cols) {
      assert forall p :: 0 <= p < |cols| ==> ka[p] == kb[p];
    }
  }

  /** Matching is exact string equality after stripping: surrounding blanks are ignored, letter case is not. */
  lemma MatchIsStrippedAndCaseSensitive()
    ensures CompositeKey(map["Last Name" := " Doe "], map["Last Name" := "Surname"], ["Last Name"], Reference)
         == CompositeKey(map["Surname" := "Doe"], map["Last Name" := "Surname"], ["Last Name"], Target)
    ensures CompositeKey(map["Last Name" := "doe"], map["Last Name" := "Surname"], ["Last Name"], Reference)
         != CompositeKey(map["Surname" := "Doe"], map["Last Name" := "Surname"], ["Last Name"], Target)
  {
    var mapping := map["Last Name" := "Surname"];
    var cols := ["Last Name"];
    var padded, lower, target := map["Last Name" := " Doe "], map["Last Name" := "doe"], map["Surname" := "Doe"];
    StripIgnoresPadding([' '], "Doe", [' ']);
    assert [' '] + "Doe" + [' '] == " Doe ";
    StripUnpadded("Doe");
    StripUnpadded("doe");
    CompositeKeyExists(padded, mapping, cols, Reference);
    CompositeKeyExists(lower, mapping, cols, Reference);
    CompositeKeyExists(target, mapping, cols, Target);
    KeyValues(padded, mapping, cols, Reference);
    KeyValues(lower, mapping, cols, Reference);
    KeyValues(target, mapping, cols, Target);
    assert CompositeKey(lower, mapping, cols, Reference).value[0] == "doe";
    assert CompositeKey(target, mapping, cols, Target).value[0] == "Doe";
    assert "doe"[0] != "Doe"[0];
  }

  /** The key of a row does not depend on a column that no selected column is read from. */
  lemma {:induction false} KeyIgnoresOtherColumns(row: Row, h: string, cell: string, mapping: map<string, string>, cols: seq<string>, side: Side)
    requires forall p :: 0 <= p < |cols| && cols[p] in mapping ==> Column(side, mapping, cols[p]) != h
    ensures CompositeKey(row[h := cell], mapping, cols, side) == CompositeKey(row, mapping, cols, side)
    decreases |cols|
  {
    if cols != [] {
      KeyIgnoresOtherColumns(row, h, cell, mapping, cols[1..], side);
    }
  }

  /** A key is read through the mapping entries of the selected columns only. */
  lemma {:induction false} KeyUsesSelectedEntries(row: Row, m1: map<string, string>, m2: map<string, string>, cols: seq<string>, side: Side)
    requires forall p :: 0 <= p < |cols| ==> (cols[p] in m1 <==> cols[p] in m2) && (cols[p] in m1 ==> m1[cols[p]] == m2[cols[p]])
    ensures CompositeKey(row, m1, cols, side) == CompositeKey(row, m2, cols, side)
    decreases |cols|
  {
    if cols != [] {
      KeyUsesSelectedEntries(row, m1, m2, cols[1..], side);
    }
  }

  /** Whether a key exists depends on the set of selected columns, not on their order. */
  lemma HasKeyIgnoresOrder(row: Row, mapping: map<string, string>, cols1: seq<string>, cols2: seq<string>, side: Side)
    requires forall c :: c in cols1 <==> c in cols2
    ensures HasKey(row, mapping, cols1, side) <==> HasKey(row, mapping, cols2, side)
  {
    CompositeKeyExists(row, mapping, cols1, side);
    CompositeKeyExists(row, mapping, cols2, side);
    if HasKey(row, mapping, cols1, side) {
      forall p | 0 <= p < |cols2|
        ensures cols2[p] in mapping && Column(side, mapping, cols2[p]) in row
      {
        assert cols2[p] in cols1;
        var q :| 0 <= q < |cols1| && cols1[q] == cols2[p];
      }
    }
    if HasKey(row, mapping, cols2, side) {
      forall p | 0 <= p < |cols1|
        ensures cols1[p] in mapping && Column(side, mapping, cols1[p]) in row
      {
        assert cols1[p] in cols2;
        var q :| 0 <= q < |cols2| && cols2[q] == cols1[p];
      }
    }
  }

  /** Whether two keys are equal depends on the set of selected columns, not on their order. */
  lemma KeysEqualIgnoresOrder(a: Row, sa: Side, b: Row, sb: Side, mapping: map<string, string>, cols1: seq<string>, cols2: seq<string>)
    requires forall c :: c in cols1 <==> c in cols2
    requires HasKey(a, mapping, cols1, sa) && HasKey(b, mapping, cols1, sb)
    ensures HasKey(a, mapping, cols2, sa) && HasKey(b, mapping, cols2, sb)
    ensures CompositeKey(a, mapping, cols1, sa) == CompositeKey(b, mapping, cols1, sb)
        <==> CompositeKey(a, mapping, cols2, sa) == CompositeKey(b, mapping, cols2, sb)
  {
    HasKeyIgnoresOrder(a, mapping, cols1, cols2, sa);
    HasKeyIgnoresOrder(b, mapping, cols1, cols2, sb);
    KeysEqualIff(a, sa, b, sb, mapping, cols1);
    KeysEqualIff(a, sa, b, sb, mapping, cols2);
    assert SameCells(a, sa, b, sb, mapping, cols1) <==> SameCells(a, sa, b, sb, mapping, cols2);
  }

  // ----- the lookup set -----

  /** The lookup holds exactly the keys of the reference rows. */
  lemma LookupContents(rows: seq<Row>, mapping: map<string, string>, cols: seq<string>, key: Key)
    requires Lookup(rows, mapping, cols).Success?
    ensures key in Lookup(rows, mapping, cols).value <==>
      exists v :: 0 <= v < |rows| && CompositeKey(rows[v], mapping, cols, Reference) == Success(key)
  {
    var u := FirstFailure(rows, mapping, cols, Reference);
    assert u == |rows|;
    KeysUpToMembers(rows, mapping, cols, Reference, |rows|, key);
  }

  /** The keys of the first n rows are exactly the keys those rows have. */
  lemma {:induction false} KeysUpToMembers(rows: seq<Row>, mapping: map<string, string>, cols: seq<string>, side: Side, n: nat, key: Key)
    requires n <= |rows|
    ensures key in KeysUpTo(rows, mapping, cols, side, n) <==>
      exists v :: 0 <= v < n && CompositeKey(rows[v], mapping, cols, side) == Success(key)
    decreases n
  {
    if n > 0 {
      KeysUpToMembers(rows, mapping, cols, side, n - 1, key);
      if CompositeKey(rows[n - 1], mapping, cols, side) == Success(key) {
        assert key in KeysUpTo(rows, mapping, cols, side, n);
      } else if exists v :: 0 <= v < n && CompositeKey(rows[v], mapping, cols, side) == Success(key) {
        var v :| 0 <= v < n && CompositeKey(rows[v], mapping, cols, side) == Success(key);
        assert v < n - 1;
      }
    }
  }

  lemma {:induction false} KeysUpToSize(rows: seq<Row>, mapping: map<string, string>, cols: seq<string>, side: Side, n: nat)
    requires n <= |rows|
    ensures |KeysUpTo(rows, mapping, cols, side, n)| <= n
  {
    if n > 0 {
      KeysUpToSize(rows, mapping, cols, side, n - 1);
      var before := KeysUpTo(rows, mapping, cols, side, n - 1);
      if HasKey(rows[n - 1], mapping, cols, side) {
        KeysUpToNext(rows, mapping, cols, side, n - 1);
        AddOneKey(before, CompositeKey(rows[n - 1], mapping, cols, side).value);
      } else {
        KeysUpToSkip(rows, mapping, cols, side, n - 1);
      }
    }
  }

  lemma AddOneKey(keys: set<Key>, key: Key)
    ensures |keys + {key}| <= |keys| + 1
  {
  }

  /** The lookup has at most one key per reference row; rows with the same key share one entry. */
  lemma LookupSize(rows: seq<Row>, mapping: map<string, string>, cols: seq<string>)
    requires Lookup(rows, mapping, cols).Success?
    ensures |Lookup(rows, mapping, cols).value| <= |rows|
  {
    KeysUpToSize(rows, mapping, cols, Reference, |rows|);
  }

  // ----- a run -----

  /** An output row holds the cells of its target row, and "YES" or "NO" in the status column. */
  ghost predicate KeepsCells(out: Row, row: Row, status: string) {
    && out.Keys == row.Keys + {status}
    && (forall h :: h in row && h != status ==> out[h] == row[h])
    && status in out && (out[status] == "YES" || out[status] == "NO")
  }

  /** The output is the target, in the same row order, with the status column added or overwritten. */
  lemma RunShape(reference: Dataset, target: Dataset, mapping: map<string, string>, cols: seq<string>, status: string)
    requires Run(Some(reference), Some(target), mapping, cols, status).Success?
    ensures var out := Run(Some(reference), Some(target), mapping, cols, status).value.data;
      && out.headers == (if status in target.headers then target.headers else target.headers + [status])
      && |out.rows| == |target.rows|
      && forall u :: 0 <= u < |target.rows| ==> KeepsCells(out.rows[u], target.rows[u], status)
  {
    var filled := WithStatus(target, status);
    var lookup := Lookup(reference.rows, mapping, cols).value;
    var rows := Tagged(filled.rows, mapping, cols, status, lookup).value;
    assert FirstFailure(filled.rows, mapping, cols, Target) == |filled.rows|;
    forall u | 0 <= u < |target.rows|
      ensures KeepsCells(rows[u], target.rows[u], status)
    {
      assert rows[u] == TagRow(filled.rows[u], mapping, cols, status, lookup);
    }
  }

  /**
   * A target row is tagged "YES" exactly when some reference row has the same key as
   * the row the tagger reads, which is the target row with "NO" in the status column.
   */
  lemma RunTagsMatches(reference: Dataset, target: Dataset, mapping: map<string, string>, cols: seq<string>, status: string)
    requires Run(Some(reference), Some(target), mapping, cols, status).Success?
    ensures var out := Run(Some(reference), Some(target), mapping, cols, status).value.data;
      && |out.rows| == |target.rows|
      && forall u :: 0 <= u < |target.rows| ==>
           status in out.rows[u]
           && out.rows[u][status]
              == if exists v :: 0 <= v < |reference.rows|
                      && CompositeKey(reference.rows[v], mapping, cols, Reference)
                         == CompositeKey(target.rows[u][status := "NO"], mapping, cols, Target)
                 then "YES" else "NO"
  {
    var filled := WithStatus(target, status);
    var lookup := Lookup(reference.rows, mapping, cols).value;
    var rows := Tagged(filled.rows, mapping, cols, status, lookup).value;
    assert FirstFailure(filled.rows, mapping, cols, Target) == |filled.rows|;
    forall u | 0 <= u < |target.rows|
      ensures status in rows[u]
      ensures rows[u][status]
        == if exists v :: 0 <= v < |reference.rows|
                && CompositeKey(reference.rows[v], mapping, cols, Reference)
                   == CompositeKey(target.rows[u][status := "NO"], mapping, cols, Target)
           then "YES" else "NO"
    {
      assert filled.rows[u] == target.rows[u][status := "NO"];
      assert rows[u] == TagRow(filled.rows[u], mapping, cols, status, lookup);
      LookupContents(reference.rows, mapping, cols, CompositeKey(filled.rows[u], mapping, cols, Target).value);
    }
  }

  /** When no selected column reads the status column, a row is tagged by its own cells. */
  lemma RunTagsOwnCells(reference: Dataset, target: Dataset, mapping: map<string, string>, cols: seq<string>, status: string)
    requires Run(Some(reference), Some(target), mapping, cols, status).Success?
    requires forall p :: 0 <= p < |cols| && cols[p] in mapping ==> mapping[cols[p]] != status
    ensures var out := Run(Some(reference), Some(target), mapping, cols, status).value.data;
      && |out.rows| == |target.rows|
      && forall u :: 0 <= u < |target.rows| ==>
           status in out.rows[u]
           && out.rows[u][status]
              == if exists v :: 0 <= v < |reference.rows|
                      && CompositeKey(reference.rows[v], mapping, cols, Reference)
                         == CompositeKey(target.rows[u], mapping, cols, Target)
                 then "YES" else "NO"
  {
    RunTagsMatches(reference, target, mapping, cols, status);
    forall u | 0 <= u < |target.rows|
      ensures CompositeKey(target.rows[u][status := "NO"], mapping, cols, Target)
           == CompositeKey(target.rows[u], mapping, cols, Target)
    {
      KeyIgnoresOtherColumns(target.rows[u], status, "NO", mapping, cols, Target);
    }
  }

  /** One output row: "YES" when some reference row has the target row's key, "NO" otherwise. */
  lemma RowTag(reference: Dataset, target: Dataset, mapping: map<string, string>, cols: seq<string>, status: string, u: nat)
    requires Run(Some(reference), Some(target), mapping, cols, status).Success?
    requires forall p :: 0 <= p < |cols| && cols[p] in mapping ==> mapping[cols[p]] != status
    requires u < |target.rows|
    ensures var out := Run(Some(reference), Some(target), mapping, cols, status).value.data;
      && u < |out.rows| && status in out.rows[u]
      && out.rows[u][status]
         == if exists v :: 0 <= v < |reference.rows|
                 && CompositeKey(reference.rows[v], mapping, cols, Reference) == CompositeKey(target.rows[u], mapping, cols, Target)
            then "YES" else "NO"
  {
    RunTagsOwnCells(reference, target, mapping, cols, status);
  }

  /** A target row whose key is shared by some reference row comes out tagged "YES". */
  lemma RowTagYes(reference: Dataset, target: Dataset, mapping: map<string, string>, cols: seq<string>, status: string, u: nat, v: nat)
    requires Run(Some(reference), Some(target), mapping, cols, status).Success?
    requires forall p :: 0 <= p < |cols| && cols[p] in mapping ==> mapping[cols[p]] != status
    requires u < |target.rows| && v < |reference.rows|
    requires CompositeKey(reference.rows[v], mapping, cols, Reference) == CompositeKey(target.rows[u], mapping, cols, Target)
    ensures var out := Run(Some(reference), Some(target), mapping, cols, status).value.data;
      u < |out.rows| && status in out.rows[u] && out.rows[u][status] == "YES"
  {
    RowTag(reference, target, mapping, cols, status, u);
  }

  /** The indices of the rows whose status column holds "YES". */
  function YesRows(rows: seq<Row>, status: string): set<nat> {
    set u: nat | u < |rows| && status in rows[u] && rows[u][status] == "YES"
  }

  lemma {:induction false} CountYesIsYesRows(rows: seq<Row>, status: string)
    ensures CountYes(rows, status) == |YesRows(rows, status)|
    decreases |rows|
  {
    if rows != [] {
      var n := |rows| - 1;
      var init := rows[..n];
      CountYesIsYesRows(init, status);
      var last := rows[n];
      if status in last && last[status] == "YES" {
        assert YesRows(rows, status) == YesRows(init, status) + {n};
      } else {
        assert YesRows(rows, status) == YesRows(init, status);
      }
    }
  }

  /** `matches_found` is the number of output rows tagged "YES". */
  lemma RunCountsMatches(reference: Dataset, target: Dataset, mapping: map<string, string>, cols: seq<string>, status: string)
    requires Run(Some(reference), Some(target), mapping, cols, status).Success?
    ensures var out := Run(Some(reference), Some(target), mapping, cols, status).value;
      out.matches == |YesRows(out.data.rows, status)|
  {
    var out := Run(Some(reference), Some(target), mapping, cols, status).value;
    CountYesIsYesRows(out.data.rows, status);
  }

  /** Every row of a table has a key exactly when the table is empty or each selected column is mapped and is a column of its rows. */
  lemma AllRowsHaveKeys(rows: seq<Row>, columns: set<string>, mapping: map<string, string>, cols: seq<string>, side: Side)
    requires forall u :: 0 <= u < |rows| ==> rows[u].Keys == columns
    ensures FirstFailure(rows, mapping, cols, side) == |rows| <==>
      (|rows| == 0 || forall p :: 0 <= p < |cols| ==> cols[p] in mapping && Column(side, mapping, cols[p]) in columns)
  {
    forall u | 0 <= u < |rows|
      ensures HasKey(rows[u], mapping, cols, side) <==>
        forall p :: 0 <= p < |cols| ==> cols[p] in mapping && Column(side, mapping, cols[p]) in columns
    {
      CompositeKeyExists(rows[u], mapping, cols, side);
    }
    var u := FirstFailure(rows, mapping, cols, side);
    assert u < |rows| ==> !HasKey(rows[u], mapping, cols, side);
  }

  /**
   * For tables as the CSV reader produces them, a run succeeds exactly when every
   * selected column is mapped, is a reference column (if the reference has rows) and
   * is mapped to a target column or to the status column (if the target has rows);
   * otherwise it fails with a KeyError and produces no output.
   */
  lemma RunSucceedsIff(reference: Dataset, target: Dataset, mapping: map<string, string>, cols: seq<string>, status: string)
    requires WellFormed(reference) && WellFormed(target)
    ensures Run(Some(reference), Some(target), mapping, cols, status).Success? <==>
      && (|reference.rows| == 0 || forall p :: 0 <= p < |cols| ==> cols[p] in mapping && cols[p] in reference.headers)
      && (|target.rows| == 0 || forall p :: 0 <= p < |cols| ==>
            cols[p] in mapping && (mapping[cols[p]] in target.headers || mapping[cols[p]] == status))
    ensures Run(Some(reference), Some(target), mapping, cols, status).Failure? ==>
      Run(Some(reference), Some(target), mapping, cols, status).error.KeyError?
  {
    var filled := WithStatus(target, status);
    AllRowsHaveKeys(reference.rows, HeaderSet(reference), mapping, cols, Reference);
    assert forall u :: 0 <= u < |filled.rows| ==> filled.rows[u].Keys == HeaderSet(target) + {status};
    AllRowsHaveKeys(filled.rows, HeaderSet(target) + {status}, mapping, cols, Target);
  }

  /** The outcome of a successful run does not depend on the order of the selected columns, only on which are selected. */
  lemma RunIgnoresColumnOrder(reference: Dataset, target: Dataset, mapping: map<string, string>, cols1: seq<string>, cols2: seq<string>, status: string)
    requires forall c :: c in cols1 <==> c in cols2
    ensures Run(Some(reference), Some(target), mapping, cols1, status).Success?
        <==> Run(Some(reference), Some(target), mapping, cols2, status).Success?
    ensures Run(Some(reference), Some(target), mapping, cols1, status).Success? ==>
      Run(Some(reference), Some(target), mapping, cols1, status).value
        == Run(Some(reference), Some(target), mapping, cols2, status).value
  {
    forall u | 0 <= u < |reference.rows|
      ensures HasKey(reference.rows[u], mapping, cols1, Reference) <==> HasKey(reference.rows[u], mapping, cols2, Reference)
    {
      HasKeyIgnoresOrder(reference.rows[u], mapping, cols1, cols2, Reference);
    }
    AllKeysIgnoreOrder(reference.rows, mapping, cols1, cols2, Reference);
    if Lookup(reference.rows, mapping, cols1).Success? {
      TaggedIgnoresOrder(reference.rows, WithStatus(target, status).rows, mapping, cols1, cols2, status);
    }
  }

  /** Tagging the same rows under two orders of the same selected columns gives the same rows. */
  lemma TaggedIgnoresOrder(refRows: seq<Row>, rows: seq<Row>, mapping: map<string, string>, cols1: seq<string>, cols2: seq<string>, status: string)
    requires forall c :: c in cols1 <==> c in cols2
    requires Lookup(refRows, mapping, cols1).Success? && Lookup(refRows, mapping, cols2).Success?
    ensures var lookup1, lookup2 := Lookup(refRows, mapping, cols1).value, Lookup(refRows, mapping, cols2).value;
      && (Tagged(rows, mapping, cols1, status, lookup1).Success? <==> Tagged(rows, mapping, cols2, status, lookup2).Success?)
      && (Tagged(rows, mapping, cols1, status, lookup1).Success? ==>
            Tagged(rows, mapping, cols1, status, lookup1) == Tagged(rows, mapping, cols2, status, lookup2))
  {
    forall u | 0 <= u < |rows|
      ensures HasKey(rows[u], mapping, cols1, Target) <==> HasKey(rows[u], mapping, cols2, Target)
    {
      HasKeyIgnoresOrder(rows[u], mapping, cols1, cols2, Target);
    }
    AllKeysIgnoreOrder(rows, mapping, cols1, cols2, Target);
    var lookup1, lookup2 := Lookup(refRows, mapping, cols1).value, Lookup(refRows, mapping, cols2).value;
    if Tagged(rows, mapping, cols1, status, lookup1).Success? {
      forall u | 0 <= u < |rows|
        ensures StatusOf(rows[u], mapping, cols1, lookup1) == StatusOf(rows[u], mapping, cols2, lookup2)
      {
        SameStatus(refRows, rows[u], mapping, cols1, cols2);
      }
      assert Tagged(rows, mapping, cols1, status, lookup1).value == Tagged(rows, mapping, cols2, status, lookup2).value;
    }
  }

  lemma AllKeysIgnoreOrder(rows: seq<Row>, mapping: map<string, string>, cols1: seq<string>, cols2: seq<string>, side: Side)
    requires forall u :: 0 <= u < |rows| ==> (HasKey(rows[u], mapping, cols1, side) <==> HasKey(rows[u], mapping, cols2, side))
    ensures FirstFailure(rows, mapping, cols1, side) == |rows| <==> FirstFailure(rows, mapping, cols2, side) == |rows|
  {
    var u1 := FirstFailure(rows, mapping, cols1, side);
    var u2 := FirstFailure(rows, mapping, cols2, side);
    assert u1 < |rows| ==> !HasKey(rows[u1], mapping, cols2, side);
    assert u2 < |rows| ==> !HasKey(rows[u2], mapping, cols1, side);
  }

  /** A probe row gets the same status under two orders of the same selected columns. */
  lemma SameStatus(refRows: seq<Row>, row: Row, mapping: map<string, string>, cols1: seq<string>, cols2: seq<string>)
    requires forall c :: c in cols1 <==> c in cols2
    requires Lookup(refRows, mapping, cols1).Success? && Lookup(refRows, mapping, cols2).Success?
    requires HasKey(row, mapping, cols1, Target) && HasKey(row, mapping, cols2, Target)
    ensures StatusOf(row, mapping, cols1, Lookup(refRows, mapping, cols1).value)
         == StatusOf(row, mapping, cols2, Lookup(refRows, mapping, cols2).value)
  {
    var key1 := CompositeKey(row, mapping, cols1, Target);
    var key2 := CompositeKey(row, mapping, cols2, Target);
    LookupContents(refRows, mapping, cols1, key1.value);
    LookupContents(refRows, mapping, cols2, key2.value);
    assert FirstFailure(refRows, mapping, cols1, Reference) == |refRows|;
    forall v | 0 <= v < |refRows|
      ensures CompositeKey(refRows[v], mapping, cols1, Reference) == key1
          <==> CompositeKey(refRows[v], mapping, cols2, Reference) == key2
    {
      KeysEqualIgnoresOrder(refRows[v], Reference, row, Target, mapping, cols1, cols2);
    }
  }

  /** Rows that have keys under two settings alike fail first at the same row. */
  lemma {:induction false} FirstFailureAgrees(rows: seq<Row>, m1: map<string, string>, m2: map<string, string>, cols1: seq<string>, cols2: seq<string>, side: Side)
    requires forall u :: 0 <= u < |rows| ==> (HasKey(rows[u], m1, cols1, side) <==> HasKey(rows[u], m2, cols2, side))
    ensures FirstFailure(rows, m1, cols1, side) == FirstFailure(rows, m2, cols2, side)
    decreases |rows|
  {
    if rows != [] {
      assert forall u :: 0 <= u < |rows[1..]| ==> rows[1..][u] == rows[u + 1];
      FirstFailureAgrees(rows[1..], m1, m2, cols1, cols2, side);
    }
  }

  /** Rows that have the same keys under two mappings contribute the same keys. */
  lemma {:induction false} KeysUpToAgrees(rows: seq<Row>, m1: map<string, string>, m2: map<string, string>, cols: seq<string>, side: Side, n: nat)
    requires n <= |rows|
    requires forall u :: 0 <= u < |rows| ==> CompositeKey(rows[u], m1, cols, side) == CompositeKey(rows[u], m2, cols, side)
    ensures KeysUpTo(rows, m1, cols, side, n) == KeysUpTo(rows, m2, cols, side, n)
    decreases n
  {
    if n > 0 {
      KeysUpToAgrees(rows, m1, m2, cols, side, n - 1);
    }
  }

  /** Mapping entries of columns that are not selected have no effect on a run. */
  lemma RunIgnoresUnselectedMappings(reference: Option<Dataset>, target: Option<Dataset>, m1: map<string, string>, m2: map<string, string>, cols: seq<string>, status: string)
    requires forall p :: 0 <= p < |cols| ==> (cols[p] in m1 <==> cols[p] in m2) && (cols[p] in m1 ==> m1[cols[p]] == m2[cols[p]])
    ensures Run(reference, target, m1, cols, status) == Run(reference, target, m2, cols, status)
  {
    if reference.Some? && target.Some? {
      LookupIgnoresUnselected(reference.value.rows, m1, m2, cols);
      var lookup := Lookup(reference.value.rows, m1, cols);
      if lookup.Success? {
        TaggedIgnoresUnselected(WithStatus(target.value, status).rows, m1, m2, cols, status, lookup.value);
      }
    }
  }

  lemma LookupIgnoresUnselected(rows: seq<Row>, m1: map<string, string>, m2: map<string, string>, cols: seq<string>)
    requires forall p :: 0 <= p < |cols| ==> (cols[p] in m1 <==> cols[p] in m2) && (cols[p] in m1 ==> m1[cols[p]] == m2[cols[p]])
    ensures Lookup(rows, m1, cols) == Lookup(rows, m2, cols)
  {
    forall u | 0 <= u < |rows|
      ensures CompositeKey(rows[u], m1, cols, Reference) == CompositeKey(rows[u], m2, cols, Reference)
    {
      KeyUsesSelectedEntries(rows[u], m1, m2, cols, Reference);
    }
    FirstFailureAgrees(rows, m1, m2, cols, cols, Reference);
    KeysUpToAgrees(rows, m1, m2, cols, Reference, |rows|);
  }

  lemma TaggedIgnoresUnselected(rows: seq<Row>, m1: map<string, string>, m2: map<string, string>, cols: seq<string>, status: string, lookup: set<Key>)
    requires forall p :: 0 <= p < |cols| ==> (cols[p] in m1 <==> cols[p] in m2) && (cols[p] in m1 ==> m1[cols[p]] == m2[cols[p]])
    ensures Tagged(rows, m1, cols, status, lookup) == Tagged(rows, m2, cols, status, lookup)
  {
    forall u | 0 <= u < |rows|
      ensures CompositeKey(rows[u], m1, cols, Target) == CompositeKey(rows[u], m2, cols, Target)
    {
      KeyUsesSelectedEntries(rows[u], m1, m2, cols, Target);
    }
    FirstFailureAgrees(rows, m1, m2, cols, cols, Target);
    if FirstFailure(rows, m1, cols, Target) == |rows| {
      assert Tagged(rows, m1, cols, status, lookup).value == Tagged(rows, m2, cols, status, lookup).value;
    }
  }
}
