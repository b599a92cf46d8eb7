/**
 * Row matching: the composite key of a row, the lookup set built from the reference
 * rows, and the status column written into a copy of the target rows.
 */
module Matching {
  import opened Wrappers
  import opened Text

  /** A row maps column names to cell text. */
  type Row = map<string, string>

  /** A loaded CSV file: its header row and its rows, in file order. */
  datatype Dataset = Dataset(headers: seq<string>, rows: seq<Row>)

  function HeaderSet(d: Dataset): set<string> {
    set h | h in d.headers
  }

  /** What the CSV reader produces: distinct headers, and every row has exactly those columns. */
  ghost predicate WellFormed(d: Dataset) {
    && (forall p, q :: 0 <= p < q < |d.headers| ==> d.headers[p] != d.headers[q])
    && (forall u :: 0 <= u < |d.rows| ==> d.rows[u].Keys == HeaderSet(d))
  }

  /** A composite key: one stripped value per matching column, in the order of the matching columns. */
  type Key = seq<string>

  /** Which file a key is read from: the reference file by the column's own name, the target file through the mapping. */
  datatype Side = Reference | Target

  datatype Error =
    | KeyError(key: string)   // a dict or row lookup of a missing name
    | NotLoaded               // a file was never loaded
    | EmptySelection          // no matching column is checked

  function Column(side: Side, mapping: map<string, string>, col: string): string
    requires col in mapping
  {
    if side == Reference then col else mapping[col]
  }

  /**
   * The key of a row: for each matching column, in order, `mapping[col]` (a KeyError
   * if col is not mapped), then the row's cell in the column for that side (a KeyError
   * if the row lacks it), stripped of surrounding whitespace.
   */
  function CompositeKey(row: Row, mapping: map<string, string>, cols: seq<string>, side: Side): (r: Result<Key, Error>)
    ensures r.Failure? ==> r.error.KeyError?
    decreases |cols|
  {
    if cols == [] then Success([])
    else if cols[0] !in mapping then Failure(KeyError(cols[0]))
    else
      var h := Column(side, mapping, cols[0]);
      if h !in row then Failure(KeyError(h))
      else
        match CompositeKey(row, mapping, cols[1..], side)
        case Failure(e) => Failure(e)
        case Success(rest) => Success([Strip(row[h])] + rest)
  }

  /** True when the row has a key: CompositeKeyExists says when that is. */
  predicate HasKey(row: Row, mapping: map<string, string>, cols: seq<string>, side: Side) {
    CompositeKey(row, mapping, cols, side).Success?
  }

  /** A row has a key exactly when every matching column is mapped and names a column of the row. */
  lemma {:induction false} CompositeKeyExists(row: Row, mapping: map<string, string>, cols: seq<string>, side: Side)
    ensures HasKey(row, mapping, cols, side) <==>
      forall p :: 0 <= p < |cols| ==> cols[p] in mapping && Column(side, mapping, cols[p]) in row
    decreases |cols|
  {
    if cols != [] {
      CompositeKeyExists(row, mapping, cols[1..], side);
      assert forall p :: 1 <= p < |cols| ==> cols[p] == cols[1..][p - 1];
    }
  }

  /** A key holds, in order, the stripped cell of each matching column. */
  lemma {:induction false} KeyValues(row: Row, mapping: map<string, string>, cols: seq<string>, side: Side)
    requires CompositeKey(row, mapping, cols, side).Success?
    ensures var key := CompositeKey(row, mapping, cols, side).value;
      && |key| == |cols|
      && forall p :: 0 <= p < |cols| ==>
           cols[p] in mapping && Column(side, mapping, cols[p]) in row
           && key[p] == Strip(row[Column(side, mapping, cols[p])])
    decreases |cols|
  {
    if cols != [] {
      KeyValues(row, mapping, cols[1..], side);
      assert forall p :: 1 <= p < |cols| ==> cols[p] == cols[1..][p - 1];
    }
  }


  /** The index of the first row, in order, whose key cannot be built; |rows| when every key can. */
  function FirstFailure(rows: seq<Row>, mapping: map<string, string>, cols: seq<string>, side: Side): (u: nat)
    ensures u <= |rows|
    ensures forall v :: 0 <= v < u ==> HasKey(rows[v], mapping, cols, side)
    ensures u < |rows| ==> !HasKey(rows[u], mapping, cols, side)
    decreases |rows|
  {
    if rows == [] then 0
    else if !HasKey(rows[0], mapping, cols, side) then 0
    else
      var u := FirstFailure(rows[1..], mapping, cols, side);
      u + 1
  }

  /** A row without a key after rows that all have one is the first failure. */
  lemma FirstFailureAt(rows: seq<Row>, mapping: map<string, string>, cols: seq<string>, side: Side, i: nat)
    requires i < |rows| && !HasKey(rows[i], mapping, cols, side)
    requires forall v :: 0 <= v < i ==> HasKey(rows[v], mapping, cols, side)
    ensures FirstFailure(rows, mapping, cols, side) == i
  {
  }

  /** The keys of the first n rows that have one. */
  function KeysUpTo(rows: seq<Row>, mapping: map<string, string>, cols: seq<string>, side: Side, n: nat): set<Key>
    requires n <= |rows|
    decreases n
  {
    if n == 0 then {}
    else
      var before := KeysUpTo(rows, mapping, cols, side, n - 1);
      if HasKey(rows[n - 1], mapping, cols, side) then before + {CompositeKey(rows[n - 1], mapping, cols, side).value}
      else before
  }

  /** `csv1_lookup`: the set of reference keys, or the error of the first reference row without one. */
  function Lookup(rows: seq<Row>, mapping: map<string, string>, cols: seq<string>): Result<set<Key>, Error> {
    var u := FirstFailure(rows, mapping, cols, Reference);
    if u < |rows| then Failure(CompositeKey(rows[u], mapping, cols, Reference).error)
    else Success(KeysUpTo(rows, mapping, cols, Reference, |rows|))
  }

  lemma KeysUpToNext(rows: seq<Row>, mapping: map<string, string>, cols: seq<string>, side: Side, n: nat)
    requires n < |rows| && HasKey(rows[n], mapping, cols, side)
    ensures KeysUpTo(rows, mapping, cols, side, n + 1)
         == KeysUpTo(rows, mapping, cols, side, n) + {CompositeKey(rows[n], mapping, cols, side).value}
  {
  }

  lemma KeysUpToSkip(rows: seq<Row>, mapping: map<string, string>, cols: seq<string>, side: Side, n: nat)
    requires n < |rows| && !HasKey(rows[n], mapping, cols, side)
    ensures KeysUpTo(rows, mapping, cols, side, n + 1) == KeysUpTo(rows, mapping, cols, side, n)
  {
  }

  /** The building loop of the lookup set over the reference rows. */
  method BuildLookup(rows: seq<Row>, mapping: map<string, string>, cols: seq<string>) returns (r: Result<set<Key>, Error>)
    ensures r == Lookup(rows, mapping, cols)
  {
    var lookup: set<Key> := {};
    var i := 0;
    while i < |rows|
      invariant 0 <= i <= |rows|
      invariant forall u :: 0 <= u < i ==> HasKey(rows[u], mapping, cols, Reference)
      invariant lookup == KeysUpTo(rows, mapping, cols, Reference, i)
    {
      var key := CompositeKey(rows[i], mapping, cols, Reference);
      if key.Failure? {
        FirstFailureAt(rows, mapping, cols, Reference, i);
        return Failure(key.error);
      }
      KeysUpToNext(rows, mapping, cols, Reference, i);
      lookup := lookup + {key.value};
      i := i + 1;
    }
    r := Success(lookup);
  }

  /** `output_data[status] = "NO"`: the copy of the target with the status column set to "NO" in every row. */
  function WithStatus(d: Dataset, status: string): Dataset {
    Dataset(
      if status in d.headers then d.headers else d.headers + [status],
      seq(|d.rows|, u requires 0 <= u < |d.rows| => d.rows[u][status := "NO"]))
  }

  /** The status the tagger leaves in an output row: "YES" when the row's target-side key is in the lookup. */
  function StatusOf(row: Row, mapping: map<string, string>, cols: seq<string>, lookup: set<Key>): string
    requires HasKey(row, mapping, cols, Target)
  {
    if CompositeKey(row, mapping, cols, Target).value in lookup then "YES" else "NO"
  }

  /** An output row after the tagging loop has looked at it. */
  function TagRow(row: Row, mapping: map<string, string>, cols: seq<string>, status: string, lookup: set<Key>): Row
    requires HasKey(row, mapping, cols, Target)
  {
    row[status := StatusOf(row, mapping, cols, lookup)]
  }

  /** The output rows after the tagging loop, or the error of the first row without a target-side key. */
  function Tagged(rows: seq<Row>, mapping: map<string, string>, cols: seq<string>, status: string, lookup: set<Key>): Result<seq<Row>, Error> {
    var u := FirstFailure(rows, mapping, cols, Target);
    if u < |rows| then Failure(CompositeKey(rows[u], mapping, cols, Target).error)
    else Success(seq(|rows|, v requires 0 <= v < |rows| => rows[v][status := StatusOf(rows[v], mapping, cols, lookup)]))
  }

  /** The number of rows whose status column holds "YES". */
  function CountYes(rows: seq<Row>, status: string): nat
    decreases |rows|
  {
    if rows == [] then 0
    else
      var last := rows[|rows| - 1];
      CountYes(rows[..|rows| - 1], status) + (if status in last && last[status] == "YES" then 1 else 0)
  }

  lemma CountYesAppend(rows: seq<Row>, row: Row, status: string)
    ensures CountYes(rows + [row], status)
         == CountYes(rows, status) + (if status in row && row[status] == "YES" then 1 else 0)
  {
    assert (rows + [row])[..|rows|] == rows;
  }

  /** Writing "NO" where a row already holds "NO" leaves the row as it is. */
  lemma RewriteNo(row: Row, status: string)
    requires status in row && row[status] == "NO"
    ensures row[status := "NO"] == row
  {
  }

  /** The first i output rows are tagged, the others are as they were. */
  ghost predicate TagProgress(rows: seq<Row>, cur: seq<Row>, i: nat, mapping: map<string, string>, cols: seq<string>, status: string, lookup: set<Key>) {
    && i <= |rows| == |cur|
    && (forall u :: 0 <= u < i ==> HasKey(rows[u], mapping, cols, Target))
    && (forall u :: 0 <= u < i ==> cur[u] == TagRow(rows[u], mapping, cols, status, lookup))
    && (forall u :: i <= u < |rows| ==> cur[u] == rows[u])
  }

  lemma TagProgressStep(rows: seq<Row>, cur: seq<Row>, i: nat, mapping: map<string, string>, cols: seq<string>, status: string, lookup: set<Key>)
    requires TagProgress(rows, cur, i, mapping, cols, status, lookup)
    requires i < |rows| && HasKey(rows[i], mapping, cols, Target)
    ensures TagProgress(rows, cur[i := TagRow(rows[i], mapping, cols, status, lookup)], i + 1, mapping, cols, status, lookup)
  {
  }

  lemma TagProgressDone(rows: seq<Row>, cur: seq<Row>, mapping: map<string, string>, cols: seq<string>, status: string, lookup: set<Key>)
    requires TagProgress(rows, cur, |rows|, mapping, cols, status, lookup)
    ensures Tagged(rows, mapping, cols, status, lookup) == Success(cur)
  {
    var u := FirstFailure(rows, mapping, cols, Target);
    assert u == |rows|;
    var tagged := Tagged(rows, mapping, cols, status, lookup);
    assert tagged.Success?;
    assert forall v :: 0 <= v < |rows| ==> tagged.value[v] == cur[v];
    assert tagged.value == cur;
  }

  lemma TagProgressFails(rows: seq<Row>, cur: seq<Row>, i: nat, mapping: map<string, string>, cols: seq<string>, status: string, lookup: set<Key>)
    requires TagProgress(rows, cur, i, mapping, cols, status, lookup)
    requires i < |rows| && !HasKey(rows[i], mapping, cols, Target)
    ensures Tagged(rows, mapping, cols, status, lookup) == Failure(CompositeKey(rows[i], mapping, cols, Target).error)
  {
    FirstFailureAt(rows, mapping, cols, Target, i);
  }

  /**
   * The tagging loop over the output rows (all holding "NO" in the status column):
   * sets "YES" in place on every row whose key is in the lookup and counts those rows.
   */
  method TagRows(out: array<Row>, mapping: map<string, string>, cols: seq<string>, status: string, lookup: set<Key>)
    returns (r: Result<nat, Error>)
    requires forall u :: 0 <= u < out.Length ==> status in out[u] && out[u][status] == "NO"
    modifies out
    ensures r.Failure? <==> Tagged(old(out[..]), mapping, cols, status, lookup).Failure?
    ensures r.Failure? ==> r.error == Tagged(old(out[..]), mapping, cols, status, lookup).error
    ensures r.Success? ==>
      && Tagged(old(out[..]), mapping, cols, status, lookup) == Success(out[..])
      && r.value == CountYes(out[..], status)
  {
    ghost var rows := out[..];
    var matches := 0;
    var i := 0;
    while i < out.Length
      invariant TagProgress(rows, out[..], i, mapping, cols, status, lookup)
      invariant matches == CountYes(out[..i], status)
    {
      var key := CompositeKey(out[i], mapping, cols, Target);
      if key.Failure? {
        TagProgressFails(rows, out[..], i, mapping, cols, status, lookup);
        return Failure(key.error);
      }
      ghost var cur := out[..];
      TagProgressStep(rows, cur, i, mapping, cols, status, lookup);
      if key.value in lookup {
        out[i] := out[i][status := "YES"];
        matches := matches + 1;
      } else {
        RewriteNo(rows[i], status);
      }
      assert out[..] == cur[i := TagRow(rows[i], mapping, cols, status, lookup)];
      assert out[..i + 1] == cur[..i] + [out[i]];
      CountYesAppend(cur[..i], out[i], status);
      i := i + 1;
    }
    TagProgressDone(rows, out[..], mapping, cols, status, lookup);
    assert out[..i] == out[..];
    r := Success(matches);
  }

  /** The result of a processing run: the output table and `matches_found`. */
  datatype Output = Output(data: Dataset, matches: nat)

  /**
   * One processing run: copy the target with status "NO", build the lookup from the
   * reference rows, then tag the copy. Either file missing, or any missing mapping
   * entry or column, is an error and no output exists.
   */
  function Run(reference: Option<Dataset>, target: Option<Dataset>, mapping: map<string, string>, cols: seq<string>, status: string): Result<Output, Error> {
    if target.None? || reference.None? then Failure(NotLoaded)
    else
      var filled := WithStatus(target.value, status);
      match Lookup(reference.value.rows, mapping, cols)
      case Failure(e) => Failure(e)
      case Success(lookup) =>
        match Tagged(filled.rows, mapping, cols, status, lookup)
        case Failure(e) => Failure(e)
        case Success(rows) => Success(Output(Dataset(filled.headers, rows), CountYes(rows, status)))
  }
}
