/**
 * The state of the parser window and the operations on it: loading the two files,
 * the auto-mapping of headers, the edits of the mapping list, the matching-column
 * checkboxes, and a processing run. Widgets and dialogs are replaced by the values
 * they deliver (the selected list index, the chosen header, the typed status name).
 */
module Parser {
  import opened Wrappers
  import opened OrderedDict
  import opened HeaderMapping
  import opened Matching

  /** The initial text of the status column entry. */
  const DefaultStatusColumn := "Matched Status Column"

  /** What an operation tells the user: nothing, or one of the warning and error dialogs. */
  datatype Notice =
    | Quiet
    | SelectMapping        // edit or remove with no list entry selected
    | LoadBothFiles        // add before both files are loaded
    | SelectBothColumns    // add with a header left unselected
    | LoadFailed           // the CSV reader raised

  /** One checkbox per mapped reference header, in mapping order, all checked. */
  function AllChecked(m: OrderedMap<string>): (r: OrderedMap<bool>)
    requires m.Valid()
    ensures r.Valid() && r.keys == m.keys
    ensures forall k :: k in r.entries ==> r.entries[k]
  {
    OrderedMap(m.keys, map k | k in m.entries :: true)
  }

  /** The checked keys, in key order. */
  function CheckedKeys(keys: seq<string>, checked: map<string, bool>): (r: seq<string>)
    ensures forall k :: k in r <==> k in keys && k in checked && checked[k]
    decreases |keys|
  {
    if keys == [] then []
    else
      var init := CheckedKeys(keys[..|keys| - 1], checked);
      var k := keys[|keys| - 1];
      if k in checked && checked[k] then init + [k] else init
  }

  /** A selection rebuilt from the mapping selects every mapped header, in mapping order. */
  lemma {:induction false} CheckedKeysOfAllChecked(keys: seq<string>, m: map<string, bool>)
    requires forall k :: k in keys ==> k in m && m[k]
    ensures CheckedKeys(keys, m) == keys
    decreases |keys|
  {
    if keys != [] {
      CheckedKeysOfAllChecked(keys[..|keys| - 1], m);
      assert keys == keys[..|keys| - 1] + [keys[|keys| - 1]];
    }
  }

  /** The loop of `update_matching_checkboxes`: one `True` per key, added in key order. */
  method CheckEvery(m: OrderedMap<string>) returns (vars: OrderedMap<bool>)
    requires m.Valid()
    ensures vars == AllChecked(m)
  {
    vars := Empty();
    var keys := m.keys;
    var i := 0;
    while i < |keys|
      invariant 0 <= i <= |keys|
      invariant vars.Valid()
      invariant vars.keys == keys[..i]
      invariant forall k :: k in vars.entries ==> vars.entries[k]
    {
      assert keys[..i + 1] == keys[..i] + [keys[i]];
      vars := vars.Put(keys[i], true);
      i := i + 1;
    }
    assert keys[..i] == keys;
    assert vars.entries == AllChecked(m).entries;
  }

  /** The loop of `process_files`: the keys whose box is checked, in key order. */
  method SelectChecked(keys: seq<string>, checked: map<string, bool>) returns (selected: seq<string>)
    requires forall k :: k in keys ==> k in checked
    ensures selected == CheckedKeys(keys, checked)
  {
    selected := [];
    var i := 0;
    while i < |keys|
      invariant 0 <= i <= |keys|
      invariant selected == CheckedKeys(keys[..i], checked)
    {
      assert keys[..i + 1][..i] == keys[..i];
      if checked[keys[i]] {
        selected := selected + [keys[i]];
      }
      i := i + 1;
    }
    assert keys[..i] == keys;
  }

  class SimilarityParser {
    var referenceData: Option<Dataset>      // `csv1_data`; None until a file is loaded
    var targetData: Option<Dataset>         // `csv2_data`
    var referenceHeaders: seq<string>       // `csv1_headers`
    var targetHeaders: seq<string>          // `csv2_headers`
    var columnMappings: OrderedMap<string>  // `column_mappings`: reference header to target header
    var matchingVars: OrderedMap<bool>      // `matching_vars`: the checkbox of each mapped header
    var matchingColumns: seq<string>        // `matching_columns`, as last collected
    var statusColumn: string                // `approval_column_var`
    var processEnabled: bool                // whether the process button is enabled

    /**
     * Both dicts are well formed, there is one checkbox per mapping entry in the same
     * order, and no mapping entry is the empty string.
     */
    ghost predicate Valid()
      reads this
    {
      && columnMappings.Valid() && matchingVars.Valid()
      && matchingVars.keys == columnMappings.keys
      && forall k :: k in columnMappings.entries ==> columnMappings.entries[k] != ""
    }

    /** The condition `update_process_button` enables the process button on. */
    predicate ReadyToProcess()
      reads this
    {
      referenceData.Some? && targetData.Some? && columnMappings.keys != [] && matchingVars.keys != []
    }

    constructor ()
      ensures Valid()
      ensures referenceData.None? && targetData.None?
      ensures referenceHeaders == [] && targetHeaders == []
      ensures columnMappings == Empty() && matchingVars == Empty() && matchingColumns == []
      ensures statusColumn == DefaultStatusColumn
      ensures !processEnabled && !ReadyToProcess()
    {
      referenceData := None;
      targetData := None;
      referenceHeaders := [];
      targetHeaders := [];
      columnMappings := Empty();
      matchingVars := Empty();
      matchingColumns := [];
      statusColumn := DefaultStatusColumn;
      processEnabled := false;
    }

    /** `update_matching_checkboxes`: one checked box per mapping entry, in mapping order. */
    method UpdateMatchingCheckboxes()
      requires columnMappings.Valid()
      requires forall k :: k in columnMappings.entries ==> columnMappings.entries[k] != ""
      modifies this
      ensures Valid()
      ensures matchingVars == AllChecked(columnMappings)
      ensures columnMappings == old(columnMappings) && matchingColumns == old(matchingColumns)
      ensures referenceData == old(referenceData) && targetData == old(targetData)
      ensures referenceHeaders == old(referenceHeaders) && targetHeaders == old(targetHeaders)
      ensures statusColumn == old(statusColumn) && processEnabled == old(processEnabled)
    {
      var vars := CheckEvery(columnMappings);
      matchingVars := vars;
    }

    /** `auto_map_columns`: the mapping is derived afresh from the two header lists, every box checked. */
    method AutoMapColumns()
      requires Valid()
      modifies this
      ensures Valid()
      ensures columnMappings == AutoMap(referenceHeaders, targetHeaders)
      ensures matchingVars == AllChecked(columnMappings)
      ensures referenceData == old(referenceData) && targetData == old(targetData)
      ensures referenceHeaders == old(referenceHeaders) && targetHeaders == old(targetHeaders)
      ensures matchingColumns == old(matchingColumns) && statusColumn == old(statusColumn) && processEnabled == old(processEnabled)
    {
      columnMappings := Empty();
      var i := 0;
      while i < |referenceHeaders|
        invariant 0 <= i <= |referenceHeaders|
        invariant columnMappings == AutoMap(referenceHeaders[..i], targetHeaders)
        invariant referenceData == old(referenceData) && targetData == old(targetData)
        invariant referenceHeaders == old(referenceHeaders) && targetHeaders == old(targetHeaders)
        invariant matchingColumns == old(matchingColumns) && statusColumn == old(statusColumn) && processEnabled == old(processEnabled)
      {
        var src := referenceHeaders[i];
        assert referenceHeaders[..i + 1][..i] == referenceHeaders[..i];
        var best := FindBestMatch(src, targetHeaders);
        if best.Some? && best.value != "" {
          columnMappings := columnMappings.Put(src, best.value);
        }
        i := i + 1;
      }
      assert referenceHeaders[..i] == referenceHeaders;
      AutoMapEntries(referenceHeaders, targetHeaders);
      UpdateMatchingCheckboxes();
    }

    /** `update_mapping_suggestions`: re-derive the mapping once both header lists are known. */
    method UpdateMappingSuggestions()
      requires Valid()
      modifies this
      ensures Valid()
      ensures referenceHeaders == [] || targetHeaders == [] ==>
        columnMappings == old(columnMappings) && matchingVars == old(matchingVars) && processEnabled == old(processEnabled)
      ensures referenceHeaders != [] && targetHeaders != [] ==> Suggested()
      ensures referenceData == old(referenceData) && targetData == old(targetData)
      ensures referenceHeaders == old(referenceHeaders) && targetHeaders == old(targetHeaders)
      ensures matchingColumns == old(matchingColumns) && statusColumn == old(statusColumn)
    {
      if referenceHeaders == [] || targetHeaders == [] {
        return;
      }
      AutoMapColumns();
      processEnabled := ReadyToProcess();
    }

    /**
     * The state right after a re-derivation: the mapping suggested by the two header
     * lists, every box checked, and the process button enabled exactly when both
     * tables are loaded and some header was mapped.
     */
    ghost predicate Suggested()
      reads this
    {
      && columnMappings == AutoMap(referenceHeaders, targetHeaders)
      && matchingVars == AllChecked(columnMappings)
      && processEnabled == (referenceData.Some? && targetData.Some? && columnMappings.keys != [])
    }

    /**
     * `load_csv1`: `parsed` is what the CSV reader returned, None when it raised. A
     * loaded file replaces the reference table and its headers and re-derives the mapping.
     */
    method LoadReference(parsed: Option<Dataset>) returns (notice: Notice)
      requires Valid()
      modifies this
      ensures Valid()
      ensures parsed.None? ==>
        && notice == LoadFailed
        && referenceData == old(referenceData) && referenceHeaders == old(referenceHeaders)
        && columnMappings == old(columnMappings) && matchingVars == old(matchingVars)
        && processEnabled == old(processEnabled)
      ensures parsed.Some? ==>
        && notice == Quiet
        && referenceData == parsed && referenceHeaders == parsed.value.headers
        && (referenceHeaders == [] || targetHeaders == [] ==>
              columnMappings == old(columnMappings) && matchingVars == old(matchingVars) && processEnabled == old(processEnabled))
        && (referenceHeaders != [] && targetHeaders != [] ==> Suggested())
      ensures targetData == old(targetData) && targetHeaders == old(targetHeaders)
      ensures matchingColumns == old(matchingColumns) && statusColumn == old(statusColumn)
    {
      if parsed.None? {
        return LoadFailed;
      }
      referenceData := parsed;
      referenceHeaders := parsed.value.headers;
      UpdateMappingSuggestions();
      notice := Quiet;
    }

    /** `load_csv2`: as LoadReference, for the target file. */
    method LoadTarget(parsed: Option<Dataset>) returns (notice: Notice)
      requires Valid()
      modifies this
      ensures Valid()
      ensures parsed.None? ==>
        && notice == LoadFailed
        && targetData == old(targetData) && targetHeaders == old(targetHeaders)
        && columnMappings == old(columnMappings) && matchingVars == old(matchingVars)
        && processEnabled == old(processEnabled)
      ensures parsed.Some? ==>
        && notice == Quiet
        && targetData == parsed && targetHeaders == parsed.value.headers
        && (referenceHeaders == [] || targetHeaders == [] ==>
              columnMappings == old(columnMappings) && matchingVars == old(matchingVars) && processEnabled == old(processEnabled))
        && (referenceHeaders != [] && targetHeaders != [] ==> Suggested())
      ensures referenceData == old(referenceData) && referenceHeaders == old(referenceHeaders)
      ensures matchingColumns == old(matchingColumns) && statusColumn == old(statusColumn)
    {
      if parsed.None? {
        return LoadFailed;
      }
      targetData := parsed;
      targetHeaders := parsed.value.headers;
      UpdateMappingSuggestions();
      notice := Quiet;
    }

    /**
     * `edit_mapping` and its dialog's save: `selection` is the selected list entry and
     * `newTarget` the header chosen in the dialog. Only a non-empty choice for an entry
     * that exists is stored; the entry keeps its place.
     */
    method EditMapping(selection: Option<nat>, newTarget: string) returns (notice: Notice)
      requires Valid()
      modifies this
      ensures Valid()
      ensures notice == (if selection.None? then SelectMapping else Quiet)
      ensures if selection.Some? && selection.value < |old(columnMappings.keys)| && newTarget != "" then
          && columnMappings.keys == old(columnMappings.keys)
          && columnMappings.entries == old(columnMappings.entries)[old(columnMappings.keys)[selection.value] := newTarget]
          && matchingVars == AllChecked(columnMappings)
        else
          columnMappings == old(columnMappings) && matchingVars == old(matchingVars)
      ensures referenceData == old(referenceData) && targetData == old(targetData)
      ensures referenceHeaders == old(referenceHeaders) && targetHeaders == old(targetHeaders)
      ensures matchingColumns == old(matchingColumns) && statusColumn == old(statusColumn) && processEnabled == old(processEnabled)
    {
      if selection.None? {
        return SelectMapping;
      }
      notice := Quiet;
      var index := selection.value;
      var keys := columnMappings.keys;
      if index >= |keys| {
        return;
      }
      var src := keys[index];
      if newTarget != "" {
        columnMappings := columnMappings.Put(src, newTarget);
        UpdateMatchingCheckboxes();
      }
    }

    /**
     * `remove_mapping`: deletes the entry at the selected position of the key order;
     * a position past the end changes nothing.
     */
    method RemoveMapping(selection: Option<nat>) returns (notice: Notice)
      requires Valid()
      modifies this
      ensures Valid()
      ensures notice == (if selection.None? then SelectMapping else Quiet)
      ensures if selection.Some? && selection.value < |old(columnMappings.keys)| then
          && columnMappings.keys == old(columnMappings.keys)[..selection.value] + old(columnMappings.keys)[selection.value + 1..]
          && columnMappings.entries == old(columnMappings.entries) - {old(columnMappings.keys)[selection.value]}
          && matchingVars == AllChecked(columnMappings)
        else
          columnMappings == old(columnMappings) && matchingVars == old(matchingVars)
      ensures referenceData == old(referenceData) && targetData == old(targetData)
      ensures referenceHeaders == old(referenceHeaders) && targetHeaders == old(targetHeaders)
      ensures matchingColumns == old(matchingColumns) && statusColumn == old(statusColumn) && processEnabled == old(processEnabled)
    {
      if selection.None? {
        return SelectMapping;
      }
      notice := Quiet;
      var index := selection.value;
      if index >= |columnMappings.keys| {
        return;
      }
      columnMappings := columnMappings.RemoveAt(index);
      UpdateMatchingCheckboxes();
    }

    /**
     * `add_mapping` and its dialog's save: both files must be loaded and both headers
     * chosen; then `src` maps to `tgt`, a new key going to the end of the order.
     */
    method AddMapping(src: string, tgt: string) returns (notice: Notice)
      requires Valid()
      modifies this
      ensures Valid()
      ensures notice ==
        if referenceHeaders == [] || targetHeaders == [] then LoadBothFiles
        else if src == "" || tgt == "" then SelectBothColumns
        else Quiet
      ensures if notice == Quiet then
          && columnMappings.entries == old(columnMappings.entries)[src := tgt]
          && columnMappings.keys == (if src in old(columnMappings.entries) then old(columnMappings.keys) else old(columnMappings.keys) + [src])
          && matchingVars == AllChecked(columnMappings)
        else
          columnMappings == old(columnMappings) && matchingVars == old(matchingVars)
      ensures referenceData == old(referenceData) && targetData == old(targetData)
      ensures referenceHeaders == old(referenceHeaders) && targetHeaders == old(targetHeaders)
      ensures matchingColumns == old(matchingColumns) && statusColumn == old(statusColumn) && processEnabled == old(processEnabled)
    {
      if referenceHeaders == [] || targetHeaders == [] {
        return LoadBothFiles;
      }
      if src == "" || tgt == "" {
        return SelectBothColumns;
      }
      columnMappings := columnMappings.Put(src, tgt);
      UpdateMatchingCheckboxes();
      notice := Quiet;
    }

    /** Ticking or clearing the checkbox of a mapped header; a header without a box changes nothing. */
    method SetMatchingColumn(col: string, checked: bool)
      requires Valid()
      modifies this
      ensures Valid()
      ensures matchingVars.keys == old(matchingVars.keys)
      ensures matchingVars.entries == if col in old(matchingVars.entries) then old(matchingVars.entries)[col := checked] else old(matchingVars.entries)
      ensures columnMappings == old(columnMappings) && matchingColumns == old(matchingColumns)
      ensures referenceData == old(referenceData) && targetData == old(targetData)
      ensures referenceHeaders == old(referenceHeaders) && targetHeaders == old(targetHeaders)
      ensures statusColumn == old(statusColumn) && processEnabled == old(processEnabled)
    {
      if col in matchingVars.entries {
        matchingVars := matchingVars.Put(col, checked);
      }
    }

    /** Typing a name into the status column entry. */
    method SetStatusColumn(name: string)
      requires Valid()
      modifies this
      ensures Valid()
      ensures statusColumn == name
      ensures columnMappings == old(columnMappings) && matchingVars == old(matchingVars)
      ensures matchingColumns == old(matchingColumns) && processEnabled == old(processEnabled)
      ensures referenceData == old(referenceData) && targetData == old(targetData)
      ensures referenceHeaders == old(referenceHeaders) && targetHeaders == old(targetHeaders)
    {
      statusColumn := name;
    }

    /**
     * `process_files`: collects the checked headers in checkbox order, rejects an empty
     * selection, and otherwise runs the processing with that selection; the process
     * button is enabled again once a run has ended, whatever its outcome.
     */
    method ProcessFiles() returns (outcome: Result<Output, Error>)
      requires Valid()
      modifies this
      ensures Valid()
      ensures matchingColumns == CheckedKeys(matchingVars.keys, matchingVars.entries)
      ensures matchingColumns == [] ==> outcome == Failure(EmptySelection)
      ensures matchingColumns != [] ==>
        outcome == Run(referenceData, targetData, columnMappings.entries, matchingColumns, statusColumn)
      ensures columnMappings == old(columnMappings) && matchingVars == old(matchingVars)
      ensures referenceData == old(referenceData) && targetData == old(targetData)
      ensures referenceHeaders == old(referenceHeaders) && targetHeaders == old(targetHeaders)
      ensures statusColumn == old(statusColumn)
      ensures processEnabled == (matchingColumns != [] || old(processEnabled))
    {
      var selected := SelectChecked(matchingVars.keys, matchingVars.entries);
      matchingColumns := selected;
      if matchingColumns == [] {
        return Failure(EmptySelection);
      }
      outcome := ProcessFilesThread();
      processEnabled := true;
    }

    /**
     * `process_files_thread`: a copy of the target with "NO" in the status column,
     * the lookup set of the reference keys, then the tagging of the copy in place.
     * Either file missing, or a KeyError from either loop, ends the run with no output.
     */
    method ProcessFilesThread() returns (outcome: Result<Output, Error>)
      ensures outcome == Run(referenceData, targetData, columnMappings.entries, matchingColumns, statusColumn)
    {
      if targetData.None? || referenceData.None? {
        return Failure(NotLoaded);
      }
      var status := statusColumn;
      var filled := WithStatus(targetData.value, status);
      var out := new Row[|filled.rows|](u requires 0 <= u < |filled.rows| => filled.rows[u]);
      assert out[..] == filled.rows;
      var lookup := BuildLookup(referenceData.value.rows, columnMappings.entries, matchingColumns);
      if lookup.Failure? {
        return Failure(lookup.error);
      }
      var tagged := TagRows(out, columnMappings.entries, matchingColumns, status, lookup.value);
      if tagged.Failure? {
        return Failure(tagged.error);
      }
      outcome := Success(Output(Dataset(filled.headers, out[..]), tagged.value));
    }
  }

  /** After any change of the mapping, processing selects exactly the mapped headers, in mapping order. */
  lemma SelectionFollowsMapping(m: OrderedMap<string>)
    requires m.Valid()
    ensures CheckedKeys(AllChecked(m).keys, AllChecked(m).entries) == m.keys
  {
    CheckedKeysOfAllChecked(m.keys, AllChecked(m).entries);
  }
}
