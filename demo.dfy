/**
 * The example tables of the demo script: three reference users, four target users of
 * whom alice is not in the reference, matched on user name, first name, last name and
 * department.
 */
module Demo {
  import opened Wrappers
  import opened Text
  import opened Matching
  import opened MatchingProperties

  /** A row of the demo reference table. */
  function ReferenceRow(user: string, first: string, last: string, dept: string, role: string): Row {
    map["Username" := user, "First Name" := first, "Last Name" := last, "Department" := dept, "Role" := role]
  }

  /** A row of the demo target table. */
  function TargetRow(user: string, first: string, last: string, dept: string, manager: string, project: string): Row {
    map["Username" := user, "First Name" := first, "Last Name" := last, "Department" := dept,
        "Manager" := manager, "Project" := project]
  }

  function DemoReference(): Dataset {
    Dataset(
      ["Username", "First Name", "Last Name", "Department", "Role"],
      [ ReferenceRow("john.doe@company.com", "John", "Doe", "IT", "Developer"),
        ReferenceRow("jane.smith@company.com", "Jane", "Smith", "HR", "Manager"),
        ReferenceRow("bob.wilson@company.com", "Bob", "Wilson", "Sales", "Representative") ])
  }

  function DemoTarget(): Dataset {
    Dataset(
      ["Username", "First Name", "Last Name", "Department", "Manager", "Project"],
      [ TargetRow("john.doe@company.com", "John", "Doe", "IT", "Manager A", "Project Alpha"),
        TargetRow("jane.smith@company.com", "Jane", "Smith", "HR", "Manager B", "Project Beta"),
        TargetRow("alice.jones@company.com", "Alice", "Jones", "Marketing", "Manager C", "Project Gamma"),
        TargetRow("bob.wilson@company.com", "Bob", "Wilson", "Sales", "Manager D", "Project Delta") ])
  }

  function DemoMapping(): map<string, string> {
    map["Username" := "Username", "First Name" := "First Name", "Last Name" := "Last Name", "Department" := "Department"]
  }

  function DemoColumns(): seq<string> {
    ["Username", "First Name", "Last Name", "Department"]
  }

  const DemoStatus := "Approval Status"

  /** The key of a row whose selected cells are already stripped is the sequence of those cells. */
  lemma KeyIsCells(row: Row, mapping: map<string, string>, cols: seq<string>, side: Side, cells: seq<string>)
    requires |cells| == |cols|
    requires forall p :: 0 <= p < |cols| ==>
      && cols[p] in mapping && Column(side, mapping, cols[p]) in row
      && row[Column(side, mapping, cols[p])] == cells[p] && Strip(cells[p]) == cells[p]
    ensures CompositeKey(row, mapping, cols, side) == Success(cells)
  {
    CompositeKeyExists(row, mapping, cols, side);
    KeyValues(row, mapping, cols, side);
    assert CompositeKey(row, mapping, cols, side).value == cells;
  }

  /** The key of a demo row with unpadded cells: its user name, first name, last name and department. */
  lemma ReferenceRowKey(user: string, first: string, last: string, dept: string, role: string)
    requires Strip(user) == user && Strip(first) == first && Strip(last) == last && Strip(dept) == dept
    ensures CompositeKey(ReferenceRow(user, first, last, dept, role), DemoMapping(), DemoColumns(), Reference)
         == Success([user, first, last, dept])
  {
    KeyIsCells(ReferenceRow(user, first, last, dept, role), DemoMapping(), DemoColumns(), Reference, [user, first, last, dept]);
  }

  lemma TargetRowKey(user: string, first: string, last: string, dept: string, manager: string, project: string)
    requires Strip(user) == user && Strip(first) == first && Strip(last) == last && Strip(dept) == dept
    ensures CompositeKey(TargetRow(user, first, last, dept, manager, project), DemoMapping(), DemoColumns(), Target)
         == Success([user, first, last, dept])
  {
    KeyIsCells(TargetRow(user, first, last, dept, manager, project), DemoMapping(), DemoColumns(), Target, [user, first, last, dept]);
  }

  lemma ReferenceRowColumns(user: string, first: string, last: string, dept: string, role: string)
    ensures ReferenceRow(user, first, last, dept, role).Keys == HeaderSet(DemoReference())
  {
  }

  lemma TargetRowColumns(user: string, first: string, last: string, dept: string, manager: string, project: string)
    ensures TargetRow(user, first, last, dept, manager, project).Keys == HeaderSet(DemoTarget())
  {
  }

  lemma DemoReferenceColumns()
    ensures forall u :: 0 <= u < |DemoReference().rows| ==> DemoReference().rows[u].Keys == HeaderSet(DemoReference())
  {
    ReferenceRowColumns("john.doe@company.com", "John", "Doe", "IT", "Developer");
    ReferenceRowColumns("jane.smith@company.com", "Jane", "Smith", "HR", "Manager");
    ReferenceRowColumns("bob.wilson@company.com", "Bob", "Wilson", "Sales", "Representative");
  }

  lemma DemoTargetColumns()
    ensures forall u :: 0 <= u < |DemoTarget().rows| ==> DemoTarget().rows[u].Keys == HeaderSet(DemoTarget())
  {
    TargetRowColumns("john.doe@company.com", "John", "Doe", "IT", "Manager A", "Project Alpha");
    TargetRowColumns("jane.smith@company.com", "Jane", "Smith", "HR", "Manager B", "Project Beta");
    TargetRowColumns("alice.jones@company.com", "Alice", "Jones", "Marketing", "Manager C", "Project Gamma");
    TargetRowColumns("bob.wilson@company.com", "Bob", "Wilson", "Sales", "Manager D", "Project Delta");
  }

  lemma DemoReferenceWellFormed()
    ensures WellFormed(DemoReference())
  {
    DemoReferenceColumns();
  }

  lemma DemoTargetWellFormed()
    ensures WellFormed(DemoTarget())
  {
    DemoTargetColumns();
  }

  // The key of each demo row: its four selected cells, none of which has surrounding blanks.

  lemma ReferenceKey0()
    ensures CompositeKey(DemoReference().rows[0], DemoMapping(), DemoColumns(), Reference) == Success(["john.doe@company.com", "John", "Doe", "IT"])
  {
    ReferenceRowKey("john.doe@company.com", "John", "Doe", "IT", "Developer");
  }

  lemma ReferenceKey1()
    ensures CompositeKey(DemoReference().rows[1], DemoMapping(), DemoColumns(), Reference) == Success(["jane.smith@company.com", "Jane", "Smith", "HR"])
  {
    ReferenceRowKey("jane.smith@company.com", "Jane", "Smith", "HR", "Manager");
  }

  lemma ReferenceKey2()
    ensures CompositeKey(DemoReference().rows[2], DemoMapping(), DemoColumns(), Reference) == Success(["bob.wilson@company.com", "Bob", "Wilson", "Sales"])
  {
    ReferenceRowKey("bob.wilson@company.com", "Bob", "Wilson", "Sales", "Representative");
  }

  lemma TargetKey0()
    ensures CompositeKey(DemoTarget().rows[0], DemoMapping(), DemoColumns(), Target) == Success(["john.doe@company.com", "John", "Doe", "IT"])
  {
    TargetRowKey("john.doe@company.com", "John", "Doe", "IT", "Manager A", "Project Alpha");
  }

  lemma TargetKey1()
    ensures CompositeKey(DemoTarget().rows[1], DemoMapping(), DemoColumns(), Target) == Success(["jane.smith@company.com", "Jane", "Smith", "HR"])
  {
    TargetRowKey("jane.smith@company.com", "Jane", "Smith", "HR", "Manager B", "Project Beta");
  }

  lemma TargetKey2()
    ensures CompositeKey(DemoTarget().rows[2], DemoMapping(), DemoColumns(), Target) == Success(["alice.jones@company.com", "Alice", "Jones", "Marketing"])
  {
    TargetRowKey("alice.jones@company.com", "Alice", "Jones", "Marketing", "Manager C", "Project Gamma");
  }

  lemma TargetKey3()
    ensures CompositeKey(DemoTarget().rows[3], DemoMapping(), DemoColumns(), Target) == Success(["bob.wilson@company.com", "Bob", "Wilson", "Sales"])
  {
    TargetRowKey("bob.wilson@company.com", "Bob", "Wilson", "Sales", "Manager D", "Project Delta");
  }

  /** alice's key differs from every reference key in its user name. */
  lemma AliceUnmatched()
    ensures CompositeKey(DemoReference().rows[0], DemoMapping(), DemoColumns(), Reference)
         != CompositeKey(DemoTarget().rows[2], DemoMapping(), DemoColumns(), Target)
    ensures CompositeKey(DemoReference().rows[1], DemoMapping(), DemoColumns(), Reference)
         != CompositeKey(DemoTarget().rows[2], DemoMapping(), DemoColumns(), Target)
    ensures CompositeKey(DemoReference().rows[2], DemoMapping(), DemoColumns(), Reference)
         != CompositeKey(DemoTarget().rows[2], DemoMapping(), DemoColumns(), Target)
  {
    ReferenceKey0();
    ReferenceKey1();
    ReferenceKey2();
    TargetKey2();
    assert "alice.jones@company.com"[0] == 'a';
    assert "john.doe@company.com"[0] == 'j';
    assert "jane.smith@company.com"[0] == 'j';
    assert "bob.wilson@company.com"[0] == 'b';
  }

  lemma NoneOfThree(rows: seq<Row>, mapping: map<string, string>, cols: seq<string>, key: Result<Key, Error>)
    requires |rows| == 3
    requires CompositeKey(rows[0], mapping, cols, Reference) != key
    requires CompositeKey(rows[1], mapping, cols, Reference) != key
    requires CompositeKey(rows[2], mapping, cols, Reference) != key
    ensures !exists v :: 0 <= v < |rows| && CompositeKey(rows[v], mapping, cols, Reference) == key
  {
  }

  lemma YesRowsOfFour(rows: seq<Row>, status: string)
    requires |rows| == 4 && forall u :: 0 <= u < 4 ==> status in rows[u]
    requires rows[0][status] == "YES" && rows[1][status] == "YES" && rows[2][status] == "NO" && rows[3][status] == "YES"
    ensures |YesRows(rows, status)| == 3
  {
    assert YesRows(rows, status) == {0, 1, 3};
  }

  function DemoOutcome(): Result<Output, Error> {
    Run(Some(DemoReference()), Some(DemoTarget()), DemoMapping(), DemoColumns(), DemoStatus)
  }

  lemma DemoSucceeds()
    ensures DemoOutcome().Success? && |DemoOutcome().value.data.rows| == 4
    ensures forall u :: 0 <= u < 4 ==> DemoStatus in DemoOutcome().value.data.rows[u]
  {
    DemoReferenceWellFormed();
    DemoTargetWellFormed();
    RunSucceedsIff(DemoReference(), DemoTarget(), DemoMapping(), DemoColumns(), DemoStatus);
    RunShape(DemoReference(), DemoTarget(), DemoMapping(), DemoColumns(), DemoStatus);
  }

  lemma DemoMatchedRows()
    requires DemoOutcome().Success?
    ensures |DemoOutcome().value.data.rows| == 4
    ensures DemoStatus in DemoOutcome().value.data.rows[0] && DemoOutcome().value.data.rows[0][DemoStatus] == "YES"
    ensures DemoStatus in DemoOutcome().value.data.rows[1] && DemoOutcome().value.data.rows[1][DemoStatus] == "YES"
    ensures DemoStatus in DemoOutcome().value.data.rows[3] && DemoOutcome().value.data.rows[3][DemoStatus] == "YES"
  {
    RunShape(DemoReference(), DemoTarget(), DemoMapping(), DemoColumns(), DemoStatus);
    ReferenceKey0();
    TargetKey0();
    RowTagYes(DemoReference(), DemoTarget(), DemoMapping(), DemoColumns(), DemoStatus, 0, 0);
    ReferenceKey1();
    TargetKey1();
    RowTagYes(DemoReference(), DemoTarget(), DemoMapping(), DemoColumns(), DemoStatus, 1, 1);
    ReferenceKey2();
    TargetKey3();
    RowTagYes(DemoReference(), DemoTarget(), DemoMapping(), DemoColumns(), DemoStatus, 3, 2);
  }

  lemma DemoAliceRow()
    requires DemoOutcome().Success?
    ensures 2 < |DemoOutcome().value.data.rows|
    ensures DemoStatus in DemoOutcome().value.data.rows[2] && DemoOutcome().value.data.rows[2][DemoStatus] == "NO"
  {
    var reference, target := DemoReference(), DemoTarget();
    var mapping, cols := DemoMapping(), DemoColumns();
    RowTag(reference, target, mapping, cols, DemoStatus, 2);
    AliceUnmatched();
    NoneOfThree(reference.rows, mapping, cols, CompositeKey(target.rows[2], mapping, cols, Target));
  }

  /** The demo run tags the first, second and fourth target rows "YES", alice's row "NO", and counts 3 matches. */
  lemma DemoRun()
    ensures var r := Run(Some(DemoReference()), Some(DemoTarget()), DemoMapping(), DemoColumns(), DemoStatus);
      && r.Success?
      && |r.value.data.rows| == 4
      && (forall u :: 0 <= u < 4 ==> DemoStatus in r.value.data.rows[u])
      && r.value.data.rows[0][DemoStatus] == "YES"
      && r.value.data.rows[1][DemoStatus] == "YES"
      && r.value.data.rows[2][DemoStatus] == "NO"
      && r.value.data.rows[3][DemoStatus] == "YES"
      && r.value.matches == 3
  {
    DemoSucceeds();
    DemoMatchedRows();
    DemoAliceRow();
    RunCountsMatches(DemoReference(), DemoTarget(), DemoMapping(), DemoColumns(), DemoStatus);
    YesRowsOfFour(DemoOutcome().value.data.rows, DemoStatus);
  }
}
