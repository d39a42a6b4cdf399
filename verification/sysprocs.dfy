/** The fixed table of system procedures the compiler adds to every database, and
    how each becomes a catalog procedure named `@` plus its simple class name. */
module Sysprocs {
  import opened Wrappers
  import opened Catalog
  import Strings
  import Classes

  const SysprocPackage: string := "org.voltdb.sysprocs."

  /** One row of the sysproc table: the class's simple name and two flags. */
  datatype SysprocEntry = SysprocEntry(simpleName: string, readonly: bool, everysite: bool)

  function EntryClassName(e: SysprocEntry): string {
    SysprocPackage + e.simpleName
  }

  /** The system procedures, in the order they are added. */
  const SysprocTable: seq<SysprocEntry> := [
    SysprocEntry("AdHoc", false, false),
    SysprocEntry("LoadMultipartitionTable", false, false),
    SysprocEntry("Quiesce", false, false),
    SysprocEntry("Rejoin", false, false),
    SysprocEntry("SnapshotSave", false, false),
    SysprocEntry("SnapshotRestore", false, false),
    SysprocEntry("SnapshotStatus", false, false),
    SysprocEntry("SnapshotScan", false, false),
    SysprocEntry("SnapshotDelete", false, false),
    SysprocEntry("Shutdown", false, false),
    SysprocEntry("ProfCtl", false, false),
    SysprocEntry("Statistics", true, false),
    SysprocEntry("SystemInformation", true, false),
    SysprocEntry("UpdateApplicationCatalog", false, true),
    SysprocEntry("UpdateLogging", false, true)
  ]

  /** `"@" + parts[parts.length - 1]` of the class name split on dots; a name that
      splits into nothing has no short name. */
  function ShortName(className: string): (r: string)
    requires |Strings.Split(className, '.')| > 0
    ensures |r| > 0 && r[0] == '@'
    ensures '.' !in r
  {
    var last := Strings.Last(Strings.Split(className, '.'));
    var r := "@" + last;
    assert forall j :: 1 <= j < |r| ==> r[j] == last[j - 1];
    r
  }

  /** The short name is `@` plus the file name the compiler uses for the class,
      without its `.class` suffix. */
  lemma ShortNameOfClassFileName(className: string)
    requires |className| == 0 || className[|className| - 1] != '.'
    ensures |Strings.Split(className, '.')| > 0
    ensures var f := Classes.ClassFileName(className);
      ShortName(className) == "@" + f[..|f| - |Classes.ClassSuffix|]
  {
    Strings.SplitLast(className, '.');
    var f := Classes.ClassFileName(className);
    assert f[..|f| - |Classes.ClassSuffix|] == className[Strings.LastIndexOf(className, '.') + 1..];
  }

  /** A class of the sysproc package is known by its simple name. */
  lemma ShortNameOfEntry(e: SysprocEntry)
    requires |e.simpleName| > 0 && '.' !in e.simpleName
    ensures |Strings.Split(EntryClassName(e), '.')| > 0
    ensures ShortName(EntryClassName(e)) == "@" + e.simpleName
  {
    var cn := EntryClassName(e);
    var k := |SysprocPackage| - 1;
    assert cn[k] == '.';
    forall j | k < j < |cn| ensures cn[j] != '.' {
      assert cn[j] == e.simpleName[j - |SysprocPackage|];
    }
    Strings.LastIndexOfUnique(cn, '.', k);
    ShortNameOfClassFileName(cn);
    assert cn[k + 1..] == e.simpleName;
  }

  /** Every row names a non-empty, dot-free simple name. */
  lemma SysprocTableWellFormed()
    ensures |SysprocTable| == 15
    ensures forall i :: 0 <= i < |SysprocTable| ==> WellFormedEntry(SysprocTable[i])
  {
    forall i | 0 <= i < |SysprocTable| ensures WellFormedEntry(SysprocTable[i]) {
      RowWellFormed(i);
    }
  }

  lemma RowWellFormed(i: int)
    requires 0 <= i < |SysprocTable|
    ensures WellFormedEntry(SysprocTable[i])
  {
    var n := SysprocTable[i].simpleName;
    if i < 5 { FirstRowsWellFormed(); }
    else if i < 10 { MiddleRowsWellFormed(); }
    else { LastRowsWellFormed(); }
    assert forall j :: 0 <= j < |n| ==> n[j] != '.';
  }

  lemma FirstRowsWellFormed()
    ensures forall i, j :: 0 <= i < 5 && 0 <= j < |SysprocTable[i].simpleName| ==> SysprocTable[i].simpleName[j] != '.'
    ensures forall i :: 0 <= i < 5 ==> |SysprocTable[i].simpleName| > 0
  {
  }

  lemma MiddleRowsWellFormed()
    ensures forall i, j :: 5 <= i < 10 && 0 <= j < |SysprocTable[i].simpleName| ==> SysprocTable[i].simpleName[j] != '.'
    ensures forall i :: 5 <= i < 10 ==> |SysprocTable[i].simpleName| > 0
  {
  }

  lemma LastRowsWellFormed()
    ensures forall i, j :: 10 <= i < 15 && 0 <= j < |SysprocTable[i].simpleName| ==> SysprocTable[i].simpleName[j] != '.'
    ensures forall i :: 10 <= i < 15 ==> |SysprocTable[i].simpleName| > 0
  {
  }

  /** No two rows share a simple name, so no two system procedures share a name. */
  lemma SysprocNamesDistinct(i: int, j: int)
    requires 0 <= i < j < |SysprocTable|
    ensures SysprocTable[i].simpleName != SysprocTable[j].simpleName
  {
  }

  /** A row whose class name has a well-defined simple name. */
  predicate WellFormedEntry(e: SysprocEntry) {
    |e.simpleName| > 0 && '.' !in e.simpleName
  }

  /** The catalog procedure a row yields, given its class's annotation. Its name is
      the short name of the row's class (`SysprocNodeName`). */
  function SysprocNode(e: SysprocEntry, info: Classes.ProcInfo): (p: Procedure)
    ensures p.systemproc && p.hasjava && |p.statements| == 0
    ensures p.className == EntryClassName(e) && p.readonly == e.readonly && p.everysite == e.everysite
    ensures p.singlepartition == info.singlePartition
  {
    Procedure("@" + e.simpleName, EntryClassName(e), e.readonly, true, true, info.singlePartition, e.everysite, [])
  }

  /** The node is named by the short name of its class: `@` and the last
      dot-separated part of the class name. */
  lemma SysprocNodeName(e: SysprocEntry, info: Classes.ProcInfo)
    requires WellFormedEntry(e)
    ensures |Strings.Split(EntryClassName(e), '.')| > 0
    ensures SysprocNode(e, info).name == ShortName(EntryClassName(e))
  {
    ShortNameOfEntry(e);
  }

  /** The class of the entry can be loaded and carries `@ProcInfo`. */
  predicate Loadable(classes: Classes.ClassPath, e: SysprocEntry) {
    EntryClassName(e) in classes && classes[EntryClassName(e)].procInfo.Some?
  }

  function CannotLoadMessage(className: string): string {
    "Cannot load sysproc " + className
  }

  function MissingAnnotationMessage(e: SysprocEntry): string {
    "Sysproc @" + e.simpleName + " is missing annotation."
  }

  /** Row `i` is the first whose class cannot be loaded or is not annotated. */
  predicate FirstUnloadable(classes: Classes.ClassPath, rows: seq<SysprocEntry>, i: int)
    requires 0 <= i < |rows|
  {
    !Loadable(classes, rows[i]) && forall j :: 0 <= j < i ==> Loadable(classes, rows[j])
  }

  /** Loads one row's class and reads its annotation. */
  function LoadEntry(classes: Classes.ClassPath, e: SysprocEntry): (r: Result<Procedure>)
    ensures r.Ok? <==> Loadable(classes, e)
    ensures r.Ok? ==> r.value == SysprocNode(e, classes[EntryClassName(e)].procInfo.value)
    ensures EntryClassName(e) !in classes ==> r == Err(CannotLoadMessage(EntryClassName(e)))
    ensures EntryClassName(e) in classes && !Loadable(classes, e) ==> r == Err(MissingAnnotationMessage(e))
  {
    var cn := EntryClassName(e);
    if cn !in classes then Err(CannotLoadMessage(cn))
    else if classes[cn].procInfo.None? then Err(MissingAnnotationMessage(e))
    else Ok(SysprocNode(e, classes[cn].procInfo.value))
  }

  /** Adds the catalog procedure of each row after the database's own procedures,
      or fails at the first row whose class cannot be loaded or is not annotated. */
  function AddRows(db: Database, rows: seq<SysprocEntry>, classes: Classes.ClassPath): (r: Result<Database>)
    ensures r.Ok? <==> forall i :: 0 <= i < |rows| ==> Loadable(classes, rows[i])
    ensures r.Ok? ==>
      && r.value == db.(procedures := r.value.procedures)
      && |r.value.procedures| == |db.procedures| + |rows|
      && r.value.procedures[..|db.procedures|] == db.procedures
      && forall i :: 0 <= i < |rows| ==>
        var p := r.value.procedures[|db.procedures| + i];
        && p.name == "@" + rows[i].simpleName
        && p.className == SysprocPackage + rows[i].simpleName
        && p.systemproc && p.hasjava && |p.statements| == 0
        && p.readonly == rows[i].readonly && p.everysite == rows[i].everysite
        && p.singlepartition == classes[p.className].procInfo.value.singlePartition
    ensures r.Err? ==>
      exists i :: 0 <= i < |rows| && FirstUnloadable(classes, rows, i) && r == LoadEntry(classes, rows[i]).PropagateFailure()
  {
    match MapAll(rows, e => LoadEntry(classes, e))
    case Err(e) => Err(e)
    case Ok(procs) =>
      var all := db.procedures + procs;
      assert forall i :: 0 <= i < |rows| ==> all[|db.procedures| + i] == procs[i];
      Ok(db.(procedures := all))
  }

  /** Adds the fifteen system procedures of the sysproc table. */
  function AddSystemProcs(db: Database, classes: Classes.ClassPath): (r: Result<Database>)
    ensures r.Ok? <==> forall i :: 0 <= i < |SysprocTable| ==> Loadable(classes, SysprocTable[i])
    ensures r.Ok? ==> |r.value.procedures| == |db.procedures| + 15
  {
    AddRows(db, SysprocTable, classes)
  }

  /** Each added procedure is named by the short name of its class. */
  lemma AddSystemProcsShortNames(db: Database, classes: Classes.ClassPath, i: int)
    requires AddRows(db, SysprocTable, classes).Ok? && 0 <= i < |SysprocTable|
    ensures var p := AddRows(db, SysprocTable, classes).value.procedures[|db.procedures| + i];
      |Strings.Split(p.className, '.')| > 0 && p.name == ShortName(p.className)
  {
    SysprocTableWellFormed();
    ShortNameOfEntry(SysprocTable[i]);
  }
}
