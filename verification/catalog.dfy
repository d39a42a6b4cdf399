/** The part of the catalog tree the compile driver reads and writes: one database
    with its snapshot schedule, groups, tables (with columns and materialized views),
    procedures and export connector. Catalog collections are sequences of named
    items in iteration order; groups are looked up by exact name. */
module Catalog {
  import opened Wrappers
  import Strings

  datatype Column = Column(name: string, nullable: bool)

  /** A materialized view maintained from a table; `dest` names the view's own table. */
  datatype ViewInfo = ViewInfo(name: string, dest: string)

  /** `materializer` names the source table when this table is itself a view. */
  datatype Table = Table(
    name: string,
    columns: seq<Column>,
    partitionColumn: Option<string>,
    isReplicated: bool,
    views: seq<ViewInfo>,
    materializer: Option<string>)

  datatype Group = Group(adhoc: bool, sysproc: bool)

  datatype Statement = Statement(name: string, sqlText: string, cost: int, explainPlan: string)

  datatype Procedure = Procedure(
    name: string,
    className: string,
    readonly: bool,
    systemproc: bool,
    hasjava: bool,
    singlepartition: bool,
    everysite: bool,
    statements: seq<Statement>)

  datatype SnapshotSchedule = SnapshotSchedule(
    frequencyUnit: string,
    frequencyValue: int,
    path: string,
    prefix: string,
    retain: int)

  /** An exported table: `name` as written in the project file, `table` the
      catalog table it resolved to. */
  datatype ConnectorTableInfo = ConnectorTableInfo(name: string, appendOnly: bool, table: string)

  datatype Connector = Connector(
    enabled: bool,
    loaderClass: string,
    authGroups: seq<string>,
    tableInfo: seq<ConnectorTableInfo>)

  datatype Database = Database(
    name: string,
    snapshot: Option<SnapshotSchedule>,
    groups: map<string, Group>,
    tables: seq<Table>,
    procedures: seq<Procedure>,
    connector: Option<Connector>)

  /** The cluster node: its security flag and (at most) one database. */
  datatype Catalog = Catalog(securityEnabled: bool, database: Option<Database>)

  /** The database node as first created, before anything is added under it. */
  function NewDatabase(name: string): (db: Database)
    ensures db.name == name && |db.tables| == 0 && |db.procedures| == 0
    ensures db.groups == map[] && db.snapshot.None? && db.connector.None?
  {
    Database(name, None, map[], [], [], None)
  }

  /** The names of a sequence of catalog nodes, in order. */
  function Names<T>(nodes: seq<T>, nameOf: T -> string): (r: seq<string>)
    ensures |r| == |nodes|
    ensures forall i :: 0 <= i < |nodes| ==> r[i] == nameOf(nodes[i])
  {
    seq(|nodes|, i requires 0 <= i < |nodes| => nameOf(nodes[i]))
  }

  function TableName(t: Table): string { t.name }

  function ColumnName(c: Column): string { c.name }

  /** `getTables().getIgnoreCase(name)`: the first table whose name matches ignoring case. */
  function FindTable(tables: seq<Table>, name: string): (r: Option<nat>)
    ensures r.Some? ==> r.value < |tables| && Strings.EqualsIgnoreCase(tables[r.value].name, name)
    ensures r.None? <==> forall i :: 0 <= i < |tables| ==> !Strings.EqualsIgnoreCase(tables[i].name, name)
  {
    Strings.FindIgnoreCase(Names(tables, TableName), name)
  }

  /** `getColumns().getIgnoreCase(name)` on one table. */
  function FindColumn(t: Table, name: string): (r: Option<nat>)
    ensures r.Some? ==> r.value < |t.columns| && Strings.EqualsIgnoreCase(t.columns[r.value].name, name)
    ensures r.None? <==> forall i :: 0 <= i < |t.columns| ==> !Strings.EqualsIgnoreCase(t.columns[i].name, name)
  {
    Strings.FindIgnoreCase(Names(t.columns, ColumnName), name)
  }

  /** Some table of the database is a materialized view of the named table. */
  predicate IsViewSource(tables: seq<Table>, name: string) {
    exists i :: 0 <= i < |tables| && tables[i].materializer == Some(name)
  }
}
