/** Building the export connector from the project file's `<export>` element: the
    connector's groups must already exist, and every exported table must exist, and
    an export-only table may be neither a materialized view nor the source of one. */
module Export {
  import opened Wrappers
  import opened Catalog
  import Strings
  import Project

  /** A `<table>` under `<export><connector><tables>`. */
  datatype ExportTableConfig = ExportTableConfig(name: string, exportOnly: bool)

  /** The `<connector>` element. */
  datatype ConnectorConfig = ConnectorConfig(
    enabled: bool,
    className: string,
    groups: Option<string>,
    tables: Option<seq<ExportTableConfig>>)

  function MissingGroupMessage(className: string, group: string): string {
    "Export connector " + className + " has a group " + group + " that does not exist"
  }

  function MissingTableMessage(table: string): string {
    "While configuring export, table " + table + " was not present in the catalog."
  }

  const ViewSourceMessage: string := "Export-only table configured with materialized view."
  const ViewMessage: string := "View configured as an export-only table"

  /** A connector group must name a group of the database exactly. */
  function CheckGroup(db: Database, className: string, group: string): (r: Result<string>)
    ensures r.Ok? <==> group in db.groups
    ensures r.Ok? ==> r.value == group
    ensures r.Err? ==> r.error == MissingGroupMessage(className, group)
  {
    if group in db.groups then Ok(group) else Err(MissingGroupMessage(className, group))
  }

  /** The table is in the catalog (ignoring case), and if it is export-only then it
      neither feeds a materialized view nor is one. */
  predicate TableAcceptable(tables: seq<Table>, xt: ExportTableConfig) {
    match FindTable(tables, xt.name)
    case None => false
    case Some(i) =>
      !xt.exportOnly || (!IsViewSource(tables, tables[i].name) && tables[i].materializer.None?)
  }

  /** The connector table entry for one exported table. */
  function ExportTable(tables: seq<Table>, xt: ExportTableConfig): (r: Result<ConnectorTableInfo>)
    ensures r.Ok? <==> TableAcceptable(tables, xt)
    ensures r.Ok? ==>
      && r.value.name == xt.name
      && r.value.appendOnly == xt.exportOnly
      && r.value.table == tables[FindTable(tables, xt.name).value].name
    ensures FindTable(tables, xt.name).None? ==> r == Err(MissingTableMessage(xt.name))
    ensures FindTable(tables, xt.name).Some? && xt.exportOnly ==>
      var t := tables[FindTable(tables, xt.name).value];
      && (IsViewSource(tables, t.name) ==> r == Err(ViewSourceMessage))
      && (!IsViewSource(tables, t.name) && t.materializer.Some? ==> r == Err(ViewMessage))
  {
    match FindTable(tables, xt.name)
    case None => Err(MissingTableMessage(xt.name))
    case Some(i) =>
      var t := tables[i];
      if xt.exportOnly && IsViewSource(tables, t.name) then Err(ViewSourceMessage)
      else if xt.exportOnly && t.materializer.Some? then Err(ViewMessage)
      else Ok(ConnectorTableInfo(xt.name, xt.exportOnly, t.name))
  }

  function ExportTables(c: ConnectorConfig): seq<ExportTableConfig> {
    match c.tables
    case None => []
    case Some(ts) => ts
  }

  /** When the connector element is accepted: each of its groups exists and each of
      its tables is acceptable. */
  predicate ConnectorAcceptable(db: Database, c: ConnectorConfig) {
    var groups := Project.AuthGroups(c.groups);
    var tables := ExportTables(c);
    && (forall i :: 0 <= i < |groups| ==> groups[i] in db.groups)
    && (forall i :: 0 <= i < |tables| ==> TableAcceptable(db.tables, tables[i]))
  }

  /** Adds the connector to the database; without an `<export>` element nothing changes. */
  function CompileConnector(db: Database, conn: Option<ConnectorConfig>): (r: Result<Database>)
    ensures conn.None? ==> r == Ok(db)
    ensures r.Ok? <==> conn.None? || ConnectorAcceptable(db, conn.value)
    ensures r.Ok? && conn.Some? ==>
      var c := conn.value;
      var xts := ExportTables(c);
      && r.value == db.(connector := r.value.connector)
      && r.value.connector.Some?
      && var k := r.value.connector.value;
      && k.enabled == c.enabled
      && k.loaderClass == c.className
      && k.authGroups == Project.AuthGroups(c.groups)
      && |k.tableInfo| == |xts|
      && forall i :: 0 <= i < |xts| ==>
        && k.tableInfo[i].name == xts[i].name
        && k.tableInfo[i].appendOnly == xts[i].exportOnly
        && Strings.EqualsIgnoreCase(k.tableInfo[i].table, xts[i].name)
    ensures r.Err? && conn.Some? ==>
      var groups := Project.AuthGroups(conn.value.groups);
      (exists i :: 0 <= i < |groups| && groups[i] !in db.groups) ==>
        exists i :: 0 <= i < |groups| && r.error == MissingGroupMessage(conn.value.className, groups[i])
  {
    match conn
    case None => Ok(db)
    case Some(c) =>
      var groups := Project.AuthGroups(c.groups);
      var checked := MapAll(groups, g => CheckGroup(db, c.className, g));
      if checked.Err? then Err(checked.error)
      else
        var xts := ExportTables(c);
        var infos := MapAll(xts, xt => ExportTable(db.tables, xt));
        if infos.Err? then Err(infos.error)
        else Ok(db.(connector := Some(Connector(c.enabled, c.className, groups, infos.value))))
  }

  /** In an accepted connector every export-only entry resolves to a table that is
      neither a materialized view nor the source of one. */
  lemma ExportOnlyTablesArePlain(db: Database, c: ConnectorConfig, i: int)
    requires ConnectorAcceptable(db, c)
    requires 0 <= i < |ExportTables(c)| && ExportTables(c)[i].exportOnly
    ensures var r := CompileConnector(db, Some(c));
      r.Ok? &&
      var name := r.value.connector.value.tableInfo[i].table;
      && !IsViewSource(db.tables, name)
      && exists t :: t in db.tables && t.name == name && t.materializer.None?
  {
    var xts := ExportTables(c);
    var xt := xts[i];
    var infos := MapAll(xts, xt => ExportTable(db.tables, xt));
    assert ExportTable(db.tables, xt) == Ok(infos.value[i]);
    var t := db.tables[FindTable(db.tables, xt.name).value];
    assert t in db.tables;
  }
}
