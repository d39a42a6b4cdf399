/** The project-file checks the compile driver makes before it reads any schema:
    the fixed database name, the snapshot schedule, declared groups, the shape of
    each procedure descriptor, partition attributes and class dependencies. */
module Project {
  import opened Wrappers
  import Strings
  import Decimal
  import opened Catalog
  import Classes

  /** The only database name the compiler accepts. */
  const DatabaseName: string := "database"

  function DatabaseNameMessage(found: string): string {
    "VoltDB currently requires all database elements to be named \"database\" (found: \"" + found + "\")"
  }

  function CheckDatabaseName(name: string): (r: Result<string>)
    ensures r.Ok? <==> name == DatabaseName
    ensures r.Ok? ==> r.value == DatabaseName
    ensures r.Err? ==> r.error == DatabaseNameMessage(name)
  {
    if name != DatabaseName then Err(DatabaseNameMessage(name)) else Ok(name)
  }

  /** Java string concatenation of a possibly-null string. */
  function Show(s: Option<string>): string {
    match s
    case None => "null"
    case Some(v) => v
  }

  /** The `<snapshot>` element; absent attributes are `None`. */
  datatype SnapshotConfig = SnapshotConfig(
    frequency: string,
    prefix: Option<string>,
    path: Option<string>,
    retain: Option<int>)

  predicate IsTimeUnit(c: char) {
    c == 's' || c == 'm' || c == 'h'
  }

  function FrequencyUnitMessage(frequency: string): string {
    "Snapshot frequency " + frequency + " needs to end with time unit specified" +
    " that is one of [s, m, h] (seconds, minutes, hours)"
  }

  function FrequencyValueMessage(digits: string): string {
    "Frequency " + digits + " is not an integer "
  }

  function RetainMessage(retain: int): string {
    "Snapshot retain value " + Decimal.IntToString(retain) + " is not a valid value. Must be 1 or greater."
  }

  /** When a snapshot schedule is accepted, stated without reference to the order
      in which the compiler checks it. */
  predicate ValidSnapshot(cfg: SnapshotConfig) {
    var f := cfg.frequency;
    && |f| > 0 && IsTimeUnit(f[|f| - 1])
    && Decimal.ParseInt(f[..|f| - 1]).Some?
    && cfg.prefix.Some? && |cfg.prefix.value| > 0
    && '-' !in cfg.prefix.value && ',' !in cfg.prefix.value
    && cfg.path.Some? && |cfg.path.value| > 0
    && cfg.retain.Some? && cfg.retain.value >= 1
  }

  /** Validates the snapshot element and builds the schedule node, checking in the
      compiler's order so that the first violation names the error. */
  function CompileSnapshot(cfg: SnapshotConfig): (r: Result<SnapshotSchedule>)
    ensures r.Ok? <==> ValidSnapshot(cfg)
    ensures r.Ok? ==>
      var f := cfg.frequency;
      && r.value.frequencyUnit == [f[|f| - 1]]
      && Decimal.ParseInt(f[..|f| - 1]) == Some(r.value.frequencyValue)
      && r.value.path == cfg.path.value
      && r.value.prefix == cfg.prefix.value
      && r.value.retain == cfg.retain.value
    ensures (!Strings.EndsWith(cfg.frequency, "s") && !Strings.EndsWith(cfg.frequency, "m") &&
             !Strings.EndsWith(cfg.frequency, "h")) ==> r == Err(FrequencyUnitMessage(cfg.frequency))
    ensures ValidSnapshot(cfg.(retain := Some(1))) && cfg.retain.Some? && cfg.retain.value < 1 ==>
      r == Err(RetainMessage(cfg.retain.value))
  {
    var f := cfg.frequency;
    Strings.EndsWithChar(f, 's');
    Strings.EndsWithChar(f, 'm');
    Strings.EndsWithChar(f, 'h');
    if !Strings.EndsWith(f, "s") && !Strings.EndsWith(f, "m") && !Strings.EndsWith(f, "h") then
      Err(FrequencyUnitMessage(f))
    else
      var digits := f[..|f| - 1];
      match Decimal.ParseInt(digits)
      case None => Err(FrequencyValueMessage(digits))
      case Some(value) =>
        if cfg.prefix.None? || |cfg.prefix.value| == 0 then
          Err("Snapshot prefix " + Show(cfg.prefix) + " is not a valid prefix ")
        else if '-' in cfg.prefix.value || ',' in cfg.prefix.value then
          Err("Snapshot prefix " + cfg.prefix.value + " cannot include , or - ")
        else if cfg.path.None? || |cfg.path.value| == 0 then
          Err("Snapshot path " + Show(cfg.path) + " is not a valid path ")
        else if cfg.retain.None? then
          Err("Snapshot retain value not provided")
        else if cfg.retain.value < 1 then
          Err(RetainMessage(cfg.retain.value))
        else
          Ok(SnapshotSchedule([f[|f| - 1]], value, cfg.path.value, cfg.prefix.value, cfg.retain.value))
  }

  /** A `<group>` element. */
  datatype GroupConfig = GroupConfig(name: string, adhoc: bool, sysproc: bool)

  /** Some group element is named `name`. */
  predicate Declares(groups: seq<GroupConfig>, name: string) {
    exists i :: 0 <= i < |groups| && groups[i].name == name
  }

  /** Element `i` is the last one with its name. */
  predicate LastDeclaration(groups: seq<GroupConfig>, i: int)
    requires 0 <= i < |groups|
  {
    forall j :: i < j < |groups| ==> groups[j].name != groups[i].name
  }

  /** Adds one catalog group per declared group, in declaration order, so that a
      later element with the same name replaces an earlier one. */
  function RegisterGroups(db: Database, groups: seq<GroupConfig>): (r: Database)
    ensures r == db.(groups := r.groups)
    ensures db.groups.Keys <= r.groups.Keys
    decreases |groups|
  {
    if |groups| == 0 then db
    else
      var g := groups[|groups| - 1];
      var r0 := RegisterGroups(db, groups[..|groups| - 1]);
      r0.(groups := r0.groups[g.name := Group(g.adhoc, g.sysproc)])
  }

  /** The groups registered are exactly the old ones plus the declared names. */
  lemma {:induction false} RegisterGroupsKeys(db: Database, groups: seq<GroupConfig>)
    ensures forall k :: k in RegisterGroups(db, groups).groups <==> k in db.groups || Declares(groups, k)
    decreases |groups|
  {
    if |groups| > 0 {
      var front := groups[..|groups| - 1];
      RegisterGroupsKeys(db, front);
      DeclaresSnoc(front, groups[|groups| - 1]);
      assert groups == front + [groups[|groups| - 1]];
    }
  }

  /** Each declared name ends up with the flags of its last declaration. */
  lemma {:induction false} RegisterGroupsLastWins(db: Database, groups: seq<GroupConfig>, i: int)
    requires 0 <= i < |groups| && LastDeclaration(groups, i)
    ensures var r := RegisterGroups(db, groups);
      groups[i].name in r.groups && r.groups[groups[i].name] == Group(groups[i].adhoc, groups[i].sysproc)
    decreases |groups|
  {
    if i < |groups| - 1 {
      var front := groups[..|groups| - 1];
      DeclaresSnoc(front, groups[|groups| - 1]);
      assert groups == front + [groups[|groups| - 1]];
      RegisterGroupsLastWins(db, front, i);
    }
  }

  /** A group no element names keeps its old flags. */
  lemma {:induction false} RegisterGroupsUntouched(db: Database, groups: seq<GroupConfig>, k: string)
    requires k in db.groups && !Declares(groups, k)
    ensures RegisterGroups(db, groups).groups[k] == db.groups[k]
    decreases |groups|
  {
    if |groups| > 0 {
      var front := groups[..|groups| - 1];
      DeclaresSnoc(front, groups[|groups| - 1]);
      assert groups == front + [groups[|groups| - 1]];
      RegisterGroupsUntouched(db, front, k);
    }
  }

  lemma DeclaresSnoc(front: seq<GroupConfig>, g: GroupConfig)
    ensures forall k :: Declares(front + [g], k) <==> Declares(front, k) || k == g.name
    ensures forall i :: 0 <= i < |front| ==> (front + [g])[i] == front[i]
    ensures forall i :: 0 <= i < |front| && LastDeclaration(front + [g], i) ==> LastDeclaration(front, i)
  {
    var groups := front + [g];
    forall i | 0 <= i < |front| && LastDeclaration(groups, i) ensures LastDeclaration(front, i) {
      forall j | i < j < |front| ensures front[j].name != front[i].name {
        assert groups[j] == front[j];
      }
    }
    forall k | Declares(front, k) ensures Declares(groups, k) {
      var i :| 0 <= i < |front| && front[i].name == k;
      assert groups[i] == front[i];
    }
    assert groups[|front|] == g;
    forall k | Declares(groups, k) && k != g.name ensures Declares(front, k) {
      var i :| 0 <= i < |groups| && groups[i].name == k;
      assert groups[i] == front[i];
    }
  }

  /** The `<sql>` child of a procedure element. */
  datatype SqlConfig = SqlConfig(text: string, joinOrder: Option<string>)

  /** A `<procedure>` element. */
  datatype ProcedureConfig = ProcedureConfig(
    groups: Option<string>,
    className: string,
    sql: Option<SqlConfig>,
    partitionInfo: Option<string>)

  /** A class-based (Java) procedure, or a single-statement procedure given by its SQL. */
  datatype ProcedureDescriptor =
    | JavaProcedure(authGroups: seq<string>, className: string)
    | StatementProcedure(
        authGroups: seq<string>,
        className: string,
        sql: string,
        joinOrder: Option<string>,
        partition: Option<string>)

  const JavaPartitionMessage: string :=
    "Java procedures must specify partition info using " +
    "@ProcInfo annotation in the Java class implementation " +
    "and may not use the @partitioninfo project file procedure attribute."

  /** The authorised group names: the comma-split of the `groups` attribute. */
  function AuthGroups(groups: Option<string>): (r: seq<string>)
    ensures groups.None? ==> r == []
    ensures forall i :: 0 <= i < |r| ==> ',' !in r[i]
  {
    match groups
    case None => []
    case Some(g) => Strings.Split(g, ',')
  }

  /** Joining the group names with commas restores an attribute that does not end
      with a comma. */
  lemma AuthGroupsJoin(g: string)
    requires |g| == 0 || g[|g| - 1] != ','
    ensures Strings.Join(AuthGroups(Some(g)), ',') == g
  {
    Strings.SplitJoin(g, ',');
  }

  function GetProcedure(p: ProcedureConfig): (r: Result<ProcedureDescriptor>)
    ensures r.Err? <==> p.sql.None? && p.partitionInfo.Some?
    ensures r.Err? ==> r.error == JavaPartitionMessage
    ensures r.Ok? ==> r.value.className == p.className && r.value.authGroups == AuthGroups(p.groups)
    ensures r.Ok? ==> (r.value.StatementProcedure? <==> p.sql.Some?)
    ensures r.Ok? && p.sql.Some? ==>
      && r.value.sql == p.sql.value.text
      && r.value.joinOrder == p.sql.value.joinOrder
      && (r.value.partition.None? <==> p.partitionInfo.None? || p.partitionInfo == Some(""))
      && (r.value.partition.Some? ==> r.value.partition == p.partitionInfo)
  {
    var groups := AuthGroups(p.groups);
    match p.sql
    case Some(sql) =>
      var partition := if p.partitionInfo == Some("") then None else p.partitionInfo;
      Ok(StatementProcedure(groups, p.className, sql.text, sql.joinOrder, partition))
    case None =>
      if p.partitionInfo.Some? then Err(JavaPartitionMessage)
      else Ok(JavaProcedure(groups, p.className))
  }

  /** A `<partition>` element: the table and the column to partition it on. */
  datatype PartitionConfig = PartitionConfig(table: string, column: string)

  const EmptyTableMessage: string := "\"partition\" element has empty \"table\" attribute"
  const EmptyColumnMessage: string := "\"partition\" element has empty \"column\" attribute"

  function GetPartition(p: PartitionConfig): (r: Result<PartitionConfig>)
    ensures r.Ok? <==> |p.table| > 0 && |p.column| > 0
    ensures r.Ok? ==> r.value == p
    ensures |p.table| == 0 ==> r == Err(EmptyTableMessage)
    ensures |p.table| > 0 && |p.column| == 0 ==> r == Err(EmptyColumnMessage)
  {
    if |p.table| == 0 then Err(EmptyTableMessage)
    else if |p.column| == 0 then Err(EmptyColumnMessage)
    else Ok(p)
  }

  const EmptyClassMessage: string := "\"classDependency\" element has empty \"class\" attribute."

  function MissingClassMessage(className: string): string {
    "\"classDependency\" can not find class " + className + " in classpath"
  }

  /** Resolves a `<classdependency>` by name against the loadable classes. */
  function GetClassDependency(className: string, classes: Classes.ClassPath): (r: Result<string>)
    ensures r.Ok? <==> |className| > 0 && className in classes
    ensures r.Ok? ==> r.value == className
    ensures |className| == 0 ==> r == Err(EmptyClassMessage)
    ensures |className| > 0 && className !in classes ==> r == Err(MissingClassMessage(className))
  {
    if |className| == 0 then Err(EmptyClassMessage)
    else if className !in classes then Err(MissingClassMessage(className))
    else Ok(className)
  }
}
