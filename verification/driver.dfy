/** The compile driver: the phases of a compile in the order the compiler runs
    them, on one compiler instance whose feedback, current file name and packing
    state carry from phase to phase. A phase either continues, stops the compile
    (a checked compiler exception: the catalog is not built) or crashes it (an
    unchecked exception escapes the compile). */
module Driver {
  import opened Wrappers
  import Strings
  import opened Diagnostics
  import opened Catalog
  import Classes
  import Project
  import Partitions
  import Export
  import Sysprocs
  import Packager
  import Artifacts

  /** The `<database>` element as the schema-validated project file gives it;
      absent optional lists are empty. */
  datatype DatabaseConfig = DatabaseConfig(
    name: string,
    snapshot: Option<Project.SnapshotConfig>,
    schemas: seq<string>,
    groups: seq<Project.GroupConfig>,
    procedures: seq<Project.ProcedureConfig>,
    classDependencies: seq<string>,
    partitions: seq<Project.PartitionConfig>,
    exportConfig: Option<Export.ConnectorConfig>)

  /** The root `<project>` element: the optional security flag and database. */
  datatype ProjectConfig = ProjectConfig(security: Option<bool>, database: Option<DatabaseConfig>)

  /** What reading and validating the project file gives: the project, a missing
      file, a schema violation, or another parser failure (which is rethrown
      unchecked). */
  datatype ParseOutcome =
    | Parsed(project: ProjectConfig)
    | MissingFile(message: string)
    | SchemaInvalid(message: string)
    | ParserFailure

  /** What the compiler learns from outside itself: the loadable classes, the text
      of schema files that live inside jars (by locator), the outcome of the DDL
      compiler, the procedure compiler, and whether writing the jar succeeds. */
  datatype Env = Env(
    classes: Classes.ClassPath,
    jarSchemas: map<string, string>,
    ddl: Result<seq<Table>>,
    procedureCompiler: Project.ProcedureDescriptor -> Result<Procedure>,
    writeSucceeds: bool)

  /** The state of a compiler instance: its feedback, the file name feedback is
      tagged with, and the packing state (class cache and class entries). */
  datatype Instance = Instance(log: Log, currentFile: Option<string>, packing: Packager.Packing)

  /** The outcome of a phase. `Stop` is a checked compiler exception, `Crash` an
      unchecked one. */
  datatype Step<T> = Next(value: T, inst: Instance) | Stop(inst: Instance) | Crash(inst: Instance)

  /** `after` is `inst` with one error appended, tagged with the current file. */
  predicate RaisedError(inst: Instance, after: Instance, msg: string) {
    && after.currentFile == inst.currentFile
    && after.packing == inst.packing
    && after.log.infos == inst.log.infos
    && after.log.warnings == inst.log.warnings
    && after.log.errors == inst.log.errors + [Feedback(Error, msg, inst.currentFile, NoLineNumber)]
  }

  /** Throwing a compiler exception with a message: the message is recorded as an
      error, then the compile stops. */
  function Raise<T>(inst: Instance, msg: string): (r: Step<T>)
    ensures r.Stop? && RaisedError(inst, r.inst, msg)
    ensures Extends(inst.log, r.inst.log) && HasErrors(r.inst.log)
  {
    Stop(inst.(log := AddErr(inst.log, inst.currentFile, msg, NoLineNumber)))
  }

  /** The checked parts of the project file, gathered before any schema is read. */
  datatype Plan = Plan(
    db: Database,
    schemas: seq<string>,
    descriptors: seq<Project.ProcedureDescriptor>,
    dependencies: seq<string>,
    partitions: seq<Project.PartitionConfig>)

  function NoProceduresMessage(name: string): string {
    "Database \"" + name + "\" needs at least one \"procedure\" element (currently has 0)"
  }

  function CompileSnapshotElement(s: Option<Project.SnapshotConfig>): (r: Result<Option<SnapshotSchedule>>)
    ensures r.Ok? <==> s.None? || Project.ValidSnapshot(s.value)
    ensures r.Ok? ==> (r.value.None? <==> s.None?)
    ensures r.Ok? && s.Some? ==> Project.CompileSnapshot(s.value) == Ok(r.value.value)
  {
    match s
    case None => Ok(None)
    case Some(cfg) =>
      match Project.CompileSnapshot(cfg)
      case Err(e) => Err(e)
      case Ok(schedule) => Ok(Some(schedule))
  }

  /** The database is named `database` and its snapshot element is well formed. */
  predicate HeaderValid(cfg: DatabaseConfig) {
    && cfg.name == Project.DatabaseName
    && (cfg.snapshot.None? || Project.ValidSnapshot(cfg.snapshot.value))
  }

  /** The checks made before any element is compiled: the database name, then the
      snapshot schedule; then the database is created with its groups. */
  function CheckHeader(inst: Instance, cfg: DatabaseConfig): (r: Step<Database>)
    ensures !r.Crash?
    ensures r.Next? <==> HeaderValid(cfg)
    ensures r.Next? ==> r.inst == inst
    ensures r.Stop? ==> exists msg :: RaisedError(inst, r.inst, msg)
    ensures cfg.name != Project.DatabaseName ==> r == Raise(inst, Project.DatabaseNameMessage(cfg.name))
    ensures r.Next? ==>
      var db := r.value;
      && db.name == Project.DatabaseName
      && db.tables == [] && db.procedures == [] && db.connector.None?
      && db.groups == Project.RegisterGroups(NewDatabase(cfg.name), cfg.groups).groups
      && (db.snapshot.None? <==> cfg.snapshot.None?)
      && (cfg.snapshot.Some? ==> Project.CompileSnapshot(cfg.snapshot.value) == Ok(db.snapshot.value))
  {
    match Project.CheckDatabaseName(cfg.name)
    case Err(e) => Raise(inst, e)
    case Ok(name) =>
      match CompileSnapshotElement(cfg.snapshot)
      case Err(e) => Raise(inst, e)
      case Ok(schedule) => Next(Project.RegisterGroups(NewDatabase(name), cfg.groups).(snapshot := schedule), inst)
  }

  /** Every procedure, class dependency and partition element is well formed. */
  predicate ElementsValid(cfg: DatabaseConfig, classes: Classes.ClassPath) {
    && (forall i :: 0 <= i < |cfg.procedures| ==> Project.GetProcedure(cfg.procedures[i]).Ok?)
    && (forall i :: 0 <= i < |cfg.classDependencies| ==> Project.GetClassDependency(cfg.classDependencies[i], classes).Ok?)
    && (forall i :: 0 <= i < |cfg.partitions| ==> Project.GetPartition(cfg.partitions[i]).Ok?)
  }

  /** The checks on the elements, in the compiler's order: each procedure, class
      dependency and partition element, and finally that there is at least one
      procedure. */
  function CheckElements(inst: Instance, db: Database, cfg: DatabaseConfig, classes: Classes.ClassPath): (r: Step<Plan>)
    ensures !r.Crash?
    ensures r.Next? <==> ElementsValid(cfg, classes) && |cfg.procedures| > 0
    ensures r.Next? ==> r.inst == inst
    ensures r.Stop? ==> exists msg :: RaisedError(inst, r.inst, msg)
    ensures ElementsValid(cfg, classes) && |cfg.procedures| == 0 ==> r == Raise(inst, NoProceduresMessage(cfg.name))
    ensures r.Next? ==>
      var plan := r.value;
      && plan.db == db
      && plan.schemas == cfg.schemas
      && |plan.descriptors| == |cfg.procedures|
      && (forall i :: 0 <= i < |cfg.procedures| ==> Project.GetProcedure(cfg.procedures[i]) == Ok(plan.descriptors[i]))
      && plan.dependencies == cfg.classDependencies
      && (forall i :: 0 <= i < |cfg.classDependencies| ==> cfg.classDependencies[i] in classes)
      && plan.partitions == cfg.partitions
  {
    match MapAll(cfg.procedures, Project.GetProcedure)
    case Err(e) => Raise(inst, e)
    case Ok(descriptors) =>
      match MapAll(cfg.classDependencies, d => Project.GetClassDependency(d, classes))
      case Err(e) => Raise(inst, e)
      case Ok(dependencies) =>
        match MapAll(cfg.partitions, Project.GetPartition)
        case Err(e) => Raise(inst, e)
        case Ok(partitions) =>
          if |descriptors| == 0 then Raise(inst, NoProceduresMessage(cfg.name))
          else
            assert dependencies == cfg.classDependencies;
            assert partitions == cfg.partitions;
            Next(Plan(db, cfg.schemas, descriptors, dependencies, partitions), inst)
  }

  /** A schema path naming an entry of a jar (`outer.jar!entry`). */
  predicate InJar(path: string) {
    Strings.Contains(path, ".jar!")
  }

  /** The schema file can be read: a plain path always (its reading belongs to the
      DDL compiler), a jar entry when the jar holds it. */
  predicate Readable(path: string, jarSchemas: map<string, string>) {
    !InJar(path) || path in jarSchemas
  }

  function SchemaReadMessage(path: string): string {
    "Unable to read schema file " + path
  }

  /** Reading the schema files in order, as written: a jar entry that cannot be
      read stops the compile through the compiler exception that wraps another
      exception, which records nothing. */
  function LoadSchemasAsWritten(inst: Instance, schemas: seq<string>, jarSchemas: map<string, string>): (r: Step<()>)
    ensures !r.Crash? && r.inst == inst
    ensures r.Next? <==> forall i :: 0 <= i < |schemas| ==> Readable(schemas[i], jarSchemas)
  {
    if |schemas| == 0 then Next((), inst)
    else if !Readable(schemas[0], jarSchemas) then Stop(inst)
    else
      var r := LoadSchemasAsWritten(inst, schemas[1..], jarSchemas);
      assert forall i :: 1 <= i < |schemas| ==> schemas[i] == schemas[1..][i - 1];
      r
  }

  /** A compile stopped by an unreadable jar schema records no error: the feedback
      is exactly what it was before the phase. */
  lemma SilentSchemaAbort(inst: Instance, path: string, jarSchemas: map<string, string>)
    requires InJar(path) && path !in jarSchemas
    ensures LoadSchemasAsWritten(inst, [path], jarSchemas) == Stop(inst)
    ensures !HasErrors(inst.log) ==> !HasErrors(LoadSchemasAsWritten(inst, [path], jarSchemas).inst.log)
  {
  }

  /** Reading the schema files in order, with the unreadable jar entry recorded as
      an error like every other stopping failure. */
  function LoadSchemas(inst: Instance, schemas: seq<string>, jarSchemas: map<string, string>): (r: Step<()>)
    ensures !r.Crash?
    ensures r.Next? <==> forall i :: 0 <= i < |schemas| ==> Readable(schemas[i], jarSchemas)
    ensures r.Next? ==> r.inst == inst
    ensures r.Stop? ==>
      exists i :: 0 <= i < |schemas| && !Readable(schemas[i], jarSchemas) && RaisedError(inst, r.inst, SchemaReadMessage(schemas[i]))
  {
    if |schemas| == 0 then Next((), inst)
    else if !Readable(schemas[0], jarSchemas) then Raise(inst, SchemaReadMessage(schemas[0]))
    else
      var r := LoadSchemas(inst, schemas[1..], jarSchemas);
      assert forall i :: 1 <= i < |schemas| ==> schemas[i] == schemas[1..][i - 1];
      r
  }

  /** Reading the schema files, as written or with the unreadable jar entry
      recorded. */
  function ReadSchemas(asWritten: bool, inst: Instance, schemas: seq<string>, jarSchemas: map<string, string>): (r: Step<()>)
    ensures !r.Crash?
    ensures r.Next? <==> forall i :: 0 <= i < |schemas| ==> Readable(schemas[i], jarSchemas)
    ensures r.Next? ==> r.inst == inst
    ensures r.Stop? && asWritten ==> r.inst == inst
    ensures r.Stop? && !asWritten ==> exists msg :: RaisedError(inst, r.inst, msg)
  {
    if asWritten then LoadSchemasAsWritten(inst, schemas, jarSchemas) else LoadSchemas(inst, schemas, jarSchemas)
  }

  /** A phase stopped without recording anything: the schema loader as written
      on an unreadable jar entry. */
  predicate StoppedSilently<T>(asWritten: bool, inst: Instance, r: Step<T>) {
    asWritten && r.Stop? && r.inst == inst
  }

  /** Everything after the project checks that builds the schema: the DDL, the
      partitioning, the system procedures and the export connector. */
  predicate TablesBuild(plan: Plan, env: Env) {
    && (forall i :: 0 <= i < |plan.schemas| ==> Readable(plan.schemas[i], env.jarSchemas))
    && env.ddl.Ok?
    && (forall k :: 0 <= k < |plan.partitions| ==> Partitions.Resolvable(env.ddl.value, plan.partitions[k]))
  }

  /** The schema, the partitioning and every system procedure class load. */
  predicate SchemaBuilds(plan: Plan, env: Env) {
    && TablesBuild(plan, env)
    && (forall i :: 0 <= i < |Sysprocs.SysprocTable| ==> Sysprocs.Loadable(env.classes, Sysprocs.SysprocTable[i]))
  }

  /** Reads the schemas, takes the DDL compiler's tables and applies the partition
      elements to them. */
  function SchemaTables(asWritten: bool, inst: Instance, cfg: DatabaseConfig, plan: Plan, env: Env): (r: Step<seq<Table>>)
    ensures !r.Crash?
    ensures r.Next? <==> TablesBuild(plan, env)
    ensures r.Next? ==> r.inst == inst && Partitions.ApplyPartitions(cfg.name, env.ddl.value, plan.partitions) == Ok(r.value)
    ensures r.Stop? ==> (exists msg :: RaisedError(inst, r.inst, msg)) || StoppedSilently(asWritten, inst, r)
    ensures StoppedSilently(asWritten, inst, r) ==>
      exists i :: 0 <= i < |plan.schemas| && !Readable(plan.schemas[i], env.jarSchemas)
  {
    match ReadSchemas(asWritten, inst, plan.schemas, env.jarSchemas)
    case Stop(i) => Stop(i)
    case Crash(i) => Crash(i)
    case Next(_, _) =>
      match env.ddl
      case Err(e) => Raise(inst, e)
      case Ok(tables) =>
        Partitions.ApplyPartitionsOk(cfg.name, tables, plan.partitions);
        match Partitions.ApplyPartitions(cfg.name, tables, plan.partitions)
        case Err(e) => Raise(inst, e)
        case Ok(partitioned) => Next(partitioned, inst)
  }

  /** Builds the tables, adds the system procedures (whose failure is not caught:
      the compile crashes with the error recorded) and compiles the export
      connector. */
  function BuildSchema(asWritten: bool, inst: Instance, cfg: DatabaseConfig, plan: Plan, env: Env): (r: Step<Database>)
    ensures r.Next? ==> r.inst == inst
    ensures r.Next? ==> SchemaBuilds(plan, env)
    ensures r.Next? ==>
      var db := r.value;
      && db.name == plan.db.name && db.groups == plan.db.groups && db.snapshot == plan.db.snapshot
      && Partitions.ApplyPartitions(cfg.name, env.ddl.value, plan.partitions) == Ok(db.tables)
      && Sysprocs.AddSystemProcs(plan.db.(tables := db.tables), env.classes) == Ok(db.(connector := plan.db.connector))
      && Export.CompileConnector(db.(connector := plan.db.connector), cfg.exportConfig) == Ok(db)
    ensures r.Crash? <==>
      (TablesBuild(plan, env) && exists i :: 0 <= i < |Sysprocs.SysprocTable| && !Sysprocs.Loadable(env.classes, Sysprocs.SysprocTable[i]))
    ensures r.Crash? ==> exists msg :: RaisedError(inst, r.inst, msg)
    ensures r.Stop? ==> (exists msg :: RaisedError(inst, r.inst, msg)) || StoppedSilently(asWritten, inst, r)
  {
    match SchemaTables(asWritten, inst, cfg, plan, env)
    case Stop(i) => Stop(i)
    case Crash(i) => Crash(i)
    case Next(tables, _) => CompleteSchema(inst, cfg, plan, tables, env)
  }

  /** The database over the built tables: the system procedures added, then the
      export connector compiled. */
  function CompleteSchema(inst: Instance, cfg: DatabaseConfig, plan: Plan, tables: seq<Table>, env: Env): (r: Step<Database>)
    ensures r.Next? ==> r.inst == inst
    ensures r.Next? ==>
      var db := r.value;
      && db.name == plan.db.name && db.groups == plan.db.groups && db.snapshot == plan.db.snapshot
      && db.tables == tables
      && Sysprocs.AddSystemProcs(plan.db.(tables := tables), env.classes) == Ok(db.(connector := plan.db.connector))
      && Export.CompileConnector(db.(connector := plan.db.connector), cfg.exportConfig) == Ok(db)
    ensures r.Crash? <==>
      exists i :: 0 <= i < |Sysprocs.SysprocTable| && !Sysprocs.Loadable(env.classes, Sysprocs.SysprocTable[i])
    ensures r.Crash? ==> exists msg :: RaisedError(inst, r.inst, msg)
    ensures r.Stop? ==> exists msg :: RaisedError(inst, r.inst, msg)
  {
    match Sysprocs.AddSystemProcs(plan.db.(tables := tables), env.classes)
    case Err(e) => Crash(Raise<Database>(inst, e).inst)
    case Ok(db) =>
      match Export.CompileConnector(db, cfg.exportConfig)
      case Err(e) => Raise(inst, e)
      case Ok(withConnector) =>
        assert withConnector.(connector := plan.db.connector) == db;
        Next(withConnector, inst)
  }

  /** The position of the first descriptor the procedure compiler rejects. */
  function FirstRejected(descriptors: seq<Project.ProcedureDescriptor>,
                         compiler: Project.ProcedureDescriptor -> Result<Procedure>): (i: nat)
    requires exists k :: 0 <= k < |descriptors| && compiler(descriptors[k]).Err?
    ensures i < |descriptors| && compiler(descriptors[i]).Err?
    ensures forall j :: 0 <= j < i ==> compiler(descriptors[j]).Ok?
  {
    if compiler(descriptors[0]).Err? then 0
    else
      var k :| 0 <= k < |descriptors| && compiler(descriptors[k]).Err?;
      assert descriptors[1..][k - 1] == descriptors[k];
      var i := FirstRejected(descriptors[1..], compiler);
      assert forall j :: 1 <= j <= i ==> descriptors[j] == descriptors[1..][j - 1];
      i + 1
  }

  /** Compiles the procedures in order, each appended to the database. Feedback
      raised while compiling one is tagged with its class's file name, which stays
      the current file after the loop; the first failure stops the compile. */
  function CompileProcedures(inst: Instance, db: Database, descriptors: seq<Project.ProcedureDescriptor>,
                             compiler: Project.ProcedureDescriptor -> Result<Procedure>): (r: Step<Database>)
    ensures !r.Crash?
    ensures r.Next? <==> forall i :: 0 <= i < |descriptors| ==> compiler(descriptors[i]).Ok?
    ensures r.Next? ==>
      && r.value == db.(procedures := r.value.procedures)
      && |r.value.procedures| == |db.procedures| + |descriptors|
      && r.value.procedures[..|db.procedures|] == db.procedures
      && (forall i :: 0 <= i < |descriptors| ==> compiler(descriptors[i]) == Ok(r.value.procedures[|db.procedures| + i]))
      && r.inst.log == inst.log && r.inst.packing == inst.packing
    ensures r.Stop? ==>
      var i := FirstRejected(descriptors, compiler);
      RaisedError(inst.(currentFile := Some(Classes.ClassFileName(descriptors[i].className))), r.inst, compiler(descriptors[i]).error)
  {
    match MapAll(descriptors, compiler)
    case Err(_) =>
      var i := FirstRejected(descriptors, compiler);
      Raise(inst.(currentFile := Some(Classes.ClassFileName(descriptors[i].className))), compiler(descriptors[i]).error)
    case Ok(procs) =>
      var all := db.procedures + procs;
      assert forall i :: 0 <= i < |descriptors| ==> all[|db.procedures| + i] == procs[i];
      var file := if |descriptors| == 0 then inst.currentFile
                  else Some(Classes.ClassFileName(descriptors[|descriptors| - 1].className));
      Next(db.(procedures := all), inst.(currentFile := file))
  }

  /** Packs every class dependency, with the classes nested in it, into the jar. */
  function PackageDependencies(inst: Instance, dependencies: seq<string>, classes: Classes.ClassPath): (r: Step<()>)
    ensures !r.Crash?
    ensures r.Next? <==> Packager.AddClasses(classes, dependencies, inst.packing).Ok?
    ensures r.Next? ==> r.inst == inst.(packing := Packager.AddClasses(classes, dependencies, inst.packing).value)
    ensures r.Stop? ==> RaisedError(inst, r.inst, Packager.AddClasses(classes, dependencies, inst.packing).error)
  {
    match Packager.AddClasses(classes, dependencies, inst.packing)
    case Err(e) => Raise(inst, e)
    case Ok(packing) => Next((), inst.(packing := packing))
  }

  /** The phases after the checks: the schema, the procedures, then the class
      dependencies. */
  function BuildDatabase(asWritten: bool, inst: Instance, cfg: DatabaseConfig, plan: Plan, env: Env): (r: Step<Database>)
    ensures r.Stop? ==> HasErrors(r.inst.log) || StoppedSilently(asWritten, inst, r)
    ensures r.Crash? ==> HasErrors(r.inst.log)
    ensures r.Next? ==> r.inst.log == inst.log
  {
    match BuildSchema(asWritten, inst, cfg, plan, env)
    case Stop(i) => Stop(i)
    case Crash(i) => Crash(i)
    case Next(db, _) =>
      match CompileProcedures(inst, db, plan.descriptors, env.procedureCompiler)
      case Stop(i) => Stop(i)
      case Crash(i) => Crash(i)
      case Next(db', inst') =>
        match PackageDependencies(inst', plan.dependencies, env.classes)
        case Stop(i) => Stop(i)
        case Crash(i) => Crash(i)
        case Next(_, inst'') => Next(db', inst'')
  }

  /** The phases of the database element in order: the checks, then the build. */
  function CompileDatabaseNode(asWritten: bool, inst: Instance, cfg: DatabaseConfig, env: Env): (r: Step<Database>)
    ensures r.Stop? ==> HasErrors(r.inst.log) || StoppedSilently(asWritten, inst, r)
    ensures r.Crash? ==> HasErrors(r.inst.log)
    ensures r.Next? ==> r.inst.log == inst.log
  {
    match CheckHeader(inst, cfg)
    case Stop(i) => Stop(i)
    case Crash(i) => Crash(i)
    case Next(db0, _) =>
      match CheckElements(inst, db0, cfg, env.classes)
      case Stop(i) => Stop(i)
      case Crash(i) => Crash(i)
      case Next(plan, _) => BuildDatabase(asWritten, inst, cfg, plan, env)
  }

  const SchemaValidationPrefix: string := "Error schema validating project.xml file. "

  /** Builds the catalog from an instance already prepared for a compile: parse
      failures become errors (or a crash), then the cluster node is made and the
      database element compiled; on success the current file is cleared. */
  function BuildCatalog(asWritten: bool, inst: Instance, parsed: ParseOutcome, env: Env): (r: Step<Catalog>)
    ensures r.Stop? ==> HasErrors(r.inst.log) || StoppedSilently(asWritten, inst, r)
    ensures r.Next? ==> r.inst.log == inst.log && r.inst.currentFile.None?
    ensures r.Crash? ==> parsed.ParserFailure? || HasErrors(r.inst.log)
  {
    match parsed
    case MissingFile(m) => Raise(inst, m)
    case SchemaInvalid(m) => Raise(inst, SchemaValidationPrefix + m)
    case ParserFailure => Crash(inst)
    case Parsed(project) =>
      var security := project.security.GetOr(false);
      match project.database
      case None => Next(Catalog(security, None), inst.(currentFile := None))
      case Some(cfg) =>
        match CompileDatabaseNode(asWritten, inst, cfg, env)
        case Stop(i) => Stop(i)
        case Crash(i) => Crash(i)
        case Next(db, i) => Next(Catalog(security, Some(db)), i.(currentFile := None))
  }

  /** The path without its trailing slashes, which `java.io.File` drops when it
      normalises a path. */
  function TrimTrailingSlashes(path: string): (r: string)
    ensures r <= path
    ensures |r| == 0 || r[|r| - 1] != '/'
    ensures forall k :: |r| <= k < |path| ==> path[k] == '/'
  {
    if |path| > 0 && path[|path| - 1] == '/' then TrimTrailingSlashes(path[..|path| - 1]) else path
  }

  /** `new File(path).getName()`: the last name of the normalised path, the text
      after its last slash. */
  function BaseName(path: string): (r: string)
    ensures '/' !in r
    ensures var p := TrimTrailingSlashes(path);
      && Strings.EndsWith(p, r)
      && (|r| < |p| ==> p[|p| - |r| - 1] == '/')
  {
    var p := TrimTrailingSlashes(path);
    var i := Strings.LastIndexOf(p, '/');
    assert p[|p| - |p[i + 1..]|..] == p[i + 1..];
    p[i + 1..]
  }

  /** A trailing slash does not change the name. */
  lemma BaseNameTrailingSlash(path: string)
    ensures BaseName(path + "/") == BaseName(path)
  {
    assert (path + "/")[..|path|] == path;
  }

  /** The name of a file in a directory is the file's own name. */
  lemma BaseNameOfChild(dir: string, name: string)
    requires |name| > 0 && '/' !in name
    ensures BaseName(dir + "/" + name) == name
  {
    var path := dir + "/" + name;
    assert path[|path| - 1] == name[|name| - 1];
    assert TrimTrailingSlashes(path) == path;
    assert path[|dir|] == '/';
    forall j | |dir| < j < |path| ensures path[j] != '/' {
      assert path[j] == name[j - |dir| - 1];
    }
    Strings.LastIndexOfUnique(path, '/', |dir|);
    assert path[|dir| + 1..] == name;
  }

  /** The instance as a compile starts, as written: the class cache is cleared and
      the jar output renewed, feedback tags carry the project file's name, and
      the feedback of earlier compiles is kept. */
  function StartAsWritten(inst: Instance, projectFile: string): (r: Instance)
    ensures r.log == inst.log && r.packing == Packager.Fresh && r.currentFile == Some(BaseName(projectFile))
  {
    inst.(currentFile := Some(BaseName(projectFile)), packing := Packager.Fresh)
  }

  /** The instance as a compile starts, with the feedback cleared along with the
      class cache. */
  function Start(inst: Instance, projectFile: string): (r: Instance)
    ensures r.log == EmptyLog && r.packing == Packager.Fresh && r.currentFile == Some(BaseName(projectFile))
  {
    Instance(EmptyLog, Some(BaseName(projectFile)), Packager.Fresh)
  }

  /** Builds the catalog as written: the feedback of earlier compiles is kept, and
      an unreadable jar schema stops the compile without recording an error. */
  function CompileCatalogAsWritten(inst: Instance, projectFile: string, parsed: ParseOutcome, env: Env): (r: Step<Catalog>)
    ensures r.Next? ==> r.inst.log == inst.log
    ensures r.Stop? ==> HasErrors(r.inst.log) || r.inst == StartAsWritten(inst, projectFile)
  {
    BuildCatalog(true, StartAsWritten(inst, projectFile), parsed, env)
  }

  function CompileCatalog(inst: Instance, projectFile: string, parsed: ParseOutcome, env: Env): (r: Step<Catalog>)
    ensures r.Next? ==> r.inst.log == EmptyLog
    ensures r.Stop? ==> HasErrors(r.inst.log)
  {
    BuildCatalog(false, Start(inst, projectFile), parsed, env)
  }

  /** What the jar holds besides class files. */
  datatype Member = ClassFile(bytes: seq<Classes.byte>) | BuildInfo | CatalogText | ProjectFile | PlanFile(text: string)

  const PlanDirectory: string := "plans/"

  /** The class entries, later ones replacing earlier ones of the same path. */
  function ClassMembers(jar: seq<Packager.JarEntry>): map<string, Member> {
    if |jar| == 0 then map[]
    else
      var e := jar[|jar| - 1];
      ClassMembers(jar[..|jar| - 1])[e.path := ClassFile(e.bytes)]
  }

  /** `plans/` before each explain-plan file name. */
  function PlanMembers(plans: map<string, string>): (r: map<string, Member>)
    ensures forall k :: k in plans ==> PlanDirectory + k in r && r[PlanDirectory + k] == PlanFile(plans[k])
    ensures forall p :: p in r ==> Strings.StartsWith(p, PlanDirectory)
  {
    PlanPathInjective();
    PlanPathPrefix();
    map k | k in plans :: PlanDirectory + k := PlanFile(plans[k])
  }

  lemma PlanPathPrefix()
    ensures forall k: string :: Strings.StartsWith(PlanDirectory + k, PlanDirectory)
  {
    forall k: string ensures Strings.StartsWith(PlanDirectory + k, PlanDirectory) {
      assert (PlanDirectory + k)[..|PlanDirectory|] == PlanDirectory;
    }
  }

  lemma PlanPathInjective()
    ensures forall a: string, b: string :: PlanDirectory + a == PlanDirectory + b ==> a == b
  {
    forall a: string, b: string | PlanDirectory + a == PlanDirectory + b ensures a == b {
      assert a == (PlanDirectory + a)[|PlanDirectory|..];
      assert b == (PlanDirectory + b)[|PlanDirectory|..];
    }
  }

  /** The jar: the class entries written while compiling, then build info, the
      catalog, the project file and the explain plans. */
  function Archive(jar: seq<Packager.JarEntry>, plans: map<string, string>): (r: map<string, Member>)
    ensures "buildinfo.txt" in r && "catalog.txt" in r && "project.xml" in r
    ensures forall k :: k in plans ==> PlanDirectory + k in r && r[PlanDirectory + k] == PlanFile(plans[k])
    ensures forall p :: p in r ==>
      p in ClassMembers(jar) || p == "buildinfo.txt" || p == "catalog.txt" || p == "project.xml" || Strings.StartsWith(p, PlanDirectory)
  {
    ClassMembers(jar)["buildinfo.txt" := BuildInfo]["catalog.txt" := CatalogText]["project.xml" := ProjectFile] + PlanMembers(plans)
  }

  datatype CompileResult = Succeeded(inst: Instance, archive: map<string, Member>) | Failed(inst: Instance) | Crashed(inst: Instance)

  /** The steps of a compile after the catalog: a stopped catalog is a failed
      compile; a catalog without a database crashes on the explain plans; otherwise
      the jar is assembled and written, and the compile succeeds when the write
      did and no error was recorded. */
  function Finish(outcome: Step<Catalog>, env: Env): (r: CompileResult)
    ensures r.inst == outcome.inst
    ensures r.Succeeded? <==> outcome.Next? && outcome.value.database.Some? && env.writeSucceeds && !HasErrors(outcome.inst.log)
  {
    match outcome
    case Stop(i) => Failed(i)
    case Crash(i) => Crashed(i)
    case Next(catalog, i) =>
      match catalog.database
      case None => Crashed(i)
      case Some(db) =>
        var archive := Archive(i.packing.jar, Artifacts.ExplainPlans(db.procedures));
        if !env.writeSucceeds then Failed(i)
        else if HasErrors(i.log) then Failed(i)
        else Succeeded(i, archive)
  }

  /** A compile as written: the feedback of earlier compiles on the instance is
      still there when success is decided. */
  function CompileAsWritten(inst: Instance, projectFile: string, parsed: ParseOutcome, env: Env): (r: CompileResult)
    ensures var c := CompileCatalogAsWritten(inst, projectFile, parsed, env);
      r.Succeeded? <==> c.Next? && c.value.database.Some? && env.writeSucceeds && !HasErrors(inst.log)
    ensures r.Succeeded? ==> r.inst.log == inst.log
    ensures r.Failed? ==> HasErrors(r.inst.log) || !env.writeSucceeds || r.inst == StartAsWritten(inst, projectFile)
  {
    Finish(CompileCatalogAsWritten(inst, projectFile, parsed, env), env)
  }

  /** A compile judged on its own feedback only. */
  function Compile(inst: Instance, projectFile: string, parsed: ParseOutcome, env: Env): (r: CompileResult)
    ensures var c := CompileCatalog(inst, projectFile, parsed, env);
      r.Succeeded? <==> c.Next? && c.value.database.Some? && env.writeSucceeds
    ensures r.Failed? ==> HasErrors(r.inst.log) || !env.writeSucceeds
  {
    Finish(CompileCatalog(inst, projectFile, parsed, env), env)
  }

  /** The last character of a path ending in `.class` tells it apart from the
      `.txt` and `.xml` members. */
  lemma ClassPathLastChar(path: string)
    requires Strings.EndsWith(path, Classes.ClassSuffix)
    ensures |path| > 0 && path[|path| - 1] == 's'
  {
    assert path[|path| - |Classes.ClassSuffix|..][|Classes.ClassSuffix| - 1] == 's';
  }

  /** Every explain-plan file name ends in `.txt`. */
  lemma PlanKeyLastChar(procs: seq<Procedure>, name: string)
    requires name in Artifacts.ExplainPlans(procs)
    ensures |name| > 0 && name[|name| - 1] == 't'
  {
    var k := Artifacts.PutAllKeySource(Artifacts.PlanSources(procs), name);
  }

  /** The class entries, later ones replacing earlier ones of the same path. */
  lemma {:induction false} ClassMembersLastWins(jar: seq<Packager.JarEntry>, k: int)
    requires 0 <= k < |jar|
    requires forall m :: k < m < |jar| ==> jar[m].path != jar[k].path
    ensures jar[k].path in ClassMembers(jar) && ClassMembers(jar)[jar[k].path] == ClassFile(jar[k].bytes)
  {
    if k < |jar| - 1 {
      var front := jar[..|jar| - 1];
      assert front[k] == jar[k];
      forall m | k < m < |front| ensures front[m].path != front[k].path {
        assert front[m] == jar[m];
      }
      ClassMembersLastWins(front, k);
    }
  }

  /** In the jar written after a compile, each class entry holds its own bytes
      when no two entries share a path. */
  lemma ArchiveClassEntry(jar: seq<Packager.JarEntry>, procs: seq<Procedure>, k: int)
    requires 0 <= k < |jar| && Strings.EndsWith(jar[k].path, Classes.ClassSuffix)
    requires forall a, b :: 0 <= a < b < |jar| ==> jar[a].path != jar[b].path
    ensures var archive := Archive(jar, Artifacts.ExplainPlans(procs));
      jar[k].path in archive && archive[jar[k].path] == ClassFile(jar[k].bytes)
  {
    var path := jar[k].path;
    ClassMembersLastWins(jar, k);
    ClassPathLastChar(path);
    ClassPathNotPlan(procs, path);
    var fixed := ClassMembers(jar)["buildinfo.txt" := BuildInfo]["catalog.txt" := CatalogText]["project.xml" := ProjectFile];
    assert path in fixed && fixed[path] == ClassFile(jar[k].bytes);
    assert Archive(jar, Artifacts.ExplainPlans(procs)) == fixed + PlanMembers(Artifacts.ExplainPlans(procs));
  }

  lemma ClassPathNotPlan(procs: seq<Procedure>, path: string)
    requires |path| > 0 && path[|path| - 1] == 's'
    ensures path !in PlanMembers(Artifacts.ExplainPlans(procs))
  {
    var plans := Artifacts.ExplainPlans(procs);
    forall name | name in plans ensures PlanDirectory + name != path {
      PlanKeyLastChar(procs, name);
      assert (PlanDirectory + name)[|PlanDirectory + name| - 1] == name[|name| - 1];
    }
  }

  /** Every explain-plan file is in the jar under `plans/`. */
  lemma ArchivePlanEntry(jar: seq<Packager.JarEntry>, procs: seq<Procedure>, name: string)
    requires name in Artifacts.ExplainPlans(procs)
    ensures var archive := Archive(jar, Artifacts.ExplainPlans(procs));
      PlanDirectory + name in archive && archive[PlanDirectory + name] == PlanFile(Artifacts.ExplainPlans(procs)[name])
  {
    PlanPathInjective();
  }

  /** The build information, the catalog and the project file are always in the jar. */
  lemma ArchiveFixedEntries(jar: seq<Packager.JarEntry>, plans: map<string, string>)
    ensures var archive := Archive(jar, plans);
      && archive["buildinfo.txt"] == BuildInfo
      && archive["catalog.txt"] == CatalogText
      && archive["project.xml"] == ProjectFile
  {
    assert "buildinfo.txt"[..|PlanDirectory|][0] != PlanDirectory[0];
    assert "project.xml"[..|PlanDirectory|][1] != PlanDirectory[1];
    NotPlanPath(plans, "buildinfo.txt");
    NotPlanPath(plans, "catalog.txt");
    NotPlanPath(plans, "project.xml");
  }

  /** A path that does not start with `plans/` is not an explain-plan member. */
  lemma NotPlanPath(plans: map<string, string>, path: string)
    requires !Strings.StartsWith(path, PlanDirectory)
    ensures path !in PlanMembers(plans)
  {
    forall k | k in plans ensures PlanDirectory + k != path {
      assert (PlanDirectory + k)[..|PlanDirectory|] == PlanDirectory;
    }
  }

  /** The checks of a database element that compiled, with what they produced. */
  lemma DatabaseNodeSteps(asWritten: bool, inst: Instance, cfg: DatabaseConfig, env: Env) returns (db0: Database, plan: Plan)
    requires CompileDatabaseNode(asWritten, inst, cfg, env).Next?
    ensures CheckHeader(inst, cfg) == Next(db0, inst)
    ensures CheckElements(inst, db0, cfg, env.classes) == Next(plan, inst)
    ensures BuildDatabase(asWritten, inst, cfg, plan, env) == CompileDatabaseNode(asWritten, inst, cfg, env)
  {
    db0 := CheckHeader(inst, cfg).value;
    plan := CheckElements(inst, db0, cfg, env.classes).value;
  }

  /** The phases of a build that completed, with what each produced. */
  lemma BuildDatabaseSteps(asWritten: bool, inst: Instance, cfg: DatabaseConfig, plan: Plan, env: Env) returns (schemaDb: Database, afterProcs: Instance)
    requires BuildDatabase(asWritten, inst, cfg, plan, env).Next?
    ensures BuildSchema(asWritten, inst, cfg, plan, env) == Next(schemaDb, inst)
    ensures CompileProcedures(inst, schemaDb, plan.descriptors, env.procedureCompiler) ==
      Next(BuildDatabase(asWritten, inst, cfg, plan, env).value, afterProcs)
    ensures PackageDependencies(afterProcs, plan.dependencies, env.classes) == Next((), BuildDatabase(asWritten, inst, cfg, plan, env).inst)
  {
    schemaDb := BuildSchema(asWritten, inst, cfg, plan, env).value;
    afterProcs := CompileProcedures(inst, schemaDb, plan.descriptors, env.procedureCompiler).inst;
  }

  /** A completed build holds the fifteen system procedures followed by the user
      procedures, each compiled from its descriptor, and the schema's tables with
      the partition elements applied. */
  lemma BuiltDatabase(asWritten: bool, inst: Instance, cfg: DatabaseConfig, plan: Plan, env: Env)
    requires plan.db.procedures == []
    requires BuildDatabase(asWritten, inst, cfg, plan, env).Next?
    ensures var db := BuildDatabase(asWritten, inst, cfg, plan, env).value;
      && db.name == plan.db.name
      && |db.procedures| == 15 + |plan.descriptors|
      && (forall i :: 0 <= i < 15 ==> db.procedures[i].name == "@" + Sysprocs.SysprocTable[i].simpleName && db.procedures[i].systemproc)
      && (forall i :: 0 <= i < |plan.descriptors| ==> env.procedureCompiler(plan.descriptors[i]) == Ok(db.procedures[15 + i]))
      && env.ddl.Ok?
      && Partitions.ApplyPartitions(cfg.name, env.ddl.value, plan.partitions) == Ok(db.tables)
  {
    var schemaDb, afterProcs := BuildDatabaseSteps(asWritten, inst, cfg, plan, env);
    var db := BuildDatabase(asWritten, inst, cfg, plan, env).value;
    assert |schemaDb.procedures| == 15;
    assert db.procedures[..15] == schemaDb.procedures;
    forall i | 0 <= i < 15 ensures db.procedures[i] == schemaDb.procedures[i] {
      assert db.procedures[..15][i] == db.procedures[i];
    }
  }

  function ProjectWith(security: Option<bool>, cfg: DatabaseConfig): ParseOutcome {
    Parsed(ProjectConfig(security, Some(cfg)))
  }

  /** A catalog that compiles holds the database named `database`, with the
      fifteen system procedures and one procedure per procedure element, and the
      schema's tables with the partition elements applied; the compile recorded no
      feedback and the current file is cleared. */
  lemma BuiltCatalog(inst: Instance, projectFile: string, security: Option<bool>, cfg: DatabaseConfig, env: Env)
    requires CompileCatalog(inst, projectFile, ProjectWith(security, cfg), env).Next?
    ensures var r := CompileCatalog(inst, projectFile, ProjectWith(security, cfg), env);
      && r.inst.log == EmptyLog && r.inst.currentFile.None?
      && r.value.securityEnabled == security.GetOr(false)
      && r.value.database.Some?
      && var db := r.value.database.value;
      && db.name == Project.DatabaseName
      && |cfg.procedures| > 0
      && |db.procedures| == 15 + |cfg.procedures|
      && env.ddl.Ok?
      && Partitions.ApplyPartitions(cfg.name, env.ddl.value, cfg.partitions) == Ok(db.tables)
  {
    var inst0 := Start(inst, projectFile);
    var db0, plan := DatabaseNodeSteps(false, inst0, cfg, env);
    BuiltDatabase(false, inst0, cfg, plan, env);
  }

  /** In a compiled catalog the fifteen system procedures come first. */
  lemma BuiltCatalogSystemProcedures(inst: Instance, projectFile: string, security: Option<bool>, cfg: DatabaseConfig, env: Env)
    requires CompileCatalog(inst, projectFile, ProjectWith(security, cfg), env).Next?
    ensures var r := CompileCatalog(inst, projectFile, ProjectWith(security, cfg), env);
      && r.value.database.Some?
      && var db := r.value.database.value;
      && |db.procedures| >= 15
      && (forall i :: 0 <= i < 15 ==> db.procedures[i].name == "@" + Sysprocs.SysprocTable[i].simpleName && db.procedures[i].systemproc)
  {
    var inst0 := Start(inst, projectFile);
    var db0, plan := DatabaseNodeSteps(false, inst0, cfg, env);
    BuiltDatabase(false, inst0, cfg, plan, env);
  }

  /** A compiled catalog holds the database its element's checks and build made. */
  lemma CatalogSteps(inst: Instance, projectFile: string, security: Option<bool>, cfg: DatabaseConfig, env: Env)
    returns (plan: Plan, db: Database)
    requires CompileCatalog(inst, projectFile, ProjectWith(security, cfg), env).Next?
    ensures CompileCatalog(inst, projectFile, ProjectWith(security, cfg), env).value.database == Some(db)
    ensures BuildDatabase(false, Start(inst, projectFile), cfg, plan, env) == Next(db, BuildDatabase(false, Start(inst, projectFile), cfg, plan, env).inst)
    ensures plan.db.procedures == [] && |plan.descriptors| == |cfg.procedures|
    ensures forall i :: 0 <= i < |cfg.procedures| ==> Project.GetProcedure(cfg.procedures[i]) == Ok(plan.descriptors[i])
  {
    var inst0 := Start(inst, projectFile);
    var db0;
    db0, plan := DatabaseNodeSteps(false, inst0, cfg, env);
    db := BuildDatabase(false, inst0, cfg, plan, env).value;
  }

  /** In a compiled catalog each user procedure follows the system procedures, as
      the procedure compiler made it from its element. */
  lemma BuiltCatalogUserProcedures(inst: Instance, projectFile: string, security: Option<bool>, cfg: DatabaseConfig, env: Env)
    requires CompileCatalog(inst, projectFile, ProjectWith(security, cfg), env).Next?
    ensures var r := CompileCatalog(inst, projectFile, ProjectWith(security, cfg), env);
      && r.value.database.Some?
      && var db := r.value.database.value;
      && |db.procedures| == 15 + |cfg.procedures|
      && (forall i :: 0 <= i < |cfg.procedures| ==>
            && Project.GetProcedure(cfg.procedures[i]).Ok?
            && env.procedureCompiler(Project.GetProcedure(cfg.procedures[i]).value) == Ok(db.procedures[15 + i]))
  {
    var plan, db := CatalogSteps(inst, projectFile, security, cfg, env);
    BuiltDatabase(false, Start(inst, projectFile), cfg, plan, env);
    forall i | 0 <= i < |cfg.procedures|
      ensures env.procedureCompiler(Project.GetProcedure(cfg.procedures[i]).value) == Ok(db.procedures[15 + i])
    {
      assert Project.GetProcedure(cfg.procedures[i]).value == plan.descriptors[i];
    }
  }

  /** In a compiled catalog every partition element has made its table, and the
      views over it, not replicated. */
  lemma BuiltCatalogPartitions(inst: Instance, projectFile: string, security: Option<bool>, cfg: DatabaseConfig, env: Env, k: int)
    requires CompileCatalog(inst, projectFile, ProjectWith(security, cfg), env).Next?
    requires 0 <= k < |cfg.partitions|
    ensures var r := CompileCatalog(inst, projectFile, ProjectWith(security, cfg), env);
      && r.value.database.Some?
      && env.ddl.Ok?
      && |r.value.database.value.tables| == |env.ddl.value|
      && Partitions.Resolvable(env.ddl.value, cfg.partitions[k])
      && Partitions.Unreplicated(env.ddl.value, cfg.partitions[k], r.value.database.value.tables)
  {
    BuiltCatalog(inst, projectFile, security, cfg, env);
    var db := CompileCatalog(inst, projectFile, ProjectWith(security, cfg), env).value.database.value;
    Partitions.ApplyPartitionsUnreplicated(cfg.name, env.ddl.value, cfg.partitions, db.tables, cfg.partitions[k]);
  }

  /** A completed build leaves the class cache covering each class dependency, each
      cached class with its class file in the jar, and no path written twice. */
  lemma BuiltDatabasePacking(asWritten: bool, inst: Instance, cfg: DatabaseConfig, plan: Plan, env: Env)
    requires Packager.SlashFree(env.classes) && inst.packing == Packager.Fresh
    requires BuildDatabase(asWritten, inst, cfg, plan, env).Next?
    ensures var st := BuildDatabase(asWritten, inst, cfg, plan, env).inst.packing;
      && (forall i, j :: 0 <= i < j < |st.jar| ==> st.jar[i].path != st.jar[j].path)
      && (forall i :: 0 <= i < |plan.dependencies| ==> plan.dependencies[i] in st.cache)
      && (forall c :: c in st.cache ==> Packager.Done(env.classes, st, c))
  {
    var schemaDb, afterProcs := BuildDatabaseSteps(asWritten, inst, cfg, plan, env);
    Packager.AddClassesComplete(env.classes, plan.dependencies);
  }

  /** In a compiled catalog the class cache covers each class dependency, each
      cached class has its class file in the jar, and no path is written twice. */
  lemma BuiltCatalogPacking(inst: Instance, projectFile: string, security: Option<bool>, cfg: DatabaseConfig, env: Env)
    requires Packager.SlashFree(env.classes)
    requires CompileCatalog(inst, projectFile, ProjectWith(security, cfg), env).Next?
    ensures var st := CompileCatalog(inst, projectFile, ProjectWith(security, cfg), env).inst.packing;
      && (forall i, j :: 0 <= i < j < |st.jar| ==> st.jar[i].path != st.jar[j].path)
      && (forall i :: 0 <= i < |cfg.classDependencies| ==> cfg.classDependencies[i] in st.cache)
      && (forall c :: c in st.cache ==> Packager.Done(env.classes, st, c))
  {
    var inst0 := Start(inst, projectFile);
    var db0, plan := DatabaseNodeSteps(false, inst0, cfg, env);
    BuiltDatabasePacking(false, inst0, cfg, plan, env);
  }

  /** A database element not named `database` stops the compile with exactly one
      error, tagged with the project file's name. */
  lemma WrongDatabaseName(inst: Instance, projectFile: string, security: Option<bool>, cfg: DatabaseConfig, env: Env)
    requires cfg.name != Project.DatabaseName
    ensures var file := Some(BaseName(projectFile));
      CompileCatalog(inst, projectFile, ProjectWith(security, cfg), env) ==
        Stop(Instance(Log([], [], [Feedback(Error, Project.DatabaseNameMessage(cfg.name), file, NoLineNumber)]), file, Packager.Fresh))
  {
    var inst0 := Start(inst, projectFile);
    var stop := Raise<Database>(inst0, Project.DatabaseNameMessage(cfg.name));
    assert CheckHeader(inst0, cfg) == stop;
    assert CompileDatabaseNode(false, inst0, cfg, env) == stop;
    assert BuildCatalog(false, inst0, ProjectWith(security, cfg), env) == Stop(stop.inst);
  }

  /** A database element that is otherwise valid but declares no procedure stops the
      compile with exactly one error saying so. */
  lemma NoProcedures(inst: Instance, projectFile: string, security: Option<bool>, cfg: DatabaseConfig, env: Env)
    requires HeaderValid(cfg) && ElementsValid(cfg, env.classes) && |cfg.procedures| == 0
    ensures var file := Some(BaseName(projectFile));
      CompileCatalog(inst, projectFile, ProjectWith(security, cfg), env) ==
        Stop(Instance(Log([], [], [Feedback(Error, NoProceduresMessage(cfg.name), file, NoLineNumber)]), file, Packager.Fresh))
  {
    var inst0 := Start(inst, projectFile);
    var db0 := CheckHeader(inst0, cfg).value;
    assert CheckElements(inst0, db0, cfg, env.classes) == Raise(inst0, NoProceduresMessage(cfg.name));
    assert CompileDatabaseNode(false, inst0, cfg, env) == Raise(inst0, NoProceduresMessage(cfg.name));
  }

  /** After a compile that left an error on the instance, every later compile on
      the same instance fails as written, while the outcome of a compile judged on
      its own feedback does not depend on what ran before. */
  lemma StaleErrorsFailCompile(inst: Instance, file1: string, parsed1: ParseOutcome, env1: Env,
                               file2: string, parsed2: ParseOutcome, env2: Env)
    requires HasErrors(CompileAsWritten(inst, file1, parsed1, env1).inst.log)
    ensures var after := CompileAsWritten(inst, file1, parsed1, env1).inst;
      && !CompileAsWritten(after, file2, parsed2, env2).Succeeded?
      && Compile(after, file2, parsed2, env2) == Compile(inst, file2, parsed2, env2)
  {
  }

  /** An otherwise valid project whose first schema is a jar entry that cannot be
      read: as written the compile fails with no feedback at all, and a later
      compile on the same instance is judged as if it were the first; the
      corrected compile fails with the read error. */
  lemma SilentSchemaCompile(inst: Instance, projectFile: string, security: Option<bool>, cfg: DatabaseConfig, env: Env)
    requires inst.log == EmptyLog
    requires HeaderValid(cfg) && ElementsValid(cfg, env.classes) && |cfg.procedures| > 0
    requires |cfg.schemas| > 0 && InJar(cfg.schemas[0]) && cfg.schemas[0] !in env.jarSchemas
    ensures var a := CompileAsWritten(inst, projectFile, ProjectWith(security, cfg), env);
      a.Failed? && a.inst.log == EmptyLog
    ensures var c := Compile(inst, projectFile, ProjectWith(security, cfg), env);
      c.Failed? && c.inst.log == Log([], [], [Feedback(Error, SchemaReadMessage(cfg.schemas[0]), Some(BaseName(projectFile)), NoLineNumber)])
  {
    var parsed := ProjectWith(security, cfg);
    var start := Start(inst, projectFile);
    assert StartAsWritten(inst, projectFile) == start;
    var db0 := CheckHeader(start, cfg).value;
    var plan := CheckElements(start, db0, cfg, env.classes).value;
    assert plan.schemas == cfg.schemas;
    assert LoadSchemasAsWritten(start, plan.schemas, env.jarSchemas) == Stop(start);
    assert LoadSchemas(start, plan.schemas, env.jarSchemas) == Raise(start, SchemaReadMessage(cfg.schemas[0]));
    assert CompileDatabaseNode(true, start, cfg, env) == Stop(start);
    assert CompileDatabaseNode(false, start, cfg, env) == Raise(start, SchemaReadMessage(cfg.schemas[0]));
  }

  /** The two outcomes of a phase agree, except that the first stopped without
      recording anything where the second recorded an error. */
  predicate AgreeButSilent<T(==)>(inst: Instance, a: Step<T>, c: Step<T>) {
    a == c || (a.Stop? && a.inst == inst && c.Stop? && HasErrors(c.inst.log))
  }

  lemma SchemaTablesAgree(inst: Instance, cfg: DatabaseConfig, plan: Plan, env: Env)
    ensures AgreeButSilent(inst, SchemaTables(true, inst, cfg, plan, env), SchemaTables(false, inst, cfg, plan, env))
  {
  }

  lemma BuildDatabaseAgree(inst: Instance, cfg: DatabaseConfig, plan: Plan, env: Env)
    ensures AgreeButSilent(inst, BuildDatabase(true, inst, cfg, plan, env), BuildDatabase(false, inst, cfg, plan, env))
  {
    SchemaTablesAgree(inst, cfg, plan, env);
  }

  lemma CompileDatabaseNodeAgree(inst: Instance, cfg: DatabaseConfig, env: Env)
    ensures AgreeButSilent(inst, CompileDatabaseNode(true, inst, cfg, env), CompileDatabaseNode(false, inst, cfg, env))
  {
    match CheckHeader(inst, cfg)
    case Stop(_) =>
    case Crash(_) =>
    case Next(db0, _) =>
      match CheckElements(inst, db0, cfg, env.classes)
      case Stop(_) =>
      case Crash(_) =>
      case Next(plan, _) => BuildDatabaseAgree(inst, cfg, plan, env);
  }

  lemma BuildCatalogAgree(inst: Instance, parsed: ParseOutcome, env: Env)
    ensures AgreeButSilent(inst, BuildCatalog(true, inst, parsed, env), BuildCatalog(false, inst, parsed, env))
  {
    if parsed.Parsed? && parsed.project.database.Some? {
      CompileDatabaseNodeAgree(inst, parsed.project.database.value, env);
    }
  }

  lemma CompileCatalogsAgree(inst: Instance, projectFile: string, parsed: ParseOutcome, env: Env)
    requires inst.log == EmptyLog
    ensures AgreeButSilent(Start(inst, projectFile), CompileCatalogAsWritten(inst, projectFile, parsed, env), CompileCatalog(inst, projectFile, parsed, env))
  {
    assert StartAsWritten(inst, projectFile) == Start(inst, projectFile);
    BuildCatalogAgree(Start(inst, projectFile), parsed, env);
  }

  /** Finishing two catalog outcomes that agree but for a silent stop. */
  lemma FinishAgree(inst: Instance, a: Step<Catalog>, c: Step<Catalog>, env: Env)
    requires inst.log == EmptyLog && AgreeButSilent(inst, a, c)
    ensures var fa := Finish(a, env);
      var fc := Finish(c, env);
      && (fa.Succeeded? <==> fc.Succeeded?)
      && (fa.Crashed? <==> fc.Crashed?)
      && (fa != fc ==> fa.Failed? && fa.inst.log == EmptyLog && fc.Failed? && HasErrors(fc.inst.log))
  {
  }

  /** On an instance that has recorded nothing, the compile as written and the
      corrected one agree except on an unreadable jar schema: there the first
      fails with no feedback where the second records the read error. */
  lemma CompileAsWrittenOnFreshInstance(inst: Instance, projectFile: string, parsed: ParseOutcome, env: Env)
    requires inst.log == EmptyLog
    ensures var a := CompileAsWritten(inst, projectFile, parsed, env);
      var c := Compile(inst, projectFile, parsed, env);
      && (a.Succeeded? <==> c.Succeeded?)
      && (a.Crashed? <==> c.Crashed?)
      && (a != c ==> a.Failed? && a.inst.log == EmptyLog && c.Failed? && HasErrors(c.inst.log))
  {
    CompileCatalogsAgree(inst, projectFile, parsed, env);
    FinishAgree(Start(inst, projectFile), CompileCatalogAsWritten(inst, projectFile, parsed, env), CompileCatalog(inst, projectFile, parsed, env), env);
  }
}
