# VoltCompiler compile driver, modelled in Dafny

This project models the project-file compiler of VoltDB, `VoltCompiler`. The
compiler takes a validated `project.xml` and does the following:

- It checks the `<database>` element: its name, its snapshot schedule, its groups,
  procedures, class dependencies and partitions.
- It reads the schema files.
- It applies the partition elements to the tables the DDL compiler produced.
- It adds the fifteen system procedures and the export connector.
- It compiles each user procedure and copies the class dependencies, with their
  nested classes, into the output jar.
- It writes the jar: class files, build info, catalog, project file and one
  explain-plan file per statement.

The compiler reports through three lists of feedback: infos, warnings and errors.
Each feedback is tagged with the file being compiled when it was recorded. A
compile succeeds when the catalog was built, the jar was written and no error was
recorded.

The model is a set of pure functions on immutable data:

- `Diagnostics`: the feedback records, their two renderings and the three feedback
  lists.
- `Project`: the element getters, the name check, the snapshot block and the group
  registration.
- `Partitions`: the partition loop.
- `Export`: the connector.
- `Sysprocs`: the system-procedure table.
- `Packager`: the class-copying recursion with its per-compile cache, the
  class-file read loop and the jar-locator split.
- `Artifacts`: the explain-plan files and the 80-character SQL truncation of the
  success summary.
- `Driver`: the phases in the compiler's order, on one compiler instance.
- Helper modules: `Strings` (Java's `split`, `lastIndexOf`, `replace`,
  `getIgnoreCase`), `Decimal` (`Integer.toString`/`parseInt`), `Classes`
  (reflection given as data), `Catalog` (the catalog nodes the compiler touches)
  and `Wrappers` (`Option`/`Result`).

A phase of the driver ends in one of three ways:

- `Next`: it continues.
- `Stop`: a checked `VoltCompilerException`. Built from a message, it records that
  message as an error tagged with the current file. Built from another exception,
  as for an unreadable schema inside a jar, it records nothing.
- `Crash`: an unchecked exception escapes the compile.

The outside world is given as an `Env` value:

- the loadable classes;
- the text of schema files that live inside jars;
- the outcome of the DDL compiler;
- the procedure compiler, as a function;
- whether writing the jar succeeds.

The outcome of parsing the project file is given as a `ParseOutcome`.

## Model

| member | source | states |
|---|---|---|
| `Diagnostics.Location` | src/frontend/org/voltdb/compiler/VoltCompiler.java:151-158 | the bracketed location is empty exactly when the feedback has no file name |
| `Diagnostics.LogString` | src/frontend/org/voltdb/compiler/VoltCompiler.java:151-162 | the log string always ends in `: message`; without a file it is only that; with a file it starts with `[file` |
| `Diagnostics.StandardLine` | src/frontend/org/voltdb/compiler/VoltCompiler.java:137-149 | the standard line is exactly the severity word, one space, then the log string: it starts with the word and a space, ends with the log string, and has no other character |
| `Diagnostics.SeverityOfStandardLine` | src/frontend/org/voltdb/compiler/VoltCompiler.java:137-149 | the severity is recovered from the standard line, so the four words never clash |
| `Diagnostics.ParseLogStringOfLogString` | src/frontend/org/voltdb/compiler/VoltCompiler.java:151-162 | reading a log string back gives the file name, the shown line number (none for `NO_LINE_NUMBER`) and the message unchanged, for file names without `:` or `]` |
| `Diagnostics.ParseLogStringWithLine` | src/frontend/org/voltdb/compiler/VoltCompiler.java:153-157 | with a file and a real line number, the rendering `[file:line]: msg` gives back both |
| `Diagnostics.ParseLogStringWithoutLine` | src/frontend/org/voltdb/compiler/VoltCompiler.java:153-157 | with a file and `NO_LINE_NUMBER`, the rendering `[file]: msg` gives back the file and no line |
| `Diagnostics.AddInfo` | src/frontend/org/voltdb/compiler/VoltCompiler.java:269-273 | appends one informational feedback tagged with the current file; the other lists and both `hasErrors` predicates are unchanged |
| `Diagnostics.AddWarn` | src/frontend/org/voltdb/compiler/VoltCompiler.java:275-279 | appends one warning; errors unchanged; `hasErrorsOrWarnings` becomes true |
| `Diagnostics.AddErr` | src/frontend/org/voltdb/compiler/VoltCompiler.java:281-285 | appends one error tagged with the current file; nothing is removed; `hasErrors` becomes true |
| `Diagnostics.HasErrors` | src/frontend/org/voltdb/compiler/VoltCompiler.java:249-251 | there are errors exactly when the error list is not empty |
| `Diagnostics.HasErrorsOrWarnings` | src/frontend/org/voltdb/compiler/VoltCompiler.java:253-255 | implied by `hasErrors`; false exactly when there are neither errors nor warnings |
| `Decimal.IntToString` | src/frontend/org/voltdb/compiler/VoltCompiler.java:367 | `Integer.toString`: digits, with a leading minus exactly for negatives |
| `Decimal.ParseInt` | src/frontend/org/voltdb/compiler/VoltCompiler.java:512-519 | `Integer.parseInt`: accepted exactly when the text is an optional `-` or `+` followed by at least one digit and the value fits in an int32; the value is the digits' value, negated after a `-` |
| `Decimal.ParseIntOfIntToString` | src/frontend/org/voltdb/compiler/VoltCompiler.java:512-519 | every int parses back from its own decimal text |
| `Decimal.IntToStringInjective` | src/frontend/org/voltdb/compiler/VoltCompiler.java:156 | distinct line numbers render differently |
| `Strings.Split` | src/frontend/org/voltdb/compiler/VoltCompiler.java:737 | `String.split` on one character: the input itself when the separator is absent, otherwise the fields with trailing empty ones dropped |
| `Strings.SplitJoin` | src/frontend/org/voltdb/compiler/VoltCompiler.java:737 | for text not ending in the separator, split gives all fields and joining them restores the text |
| `Strings.SplitLast` | src/frontend/org/voltdb/compiler/VoltCompiler.java:933-934 | the last part of a split is the text after the last separator |
| `Strings.LastIndexOf` | src/frontend/org/voltdb/compiler/VoltCompiler.java:1046 | `lastIndexOf`: -1 or the position of the separator, with no separator after it |
| `Strings.Replace` | src/frontend/org/voltdb/compiler/VoltCompiler.java:1042 | `replace(char, char)` keeps the length and leaves no `from` character |
| `Strings.ReplaceInverse` | src/frontend/org/voltdb/compiler/VoltCompiler.java:1042 | replacing back restores text that held no `to` character |
| `Strings.FindIgnoreCase` | src/frontend/org/voltdb/compiler/VoltCompiler.java:649 | `getIgnoreCase`: the first name equal ignoring case, or none exactly when no name matches |
| `Strings.FindIgnoreCaseInsensitive` | src/frontend/org/voltdb/compiler/VoltCompiler.java:649-654 | names that differ only in case find the same entry |
| `Classes.ArchivePath` | src/frontend/org/voltdb/compiler/VoltCompiler.java:1041-1043 | the archive path ends in `.class` and has no dot before it |
| `Classes.ClassOfArchivePathInverse` | src/frontend/org/voltdb/compiler/VoltCompiler.java:1041-1043 | the class name is recovered from its archive path |
| `Classes.ArchivePathInjective` | src/frontend/org/voltdb/compiler/VoltCompiler.java:1041-1043 | two classes never share an archive path |
| `Classes.ClassFileName` | src/frontend/org/voltdb/compiler/VoltCompiler.java:1045-1047 | the file name is the text after the last dot plus `.class`, a suffix of the class name |
| `Catalog.NewDatabase` | src/frontend/org/voltdb/compiler/VoltCompiler.java:496-497 | a new database has the given name and no tables, procedures, groups, snapshot or connector |
| `Catalog.FindTable` | src/frontend/org/voltdb/compiler/VoltCompiler.java:649 | a table whose name matches ignoring case, or none exactly when none matches |
| `Catalog.FindColumn` | src/frontend/org/voltdb/compiler/VoltCompiler.java:654 | a column whose name matches ignoring case, or none exactly when none matches |
| `Project.CheckDatabaseName` | src/frontend/org/voltdb/compiler/VoltCompiler.java:486-493 | accepted exactly when the name is `database`; otherwise the error echoes the name found |
| `Project.CompileSnapshot` | src/frontend/org/voltdb/compiler/VoltCompiler.java:499-554 | accepted exactly when the schedule is valid, and then the node carries the unit, the parsed value, path, prefix and retain; a missing unit and a retain below 1 give their messages |
| `Project.RegisterGroups` | src/frontend/org/voltdb/compiler/VoltCompiler.java:564-570 | only the groups change, and no group is removed |
| `Project.RegisterGroupsKeys` | src/frontend/org/voltdb/compiler/VoltCompiler.java:564-570 | a group exists afterwards exactly when it existed before or is declared |
| `Project.RegisterGroupsLastWins` | src/frontend/org/voltdb/compiler/VoltCompiler.java:564-570 | a group declared more than once has the flags of its last declaration |
| `Project.RegisterGroupsUntouched` | src/frontend/org/voltdb/compiler/VoltCompiler.java:564-570 | an existing group that is not declared keeps its flags |
| `Project.AuthGroups` | src/frontend/org/voltdb/compiler/VoltCompiler.java:736-740 | no `groups` attribute gives no groups, and no group name contains a comma |
| `Project.AuthGroupsJoin` | src/frontend/org/voltdb/compiler/VoltCompiler.java:736-740 | joining the group names with commas restores an attribute that does not end with a comma |
| `Project.GetProcedure` | src/frontend/org/voltdb/compiler/VoltCompiler.java:729-765 | rejected exactly for a Java procedure with partition info; a statement procedure keeps its SQL and join order, and an empty partition attribute counts as none |
| `Project.GetPartition` | src/frontend/org/voltdb/compiler/VoltCompiler.java:791-811 | accepted exactly when table and column are non-empty; the empty table is reported before the empty column |
| `Project.GetClassDependency` | src/frontend/org/voltdb/compiler/VoltCompiler.java:768-789 | accepted exactly when the name is non-empty and the class loads; each failure has its own message |
| `Partitions.ViewDests` | src/frontend/org/voltdb/compiler/VoltCompiler.java:673-676 | exactly the destination tables of the table's views |
| `Partitions.MarkNotReplicated` | src/frontend/org/voltdb/compiler/VoltCompiler.java:673-676 | a table is replicated afterwards exactly when it was before and is not a view destination; other tables are unchanged |
| `Partitions.Target` | src/frontend/org/voltdb/compiler/VoltCompiler.java:649 | the partitioned table matches the element's table name ignoring case |
| `Partitions.TargetColumn` | src/frontend/org/voltdb/compiler/VoltCompiler.java:654-665 | the partition column belongs to that table, is NOT NULL and matches the element's column name |
| `Partitions.ApplyPartition` | src/frontend/org/voltdb/compiler/VoltCompiler.java:646-677 | succeeds exactly when the element resolves; an unknown table, an unknown column of the found table and a nullable column each give their own message, in that order; tables keep their shape and replication is only switched off |
| `Partitions.Partitioned` | src/frontend/org/voltdb/compiler/VoltCompiler.java:666-676 | setting a partition column keeps every table's shape and only unreplicates |
| `Partitions.ApplyPartitionEffect` | src/frontend/org/voltdb/compiler/VoltCompiler.java:646-677 | the target gets the column, it and its views' destinations are unreplicated, and every other table is unchanged |
| `Partitions.ApplyPartitions` | src/frontend/org/voltdb/compiler/VoltCompiler.java:646-677 | the loop keeps the tables' shapes and only unreplicates |
| `Partitions.ApplyPartitionsOk` | src/frontend/org/voltdb/compiler/VoltCompiler.java:646-677 | the loop succeeds exactly when every element resolves against the DDL's tables |
| `Partitions.ApplyPartitionsUnreplicated` | src/frontend/org/voltdb/compiler/VoltCompiler.java:666-676 | after the loop, every element's table and its view destinations are unreplicated |
| `Partitions.ApplyPartitionsUntouched` | src/frontend/org/voltdb/compiler/VoltCompiler.java:666 | a table no element names keeps its partition column |
| `Partitions.ApplyPartitionsUnchanged` | src/frontend/org/voltdb/compiler/VoltCompiler.java:646-677 | a table that no element resolves to, and that is no view destination of a table an element resolves to, comes out of the loop unchanged |
| `Partitions.ApplyPartitionsLastColumn` | src/frontend/org/voltdb/compiler/VoltCompiler.java:646-667 | the final partition column of a table an element resolves to is the NOT NULL column that the last such element names |
| `Partitions.ResolvableOfSameShapes` | src/frontend/org/voltdb/compiler/VoltCompiler.java:649-661 | an earlier element's changes never change whether a later one resolves |
| `Export.CheckGroup` | src/frontend/org/voltdb/compiler/VoltCompiler.java:846-853 | a connector group is accepted exactly when the database has it; otherwise the message names the class and group |
| `Export.ExportTable` | src/frontend/org/voltdb/compiler/VoltCompiler.java:856-883 | accepted exactly when the table exists and, if export-only, is neither a view nor a view source; a missing table, a view source and a view each stop with their own message; the entry keeps the name and the export-only flag |
| `Export.CompileConnector` | src/frontend/org/voltdb/compiler/VoltCompiler.java:813-887 | no `<export>` leaves the database unchanged; otherwise succeeds exactly when every group exists and every table is acceptable, and the connector records enabled, class, groups and one entry per table |
| `Export.ExportOnlyTablesArePlain` | src/frontend/org/voltdb/compiler/VoltCompiler.java:867-877 | an export-only table of a compiled connector is neither a materialized view nor a view's source |
| `Sysprocs.ShortName` | src/frontend/org/voltdb/compiler/VoltCompiler.java:932-934 | the short name starts with `@` and has no dot |
| `Sysprocs.ShortNameOfClassFileName` | src/frontend/org/voltdb/compiler/VoltCompiler.java:932-934 | the short name is `@` plus the simple class name, as in the class file name |
| `Sysprocs.ShortNameOfEntry` | src/frontend/org/voltdb/compiler/VoltCompiler.java:932-934 | each row's short name is `@` and its simple name |
| `Sysprocs.SysprocTableWellFormed` | src/frontend/org/voltdb/compiler/VoltCompiler.java:897-916 | the table has fifteen rows, each with a non-empty dot-free simple name |
| `Sysprocs.SysprocNamesDistinct` | src/frontend/org/voltdb/compiler/VoltCompiler.java:897-916 | no two rows name the same procedure |
| `Sysprocs.SysprocNode` | src/frontend/org/voltdb/compiler/VoltCompiler.java:942-949 | the node is a system, Java procedure with the row's flags and the annotation's single-partition flag |
| `Sysprocs.SysprocNodeName` | src/frontend/org/voltdb/compiler/VoltCompiler.java:932-943 | the node is named by the short name of its class |
| `Sysprocs.LoadEntry` | src/frontend/org/voltdb/compiler/VoltCompiler.java:923-940 | loads exactly when the class exists and is annotated; each failure has its own message |
| `Sysprocs.AddRows` | src/frontend/org/voltdb/compiler/VoltCompiler.java:918-957 | succeeds exactly when every row loads; appends one node per row in order and changes nothing else; a failure is the first failing row's |
| `Sysprocs.AddSystemProcs` | src/frontend/org/voltdb/compiler/VoltCompiler.java:892-957 | succeeds exactly when all fifteen classes load, adding fifteen procedures |
| `Sysprocs.AddSystemProcsShortNames` | src/frontend/org/voltdb/compiler/VoltCompiler.java:932-943 | every added system procedure is named by its class's short name |
| `Packager.AddClassToJar` | src/frontend/org/voltdb/compiler/VoltCompiler.java:1028-1091 | a cached class is skipped; success caches the class and last appends its own class file at its archive path; an unknown or unreadable class fails |
| `Packager.AddClasses` | src/frontend/org/voltdb/compiler/VoltCompiler.java:1037-1039 | success caches every named class and only grows the state |
| `Packager.AddClassToJarInv` | src/frontend/org/voltdb/compiler/VoltCompiler.java:1031-1035 | every entry belongs to a cached class and no class gets two entries |
| `Packager.AddClassesInv` | src/frontend/org/voltdb/compiler/VoltCompiler.java:1037-1039 | the same invariant across a sequence of classes |
| `Packager.AddClassToJarDone` | src/frontend/org/voltdb/compiler/VoltCompiler.java:1028-1091 | each cached class has its class file in the jar and its nested classes cached |
| `Packager.AddClassesDone` | src/frontend/org/voltdb/compiler/VoltCompiler.java:1037-1039 | the same across a sequence of classes |
| `Packager.AddClassesComplete` | src/frontend/org/voltdb/compiler/VoltCompiler.java:712-714 | from a cleared cache: no archive path is written twice, each dependency is cached, and each cached class is complete with its nested classes |
| `Packager.ReadLoopAsWritten` | src/frontend/org/voltdb/compiler/VoltCompiler.java:1077-1088 | the loop as written never reports a read error, and a completed buffer has the file's size |
| `Packager.ShortReadIsOutOfBounds` | src/frontend/org/voltdb/compiler/VoltCompiler.java:1082-1084 | a file handed over as six bytes and then four ends in an out-of-bounds read |
| `Packager.OneReadSucceeds` | src/frontend/org/voltdb/compiler/VoltCompiler.java:1082-1084 | a file handed over in one read is read completely |
| `Packager.ReadClassFile` | src/frontend/org/voltdb/compiler/VoltCompiler.java:1077-1088 | the corrected loop reads exactly the first `fileSize` bytes however the stream splits them, and a short stream is a read error |
| `Packager.SplitJarLocator` | src/frontend/org/voltdb/compiler/VoltCompiler.java:1096-1105 | succeeds exactly when the split on `!` has a second, non-empty part |
| `Packager.SplitJarLocatorRoundTrip` | src/frontend/org/voltdb/compiler/VoltCompiler.java:1096-1105 | `file:jar!/entry` splits back into the jar and the entry |
| `Artifacts.PlanFileNameParts` | src/frontend/org/voltdb/compiler/VoltCompiler.java:376 | the plan file name starts with `proc_` and ends with `stmt.txt` |
| `Artifacts.PlanFileName` | src/frontend/org/voltdb/compiler/VoltCompiler.java:376 | the name has the length of procedure name, underscore, statement name and `.txt`, and ends in `.txt` |
| `Artifacts.PlanFileNameInjective` | src/frontend/org/voltdb/compiler/VoltCompiler.java:376 | procedure names without underscores give each procedure and statement its own file |
| `Artifacts.PlanFileNameCollision` | src/frontend/org/voltdb/compiler/VoltCompiler.java:376 | with an underscore in a procedure name, two different statements share one file |
| `Artifacts.PlanText` | src/frontend/org/voltdb/compiler/VoltCompiler.java:366-369 | the file is the `SQL:` line, the `COST:` line with the cost in decimal, the `PLAN:` heading and an empty line, then the plan and a final newline, with nothing else |
| `Artifacts.ParsePlanTextOfPlanText` | src/frontend/org/voltdb/compiler/VoltCompiler.java:366-369 | reading an explain-plan file back gives the statement's SQL, cost and plan, for SQL without a line break |
| `Artifacts.Own` | src/frontend/org/voltdb/compiler/VoltCompiler.java:365 | a procedure's statements, each paired with the procedure's name |
| `Artifacts.PlanSourceOrigin` | src/frontend/org/voltdb/compiler/VoltCompiler.java:364-365 | each visited statement belongs to some procedure |
| `Artifacts.PlanSourceOf` | src/frontend/org/voltdb/compiler/VoltCompiler.java:364-365 | every statement of every procedure is visited |
| `Artifacts.PutAllKeySource` | src/frontend/org/voltdb/compiler/VoltCompiler.java:376 | every plan file was put for some statement |
| `Artifacts.PutAll` | src/frontend/org/voltdb/compiler/VoltCompiler.java:376 | a map with at most one file per statement put, every file name ending in `.txt` |
| `Artifacts.ExplainPlans` | src/frontend/org/voltdb/compiler/VoltCompiler.java:360-380 | `getExplainPlans`: no more plan files than statements, every name ending in `.txt` |
| `Artifacts.PutAllHasKey` | src/frontend/org/voltdb/compiler/VoltCompiler.java:376 | every statement's file is put |
| `Artifacts.PutAllLastWins` | src/frontend/org/voltdb/compiler/VoltCompiler.java:376 | a file holds the plan of the last statement put under its name |
| `Artifacts.ExplainPlansKeys` | src/frontend/org/voltdb/compiler/VoltCompiler.java:360-380 | there is a plan file exactly for each name built from some procedure and one of its statements |
| `Artifacts.DistinctFiles` | src/frontend/org/voltdb/compiler/VoltCompiler.java:376 | distinct underscore-free sources never share a file |
| `Artifacts.ExplainPlansOwnFile` | src/frontend/org/voltdb/compiler/VoltCompiler.java:360-380 | with underscore-free procedure names and distinct sources, each statement's file holds its own plan |
| `Artifacts.SummarySql` | src/frontend/org/voltdb/compiler/VoltCompiler.java:1004-1009 | SQL of up to 80 characters is shown unchanged; longer SQL is shown as 83 characters: its own first 80, then `...` |
| `Artifacts.StatementLine` | src/frontend/org/voltdb/compiler/VoltCompiler.java:1004-1009 | the line is two spaces followed by the SQL itself when it has at most 80 characters, and otherwise by its first 80 characters and `...`, 85 characters in all |
| `Artifacts.StatementLineShortInjective` | src/frontend/org/voltdb/compiler/VoltCompiler.java:1004-1009 | SQL shown whole is recovered from its line |
| `Artifacts.StatementLineDropsTail` | src/frontend/org/voltdb/compiler/VoltCompiler.java:1004-1006 | long SQL agreeing in its first 80 characters prints the same line |
| `Driver.Raise` | src/frontend/org/voltdb/compiler/VoltCompiler.java:194-197 | a compiler exception from a message appends exactly one error, tagged with the current file, and stops |
| `Driver.CompileSnapshotElement` | src/frontend/org/voltdb/compiler/VoltCompiler.java:499-500 | a missing `<snapshot>` gives no schedule; a present one is accepted exactly when valid |
| `Driver.CheckHeader` | src/frontend/org/voltdb/compiler/VoltCompiler.java:486-570 | continues exactly for the name `database` and a valid schedule; a wrong name stops with its message; the database has the registered groups and the compiled schedule |
| `Driver.CheckElements` | src/frontend/org/voltdb/compiler/VoltCompiler.java:573-601 | continues exactly when every element is accepted and there is a procedure; zero procedures stops with the `needs at least one` message |
| `Driver.LoadSchemasAsWritten` | src/frontend/org/voltdb/compiler/VoltCompiler.java:614-625 | as written: an unreadable jar schema stops without changing the instance |
| `Driver.SilentSchemaAbort` | src/frontend/org/voltdb/compiler/VoltCompiler.java:617-623 | a compile stopped by an unreadable jar schema records no error |
| `Driver.LoadSchemas` | src/frontend/org/voltdb/compiler/VoltCompiler.java:614-625 | corrected: an unreadable jar schema stops with an error naming the file |
| `Driver.ReadSchemas` | src/frontend/org/voltdb/compiler/VoltCompiler.java:614-625 | either loader continues exactly when every schema is readable; as written a stop changes nothing, corrected it records an error |
| `Driver.SchemaTables` | src/frontend/org/voltdb/compiler/VoltCompiler.java:614-677 | continues exactly when the schemas are readable, the DDL compiles and every partition resolves, giving the partitioned tables; a stop records an error, except the as-written stop on an unreadable jar schema, which leaves the instance unchanged |
| `Driver.BuildSchema` | src/frontend/org/voltdb/compiler/VoltCompiler.java:614-700 | the database gets the partitioned tables, the system procedures and the connector; an unloadable system procedure crashes, after recording its error |
| `Driver.CompleteSchema` | src/frontend/org/voltdb/compiler/VoltCompiler.java:685-700 | over the built tables: the system procedures are added and the connector compiled, keeping name, groups, snapshot and tables; an unloadable system procedure crashes with its error recorded, and a rejected connector stops with an error |
| `Driver.FirstRejected` | src/frontend/org/voltdb/compiler/VoltCompiler.java:703-709 | the first procedure the procedure compiler rejects |
| `Driver.CompileProcedures` | src/frontend/org/voltdb/compiler/VoltCompiler.java:703-709 | continues exactly when every procedure compiles, appending them in order; otherwise stops on the first rejected one, tagged with its class file name |
| `Driver.PackageDependencies` | src/frontend/org/voltdb/compiler/VoltCompiler.java:712-714 | continues exactly when every dependency is copied, keeping the new packing state; otherwise stops with the copier's message |
| `Driver.BuildDatabase` | src/frontend/org/voltdb/compiler/VoltCompiler.java:614-714 | a stop or crash leaves an error recorded, except the as-written silent schema stop, which leaves the instance unchanged; a completed build adds no feedback of the compiler's own |
| `Driver.CompileDatabaseNode` | src/frontend/org/voltdb/compiler/VoltCompiler.java:479-717 | a stop or crash leaves an error recorded, except the as-written silent schema stop; a completed node adds no feedback of the compiler's own |
| `Driver.BuildCatalog` | src/frontend/org/voltdb/compiler/VoltCompiler.java:400-468 | a stop leaves an error recorded, except the as-written silent schema stop; a crash is a parser failure or has an error; a built catalog adds no feedback of the compiler's own and clears the current file |
| `Driver.BaseName` | src/frontend/org/voltdb/compiler/VoltCompiler.java:387 | `File.getName()`: the text after the last slash once trailing slashes are dropped; it holds no slash |
| `Driver.TrimTrailingSlashes` | src/frontend/org/voltdb/compiler/VoltCompiler.java:387 | `java.io.File` normalisation: a prefix of the path with no trailing slash, having dropped only slashes |
| `Driver.BaseNameTrailingSlash` | src/frontend/org/voltdb/compiler/VoltCompiler.java:387 | a trailing slash does not change the file name, as `File` normalises it away |
| `Driver.BaseNameOfChild` | src/frontend/org/voltdb/compiler/VoltCompiler.java:387 | the name of `dir/name` is `name` for any directory |
| `Driver.StartAsWritten` | src/frontend/org/voltdb/compiler/VoltCompiler.java:385-388 | as written: the cache and jar are renewed and the file name is set, but the feedback is kept |
| `Driver.Start` | src/frontend/org/voltdb/compiler/VoltCompiler.java:385-388 | corrected: the feedback is cleared along with the cache and jar |
| `Driver.CompileCatalogAsWritten` | src/frontend/org/voltdb/compiler/VoltCompiler.java:383-441 | as written: a built catalog leaves the instance's earlier feedback in place, and a stop either has an error or is the silent schema stop that leaves the started instance as it was |
| `Driver.CompileCatalog` | src/frontend/org/voltdb/compiler/VoltCompiler.java:383-441 | corrected (feedback cleared at the start, an unreadable jar schema recorded): a built catalog comes with an empty log, the collaborators' own feedback aside, and a stopped one with an error |
| `Driver.PlanPathInjective` | src/frontend/org/voltdb/compiler/VoltCompiler.java:340-341 | prefixing `plans/` keeps plan files apart |
| `Driver.Finish` | src/frontend/org/voltdb/compiler/VoltCompiler.java:305-353 | succeeds exactly when a catalog with a database was built, the jar was written and no error is recorded |
| `Driver.Compile` | src/frontend/org/voltdb/compiler/VoltCompiler.java:295-354 | succeeds exactly when the catalog with its database is built and the jar is written; a failure has an error or a failed write |
| `Driver.CompileAsWritten` | src/frontend/org/voltdb/compiler/VoltCompiler.java:295-354 | as written: succeeds exactly when the catalog with its database is built, the jar is written and the instance held no error before the compile; a success keeps the earlier feedback; a failure has an error, a failed write, or is the silent schema stop |
| `Driver.ClassMembersLastWins` | src/frontend/org/voltdb/compiler/VoltCompiler.java:1090 | a class entry is in the jar with its bytes when no later entry has its path |
| `Driver.ArchiveClassEntry` | src/frontend/org/voltdb/compiler/VoltCompiler.java:332-342 | with distinct paths, every class entry survives the later puts with its bytes |
| `Driver.ClassPathNotPlan` | src/frontend/org/voltdb/compiler/VoltCompiler.java:340-341 | a class path is never an explain-plan path |
| `Driver.ArchivePlanEntry` | src/frontend/org/voltdb/compiler/VoltCompiler.java:340-341 | each plan file is in the jar under `plans/` |
| `Driver.ArchiveFixedEntries` | src/frontend/org/voltdb/compiler/VoltCompiler.java:333-336 | the jar holds the build info, the catalog and the project file under their names |
| `Driver.Archive` | src/frontend/org/voltdb/compiler/VoltCompiler.java:332-342 | the jar holds build info, catalog and project file, and every plan under `plans/` with its own text; nothing else but class entries |
| `Driver.NotPlanPath` | src/frontend/org/voltdb/compiler/VoltCompiler.java:340-341 | only paths under `plans/` come from the plan files |
| `Driver.DatabaseNodeSteps` | src/frontend/org/voltdb/compiler/VoltCompiler.java:479-601 | a completed node passed the header and element checks unchanged, then built the database |
| `Driver.BuildDatabaseSteps` | src/frontend/org/voltdb/compiler/VoltCompiler.java:614-714 | a completed build ran the schema, procedure and dependency phases in that order |
| `Driver.BuiltDatabase` | src/frontend/org/voltdb/compiler/VoltCompiler.java:688-709 | the fifteen system procedures come first, then one compiled procedure per element in order; the tables are the DDL's with the partitions applied |
| `Driver.BuiltCatalog` | src/frontend/org/voltdb/compiler/VoltCompiler.java:454-468 | a built catalog carries the security flag (default off) and the database `database`, with at least one procedure element, 15 more procedures than elements, and the partitioned tables |
| `Driver.BuiltCatalogSystemProcedures` | src/frontend/org/voltdb/compiler/VoltCompiler.java:892-957 | the first fifteen procedures of a built catalog are the system procedures, in table order |
| `Driver.BuiltCatalogUserProcedures` | src/frontend/org/voltdb/compiler/VoltCompiler.java:703-709 | procedure `15 + i` is what the procedure compiler made of element `i` |
| `Driver.BuiltCatalogPartitions` | src/frontend/org/voltdb/compiler/VoltCompiler.java:646-677 | every partition element's table and its views' destinations are unreplicated in the built catalog |
| `Driver.BuiltDatabasePacking` | src/frontend/org/voltdb/compiler/VoltCompiler.java:712-714 | from a cleared cache, the jar's class paths are distinct and each dependency is copied with its nested classes |
| `Driver.BuiltCatalogPacking` | src/frontend/org/voltdb/compiler/VoltCompiler.java:385-388 | because the cache is cleared per compile, a built catalog's jar has distinct class paths and every dependency copied |
| `Driver.WrongDatabaseName` | src/frontend/org/voltdb/compiler/VoltCompiler.java:486-493 | a wrongly named database stops the compile with exactly one error, tagged with the project file's name |
| `Driver.NoProcedures` | src/frontend/org/voltdb/compiler/VoltCompiler.java:591-597 | a valid database without procedures stops with exactly the `needs at least one` error, tagged with the project file's name |
| `Driver.StaleErrorsFailCompile` | src/frontend/org/voltdb/compiler/VoltCompiler.java:93-95 | once a compile as written leaves an error on the instance, no later compile on it succeeds; the corrected compile is unaffected by earlier compiles |
| `Driver.SilentSchemaCompile` | src/frontend/org/voltdb/compiler/VoltCompiler.java:614-625 | a valid project whose first schema is an unreadable jar entry fails as written with no feedback at all, so the instance is not spoiled for later compiles; the corrected compile fails with the read error naming the file |
| `Driver.CompileAsWrittenOnFreshInstance` | src/frontend/org/voltdb/compiler/VoltCompiler.java:383-441 | on an instance with no feedback yet, the two compiles succeed and crash on the same inputs and differ only where the as-written one fails silently on an unreadable jar schema while the corrected one records the error |
| `Driver.BuildCatalogAgree` | src/frontend/org/voltdb/compiler/VoltCompiler.java:400-468 | the as-written and corrected catalog builds give the same outcome, or the first stops silently where the second stops with an error |

## Left out

- Reading and schema-validating `project.xml` (JAXB, SAX, lines 391-423) is not
  modelled. `ParseOutcome` gives the result: the project, a missing file, a schema
  violation with its message, or a failure that is rethrown unchecked.
- The SAX error handler's warnings and errors (lines 205-217) are not recorded,
  because the parse itself is not modelled.
- The DDL compiler and the HSQL back end (lines 604-640) are left out. `Env.ddl`
  gives their tables, or an error that stops the compile.
- Feedback that the DDL compiler and the procedure compiler record themselves is
  not modelled. In the source they reach the package-private `addInfo`,
  `addWarn`, `addErr(msg, lineNo)` (lines 257-285) and
  `VoltCompilerException(String, int)` (lines 189-191), so they can add infos,
  warnings and errors with line numbers. Here each gives a value or one message,
  which is recorded as an error with no line number. The driver contracts that a
  completed phase "adds no feedback" speak of `VoltCompiler`'s own feedback.
- Java assertions are taken as disabled, as in a run without `-ea`. With them
  enabled:
  - `assert(!hasErrors())` at line 347 throws `AssertionError` before line 349 can
    return false, so the stale-error compile of the third finding would crash
    rather than fail;
  - an empty class file trips `assert(fileSize > 0)` at line 1076;
  - `assert(db != null)` at line 363 turns the crash of a catalog without a
    database into an `AssertionError`, which is still a crash;
  - `canRead` and `isFile` at lines 1058-1059 are not modelled.
- The procedure compiler (line 707) is left out. `Env.procedureCompiler` gives each
  procedure's catalog node or the message it stops with. Procedure-info overrides
  and database estimates belong to it.
- Serializing the catalog and reading it back (lines 680-683) is taken as the
  identity.
- The local epoch and the catalog text itself are left out.
- Reflection and file access are replaced by the `Classes.ClassPath` map: nested
  classes, the class file's bytes or the reason it cannot be had, and the
  `@ProcInfo` annotation.
- The loose-file-then-jar fallback of `addClassToJar` (lines 1049-1074) is folded
  into `ClassSource`.
- `readFileFromJarfile(jar, entry)` (lines 1107-1129) streams a jar. It is
  represented by `Env.jarSchemas` and `ClassSource`.
- A jar entry that is not found is treated like a failed read. In the source the
  null text later fails when the temporary file is written.
- `m_ddlFilePaths` and the copies of the schema files in the jar (lines 336-338)
  are left out.
- Relative schema paths being resolved against the project directory, and the
  temporary files, are left out too (lines 624-638).
- The build-info text is a fixed member (lines 324-334), because it is made of
  version, user, directory and clock values.
- The explain plan is stored already decoded (line 369), because the hex decoder
  is not part of this model.
- `UnsupportedEncodingException` for UTF-8 (lines 317-322, 371-375, 1071-1074)
  cannot happen and is left out.
- Catalog collections that are looked up by name are sequences searched in order.
  Groups are a map, so adding a group a second time keeps the last flags (lines
  564-570). The catalog's own collection class is not part of this model.
- `isTableMaterializeViewSource` is modelled as "some table is a view whose source
  is this table". `CatalogUtil` is not part of this model.
- The `procedures.size() < 1` branch (lines 598-601) is not modelled, because it
  can never run after the zero check above it.
- The success summary (lines 980-1015) is modelled only for the truncation of each
  statement's SQL to 80 characters. The other lines it prints and
  `summarizeErrors` are output only.
- `main` is left out.
- `src/frontend/org/voltdb/log4j/VoltDBLog4JAppender.java` is not part of this model. It is a log appender that ships log lines to a database, with no compiler logic.
- Logging through `compilerLog` is left out.
- The class cache is a static field shared by all instances, so concurrent
  compiles interfere. The model has one compile at a time, with the cache in the
  instance.
- `Strings.ToUpper` and `Strings.EqualsIgnoreCase` fold ASCII letters only, and
  every `getIgnoreCase` lookup uses them. Java folds every Unicode letter with
  case, so names that match only through non-ASCII case folding are not found.
- `Decimal.ParseInt` accepts ASCII digits only, while `Integer.parseInt` also
  accepts other Unicode decimal digits. It accepts a leading `+`, as Java 7 and
  later do; the JDK assumed is Java 7 or later.
- `Artifacts.SummarySql` counts characters as Unicode scalar values, while
  `length()` and `substring(0, 80)` (lines 1004-1005) count UTF-16 code units. SQL
  with characters outside the Basic Multilingual Plane is cut at a different place.
- `LoadSchemas` and `LoadSchemasAsWritten` read every schema before the DDL
  compiler's outcome is consulted. The source hands each schema to the DDL
  compiler before it reads the next one (lines 614-640), so a schema the DDL
  compiler rejects while loading would stop the compile before a later
  unreadable jar schema is read. The DDL compiler is a single outcome here.
- `Driver.Compile`: a jar whose puts or write throw (lines 332-345) makes
  `compile` return false without recording an error. The model has only
  `Env.writeSucceeds` for this, so `Compile` does not claim that every failure
  carries an error.
- `Export.CompileConnector`: when a table is rejected, the contract says which
  elements are unacceptable but not which message was thrown. The message for a
  missing group is stated, and so are the messages of `Export.ExportTable`.
- Three behaviours of the code that a caller might not expect are modelled as written:
  - the first procedure the procedure compiler rejects stops the compile, rather
    than errors accumulating over all procedures (lines 703-709);
  - a snapshot frequency such as `-5s` is accepted (line 515);
  - feedback is not reset between compiles (lines 93-95), although the comment
    at line 385 calls the compiler instance reusable. This is the third finding
    below.

## Findings

| source | as written | input that shows it | evidently intended | confidence | as-written member | corrected member |
|---|---|---|---|---|---|---|
| src/frontend/org/voltdb/compiler/VoltCompiler.java:1082-1084 | `readSize` is assigned the byte count of the last `read` instead of being increased by it | a 10-byte class file whose stream hands over 6 bytes and then 4: the third read starts at offset 4, meets the end of the stream, and sets `readSize` to -1, so the fourth read is out of bounds | `readSize += read(...)`, with a stream that ends early treated as a read error | high, not executed | `Packager.ShortReadIsOutOfBounds` | `Packager.ReadClassFile` |
| src/frontend/org/voltdb/compiler/VoltCompiler.java:617-623 | an unreadable schema inside a jar is rethrown as `VoltCompilerException(e)`, whose constructor records nothing (lines 185-187) | a schema path `lib/app.jar!/ddl.sql` whose entry cannot be read: the compile stops with no error feedback | record an error naming the schema file, like every other stopping failure | medium, not executed | `Driver.SilentSchemaCompile` | `Driver.LoadSchemas` |
| src/frontend/org/voltdb/compiler/VoltCompiler.java:93-95 | the three feedback lists are never cleared, although `compileCatalog` renews the rest of the per-compile state (lines 385-388) | compiling a project with a wrongly named database, then a valid project, on the same instance: `hasErrors()` is still true at line 349, so the second compile returns false (with assertions enabled, line 347 throws `AssertionError` first) | clear the feedback when a compile starts | medium, not executed | `Driver.StaleErrorsFailCompile` | `Driver.CompileCatalog` |
