/** Applying the project file's partition elements to the tables the schema
    defined: each named table (matched ignoring case) is partitioned on a named,
    non-nullable column, and it and the destination tables of its materialized
    views stop being replicated. */
module Partitions {
  import opened Wrappers
  import opened Catalog
  import Strings
  import Project

  /** Everything about a table except its partitioning is left as it was. */
  predicate SameShape(a: Table, b: Table) {
    && a.name == b.name
    && a.columns == b.columns
    && a.views == b.views
    && a.materializer == b.materializer
  }

  predicate SameShapes(a: seq<Table>, b: seq<Table>) {
    |a| == |b| && forall k :: 0 <= k < |a| ==> SameShape(a[k], b[k])
  }

  /** Replication is only ever switched off. */
  predicate OnlyUnreplicates(a: seq<Table>, b: seq<Table>)
    requires |a| == |b|
  {
    forall k :: 0 <= k < |a| && b[k].isReplicated ==> a[k].isReplicated
  }

  /** The names of the tables the views of `t` write to. */
  function ViewDests(t: Table): (r: set<string>)
    ensures forall v :: 0 <= v < |t.views| ==> t.views[v].dest in r
    ensures forall d :: d in r ==> exists v :: 0 <= v < |t.views| && t.views[v].dest == d
  {
    set v | 0 <= v < |t.views| :: t.views[v].dest
  }

  /** Turns off replication of the named tables and of nothing else. */
  function MarkNotReplicated(tables: seq<Table>, dests: set<string>): (r: seq<Table>)
    ensures SameShapes(tables, r)
    ensures forall k :: 0 <= k < |r| ==> r[k].partitionColumn == tables[k].partitionColumn
    ensures forall k :: 0 <= k < |r| ==> (r[k].isReplicated <==> tables[k].isReplicated && tables[k].name !in dests)
    ensures forall k :: 0 <= k < |r| && tables[k].name !in dests ==> r[k] == tables[k]
  {
    seq(|tables|, k requires 0 <= k < |tables| =>
      if tables[k].name in dests then tables[k].(isReplicated := false) else tables[k])
  }

  function Prefix(dbName: string): string {
    "In database \"" + dbName + "\", "
  }

  function UnknownTableMessage(dbName: string, table: string): string {
    Prefix(dbName) + "\"partition\" element has unknown \"table\" attribute '" + table + "'"
  }

  function UnknownColumnMessage(dbName: string, column: string): string {
    Prefix(dbName) + "\"partition\" element has unknown \"column\" attribute '" + column + "'"
  }

  function NullableMessage(dbName: string, table: string, column: string): string {
    Prefix(dbName) + "Partition column '" + table + "." + column + "' is nullable. " +
    "Partition columns must be constrained \"NOT NULL\"."
  }

  /** The pair names a table, that table (the first match ignoring case) has the
      named column, and that column (again the first match) is NOT NULL. */
  predicate Resolvable(tables: seq<Table>, p: Project.PartitionConfig) {
    match FindTable(tables, p.table)
    case None => false
    case Some(i) =>
      match FindColumn(tables[i], p.column)
      case None => false
      case Some(j) => !tables[i].columns[j].nullable
  }

  /** The table a resolvable pair partitions. */
  function Target(tables: seq<Table>, p: Project.PartitionConfig): (i: nat)
    requires Resolvable(tables, p)
    ensures i < |tables| && Strings.EqualsIgnoreCase(tables[i].name, p.table)
  {
    FindTable(tables, p.table).value
  }

  /** The column a resolvable pair partitions on. */
  function TargetColumn(tables: seq<Table>, p: Project.PartitionConfig): (c: Column)
    requires Resolvable(tables, p)
    ensures c in tables[Target(tables, p)].columns && !c.nullable
    ensures Strings.EqualsIgnoreCase(c.name, p.column)
  {
    var t := tables[Target(tables, p)];
    t.columns[FindColumn(t, p.column).value]
  }

  function ApplyPartition(dbName: string, tables: seq<Table>, p: Project.PartitionConfig): (r: Result<seq<Table>>)
    ensures r.Ok? <==> Resolvable(tables, p)
    ensures FindTable(tables, p.table).None? ==> r == Err(UnknownTableMessage(dbName, p.table))
    ensures FindTable(tables, p.table).Some? && FindColumn(tables[FindTable(tables, p.table).value], p.column).None? ==>
      r == Err(UnknownColumnMessage(dbName, p.column))
    ensures FindTable(tables, p.table).Some? && !Resolvable(tables, p) && FindColumn(tables[FindTable(tables, p.table).value], p.column).Some? ==>
      r == Err(NullableMessage(dbName, p.table, p.column))
    ensures r.Ok? ==> SameShapes(tables, r.value) && OnlyUnreplicates(tables, r.value)
  {
    match FindTable(tables, p.table)
    case None => Err(UnknownTableMessage(dbName, p.table))
    case Some(i) =>
      var t := tables[i];
      match FindColumn(t, p.column)
      case None => Err(UnknownColumnMessage(dbName, p.column))
      case Some(j) =>
        var c := t.columns[j];
        if c.nullable then Err(NullableMessage(dbName, p.table, p.column))
        else Ok(Partitioned(tables, i, c.name))
  }

  /** Table `i` partitioned on the named column, with it and its views'
      destination tables no longer replicated. */
  function Partitioned(tables: seq<Table>, i: nat, column: string): (r: seq<Table>)
    requires i < |tables|
    ensures SameShapes(tables, r) && OnlyUnreplicates(tables, r)
  {
    var t := tables[i];
    MarkNotReplicated(tables[i := t.(partitionColumn := Some(column), isReplicated := false)], ViewDests(t))
  }

  /** What applying one resolvable pair changes: the named table's partition column
      and replication, and the replication of its views' destinations; nothing else. */
  lemma ApplyPartitionEffect(dbName: string, tables: seq<Table>, p: Project.PartitionConfig)
    requires Resolvable(tables, p)
    ensures var r := ApplyPartition(dbName, tables, p).value;
      var i := Target(tables, p);
      && |r| == |tables|
      && r[i].partitionColumn == Some(TargetColumn(tables, p).name)
      && Unreplicated(tables, p, r)
      && (forall k :: 0 <= k < |tables| && k != i ==> r[k].partitionColumn == tables[k].partitionColumn)
      && (forall k :: 0 <= k < |tables| && k != i && tables[k].name !in ViewDests(tables[i]) ==> r[k] == tables[k])
  {
  }

  /** The table a resolvable pair names, and every destination of its views, is
      not replicated in `r`. */
  predicate Unreplicated(tables: seq<Table>, p: Project.PartitionConfig, r: seq<Table>)
    requires Resolvable(tables, p) && |r| == |tables|
  {
    var i := Target(tables, p);
    && !r[i].isReplicated
    && forall m :: 0 <= m < |tables| && tables[m].name in ViewDests(tables[i]) ==> !r[m].isReplicated
  }

  /** Applies the partition pairs in order, stopping at the first that fails. */
  function ApplyPartitions(dbName: string, tables: seq<Table>, ps: seq<Project.PartitionConfig>): (r: Result<seq<Table>>)
    ensures r.Ok? ==> SameShapes(tables, r.value) && OnlyUnreplicates(tables, r.value)
    decreases |ps|
  {
    if |ps| == 0 then Ok(tables)
    else
      match ApplyPartition(dbName, tables, ps[0])
      case Err(e) => Err(e)
      case Ok(tables') =>
        match ApplyPartitions(dbName, tables', ps[1..])
        case Err(e) => Err(e)
        case Ok(result) => Ok(result)
  }

  /** Whether a pair resolves depends only on the shape of the tables, so it is
      unaffected by earlier pairs. */
  lemma ResolvableOfSameShapes(a: seq<Table>, b: seq<Table>, p: Project.PartitionConfig)
    requires SameShapes(a, b)
    ensures Resolvable(a, p) <==> Resolvable(b, p)
    ensures FindTable(a, p.table) == FindTable(b, p.table)
  {
    assert Names(a, TableName) == Names(b, TableName);
    match FindTable(a, p.table)
    case None =>
    case Some(i) =>
      assert Names(a[i].columns, ColumnName) == Names(b[i].columns, ColumnName);
  }

  lemma SameShapesTransitive(a: seq<Table>, b: seq<Table>, c: seq<Table>)
    requires SameShapes(a, b) && SameShapes(b, c)
    ensures SameShapes(a, c)
  {
  }

  /** The pairs are all applied exactly when each of them resolves against the
      tables as the schema defined them. */
  lemma {:induction false} ApplyPartitionsOk(dbName: string, tables: seq<Table>, ps: seq<Project.PartitionConfig>)
    ensures ApplyPartitions(dbName, tables, ps).Ok? <==> forall k :: 0 <= k < |ps| ==> Resolvable(tables, ps[k])
    decreases |ps|
  {
    if |ps| > 0 {
      var first := ApplyPartition(dbName, tables, ps[0]);
      if first.Ok? {
        ApplyPartitionsOk(dbName, first.value, ps[1..]);
        ResolvableTail(tables, first.value, ps);
      } else {
        assert !Resolvable(tables, ps[0]);
      }
    }
  }

  /** After the first pair is applied, the remaining pairs resolve exactly when
      they did against the original tables. */
  lemma ResolvableTail(tables: seq<Table>, tables': seq<Table>, ps: seq<Project.PartitionConfig>)
    requires SameShapes(tables, tables') && |ps| > 0
    ensures (forall k :: 0 <= k < |ps| ==> Resolvable(tables, ps[k])) <==>
            Resolvable(tables, ps[0]) && (forall k :: 0 <= k < |ps[1..]| ==> Resolvable(tables', ps[1..][k]))
  {
    var rest := ps[1..];
    forall k | 0 <= k < |rest| ensures Resolvable(tables', rest[k]) <==> Resolvable(tables, ps[k + 1]) {
      assert rest[k] == ps[k + 1];
      ResolvableOfSameShapes(tables, tables', ps[k + 1]);
    }
    if Resolvable(tables, ps[0]) && forall k :: 0 <= k < |rest| ==> Resolvable(tables', rest[k]) {
      forall k | 0 <= k < |ps| ensures Resolvable(tables, ps[k]) {
        if k > 0 {
          assert Resolvable(tables', rest[k - 1]);
        }
      }
    }
  }

  lemma UnreplicatedStays(tables: seq<Table>, p: Project.PartitionConfig, a: seq<Table>, b: seq<Table>)
    requires Resolvable(tables, p) && |a| == |tables| && |b| == |tables|
    requires Unreplicated(tables, p, a) && OnlyUnreplicates(a, b)
    ensures Unreplicated(tables, p, b)
  {
  }

  lemma UnreplicatedOfSameShapes(tables: seq<Table>, tables': seq<Table>, p: Project.PartitionConfig, r: seq<Table>)
    requires SameShapes(tables, tables') && |r| == |tables|
    requires Resolvable(tables', p) && Unreplicated(tables', p, r)
    ensures Resolvable(tables, p) && Unreplicated(tables, p, r)
  {
    ResolvableOfSameShapes(tables, tables', p);
    var i := Target(tables, p);
    assert Target(tables', p) == i;
    assert ViewDests(tables'[i]) == ViewDests(tables[i]) by {
      assert tables'[i].views == tables[i].views;
    }
    forall m | 0 <= m < |tables| && tables[m].name in ViewDests(tables[i]) ensures !r[m].isReplicated {
      assert tables'[m].name == tables[m].name;
    }
  }

  /** A successful run applied the first pair and then the rest to its result. */
  lemma ApplyPartitionsCons(dbName: string, tables: seq<Table>, ps: seq<Project.PartitionConfig>)
    requires |ps| > 0 && ApplyPartitions(dbName, tables, ps).Ok?
    ensures ApplyPartition(dbName, tables, ps[0]).Ok?
    ensures ApplyPartitions(dbName, ApplyPartition(dbName, tables, ps[0]).value, ps[1..]) == ApplyPartitions(dbName, tables, ps)
  {
  }

  /** Once all pairs are applied, every table a pair names, and every destination
      of that table's views, is no longer replicated. */
  lemma {:induction false} ApplyPartitionsUnreplicated(dbName: string, tables: seq<Table>, ps: seq<Project.PartitionConfig>, r: seq<Table>, p: Project.PartitionConfig)
    requires p in ps
    requires ApplyPartitions(dbName, tables, ps) == Ok(r)
    ensures |r| == |tables| && Resolvable(tables, p)
    ensures Unreplicated(tables, p, r)
    decreases |ps|
  {
    ApplyPartitionsCons(dbName, tables, ps);
    var first := ApplyPartition(dbName, tables, ps[0]).value;
    if p == ps[0] {
      ApplyPartitionEffect(dbName, tables, p);
      UnreplicatedStays(tables, p, first, r);
    } else {
      assert p in ps[1..];
      ApplyPartitionsUnreplicated(dbName, first, ps[1..], r, p);
      UnreplicatedOfSameShapes(tables, first, p, r);
    }
  }

  /** A table no pair names keeps its partition column. */
  lemma {:induction false} ApplyPartitionsUntouched(dbName: string, tables: seq<Table>, ps: seq<Project.PartitionConfig>, m: int)
    requires 0 <= m < |tables|
    requires ApplyPartitions(dbName, tables, ps).Ok?
    requires forall k :: 0 <= k < |ps| ==> !Strings.EqualsIgnoreCase(tables[m].name, ps[k].table)
    ensures ApplyPartitions(dbName, tables, ps).value[m].partitionColumn == tables[m].partitionColumn
    decreases |ps|
  {
    if |ps| > 0 {
      var first := ApplyPartition(dbName, tables, ps[0]).value;
      forall k | 0 <= k < |ps[1..]| ensures !Strings.EqualsIgnoreCase(first[m].name, ps[1..][k].table) {
        assert ps[1..][k] == ps[k + 1];
      }
      ApplyPartitionsUntouched(dbName, first, ps[1..], m);
    }
  }

  /** A pair resolves to the same table and column in tables of the same shape. */
  lemma TargetOfSameShapes(a: seq<Table>, b: seq<Table>, p: Project.PartitionConfig)
    requires SameShapes(a, b) && Resolvable(a, p)
    ensures Resolvable(b, p) && Target(b, p) == Target(a, p)
    ensures TargetColumn(b, p) == TargetColumn(a, p)
  {
    ResolvableOfSameShapes(a, b, p);
    var i := Target(a, p);
    assert Names(a[i].columns, ColumnName) == Names(b[i].columns, ColumnName);
  }

  /** Tables of the same shape find the same table for every name. */
  lemma FindTableOfSameShapes(a: seq<Table>, b: seq<Table>)
    requires SameShapes(a, b)
    ensures forall name :: FindTable(a, name) == FindTable(b, name)
  {
    assert Names(a, TableName) == Names(b, TableName);
  }

  /** The pairs after the first resolve to the same tables after the first is
      applied. */
  lemma FindTableInRest(tables: seq<Table>, tables': seq<Table>, ps: seq<Project.PartitionConfig>)
    requires SameShapes(tables, tables') && |ps| > 0
    ensures forall k :: 0 <= k < |ps[1..]| ==> FindTable(tables', ps[1..][k].table) == FindTable(tables, ps[k + 1].table)
  {
    FindTableOfSameShapes(tables, tables');
    forall k | 0 <= k < |ps[1..]| ensures ps[1..][k] == ps[k + 1] { }
  }

  /** A table that no pair resolves to, and that is no destination of the views of
      a table some pair resolves to, comes out of the loop unchanged. */
  lemma {:induction false} ApplyPartitionsUnchanged(dbName: string, tables: seq<Table>, ps: seq<Project.PartitionConfig>, m: int)
    requires 0 <= m < |tables|
    requires ApplyPartitions(dbName, tables, ps).Ok?
    requires forall k :: 0 <= k < |ps| ==> FindTable(tables, ps[k].table) != Some(m)
    requires forall k :: 0 <= k < |ps| && FindTable(tables, ps[k].table).Some? ==>
      tables[m].name !in ViewDests(tables[FindTable(tables, ps[k].table).value])
    ensures ApplyPartitions(dbName, tables, ps).value[m] == tables[m]
    decreases |ps|
  {
    if |ps| > 0 {
      ApplyPartitionsCons(dbName, tables, ps);
      var first := ApplyPartition(dbName, tables, ps[0]).value;
      ApplyPartitionEffect(dbName, tables, ps[0]);
      assert first[m] == tables[m];
      var rest := ps[1..];
      FindTableInRest(tables, first, ps);
      forall k | 0 <= k < |rest| && FindTable(first, rest[k].table).Some?
        ensures first[m].name !in ViewDests(first[FindTable(first, rest[k].table).value])
      {
        var t := FindTable(first, rest[k].table).value;
        assert ViewDests(first[t]) == ViewDests(tables[t]) by {
          assert first[t].views == tables[t].views;
        }
      }
      ApplyPartitionsUnchanged(dbName, first, rest, m);
    }
  }

  /** A table no pair resolves to keeps its partition column. */
  lemma {:induction false} ApplyPartitionsColumnKept(dbName: string, tables: seq<Table>, ps: seq<Project.PartitionConfig>, m: int)
    requires 0 <= m < |tables|
    requires ApplyPartitions(dbName, tables, ps).Ok?
    requires forall k :: 0 <= k < |ps| ==> FindTable(tables, ps[k].table) != Some(m)
    ensures ApplyPartitions(dbName, tables, ps).value[m].partitionColumn == tables[m].partitionColumn
    decreases |ps|
  {
    if |ps| > 0 {
      ApplyPartitionsCons(dbName, tables, ps);
      var first := ApplyPartition(dbName, tables, ps[0]).value;
      ApplyPartitionEffect(dbName, tables, ps[0]);
      FindTableInRest(tables, first, ps);
      ApplyPartitionsColumnKept(dbName, first, ps[1..], m);
    }
  }

  /** No pair after the `k`th resolves to the table the `k`th resolves to. */
  predicate LastToResolve(tables: seq<Table>, ps: seq<Project.PartitionConfig>, k: int)
    requires 0 <= k < |ps|
  {
    forall j :: k < j < |ps| ==> FindTable(tables, ps[j].table) != FindTable(tables, ps[k].table)
  }

  lemma LastToResolveRest(tables: seq<Table>, tables': seq<Table>, ps: seq<Project.PartitionConfig>, k: int)
    requires SameShapes(tables, tables') && 0 < k < |ps|
    requires LastToResolve(tables, ps, k)
    ensures LastToResolve(tables', ps[1..], k - 1)
  {
    FindTableInRest(tables, tables', ps);
  }

  /** The pair resolves, and in `r` its table is partitioned on its column. */
  predicate PartitionedOn(tables: seq<Table>, p: Project.PartitionConfig, r: seq<Table>) {
    && Resolvable(tables, p)
    && |r| == |tables|
    && r[Target(tables, p)].partitionColumn == Some(TargetColumn(tables, p).name)
  }

  /** A table's final partition column is the column of the last pair that
      resolves to it. */
  lemma {:induction false} ApplyPartitionsLastColumn(dbName: string, tables: seq<Table>, ps: seq<Project.PartitionConfig>, k: int, r: seq<Table>)
    requires ApplyPartitions(dbName, tables, ps) == Ok(r)
    requires 0 <= k < |ps| && LastToResolve(tables, ps, k)
    ensures PartitionedOn(tables, ps[k], r)
    decreases |ps|, 1
  {
    if k == 0 {
      LastColumnHead(dbName, tables, ps, r);
    } else {
      LastColumnLater(dbName, tables, ps, k, r);
    }
  }

  /** A later pair's column, through the tables after the first pair. */
  lemma {:induction false} LastColumnLater(dbName: string, tables: seq<Table>, ps: seq<Project.PartitionConfig>, k: int, r: seq<Table>)
    requires ApplyPartitions(dbName, tables, ps) == Ok(r)
    requires 0 < k < |ps| && LastToResolve(tables, ps, k)
    ensures PartitionedOn(tables, ps[k], r)
    decreases |ps|, 0
  {
    var first := FirstApplied(dbName, tables, ps, r);
    LastToResolveRest(tables, first, ps, k);
    assert ps[1..][k - 1] == ps[k];
    ApplyPartitionsLastColumn(dbName, first, ps[1..], k - 1, r);
    LastColumnOfSameShapes(tables, first, ps[k], r);
  }

  /** The tables after the first pair of a successful run. */
  lemma FirstApplied(dbName: string, tables: seq<Table>, ps: seq<Project.PartitionConfig>, r: seq<Table>) returns (first: seq<Table>)
    requires ApplyPartitions(dbName, tables, ps) == Ok(r) && |ps| > 0
    ensures SameShapes(tables, first) && ApplyPartitions(dbName, first, ps[1..]) == Ok(r)
  {
    ApplyPartitionsCons(dbName, tables, ps);
    first := ApplyPartition(dbName, tables, ps[0]).value;
  }

  lemma LastColumnOfSameShapes(tables: seq<Table>, tables': seq<Table>, p: Project.PartitionConfig, r: seq<Table>)
    requires SameShapes(tables, tables') && PartitionedOn(tables', p, r)
    ensures PartitionedOn(tables, p, r)
  {
    TargetOfSameShapes(tables', tables, p);
  }

  /** The first pair's column survives when no later pair resolves to its table. */
  lemma LastColumnHead(dbName: string, tables: seq<Table>, ps: seq<Project.PartitionConfig>, r: seq<Table>)
    requires ApplyPartitions(dbName, tables, ps) == Ok(r) && |ps| > 0
    requires LastToResolve(tables, ps, 0)
    ensures PartitionedOn(tables, ps[0], r)
  {
    ApplyPartitionsCons(dbName, tables, ps);
    var first := ApplyPartition(dbName, tables, ps[0]).value;
    ApplyPartitionEffect(dbName, tables, ps[0]);
    FindTableInRest(tables, first, ps);
    ApplyPartitionsColumnKept(dbName, first, ps[1..], Target(tables, ps[0]));
  }
}
