/** Two text artifacts derived from a compiled catalog: the explain-plan files (one
    per statement, named after its procedure and statement, later statements
    overwriting earlier ones of the same name) and the statement lines of the
    success summary, whose SQL is cut to 80 characters. */
module Artifacts {
  import opened Wrappers
  import Strings
  import Decimal
  import opened Catalog

  const PlanSuffix: string := ".txt"

  /** `Proc_Stmt.txt`. */
  function PlanFileName(procName: string, stmtName: string): (r: string)
    ensures |r| == |procName| + 1 + |stmtName| + |PlanSuffix|
    ensures Strings.EndsWith(r, PlanSuffix)
  {
    var r := procName + "_" + stmtName + PlanSuffix;
    assert r[|r| - |PlanSuffix|..] == PlanSuffix;
    r
  }

  /** The file name begins with the procedure name and an underscore, and ends with
      the statement name and `.txt`. */
  lemma PlanFileNameParts(procName: string, stmtName: string)
    ensures Strings.StartsWith(PlanFileName(procName, stmtName), procName + "_")
    ensures Strings.EndsWith(PlanFileName(procName, stmtName), stmtName + PlanSuffix)
  {
    var n := PlanFileName(procName, stmtName);
    assert n[..|procName| + 1] == procName + "_";
    assert n[|n| - |stmtName + PlanSuffix|..] == stmtName + PlanSuffix;
  }

  /** Procedure names without underscores give each (procedure, statement) pair its
      own file. */
  lemma PlanFileNameInjective(p1: string, s1: string, p2: string, s2: string)
    requires '_' !in p1 && '_' !in p2
    requires PlanFileName(p1, s1) == PlanFileName(p2, s2)
    ensures p1 == p2 && s1 == s2
  {
    var n := PlanFileName(p1, s1);
    assert n == p1 + "_" + (s1 + PlanSuffix);
    assert n == p2 + "_" + (s2 + PlanSuffix);
    FirstUnderscore(p1, s1 + PlanSuffix);
    FirstUnderscore(p2, s2 + PlanSuffix);
    assert |p1| == |p2|;
    assert p1 == n[..|p1|] == p2;
    assert s1 == n[|p1| + 1..|n| - |PlanSuffix|] == s2;
  }

  lemma FirstUnderscore(p: string, rest: string)
    requires '_' !in p
    ensures '_' in p + "_" + rest
    ensures Strings.IndexOf(p + "_" + rest, '_') == |p|
  {
    var n := p + "_" + rest;
    assert n[|p|] == '_';
    assert forall j :: 0 <= j < |p| ==> n[j] == p[j];
    Strings.IndexOfUnique(n, '_', |p|);
  }

  /** With an underscore in a procedure name two different statements can share a
      file: `A_B` statement `C` and `A` statement `B_C` both write `A_B_C.txt`. */
  lemma PlanFileNameCollision(p: string, x: string, s: string)
    ensures PlanFileName(p + "_" + x, s) == PlanFileName(p, x + "_" + s)
  {
  }

  /** The first three lines of an explain-plan file: the SQL, the cost and the
      `PLAN:` heading, followed by an empty line. */
  function PlanHead(s: Statement): string {
    "SQL: " + s.sqlText + "\n" + "COST: " + Decimal.IntToString(s.cost) + "\n" + "PLAN:\n\n"
  }

  /** The lines of an explain-plan file after the SQL line. */
  function CostAndPlan(s: Statement): string {
    "COST: " + Decimal.IntToString(s.cost) + "\n" + "PLAN:\n\n" + s.explainPlan + "\n"
  }

  /** The text of one explain-plan file: the SQL, the cost and the plan text. */
  function PlanText(s: Statement): (r: string)
    ensures Strings.StartsWith(r, "SQL: " + s.sqlText + "\n")
    ensures Strings.StartsWith(r, PlanHead(s))
    ensures Strings.EndsWith(r, s.explainPlan + "\n")
    ensures |r| == |PlanHead(s)| + |s.explainPlan| + 1
  {
    var head := "SQL: " + s.sqlText + "\n";
    var tail := s.explainPlan + "\n";
    var r := head + CostAndPlan(s);
    assert r == PlanHead(s) + tail;
    assert r[..|head|] == head;
    assert r[..|PlanHead(s)|] == PlanHead(s);
    assert r[|r| - |tail|..] == tail;
    r
  }

  /** What an explain-plan file says about its statement. */
  datatype PlanParts = PlanParts(sqlText: string, cost: int, explainPlan: string)

  /** Reads `tag` and the text after it up to the first newline: that text, and
      what follows the newline. */
  function TakeLine(t: string, tag: string): Option<(string, string)> {
    if !Strings.StartsWith(t, tag) then None else SplitAtNewline(t[|tag|..])
  }

  /** The text up to the first newline, and what follows the newline. */
  function SplitAtNewline(u: string): Option<(string, string)> {
    if '\n' !in u then None
    else
      var nl := Strings.IndexOf(u, '\n');
      Some((u[..nl], u[nl + 1..]))
  }

  lemma TakeLineOf(tag: string, line: string, rest: string)
    requires '\n' !in line
    ensures TakeLine(tag + line + "\n" + rest, tag) == Some((line, rest))
  {
    var t := tag + line + "\n" + rest;
    assert t[..|tag|] == tag;
    assert t[|tag|..] == line + "\n" + rest;
    SplitAtNewlineOf(line, rest);
  }

  lemma SplitAtNewlineOf(line: string, rest: string)
    requires '\n' !in line
    ensures SplitAtNewline(line + "\n" + rest) == Some((line, rest))
  {
    var u := line + "\n" + rest;
    assert u[|line|] == '\n';
    assert forall j :: 0 <= j < |line| ==> u[j] == line[j];
    Strings.IndexOfUnique(u, '\n', |line|);
    assert u[..|line|] == line;
    assert u[|line| + 1..] == rest;
  }

  /** Reads an explain-plan file back: the SQL line, the cost line, then the
      `PLAN:` heading and an empty line, and the plan up to the final newline. */
  function ParsePlanText(t: string): Option<PlanParts> {
    match TakeLine(t, "SQL: ")
    case None => None
    case Some((sql, rest)) => ParseCostAndPlan(sql, rest)
  }

  /** Reads the `COST:` line and the plan that follows it. */
  function ParseCostAndPlan(sql: string, t: string): Option<PlanParts> {
    match TakeLine(t, "COST: ")
    case None => None
    case Some((costText, tail)) =>
      match Decimal.ParseInt(costText)
      case None => None
      case Some(cost) => ParsePlanBody(sql, cost, tail)
  }

  /** Reads the `PLAN:` heading, the blank line and the plan up to the final newline. */
  function ParsePlanBody(sql: string, cost: int, t: string): Option<PlanParts> {
    if Strings.StartsWith(t, "PLAN:\n\n") && |t| >= 8 && t[|t| - 1] == '\n'
    then Some(PlanParts(sql, cost, t[7..|t| - 1]))
    else None
  }

  /** An explain-plan file gives back the statement's SQL, cost and plan, for SQL
      that fits on one line. */
  lemma ParsePlanTextOfPlanText(s: Statement)
    requires '\n' !in s.sqlText && Decimal.IsInt32(s.cost)
    ensures ParsePlanText(PlanText(s)) == Some(PlanParts(s.sqlText, s.cost, s.explainPlan))
  {
    TakeLineOf("SQL: ", s.sqlText, CostAndPlan(s));
    ParseCostAndPlanOf(s);
  }

  lemma ParseCostAndPlanOf(s: Statement)
    requires Decimal.IsInt32(s.cost)
    ensures ParseCostAndPlan(s.sqlText, CostAndPlan(s)) == Some(PlanParts(s.sqlText, s.cost, s.explainPlan))
  {
    var sql, cost, plan := s.sqlText, s.cost, s.explainPlan;
    var text := Decimal.IntToString(cost);
    var tail := "PLAN:\n\n" + plan + "\n";
    var t := "COST: " + text + "\n" + tail;
    assert t == "COST: " + text + "\n" + "PLAN:\n\n" + plan + "\n";
    Decimal.IntToStringNoNewline(cost);
    TakeLineOf("COST: ", text, tail);
    Decimal.ParseIntOfIntToString(cost);
    ParsePlanBodyOf(sql, cost, plan);
    assert ParseCostAndPlan(sql, t) == ParsePlanBody(sql, cost, tail);
  }

  lemma ParsePlanBodyOf(sql: string, cost: int, plan: string)
    ensures ParsePlanBody(sql, cost, "PLAN:\n\n" + plan + "\n") == Some(PlanParts(sql, cost, plan))
  {
    var t := "PLAN:\n\n" + plan + "\n";
    assert t[..7] == "PLAN:\n\n";
    assert t[7..|t| - 1] == plan;
  }

  /** A statement together with the name of the procedure that owns it. */
  datatype PlanSource = PlanSource(procName: string, stmt: Statement)

  function FileOf(e: PlanSource): string {
    PlanFileName(e.procName, e.stmt.name)
  }

  /** The statements of one procedure, each with the procedure's name. */
  function Own(p: Procedure): (r: seq<PlanSource>)
    ensures |r| == |p.statements|
    ensures forall j :: 0 <= j < |r| ==> r[j] == PlanSource(p.name, p.statements[j])
  {
    seq(|p.statements|, j requires 0 <= j < |p.statements| => PlanSource(p.name, p.statements[j]))
  }

  /** The statements of the procedures in iteration order, each with its procedure's
      name. */
  function PlanSources(procs: seq<Procedure>): seq<PlanSource> {
    if |procs| == 0 then [] else PlanSources(procs[..|procs| - 1]) + Own(procs[|procs| - 1])
  }

  /** Every source names a statement of one of the procedures. */
  lemma {:induction false} PlanSourceOrigin(procs: seq<Procedure>, k: int) returns (i: int, j: int)
    requires 0 <= k < |PlanSources(procs)|
    ensures 0 <= i < |procs| && 0 <= j < |procs[i].statements|
    ensures PlanSources(procs)[k] == PlanSource(procs[i].name, procs[i].statements[j])
  {
    var front := procs[..|procs| - 1];
    var fs := PlanSources(front);
    assert PlanSources(procs) == fs + Own(procs[|procs| - 1]);
    if k < |fs| {
      i, j := PlanSourceOrigin(front, k);
      assert front[i] == procs[i];
    } else {
      i, j := |procs| - 1, k - |fs|;
    }
  }

  /** Every statement of every procedure has its source. */
  lemma {:induction false} PlanSourceOf(procs: seq<Procedure>, i: int, j: int) returns (k: int)
    requires 0 <= i < |procs| && 0 <= j < |procs[i].statements|
    ensures 0 <= k < |PlanSources(procs)|
    ensures PlanSources(procs)[k] == PlanSource(procs[i].name, procs[i].statements[j])
  {
    var front := procs[..|procs| - 1];
    var fs := PlanSources(front);
    assert PlanSources(procs) == fs + Own(procs[|procs| - 1]);
    if i < |procs| - 1 {
      assert front[i] == procs[i];
      k := PlanSourceOf(front, i, j);
    } else {
      k := |fs| + j;
    }
  }

  /** The files in the order they are put: a later file of the same name replaces
      the earlier one. */
  function PutAll(es: seq<PlanSource>): (r: map<string, string>)
    ensures |r| <= |es|
    ensures forall name :: name in r ==> Strings.EndsWith(name, PlanSuffix)
  {
    if |es| == 0 then map[]
    else
      var e := es[|es| - 1];
      PutAll(es[..|es| - 1])[FileOf(e) := PlanText(e.stmt)]
  }

  /** The explain-plan files of all statements of all procedures. */
  function ExplainPlans(procs: seq<Procedure>): (r: map<string, string>)
    ensures |r| <= |PlanSources(procs)|
    ensures forall name :: name in r ==> Strings.EndsWith(name, PlanSuffix)
  {
    PutAll(PlanSources(procs))
  }

  /** Every file was put for some source. */
  lemma {:induction false} PutAllKeySource(es: seq<PlanSource>, name: string) returns (k: int)
    requires name in PutAll(es)
    ensures 0 <= k < |es| && FileOf(es[k]) == name
  {
    var front := es[..|es| - 1];
    if FileOf(es[|es| - 1]) == name {
      k := |es| - 1;
    } else {
      k := PutAllKeySource(front, name);
      assert front[k] == es[k];
    }
  }

  /** Every source's file is put. */
  lemma {:induction false} PutAllHasKey(es: seq<PlanSource>, k: int)
    requires 0 <= k < |es|
    ensures FileOf(es[k]) in PutAll(es)
  {
    if k < |es| - 1 {
      var front := es[..|es| - 1];
      assert front[k] == es[k];
      PutAllHasKey(front, k);
    }
  }

  /** There is an explain-plan file exactly for the file name of each statement
      of each procedure. */
  lemma ExplainPlansKeys(procs: seq<Procedure>, name: string)
    ensures name in ExplainPlans(procs) <==>
      exists i, j :: 0 <= i < |procs| && 0 <= j < |procs[i].statements| && PlanFileName(procs[i].name, procs[i].statements[j].name) == name
  {
    var es := PlanSources(procs);
    if name in ExplainPlans(procs) {
      var k := PutAllKeySource(es, name);
      var i, j := PlanSourceOrigin(procs, k);
      assert PlanFileName(procs[i].name, procs[i].statements[j].name) == name;
    }
    if exists i, j :: 0 <= i < |procs| && 0 <= j < |procs[i].statements| && PlanFileName(procs[i].name, procs[i].statements[j].name) == name {
      var i, j :| 0 <= i < |procs| && 0 <= j < |procs[i].statements| && PlanFileName(procs[i].name, procs[i].statements[j].name) == name;
      var k := PlanSourceOf(procs, i, j);
      PutAllHasKey(es, k);
    }
  }

  /** A file holds the plan of the last statement written under its name. */
  lemma {:induction false} PutAllLastWins(es: seq<PlanSource>, k: int)
    requires 0 <= k < |es|
    requires forall m :: k < m < |es| ==> FileOf(es[m]) != FileOf(es[k])
    ensures FileOf(es[k]) in PutAll(es)
    ensures PutAll(es)[FileOf(es[k])] == PlanText(es[k].stmt)
  {
    if k < |es| - 1 {
      var front := es[..|es| - 1];
      assert front[k] == es[k];
      forall m | k < m < |front| ensures FileOf(front[m]) != FileOf(front[k]) {
        assert front[m] == es[m];
      }
      PutAllLastWins(front, k);
    }
  }

  /** When no procedure name holds an underscore and each procedure's statements
      are distinctly named, every statement's plan is in its own file. */
  lemma DistinctFiles(es: seq<PlanSource>, k: int, m: int)
    requires 0 <= k < m < |es|
    requires '_' !in es[k].procName && '_' !in es[m].procName
    requires es[k].procName != es[m].procName || es[k].stmt.name != es[m].stmt.name
    ensures FileOf(es[k]) != FileOf(es[m])
  {
    if FileOf(es[k]) == FileOf(es[m]) {
      PlanFileNameInjective(es[k].procName, es[k].stmt.name, es[m].procName, es[m].stmt.name);
    }
  }

  /** The widest SQL text the success summary prints in full. */
  const SummaryWidth: nat := 80

  /** The SQL as the summary shows it: in full up to 80 characters, otherwise its
      first 80 characters followed by `...`. */
  function SummarySql(sql: string): (r: string)
    ensures |r| <= SummaryWidth + 3
    ensures |sql| <= SummaryWidth ==> r == sql
    ensures |sql| > SummaryWidth ==>
      && |r| == SummaryWidth + 3
      && r[..SummaryWidth] == sql[..SummaryWidth]
      && Strings.EndsWith(r, "...")
  {
    if |sql| > SummaryWidth then sql[..SummaryWidth] + "..." else sql
  }

  /** A statement's line in the summary: two spaces of indent, then the SQL. */
  function StatementLine(sql: string): (r: string)
    ensures |r| <= SummaryWidth + 5
    ensures Strings.StartsWith(r, "  ")
    ensures |sql| <= SummaryWidth ==> r[2..] == sql
    ensures |sql| > SummaryWidth ==>
      && |r| == SummaryWidth + 5
      && r[2..SummaryWidth + 2] == sql[..SummaryWidth]
      && r[SummaryWidth + 2..] == "..."
  {
    var shown := SummarySql(sql);
    assert Strings.EndsWith(shown, "...") ==> shown[|shown| - 3..] == "...";
    "  " + shown
  }

  /** Texts the summary prints in full are told apart by their lines. */
  lemma StatementLineShortInjective(a: string, b: string)
    requires |a| <= SummaryWidth && |b| <= SummaryWidth
    requires StatementLine(a) == StatementLine(b)
    ensures a == b
  {
    assert a == StatementLine(a)[2..];
    assert b == StatementLine(b)[2..];
  }

  /** Texts that agree in their first 80 characters and are longer than that
      print the same line. */
  lemma StatementLineDropsTail(a: string, b: string)
    requires |a| > SummaryWidth && |b| > SummaryWidth
    requires a[..SummaryWidth] == b[..SummaryWidth]
    ensures StatementLine(a) == StatementLine(b)
  {
  }

  /** No two statements, in iteration order, carry the same procedure and
      statement name. */
  predicate DistinctSources(es: seq<PlanSource>) {
    forall a, b :: 0 <= a < b < |es| ==> es[a].procName != es[b].procName || es[a].stmt.name != es[b].stmt.name
  }

  /** With underscore-free procedure names and distinct sources, the file of every
      statement holds that statement's own plan. */
  lemma ExplainPlansOwnFile(procs: seq<Procedure>, i: int, j: int)
    requires 0 <= i < |procs| && 0 <= j < |procs[i].statements|
    requires forall n :: 0 <= n < |procs| ==> '_' !in procs[n].name
    requires DistinctSources(PlanSources(procs))
    ensures var s := procs[i].statements[j];
      var name := PlanFileName(procs[i].name, s.name);
      name in ExplainPlans(procs) && ExplainPlans(procs)[name] == PlanText(s)
  {
    var es := PlanSources(procs);
    var k := PlanSourceOf(procs, i, j);
    forall m | k < m < |es| ensures FileOf(es[m]) != FileOf(es[k]) {
      var i', j' := PlanSourceOrigin(procs, m);
      DistinctFiles(es, k, m);
    }
    PutAllLastWins(es, k);
  }
}
