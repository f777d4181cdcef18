/**
 * `QueryMigrationProcessor`: one object per migrated query, shared by every
 * branch of a set operation. Its methods update the fields in place; each
 * method's new state is the corresponding transition of `ProcessorSpec`
 * applied to the old state.
 */
module Processor {
  import opened Text
  import opened LinkedMap
  import opened MappingEntries
  import opened SqlTree
  import P = ProcessorSpec

  class QueryMigrationProcessor {
    const fieldMappings: map<string, MappingEntry>
    const tableMappings: map<string, seq<MappingEntry>>
    var aliasToTable: map<string, string>
    var aliasToOriginal: map<string, string>
    var tableToNew: map<string, string>
    var hasChanges: bool
    var replacements: Entries

    function Idx(): P.Index {
      P.Index(fieldMappings, tableMappings)
    }

    function State(): P.ProcState
      reads this
    {
      P.ProcState(aliasToTable, aliasToOriginal, tableToNew, hasChanges, replacements)
    }

    constructor (fieldMappings: map<string, MappingEntry>, tableMappings: map<string, seq<MappingEntry>>)
      ensures Idx() == P.Index(fieldMappings, tableMappings)
      ensures State() == P.Initial
    {
      this.fieldMappings := fieldMappings;
      this.tableMappings := tableMappings;
      aliasToTable := map[];
      aliasToOriginal := map[];
      tableToNew := map[];
      hasChanges := false;
      replacements := [];
    }

    method ProcessSelect(s: Select)
      modifies this
      ensures State() == P.ProcessSelect(Idx(), old(State()), s)
      decreases s, 1
    {
      match s
      case Plain(ps) => ProcessPlainSelect(ps);
      case SetOp(selects) =>
        ghost var st0 := State();
        var i := 0;
        while i < |selects|
          invariant 0 <= i <= |selects|
          invariant State() == P.ProcessSelects(Idx(), st0, selects[..i])
        {
          assert selects[..i + 1][..i] == selects[..i];
          ProcessSelect(selects[i]);
          i := i + 1;
        }
        assert selects[..i] == selects;
      case OtherSelect =>
    }

    method ProcessPlainSelect(ps: PlainSelect)
      modifies this
      ensures State() == P.ProcessPlainSelect(Idx(), old(State()), ps)
    {
      CollectTables(ps);
      AnalyzeFieldUsage(ps);
      UpdateTables(ps);
      UpdateColumns(ps);
    }

    method CollectTables(ps: PlainSelect)
      modifies this
      ensures State() == P.CollectTables(old(State()), ps)
    {
      if ps.from.Some? {
        CollectFromItem(ps.from.value);
      }
      ghost var st0 := State();
      var i := 0;
      while i < |ps.joins|
        invariant 0 <= i <= |ps.joins|
        invariant State() == P.CollectJoins(st0, ps.joins[..i])
      {
        assert ps.joins[..i + 1][..i] == ps.joins[..i];
        CollectFromItem(ps.joins[i].right);
        i := i + 1;
      }
      assert ps.joins[..i] == ps.joins;
    }

    method CollectFromItem(item: FromItem)
      modifies this
      ensures State() == P.CollectFromItem(old(State()), item)
    {
      if item.TableRef? {
        var tableName := item.name;
        if item.alias.Some? {
          aliasToTable := aliasToTable[Lower(item.alias.value) := Lower(tableName)];
          aliasToOriginal := aliasToOriginal[Lower(item.alias.value) := Lower(tableName)];
        } else {
          aliasToTable := aliasToTable[Lower(tableName) := Lower(tableName)];
          aliasToOriginal := aliasToOriginal[Lower(tableName) := Lower(tableName)];
        }
      }
    }

    method AnalyzeFieldUsage(ps: PlainSelect)
      modifies this
      ensures State() == P.WalkClauses(Idx(), P.Analyze, old(State()), ps)
    {
      AnalyzeExpressions(ps.items);
      if ps.where.Some? {
        AnalyzeExpression(ps.where.value);
      }
      AnalyzeExpressions(ps.groupBy);
      AnalyzeExpressions(ps.orderBy);
    }

    /** The `for (Expression e : list) analyzeExpression(e)` loops. */
    method AnalyzeExpressions(es: seq<Expr>)
      modifies this
      ensures State() == P.WalkExprs(Idx(), P.Analyze, old(State()), es)
      decreases es, 0
    {
      ghost var st0 := State();
      var i := 0;
      while i < |es|
        invariant 0 <= i <= |es|
        invariant State() == P.WalkExprs(Idx(), P.Analyze, st0, es[..i])
      {
        assert es[..i + 1][..i] == es[..i];
        AnalyzeExpression(es[i]);
        i := i + 1;
      }
      assert es[..i] == es;
    }

    method AnalyzeExpression(e: Expr)
      modifies this
      ensures State() == P.WalkExpr(Idx(), P.Analyze, old(State()), e)
      decreases e, 1
    {
      match e
      case Column(t, n) => AnalyzeColumn(t, n);
      case Binary(l, r) =>
        AnalyzeExpression(l);
        AnalyzeExpression(r);
      case ParenList(items) => AnalyzeExpressions(items);
      case Func(params) => AnalyzeExpressions(params);
      case Between(a, lo, hi) =>
        AnalyzeExpression(a);
        AnalyzeExpression(lo);
        AnalyzeExpression(hi);
      case In(l) => AnalyzeExpression(l);
      case Other =>
    }

    method AnalyzeColumn(table: Option<string>, column: string)
      modifies this
      ensures State() == P.AnalyzeColumn(Idx(), old(State()), table, column)
    {
      if table.None? {
        return;
      }
      var tableOrAlias := Lower(table.value);
      var columnName := Lower(column);
      var actualTable := P.Resolve(aliasToTable, tableOrAlias);
      var lookupKey := actualTable + "." + columnName;
      if lookupKey in fieldMappings {
        tableToNew := P.PutNullable(tableToNew, actualTable, fieldMappings[lookupKey].newTable);
      } else if actualTable in tableMappings && tableMappings[actualTable] != [] {
        tableToNew := P.PutIfAbsentNullable(tableToNew, actualTable, tableMappings[actualTable][0].newTable);
      }
    }

    method UpdateTables(ps: PlainSelect)
      modifies this
      ensures State() == P.UpdateTables(Idx(), old(State()), ps)
    {
      if ps.from.Some? && ps.from.value.TableRef? {
        UpdateTable(ps.from.value.name, ps.from.value.alias);
      }
      ghost var st0 := State();
      var i := 0;
      while i < |ps.joins|
        invariant 0 <= i <= |ps.joins|
        invariant State() == P.UpdateJoins(Idx(), st0, ps.joins[..i])
      {
        assert ps.joins[..i + 1][..i] == ps.joins[..i];
        var join := ps.joins[i];
        if join.right.TableRef? {
          UpdateTable(join.right.name, join.right.alias);
        }
        UpdateExpressionList(join.on);
        i := i + 1;
      }
      assert ps.joins[..i] == ps.joins;
    }

    method UpdateTable(name: string, alias: Option<string>)
      modifies this
      ensures State() == P.UpdateTable(old(State()), name, alias)
    {
      var tableName := Lower(name);
      if tableName in tableToNew {
        var newTableName := tableToNew[tableName];
        replacements := Put(replacements, tableName, newTableName);
        hasChanges := true;
        if alias.Some? {
          aliasToTable := aliasToTable[Lower(alias.value) := Lower(newTableName)];
        } else {
          aliasToTable := aliasToTable[Lower(newTableName) := Lower(newTableName)];
          aliasToOriginal := aliasToOriginal[Lower(newTableName) := tableName];
        }
      }
    }

    method UpdateColumns(ps: PlainSelect)
      modifies this
      ensures State() == P.WalkClauses(Idx(), P.Update, old(State()), ps)
    {
      UpdateExpressionList(ps.items);
      if ps.where.Some? {
        UpdateExpressionColumns(ps.where.value);
      }
      UpdateExpressionList(ps.groupBy);
      UpdateExpressionList(ps.orderBy);
    }

    /** The `for (Expression e : list) updateExpressionColumns(e)` loops. */
    method UpdateExpressionList(es: seq<Expr>)
      modifies this
      ensures State() == P.WalkExprs(Idx(), P.Update, old(State()), es)
      decreases es, 0
    {
      ghost var st0 := State();
      var i := 0;
      while i < |es|
        invariant 0 <= i <= |es|
        invariant State() == P.WalkExprs(Idx(), P.Update, st0, es[..i])
      {
        assert es[..i + 1][..i] == es[..i];
        UpdateExpressionColumns(es[i]);
        i := i + 1;
      }
      assert es[..i] == es;
    }

    method UpdateExpressionColumns(e: Expr)
      modifies this
      ensures State() == P.WalkExpr(Idx(), P.Update, old(State()), e)
      decreases e, 1
    {
      match e
      case Column(t, n) => UpdateColumn(t, n);
      case Binary(l, r) =>
        UpdateExpressionColumns(l);
        UpdateExpressionColumns(r);
      case ParenList(items) => UpdateExpressionList(items);
      case Func(params) => UpdateExpressionList(params);
      case Between(a, lo, hi) =>
        UpdateExpressionColumns(a);
        UpdateExpressionColumns(lo);
        UpdateExpressionColumns(hi);
      case In(l) => UpdateExpressionColumns(l);
      case Other =>
    }

    method UpdateColumn(table: Option<string>, column: string)
      modifies this
      ensures State() == P.UpdateColumn(Idx(), old(State()), table, column)
    {
      if table.None? {
        return;
      }
      var tableOrAlias := Lower(table.value);
      var columnName := Lower(column);
      var originalTable := P.Resolve(aliasToOriginal, tableOrAlias);
      var oldRef := tableOrAlias + "." + columnName;
      if originalTable in tableToNew {
        replacements := Put(replacements, oldRef, P.TableOnlyRef(tableToNew[originalTable], column));
        hasChanges := true;
      }
      var lookupKey := originalTable + "." + columnName;
      if lookupKey in fieldMappings {
        replacements := Put(replacements, oldRef, P.FieldRef(fieldMappings[lookupKey], table.value));
        hasChanges := true;
      }
    }
  }
}
