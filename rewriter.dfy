/**
 * The formatting-preserving text rewriter as the Java code runs it: loops that
 * reassign `result`, and the find / appendReplacement / appendTail loop of
 * step 4. Each method is proved equal to its function in RewriterSpec.
 */
module Rewriter {
  import opened Text
  import opened LinkedMap
  import opened MappingEntries
  import opened Naming
  import opened Patterns
  import opened RewriterSpec

  /** The loop that sorts the replacement pairs into table, column and alias maps. */
  method ClassifyReplacements(pairs: Entries) returns (c: Replacements)
    ensures c == Classify(pairs)
  {
    var tables: Entries := [];
    var columns: Entries := [];
    var aliases: Entries := [];
    for i := 0 to |pairs|
      invariant Replacements(tables, columns, aliases) == Classify(pairs[..i])
    {
      assert pairs[..i + 1][..i] == pairs[..i];
      var (oldValue, newValue) := pairs[i];
      if '.' in oldValue && '.' in newValue {
        columns := Put(columns, oldValue, newValue);
        var (oldTable, oldColumn) := SplitFirstDot(oldValue);
        var (newTable, newColumn) := SplitFirstDot(newValue);
        columns := Put(columns, Capitalize(oldTable) + Capitalize(oldColumn), Capitalize(newTable) + Capitalize(newColumn));
      } else if '.' !in oldValue {
        tables := Put(tables, oldValue, newValue);
        aliases := Put(aliases, Lower(oldValue), GenerateAlias(newValue));
      }
    }
    assert pairs[..|pairs|] == pairs;
    c := Replacements(tables, columns, aliases);
  }

  /** Step 1: the alias each replaced table has in its first FROM/JOIN clause of `query`. */
  method FindActualAliases(query: string, tables: Entries, aliases: Entries) returns (info: AliasInfo)
    requires AliasesCover(tables, aliases)
    ensures info == FindAliases(query, tables, aliases)
  {
    var aliasToTable: map<string, string> := map[];
    var oldToNew: map<string, string> := map[];
    var newToTable: map<string, string> := map[];
    for i := 0 to |tables|
      invariant AliasInfo(aliasToTable, oldToNew, newToTable) == FindAliases(query, tables[..i], aliases)
    {
      assert tables[..i + 1][..i] == tables[..i];
      var (oldTable, newTable) := tables[i];
      var newAlias := Get(aliases, Lower(oldTable)).value;
      var found := FirstAliasedMatch(query, oldTable, 0);
      if found.Some? {
        var m := found.value.1;
        var actualOldAlias := query[m.aliasStart..m.end];
        aliasToTable := aliasToTable[Lower(actualOldAlias) := oldTable];
        oldToNew := oldToNew[Lower(actualOldAlias) := newAlias];
        newToTable := newToTable[Lower(newAlias) := newTable];
      }
    }
    assert tables[..|tables|] == tables;
    info := AliasInfo(aliasToTable, oldToNew, newToTable);
  }

  /** Step 2: every table's FROM/JOIN clauses, aliased ones first. */
  method ReplaceTableNames(query: string, tables: Entries, aliases: Entries) returns (result: string)
    requires AliasesCover(tables, aliases)
    ensures result == ReplaceTables(query, tables, aliases)
  {
    result := query;
    for i := 0 to |tables|
      invariant result == ReplaceTables(query, tables[..i], aliases)
    {
      assert tables[..i + 1][..i] == tables[..i];
      var (oldTable, newTable) := tables[i];
      var newAlias := Get(aliases, Lower(oldTable)).value;
      result := ReplaceAll(FromJoinAliased(oldTable), " " + newTable + " " + newAlias, result);
      result := ReplaceAll(FromJoinBare(oldTable), " " + newTable, result);
    }
    assert tables[..|tables|] == tables;
  }

  /** The inner loop of step 3: `oldAlias.oldColumn` for every alias found for `oldTable`. */
  method ReplaceAliasColumnRefs(query: string, info: AliasInfo, aliasOrder: seq<string>, oldTable: string,
                                oldColumn: string, target: string) returns (result: string)
    ensures result == ReplaceAliasColumns(query, info, aliasOrder, oldTable, oldColumn, target)
  {
    result := query;
    for j := 0 to |aliasOrder|
      invariant result == ReplaceAliasColumns(query, info, aliasOrder[..j], oldTable, oldColumn, target)
    {
      assert aliasOrder[..j + 1][..j] == aliasOrder[..j];
      var oldAlias := aliasOrder[j];
      if oldAlias in info.aliasToTable && EqualsIgnoreCase(info.aliasToTable[oldAlias], oldTable) {
        result := ReplaceAll(QualifiedColumn(oldAlias, oldColumn), target, result);
      }
    }
    assert aliasOrder[..|aliasOrder|] == aliasOrder;
  }

  /** Step 3 for one column entry. */
  method ReplaceColumnRefs(query: string, info: AliasInfo, aliases: Entries, order: Order,
                           oldQualified: string, newQualified: string) returns (result: string)
    ensures result == ReplaceColumn(query, info, aliases, order, oldQualified, newQualified)
  {
    result := query;
    if '.' in oldQualified && '.' in newQualified {
      var (oldTable, oldColumn) := SplitFirstDot(oldQualified);
      var (newTable, newColumn) := SplitFirstDot(newQualified);
      var newAlias: string;
      var found := Get(aliases, Lower(oldTable));
      if found.Some? {
        newAlias := found.value;
      } else {
        newAlias := GenerateAlias(newTable);
      }
      var target := newAlias + "." + newColumn;
      result := ReplaceAliasColumnRefs(result, info, order(info.oldToNew.Keys), oldTable, oldColumn, target);
      result := ReplaceAll(QualifiedColumn(oldTable, oldColumn), target, result);
      result := ReplaceAll(QualifiedColumn(newTable, newColumn), target, result);
    }
  }

  /** Step 3: the sorted column entries, longest key first. */
  method ReplaceColumnReferences(query: string, info: AliasInfo, aliases: Entries, order: Order, sorted: Entries)
    returns (result: string)
    ensures result == ReplaceColumns(query, info, aliases, order, sorted)
  {
    result := query;
    for i := 0 to |sorted|
      invariant result == ReplaceColumns(query, info, aliases, order, sorted[..i])
    {
      assert sorted[..i + 1][..i] == sorted[..i];
      result := ReplaceColumnRefs(result, info, aliases, order, sorted[i].0, sorted[i].1);
    }
    assert sorted[..|sorted|] == sorted;
  }

  /** Step 4: the find / appendReplacement / appendTail loop over `alias.column AS name`. */
  method RewriteAsClauses(query: string, newToTable: map<string, string>) returns (result: string)
    ensures result == AsRewrite(query, newToTable)
  {
    var sb := "";
    var appendPos: nat := 0;
    var q: nat := 0;
    while q < |query|
      invariant appendPos <= q <= |query|
      invariant NoAsClauseIn(query, appendPos, q)
      invariant sb + AsRewriteFrom(query, appendPos, newToTable) == AsRewrite(query, newToTable)
      decreases |query| - q
    {
      var found := AsClauseAt(query, q);
      if found.Some? {
        AsStepMatch(query, sb, appendPos, q, newToTable);
        var c := found.value;
        sb := sb + (query[appendPos..q] + AsReplacement(query, q, c, newToTable));
        appendPos := c.end;
        q := c.end;
      } else {
        NoAsClauseExtend(query, appendPos, q);
        q := q + 1;
      }
    }
    AsRewriteFromTail(query, appendPos, newToTable);
    result := sb + query[appendPos..];
  }

  /** Steps 1 to 4 with the table and column entries in the given iteration orders. */
  method RunSteps(query: string, c: Replacements, tables: Entries, columns: Entries, order: Order) returns (result: string)
    requires AliasesCover(tables, c.aliases)
    ensures result == Rewrite(query, c, tables, columns, order)
  {
    var info := FindActualAliases(query, tables, c.aliases);
    result := ReplaceTableNames(query, tables, c.aliases);
    var sorted := SortByKeyLength(Dotted(columns));
    result := ReplaceColumnReferences(result, info, c.aliases, order, sorted);
    result := RewriteAsClauses(result, info.newToTable);
  }

  /** `applyReplacementsWithFormatting`: the replacement log, kept in insertion order, applied to the original text. */
  method ApplyReplacementsWithFormatting(originalQuery: string, replacements: Entries, order: Order) returns (result: string)
    ensures result == ApplyReplacements(originalQuery, replacements, order)
  {
    var c := ClassifyReplacements(replacements);
    ClassifyCovers(replacements);
    result := RunSteps(originalQuery, c, c.tables, c.columns, order);
  }

  /** `performSimpleReplacement`: every mapping row applied, the maps iterated in HashMap order. */
  method PerformSimpleReplacement(query: string, mappings: seq<MappingEntry>, order: Order) returns (result: string)
    requires forall i :: 0 <= i < |mappings| ==> mappings[i].newObject.Some?
    ensures result == SimpleReplacement(query, mappings, order)
  {
    var c := ClassifyReplacements(MappingPairs(mappings));
    ClassifyCovers(MappingPairs(mappings));
    HashOrderCovers(order, c);
    result := RunSteps(query, c, HashOrder(order, c.tables), HashOrder(order, c.columns), order);
  }
}
