/**
 * `migrateQuery` and `migrateQueries`: sanitize, parse, run the structural
 * migrator, and rewrite the original text from its replacement log; when the
 * parser throws, fall back to the plain text rewriter.
 *
 * The SQL parser is a parameter `parse` (its result for the sanitized text);
 * HashMap iteration order is the parameter `order` of RewriterSpec.
 */
module Migration {
  import opened Text
  import opened LinkedMap
  import opened MappingEntries
  import opened MappingIndex
  import opened Sanitizer
  import opened SqlTree
  import opened ProcessorSpec
  import opened Processor
  import opened RewriterSpec
  import opened Rewriter
  import opened Queries

  datatype MigrationResult = MigrationResult(query: string, hasChanges: bool)

  /** What `migrateQuery` does: return a result, or throw (the parser's exception). */
  datatype Outcome = Returned(result: MigrationResult) | Threw

  /** `migrateQuery` as a function of the query, the index and the parser. */
  function MigrateQuerySpec(query: string, idx: Index, parse: string -> ParseResult, order: Order): (r: Outcome)
    ensures r.Returned? && r.result.hasChanges ==> exists sel :: parse(SanitizeSql(Some(query)).value) == Parsed(sel)
    ensures r.Returned? && !r.result.hasChanges ==> r.result.query == query
    ensures r.Threw? <==> parse(SanitizeSql(Some(query)).value).ParseError?
  {
    var sanitized := SanitizeSql(Some(query)).value;
    match parse(sanitized)
    case ParseError => Threw
    case NotSelect => Returned(MigrationResult(query, false))
    case Parsed(sel) =>
      var st := ProcessSelect(idx, Initial, sel);
      if st.hasChanges then Returned(MigrationResult(ApplyReplacements(query, st.replacements, order), true))
      else Returned(MigrationResult(query, false))
  }

  /** A query that parsed changes exactly when the migrator logged a replacement, and its text is the log applied to the original. */
  lemma ChangedExactlyWhenLogged(query: string, idx: Index, parse: string -> ParseResult, order: Order, sel: Select)
    requires parse(SanitizeSql(Some(query)).value) == Parsed(sel)
    ensures var st := ProcessSelect(idx, Initial, sel);
            var r := MigrateQuerySpec(query, idx, parse, order);
            && r.Returned?
            && (r.result.hasChanges <==> st.replacements != [])
            && (r.result.hasChanges ==> r.result.query == ApplyReplacements(query, st.replacements, order))
  {
    ChangesMeanLogged(idx, sel);
  }

  /**
   * The new text a query gets from `migrateQueries`, or None when the query is not
   * impacted: the migrated text when it changed, the fallback text when the parser
   * threw and the fallback differs from the original.
   */
  function QueryUpdate(query: string, mappings: seq<MappingEntry>, parse: string -> ParseResult, order: Order): (r: Option<string>)
    ensures r.Some? ==> (r.value != query || MigrateQuerySpec(query, ProcessorSpec.IndexOf(mappings), parse, order).Returned?)
  {
    match MigrateQuerySpec(query, ProcessorSpec.IndexOf(mappings), parse, order)
    case Returned(res) => if res.hasChanges then Some(res.query) else None
    case Threw =>
      var fallback := SimpleReplacement(query, mappings, order);
      if fallback != query then Some(fallback) else None
  }

  /** With no mapping rows the fallback rewriter changes nothing, so a query that fails to parse is never impacted. */
  lemma NoMappingsNoFallback(query: string, parse: string -> ParseResult, order: Order)
    requires parse(SanitizeSql(Some(query)).value).ParseError?
    ensures QueryUpdate(query, [], parse, order).None?
  {
    NoMappingsUnchanged(query, order);
  }

  /** The selected objects: those whose update is present, in order. */
  function Selected(queries: seq<QueryDTO>, updates: seq<Option<string>>): (r: seq<QueryDTO>)
    requires |queries| == |updates|
  {
    if queries == [] then []
    else
      var n := |queries| - 1;
      Selected(queries[..n], updates[..n]) + (if updates[n].Some? then [queries[n]] else [])
  }

  lemma SelectedSnoc(queries: seq<QueryDTO>, updates: seq<Option<string>>, i: nat)
    requires i < |queries| == |updates|
    ensures Selected(queries[..i + 1], updates[..i + 1])
            == Selected(queries[..i], updates[..i]) + (if updates[i].Some? then [queries[i]] else [])
  {
    assert queries[..i + 1][..i] == queries[..i];
    assert updates[..i + 1][..i] == updates[..i];
  }

  /**
   * The selected objects are the queries whose update is present: every such
   * query is selected, every selected object is such a query, and there are no
   * more of them than queries.
   */
  lemma {:induction false} SelectedMembers(queries: seq<QueryDTO>, updates: seq<Option<string>>)
    requires |queries| == |updates|
    ensures |Selected(queries, updates)| <= |queries|
    ensures forall i :: 0 <= i < |queries| && updates[i].Some? ==> queries[i] in Selected(queries, updates)
    ensures forall k :: 0 <= k < |Selected(queries, updates)| ==>
              exists i :: 0 <= i < |queries| && queries[i] == Selected(queries, updates)[k] && updates[i].Some?
  {
    if queries != [] {
      var n := |queries| - 1;
      var qs, us := queries[..n], updates[..n];
      SelectedMembers(qs, us);
      var front := Selected(qs, us);
      var all := Selected(queries, updates);
      assert all == front + (if updates[n].Some? then [queries[n]] else []);
      forall i | 0 <= i < |queries| && updates[i].Some? ensures queries[i] in all {
        if i < n {
          assert qs[i] == queries[i] && us[i].Some?;
        }
      }
      forall k | 0 <= k < |all| ensures exists i :: 0 <= i < |queries| && queries[i] == all[k] && updates[i].Some? {
        if k < |front| {
          assert all[k] == front[k];
          var i :| 0 <= i < |qs| && qs[i] == front[k] && us[i].Some?;
          assert queries[i] == all[k] && updates[i].Some?;
        } else {
          assert queries[n] == all[k] && updates[n].Some?;
        }
      }
    }
  }

  /** The updates of every query, from the original texts. */
  function Updates(originals: seq<string>, mappings: seq<MappingEntry>, parse: string -> ParseResult, order: Order): (r: seq<Option<string>>)
    ensures |r| == |originals|
  {
    seq(|originals|, i requires 0 <= i < |originals| => QueryUpdate(originals[i], mappings, parse, order))
  }

  function Originals(queries: seq<QueryDTO>): (r: seq<string>)
    reads queries
    ensures |r| == |queries|
  {
    seq(|queries|, i requires 0 <= i < |queries| reads queries => queries[i].originalQuery)
  }

  /** `migrateQuery`: a fresh processor per query, the log applied to the original (not the sanitized) text. */
  method MigrateQuery(query: string, fieldMappings: map<string, MappingEntry>, tableMappings: map<string, seq<MappingEntry>>,
                      parse: string -> ParseResult, order: Order) returns (outcome: Outcome)
    ensures outcome == MigrateQuerySpec(query, Index(fieldMappings, tableMappings), parse, order)
  {
    var sanitizedQuery := SanitizeSql(Some(query)).value;
    var statement := parse(sanitizedQuery);
    if statement.ParseError? {
      return Threw;
    }
    if statement.Parsed? {
      var processor := new QueryMigrationProcessor(fieldMappings, tableMappings);
      processor.ProcessSelect(statement.select);
      if processor.hasChanges {
        var formattedResult := ApplyReplacementsWithFormatting(query, processor.replacements, order);
        return Returned(MigrationResult(formattedResult, true));
      }
      return Returned(MigrationResult(query, false));
    }
    return Returned(MigrationResult(query, false));
  }

  /** `update` gives every text the update `migrateQueries` computes for it. */
  ghost predicate IsUpdateFor(update: string -> Option<string>, mappings: seq<MappingEntry>, parse: string -> ParseResult, order: Order) {
    forall q {:trigger QueryUpdate(q, mappings, parse, order)} :: update(q) == QueryUpdate(q, mappings, parse, order)
  }

  /** The update of each original text, by `update`. */
  function UpdatesBy(update: string -> Option<string>, originals: seq<string>): (r: seq<Option<string>>)
    ensures |r| == |originals|
  {
    seq(|originals|, i requires 0 <= i < |originals| => update(originals[i]))
  }

  /**
   * How one query ends, given its update `u`: impacted with the new text, or
   * with its impacted flag and text as they were.
   */
  predicate Applied(u: Option<string>, impacted: bool, updated: string, impacted0: bool, updated0: string) {
    match u
    case Some(text) => impacted && updated == text
    case None => impacted == impacted0 && updated == updated0
  }

  /** The body of the loop of `migrateQueries` for one query, with the parse failure caught. */
  method MigrateOne(query: QueryDTO, fieldMappings: map<string, MappingEntry>, tableMappings: map<string, seq<MappingEntry>>,
                    mappings: seq<MappingEntry>, parse: string -> ParseResult, order: Order,
                    ghost update: string -> Option<string>) returns (selected: bool)
    requires fieldMappings == BuildFieldMappingMap(mappings) && tableMappings == TableIndex(mappings)
    requires forall i :: 0 <= i < |mappings| ==> mappings[i].newObject.Some?
    requires IsUpdateFor(update, mappings, parse, order)
    modifies query
    ensures query.originalQuery == old(query.originalQuery)
    ensures query.queryName == old(query.queryName) && query.description == old(query.description)
    ensures selected <==> update(query.originalQuery).Some?
    ensures Applied(update(query.originalQuery), query.impacted, query.updatedQuery, old(query.impacted), old(query.updatedQuery))
  {
    assert update(query.originalQuery) == QueryUpdate(query.originalQuery, mappings, parse, order);
    var outcome := MigrateQuery(query.originalQuery, fieldMappings, tableMappings, parse, order);
    selected := false;
    match outcome
    case Returned(result) =>
      if result.hasChanges {
        query.updatedQuery := result.query;
        query.impacted := true;
        selected := true;
      }
    case Threw =>
      var originalQuery := query.originalQuery;
      var fallbackUpdate := PerformSimpleReplacement(originalQuery, mappings, order);
      if fallbackUpdate != originalQuery {
        query.updatedQuery := fallbackUpdate;
        query.impacted := true;
        selected := true;
      }
  }

  /** The loop of `migrateQueries`, for the updates `update` computes. */
  method MigrateEach(queries: seq<QueryDTO>, fieldMappings: map<string, MappingEntry>, tableMappings: map<string, seq<MappingEntry>>,
                     mappings: seq<MappingEntry>, parse: string -> ParseResult, order: Order,
                     ghost update: string -> Option<string>) returns (impactedQueries: seq<QueryDTO>)
    requires fieldMappings == BuildFieldMappingMap(mappings) && tableMappings == TableIndex(mappings)
    requires forall i :: 0 <= i < |mappings| ==> mappings[i].newObject.Some?
    requires IsUpdateFor(update, mappings, parse, order)
    requires forall i, j :: 0 <= i < j < |queries| ==> queries[i] != queries[j]
    modifies queries
    ensures impactedQueries == Selected(queries, UpdatesBy(update, old(Originals(queries))))
    ensures forall i :: 0 <= i < |queries| ==>
              && queries[i].originalQuery == old(queries[i].originalQuery)
              && queries[i].queryName == old(queries[i].queryName)
              && queries[i].description == old(queries[i].description)
              && Applied(update(queries[i].originalQuery), queries[i].impacted, queries[i].updatedQuery,
                         old(queries[i].impacted), old(queries[i].updatedQuery))
  {
    ghost var originals := Originals(queries);
    ghost var updates := UpdatesBy(update, originals);
    impactedQueries := [];
    for i := 0 to |queries|
      invariant forall k :: 0 <= k < i ==>
                  && queries[k].originalQuery == originals[k]
                  && queries[k].queryName == old(queries[k].queryName)
                  && queries[k].description == old(queries[k].description)
                  && Applied(updates[k], queries[k].impacted, queries[k].updatedQuery,
                             old(queries[k].impacted), old(queries[k].updatedQuery))
      invariant forall k :: i <= k < |queries| ==> unchanged(queries[k])
      invariant impactedQueries == Selected(queries[..i], updates[..i])
    {
      var query := queries[i];
      var selected := MigrateOne(query, fieldMappings, tableMappings, mappings, parse, order, update);
      SelectedSnoc(queries, updates, i);
      if selected {
        impactedQueries := impactedQueries + [query];
      }
    }
    assert queries[..|queries|] == queries;
    assert updates[..|queries|] == updates;
  }

  /**
   * `migrateQueries`: every impacted query gets its new text and the impacted flag
   * and is returned, in input order; every other query is left as it was.
   */
  method MigrateQueries(queries: seq<QueryDTO>, mappings: seq<MappingEntry>, parse: string -> ParseResult, order: Order)
    returns (impactedQueries: seq<QueryDTO>)
    requires forall i :: 0 <= i < |mappings| ==> mappings[i].newObject.Some?
    requires forall i, j :: 0 <= i < j < |queries| ==> queries[i] != queries[j]
    modifies queries
    ensures impactedQueries == Selected(queries, Updates(old(Originals(queries)), mappings, parse, order))
    ensures forall i :: 0 <= i < |queries| ==>
              && queries[i].originalQuery == old(queries[i].originalQuery)
              && queries[i].queryName == old(queries[i].queryName)
              && queries[i].description == old(queries[i].description)
              && Applied(QueryUpdate(queries[i].originalQuery, mappings, parse, order), queries[i].impacted, queries[i].updatedQuery,
                         old(queries[i].impacted), old(queries[i].updatedQuery))
  {
    var fieldMappings := BuildFieldMappingMap(mappings);
    var tableMappings := BuildTableMappingMap(mappings);
    ghost var update := q => QueryUpdate(q, mappings, parse, order);
    ghost var originals := Originals(queries);
    impactedQueries := MigrateEach(queries, fieldMappings, tableMappings, mappings, parse, order, update);
    assert UpdatesBy(update, originals) == Updates(originals, mappings, parse, order);
  }
}
