/**
 * The parts of the workbook reader that are logic rather than I/O: splitting
 * a `Table.Field` cell into its components and the row loops that skip blank
 * rows. A sheet is a sequence of rows, row 0 being the header; `None` is a row
 * the workbook does not have. Cells arrive as the strings the cell reader
 * produces, "" for a missing cell.
 */
module ExcelIngest {
  import opened Text
  import opened MappingEntries
  import opened Queries

  /** `trim().isEmpty()`. */
  predicate Blank(s: string) { JavaTrim(s) == [] }

  /** `parseMappingEntry`: both objects are split at their first dot, when they have one. */
  function ParseMappingEntry(deprecatedObject: string, newObject: Option<string>): (e: MappingEntry)
    ensures e.deprecatedObject == deprecatedObject && e.newObject == newObject
    ensures '.' in deprecatedObject ==>
              && e.deprecatedField.Some?
              && e.deprecatedTable + "." + e.deprecatedField.value == deprecatedObject
              && '.' !in e.deprecatedTable
    ensures '.' !in deprecatedObject ==> e.deprecatedTable == deprecatedObject && e.deprecatedField.None?
    ensures newObject.Some? && '.' in newObject.value ==>
              && e.newTable.Some? && e.newField.Some?
              && e.newTable.value + "." + e.newField.value == newObject.value
              && '.' !in e.newTable.value
    ensures newObject.None? || '.' !in newObject.value ==> e.newTable == newObject && e.newField.None?
  {
    var (depTable, depField) :=
      if '.' in deprecatedObject then
        var parts := SplitFirstDot(deprecatedObject); (parts.0, Some(parts.1))
      else (deprecatedObject, None);
    var (newTable, newField) :=
      if newObject.Some? && '.' in newObject.value then
        var parts := SplitFirstDot(newObject.value); (Some(parts.0), Some(parts.1))
      else (newObject, None);
    MappingEntry(deprecatedObject, newObject, depTable, depField, newTable, newField)
  }

  /** The field is everything after the first dot, further dots included. */
  lemma FieldAfterFirstDot(table: string, field: string, newObject: Option<string>)
    requires '.' !in table
    ensures ParseMappingEntry(table + "." + field, newObject).deprecatedTable == table
    ensures ParseMappingEntry(table + "." + field, newObject).deprecatedField == Some(field)
  {
    SplitFirstDotOf(table, field);
  }

  /** `T.` names an empty field, so the entry is a table-level mapping. */
  lemma TrailingDotIsTableLevel(table: string, newObject: Option<string>)
    requires '.' !in table
    ensures ParseMappingEntry(table + ".", newObject).deprecatedField == Some("")
    ensures IsTableLevelMapping(ParseMappingEntry(table + ".", newObject))
  {
    SplitFirstDotOf(table, "");
    assert table + "." + "" == table + ".";
  }

  /** The data rows of a sheet: all rows after the header. */
  function DataRows<R>(sheet: seq<R>): (rows: seq<R>)
    ensures |rows| == if sheet == [] then 0 else |sheet| - 1
  {
    if sheet == [] then [] else sheet[1..]
  }

  datatype MappingRow = MappingRow(deprecatedObject: string, newObject: string)

  /** What one data row contributes to the mapping list. */
  function KeptMapping(row: Option<MappingRow>): seq<MappingEntry>
  {
    match row
    case None => []
    case Some(MappingRow(dep, newObj)) =>
      if Blank(dep) then [] else [ParseMappingEntry(dep, Some(newObj))]
  }

  /** The entries the mapping loop keeps from `rows`, in sheet order. */
  function KeptMappings(rows: seq<Option<MappingRow>>): seq<MappingEntry>
  {
    FlatMap(KeptMapping, rows)
  }

  /** Every kept entry has a non-blank deprecated object and a new object, and there are no more entries than rows. */
  lemma {:induction false} KeptMappingsNonBlank(rows: seq<Option<MappingRow>>)
    ensures |KeptMappings(rows)| <= |rows|
    ensures forall k :: 0 <= k < |KeptMappings(rows)| ==>
              !Blank(KeptMappings(rows)[k].deprecatedObject) && KeptMappings(rows)[k].newObject.Some?
  {
    if rows != [] {
      KeptMappingsNonBlank(rows[..|rows| - 1]);
    }
  }

  /** The kept entries of two stretches of rows are the kept entries of each, in order. */
  lemma KeptMappingsAppend(a: seq<Option<MappingRow>>, b: seq<Option<MappingRow>>)
    ensures KeptMappings(a + b) == KeptMappings(a) + KeptMappings(b)
  {
    FlatMapAppend(KeptMapping, a, b);
  }

  /** A missing row, or one whose deprecated object is blank, contributes nothing. */
  lemma SkippedRow(a: seq<Option<MappingRow>>, row: Option<MappingRow>, b: seq<Option<MappingRow>>)
    requires row.None? || Blank(row.value.deprecatedObject)
    ensures KeptMappings(a + [row] + b) == KeptMappings(a + b)
  {
    assert KeptMapping(row) == [];
    FlatMapSingle(KeptMapping, row);
    var ka := KeptMappings(a);
    var kb := KeptMappings(b);
    FlatMapAppend(KeptMapping, a + [row], b);
    FlatMapAppend(KeptMapping, a, [row]);
    assert KeptMappings(a + [row]) == ka + [];
    FlatMapAppend(KeptMapping, a, b);
    assert ka + [] == ka;
  }

  /** A row with a non-blank deprecated object contributes its parsed entry at its place. */
  lemma KeptRow(a: seq<Option<MappingRow>>, row: MappingRow, b: seq<Option<MappingRow>>)
    requires !Blank(row.deprecatedObject)
    ensures KeptMappings(a + [Some(row)] + b)
         == KeptMappings(a) + [ParseMappingEntry(row.deprecatedObject, Some(row.newObject))] + KeptMappings(b)
  {
    FlatMapSingle(KeptMapping, Some(row));
    calc {
      KeptMappings(a + [Some(row)] + b);
      { FlatMapAppend(KeptMapping, a + [Some(row)], b); }
      KeptMappings(a + [Some(row)]) + KeptMappings(b);
      { FlatMapAppend(KeptMapping, a, [Some(row)]); }
      KeptMappings(a) + KeptMappings([Some(row)]) + KeptMappings(b);
    }
  }

  /** `readMappingFile` over an already-read sheet. */
  method ReadMappingFile(sheet: seq<Option<MappingRow>>) returns (mappings: seq<MappingEntry>)
    ensures mappings == KeptMappings(DataRows(sheet))
  {
    var rows := DataRows(sheet);
    mappings := [];
    var i := 0;
    while i < |rows|
      invariant 0 <= i <= |rows|
      invariant mappings == KeptMappings(rows[..i])
    {
      assert rows[..i + 1][..i] == rows[..i];
      var row := rows[i];
      if row.Some? {
        var deprecatedObject := row.value.deprecatedObject;
        var newObject := row.value.newObject;
        if !Blank(deprecatedObject) {
          var entry := ParseMappingEntry(deprecatedObject, Some(newObject));
          mappings := mappings + [entry];
        }
      }
      i := i + 1;
    }
    assert rows[..i] == rows;
  }

  datatype QueryRow = QueryRow(queryName: string, description: string, originalQuery: string, updatedQuery: string)

  function KeptQueryRow(row: Option<QueryRow>): seq<QueryRow>
  {
    if row.Some? && !Blank(row.value.queryName) then [row.value] else []
  }

  /** The rows the query loop keeps: those present and with a non-blank name, in sheet order. */
  function KeptQueryRows(rows: seq<Option<QueryRow>>): seq<QueryRow>
  {
    FlatMap(KeptQueryRow, rows)
  }

  /** Every kept query row has a non-blank name. */
  lemma {:induction false} KeptQueryRowsNonBlank(rows: seq<Option<QueryRow>>)
    ensures |KeptQueryRows(rows)| <= |rows|
    ensures forall k :: 0 <= k < |KeptQueryRows(rows)| ==> !Blank(KeptQueryRows(rows)[k].queryName)
  {
    if rows != [] {
      KeptQueryRowsNonBlank(rows[..|rows| - 1]);
    }
  }

  lemma KeptQueryRowsAppend(a: seq<Option<QueryRow>>, b: seq<Option<QueryRow>>)
    ensures KeptQueryRows(a + b) == KeptQueryRows(a) + KeptQueryRows(b)
  {
    FlatMapAppend(KeptQueryRow, a, b);
  }

  /** `readQueryFile` over an already-read sheet: one fresh, not impacted query per kept row. */
  method ReadQueryFile(sheet: seq<Option<QueryRow>>) returns (queries: seq<QueryDTO>)
    ensures |queries| == |KeptQueryRows(DataRows(sheet))|
    ensures forall k :: 0 <= k < |queries| ==>
              && fresh(queries[k])
              && Row(queries[k]) == KeptQueryRows(DataRows(sheet))[k]
              && !queries[k].impacted
    ensures forall i, j :: 0 <= i < j < |queries| ==> queries[i] != queries[j]
  {
    var rows := DataRows(sheet);
    queries := [];
    var i := 0;
    while i < |rows|
      invariant 0 <= i <= |rows|
      invariant |queries| == |KeptQueryRows(rows[..i])|
      invariant forall k :: 0 <= k < |queries| ==>
                  && fresh(queries[k])
                  && Row(queries[k]) == KeptQueryRows(rows[..i])[k]
                  && !queries[k].impacted
      invariant forall k, l :: 0 <= k < l < |queries| ==> queries[k] != queries[l]
    {
      assert rows[..i + 1][..i] == rows[..i];
      var row := rows[i];
      if row.Some? && !Blank(row.value.queryName) {
        var r := row.value;
        var query := new QueryDTO(r.queryName, r.description, r.originalQuery, r.updatedQuery);
        queries := queries + [query];
      }
      i := i + 1;
    }
    assert rows[..i] == rows;
  }

  /** The cells of a query object, as a row. */
  function Row(q: QueryDTO): QueryRow
    reads q
  {
    QueryRow(q.queryName, q.description, q.originalQuery, q.updatedQuery)
  }
}
