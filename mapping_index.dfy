/**
 * The two lookup structures built from the mapping list before any query is
 * migrated: field-level entries by `table.field`, and every entry by table.
 * Keys are lower-cased with ASCII case folding.
 */
module MappingIndex {
  import opened Text
  import opened MappingEntries

  /** The key of a field-level entry: `lower(table) + "." + lower(field)`. */
  function FieldKey(m: MappingEntry): string
    requires IsFieldLevelMapping(m)
  {
    Lower(m.deprecatedTable) + "." + Lower(m.deprecatedField.value)
  }

  /** The key of any entry in the table index: `lower(table)`. */
  function TableKey(m: MappingEntry): string {
    Lower(m.deprecatedTable)
  }

  /** `buildFieldMappingMap`: field-level entries only; on a duplicate key the later entry replaces the earlier. */
  function BuildFieldMappingMap(ms: seq<MappingEntry>): (r: map<string, MappingEntry>)
    ensures forall k :: k in r ==> IsFieldLevelMapping(r[k]) && FieldKey(r[k]) == k
    ensures forall k :: k in r ==> r[k] in ms
  {
    if ms == [] then map[]
    else
      var m := BuildFieldMappingMap(ms[..|ms| - 1]);
      var e := ms[|ms| - 1];
      if IsFieldLevelMapping(e) then m[FieldKey(e) := e] else m
  }

  /** A key is present exactly when some field-level entry has it. */
  lemma {:induction false} FieldMapKeys(ms: seq<MappingEntry>, k: string)
    ensures k in BuildFieldMappingMap(ms) <==>
            exists i :: 0 <= i < |ms| && IsFieldLevelMapping(ms[i]) && FieldKey(ms[i]) == k
  {
    if ms != [] {
      var n := |ms| - 1;
      FieldMapKeys(ms[..n], k);
      if exists i :: 0 <= i < |ms| && IsFieldLevelMapping(ms[i]) && FieldKey(ms[i]) == k {
        var i :| 0 <= i < |ms| && IsFieldLevelMapping(ms[i]) && FieldKey(ms[i]) == k;
        if i < n { assert ms[..n][i] == ms[i]; }
      }
      if exists i :: 0 <= i < n && IsFieldLevelMapping(ms[..n][i]) && FieldKey(ms[..n][i]) == k {
        var i :| 0 <= i < n && IsFieldLevelMapping(ms[..n][i]) && FieldKey(ms[..n][i]) == k;
        assert ms[i] == ms[..n][i];
      }
    }
  }

  /** An entry that no later field-level entry shares its key with is the one stored under that key. */
  lemma {:induction false} FieldMapLastWins(ms: seq<MappingEntry>, i: nat)
    requires i < |ms| && IsFieldLevelMapping(ms[i])
    requires forall j :: i < j < |ms| && IsFieldLevelMapping(ms[j]) ==> FieldKey(ms[j]) != FieldKey(ms[i])
    ensures FieldKey(ms[i]) in BuildFieldMappingMap(ms)
    ensures BuildFieldMappingMap(ms)[FieldKey(ms[i])] == ms[i]
  {
    var n := |ms| - 1;
    if i < n {
      forall j | i < j < n && IsFieldLevelMapping(ms[..n][j]) ensures FieldKey(ms[..n][j]) != FieldKey(ms[..n][i]) {
        assert ms[..n][j] == ms[j];
      }
      FieldMapLastWins(ms[..n], i);
    }
  }

  /** The entries listed under table key `t`, in input order. */
  function EntriesFor(ms: seq<MappingEntry>, t: string): (r: seq<MappingEntry>)
    ensures |r| <= |ms|
    ensures forall k :: 0 <= k < |r| ==> TableKey(r[k]) == t && r[k] in ms
  {
    if ms == [] then []
    else
      var e := ms[|ms| - 1];
      EntriesFor(ms[..|ms| - 1], t) + if TableKey(e) == t then [e] else []
  }

  function TableKeys(ms: seq<MappingEntry>): set<string> {
    set i | 0 <= i < |ms| :: TableKey(ms[i])
  }

  /** The table index `buildTableMappingMap` promises: every entry listed under its table, field-level ones included. */
  function TableIndex(ms: seq<MappingEntry>): map<string, seq<MappingEntry>> {
    map t | t in TableKeys(ms) :: EntriesFor(ms, t)
  }

  /** Every entry whose table key is `t` is listed under `t`. */
  lemma {:induction false} EntriesForIncludesEvery(ms: seq<MappingEntry>, t: string, i: nat)
    requires i < |ms| && TableKey(ms[i]) == t
    ensures ms[i] in EntriesFor(ms, t)
  {
    var n := |ms| - 1;
    if i < n {
      assert ms[..n][i] == ms[i];
      EntriesForIncludesEvery(ms[..n], t, i);
    }
  }

  /** The first entry listed under `t` is the first entry of the input with that table key. */
  lemma {:induction false} EntriesForFirst(ms: seq<MappingEntry>, t: string, i: nat)
    requires i < |ms| && TableKey(ms[i]) == t
    requires forall j :: 0 <= j < i ==> TableKey(ms[j]) != t
    ensures EntriesFor(ms, t) != [] && EntriesFor(ms, t)[0] == ms[i]
  {
    var n := |ms| - 1;
    if i < n {
      forall j | 0 <= j < i ensures TableKey(ms[..n][j]) != t {
        assert ms[..n][j] == ms[j];
      }
      assert ms[..n][i] == ms[i];
      EntriesForFirst(ms[..n], t, i);
    } else {
      EntriesForNone(ms[..n], t);
    }
  }

  /** No entry has table key `t`: nothing is listed under it. */
  lemma {:induction false} EntriesForNone(ms: seq<MappingEntry>, t: string)
    requires forall j :: 0 <= j < |ms| ==> TableKey(ms[j]) != t
    ensures EntriesFor(ms, t) == []
  {
    if ms != [] {
      var n := |ms| - 1;
      forall j | 0 <= j < n ensures TableKey(ms[..n][j]) != t {
        assert ms[..n][j] == ms[j];
      }
      EntriesForNone(ms[..n], t);
    }
  }

  /** One more entry is appended to the list of its own table and changes no other list. */
  lemma TableIndexStep(ms: seq<MappingEntry>, e: MappingEntry)
    ensures TableIndex(ms + [e]) ==
            TableIndex(ms)[TableKey(e) := (if TableKey(e) in TableIndex(ms) then TableIndex(ms)[TableKey(e)] else []) + [e]]
  {
    var ms' := ms + [e];
    var k := TableKey(e);
    var before := TableIndex(ms);
    var after := TableIndex(ms');
    var expected := before[k := (if k in before then before[k] else []) + [e]];
    assert ms'[..|ms'| - 1] == ms;
    TableKeysStep(ms, e);
    if k !in TableKeys(ms) {
      EntriesForNone(ms, k);
    }
    forall t | t in after ensures t in expected && after[t] == expected[t] {
      assert EntriesFor(ms', t) == EntriesFor(ms, t) + if k == t then [e] else [];
    }
    assert after.Keys == expected.Keys;
  }

  lemma TableKeysStep(ms: seq<MappingEntry>, e: MappingEntry)
    ensures TableKeys(ms + [e]) == TableKeys(ms) + {TableKey(e)}
  {
    var ms' := ms + [e];
    forall x ensures x in TableKeys(ms') <==> x in TableKeys(ms) + {TableKey(e)} {
      if x in TableKeys(ms) { var j :| 0 <= j < |ms| && TableKey(ms[j]) == x; assert ms'[j] == ms[j]; }
      if x == TableKey(e) { assert ms'[|ms|] == e; }
      if x in TableKeys(ms') { var j :| 0 <= j < |ms'| && TableKey(ms'[j]) == x; if j < |ms| { assert ms'[j] == ms[j]; } }
    }
  }

  lemma TableIndexPrefixStep(ms: seq<MappingEntry>, i: nat)
    requires i < |ms|
    ensures var before := TableIndex(ms[..i]);
            var k := TableKey(ms[i]);
            TableIndex(ms[..i + 1]) == before[k := (if k in before then before[k] else []) + [ms[i]]]
  {
    assert ms[..i + 1] == ms[..i] + [ms[i]];
    TableIndexStep(ms[..i], ms[i]);
  }

  /** The table index of the first `i` entries, one `computeIfAbsent(...).add(...)` at a time. */
  function TableIndexUpTo(ms: seq<MappingEntry>, i: nat): map<string, seq<MappingEntry>>
    requires i <= |ms|
  {
    if i == 0 then map[]
    else
      var before := TableIndexUpTo(ms, i - 1);
      var k := TableKey(ms[i - 1]);
      before[k := (if k in before then before[k] else []) + [ms[i - 1]]]
  }

  lemma {:induction false} TableIndexUpToIs(ms: seq<MappingEntry>, i: nat)
    requires i <= |ms|
    ensures TableIndexUpTo(ms, i) == TableIndex(ms[..i])
  {
    if i == 0 {
      assert TableKeys(ms[..0]) == {};
    } else {
      TableIndexUpToIs(ms, i - 1);
      TableIndexPrefixStep(ms, i - 1);
    }
  }

  /** `buildTableMappingMap`: a `computeIfAbsent(...).add(...)` loop over the mapping list. */
  method BuildTableMappingMap(ms: seq<MappingEntry>) returns (tableMap: map<string, seq<MappingEntry>>)
    ensures tableMap == TableIndex(ms)
  {
    tableMap := map[];
    var i := 0;
    while i < |ms|
      invariant 0 <= i <= |ms|
      invariant tableMap == TableIndexUpTo(ms, i)
    {
      var mapping := ms[i];
      var table := Lower(mapping.deprecatedTable);
      var list := if table in tableMap then tableMap[table] else [];
      tableMap := tableMap[table := list + [mapping]];
      i := i + 1;
    }
    TableIndexUpToIs(ms, |ms|);
    assert ms[..|ms|] == ms;
  }
}
