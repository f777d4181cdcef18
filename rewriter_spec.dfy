/**
 * The formatting-preserving text rewriter as functions: the classification of
 * replacement pairs, the four steps, and the two entry points
 * `applyReplacementsWithFormatting` and `performSimpleReplacement`.
 *
 * HashMap iteration order is a parameter `order`: for a key set it gives the order
 * in which the map is iterated. A real HashMap also depends on insertion order
 * within a bucket, so one fixed `order` stands for one assumed iteration order.
 * Every property below holds for every such function.
 */
module RewriterSpec {
  import opened Text
  import opened LinkedMap
  import opened MappingEntries
  import opened Naming
  import opened Patterns

  type Order = set<string> -> seq<string>

  /** The table, column and alias maps built from the replacement pairs. */
  datatype Replacements = Replacements(tables: Entries, columns: Entries, aliases: Entries)

  /** One pair of the classification loop. */
  function ClassifyPair(c: Replacements, oldValue: string, newValue: string): (r: Replacements)
    ensures '.' in oldValue && '.' in newValue ==>
              var (oldTable, oldColumn) := SplitFirstDot(oldValue);
              var (newTable, newColumn) := SplitFirstDot(newValue);
              && r.tables == c.tables && r.aliases == c.aliases
              && Get(r.columns, oldValue) == Some(newValue)
              && Get(r.columns, Capitalize(oldTable) + Capitalize(oldColumn)) == Some(Capitalize(newTable) + Capitalize(newColumn))
              && KeySet(r.columns) == KeySet(c.columns) + {oldValue, Capitalize(oldTable) + Capitalize(oldColumn)}
    ensures '.' !in oldValue ==>
              && r.columns == c.columns
              && Get(r.tables, oldValue) == Some(newValue)
              && Get(r.aliases, Lower(oldValue)) == Some(GenerateAlias(newValue))
    ensures '.' in oldValue && '.' !in newValue ==> r == c
  {
    if '.' in oldValue && '.' in newValue then
      var (oldTable, oldColumn) := SplitFirstDot(oldValue);
      var (newTable, newColumn) := SplitFirstDot(newValue);
      var columns := Put(c.columns, oldValue, newValue);
      c.(columns := Put(columns, Capitalize(oldTable) + Capitalize(oldColumn), Capitalize(newTable) + Capitalize(newColumn)))
    else if '.' !in oldValue then
      c.(tables := Put(c.tables, oldValue, newValue), aliases := Put(c.aliases, Lower(oldValue), GenerateAlias(newValue)))
    else c
  }

  /** The classification loop over the pairs in order. */
  function Classify(pairs: Entries): Replacements {
    if pairs == [] then Replacements([], [], [])
    else
      var n := |pairs| - 1;
      ClassifyPair(Classify(pairs[..n]), pairs[n].0, pairs[n].1)
  }

  /** Every table key has a generated alias under its lower-cased name. */
  ghost predicate AliasesCover(tables: Entries, aliases: Entries) {
    forall i :: 0 <= i < |tables| ==> Lower(tables[i].0) in KeySet(aliases)
  }

  /**
   * Whenever a table pair is recorded its alias is recorded too, so the alias
   * looked up for a table in steps 1 and 2 is never missing; the three maps
   * keep one entry per key.
   */
  lemma {:induction false} ClassifyCovers(pairs: Entries)
    ensures AliasesCover(Classify(pairs).tables, Classify(pairs).aliases)
    ensures UniqueKeys(Classify(pairs).tables) && UniqueKeys(Classify(pairs).columns)
    ensures UniqueKeys(Classify(pairs).aliases)
  {
    if pairs != [] {
      var n := |pairs| - 1;
      var c := Classify(pairs[..n]);
      ClassifyCovers(pairs[..n]);
      var r := ClassifyPair(c, pairs[n].0, pairs[n].1);
      assert r == Classify(pairs);
      if '.' !in pairs[n].0 {
        forall i | 0 <= i < |r.tables| ensures Lower(r.tables[i].0) in KeySet(r.aliases) {
          if i < |c.tables| && r.tables[i].0 == c.tables[i].0 {
            assert Lower(c.tables[i].0) in KeySet(c.aliases);
          } else {
            assert r.tables[i].0 in KeySet(r.tables) - KeySet(c.tables) + {pairs[n].0} by {
              assert r.tables[i].0 in KeySet(r.tables);
            }
          }
        }
      }
    }
  }

  /** `capitalize` neither adds nor removes dots. */
  lemma CapitalizeKeepsDots(x: string)
    ensures '.' in Capitalize(x) <==> '.' in x
  {
    var r := Capitalize(x);
    if x != "" {
      assert r == [UpperChar(x[0])] + Lower(x[1..]);
      forall i | 0 <= i < |x| ensures (r[i] == '.') == (x[i] == '.') {
        if i > 0 { assert r[i] == LowerChar(x[i]); }
      }
      if '.' in x { var i :| 0 <= i < |x| && x[i] == '.'; assert r[i] == '.'; }
      if '.' in r { var i :| 0 <= i < |r| && r[i] == '.'; assert x[i] == '.'; }
    }
  }

  /** Keeps an entry when both its key and its value contain a dot. */
  function KeepDotted(e: (string, string)): Entries {
    if '.' in e.0 && '.' in e.1 then [e] else []
  }

  /** The filter of step 3. */
  function Dotted(columns: Entries): Entries {
    FlatMap(KeepDotted, columns)
  }

  /** At most one dot: `Table.Field` with a dot-free field. */
  predicate OneDot(s: string) {
    '.' in s ==> '.' !in SplitFirstDot(s).1
  }

  /**
   * The `Capitalize(table) + Capitalize(column)` pairs never reach step 3 when
   * the deprecated names have one dot at most: every column entry that survives
   * the filter is one of the input pairs.
   */
  lemma {:induction false} CapitalizedPairsFiltered(pairs: Entries)
    requires forall i :: 0 <= i < |pairs| ==> OneDot(pairs[i].0)
    ensures forall e :: e in Dotted(Classify(pairs).columns) ==> e in pairs
  {
    DottedColumnsArePairs(pairs);
    var cols := Classify(pairs).columns;
    DottedMembers(cols);
  }

  /** The entries of `Dotted(cols)` are the dotted entries of `cols`. */
  lemma {:induction false} DottedMembers(cols: Entries)
    ensures forall e :: e in Dotted(cols) <==> e in cols && '.' in e.0 && '.' in e.1
  {
    if cols != [] {
      var n := |cols| - 1;
      DottedMembers(cols[..n]);
      assert cols == cols[..n] + [cols[n]];
    }
  }

  /** Every entry of `cols` whose key has a dot is one of `pairs`. */
  ghost predicate DottedFrom(cols: Entries, pairs: Entries) {
    forall i :: 0 <= i < |cols| && '.' in cols[i].0 ==> cols[i] in pairs
  }

  lemma PutKeepsDottedFrom(cols: Entries, k: string, v: string, pairs: Entries)
    requires DottedFrom(cols, pairs)
    requires '.' in k ==> (k, v) in pairs
    ensures DottedFrom(Put(cols, k, v), pairs)
  {
    var r := Put(cols, k, v);
    forall i | 0 <= i < |r| && '.' in r[i].0 ensures r[i] in pairs {
      if i < |cols| && r[i] == cols[i] {
      } else {
        assert r[i] == (k, v);
      }
    }
  }

  lemma DottedFromPrefix(cols: Entries, pairs: Entries, n: nat)
    requires n <= |pairs|
    requires DottedFrom(cols, pairs[..n])
    ensures DottedFrom(cols, pairs)
  {
    forall i | 0 <= i < |cols| && '.' in cols[i].0 ensures cols[i] in pairs {
      var j :| 0 <= j < n && pairs[..n][j] == cols[i];
      assert pairs[j] == cols[i];
    }
  }

  /** Every column entry whose key has a dot came from a pair, when no deprecated name has two dots. */
  lemma {:induction false} DottedColumnsArePairs(pairs: Entries)
    requires forall i :: 0 <= i < |pairs| ==> OneDot(pairs[i].0)
    ensures DottedFrom(Classify(pairs).columns, pairs)
  {
    if pairs != [] {
      var n := |pairs| - 1;
      var c := Classify(pairs[..n]);
      DottedColumnsArePairs(pairs[..n]);
      DottedFromPrefix(c.columns, pairs, n);
      var (o, v) := pairs[n];
      assert (o, v) in pairs;
      if '.' in o && '.' in v {
        var (ot, oc) := SplitFirstDot(o);
        var (nt, nc) := SplitFirstDot(v);
        var key := Capitalize(ot) + Capitalize(oc);
        assert OneDot(o);
        CapitalizeKeepsDots(ot);
        CapitalizeKeepsDots(oc);
        assert '.' !in key;
        PutKeepsDottedFrom(c.columns, o, v, pairs);
        PutKeepsDottedFrom(Put(c.columns, o, v), key, Capitalize(nt) + Capitalize(nc), pairs);
      }
    }
  }

  /** `e` inserted into a list sorted by descending key length, after every entry at least as long. */
  function Insert(e: (string, string), sorted: Entries): Entries
  {
    if sorted == [] || |sorted[|sorted| - 1].0| >= |e.0| then sorted + [e]
    else
      var n := |sorted| - 1;
      Insert(e, sorted[..n]) + [sorted[n]]
  }

  /** `sorted((a, b) -> compare(b.key.length, a.key.length))`: a stable sort by descending key length. */
  function SortByKeyLength(cols: Entries): Entries
  {
    if cols == [] then []
    else
      var n := |cols| - 1;
      Insert(cols[n], SortByKeyLength(cols[..n]))
  }

  predicate SortedByKeyLength(r: Entries) {
    forall i, j :: 0 <= i < j < |r| ==> |r[i].0| >= |r[j].0|
  }

  /** The entries of `r` whose key has length `n`, in order. */
  function WithKeyLength(r: Entries, n: nat): Entries {
    if r == [] then []
    else
      var k := |r| - 1;
      WithKeyLength(r[..k], n) + (if |r[k].0| == n then [r[k]] else [])
  }

  /** Every key of `r` is at least `n` long. */
  ghost predicate KeysAtLeast(r: Entries, n: nat) {
    forall i :: 0 <= i < |r| ==> |r[i].0| >= n
  }

  lemma {:induction false} InsertKeysAtLeast(e: (string, string), sorted: Entries, n: nat)
    requires KeysAtLeast(sorted, n) && |e.0| >= n
    ensures KeysAtLeast(Insert(e, sorted), n)
  {
    if !(sorted == [] || |sorted[|sorted| - 1].0| >= |e.0|) {
      var k := |sorted| - 1;
      InsertKeysAtLeast(e, sorted[..k], n);
      assert Insert(e, sorted) == Insert(e, sorted[..k]) + [sorted[k]];
    }
  }

  lemma {:induction false} InsertSorted(e: (string, string), sorted: Entries)
    requires SortedByKeyLength(sorted)
    ensures SortedByKeyLength(Insert(e, sorted))
  {
    if sorted == [] || |sorted[|sorted| - 1].0| >= |e.0| {
      assert Insert(e, sorted) == sorted + [e];
    } else {
      var k := |sorted| - 1;
      var front := sorted[..k];
      var last := sorted[k];
      InsertSorted(e, front);
      assert KeysAtLeast(front, |last.0|);
      InsertKeysAtLeast(e, front, |last.0|);
      assert Insert(e, sorted) == Insert(e, front) + [last];
    }
  }

  lemma {:induction false} InsertPerm(e: (string, string), sorted: Entries)
    ensures multiset(Insert(e, sorted)) == multiset(sorted) + multiset{e}
  {
    if !(sorted == [] || |sorted[|sorted| - 1].0| >= |e.0|) {
      var k := |sorted| - 1;
      InsertPerm(e, sorted[..k]);
      assert sorted == sorted[..k] + [sorted[k]];
    }
  }

  lemma WithKeyLengthSnoc(r: Entries, x: (string, string), n: nat)
    ensures WithKeyLength(r + [x], n) == WithKeyLength(r, n) + (if |x.0| == n then [x] else [])
  {
    assert (r + [x])[..|r|] == r;
  }

  /** Every key of `r` is shorter than `n`. */
  ghost predicate KeysBelow(r: Entries, n: nat) {
    forall i :: 0 <= i < |r| ==> |r[i].0| < n
  }

  /** `Insert` puts `e` between the entries at least as long and the (shorter) rest. */
  lemma {:induction false} InsertSplit(e: (string, string), sorted: Entries) returns (j: nat)
    ensures j <= |sorted|
    ensures Insert(e, sorted) == sorted[..j] + [e] + sorted[j..]
    ensures KeysBelow(sorted[j..], |e.0|)
  {
    if sorted == [] || |sorted[|sorted| - 1].0| >= |e.0| {
      j := |sorted|;
      assert sorted[..j] == sorted;
    } else {
      var k := |sorted| - 1;
      var front := sorted[..k];
      j := InsertSplit(e, front);
      assert sorted[..j] == front[..j];
      assert sorted[j..] == front[j..] + [sorted[k]];
    }
  }

  lemma {:induction false} WithKeyLengthAppend(a: Entries, b: Entries, n: nat)
    ensures WithKeyLength(a + b, n) == WithKeyLength(a, n) + WithKeyLength(b, n)
    decreases |b|
  {
    if b == [] {
      assert a + b == a;
    } else {
      var k := |b| - 1;
      var front, last := b[..k], b[k];
      var wl := if |last.0| == n then [last] else [];
      WithKeyLengthAppend(a, front, n);
      assert a + b == (a + front) + [last];
      WithKeyLengthSnoc(a + front, last, n);
      assert b == front + [last];
      WithKeyLengthSnoc(front, last, n);
      var wa, wf := WithKeyLength(a, n), WithKeyLength(front, n);
      assert (wa + wf) + wl == wa + (wf + wl);
    }
  }

  lemma {:induction false} WithKeyLengthNone(b: Entries, n: nat)
    requires KeysBelow(b, n)
    ensures WithKeyLength(b, n) == []
  {
    if b != [] {
      var k := |b| - 1;
      assert forall i :: 0 <= i < k ==> b[..k][i] == b[i];
      WithKeyLengthNone(b[..k], n);
    }
  }

  /** Inserting `e` adds it to the entries of its own key length, after them, and changes no other length's entries. */
  lemma InsertStable(e: (string, string), sorted: Entries, n: nat)
    ensures WithKeyLength(Insert(e, sorted), n) == WithKeyLength(sorted, n) + (if |e.0| == n then [e] else [])
  {
    var j := InsertSplit(e, sorted);
    var front, back := sorted[..j], sorted[j..];
    var wf, wb := WithKeyLength(front, n), WithKeyLength(back, n);
    var we := if |e.0| == n then [e] else [];
    WithKeyLengthAppend(front + [e], back, n);
    WithKeyLengthSnoc(front, e, n);
    assert WithKeyLength(Insert(e, sorted), n) == (wf + we) + wb;
    assert sorted == front + back;
    WithKeyLengthAppend(front, back, n);
    assert WithKeyLength(sorted, n) == wf + wb;
    if |e.0| == n {
      WithKeyLengthNone(back, n);
      assert (wf + we) + wb == wf + we;
      assert wf + wb == wf;
    } else {
      assert (wf + we) + wb == wf + wb;
      assert (wf + wb) + we == wf + wb;
    }
  }

  /**
   * Step 3 applies the column entries longest key first; entries whose keys have
   * the same length keep their relative order, and no entry is lost or added.
   */
  lemma {:induction false} SortByKeyLengthCorrect(cols: Entries)
    ensures SortedByKeyLength(SortByKeyLength(cols))
    ensures multiset(SortByKeyLength(cols)) == multiset(cols)
    ensures forall n: nat :: WithKeyLength(SortByKeyLength(cols), n) == WithKeyLength(cols, n)
  {
    if cols != [] {
      var k := |cols| - 1;
      SortByKeyLengthCorrect(cols[..k]);
      InsertSorted(cols[k], SortByKeyLength(cols[..k]));
      InsertPerm(cols[k], SortByKeyLength(cols[..k]));
      assert cols == cols[..k] + [cols[k]];
      forall n: nat ensures WithKeyLength(SortByKeyLength(cols), n) == WithKeyLength(cols, n) {
        InsertStable(cols[k], SortByKeyLength(cols[..k]), n);
      }
    }
  }

  /** The entry of `m` under `k`, when `k` is a key. */
  function EntryOf(m: Entries): string -> Entries {
    k => match Get(m, k) case Some(v) => [(k, v)] case None => []
  }

  /** The entries of a HashMap in its iteration order. */
  function HashOrder(order: Order, m: Entries): Entries {
    FlatMap(EntryOf(m), order(KeySet(m)))
  }

  /** Every element of `r` is an entry of `m`. */
  ghost predicate EntriesOfMap(r: Entries, m: Entries) {
    forall i :: 0 <= i < |r| ==> Get(m, r[i].0) == Some(r[i].1)
  }

  /** Every entry iterated is an entry of the map. */
  lemma HashOrderEntries(order: Order, m: Entries)
    ensures EntriesOfMap(HashOrder(order, m), m)
  {
    EntriesOfKeys(m, order(KeySet(m)));
  }

  lemma {:induction false} EntriesOfKeys(m: Entries, keys: seq<string>)
    ensures EntriesOfMap(FlatMap(EntryOf(m), keys), m)
  {
    if keys != [] {
      var n := |keys| - 1;
      EntriesOfKeys(m, keys[..n]);
      var front: Entries := FlatMap(EntryOf(m), keys[..n]);
      var t: Entries := EntryOf(m)(keys[n]);
      assert FlatMap(EntryOf(m), keys) == front + t;
      match Get(m, keys[n])
      case None =>
        assert t == [];
        assert front + t == front;
      case Some(v) =>
        assert t == [(keys[n], v)];
        forall i | 0 <= i < |front + t| ensures Get(m, (front + t)[i].0) == Some((front + t)[i].1) {
          if i < |front| {
            assert (front + t)[i] == front[i];
          } else {
            assert (front + t)[i] == (keys[n], v);
          }
        }
    }
  }

  /** `keys` lists the elements of `ks`, each exactly once. */
  predicate Lists(keys: seq<string>, ks: set<string>) {
    && Distinct(keys)
    && (forall k :: k in keys ==> k in ks)
    && (forall k :: k in ks ==> k in keys)
  }

  /** `order` is an iteration order: for every key set it lists each key exactly once. */
  ghost predicate Enumerates(order: Order) {
    forall ks: set<string> :: Lists(order(ks), ks)
  }

  /** Under an iteration order, a HashMap's entries are iterated each exactly once: a permutation of the map. */
  lemma HashOrderPermutation(order: Order, m: Entries)
    requires Enumerates(order) && UniqueKeys(m)
    ensures multiset(HashOrder(order, m)) == multiset(m)
    ensures |HashOrder(order, m)| == |m|
  {
    var keys := order(KeySet(m));
    assert Lists(keys, KeySet(m));
    var r := HashOrder(order, m);
    FlatMapEntriesKeys(m, keys);
    HashOrderEntries(order, m);
    forall e | e in r ensures e in m {
      var i :| 0 <= i < |r| && r[i] == e;
      var j := Find(m, e.0);
      assert m[j] == e;
    }
    forall e | e in m ensures e in r {
      var i :| 0 <= i < |m| && m[i] == e;
      assert e.0 in KeySet(m);
      assert e.0 in keys;
      var j :| 0 <= j < |keys| && keys[j] == e.0;
      FindUnique(m, i);
      FlatMapHasKey(m, keys, j);
    }
    DistinctSameElements(r, m);
  }

  /** Iterating distinct keys gives entries with distinct keys, each drawn from the keys. */
  lemma {:induction false} FlatMapEntriesKeys(m: Entries, keys: seq<string>)
    requires Distinct(keys)
    ensures UniqueKeys(FlatMap(EntryOf(m), keys))
    ensures forall i :: 0 <= i < |FlatMap(EntryOf(m), keys)| ==> FlatMap(EntryOf(m), keys)[i].0 in keys
  {
    if keys != [] {
      var n := |keys| - 1;
      FlatMapEntriesKeys(m, keys[..n]);
      var front := FlatMap(EntryOf(m), keys[..n]);
      var t := EntryOf(m)(keys[n]);
      assert FlatMap(EntryOf(m), keys) == front + t;
      assert forall i :: 0 <= i < |front| ==> front[i].0 in keys[..n];
      assert keys[n] !in keys[..n];
      forall i | 0 <= i < |front| ensures front[i].0 in keys {
        var j :| 0 <= j < n && keys[..n][j] == front[i].0;
        assert keys[j] == front[i].0;
      }
    }
  }

  /** Iterating a key that is present yields its entry. */
  lemma {:induction false} FlatMapHasKey(m: Entries, keys: seq<string>, j: nat)
    requires j < |keys| && Get(m, keys[j]).Some?
    ensures (keys[j], Get(m, keys[j]).value) in FlatMap(EntryOf(m), keys)
  {
    var n := |keys| - 1;
    var front := FlatMap(EntryOf(m), keys[..n]);
    var t := EntryOf(m)(keys[n]);
    assert FlatMap(EntryOf(m), keys) == front + t;
    if j < n {
      assert keys[..n][j] == keys[j];
      FlatMapHasKey(m, keys[..n], j);
    } else {
      assert t == [(keys[j], Get(m, keys[j]).value)];
    }
  }

  /** In a list with unique keys, an entry is found at its own position. */
  lemma FindUnique(m: Entries, i: nat)
    requires UniqueKeys(m) && i < |m|
    ensures Get(m, m[i].0) == Some(m[i].1)
  {
    var j := Find(m, m[i].0);
    assert j == i;
  }

  predicate Distinct<T(==)>(a: seq<T>) {
    forall i, j :: 0 <= i < j < |a| ==> a[i] != a[j]
  }

  /** Removing position `j` from a list without repeats removes exactly that element. */
  lemma RemoveAt<T>(b: seq<T>, j: nat)
    requires Distinct(b) && j < |b|
    ensures var b' := b[..j] + b[j + 1..];
      && Distinct(b')
      && multiset(b) == multiset(b') + multiset{b[j]}
      && (forall e :: e in b' <==> e in b && e != b[j])
  {
    var b' := b[..j] + b[j + 1..];
    assert b == b[..j] + [b[j]] + b[j + 1..];
    forall i, k | 0 <= i < k < |b'| ensures b'[i] != b'[k] {
      var i' := if i < j then i else i + 1;
      var k' := if k < j then k else k + 1;
      assert b'[i] == b[i'] && b'[k] == b[k'];
    }
    forall e ensures e in b' <==> e in b && e != b[j] {
      if e in b' {
        var k :| 0 <= k < |b'| && b'[k] == e;
        if k < j { assert b[k] == e; } else { assert b[k + 1] == e; }
      }
      if e in b && e != b[j] {
        var l :| 0 <= l < |b| && b[l] == e;
        if l < j { assert b'[l] == e; } else { assert b'[l - 1] == e; }
      }
    }
  }

  lemma FirstIn<T>(b: seq<T>)
    ensures b != [] ==> b[0] in b
  {
  }

  /** Two lists without repeats that hold the same elements are permutations of each other. */
  lemma {:induction false} DistinctSameElements<T>(a: seq<T>, b: seq<T>)
    requires Distinct(a) && Distinct(b)
    requires forall e :: e in a <==> e in b
    ensures multiset(a) == multiset(b)
    ensures |a| == |b|
    decreases |a|
  {
    if a == [] {
      FirstIn(b);
    } else {
      var n := |a| - 1;
      var x := a[n];
      assert x in b;
      var j :| 0 <= j < |b| && b[j] == x;
      RemoveAt(a, n);
      RemoveAt(b, j);
      assert a[..n] + a[n + 1..] == a[..n];
      DistinctSameElements(a[..n], b[..j] + b[j + 1..]);
    }
  }

  /** The aliases found in the original query (step 1). */
  datatype AliasInfo = AliasInfo(aliasToTable: map<string, string>, oldToNew: map<string, string>, newToTable: map<string, string>)

  /** `matcher.find()`: the leftmost FROM/JOIN match for `table` at or after `p`. */
  function FirstAliasedMatch(s: string, table: string, p: nat): (r: Option<(nat, AliasMatch)>)
    ensures r.Some? ==> p <= r.value.0 < r.value.1.aliasStart < r.value.1.end <= |s|
    decreases |s| - p
  {
    if p >= |s| then None
    else
      match AliasedMatch(s, p, table)
      case Some(m) => Some((p, m))
      case None => FirstAliasedMatch(s, table, p + 1)
  }

  /** Step 1 for one table: the alias of its first FROM/JOIN clause in `s`, if any, is recorded. */
  function FindAlias(info: AliasInfo, s: string, oldTable: string, newTable: string, newAlias: string): AliasInfo {
    match FirstAliasedMatch(s, oldTable, 0)
    case None => info
    case Some((_, m)) =>
      var a := Lower(s[m.aliasStart..m.end]);
      AliasInfo(info.aliasToTable[a := oldTable], info.oldToNew[a := newAlias], info.newToTable[Lower(newAlias) := newTable])
  }

  /** Step 1 over the tables in iteration order. */
  function FindAliases(s: string, tables: Entries, aliases: Entries): AliasInfo
    requires AliasesCover(tables, aliases)
  {
    if tables == [] then AliasInfo(map[], map[], map[])
    else
      var n := |tables| - 1;
      var (oldTable, newTable) := tables[n];
      FindAlias(FindAliases(s, tables[..n], aliases), s, oldTable, newTable, Get(aliases, Lower(oldTable)).value)
  }

  /**
   * The two alias maps of step 1 have the same keys, each alias names one of the
   * replaced tables, and each generated alias stands for one of the new tables.
   */
  lemma {:induction false} FindAliasesFacts(s: string, tables: Entries, aliases: Entries)
    requires AliasesCover(tables, aliases)
    ensures var info := FindAliases(s, tables, aliases);
            && info.aliasToTable.Keys == info.oldToNew.Keys
            && (forall a :: a in info.aliasToTable ==> info.aliasToTable[a] in KeySet(tables))
            && (forall a :: a in info.newToTable ==> exists i :: 0 <= i < |tables| && info.newToTable[a] == tables[i].1)
  {
    if tables != [] {
      var n := |tables| - 1;
      FindAliasesFacts(s, tables[..n], aliases);
      var prev := FindAliases(s, tables[..n], aliases);
      forall a | a in prev.aliasToTable ensures prev.aliasToTable[a] in KeySet(tables) {
        var j :| 0 <= j < |tables[..n]| && tables[..n][j].0 == prev.aliasToTable[a];
        assert tables[j].0 == prev.aliasToTable[a];
      }
      forall a | a in prev.newToTable ensures exists i :: 0 <= i < |tables| && prev.newToTable[a] == tables[i].1 {
        var j :| 0 <= j < n && prev.newToTable[a] == tables[..n][j].1;
        assert tables[j].1 == prev.newToTable[a];
      }
      assert tables[n].0 in KeySet(tables);
    }
  }

  /** Step 2 for one table: its aliased FROM/JOIN clauses, then its bare ones. */
  function ReplaceTable(s: string, oldTable: string, newTable: string, newAlias: string): string {
    var r := ReplaceAll(FromJoinAliased(oldTable), " " + newTable + " " + newAlias, s);
    ReplaceAll(FromJoinBare(oldTable), " " + newTable, r)
  }

  /** Step 2 over the tables in iteration order. */
  function ReplaceTables(s: string, tables: Entries, aliases: Entries): string
    requires AliasesCover(tables, aliases)
  {
    if tables == [] then s
    else
      var n := |tables| - 1;
      var (oldTable, newTable) := tables[n];
      ReplaceTable(ReplaceTables(s, tables[..n], aliases), oldTable, newTable, Get(aliases, Lower(oldTable)).value)
  }

  /** The alias written for a replaced column: the table's generated alias, or one generated from the new table. */
  function AliasFor(aliases: Entries, oldTable: string, newTable: string): string {
    match Get(aliases, Lower(oldTable))
    case Some(a) => a
    case None => GenerateAlias(newTable)
  }

  /** The inner loop of step 3: `alias.column` for every alias found for `oldTable`, in HashMap order. */
  function ReplaceAliasColumns(s: string, info: AliasInfo, aliasOrder: seq<string>, oldTable: string,
                               oldColumn: string, target: string): string
  {
    if aliasOrder == [] then s
    else
      var n := |aliasOrder| - 1;
      var r := ReplaceAliasColumns(s, info, aliasOrder[..n], oldTable, oldColumn, target);
      var oldAlias := aliasOrder[n];
      if oldAlias in info.aliasToTable && EqualsIgnoreCase(info.aliasToTable[oldAlias], oldTable) then
        ReplaceAll(QualifiedColumn(oldAlias, oldColumn), target, r)
      else r
  }

  /** Step 3 for one column entry: through its old aliases, its old table and its new table. */
  function ReplaceColumn(s: string, info: AliasInfo, aliases: Entries, order: Order,
                         oldQualified: string, newQualified: string): string
  {
    if '.' in oldQualified && '.' in newQualified then
      var (oldTable, oldColumn) := SplitFirstDot(oldQualified);
      var (newTable, newColumn) := SplitFirstDot(newQualified);
      var target := AliasFor(aliases, oldTable, newTable) + "." + newColumn;
      var r1 := ReplaceAliasColumns(s, info, order(info.oldToNew.Keys), oldTable, oldColumn, target);
      var r2 := ReplaceAll(QualifiedColumn(oldTable, oldColumn), target, r1);
      ReplaceAll(QualifiedColumn(newTable, newColumn), target, r2)
    else s
  }

  /** Step 3 over the sorted column entries. */
  function ReplaceColumns(s: string, info: AliasInfo, aliases: Entries, order: Order, sorted: Entries): string {
    if sorted == [] then s
    else
      var n := |sorted| - 1;
      ReplaceColumn(ReplaceColumns(s, info, aliases, order, sorted[..n]), info, aliases, order, sorted[n].0, sorted[n].1)
  }

  /** Steps 1 to 4 over `query`, the table and column entries taken in the given iteration orders. */
  function Rewrite(query: string, c: Replacements, tables: Entries, columns: Entries, order: Order): string
    requires AliasesCover(tables, c.aliases)
  {
    var info := FindAliases(query, tables, c.aliases);
    var afterTables := ReplaceTables(query, tables, c.aliases);
    var afterColumns := ReplaceColumns(afterTables, info, c.aliases, order, SortByKeyLength(Dotted(columns)));
    AsRewrite(afterColumns, info.newToTable)
  }

  /** `applyReplacementsWithFormatting`: the processor's log, in insertion order, applied to the original query. */
  function ApplyReplacements(originalQuery: string, replacements: Entries, order: Order): string {
    var c := Classify(replacements);
    ClassifyCovers(replacements);
    Rewrite(originalQuery, c, c.tables, c.columns, order)
  }

  /** The (deprecatedObject, newObject) pairs of the mapping rows. */
  function MappingPairs(mappings: seq<MappingEntry>): Entries {
    seq(|mappings|, i requires 0 <= i < |mappings| => (mappings[i].deprecatedObject, JavaStr(mappings[i].newObject)))
  }

  /** Every table iterated in HashMap order has its alias. */
  lemma HashOrderCovers(order: Order, c: Replacements)
    requires AliasesCover(c.tables, c.aliases)
    ensures AliasesCover(HashOrder(order, c.tables), c.aliases)
  {
    HashOrderEntries(order, c.tables);
    assert EntriesOfMap(HashOrder(order, c.tables), c.tables);
    forall i | 0 <= i < |HashOrder(order, c.tables)| ensures Lower(HashOrder(order, c.tables)[i].0) in KeySet(c.aliases) {
      var k := HashOrder(order, c.tables)[i].0;
      var j := Find(c.tables, k);
      assert j < |c.tables| && c.tables[j].0 == k;
    }
  }

  /** `performSimpleReplacement`: the mapping pairs applied, every map iterated in HashMap order. */
  function SimpleReplacement(query: string, mappings: seq<MappingEntry>, order: Order): string {
    var c := Classify(MappingPairs(mappings));
    ClassifyCovers(MappingPairs(mappings));
    HashOrderCovers(order, c);
    Rewrite(query, c, HashOrder(order, c.tables), HashOrder(order, c.columns), order)
  }

  /** An empty replacement log leaves the query as written. */
  lemma EmptyLogUnchanged(originalQuery: string, order: Order)
    ensures ApplyReplacements(originalQuery, [], order) == originalQuery
  {
    var c := Classify([]);
    assert c == Replacements([], [], []);
    assert FindAliases(originalQuery, [], []) == AliasInfo(map[], map[], map[]);
    assert Dotted([]) == [];
    AsRewriteNoAliases(originalQuery);
  }

  /** An empty HashMap iterates nothing, whatever the order. */
  lemma {:induction false} EmptyHashOrder(order: Order)
    ensures HashOrder(order, []) == []
  {
    NoEntriesOfEmpty(order(KeySet([])));
  }

  lemma {:induction false} NoEntriesOfEmpty(keys: seq<string>)
    ensures FlatMap(EntryOf([]), keys) == []
  {
    if keys != [] {
      NoEntriesOfEmpty(keys[..|keys| - 1]);
      assert Get([], keys[|keys| - 1]).None?;
    }
  }

  /** With no mapping rows the fallback rewriter returns the query as written. */
  lemma NoMappingsUnchanged(query: string, order: Order)
    ensures SimpleReplacement(query, [], order) == query
  {
    assert MappingPairs([]) == [];
    assert Classify([]) == Replacements([], [], []);
    EmptyHashOrder(order);
    assert FindAliases(query, [], []) == AliasInfo(map[], map[], map[]);
    assert Dotted([]) == [];
    AsRewriteNoAliases(query);
  }

  /** Under an iteration order, the fallback visits every table and every column pair it classified, each once. */
  lemma SimpleReplacementVisitsAll(order: Order, mappings: seq<MappingEntry>)
    requires Enumerates(order)
    ensures var c := Classify(MappingPairs(mappings));
      && multiset(HashOrder(order, c.tables)) == multiset(c.tables)
      && multiset(HashOrder(order, c.columns)) == multiset(c.columns)
  {
    var c := Classify(MappingPairs(mappings));
    ClassifyCovers(MappingPairs(mappings));
    HashOrderPermutation(order, c.tables);
    HashOrderPermutation(order, c.columns);
  }

  /** `pat` matches nowhere in `s`. */
  ghost predicate Unmatched(pat: Pattern, s: string) {
    forall k :: 0 <= k < |s| ==> MatchEnd(pat, s, k).None?
  }

  /** Neither FROM/JOIN pattern of any table entry matches in `s`. */
  ghost predicate TablesUnmatched(s: string, tables: Entries) {
    forall i :: 0 <= i < |tables| ==> Unmatched(FromJoinAliased(tables[i].0), s) && Unmatched(FromJoinBare(tables[i].0), s)
  }

  /** A column entry with a dot on both sides: neither its old nor its new `table.column` matches in `s`. */
  ghost predicate ColumnUnmatched(s: string, e: (string, string)) {
    '.' in e.0 && '.' in e.1 ==>
      var (oldTable, oldColumn) := SplitFirstDot(e.0);
      var (newTable, newColumn) := SplitFirstDot(e.1);
      Unmatched(QualifiedColumn(oldTable, oldColumn), s) && Unmatched(QualifiedColumn(newTable, newColumn), s)
  }

  ghost predicate ColumnsUnmatched(s: string, columns: Entries) {
    forall i :: 0 <= i < |columns| ==> ColumnUnmatched(s, columns[i])
  }

  lemma {:induction false} FirstAliasedMatchNone(s: string, table: string, p: nat)
    requires Unmatched(FromJoinAliased(table), s)
    ensures FirstAliasedMatch(s, table, p).None?
    decreases |s| - p
  {
    if p < |s| {
      assert MatchEnd(FromJoinAliased(table), s, p).None?;
      FirstAliasedMatchNone(s, table, p + 1);
    }
  }

  /** Without a FROM/JOIN match, step 1 finds no alias. */
  lemma {:induction false} FindAliasesNone(s: string, tables: Entries, aliases: Entries)
    requires AliasesCover(tables, aliases) && TablesUnmatched(s, tables)
    ensures FindAliases(s, tables, aliases) == AliasInfo(map[], map[], map[])
  {
    if tables != [] {
      var n := |tables| - 1;
      assert TablesUnmatched(s, tables[..n]) by {
        forall i | 0 <= i < n ensures tables[..n][i] == tables[i] { }
      }
      FindAliasesNone(s, tables[..n], aliases);
      FirstAliasedMatchNone(s, tables[n].0, 0);
    }
  }

  /** Without a FROM/JOIN match, step 2 leaves the text as it is. */
  lemma {:induction false} ReplaceTablesNone(s: string, tables: Entries, aliases: Entries)
    requires AliasesCover(tables, aliases) && TablesUnmatched(s, tables)
    ensures ReplaceTables(s, tables, aliases) == s
  {
    if tables != [] {
      var n := |tables| - 1;
      assert TablesUnmatched(s, tables[..n]) by {
        forall i | 0 <= i < n ensures tables[..n][i] == tables[i] { }
      }
      ReplaceTablesNone(s, tables[..n], aliases);
      var (oldTable, newTable) := tables[n];
      var newAlias := Get(aliases, Lower(oldTable)).value;
      ReplaceAllNoMatch(FromJoinAliased(oldTable), " " + newTable + " " + newAlias, s);
      ReplaceAllNoMatch(FromJoinBare(oldTable), " " + newTable, s);
    }
  }

  lemma {:induction false} ReplaceAliasColumnsNone(s: string, info: AliasInfo, aliasOrder: seq<string>, oldTable: string,
                                                  oldColumn: string, target: string)
    requires info.aliasToTable == map[]
    ensures ReplaceAliasColumns(s, info, aliasOrder, oldTable, oldColumn, target) == s
  {
    if aliasOrder != [] {
      ReplaceAliasColumnsNone(s, info, aliasOrder[..|aliasOrder| - 1], oldTable, oldColumn, target);
    }
  }

  /** With no alias found and no `table.column` match, step 3 leaves the text as it is. */
  lemma {:induction false} ReplaceColumnsNone(s: string, info: AliasInfo, aliases: Entries, order: Order, sorted: Entries)
    requires info.aliasToTable == map[] && ColumnsUnmatched(s, sorted)
    ensures ReplaceColumns(s, info, aliases, order, sorted) == s
  {
    if sorted != [] {
      var n := |sorted| - 1;
      assert ColumnsUnmatched(s, sorted[..n]) by {
        forall i | 0 <= i < n ensures sorted[..n][i] == sorted[i] { }
      }
      ReplaceColumnsNone(s, info, aliases, order, sorted[..n]);
      var (oldQualified, newQualified) := sorted[n];
      assert ColumnUnmatched(s, sorted[n]);
      if '.' in oldQualified && '.' in newQualified {
        var (oldTable, oldColumn) := SplitFirstDot(oldQualified);
        var (newTable, newColumn) := SplitFirstDot(newQualified);
        var target := AliasFor(aliases, oldTable, newTable) + "." + newColumn;
        ReplaceAliasColumnsNone(s, info, order(info.oldToNew.Keys), oldTable, oldColumn, target);
        ReplaceAllNoMatch(QualifiedColumn(oldTable, oldColumn), target, s);
        ReplaceAllNoMatch(QualifiedColumn(newTable, newColumn), target, s);
      }
    }
  }

  /**
   * When no FROM/JOIN pattern of a table entry and no `table.column` pattern of a
   * column entry matches the query, the four steps return it unchanged.
   */
  lemma RewriteUnmatched(query: string, c: Replacements, tables: Entries, columns: Entries, order: Order)
    requires AliasesCover(tables, c.aliases)
    requires TablesUnmatched(query, tables) && ColumnsUnmatched(query, columns)
    ensures Rewrite(query, c, tables, columns, order) == query
  {
    var sorted := SortByKeyLength(Dotted(columns));
    SortByKeyLengthCorrect(Dotted(columns));
    DottedMembers(columns);
    forall i | 0 <= i < |sorted| ensures ColumnUnmatched(query, sorted[i]) {
      assert sorted[i] in multiset(sorted);
      assert sorted[i] in Dotted(columns);
      var j :| 0 <= j < |columns| && columns[j] == sorted[i];
    }
    FindAliasesNone(query, tables, c.aliases);
    ReplaceTablesNone(query, tables, c.aliases);
    ReplaceColumnsNone(query, FindAliases(query, tables, c.aliases), c.aliases, order, sorted);
    AsRewriteNoAliases(query);
  }

  /** A log none of whose classified entries matches the original query leaves it as written. */
  lemma ApplyReplacementsUnmatched(originalQuery: string, replacements: Entries, order: Order)
    requires TablesUnmatched(originalQuery, Classify(replacements).tables)
    requires ColumnsUnmatched(originalQuery, Classify(replacements).columns)
    ensures ApplyReplacements(originalQuery, replacements, order) == originalQuery
  {
    var c := Classify(replacements);
    ClassifyCovers(replacements);
    RewriteUnmatched(originalQuery, c, c.tables, c.columns, order);
  }

  /** Iterating a map yields only its entries, so what no table entry matches, no iterated one does. */
  lemma HashOrderTables(order: Order, m: Entries, s: string)
    requires TablesUnmatched(s, m)
    ensures TablesUnmatched(s, HashOrder(order, m))
  {
    var r := HashOrder(order, m);
    HashOrderEntries(order, m);
    forall i | 0 <= i < |r| ensures r[i].0 == m[Find(m, r[i].0)].0 {
    }
  }

  lemma HashOrderColumns(order: Order, m: Entries, s: string)
    requires ColumnsUnmatched(s, m)
    ensures ColumnsUnmatched(s, HashOrder(order, m))
  {
    var r := HashOrder(order, m);
    HashOrderEntries(order, m);
    forall i | 0 <= i < |r| ensures r[i] == m[Find(m, r[i].0)] {
    }
  }

  /**
   * When no FROM/JOIN pattern of a dot-free deprecated object and no
   * `table.column` pattern of a column pair matches, the fallback returns the
   * query as written, whatever the iteration order.
   */
  lemma SimpleReplacementUnmatched(query: string, mappings: seq<MappingEntry>, order: Order)
    requires TablesUnmatched(query, Classify(MappingPairs(mappings)).tables)
    requires ColumnsUnmatched(query, Classify(MappingPairs(mappings)).columns)
    ensures SimpleReplacement(query, mappings, order) == query
  {
    var c := Classify(MappingPairs(mappings));
    ClassifyCovers(MappingPairs(mappings));
    HashOrderCovers(order, c);
    HashOrderTables(order, c.tables, query);
    HashOrderColumns(order, c.columns, query);
    RewriteUnmatched(query, c, HashOrder(order, c.tables), HashOrder(order, c.columns), order);
  }
}
