/**
 * java.util.LinkedHashMap as the rewriter uses it: an association list in
 * insertion order. `put` of a new key appends it; `put` of a key already
 * present replaces its value and keeps its position.
 */
module LinkedMap {
  import opened Text

  type Entries = seq<(string, string)>

  predicate UniqueKeys(m: Entries) {
    forall i, j :: 0 <= i < j < |m| ==> m[i].0 != m[j].0
  }

  function KeySet(m: Entries): set<string> {
    set i | 0 <= i < |m| :: m[i].0
  }

  /** Position of `k` in `m`, or |m| when `k` is absent. */
  function Find(m: Entries, k: string): (i: nat)
    ensures i <= |m|
    ensures i < |m| ==> m[i].0 == k
    ensures forall j :: 0 <= j < i ==> m[j].0 != k
  {
    if m == [] then 0
    else if m[0].0 == k then 0
    else 1 + Find(m[1..], k)
  }

  function Get(m: Entries, k: string): (r: Option<string>)
    ensures r.Some? <==> k in KeySet(m)
  {
    var i := Find(m, k);
    if i < |m| then Some(m[i].1) else None
  }

  /** LinkedHashMap.put. */
  function Put(m: Entries, k: string, v: string): (r: Entries)
    ensures Get(r, k) == Some(v)
    ensures forall k' :: k' != k ==> Get(r, k') == Get(m, k')
    ensures KeySet(r) == KeySet(m) + {k}
    ensures k in KeySet(m) ==> |r| == |m| && Find(r, k) == Find(m, k) && r == m[Find(m, k) := (k, v)]
    ensures k !in KeySet(m) ==> r == m + [(k, v)]
    ensures forall i :: 0 <= i < |m| ==> r[i].0 == m[i].0
    ensures UniqueKeys(m) ==> UniqueKeys(r)
  {
    var i := Find(m, k);
    if i < |m| then
      ReplaceFacts(m, k, v, i);
      m[i := (k, v)]
    else
      AppendFacts(m, k, v);
      m + [(k, v)]
  }

  lemma ReplaceFacts(m: Entries, k: string, v: string, i: nat)
    requires i == Find(m, k) < |m|
    ensures Get(m[i := (k, v)], k) == Some(v)
    ensures forall k' :: k' != k ==> Get(m[i := (k, v)], k') == Get(m, k')
    ensures KeySet(m[i := (k, v)]) == KeySet(m)
    ensures Find(m[i := (k, v)], k) == Find(m, k)
    ensures UniqueKeys(m) ==> UniqueKeys(m[i := (k, v)])
  {
    var r := m[i := (k, v)];
    forall k' ensures Find(r, k') == Find(m, k') {
      FindAgrees(m, r, k');
    }
    assert KeySet(r) == KeySet(m) by {
      forall x ensures x in KeySet(r) <==> x in KeySet(m) {
        if x in KeySet(m) { var j :| 0 <= j < |m| && m[j].0 == x; assert r[j].0 == x; }
        if x in KeySet(r) { var j :| 0 <= j < |r| && r[j].0 == x; assert m[j].0 == x; }
      }
    }
  }

  lemma AppendFacts(m: Entries, k: string, v: string)
    requires Find(m, k) == |m|
    ensures Get(m + [(k, v)], k) == Some(v)
    ensures forall k' :: k' != k ==> Get(m + [(k, v)], k') == Get(m, k')
    ensures KeySet(m + [(k, v)]) == KeySet(m) + {k}
    ensures UniqueKeys(m) ==> UniqueKeys(m + [(k, v)])
  {
    var r := m + [(k, v)];
    forall k' | k' != k ensures Get(r, k') == Get(m, k') {
      FindAppend(m, (k, v), k');
    }
    FindAppend(m, (k, v), k);
    assert KeySet(r) == KeySet(m) + {k} by {
      forall x ensures x in KeySet(r) <==> x in KeySet(m) + {k} {
        if x in KeySet(m) { var j :| 0 <= j < |m| && m[j].0 == x; assert r[j].0 == x; }
        if x == k { assert r[|m|].0 == k; }
        if x in KeySet(r) { var j :| 0 <= j < |r| && r[j].0 == x; if j < |m| { assert m[j].0 == x; } }
      }
    }
  }

  /** Two lists with the same keys at the same positions find every key at the same place. */
  lemma {:induction false} FindAgrees(m: Entries, r: Entries, k: string)
    requires |m| == |r|
    requires forall j :: 0 <= j < |m| ==> m[j].0 == r[j].0
    ensures Find(r, k) == Find(m, k)
  {
    if m != [] && m[0].0 != k {
      FindAgrees(m[1..], r[1..], k);
    }
  }

  lemma {:induction false} FindAppend(m: Entries, e: (string, string), k: string)
    ensures Find(m + [e], k) == if Find(m, k) < |m| then Find(m, k) else if e.0 == k then |m| else |m| + 1
  {
    if m != [] && m[0].0 != k {
      assert (m + [e])[1..] == m[1..] + [e];
      FindAppend(m[1..], e, k);
    }
  }
}
