/**
 * The comparison snapshot of include/RecloserServiceImpl.hpp: `ServiceTreeNode` holds a service
 * key, a display name, a `std::set` of feature keys and a `std::map` from service key to child
 * node. The set is a strictly ascending sequence and the map an association list strictly
 * ascending by key, so iterating them visits elements in the order the C++ containers do.
 */
module ServiceTreeNodes {
  import opened Wrappers
  import opened StringOrder

  datatype ServiceTreeNode = ServiceTreeNode(
    serviceKey: string,
    displayName: string,
    features: seq<string>,
    children: ServiceMap)

  /** `std::map<std::string, ServiceTreeNode>`. */
  datatype ServiceMap = ServiceMap(entries: seq<Entry>)

  datatype Entry = Entry(key: string, node: ServiceTreeNode)

  const EmptyMap: ServiceMap := ServiceMap([])

  /** The keys ascend strictly, so no key occurs twice. */
  predicate KeysAscending(m: ServiceMap)
  {
    forall i, j :: 0 <= i < j < |m.entries| ==> Less(m.entries[i].key, m.entries[j].key)
  }

  /**
   * What every snapshot the builder produces satisfies, at every level: unique ascending
   * keys, each node filed under its own service key, and feature sets without duplicates.
   */
  predicate WellFormed(m: ServiceMap)
  {
    && KeysAscending(m)
    && forall i :: 0 <= i < |m.entries| ==>
         && m.entries[i].node.serviceKey == m.entries[i].key
         && StrictlySorted(m.entries[i].node.features)
         && WellFormed(m.entries[i].node.children)
  }

  function KeySet(m: ServiceMap): set<string>
  {
    set e | e in m.entries :: e.key
  }

  lemma KeyIndex(m: ServiceMap, k: string) returns (i: int)
    requires k in KeySet(m)
    ensures 0 <= i < |m.entries| && m.entries[i].key == k
  {
    var e :| e in m.entries && e.key == k;
    i :| 0 <= i < |m.entries| && m.entries[i] == e;
  }

  lemma KeysDistinct(m: ServiceMap, i: int, j: int)
    requires KeysAscending(m)
    requires 0 <= i < |m.entries| && 0 <= j < |m.entries| && i != j
    ensures m.entries[i].key != m.entries[j].key
  {
    if m.entries[i].key == m.entries[j].key { LessIrreflexive(m.entries[i].key); }
  }

  /** `std::map::find`: the node filed under `k`, if any (the first one, for a list with repeats). */
  function Find(m: ServiceMap, k: string): (r: Option<ServiceTreeNode>)
    ensures r.None? <==> k !in KeySet(m)
    ensures r.Some? ==> Entry(k, r.value) in m.entries
    decreases |m.entries|
  {
    if |m.entries| == 0 then None
    else if m.entries[0].key == k then Some(m.entries[0].node)
    else
      var r := Find(ServiceMap(m.entries[1..]), k);
      assert KeySet(m) == {m.entries[0].key} + KeySet(ServiceMap(m.entries[1..])) by {
        assert m.entries == [m.entries[0]] + m.entries[1..];
      }
      r
  }

  /** With unique keys, `find` on a key of the map yields the node filed under it. */
  lemma FindAt(m: ServiceMap, i: int)
    requires KeysAscending(m)
    requires 0 <= i < |m.entries|
    ensures Find(m, m.entries[i].key) == Some(m.entries[i].node)
  {
    var r := Find(m, m.entries[i].key);
    var j :| 0 <= j < |m.entries| && m.entries[j] == Entry(m.entries[i].key, r.value);
    if j != i { KeysDistinct(m, i, j); }
  }

  /**
   * `tree[k] = n`: replaces the node under `k`, or inserts `Entry(k, n)` at its place.
   */
  function Assign(m: ServiceMap, k: string, n: ServiceTreeNode): (r: ServiceMap)
    requires KeysAscending(m)
    ensures KeysAscending(r)
    ensures KeySet(r) == KeySet(m) + {k}
    ensures Entry(k, n) in r.entries
    ensures forall e :: e in r.entries ==> e == Entry(k, n) || (e in m.entries && e.key != k)
    decreases |m.entries|
  {
    if |m.entries| == 0 then ServiceMap([Entry(k, n)])
    else if m.entries[0].key == k then
      var r := ServiceMap([Entry(k, n)] + m.entries[1..]);
      TailKeysDiffer(m);
      assert KeySet(m) == {k} + KeySet(ServiceMap(m.entries[1..])) by {
        assert m.entries == [m.entries[0]] + m.entries[1..];
      }
      r
    else if Less(k, m.entries[0].key) then
      var r := ServiceMap([Entry(k, n)] + m.entries);
      PrependLess(m, k, n);
      r
    else
      LessTotal(k, m.entries[0].key);
      var rest := Assign(ServiceMap(m.entries[1..]), k, n);
      var r := ServiceMap([m.entries[0]] + rest.entries);
      assert KeySet(m) == {m.entries[0].key} + KeySet(ServiceMap(m.entries[1..])) by {
        assert m.entries == [m.entries[0]] + m.entries[1..];
      }
      TailKeysDiffer(m);
      ConsAscending(m, rest, k, n);
      r
  }

  lemma TailKeysDiffer(m: ServiceMap)
    requires KeysAscending(m) && |m.entries| > 0
    ensures forall e :: e in m.entries[1..] ==> e.key != m.entries[0].key
  {
    forall e | e in m.entries[1..]
      ensures e.key != m.entries[0].key
    {
      var j :| 0 <= j < |m.entries[1..]| && m.entries[1..][j] == e;
      KeysDistinct(m, 0, j + 1);
    }
  }

  lemma PrependLess(m: ServiceMap, k: string, n: ServiceTreeNode)
    requires KeysAscending(m) && |m.entries| > 0 && Less(k, m.entries[0].key)
    ensures KeysAscending(ServiceMap([Entry(k, n)] + m.entries))
    ensures k !in KeySet(m)
  {
    var r := [Entry(k, n)] + m.entries;
    forall j | 1 <= j < |r|
      ensures Less(k, r[j].key)
    {
      if j > 1 { LessTransitive(k, m.entries[0].key, m.entries[j - 1].key); }
    }
    if k in KeySet(m) {
      var i := KeyIndex(m, k);
      if i > 0 { LessTransitive(k, m.entries[0].key, m.entries[i].key); }
      LessIrreflexive(k);
    }
  }

  lemma ConsAscending(m: ServiceMap, rest: ServiceMap, k: string, n: ServiceTreeNode)
    requires KeysAscending(m) && |m.entries| > 0 && Less(m.entries[0].key, k)
    requires KeysAscending(rest)
    requires forall e :: e in rest.entries ==> e == Entry(k, n) || e in m.entries[1..]
    ensures KeysAscending(ServiceMap([m.entries[0]] + rest.entries))
  {
    forall j | 0 <= j < |rest.entries|
      ensures Less(m.entries[0].key, rest.entries[j].key)
    {
      assert rest.entries[j] in rest.entries;
      if rest.entries[j] != Entry(k, n) {
        var i :| 0 <= i < |m.entries[1..]| && m.entries[1..][i] == rest.entries[j];
        assert m.entries[i + 1] == rest.entries[j];
      }
    }
  }

  /** After `tree[k] = n`, looking up `k` gives `n` and every other key is unaffected. */
  lemma {:induction false} FindAfterAssign(m: ServiceMap, k: string, n: ServiceTreeNode, k': string)
    requires KeysAscending(m)
    ensures Find(Assign(m, k, n), k') == if k' == k then Some(n) else Find(m, k')
  {
    var r := Assign(m, k, n);
    if k' == k {
      var i :| 0 <= i < |r.entries| && r.entries[i] == Entry(k, n);
      FindAt(r, i);
    } else if k' in KeySet(m) {
      var i := KeyIndex(m, k');
      FindAt(m, i);
      assert m.entries[i] in r.entries by {
        var j := KeyIndex(r, k');
        assert r.entries[j] in r.entries;
        var t := Find(m, k');
        assert Entry(k', t.value) in m.entries;
        assert r.entries[j] in m.entries;
        var i' :| 0 <= i' < |m.entries| && m.entries[i'] == r.entries[j];
        if i' != i { KeysDistinct(m, i, i'); }
      }
      var j :| 0 <= j < |r.entries| && r.entries[j] == m.entries[i];
      FindAt(r, j);
    }
  }

  /** Filing a well-formed node under its own key keeps the snapshot well-formed. */
  lemma AssignWellFormed(m: ServiceMap, n: ServiceTreeNode)
    requires WellFormed(m)
    requires StrictlySorted(n.features) && WellFormed(n.children)
    ensures WellFormed(Assign(m, n.serviceKey, n))
  {
    var r := Assign(m, n.serviceKey, n);
    forall i | 0 <= i < |r.entries|
      ensures r.entries[i].node.serviceKey == r.entries[i].key
      ensures StrictlySorted(r.entries[i].node.features)
      ensures WellFormed(r.entries[i].node.children)
    {
      assert r.entries[i] in r.entries;
      if r.entries[i] != Entry(n.serviceKey, n) {
        var j :| 0 <= j < |m.entries| && m.entries[j] == r.entries[i];
      }
    }
  }

  /** `tree[e.key] = e.node` for each entry of `es`, in order. */
  function AssignAll(m: ServiceMap, es: seq<Entry>): (r: ServiceMap)
    requires KeysAscending(m)
    ensures KeysAscending(r)
    ensures KeySet(r) == KeySet(m) + set e | e in es :: e.key
  {
    if |es| == 0 then m
    else
      var r := Assign(AssignAll(m, es[..|es| - 1]), es[|es| - 1].key, es[|es| - 1].node);
      assert es == es[..|es| - 1] + [es[|es| - 1]];
      r
  }

  /** Filing one more entry is one more `Assign`. */
  lemma AssignAllSnoc(m: ServiceMap, es: seq<Entry>, e: Entry)
    requires KeysAscending(m)
    ensures AssignAll(m, es + [e]) == Assign(AssignAll(m, es), e.key, e.node)
  {
    assert (es + [e])[..|es + [e]| - 1] == es;
  }

  /** The index of the last entry of `es` filed under `k`, if any. */
  function LastFor(es: seq<Entry>, k: string): (r: Option<nat>)
    ensures r.None? <==> forall i :: 0 <= i < |es| ==> es[i].key != k
    ensures r.Some? ==> r.value < |es| && es[r.value].key == k
    ensures r.Some? ==> forall j :: r.value < j < |es| ==> es[j].key != k
  {
    if |es| == 0 then None
    else if es[|es| - 1].key == k then Some(|es| - 1)
    else LastFor(es[..|es| - 1], k)
  }

  /** After filing a sequence of entries, a key holds the node of its last entry; other keys are untouched. */
  lemma {:induction false} FindAfterAssignAll(m: ServiceMap, es: seq<Entry>, k: string)
    requires KeysAscending(m)
    ensures Find(AssignAll(m, es), k) ==
      match LastFor(es, k)
      case None => Find(m, k)
      case Some(i) => Some(es[i].node)
    decreases |es|
  {
    if |es| > 0 {
      var e := es[|es| - 1];
      FindAfterAssignAll(m, es[..|es| - 1], k);
      FindAfterAssign(AssignAll(m, es[..|es| - 1]), e.key, e.node, k);
    }
  }

  /** Filing well-formed nodes under their own keys keeps a snapshot well-formed. */
  lemma {:induction false} AssignAllWellFormed(m: ServiceMap, es: seq<Entry>)
    requires WellFormed(m)
    requires forall i :: 0 <= i < |es| ==>
      es[i].node.serviceKey == es[i].key && StrictlySorted(es[i].node.features) && WellFormed(es[i].node.children)
    ensures WellFormed(AssignAll(m, es))
    decreases |es|
  {
    if |es| > 0 {
      AssignAllWellFormed(m, es[..|es| - 1]);
      AssignWellFormed(AssignAll(m, es[..|es| - 1]), es[|es| - 1].node);
    }
  }
}
