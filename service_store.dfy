/**
 * The store interface src/RecloserServiceImpl.cpp calls, and what its two tree builders compute
 * from it. The service code reads services with a `service_key` and features by bare service id,
 * which the table layout of src/RecloserManager.cpp does not offer; so the store is taken here
 * exactly as it is called: four lookup functions.
 */
module ServiceStore {
  import opened Wrappers
  import opened StringOrder
  import opened ServiceTreeNodes
  import opened ManagerRecords
  import opened Messages

  /** A service as the tree builders read it. */
  datatype StoreService = StoreService(id: int, serviceKey: string, descriptionKey: string)

  /** A feature as the tree builders read it. */
  datatype StoreFeature = StoreFeature(id: int, descriptionKey: string)

  /**
   * `getServicesByParentAndFirmware`, `getFeaturesByService`, `getTranslation` and
   * `getTranslationsForKey`, as the service code calls them.
   */
  datatype Store = Store(
    servicesBy: (int, int) -> seq<StoreService>,
    featuresBy: int -> seq<StoreFeature>,
    translation: (string, string) -> string,
    translationsFor: string -> seq<TranslationRecord>)

  /**
   * The parent relation is acyclic: every service listed under a parent has a smaller rank
   * than the parent. The builders recurse along it and terminate only on such data.
   */
  ghost predicate Ranked(st: Store, rank: int -> nat)
  {
    forall p, fw, i :: 0 <= i < |st.servicesBy(p, fw)| ==> rank(st.servicesBy(p, fw)[i].id) < rank(p)
  }

  // ---------------------------------------------------------------------------------------
  // The message tree of GetServiceTree / buildServiceNode

  /** The features of a service as `Feature` messages, each with its translations, in store order. */
  function FeatureMessages(st: Store, fs: seq<StoreFeature>): (r: seq<Feature>)
    ensures |r| == |fs|
    ensures forall i :: 0 <= i < |fs| ==>
      r[i] == Feature(fs[i].id, fs[i].descriptionKey, TranslationsOf(st.translationsFor(fs[i].descriptionKey)))
  {
    if |fs| == 0 then []
    else
      var f := fs[|fs| - 1];
      FeatureMessages(st, fs[..|fs| - 1]) + [Feature(f.id, f.descriptionKey, TranslationsOf(st.translationsFor(f.descriptionKey)))]
  }

  /** The message for service `s` with its subtree. */
  ghost function NodeOf(st: Store, s: StoreService, fw: int, rank: int -> nat): ServiceNode
    requires Ranked(st, rank)
    decreases rank(s.id), 1, 0
  {
    ServiceNode(s.id, s.serviceKey, TranslationsOf(st.translationsFor(s.descriptionKey)),
      FeatureMessages(st, st.featuresBy(s.id)), Forest(st, s.id, fw, |st.servicesBy(s.id, fw)|, rank))
  }

  /**
   * The messages for the first `n` services under `parentId` in firmware `fw`: one node per
   * service, in the order the store lists them.
   */
  ghost function Forest(st: Store, parentId: int, fw: int, n: nat, rank: int -> nat): (r: seq<ServiceNode>)
    requires Ranked(st, rank) && n <= |st.servicesBy(parentId, fw)|
    ensures |r| == n
    ensures forall i :: 0 <= i < n ==> r[i] == NodeOf(st, st.servicesBy(parentId, fw)[i], fw, rank)
    decreases rank(parentId), 0, n
  {
    if n == 0 then []
    else Forest(st, parentId, fw, n - 1, rank) + [NodeOf(st, st.servicesBy(parentId, fw)[n - 1], fw, rank)]
  }

  lemma ForestSnoc(st: Store, parentId: int, fw: int, i: nat, rank: int -> nat)
    requires Ranked(st, rank) && i < |st.servicesBy(parentId, fw)|
    ensures Forest(st, parentId, fw, i + 1, rank) ==
      Forest(st, parentId, fw, i, rank) + [NodeOf(st, st.servicesBy(parentId, fw)[i], fw, rank)]
  {
  }

  lemma FeatureMessagesSnoc(st: Store, fs: seq<StoreFeature>, f: StoreFeature)
    ensures FeatureMessages(st, fs + [f]) ==
      FeatureMessages(st, fs) + [Feature(f.id, f.descriptionKey, TranslationsOf(st.translationsFor(f.descriptionKey)))]
  {
    assert (fs + [f])[..|fs + [f]| - 1] == fs;
  }

  lemma FeatureKeysSnoc(fs: seq<StoreFeature>, f: StoreFeature)
    ensures FeatureKeys(fs + [f]) == Insert(FeatureKeys(fs), f.descriptionKey)
  {
    assert (fs + [f])[..|fs + [f]| - 1] == fs;
  }

  /**
   * The response of `GetServiceTree`: a node per root service, in store order; each node
   * carries the id and key of its service and, as children, exactly the nodes of the services
   * the store lists under it in the same firmware.
   */
  lemma ServiceTreeShape(st: Store, parentId: int, fw: int, rank: int -> nat)
    requires Ranked(st, rank)
    ensures var ss := st.servicesBy(parentId, fw);
      var r := Forest(st, parentId, fw, |ss|, rank);
      && |r| == |ss|
      && forall i :: 0 <= i < |ss| ==>
           && r[i].id == ss[i].id && r[i].serviceKey == ss[i].serviceKey
           && |r[i].children| == |st.servicesBy(ss[i].id, fw)|
           && forall j :: 0 <= j < |r[i].children| ==> r[i].children[j].id == st.servicesBy(ss[i].id, fw)[j].id
  {
    var ss := st.servicesBy(parentId, fw);
    var r := Forest(st, parentId, fw, |ss|, rank);
    forall i | 0 <= i < |ss|
      ensures && r[i].id == ss[i].id && r[i].serviceKey == ss[i].serviceKey
              && |r[i].children| == |st.servicesBy(ss[i].id, fw)|
              && forall j :: 0 <= j < |r[i].children| ==> r[i].children[j].id == st.servicesBy(ss[i].id, fw)[j].id
    {
      assert r[i] == NodeOf(st, ss[i], fw, rank);
      var cs := Forest(st, ss[i].id, fw, |st.servicesBy(ss[i].id, fw)|, rank);
      assert r[i].children == cs;
      forall j | 0 <= j < |cs| ensures cs[j].id == st.servicesBy(ss[i].id, fw)[j].id {
        assert cs[j] == NodeOf(st, st.servicesBy(ss[i].id, fw)[j], fw, rank);
      }
    }
  }

  // ---------------------------------------------------------------------------------------
  // The comparison snapshot of buildInternalTree

  /** `node.features.insert(...)` over the features of a service: the set of their description keys. */
  function FeatureKeys(fs: seq<StoreFeature>): (r: seq<string>)
    ensures StrictlySorted(r)
    ensures forall x :: x in r <==> exists i :: 0 <= i < |fs| && fs[i].descriptionKey == x
  {
    if |fs| == 0 then []
    else
      var r := Insert(FeatureKeys(fs[..|fs| - 1]), fs[|fs| - 1].descriptionKey);
      assert forall i :: 0 <= i < |fs| - 1 ==> fs[..|fs| - 1][i] == fs[i];
      r
  }

  /** The snapshot node built for service `s`. */
  ghost function SnapshotNode(st: Store, s: StoreService, fw: int, lang: string, rank: int -> nat): (r: ServiceTreeNode)
    requires Ranked(st, rank)
    decreases rank(s.id), 1, 0
  {
    ServiceTreeNode(s.serviceKey, st.translation(s.descriptionKey, lang), FeatureKeys(st.featuresBy(s.id)),
      Fill(st, s.id, fw, lang, EmptyMap, |st.servicesBy(s.id, fw)|, rank))
  }

  /** The entries `tree[service_key] = node` that `buildInternalTree` files, for the first `n` services. */
  ghost function SnapshotEntries(st: Store, parentId: int, fw: int, lang: string, n: nat, rank: int -> nat): (r: seq<Entry>)
    requires Ranked(st, rank) && n <= |st.servicesBy(parentId, fw)|
    ensures |r| == n
    decreases rank(parentId), 0, n
  {
    if n == 0 then []
    else
      var s := st.servicesBy(parentId, fw)[n - 1];
      SnapshotEntries(st, parentId, fw, lang, n - 1, rank) + [Entry(s.serviceKey, SnapshotNode(st, s, fw, lang, rank))]
  }

  /** Entry `i` is filed under the key of service `i` and holds that service's node. */
  lemma {:induction false} SnapshotEntriesAt(st: Store, parentId: int, fw: int, lang: string, n: nat, rank: int -> nat, i: nat)
    requires Ranked(st, rank) && i < n <= |st.servicesBy(parentId, fw)|
    ensures SnapshotEntries(st, parentId, fw, lang, n, rank)[i] ==
      Entry(st.servicesBy(parentId, fw)[i].serviceKey, SnapshotNode(st, st.servicesBy(parentId, fw)[i], fw, lang, rank))
    decreases n
  {
    if i < n - 1 {
      SnapshotEntriesAt(st, parentId, fw, lang, n - 1, rank, i);
    }
  }

  /** `buildInternalTree(parentId, fw, lang, tree)` over the first `n` services under `parentId`. */
  ghost function Fill(st: Store, parentId: int, fw: int, lang: string, tree: ServiceMap, n: nat, rank: int -> nat): ServiceMap
    requires Ranked(st, rank) && n <= |st.servicesBy(parentId, fw)| && KeysAscending(tree)
    decreases rank(parentId), 0, n + 1
  {
    AssignAll(tree, SnapshotEntries(st, parentId, fw, lang, n, rank))
  }

  /** The snapshot `CompareServiceTrees` builds for one firmware. */
  ghost function Snapshot(st: Store, fw: int, lang: string, rank: int -> nat): ServiceMap
    requires Ranked(st, rank)
  {
    Fill(st, 0, fw, lang, EmptyMap, |st.servicesBy(0, fw)|, rank)
  }

  lemma SnapshotEntriesSnoc(st: Store, parentId: int, fw: int, lang: string, i: nat, rank: int -> nat)
    requires Ranked(st, rank) && i < |st.servicesBy(parentId, fw)|
    ensures SnapshotEntries(st, parentId, fw, lang, i + 1, rank) ==
      SnapshotEntries(st, parentId, fw, lang, i, rank) +
      [Entry(st.servicesBy(parentId, fw)[i].serviceKey, SnapshotNode(st, st.servicesBy(parentId, fw)[i], fw, lang, rank))]
  {
  }

  /** Every snapshot the builder produces is well-formed at every level. */
  lemma {:induction false} FillWellFormed(st: Store, parentId: int, fw: int, lang: string, tree: ServiceMap, n: nat, rank: int -> nat)
    requires Ranked(st, rank) && n <= |st.servicesBy(parentId, fw)| && WellFormed(tree)
    ensures WellFormed(Fill(st, parentId, fw, lang, tree, n, rank))
    decreases rank(parentId), 0, n
  {
    var es := SnapshotEntries(st, parentId, fw, lang, n, rank);
    forall i | 0 <= i < n
      ensures es[i].node.serviceKey == es[i].key && StrictlySorted(es[i].node.features) && WellFormed(es[i].node.children)
    {
      SnapshotEntriesAt(st, parentId, fw, lang, n, rank, i);
      SnapshotNodeWellFormed(st, st.servicesBy(parentId, fw)[i], fw, lang, rank);
    }
    AssignAllWellFormed(tree, es);
  }

  lemma {:induction false} SnapshotNodeWellFormed(st: Store, s: StoreService, fw: int, lang: string, rank: int -> nat)
    requires Ranked(st, rank)
    ensures SnapshotNode(st, s, fw, lang, rank).serviceKey == s.serviceKey
    ensures StrictlySorted(SnapshotNode(st, s, fw, lang, rank).features)
    ensures WellFormed(SnapshotNode(st, s, fw, lang, rank).children)
    decreases rank(s.id), 1, 0
  {
    FillWellFormed(st, s.id, fw, lang, EmptyMap, |st.servicesBy(s.id, fw)|, rank);
  }

  lemma SnapshotWellFormed(st: Store, fw: int, lang: string, rank: int -> nat)
    requires Ranked(st, rank)
    ensures WellFormed(Snapshot(st, fw, lang, rank))
  {
    FillWellFormed(st, 0, fw, lang, EmptyMap, |st.servicesBy(0, fw)|, rank);
  }

  /** The display name and the features of a snapshot node. */
  lemma SnapshotNodeFields(st: Store, s: StoreService, fw: int, lang: string, rank: int -> nat)
    requires Ranked(st, rank)
    ensures SnapshotNode(st, s, fw, lang, rank).displayName == st.translation(s.descriptionKey, lang)
    ensures SnapshotNode(st, s, fw, lang, rank).features == FeatureKeys(st.featuresBy(s.id))
  {
  }

  /**
   * What one level of the snapshot holds under key `k`: nothing when no service listed under
   * `parentId` has that key; otherwise the node of the last such service (a later sibling
   * overwrites an earlier one).
   */
  lemma FillLookup(st: Store, parentId: int, fw: int, lang: string, rank: int -> nat, k: string) returns (j: int)
    requires Ranked(st, rank)
    ensures var ss := st.servicesBy(parentId, fw);
      var r := Find(Fill(st, parentId, fw, lang, EmptyMap, |ss|, rank), k);
      && (r.None? <==> forall j :: 0 <= j < |ss| ==> ss[j].serviceKey != k)
      && (r.Some? ==>
            && 0 <= j < |ss| && ss[j].serviceKey == k
            && (forall j' :: j < j' < |ss| ==> ss[j'].serviceKey != k)
            && r.value == SnapshotNode(st, ss[j], fw, lang, rank))
  {
    var ss := st.servicesBy(parentId, fw);
    var es := SnapshotEntries(st, parentId, fw, lang, |ss|, rank);
    assert Fill(st, parentId, fw, lang, EmptyMap, |ss|, rank) == AssignAll(EmptyMap, es);
    j := LookupEntries(es, k);
    forall i | 0 <= i < |ss| ensures es[i].key == ss[i].serviceKey {
      SnapshotEntriesAt(st, parentId, fw, lang, |ss|, rank, i);
    }
    if 0 <= j < |ss| {
      SnapshotEntriesAt(st, parentId, fw, lang, |ss|, rank, j);
    }
  }

  /** Filing `es` into an empty map leaves under `k` the node of the last entry with that key. */
  lemma LookupEntries(es: seq<Entry>, k: string) returns (j: int)
    ensures var r := Find(AssignAll(EmptyMap, es), k);
      && (r.None? <==> forall i :: 0 <= i < |es| ==> es[i].key != k)
      && (r.Some? ==>
            && 0 <= j < |es| && es[j].key == k
            && (forall i :: j < i < |es| ==> es[i].key != k)
            && r.value == es[j].node)
  {
    FindAfterAssignAll(EmptyMap, es, k);
    var last := LastFor(es, k);
    j := if last.Some? then last.value else 0;
    assert Find(EmptyMap, k) == None;
  }

  /**
   * What the snapshot holds under key `k`: nothing when no root service of the firmware has
   * that key; otherwise the node of the last such service, whose display name is that
   * service's translation in the requested language and whose features are exactly its
   * feature keys.
   */
  lemma SnapshotLookup(st: Store, fw: int, lang: string, rank: int -> nat, k: string) returns (j: int)
    requires Ranked(st, rank)
    ensures var ss := st.servicesBy(0, fw);
      var r := Find(Snapshot(st, fw, lang, rank), k);
      && (r.None? <==> forall j :: 0 <= j < |ss| ==> ss[j].serviceKey != k)
      && (r.Some? ==>
            && 0 <= j < |ss| && ss[j].serviceKey == k
            && (forall j' :: j < j' < |ss| ==> ss[j'].serviceKey != k)
            && r.value.serviceKey == k
            && r.value.displayName == st.translation(ss[j].descriptionKey, lang)
            && r.value.features == FeatureKeys(st.featuresBy(ss[j].id)))
  {
    var ss := st.servicesBy(0, fw);
    j := FillLookup(st, 0, fw, lang, rank, k);
    if 0 <= j < |ss| {
      SnapshotNodeWellFormed(st, ss[j], fw, lang, rank);
      SnapshotNodeFields(st, ss[j], fw, lang, rank);
    }
  }
}
