/**
 * The tree logic of src/RecloserServiceImpl.cpp as imperative methods: each output message
 * or in/out parameter becomes a value the method takes and returns, each append a longer
 * sequence, and each method is proved equal to the specification function of modules
 * TreeDiff and ServiceStore.
 */
module RecloserServiceImpl {
  import opened Wrappers
  import opened StringOrder
  import opened ServiceTreeNodes
  import opened ManagerRecords
  import opened Messages
  import opened ServiceStore
  import opened TreeDiff
  import opened Decimal
  import opened ServiceLayouts

  /** The `CompareServiceTreesResponse` message. */
  datatype CompareResponse = CompareResponse(
    firmwareId1: int, firmwareId2: int, differences: seq<ServiceDifference>, summary: string)

  /** The summary line written from the three top-level counters. */
  function Summary(added: nat, removed: nat, modified: nat): string
  {
    DecimalString(added) + (" service(s) added, " + (DecimalString(removed) + (" service(s) removed, "
      + (DecimalString(modified) + " service(s) modified"))))
  }

  // ---------------------------------------------------------------------------------------
  // CompareServiceTrees

  /**
   * `CompareServiceTrees`: builds the snapshot of each firmware in the requested language,
   * compares them, and reports the differences with a summary of the top-level counters.
   */
  method CompareServiceTrees(st: Store, firmwareId1: int, firmwareId2: int, languageCode: string, ghost rank: int -> nat)
    returns (response: CompareResponse)
    requires Ranked(st, rank)
    ensures response.firmwareId1 == firmwareId1 && response.firmwareId2 == firmwareId2
    ensures var c := Compare(Snapshot(st, firmwareId1, languageCode, rank), Snapshot(st, firmwareId2, languageCode, rank));
      response.differences == c.differences && response.summary == Summary(c.added, c.removed, c.modified)
  {
    var tree1 := BuildInternalTree(st, 0, firmwareId1, languageCode, EmptyMap, rank);
    var tree2 := BuildInternalTree(st, 0, firmwareId2, languageCode, EmptyMap, rank);
    var differences, added, removed, modified := CompareNodes(tree1, tree2, [], 0, 0, 0);
    ghost var c := Compare(tree1, tree2);
    assert added == c.added && removed == c.removed && modified == c.modified;
    var summary := Summary(added, removed, modified);
    response := CompareResponse(firmwareId1, firmwareId2, differences, summary);
  }

  /** Comparing a firmware with itself reports no difference, and the summary counts zero of each kind. */
  lemma SelfComparison(st: Store, fw: int, lang: string, rank: int -> nat)
    requires Ranked(st, rank)
    ensures var t := Snapshot(st, fw, lang, rank);
      var c := Compare(t, t);
      && c.differences == []
      && Summary(c.added, c.removed, c.modified) == Summary(0, 0, 0) && DecimalString(0) == "0"
  {
    SnapshotWellFormed(st, fw, lang, rank);
    SelfCompare(Snapshot(st, fw, lang, rank));
  }

  /**
   * Comparing the firmwares the other way round swaps the added and removed counts of the
   * summary and keeps the modified count.
   */
  lemma SwappedComparison(st: Store, fw1: int, fw2: int, lang: string, rank: int -> nat)
    requires Ranked(st, rank)
    ensures var t1, t2 := Snapshot(st, fw1, lang, rank), Snapshot(st, fw2, lang, rank);
      var c, d := Compare(t1, t2), Compare(t2, t1);
      Summary(d.added, d.removed, d.modified) == Summary(c.removed, c.added, c.modified)
  {
    SnapshotWellFormed(st, fw1, lang, rank);
    SnapshotWellFormed(st, fw2, lang, rank);
    SwapCounts(Snapshot(st, fw1, lang, rank), Snapshot(st, fw2, lang, rank));
  }

  /** The summary determines the three counters. */
  lemma SummaryInjective(a: nat, r: nat, m: nat, a': nat, r': nat, m': nat)
    requires Summary(a, r, m) == Summary(a', r', m')
    ensures a == a' && r == r' && m == m'
  {
    var tail := DecimalString(r) + (" service(s) removed, " + (DecimalString(m) + " service(s) modified"));
    var tail' := DecimalString(r') + (" service(s) removed, " + (DecimalString(m') + " service(s) modified"));
    SplitAtNonDigit(DecimalString(a), " service(s) added, " + tail, DecimalString(a'), " service(s) added, " + tail');
    CancelPrefix(" service(s) added, ", tail, tail');
    SplitAtNonDigit(DecimalString(r), " service(s) removed, " + (DecimalString(m) + " service(s) modified"),
      DecimalString(r'), " service(s) removed, " + (DecimalString(m') + " service(s) modified"));
    CancelPrefix(" service(s) removed, ", DecimalString(m) + " service(s) modified", DecimalString(m') + " service(s) modified");
    SplitAtNonDigit(DecimalString(m), " service(s) modified", DecimalString(m'), " service(s) modified");
    DecimalStringInjective(a, a');
    DecimalStringInjective(r, r');
    DecimalStringInjective(m, m');
  }

  lemma CancelPrefix(p: string, x: string, x': string)
    requires p + x == p + x'
    ensures x == x'
  {
    assert x == (p + x)[|p|..];
    assert x' == (p + x')[|p|..];
  }

  /** Two digit strings each followed by text that starts with a non-digit split the same way. */
  lemma SplitAtNonDigit(x: string, y: string, x': string, y': string)
    requires forall i :: 0 <= i < |x| ==> IsDigit(x[i])
    requires forall i :: 0 <= i < |x'| ==> IsDigit(x'[i])
    requires |y| > 0 && !IsDigit(y[0]) && |y'| > 0 && !IsDigit(y'[0])
    requires x + y == x' + y'
    ensures x == x' && y == y'
  {
    DigitRunOf(x, y);
    DigitRunOf(x', y');
    assert x == (x + y)[..|x|];
    assert x' == (x' + y')[..|x'|];
    assert y == (x + y)[|x|..];
    assert y' == (x' + y')[|x'|..];
  }

  // ---------------------------------------------------------------------------------------
  // compareNodes

  /**
   * `compareNodes(tree1, tree2, differences, added, removed, modified)`: appends what
   * `Compare` reports to `differences` and adds its counters to the three in/out counters.
   * Neither tree is an output, so neither changes. Its two loops are the two methods below.
   */
  method CompareNodes(tree1: ServiceMap, tree2: ServiceMap, differences: seq<ServiceDifference>,
                      added: int, removed: int, modified: int)
    returns (differences': seq<ServiceDifference>, added': int, removed': int, modified': int)
    ensures differences' == differences + Compare(tree1, tree2).differences
    ensures added' == added + Compare(tree1, tree2).added
    ensures removed' == removed + Compare(tree1, tree2).removed
    ensures modified' == modified + Compare(tree1, tree2).modified
    decreases tree1, 1
  {
    differences', removed', modified' := CompareFirstTree(tree1, tree2, differences, removed, modified);
    differences', added' := ListAddedServices(tree2, tree1, differences', added);
    assert differences' == differences + (CompareExisting(tree1, |tree1.entries|, tree2).differences
      + ListAdded(tree2, |tree2.entries|, tree1).differences);
  }

  /** The first loop of `compareNodes`: the services of `tree1`, each removed, modified or unchanged. */
  method CompareFirstTree(tree1: ServiceMap, tree2: ServiceMap, differences: seq<ServiceDifference>,
                          removed: int, modified: int)
    returns (differences': seq<ServiceDifference>, removed': int, modified': int)
    ensures differences' == differences + CompareExisting(tree1, |tree1.entries|, tree2).differences
    ensures removed' == removed + CompareExisting(tree1, |tree1.entries|, tree2).removed
    ensures modified' == modified + CompareExisting(tree1, |tree1.entries|, tree2).modified
    decreases tree1, 0
  {
    differences', removed', modified' := differences, removed, modified;
    for i := 0 to |tree1.entries|
      invariant differences' == differences + CompareExisting(tree1, i, tree2).differences
      invariant removed' == removed + CompareExisting(tree1, i, tree2).removed
      invariant modified' == modified + CompareExisting(tree1, i, tree2).modified
    {
      ghost var acc := CompareExisting(tree1, i, tree2);
      var node1 := tree1.entries[i].node;
      var it2 := Find(tree2, tree1.entries[i].key);
      if it2.None? {
        ExistingRemovedCase(tree1, i, tree2);
        var diff := ServiceDifference(node1.serviceKey, node1.displayName, Removed, [], []);
        assert differences' + [diff] == differences + (acc.differences + [diff]);
        differences' := differences' + [diff];
        removed' := removed' + 1;
      } else {
        ExistingCommonCase(tree1, i, tree2, it2.value);
        var changed;
        differences', changed := CompareCommon(node1, it2.value, differences');
        if changed {
          assert differences' == differences + (acc.differences + [ModifiedEntry(node1, it2.value)]);
          modified' := modified' + 1;
        }
      }
    }
  }

  /** The second loop of `compareNodes`: an ADDED entry for each service of `tree2` missing from `tree1`. */
  method ListAddedServices(tree2: ServiceMap, tree1: ServiceMap, differences: seq<ServiceDifference>, added: int)
    returns (differences': seq<ServiceDifference>, added': int)
    ensures differences' == differences + ListAdded(tree2, |tree2.entries|, tree1).differences
    ensures added' == added + ListAdded(tree2, |tree2.entries|, tree1).added
  {
    differences', added' := differences, added;
    for i := 0 to |tree2.entries|
      invariant differences' == differences + ListAdded(tree2, i, tree1).differences
      invariant added' == added + ListAdded(tree2, i, tree1).added
    {
      ghost var acc := ListAdded(tree2, i, tree1);
      var node2 := tree2.entries[i].node;
      ListAddedCase(tree2, i, tree1);
      if Find(tree1, tree2.entries[i].key).None? {
        var featureDifferences := TagAll(node2.features, Added);
        var diff := ServiceDifference(node2.serviceKey, node2.displayName, Added, featureDifferences, []);
        assert differences' + [diff] == differences + (acc.differences + [diff]);
        differences' := differences' + [diff];
        added' := added' + 1;
      }
    }
  }

  /**
   * The branch of `compareNodes` for a service in both trees: it appends a provisional entry,
   * fills in the feature differences and the recursive child comparison, and then either marks
   * the entry MODIFIED or takes it back with `RemoveLast`. `changed` is the test that decides.
   */
  method CompareCommon(node1: ServiceTreeNode, node2: ServiceTreeNode, differences: seq<ServiceDifference>)
    returns (differences': seq<ServiceDifference>, changed: bool)
    ensures changed == Changed(node1, node2)
    ensures differences' == differences + (if changed then [ModifiedEntry(node1, node2)] else [])
    decreases node1.children, 2
  {
    differences' := differences + [ServiceDifference(node1.serviceKey, node1.displayName, Unchanged, [], [])];
    var featureDifferences, hasChanges := CompareFeatures(node1.features, node2.features);
    var childDifferences, childAdded, childRemoved, childModified :=
      CompareNodes(node1.children, node2.children, [], 0, 0, 0);
    assert childDifferences == Compare(node1.children, node2.children).differences;
    ChangedBy(node1, node2, featureDifferences, Compare(node1.children, node2.children));
    changed := hasChanges || childAdded > 0 || childRemoved > 0 || childModified > 0;
    if changed {
      var diff := ServiceDifference(node1.serviceKey, node1.displayName, Modified, featureDifferences, childDifferences);
      differences' := differences'[|differences'| - 1 := diff];
      assert differences' == differences + [diff];
    } else {
      differences' := differences'[..|differences'| - 1];
      assert differences' == differences;
    }
  }

  /**
   * The two feature loops of `compareNodes` for a service in both trees: the features of the
   * first set missing from the second, tagged REMOVED, then those of the second missing from
   * the first, tagged ADDED; `hasChanges` records whether any was found.
   */
  method CompareFeatures(features1: seq<string>, features2: seq<string>)
    returns (featureDifferences: seq<FeatureDifference>, hasChanges: bool)
    ensures featureDifferences == FeatureDiff(features1, features2)
    ensures hasChanges <==> |featureDifferences| > 0
  {
    featureDifferences, hasChanges := CollectMissing(features1, features2, Removed, [], false);
    featureDifferences, hasChanges := CollectMissing(features2, features1, Added, featureDifferences, hasChanges);
  }

  /**
   * One feature loop: appends each feature of `xs` that `ys` lacks, tagged `t`, and sets
   * `hasChanges` when it appends anything.
   */
  method CollectMissing(xs: seq<string>, ys: seq<string>, t: DifferenceType,
                        diffs: seq<FeatureDifference>, hasChanges: bool)
    returns (diffs': seq<FeatureDifference>, hasChanges': bool)
    requires hasChanges <==> |diffs| > 0
    ensures diffs' == diffs + OnlyIn(xs, ys, t)
    ensures hasChanges' <==> |diffs'| > 0
  {
    diffs', hasChanges' := diffs, hasChanges;
    for j := 0 to |xs|
      invariant diffs' == diffs + OnlyIn(xs[..j], ys, t)
      invariant hasChanges' <==> |diffs'| > 0
    {
      assert xs[..j + 1] == xs[..j] + [xs[j]];
      OnlyInSnoc(xs[..j], xs[j], ys, t);
      if xs[j] !in ys {
        assert diffs' + [FeatureDifference(xs[j], t)] == diffs + (OnlyIn(xs[..j], ys, t) + [FeatureDifference(xs[j], t)]);
        diffs' := diffs' + [FeatureDifference(xs[j], t)];
        hasChanges' := true;
      }
    }
    assert xs[..|xs|] == xs;
  }

  /** The loop that lists every feature of an added service as ADDED. */
  method TagAll(features: seq<string>, t: DifferenceType) returns (featureDifferences: seq<FeatureDifference>)
    ensures featureDifferences == Tagged(features, t)
  {
    featureDifferences := [];
    for j := 0 to |features|
      invariant featureDifferences == Tagged(features[..j], t)
    {
      assert features[..j + 1] == features[..j] + [features[j]];
      TaggedSnoc(features[..j], features[j], t);
      featureDifferences := featureDifferences + [FeatureDifference(features[j], t)];
    }
    assert features[..|features|] == features;
  }

  // ---------------------------------------------------------------------------------------
  // buildInternalTree

  /**
   * `buildInternalTree(parentId, firmwareId, languageCode, tree)`: files a snapshot node for
   * each service listed under `parentId`, `tree[service_key] = node`, after building the
   * node's own children the same way.
   */
  method BuildInternalTree(st: Store, parentId: int, firmwareId: int, languageCode: string,
                           tree: ServiceMap, ghost rank: int -> nat)
    returns (tree': ServiceMap)
    requires Ranked(st, rank) && KeysAscending(tree)
    ensures tree' == Fill(st, parentId, firmwareId, languageCode, tree, |st.servicesBy(parentId, firmwareId)|, rank)
    decreases rank(parentId)
  {
    var services := st.servicesBy(parentId, firmwareId);
    tree' := tree;
    for i := 0 to |services|
      invariant tree' == AssignAll(tree, SnapshotEntries(st, parentId, firmwareId, languageCode, i, rank))
    {
      var service := services[i];
      var features := CollectFeatureKeys(st.featuresBy(service.id));
      var children := BuildInternalTree(st, service.id, firmwareId, languageCode, EmptyMap, rank);
      var node := ServiceTreeNode(service.serviceKey, st.translation(service.descriptionKey, languageCode), features, children);
      SnapshotEntriesSnoc(st, parentId, firmwareId, languageCode, i, rank);
      AssignAllSnoc(tree, SnapshotEntries(st, parentId, firmwareId, languageCode, i, rank), Entry(service.serviceKey, node));
      tree' := Assign(tree', service.serviceKey, node);
    }
  }

  /** `node.features.insert(feat.description_key)` for every feature of a service. */
  method CollectFeatureKeys(fs: seq<StoreFeature>) returns (keys: seq<string>)
    ensures keys == FeatureKeys(fs)
  {
    keys := [];
    for j := 0 to |fs|
      invariant keys == FeatureKeys(fs[..j])
    {
      assert fs[..j + 1] == fs[..j] + [fs[j]];
      FeatureKeysSnoc(fs[..j], fs[j]);
      keys := Insert(keys, fs[j].descriptionKey);
    }
    assert fs[..|fs|] == fs;
  }

  // ---------------------------------------------------------------------------------------
  // GetServiceTree and buildServiceNode

  /** `GetServiceTree`: one node per root service of the firmware, each with its subtree. */
  method GetServiceTree(st: Store, firmwareId: int, ghost rank: int -> nat) returns (topLevelServices: seq<ServiceNode>)
    requires Ranked(st, rank)
    ensures topLevelServices == Forest(st, 0, firmwareId, |st.servicesBy(0, firmwareId)|, rank)
  {
    var services := st.servicesBy(0, firmwareId);
    topLevelServices := [];
    for i := 0 to |services|
      invariant topLevelServices == Forest(st, 0, firmwareId, i, rank)
    {
      var node := ServiceMessage(st, services[i], firmwareId, rank);
      ForestSnoc(st, 0, firmwareId, i, rank);
      topLevelServices := topLevelServices + [node];
    }
  }

  /** `buildServiceNode(parentId, firmwareId, parentNode)`: appends a child node per service listed under `parentId`. */
  method BuildServiceNode(st: Store, parentId: int, firmwareId: int, parentNode: ServiceNode, ghost rank: int -> nat)
    returns (parentNode': ServiceNode)
    requires Ranked(st, rank)
    ensures parentNode' ==
      parentNode.(children := parentNode.children + Forest(st, parentId, firmwareId, |st.servicesBy(parentId, firmwareId)|, rank))
    decreases rank(parentId), 0
  {
    var services := st.servicesBy(parentId, firmwareId);
    parentNode' := parentNode;
    for i := 0 to |services|
      invariant parentNode' == parentNode.(children := parentNode.children + Forest(st, parentId, firmwareId, i, rank))
    {
      var childNode := ServiceMessage(st, services[i], firmwareId, rank);
      ForestSnoc(st, parentId, firmwareId, i, rank);
      assert parentNode'.children + [childNode] == parentNode.children + Forest(st, parentId, firmwareId, i + 1, rank);
      parentNode' := parentNode'.(children := parentNode'.children + [childNode]);
    }
  }

  /**
   * The loop body both builders share: the node of one service with its id, key,
   * translations and features, then its children through `buildServiceNode`.
   */
  method ServiceMessage(st: Store, service: StoreService, firmwareId: int, ghost rank: int -> nat) returns (node: ServiceNode)
    requires Ranked(st, rank)
    ensures node == NodeOf(st, service, firmwareId, rank)
    decreases rank(service.id), 1
  {
    node := ServiceNode(service.id, service.serviceKey, [], [], []);
    var translations := CopyTranslations(st.translationsFor(service.descriptionKey));
    node := node.(translations := translations);
    var features := CopyFeatures(st, st.featuresBy(service.id));
    node := node.(features := features);
    node := BuildServiceNode(st, service.id, firmwareId, node, rank);
  }

  /** The feature loop of the builders: a `Feature` message with its translations per feature. */
  method CopyFeatures(st: Store, fs: seq<StoreFeature>) returns (features: seq<Feature>)
    ensures features == FeatureMessages(st, fs)
  {
    features := [];
    for j := 0 to |fs|
      invariant features == FeatureMessages(st, fs[..j])
    {
      var translations := CopyTranslations(st.translationsFor(fs[j].descriptionKey));
      assert fs[..j + 1] == fs[..j] + [fs[j]];
      FeatureMessagesSnoc(st, fs[..j], fs[j]);
      features := features + [Feature(fs[j].id, fs[j].descriptionKey, translations)];
    }
    assert fs[..|fs|] == fs;
  }

  // ---------------------------------------------------------------------------------------
  // populateServiceLayout

  /** `populateServiceLayout(rec, layout)` into an empty `layout`: copies the record, level by level. */
  method PopulateServiceLayout(rec: LayoutRecord) returns (layout: ServiceLayout)
    ensures layout == LayoutOf(rec)
    decreases rec
  {
    layout := ServiceLayout(rec.serviceId, rec.serviceKey, [], [], []);
    var translations := CopyTranslations(rec.translations);
    layout := layout.(translations := translations);
    var features: seq<FeatureLayoutDetail> := [];
    for i := 0 to |rec.features|
      invariant |features| == i
      invariant forall k :: 0 <= k < i ==> features[k] == DetailOf(rec.features[k])
    {
      var feat := rec.features[i];
      var featureTranslations := CopyTranslations(feat.translations);
      var limits: seq<LayoutLimit> := [];
      for j := 0 to |feat.limits|
        invariant limits == LimitsOf(feat.limits[..j])
      {
        limits := limits + [LayoutLimit(feat.limits[j].key, feat.limits[j].value)];
      }
      assert feat.limits[..|feat.limits|] == feat.limits;
      features := features + [FeatureLayoutDetail(feat.featureId, feat.featureKey, featureTranslations,
        feat.componentType, feat.componentKey, limits)];
    }
    layout := layout.(features := features);
    var children: seq<ServiceLayout> := [];
    for i := 0 to |rec.children|
      invariant |children| == i
      invariant forall k :: 0 <= k < i ==> children[k] == LayoutOf(rec.children[k])
    {
      var childLayout := PopulateServiceLayout(rec.children[i]);
      children := children + [childLayout];
    }
    layout := layout.(children := children);
  }
}
