/**
 * The structural comparison `compareNodes` of src/RecloserServiceImpl.cpp, stated as functions
 * over two snapshots, with the properties the comparison promises: a per-key classification,
 * counters that count one level only, the self-comparison identity and the added/removed
 * symmetry. The imperative `compareNodes` is proved equal to `Compare` in module
 * RecloserServiceImpl.
 */
module TreeDiff {
  import opened Wrappers
  import opened StringOrder
  import opened ServiceTreeNodes

  /** The protobuf enum `DifferenceType`. */
  datatype DifferenceType = Unchanged | Added | Removed | Modified

  datatype FeatureDifference = FeatureDifference(featureName: string, differenceType: DifferenceType)

  datatype ServiceDifference = ServiceDifference(
    serviceKey: string,
    displayName: string,
    differenceType: DifferenceType,
    featureDifferences: seq<FeatureDifference>,
    childDifferences: seq<ServiceDifference>)

  /** What one call of `compareNodes` appends to `differences` and adds to the three counters. */
  datatype Comparison = Comparison(differences: seq<ServiceDifference>, added: nat, removed: nat, modified: nat)

  const NoDifferences: Comparison := Comparison([], 0, 0, 0)

  /** The features of `xs` that are not in `ys`, in the order of `xs`, each tagged `t`. */
  function OnlyIn(xs: seq<string>, ys: seq<string>, t: DifferenceType): (r: seq<FeatureDifference>)
    ensures |r| <= |xs|
  {
    if |xs| == 0 then []
    else
      var last := xs[|xs| - 1];
      OnlyIn(xs[..|xs| - 1], ys, t) + (if last in ys then [] else [FeatureDifference(last, t)])
  }

  /** Every feature of `xs`, in order, tagged `t`. */
  function Tagged(xs: seq<string>, t: DifferenceType): (r: seq<FeatureDifference>)
    ensures |r| == |xs|
    ensures forall i :: 0 <= i < |xs| ==> r[i] == FeatureDifference(xs[i], t)
  {
    if |xs| == 0 then []
    else Tagged(xs[..|xs| - 1], t) + [FeatureDifference(xs[|xs| - 1], t)]
  }

  /** The feature differences of a service present in both trees: first `f1 \ f2` as REMOVED, then `f2 \ f1` as ADDED. */
  function FeatureDiff(f1: seq<string>, f2: seq<string>): seq<FeatureDifference>
  {
    OnlyIn(f1, f2, Removed) + OnlyIn(f2, f1, Added)
  }

  predicate HasChanges(c: Comparison)
  {
    c.added > 0 || c.removed > 0 || c.modified > 0
  }

  function RemovedEntry(n: ServiceTreeNode): ServiceDifference
  {
    ServiceDifference(n.serviceKey, n.displayName, Removed, [], [])
  }

  function AddedEntry(n: ServiceTreeNode): ServiceDifference
  {
    ServiceDifference(n.serviceKey, n.displayName, Added, Tagged(n.features, Added), [])
  }

  /** A service present in both trees counts as modified when its features or its subtree differ. */
  predicate Changed(n1: ServiceTreeNode, n2: ServiceTreeNode)
    decreases n1.children, 2, 0
  {
    FeatureDiff(n1.features, n2.features) != [] || HasChanges(Compare(n1.children, n2.children))
  }

  function ModifiedEntry(n1: ServiceTreeNode, n2: ServiceTreeNode): ServiceDifference
    decreases n1.children, 2, 0
  {
    ServiceDifference(n1.serviceKey, n1.displayName, Modified,
      FeatureDiff(n1.features, n2.features), Compare(n1.children, n2.children).differences)
  }

  /** `compareNodes(tree1, tree2, ...)` started with an empty list and zero counters. */
  function Compare(t1: ServiceMap, t2: ServiceMap): Comparison
    decreases t1, 1, 0
  {
    var first := CompareExisting(t1, |t1.entries|, t2);
    var second := ListAdded(t2, |t2.entries|, t1);
    Comparison(first.differences + second.differences, second.added, first.removed, first.modified)
  }

  /** The first loop of `compareNodes` over the first `n` entries of `t1`. */
  function CompareExisting(t1: ServiceMap, n: nat, t2: ServiceMap): (c: Comparison)
    requires n <= |t1.entries|
    ensures c.added == 0
    decreases t1, 0, n
  {
    if n == 0 then NoDifferences
    else
      var acc := CompareExisting(t1, n - 1, t2);
      var node1 := t1.entries[n - 1].node;
      match Find(t2, t1.entries[n - 1].key)
      case None =>
        acc.(differences := acc.differences + [RemovedEntry(node1)], removed := acc.removed + 1)
      case Some(node2) =>
        if Changed(node1, node2) then
          acc.(differences := acc.differences + [ModifiedEntry(node1, node2)], modified := acc.modified + 1)
        else acc
  }

  /** The second loop of `compareNodes` over the first `n` entries of `t2`. */
  function ListAdded(t2: ServiceMap, n: nat, t1: ServiceMap): (c: Comparison)
    requires n <= |t2.entries|
    ensures c.removed == 0 && c.modified == 0
  {
    if n == 0 then NoDifferences
    else
      var acc := ListAdded(t2, n - 1, t1);
      if Find(t1, t2.entries[n - 1].key).None? then
        acc.(differences := acc.differences + [AddedEntry(t2.entries[n - 1].node)], added := acc.added + 1)
      else acc
  }

  // ---------------------------------------------------------------------------------------
  // Feature differences

  /** `OnlyIn` holds exactly the features of `xs` missing from `ys`, each tagged `t`. */
  lemma {:induction false} OnlyInMembers(xs: seq<string>, ys: seq<string>, t: DifferenceType)
    ensures forall d :: d in OnlyIn(xs, ys, t) <==> d.differenceType == t && d.featureName in xs && d.featureName !in ys
  {
    if |xs| > 0 {
      var last := xs[|xs| - 1];
      assert xs == xs[..|xs| - 1] + [last];
      OnlyInMembers(xs[..|xs| - 1], ys, t);
    }
  }

  lemma {:induction false} OnlyInNone(xs: seq<string>, ys: seq<string>, t: DifferenceType)
    requires forall x :: x in xs ==> x in ys
    ensures OnlyIn(xs, ys, t) == []
  {
    if |xs| > 0 {
      assert xs[|xs| - 1] in xs;
      OnlyInNone(xs[..|xs| - 1], ys, t);
    }
  }

  /**
   * The feature differences of a common service are exactly the features of the first node
   * missing from the second, tagged REMOVED, and those of the second missing from the first,
   * tagged ADDED.
   */
  lemma FeatureDiffMembers(f1: seq<string>, f2: seq<string>)
    ensures forall x :: FeatureDifference(x, Removed) in FeatureDiff(f1, f2) <==> x in f1 && x !in f2
    ensures forall x :: FeatureDifference(x, Added) in FeatureDiff(f1, f2) <==> x in f2 && x !in f1
    ensures forall d :: d in FeatureDiff(f1, f2) ==> d.differenceType == Removed || d.differenceType == Added
  {
    var rem, add := OnlyIn(f1, f2, Removed), OnlyIn(f2, f1, Added);
    OnlyInMembers(f1, f2, Removed);
    OnlyInMembers(f2, f1, Added);
    assert forall d :: d in FeatureDiff(f1, f2) <==> d in rem || d in add;
  }

  /** All REMOVED feature entries come before all ADDED ones. */
  lemma FeatureDiffOrder(f1: seq<string>, f2: seq<string>)
    ensures forall i, j :: 0 <= i < j < |FeatureDiff(f1, f2)| && FeatureDiff(f1, f2)[i].differenceType == Added
              ==> FeatureDiff(f1, f2)[j].differenceType == Added
  {
    var rem, add := OnlyIn(f1, f2, Removed), OnlyIn(f2, f1, Added);
    var fd := FeatureDiff(f1, f2);
    OnlyInMembers(f1, f2, Removed);
    OnlyInMembers(f2, f1, Added);
    forall i, j | 0 <= i < j < |fd| && fd[i].differenceType == Added
      ensures fd[j].differenceType == Added
    {
      assert fd[j] in add by { assert fd[j] == add[j - |rem|]; }
    }
  }

  /** A common service has no feature differences exactly when both nodes list the same feature set. */
  lemma FeatureDiffEmpty(f1: seq<string>, f2: seq<string>)
    ensures FeatureDiff(f1, f2) == [] <==> (forall x :: x in f1 <==> x in f2)
  {
    if forall x :: x in f1 <==> x in f2 {
      OnlyInNone(f1, f2, Removed);
      OnlyInNone(f2, f1, Added);
    } else {
      var x :| !(x in f1 <==> x in f2);
      OnlyInMembers(f1, f2, Removed);
      OnlyInMembers(f2, f1, Added);
      if x in f1 {
        assert FeatureDifference(x, Removed) in OnlyIn(f1, f2, Removed);
      } else {
        assert FeatureDifference(x, Added) in OnlyIn(f2, f1, Added);
      }
    }
  }

  /** One more element of `xs` adds at most its own entry at the end. */
  lemma OnlyInSnoc(xs: seq<string>, x: string, ys: seq<string>, t: DifferenceType)
    ensures OnlyIn(xs + [x], ys, t) == OnlyIn(xs, ys, t) + (if x in ys then [] else [FeatureDifference(x, t)])
  {
    assert (xs + [x])[..|xs + [x]| - 1] == xs;
  }

  lemma TaggedSnoc(xs: seq<string>, x: string, t: DifferenceType)
    ensures Tagged(xs + [x], t) == Tagged(xs, t) + [FeatureDifference(x, t)]
  {
    assert (xs + [x])[..|xs + [x]| - 1] == xs;
  }

  // ---------------------------------------------------------------------------------------
  // One step of each loop, case by case

  lemma ExistingRemovedCase(t1: ServiceMap, i: nat, t2: ServiceMap)
    requires i < |t1.entries| && Find(t2, t1.entries[i].key).None?
    ensures var acc := CompareExisting(t1, i, t2);
      CompareExisting(t1, i + 1, t2) ==
        acc.(differences := acc.differences + [RemovedEntry(t1.entries[i].node)], removed := acc.removed + 1)
  {
  }

  lemma ExistingCommonCase(t1: ServiceMap, i: nat, t2: ServiceMap, node2: ServiceTreeNode)
    requires i < |t1.entries| && Find(t2, t1.entries[i].key) == Some(node2)
    ensures var acc := CompareExisting(t1, i, t2);
      var node1 := t1.entries[i].node;
      CompareExisting(t1, i + 1, t2) ==
        if Changed(node1, node2) then
          acc.(differences := acc.differences + [ModifiedEntry(node1, node2)], modified := acc.modified + 1)
        else acc
  {
  }

  /** What `compareNodes` decides for a common service, given its feature loops and its recursive call. */
  lemma ChangedBy(n1: ServiceTreeNode, n2: ServiceTreeNode, featureDifferences: seq<FeatureDifference>, children: Comparison)
    requires featureDifferences == FeatureDiff(n1.features, n2.features)
    requires children == Compare(n1.children, n2.children)
    ensures Changed(n1, n2) <==> |featureDifferences| > 0 || children.added > 0 || children.removed > 0 || children.modified > 0
    ensures ModifiedEntry(n1, n2) ==
      ServiceDifference(n1.serviceKey, n1.displayName, Modified, featureDifferences, children.differences)
  {
  }

  lemma ListAddedCase(t2: ServiceMap, i: nat, t1: ServiceMap)
    requires i < |t2.entries|
    ensures var acc := ListAdded(t2, i, t1);
      ListAdded(t2, i + 1, t1) ==
        if Find(t1, t2.entries[i].key).None? then
          acc.(differences := acc.differences + [AddedEntry(t2.entries[i].node)], added := acc.added + 1)
        else acc
  {
  }

  // ---------------------------------------------------------------------------------------
  // Counters

  /** Each emitted entry increments exactly one of the counters of its own level. */
  lemma {:induction false} ExistingLength(t1: ServiceMap, n: nat, t2: ServiceMap)
    requires n <= |t1.entries|
    ensures |CompareExisting(t1, n, t2).differences| == CompareExisting(t1, n, t2).removed + CompareExisting(t1, n, t2).modified
    decreases n
  {
    if n > 0 { ExistingLength(t1, n - 1, t2); }
  }

  lemma {:induction false} AddedLength(t2: ServiceMap, n: nat, t1: ServiceMap)
    requires n <= |t2.entries|
    ensures |ListAdded(t2, n, t1).differences| == ListAdded(t2, n, t1).added
    decreases n
  {
    if n > 0 { AddedLength(t2, n - 1, t1); }
  }

  lemma DifferencesLength(t1: ServiceMap, t2: ServiceMap)
    ensures |Compare(t1, t2).differences| == Compare(t1, t2).added + Compare(t1, t2).removed + Compare(t1, t2).modified
  {
    ExistingLength(t1, |t1.entries|, t2);
    AddedLength(t2, |t2.entries|, t1);
  }

  function PrefixKeys(m: ServiceMap, n: nat): set<string>
    requires n <= |m.entries|
  {
    set i | 0 <= i < n :: m.entries[i].key
  }

  lemma PrefixKeysStep(m: ServiceMap, n: nat)
    requires KeysAscending(m) && 0 < n <= |m.entries|
    ensures PrefixKeys(m, n) == PrefixKeys(m, n - 1) + {m.entries[n - 1].key}
    ensures m.entries[n - 1].key !in PrefixKeys(m, n - 1)
  {
    if m.entries[n - 1].key in PrefixKeys(m, n - 1) {
      var i :| 0 <= i < n - 1 && m.entries[i].key == m.entries[n - 1].key;
      KeysDistinct(m, i, n - 1);
    }
  }

  lemma PrefixKeysEmpty(m: ServiceMap)
    ensures PrefixKeys(m, 0) == {}
  {
  }

  lemma NoneOutside(m: ServiceMap, other: set<string>)
    ensures |PrefixKeys(m, 0) - other| == 0
  {
    PrefixKeysEmpty(m);
    assert PrefixKeys(m, 0) - other == {};
  }

  lemma PrefixKeysAll(m: ServiceMap)
    ensures PrefixKeys(m, |m.entries|) == KeySet(m)
  {
    forall k | k in KeySet(m) ensures k in PrefixKeys(m, |m.entries|) {
      var i := KeyIndex(m, k);
    }
  }

  lemma ListAddedStep(t2: ServiceMap, n: nat, t1: ServiceMap)
    requires 0 < n <= |t2.entries|
    ensures ListAdded(t2, n, t1).added == ListAdded(t2, n - 1, t1).added + (if t2.entries[n - 1].key in KeySet(t1) then 0 else 1)
  {
  }

  lemma CountStep(prefix: set<string>, k: string, other: set<string>)
    requires k !in prefix
    ensures |(prefix + {k}) - other| == |prefix - other| + (if k in other then 0 else 1)
  {
    if k in other {
      assert (prefix + {k}) - other == prefix - other;
    } else {
      assert (prefix + {k}) - other == (prefix - other) + {k};
    }
  }

  /** How many of the first `n` keys of `m` are not in `other`. */
  function Outside(m: ServiceMap, n: nat, other: set<string>): nat
    requires n <= |m.entries|
  {
    if n == 0 then 0
    else Outside(m, n - 1, other) + (if m.entries[n - 1].key in other then 0 else 1)
  }

  lemma {:induction false} OutsideCard(m: ServiceMap, n: nat, other: set<string>)
    requires KeysAscending(m) && n <= |m.entries|
    ensures Outside(m, n, other) == |PrefixKeys(m, n) - other|
    decreases n
  {
    if n == 0 {
      NoneOutside(m, other);
    } else {
      OutsideCard(m, n - 1, other);
      PrefixCountStep(m, n, other);
    }
  }

  lemma {:induction false} ListAddedCount(t2: ServiceMap, n: nat, t1: ServiceMap)
    requires n <= |t2.entries|
    ensures ListAdded(t2, n, t1).added == Outside(t2, n, KeySet(t1))
    decreases n
  {
    if n > 0 {
      ListAddedCount(t2, n - 1, t1);
      ListAddedStep(t2, n, t1);
    }
  }

  lemma PrefixCountStep(m: ServiceMap, n: nat, other: set<string>)
    requires KeysAscending(m) && 0 < n <= |m.entries|
    ensures |PrefixKeys(m, n) - other| == |PrefixKeys(m, n - 1) - other| + (if m.entries[n - 1].key in other then 0 else 1)
  {
    PrefixKeysStep(m, n);
    CountStep(PrefixKeys(m, n - 1), m.entries[n - 1].key, other);
  }

  lemma ExistingRemovedStep(t1: ServiceMap, n: nat, t2: ServiceMap)
    requires 0 < n <= |t1.entries|
    ensures CompareExisting(t1, n, t2).removed ==
      CompareExisting(t1, n - 1, t2).removed + (if t1.entries[n - 1].key in KeySet(t2) then 0 else 1)
  {
  }

  lemma {:induction false} ExistingRemovedCount(t1: ServiceMap, n: nat, t2: ServiceMap)
    requires n <= |t1.entries|
    ensures CompareExisting(t1, n, t2).removed == Outside(t1, n, KeySet(t2))
    decreases n
  {
    if n > 0 {
      ExistingRemovedCount(t1, n - 1, t2);
      ExistingRemovedStep(t1, n, t2);
    }
  }

  /** The keys present in both maps whose services differ. */
  function ModifiedKeys(t1: ServiceMap, t2: ServiceMap, keys: set<string>): set<string>
  {
    set k | k in keys && k in KeySet(t1) && k in KeySet(t2) && Changed(Find(t1, k).value, Find(t2, k).value)
  }

  /** Whether the `n`-th entry of `t1` is a service both maps hold and that differs between them. */
  predicate ModifiedAt(t1: ServiceMap, n: nat, t2: ServiceMap)
    requires 0 < n <= |t1.entries|
  {
    var k := t1.entries[n - 1].key;
    Find(t2, k).Some? && Changed(t1.entries[n - 1].node, Find(t2, k).value)
  }

  /** How many of the first `n` entries of `t1` are modified. */
  function ModifiedCount(t1: ServiceMap, n: nat, t2: ServiceMap): nat
    requires n <= |t1.entries|
  {
    if n == 0 then 0 else ModifiedCount(t1, n - 1, t2) + (if ModifiedAt(t1, n, t2) then 1 else 0)
  }

  lemma ExistingModifiedCount(t1: ServiceMap, t2: ServiceMap)
    requires KeysAscending(t1)
    ensures CompareExisting(t1, |t1.entries|, t2).modified == |ModifiedKeys(t1, t2, KeySet(t1))|
  {
    var n := |t1.entries|;
    var mods := ModifiedKeys(t1, t2, KeySet(t1));
    ExistingModifiedTally(t1, n, t2);
    ModifiedOutside(t1, n, t2);
    OutsideCard(t1, n, mods);
    OutsideNothing(t1, n);
    OutsideCard(t1, n, {});
    PrefixKeysAll(t1);
    var keys := KeySet(t1);
    assert keys - {} == keys;
    assert mods <= keys;
    SplitCard(keys, mods);
  }

  lemma SplitCard(a: set<string>, b: set<string>)
    requires b <= a
    ensures |a| == |a - b| + |b|
  {
    assert (a - b) + b == a;
  }

  lemma {:induction false} ExistingModifiedTally(t1: ServiceMap, n: nat, t2: ServiceMap)
    requires n <= |t1.entries|
    ensures CompareExisting(t1, n, t2).modified == ModifiedCount(t1, n, t2)
    decreases n
  {
    if n > 0 {
      ExistingModifiedTally(t1, n - 1, t2);
      ExistingModifiedStep(t1, n, t2);
    }
  }

  lemma ExistingModifiedStep(t1: ServiceMap, n: nat, t2: ServiceMap)
    requires 0 < n <= |t1.entries|
    ensures CompareExisting(t1, n, t2).modified == CompareExisting(t1, n - 1, t2).modified
        + (if ModifiedAt(t1, n, t2) then 1 else 0)
  {
  }

  /** Each of the first `n` entries is either modified or outside the modified keys. */
  lemma {:induction false} ModifiedOutside(t1: ServiceMap, n: nat, t2: ServiceMap)
    requires KeysAscending(t1) && n <= |t1.entries|
    ensures ModifiedCount(t1, n, t2) + Outside(t1, n, ModifiedKeys(t1, t2, KeySet(t1))) == n
    decreases n
  {
    if n > 0 {
      ModifiedOutside(t1, n - 1, t2);
      ModifiedAtKey(t1, n, t2);
    }
  }

  lemma ModifiedAtKey(t1: ServiceMap, n: nat, t2: ServiceMap)
    requires KeysAscending(t1) && 0 < n <= |t1.entries|
    ensures ModifiedAt(t1, n, t2) <==> t1.entries[n - 1].key in ModifiedKeys(t1, t2, KeySet(t1))
  {
    FindAt(t1, n - 1);
    assert t1.entries[n - 1] in t1.entries;
  }

  lemma {:induction false} OutsideNothing(m: ServiceMap, n: nat)
    requires n <= |m.entries|
    ensures Outside(m, n, {}) == n
    decreases n
  {
    if n > 0 {
      OutsideNothing(m, n - 1);
    }
  }

  /**
   * The counters of one call count the services of that level only: the keys only in the
   * second map, the keys only in the first, and the common keys whose services differ.
   * Nested changes show up in `childDifferences` and never in these counts.
   */
  lemma Counts(t1: ServiceMap, t2: ServiceMap)
    requires KeysAscending(t1) && KeysAscending(t2)
    ensures Compare(t1, t2).added == |KeySet(t2) - KeySet(t1)|
    ensures Compare(t1, t2).removed == |KeySet(t1) - KeySet(t2)|
    ensures Compare(t1, t2).modified == |ModifiedKeys(t1, t2, KeySet(t1))|
  {
    ListAddedCount(t2, |t2.entries|, t1);
    OutsideCard(t2, |t2.entries|, KeySet(t1));
    ExistingRemovedCount(t1, |t1.entries|, t2);
    OutsideCard(t1, |t1.entries|, KeySet(t2));
    ExistingModifiedCount(t1, t2);
    PrefixKeysAll(t1);
    PrefixKeysAll(t2);
  }

  // ---------------------------------------------------------------------------------------
  // Self-comparison and symmetry

  /** Comparing a snapshot with itself reports nothing. */
  lemma {:induction false} SelfCompare(t: ServiceMap)
    requires WellFormed(t)
    ensures Compare(t, t) == NoDifferences
    decreases t, 1
  {
    SelfExisting(t, |t.entries|);
    SelfAdded(t, |t.entries|);
  }

  lemma {:induction false} SelfExisting(t: ServiceMap, n: nat)
    requires WellFormed(t) && n <= |t.entries|
    ensures CompareExisting(t, n, t) == NoDifferences
    decreases t, 0, n
  {
    if n > 0 {
      SelfExisting(t, n - 1);
      var e := t.entries[n - 1];
      FindAt(t, n - 1);
      OnlyInNone(e.node.features, e.node.features, Removed);
      OnlyInNone(e.node.features, e.node.features, Added);
      SelfCompare(e.node.children);
      assert !Changed(e.node, e.node);
    }
  }

  lemma {:induction false} SelfAdded(t: ServiceMap, n: nat)
    requires n <= |t.entries|
    ensures ListAdded(t, n, t) == NoDifferences
  {
    if n > 0 {
      SelfAdded(t, n - 1);
      assert t.entries[n - 1] in t.entries;
    }
  }

  /** Swapping the snapshots swaps the added and removed counts and keeps the modified count. */
  lemma {:induction false} SwapCounts(t1: ServiceMap, t2: ServiceMap)
    requires WellFormed(t1) && WellFormed(t2)
    ensures Compare(t2, t1).added == Compare(t1, t2).removed
    ensures Compare(t2, t1).removed == Compare(t1, t2).added
    ensures Compare(t2, t1).modified == Compare(t1, t2).modified
    decreases t1, 0
  {
    Counts(t1, t2);
    Counts(t2, t1);
    forall k | k in KeySet(t1) && k in KeySet(t2)
      ensures Changed(Find(t1, k).value, Find(t2, k).value) == Changed(Find(t2, k).value, Find(t1, k).value)
    {
      var i := KeyIndex(t1, k);
      var j := KeyIndex(t2, k);
      FindAt(t1, i);
      FindAt(t2, j);
      ChangedSymmetric(t1.entries[i].node, t2.entries[j].node);
    }
    assert ModifiedKeys(t1, t2, KeySet(t1)) == ModifiedKeys(t2, t1, KeySet(t2));
  }

  lemma {:induction false} ChangedSymmetric(n1: ServiceTreeNode, n2: ServiceTreeNode)
    requires WellFormed(n1.children) && WellFormed(n2.children)
    ensures Changed(n1, n2) == Changed(n2, n1)
    decreases n1.children, 1
  {
    FeatureDiffEmpty(n1.features, n2.features);
    FeatureDiffEmpty(n2.features, n1.features);
    SwapCounts(n1.children, n2.children);
  }

  // ---------------------------------------------------------------------------------------
  // Classification and order

  /** The entries of `ds` about service key `k`. */
  function WithKey(ds: seq<ServiceDifference>, k: string): seq<ServiceDifference>
  {
    if |ds| == 0 then []
    else WithKey(ds[..|ds| - 1], k) + (if ds[|ds| - 1].serviceKey == k then [ds[|ds| - 1]] else [])
  }

  lemma {:induction false} WithKeyAppend(a: seq<ServiceDifference>, b: seq<ServiceDifference>, k: string)
    ensures WithKey(a + b, k) == WithKey(a, k) + WithKey(b, k)
    decreases |b|
  {
    if |b| == 0 {
      assert a + b == a;
    } else {
      assert (a + b)[..|a + b| - 1] == a + b[..|b| - 1];
      assert (a + b)[|a + b| - 1] == b[|b| - 1];
      WithKeyAppend(a, b[..|b| - 1], k);
    }
  }

  /** What the comparison reports about key `k`, stated case by case. */
  function Expected(t1: ServiceMap, t2: ServiceMap, k: string): seq<ServiceDifference>
  {
    match (Find(t1, k), Find(t2, k))
    case (Some(n1), None) => [RemovedEntry(n1)]
    case (None, Some(n2)) => [AddedEntry(n2)]
    case (Some(n1), Some(n2)) => if Changed(n1, n2) then [ModifiedEntry(n1, n2)] else []
    case (None, None) => []
  }

  /** One step of the first loop appends exactly what `Expected` says about that entry's key. */
  lemma ExistingStep(t1: ServiceMap, n: nat, t2: ServiceMap)
    requires KeysAscending(t1) && 0 < n <= |t1.entries|
    ensures CompareExisting(t1, n, t2).differences ==
      CompareExisting(t1, n - 1, t2).differences + Expected(t1, t2, t1.entries[n - 1].key)
  {
    FindAt(t1, n - 1);
  }

  lemma ExpectedKeys(t1: ServiceMap, t2: ServiceMap, k: string)
    requires WellFormed(t1) && WellFormed(t2)
    ensures forall d :: d in Expected(t1, t2, k) ==> d.serviceKey == k
  {
    match Find(t1, k)
    case Some(n1) => { var i := KeyIndex(t1, k); FindAt(t1, i); }
    case None =>
      match Find(t2, k)
      case Some(n2) => { var j := KeyIndex(t2, k); FindAt(t2, j); }
      case None =>
  }

  lemma WithKeyAll(ds: seq<ServiceDifference>, k: string, k': string)
    requires forall d :: d in ds ==> d.serviceKey == k'
    ensures WithKey(ds, k) == if k == k' then ds else []
    decreases |ds|
  {
    if |ds| > 0 {
      assert ds[..|ds| - 1] + [ds[|ds| - 1]] == ds;
      WithKeyAll(ds[..|ds| - 1], k, k');
    }
  }

  /** Whether `k` is one of the first `n` keys of `m`. */
  predicate InPrefix(m: ServiceMap, n: nat, k: string)
    requires n <= |m.entries|
  {
    n > 0 && (m.entries[n - 1].key == k || InPrefix(m, n - 1, k))
  }

  lemma {:induction false} InPrefixKeys(m: ServiceMap, n: nat, k: string)
    requires n <= |m.entries|
    ensures InPrefix(m, n, k) <==> exists i :: 0 <= i < n && m.entries[i].key == k
    decreases n
  {
    if n > 0 {
      InPrefixKeys(m, n - 1, k);
    }
  }

  lemma InPrefixAll(m: ServiceMap, k: string)
    ensures InPrefix(m, |m.entries|, k) <==> k in KeySet(m)
  {
    InPrefixKeys(m, |m.entries|, k);
    if k in KeySet(m) {
      var i := KeyIndex(m, k);
    }
  }

  /** An entry's key does not occur earlier in an ascending map. */
  lemma NotInEarlier(m: ServiceMap, n: nat)
    requires KeysAscending(m) && 0 < n <= |m.entries|
    ensures !InPrefix(m, n - 1, m.entries[n - 1].key)
  {
    InPrefixKeys(m, n - 1, m.entries[n - 1].key);
    if InPrefix(m, n - 1, m.entries[n - 1].key) {
      var i :| 0 <= i < n - 1 && m.entries[i].key == m.entries[n - 1].key;
      KeysDistinct(m, i, n - 1);
    }
  }

  lemma {:induction false} ExistingWithKey(t1: ServiceMap, n: nat, t2: ServiceMap, k: string)
    requires WellFormed(t1) && WellFormed(t2) && n <= |t1.entries|
    ensures WithKey(CompareExisting(t1, n, t2).differences, k) ==
      if InPrefix(t1, n, k) then Expected(t1, t2, k) else []
    decreases n
  {
    if n > 0 {
      ExistingWithKey(t1, n - 1, t2, k);
      ExistingWithKeyStep(t1, n, t2, k);
      NotInEarlier(t1, n);
    }
  }

  lemma ExistingWithKeyStep(t1: ServiceMap, n: nat, t2: ServiceMap, k: string)
    requires WellFormed(t1) && WellFormed(t2) && 0 < n <= |t1.entries|
    ensures WithKey(CompareExisting(t1, n, t2).differences, k) ==
      WithKey(CompareExisting(t1, n - 1, t2).differences, k) +
      (if t1.entries[n - 1].key == k then Expected(t1, t2, k) else [])
  {
    var k' := t1.entries[n - 1].key;
    ExistingStep(t1, n, t2);
    WithKeyAppend(CompareExisting(t1, n - 1, t2).differences, Expected(t1, t2, k'), k);
    ExpectedKeys(t1, t2, k');
    WithKeyAll(Expected(t1, t2, k'), k, k');
  }

  /** What the second loop reports about key `k`. */
  function AddedFor(t1: ServiceMap, t2: ServiceMap, k: string): seq<ServiceDifference>
  {
    if Find(t1, k).None? && Find(t2, k).Some? then [AddedEntry(Find(t2, k).value)] else []
  }

  lemma {:induction false} AddedWithKey(t2: ServiceMap, n: nat, t1: ServiceMap, k: string)
    requires WellFormed(t2) && n <= |t2.entries|
    ensures WithKey(ListAdded(t2, n, t1).differences, k) ==
      if InPrefix(t2, n, k) then AddedFor(t1, t2, k) else []
    decreases n
  {
    if n > 0 {
      AddedWithKey(t2, n - 1, t1, k);
      AddedWithKeyStep(t2, n, t1, k);
      NotInEarlier(t2, n);
    }
  }

  lemma AddedWithKeyStep(t2: ServiceMap, n: nat, t1: ServiceMap, k: string)
    requires WellFormed(t2) && 0 < n <= |t2.entries|
    ensures WithKey(ListAdded(t2, n, t1).differences, k) ==
      WithKey(ListAdded(t2, n - 1, t1).differences, k) +
      (if t2.entries[n - 1].key == k then AddedFor(t1, t2, k) else [])
  {
    FindAt(t2, n - 1);
    var acc := ListAdded(t2, n - 1, t1);
    var c := ListAdded(t2, n, t1);
    if c.differences != acc.differences {
      assert c.differences[..|c.differences| - 1] == acc.differences;
    }
  }

  /**
   * Per service key, the comparison emits: one REMOVED entry (name from the first tree, no
   * feature differences) for a key only in the first tree; one ADDED entry listing every feature
   * for a key only in the second; one MODIFIED entry for a common key whose service changed, and
   * nothing at all for a common key whose service did not.
   */
  lemma Classification(t1: ServiceMap, t2: ServiceMap, k: string)
    requires WellFormed(t1) && WellFormed(t2)
    ensures WithKey(Compare(t1, t2).differences, k) == Expected(t1, t2, k)
  {
    ExistingWithKey(t1, |t1.entries|, t2, k);
    AddedWithKey(t2, |t2.entries|, t1, k);
    WithKeyAppend(CompareExisting(t1, |t1.entries|, t2).differences, ListAdded(t2, |t2.entries|, t1).differences, k);
    InPrefixAll(t1, k);
    InPrefixAll(t2, k);
  }

  lemma {:induction false} ExistingKinds(t1: ServiceMap, n: nat, t2: ServiceMap)
    requires n <= |t1.entries|
    ensures forall d :: d in CompareExisting(t1, n, t2).differences ==>
      d.differenceType == Removed || d.differenceType == Modified
    decreases n
  {
    if n > 0 { ExistingKinds(t1, n - 1, t2); }
  }

  lemma {:induction false} AddedKinds(t2: ServiceMap, n: nat, t1: ServiceMap)
    requires n <= |t2.entries|
    ensures forall d :: d in ListAdded(t2, n, t1).differences ==> d.differenceType == Added
    decreases n
  {
    if n > 0 { AddedKinds(t2, n - 1, t1); }
  }

  /** No UNCHANGED entry is emitted, and every ADDED entry comes after all entries from the first tree. */
  lemma EntryOrder(t1: ServiceMap, t2: ServiceMap)
    ensures forall d :: d in Compare(t1, t2).differences ==> d.differenceType != Unchanged
    ensures forall i, j :: 0 <= i < j < |Compare(t1, t2).differences|
              && Compare(t1, t2).differences[i].differenceType == Added
              ==> Compare(t1, t2).differences[j].differenceType == Added
  {
    var first := CompareExisting(t1, |t1.entries|, t2).differences;
    var second := ListAdded(t2, |t2.entries|, t1).differences;
    ExistingKinds(t1, |t1.entries|, t2);
    AddedKinds(t2, |t2.entries|, t1);
    var ds := Compare(t1, t2).differences;
    forall i, j | 0 <= i < j < |ds| && ds[i].differenceType == Added
      ensures ds[j].differenceType == Added
    {
      assert ds[j] in second by { assert ds[j] == second[j - |first|]; }
    }
  }
}
