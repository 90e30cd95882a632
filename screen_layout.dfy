/**
 * What `getScreenLayout` of src/RecloserManager.cpp assembles from the catalog tables: the
 * service of a service-firmware link, its translations, its features left-joined to their
 * component bindings with each binding's limits, and the layouts of its child services that
 * are linked to the same firmware.
 */
module ScreenLayouts {
  import opened Wrappers
  import opened ManagerRecords
  import opened CatalogTables

  /**
   * `SELECT l.key, fcl.value FROM FeatureComponentLimits fcl JOIN Limits l ON fcl.limit_id = l.id
   * WHERE fcl.feature_component_id = ?`, over the first `|ls|` limit rows.
   */
  function LimitsFor(limitKeys: seq<string>, ls: seq<LimitRow>, fcId: int): seq<ComponentLimitRecord>
  {
    if |ls| == 0 then []
    else
      var x := ls[|ls| - 1];
      LimitsFor(limitKeys, ls[..|ls| - 1], fcId)
        + (if x.featureComponentId == fcId && LimitKeyOf(limitKeys, x.limitId).Some?
           then [ComponentLimitRecord(LimitKeyOf(limitKeys, x.limitId).value, x.value)] else [])
  }

  /**
   * A binding lists exactly the (key, value) pairs of its own limit rows whose limit id names
   * a known limit key.
   */
  lemma {:induction false} LimitsForMembers(limitKeys: seq<string>, ls: seq<LimitRow>, fcId: int)
    ensures forall lim :: lim in LimitsFor(limitKeys, ls, fcId) <==>
      exists i :: 0 <= i < |ls| && ls[i].featureComponentId == fcId
        && LimitKeyOf(limitKeys, ls[i].limitId) == Some(lim.key) && ls[i].value == lim.value
  {
    if |ls| > 0 {
      var init := ls[..|ls| - 1];
      LimitsForMembers(limitKeys, init, fcId);
      forall lim
        ensures lim in LimitsFor(limitKeys, ls, fcId) <==>
          exists i :: 0 <= i < |ls| && ls[i].featureComponentId == fcId
            && LimitKeyOf(limitKeys, ls[i].limitId) == Some(lim.key) && ls[i].value == lim.value
      {
        if exists i :: 0 <= i < |ls| && ls[i].featureComponentId == fcId
            && LimitKeyOf(limitKeys, ls[i].limitId) == Some(lim.key) && ls[i].value == lim.value {
          var i :| 0 <= i < |ls| && ls[i].featureComponentId == fcId
            && LimitKeyOf(limitKeys, ls[i].limitId) == Some(lim.key) && ls[i].value == lim.value;
          if i < |init| {
            assert init[i] == ls[i];
          }
        }
        if exists i :: 0 <= i < |init| && init[i].featureComponentId == fcId
            && LimitKeyOf(limitKeys, init[i].limitId) == Some(lim.key) && init[i].value == lim.value {
          var i :| 0 <= i < |init| && init[i].featureComponentId == fcId
            && LimitKeyOf(limitKeys, init[i].limitId) == Some(lim.key) && init[i].value == lim.value;
          assert ls[i] == init[i];
        }
      }
    }
  }

  /** The row of a feature whose component columns are NULL: type "" and no limits. */
  function UnboundRow(db: Tables, f: FeatureRecord): FeatureComponentRecord
  {
    FeatureComponentRecord(f.id, f.descriptionKey, ForKey(db.translations, f.descriptionKey), "", [])
  }

  /** The row of a feature joined to binding `b`. */
  function BoundRow(db: Tables, f: FeatureRecord, b: BindingRow): FeatureComponentRecord
  {
    match ComponentTypeOf(db.components, b.componentId)
    case None => UnboundRow(db, f)
    case Some(componentType) =>
      FeatureComponentRecord(f.id, f.descriptionKey, ForKey(db.translations, f.descriptionKey), componentType,
        LimitsFor(db.limitKeys, db.limits, b.id))
  }

  /** The rows `LEFT JOIN FeatureComponent fc ON f.id = fc.feature_id` yields over the bindings `bs`. */
  function BoundRows(db: Tables, f: FeatureRecord, bs: seq<BindingRow>): seq<FeatureComponentRecord>
  {
    if |bs| == 0 then []
    else
      var b := bs[|bs| - 1];
      BoundRows(db, f, bs[..|bs| - 1]) + (if b.featureId == f.id then [BoundRow(db, f, b)] else [])
  }

  /** The number of bindings of feature `featureId`. */
  function BindingCount(bs: seq<BindingRow>, featureId: int): nat
  {
    if |bs| == 0 then 0
    else BindingCount(bs[..|bs| - 1], featureId) + (if bs[|bs| - 1].featureId == featureId then 1 else 0)
  }

  /** A feature has one row per binding, each the row of that binding. */
  lemma {:induction false} BoundRowsShape(db: Tables, f: FeatureRecord, bs: seq<BindingRow>)
    ensures |BoundRows(db, f, bs)| == BindingCount(bs, f.id)
    ensures forall r :: r in BoundRows(db, f, bs) <==>
      exists i :: 0 <= i < |bs| && bs[i].featureId == f.id && r == BoundRow(db, f, bs[i])
  {
    if |bs| > 0 {
      var init := bs[..|bs| - 1];
      BoundRowsShape(db, f, init);
      forall r
        ensures r in BoundRows(db, f, bs) <==>
          exists i :: 0 <= i < |bs| && bs[i].featureId == f.id && r == BoundRow(db, f, bs[i])
      {
        if exists i :: 0 <= i < |bs| && bs[i].featureId == f.id && r == BoundRow(db, f, bs[i]) {
          var i :| 0 <= i < |bs| && bs[i].featureId == f.id && r == BoundRow(db, f, bs[i]);
          if i < |init| {
            assert init[i] == bs[i];
          }
        }
        if exists i :: 0 <= i < |init| && init[i].featureId == f.id && r == BoundRow(db, f, init[i]) {
          var i :| 0 <= i < |init| && init[i].featureId == f.id && r == BoundRow(db, f, init[i]);
          assert bs[i] == init[i];
        }
      }
    }
  }

  /** `BindingCount` counts the bindings of the feature: none exactly when no binding names it. */
  lemma {:induction false} BindingCountZero(bs: seq<BindingRow>, featureId: int)
    ensures BindingCount(bs, featureId) == 0 <==> forall i :: 0 <= i < |bs| ==> bs[i].featureId != featureId
  {
    if |bs| > 0 {
      BindingCountZero(bs[..|bs| - 1], featureId);
      assert forall i :: 0 <= i < |bs| - 1 ==> bs[..|bs| - 1][i] == bs[i];
    }
  }

  /** The LEFT JOIN: the bound rows of a feature, or one unbound row when it has no binding. */
  function FeatureRows(db: Tables, f: FeatureRecord): seq<FeatureComponentRecord>
  {
    var rows := BoundRows(db, f, db.bindings);
    if |rows| == 0 then [UnboundRow(db, f)] else rows
  }

  /**
   * An unbound feature appears once, with an empty component type and no limits; a bound
   * feature appears once per binding, each time with the binding's component type and exactly
   * that binding's limits, and every binding of the feature yields its row.
   */
  lemma FeatureRowsShape(db: Tables, f: FeatureRecord)
    ensures (forall i :: 0 <= i < |db.bindings| ==> db.bindings[i].featureId != f.id) ==>
      FeatureRows(db, f) == [FeatureComponentRecord(f.id, f.descriptionKey, ForKey(db.translations, f.descriptionKey), "", [])]
    ensures (exists i :: 0 <= i < |db.bindings| && db.bindings[i].featureId == f.id) ==>
      |FeatureRows(db, f)| == BindingCount(db.bindings, f.id)
      && (forall r :: r in FeatureRows(db, f) ==>
            r.featureId == f.id
            && exists i :: 0 <= i < |db.bindings| && db.bindings[i].featureId == f.id
                 && (ComponentTypeOf(db.components, db.bindings[i].componentId).Some? ==>
                       r.componentType == ComponentTypeOf(db.components, db.bindings[i].componentId).value
                       && r.limits == LimitsFor(db.limitKeys, db.limits, db.bindings[i].id)))
      && (forall r :: r in FeatureRows(db, f) <==>
            exists i :: 0 <= i < |db.bindings| && db.bindings[i].featureId == f.id && r == BoundRow(db, f, db.bindings[i]))
  {
    BoundRowsShape(db, f, db.bindings);
    BindingCountZero(db.bindings, f.id);
  }

  /** The feature rows for link `sfId` over the features `fs`, features in table order. */
  function LayoutFeatures(db: Tables, fs: seq<FeatureRecord>, sfId: int): seq<FeatureComponentRecord>
  {
    if |fs| == 0 then []
    else
      var f := fs[|fs| - 1];
      LayoutFeatures(db, fs[..|fs| - 1], sfId) + (if f.serviceFirmwareId == sfId then FeatureRows(db, f) else [])
  }

  // ---------------------------------------------------------------------------------------
  // The recursion over child services

  /**
   * The parent relation is acyclic: a service with a parent ranks strictly below it.
   * `getScreenLayout` descends from a service to its children and terminates only on such data.
   */
  ghost predicate Ranked(ss: seq<ServiceRow>, rank: int -> nat)
  {
    forall i :: 0 <= i < |ss| && ss[i].parent.Some? ==> rank(ss[i].id) < rank(ss[i].parent.value)
  }

  predicate LinkIdsDistinct(links: seq<LinkRow>)
  {
    forall i, j :: 0 <= i < j < |links| ==> links[i].id != links[j].id
  }

  ghost function LinkRank(db: Tables, sfId: int, rank: int -> nat): nat
  {
    match LinkById(db.links, sfId)
    case None => 0
    case Some(l) => rank(l.serviceId) + 1
  }

  /** `getScreenLayout(sfId)`: None when no link has id `sfId` or its service is missing. */
  ghost function ScreenLayout(db: Tables, sfId: int, rank: int -> nat): Option<ServiceLayoutRecord>
    requires LinkIdsDistinct(db.links) && Ranked(db.services, rank)
    decreases LinkRank(db, sfId, rank), 1
  {
    match LinkById(db.links, sfId)
    case None => None
    case Some(l) =>
      match ServiceById(db.services, l.serviceId)
      case None => None
      case Some(s) =>
        Some(ServiceLayoutRecord(s.id, s.descriptionKey, ForKey(db.translations, s.descriptionKey),
          LayoutFeatures(db, db.features, sfId), ChildLayouts(db, s, l.firmwareId, |db.services|, rank)))
  }

  /**
   * The child layouts of service `s` in firmware `fw`, over the first `n` services: each child
   * (`parent_id` is `s`) with a link to `fw` contributes its layout, in table order.
   */
  ghost function ChildLayouts(db: Tables, s: ServiceRow, fw: int, n: nat, rank: int -> nat): seq<ServiceLayoutRecord>
    requires LinkIdsDistinct(db.links) && Ranked(db.services, rank) && n <= |db.services|
    decreases rank(s.id) + 1, 0, n
  {
    if n == 0 then []
    else
      var prev := ChildLayouts(db, s, fw, n - 1, rank);
      var c := db.services[n - 1];
      var childSf := LinkId(db.links, c.id, fw);
      if c.parent == Some(s.id) && childSf > 0 then
        LinkByIdOfLinkId(db.links, c.id, fw);
        match ScreenLayout(db, childSf, rank)
        case None => prev
        case Some(x) => prev + [x]
      else prev
  }

  /** Every link's service exists and every link id is positive: what the tables guarantee. */
  predicate LinksReferenced(db: Tables)
  {
    forall i :: 0 <= i < |db.links| ==> db.links[i].id >= 1 && HasService(db.services, db.links[i].serviceId)
  }

  /**
   * "Not found" is exactly an unknown link id; a found layout is that of the link's service,
   * with the feature rows of the link.
   */
  lemma ScreenLayoutFound(db: Tables, sfId: int, rank: int -> nat)
    requires LinkIdsDistinct(db.links) && Ranked(db.services, rank) && LinksReferenced(db)
    ensures ScreenLayout(db, sfId, rank).Some? <==> HasLinkId(db.links, sfId)
    ensures ScreenLayout(db, sfId, rank).Some? ==>
      ScreenLayout(db, sfId, rank).value.serviceId == LinkById(db.links, sfId).value.serviceId
      && ScreenLayout(db, sfId, rank).value.features == LayoutFeatures(db, db.features, sfId)
  {
    if HasLinkId(db.links, sfId) {
      var l := LinkById(db.links, sfId).value;
      var i :| 0 <= i < |db.links| && db.links[i] == l;
    }
  }

  /** What one more service row adds to the child layouts: its layout if it is a linked child, else nothing. */
  lemma ChildStep(db: Tables, s: ServiceRow, fw: int, n: nat, rank: int -> nat)
    requires LinkIdsDistinct(db.links) && Ranked(db.services, rank) && LinksReferenced(db) && 0 < n <= |db.services|
    ensures var c := db.services[n - 1];
      var prev := ChildLayouts(db, s, fw, n - 1, rank);
      var cs := ChildLayouts(db, s, fw, n, rank);
      if c.parent == Some(s.id) && Linked(db.links, c.id, fw)
      then |cs| == |prev| + 1 && cs[..|prev|] == prev && cs[|prev|].serviceId == c.id
        && ScreenLayout(db, LinkId(db.links, c.id, fw), rank) == Some(cs[|prev|])
      else cs == prev
  {
    var c := db.services[n - 1];
    var prev := ChildLayouts(db, s, fw, n - 1, rank);
    var childSf := LinkId(db.links, c.id, fw);
    if Linked(db.links, c.id, fw) {
      var f := FirstLink(db.links, c.id, fw).value;
      var k :| 0 <= k < |db.links| && db.links[k] == f;
      assert childSf > 0;
      LinkByIdOfLinkId(db.links, c.id, fw);
      assert HasService(db.services, c.id);
      if c.parent == Some(s.id) {
        var x := ScreenLayout(db, childSf, rank);
        assert x.Some? && x.value.serviceId == c.id;
        assert ChildLayouts(db, s, fw, n, rank) == prev + [x.value];
      }
    } else {
      assert childSf == 0;
    }
  }

  /**
   * Every child layout is the screen layout, through its firmware link, of a service whose
   * parent is this service and which is linked to the firmware.
   */
  lemma {:induction false} ChildLayoutsSound(db: Tables, s: ServiceRow, fw: int, n: nat, rank: int -> nat)
    requires LinkIdsDistinct(db.links) && Ranked(db.services, rank) && LinksReferenced(db) && n <= |db.services|
    ensures forall x :: x in ChildLayouts(db, s, fw, n, rank) ==>
      exists i :: 0 <= i < n && db.services[i].parent == Some(s.id) && Linked(db.links, db.services[i].id, fw)
        && x.serviceId == db.services[i].id && ScreenLayout(db, LinkId(db.links, db.services[i].id, fw), rank) == Some(x)
  {
    if n > 0 {
      ChildLayoutsSound(db, s, fw, n - 1, rank);
      ChildStep(db, s, fw, n, rank);
      var prev := ChildLayouts(db, s, fw, n - 1, rank);
      var cs := ChildLayouts(db, s, fw, n, rank);
      forall x | x in cs
        ensures exists i :: (0 <= i < n && db.services[i].parent == Some(s.id) && Linked(db.links, db.services[i].id, fw)
          && x.serviceId == db.services[i].id && ScreenLayout(db, LinkId(db.links, db.services[i].id, fw), rank) == Some(x))
      {
        if x in prev {
          var i :| 0 <= i < n - 1 && db.services[i].parent == Some(s.id) && Linked(db.links, db.services[i].id, fw)
            && x.serviceId == db.services[i].id && ScreenLayout(db, LinkId(db.links, db.services[i].id, fw), rank) == Some(x);
        } else {
          assert x == cs[|prev|];
          assert x.serviceId == db.services[n - 1].id;
        }
      }
    }
  }

  /**
   * Every service whose parent is this service and which is linked to the firmware has its
   * screen layout, through its firmware link, among the children.
   */
  lemma {:induction false} ChildLayoutsComplete(db: Tables, s: ServiceRow, fw: int, n: nat, rank: int -> nat)
    requires LinkIdsDistinct(db.links) && Ranked(db.services, rank) && LinksReferenced(db) && n <= |db.services|
    ensures forall i :: 0 <= i < n && db.services[i].parent == Some(s.id) && Linked(db.links, db.services[i].id, fw) ==>
      exists x :: x in ChildLayouts(db, s, fw, n, rank) && x.serviceId == db.services[i].id
        && ScreenLayout(db, LinkId(db.links, db.services[i].id, fw), rank) == Some(x)
  {
    if n > 0 {
      ChildLayoutsComplete(db, s, fw, n - 1, rank);
      var prev := ChildLayouts(db, s, fw, n - 1, rank);
      var cs := ChildLayouts(db, s, fw, n, rank);
      forall i | 0 <= i < n && db.services[i].parent == Some(s.id) && Linked(db.links, db.services[i].id, fw)
        ensures exists x :: (x in cs && x.serviceId == db.services[i].id
          && ScreenLayout(db, LinkId(db.links, db.services[i].id, fw), rank) == Some(x))
      {
        if i < n - 1 {
          ChildLayoutsGrow(db, s, fw, n, rank);
          var x :| x in prev && x.serviceId == db.services[i].id
            && ScreenLayout(db, LinkId(db.links, db.services[i].id, fw), rank) == Some(x);
          assert x in cs;
        } else {
          ChildStep(db, s, fw, n, rank);
          assert cs[|prev|] in cs;
        }
      }
    }
  }

  /** A further service row never drops a child layout already collected. */
  lemma ChildLayoutsGrow(db: Tables, s: ServiceRow, fw: int, n: nat, rank: int -> nat)
    requires LinkIdsDistinct(db.links) && Ranked(db.services, rank) && LinksReferenced(db) && 0 < n <= |db.services|
    ensures forall x :: x in ChildLayouts(db, s, fw, n - 1, rank) ==> x in ChildLayouts(db, s, fw, n, rank)
  {
    ChildStep(db, s, fw, n, rank);
    var prev := ChildLayouts(db, s, fw, n - 1, rank);
    var cs := ChildLayouts(db, s, fw, n, rank);
    forall x | x in prev ensures x in cs {
      var k :| 0 <= k < |prev| && prev[k] == x;
      if cs != prev {
        assert cs[..|prev|][k] == x;
      }
      assert cs[k] == x;
    }
  }

  /** The constraints of the ServiceFirmware table give what `getScreenLayout` needs. */
  lemma LinksValidForLayout(db: Tables, last: nat)
    requires LinksValid(db.links, db.services, last)
    ensures LinkIdsDistinct(db.links) && LinksReferenced(db)
  {
  }
}
