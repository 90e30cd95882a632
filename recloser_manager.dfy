/**
 * `RecloserManager` of src/RecloserManager.cpp over in-memory tables. Each table the modelled
 * operations touch is a sequence field in table order; the `last...Id` fields are the
 * AUTOINCREMENT counters (the highest id handed out so far). A statement that SQLite rejects
 * (a UNIQUE or foreign-key violation) leaves every table as it was and makes the method
 * report failure; `INSERT OR IGNORE` silently keeps the existing row; `INSERT ... SELECT` that
 * selects no row changes nothing and still succeeds.
 */
module CatalogManager {
  import opened Wrappers
  import opened ManagerRecords
  import opened CatalogTables
  import opened ScreenLayouts

  class RecloserManager {
    var components: seq<string>
    var limitKeys: seq<string>
    var languages: seq<Language>
    var descriptions: seq<string>
    var translations: seq<TranslationRecord>
    var services: seq<ServiceRow>
    var serviceFirmware: seq<LinkRow>
    var features: seq<FeatureRecord>
    var featureComponents: seq<BindingRow>
    var componentLimits: seq<LimitRow>
    var lastServiceId: nat
    var lastLinkId: nat
    var lastFeatureId: nat
    var lastBindingId: nat
    var lastLimitId: nat

    /** The table constraints of the schema. */
    ghost predicate Valid()
      reads this
    {
      LanguagesValid(languages) && DescriptionsValid(descriptions)
      && TranslationsValid(translations, descriptions, languages)
      && ServicesValid(services, descriptions, lastServiceId)
      && LinksValid(serviceFirmware, services, lastLinkId)
      && FeaturesValid(features, descriptions, serviceFirmware, lastFeatureId)
      && BindingsValid(featureComponents, features, components, lastBindingId)
      && LimitsValid(componentLimits, featureComponents, limitKeys, lastLimitId)
    }

    /** The tables `getScreenLayout` reads. */
    function TablesOf(): Tables
      reads this
    {
      Tables(components, limitKeys, translations, services, serviceFirmware, features, featureComponents, componentLimits)
    }

    /**
     * A freshly initialised database: the Component and Limits tables hold their seed rows,
     * every other table modelled here starts empty, and no AUTOINCREMENT id has been handed out
     * yet, so the first row of each table gets id 1.
     */
    constructor ()
      ensures Valid()
      ensures components == ComponentTypes && limitKeys == LimitKeys
      ensures languages == [] && descriptions == [] && translations == [] && services == []
      ensures serviceFirmware == [] && features == [] && featureComponents == [] && componentLimits == []
      ensures lastServiceId == 0 && lastLinkId == 0 && lastFeatureId == 0 && lastBindingId == 0 && lastLimitId == 0
    {
      components, limitKeys := ComponentTypes, LimitKeys;
      languages, descriptions, translations, services := [], [], [], [];
      serviceFirmware, features, featureComponents, componentLimits := [], [], [], [];
      lastServiceId, lastLinkId, lastFeatureId, lastBindingId, lastLimitId := 0, 0, 0, 0, 0;
    }

    // -------------------------------------------------------------------------------------
    // Translations

    /** `INSERT OR IGNORE INTO Languages`: a known code keeps its row. */
    method AddLanguage(code: string, name: string) returns (ok: bool)
      modifies this`languages
      ensures ok
      ensures languages == if HasLanguage(old(languages), code) then old(languages) else old(languages) + [Language(code, name)]
      ensures old(Valid()) ==> Valid()
    {
      if !HasLanguage(languages, code) {
        if Valid() {
          AddLanguageValid(languages, Language(code, name), translations, descriptions);
        }
        languages := languages + [Language(code, name)];
      }
      ok := true;
    }

    /** `INSERT OR IGNORE INTO Descriptions`: a known key is kept as it is. */
    method AddDescriptionKey(key: string) returns (ok: bool)
      modifies this`descriptions
      ensures ok
      ensures descriptions == if key in old(descriptions) then old(descriptions) else old(descriptions) + [key]
      ensures old(Valid()) ==> Valid()
    {
      if key !in descriptions {
        if Valid() {
          AddDescriptionValid(descriptions, key, languages, translations, services, lastServiceId, features,
            serviceFirmware, lastFeatureId);
        }
        descriptions := descriptions + [key];
      }
      ok := true;
    }

    /**
     * `INSERT OR REPLACE INTO Translations`: fails when the key or the language is not
     * registered (foreign keys); otherwise the row of the pair is replaced.
     */
    method AddTranslation(key: string, lang: string, value: string) returns (ok: bool)
      modifies this`translations
      ensures ok <==> key in descriptions && HasLanguage(languages, lang)
      ensures translations == if ok then Upsert(old(translations), TranslationRecord(key, lang, value)) else old(translations)
      ensures old(Valid()) ==> Valid()
    {
      ok := key in descriptions && HasLanguage(languages, lang);
      if ok {
        var t := TranslationRecord(key, lang, value);
        if Valid() {
          AddTranslationValid(translations, t, descriptions, languages);
        }
        translations := Upsert(translations, t);
      }
    }

    /**
     * `addKeyWithTranslations`: registers the key, then attempts every pair in order without
     * stopping at a failure; succeeds exactly when every pair's language is registered.
     */
    method AddKeyWithTranslations(key: string, pairs: seq<(string, string)>) returns (ok: bool)
      modifies this`descriptions, this`translations
      ensures descriptions == if key in old(descriptions) then old(descriptions) else old(descriptions) + [key]
      ensures translations == UpsertAll(old(translations), key, pairs, languages)
      ensures ok <==> forall i :: 0 <= i < |pairs| ==> HasLanguage(languages, pairs[i].0)
      ensures old(Valid()) ==> Valid()
    {
      var registered := AddDescriptionKey(key);
      ok := registered;
      for i := 0 to |pairs|
        invariant key in descriptions
        invariant descriptions == if key in old(descriptions) then old(descriptions) else old(descriptions) + [key]
        invariant translations == UpsertAll(old(translations), key, pairs[..i], languages)
        invariant ok <==> forall j :: 0 <= j < i ==> HasLanguage(languages, pairs[j].0)
        invariant old(Valid()) ==> Valid()
      {
        var done := AddTranslation(key, pairs[i].0, pairs[i].1);
        assert pairs[..i + 1][..i] == pairs[..i];
        if !done {
          ok := false;
        }
      }
      assert pairs[..|pairs|] == pairs;
    }

    /** `getTranslation`: the stored value of the pair, or "" when there is none. */
    function GetTranslation(key: string, lang: string): (value: string)
      reads this
      ensures (forall i :: 0 <= i < |translations| ==> !Matches(translations[i], key, lang)) ==> value == ""
      ensures (exists i :: 0 <= i < |translations| && Matches(translations[i], key, lang)) ==>
        TranslationRecord(key, lang, value) in translations
    {
      match Lookup(translations, key, lang)
      case None => ""
      case Some(v) => v
    }

    /** `getTranslationsForKey`: the loop that collects the rows of the key. */
    method GetTranslationsForKey(key: string) returns (rs: seq<TranslationRecord>)
      ensures rs == ForKey(translations, key)
    {
      rs := [];
      for i := 0 to |translations|
        invariant rs == ForKey(translations[..i], key)
      {
        assert translations[..i + 1][..i] == translations[..i];
        if translations[i].descriptionKey == key {
          rs := rs + [translations[i]];
        }
      }
      assert translations[..|translations|] == translations;
    }

    // -------------------------------------------------------------------------------------
    // Services and firmware links

    /**
     * `addService`: a positive `parentId` is stored as the parent, anything else as NULL (a
     * root). The insert fails, returning 0, when the key is already used by a service or is
     * not registered, or when the parent is neither an existing service nor the new row
     * itself (SQLite checks the foreign key once the row is in place). Otherwise the new id.
     */
    method AddService(descKey: string, parentId: int) returns (id: int)
      modifies this`services, this`lastServiceId
      ensures var newId := old(lastServiceId) + 1;
        var accepted := descKey in descriptions && !KeyTaken(old(services), descKey)
          && (parentId <= 0 || HasService(old(services), parentId) || parentId == newId);
        (accepted ==> (id == newId && lastServiceId == newId
           && services == old(services) + [ServiceRow(newId, descKey, ParentOf(parentId))]))
        && (!accepted ==> id == 0 && lastServiceId == old(lastServiceId) && services == old(services))
      ensures old(Valid()) ==> Valid()
    {
      var newId := lastServiceId + 1;
      if descKey in descriptions && !KeyTaken(services, descKey)
         && (parentId <= 0 || HasService(services, parentId) || parentId == newId) {
        var row := ServiceRow(newId, descKey, ParentOf(parentId));
        if Valid() {
          AddServiceValid(services, row, descriptions, lastServiceId, serviceFirmware, lastLinkId);
        }
        services := services + [row];
        lastServiceId := newId;
        id := newId;
      } else {
        id := 0;
      }
    }

    /**
     * `updateService`: when no row has `id` nothing changes and the update succeeds. Otherwise
     * the row takes the new key and parent (a positive `parentId`, else NULL); it fails, with
     * nothing changed, when another service uses the key, the key is not registered, or the
     * parent is not an existing service.
     */
    method UpdateService(id: int, descKey: string, parentId: int) returns (ok: bool)
      modifies this`services
      ensures ServiceIndex(old(services), id).None? ==> ok && services == old(services)
      ensures ServiceIndex(old(services), id).Some? ==>
        var i := ServiceIndex(old(services), id).value;
        var accepted := descKey in descriptions
          && (forall j :: 0 <= j < |old(services)| && j != i ==> old(services)[j].descriptionKey != descKey)
          && (parentId <= 0 || HasService(old(services), parentId));
        (ok <==> accepted)
        && services == if accepted then old(services)[i := ServiceRow(id, descKey, ParentOf(parentId))] else old(services)
      ensures old(Valid()) ==> Valid()
    {
      var index := ServiceIndex(services, id);
      if index.None? {
        ok := true;
        return;
      }
      var i := index.value;
      ok := descKey in descriptions
        && (forall j :: 0 <= j < |services| && j != i ==> services[j].descriptionKey != descKey)
        && (parentId <= 0 || HasService(services, parentId));
      if ok {
        var updated := services[i := ServiceRow(id, descKey, ParentOf(parentId))];
        if Valid() {
          UpdateServiceValid(services, i, updated[i], descriptions, lastServiceId, serviceFirmware, lastLinkId);
        }
        services := updated;
      }
    }

    /**
     * `linkServiceToFirmware`: `INSERT OR IGNORE`, so an existing link of the pair is kept and
     * no second one is made; a service that does not exist fails the foreign key. Either way
     * nothing changes; otherwise a new link is appended.
     */
    method LinkServiceToFirmware(serviceId: int, firmwareId: int)
      modifies this`serviceFirmware, this`lastLinkId
      ensures var accepted := HasService(services, serviceId) && !Linked(old(serviceFirmware), serviceId, firmwareId);
        (accepted ==> (lastLinkId == old(lastLinkId) + 1
           && serviceFirmware == old(serviceFirmware) + [LinkRow(old(lastLinkId) + 1, serviceId, firmwareId)]))
        && (!accepted ==> lastLinkId == old(lastLinkId) && serviceFirmware == old(serviceFirmware))
      ensures HasService(services, serviceId) ==> Linked(serviceFirmware, serviceId, firmwareId)
      ensures old(Valid()) ==> Valid()
    {
      if HasService(services, serviceId) && !Linked(serviceFirmware, serviceId, firmwareId) {
        var row := LinkRow(lastLinkId + 1, serviceId, firmwareId);
        if Valid() {
          AddLinkValid(serviceFirmware, row, services, lastLinkId, features, descriptions, lastFeatureId);
        }
        assert (serviceFirmware + [row])[|serviceFirmware|] == row;
        serviceFirmware := serviceFirmware + [row];
        lastLinkId := lastLinkId + 1;
      }
    }

    /** `getServiceFirmwareId`: the id of the pair's link, 0 when the pair is not linked. */
    function GetServiceFirmwareId(serviceId: int, firmwareId: int): (id: int)
      reads this
      ensures !Linked(serviceFirmware, serviceId, firmwareId) ==> id == 0
      ensures Linked(serviceFirmware, serviceId, firmwareId) ==> LinkRow(id, serviceId, firmwareId) in serviceFirmware
    {
      LinkId(serviceFirmware, serviceId, firmwareId)
    }

    /** `getServicesByParentAndFirmware`: the loop over the rows of the join. */
    method GetServicesByParentAndFirmware(parentId: int, firmwareId: int) returns (rs: seq<ServiceRecord>)
      ensures rs == ServicesBy(services, serviceFirmware, parentId, firmwareId)
    {
      rs := [];
      for i := 0 to |services|
        invariant rs == ServicesBy(services[..i], serviceFirmware, parentId, firmwareId)
      {
        assert services[..i + 1][..i] == services[..i];
        var s := services[i];
        if ParentMatches(s, parentId) {
          var linked := LinkedRowsOf(s, firmwareId);
          rs := rs + linked;
        }
      }
      assert services[..|services|] == services;
    }

    /** The join's rows for one service: one record per link of the service to the firmware. */
    method LinkedRowsOf(s: ServiceRow, firmwareId: int) returns (rs: seq<ServiceRecord>)
      ensures rs == LinkedRecords(s, serviceFirmware, firmwareId)
    {
      rs := [];
      for j := 0 to |serviceFirmware|
        invariant rs == LinkedRecords(s, serviceFirmware[..j], firmwareId)
      {
        assert serviceFirmware[..j + 1][..j] == serviceFirmware[..j];
        var l := serviceFirmware[j];
        if l.serviceId == s.id && l.firmwareId == firmwareId {
          rs := rs + [RecordOf(s)];
        }
      }
      assert serviceFirmware[..|serviceFirmware|] == serviceFirmware;
    }

    // -------------------------------------------------------------------------------------
    // Features, components and limits

    /**
     * `addFeature`: the feature belongs to a service-firmware link. The insert fails, returning
     * 0, when the key is not registered or no link has the id; otherwise the new id.
     */
    method AddFeature(descKey: string, serviceFirmwareId: int) returns (id: int)
      modifies this`features, this`lastFeatureId
      ensures var accepted := descKey in descriptions && HasLinkId(serviceFirmware, serviceFirmwareId);
        (accepted ==> (id == old(lastFeatureId) + 1 && lastFeatureId == id
           && features == old(features) + [FeatureRecord(id, descKey, serviceFirmwareId)]))
        && (!accepted ==> id == 0 && lastFeatureId == old(lastFeatureId) && features == old(features))
      ensures old(Valid()) ==> Valid()
    {
      if descKey in descriptions && HasLinkId(serviceFirmware, serviceFirmwareId) {
        id := lastFeatureId + 1;
        if Valid() {
          AddFeatureValid(features, FeatureRecord(id, descKey, serviceFirmwareId), descriptions, serviceFirmware,
            lastFeatureId, featureComponents, components, lastBindingId);
        }
        features := features + [FeatureRecord(id, descKey, serviceFirmwareId)];
        lastFeatureId := id;
      } else {
        id := 0;
      }
    }

    /**
     * `linkFeatureToComponent`: an unknown component type selects no row and nothing changes;
     * a feature that does not exist fails the foreign key and nothing changes; otherwise a
     * binding to the type's component is appended.
     */
    method LinkFeatureToComponent(featureId: int, componentType: string)
      modifies this`featureComponents, this`lastBindingId
      ensures var accepted := ComponentId(components, componentType).Some? && HasFeature(features, featureId);
        (accepted ==> (lastBindingId == old(lastBindingId) + 1
           && featureComponents == old(featureComponents)
                + [BindingRow(old(lastBindingId) + 1, featureId, ComponentId(components, componentType).value)]))
        && (!accepted ==> lastBindingId == old(lastBindingId) && featureComponents == old(featureComponents))
      ensures old(Valid()) ==> Valid()
    {
      var componentId := ComponentId(components, componentType);
      if componentId.Some? && HasFeature(features, featureId) {
        var row := BindingRow(lastBindingId + 1, featureId, componentId.value);
        if Valid() {
          ComponentRoundTrip(components, componentType);
          AddBindingValid(featureComponents, row, features, components, lastBindingId, componentLimits, limitKeys, lastLimitId);
        }
        featureComponents := featureComponents + [row];
        lastBindingId := lastBindingId + 1;
      }
    }

    /**
     * `addComponentLimit`: an unknown limit key selects no row, so nothing is added and the
     * call still succeeds; a binding that does not exist fails the foreign key; otherwise the
     * limit row is appended.
     */
    method AddComponentLimit(featureComponentId: int, limitKey: string, value: string) returns (ok: bool)
      modifies this`componentLimits, this`lastLimitId
      ensures ok <==> LimitId(limitKeys, limitKey).None? || HasBinding(featureComponents, featureComponentId)
      ensures LimitId(limitKeys, limitKey).Some? && HasBinding(featureComponents, featureComponentId) ==>
        lastLimitId == old(lastLimitId) + 1
        && componentLimits == old(componentLimits)
             + [LimitRow(old(lastLimitId) + 1, featureComponentId, LimitId(limitKeys, limitKey).value, value)]
      ensures !(LimitId(limitKeys, limitKey).Some? && HasBinding(featureComponents, featureComponentId)) ==>
        lastLimitId == old(lastLimitId) && componentLimits == old(componentLimits)
      ensures old(Valid()) ==> Valid()
    {
      var limitId := LimitId(limitKeys, limitKey);
      if limitId.None? {
        ok := true;
      } else if HasBinding(featureComponents, featureComponentId) {
        var row := LimitRow(lastLimitId + 1, featureComponentId, limitId.value, value);
        if Valid() {
          LimitRoundTrip(limitKeys, limitKey);
          AddLimitValid(componentLimits, row, featureComponents, limitKeys, lastLimitId);
        }
        componentLimits := componentLimits + [row];
        lastLimitId := lastLimitId + 1;
        ok := true;
      } else {
        ok := false;
      }
    }

    // -------------------------------------------------------------------------------------
    // The screen layout

    /**
     * `getScreenLayout`: None when no link has id `serviceFirmwareId`; otherwise the layout of
     * the link's service with its feature rows and the layouts of its linked children.
     */
    method GetScreenLayout(serviceFirmwareId: int, ghost rank: int -> nat) returns (layout: Option<ServiceLayoutRecord>)
      requires LinkIdsDistinct(serviceFirmware) && Ranked(services, rank)
      ensures layout == ScreenLayout(TablesOf(), serviceFirmwareId, rank)
      decreases LinkRank(TablesOf(), serviceFirmwareId, rank), 1
    {
      var link := LinkById(serviceFirmware, serviceFirmwareId);
      if link.None? {
        return None;
      }
      var service := ServiceById(services, link.value.serviceId);
      if service.None? {
        return None;
      }
      var s := service.value;
      var serviceTranslations := GetTranslationsForKey(s.descriptionKey);
      var rows := CollectFeatureRows(serviceFirmwareId);
      // The firmware of the link, read back by id for the children.
      var firmwareLink := LinkById(serviceFirmware, serviceFirmwareId);
      var firmwareId := if firmwareLink.Some? then firmwareLink.value.firmwareId else 0;
      var children := CollectChildLayouts(s, firmwareId, rank);
      layout := Some(ServiceLayoutRecord(s.id, s.descriptionKey, serviceTranslations, rows, children));
    }

    /** The loop over the feature rows of link `serviceFirmwareId`. */
    method CollectFeatureRows(serviceFirmwareId: int) returns (rows: seq<FeatureComponentRecord>)
      ensures rows == LayoutFeatures(TablesOf(), features, serviceFirmwareId)
    {
      rows := [];
      for i := 0 to |features|
        invariant rows == LayoutFeatures(TablesOf(), features[..i], serviceFirmwareId)
      {
        assert features[..i + 1][..i] == features[..i];
        var f := features[i];
        if f.serviceFirmwareId == serviceFirmwareId {
          var featureRows := FeatureRowsOf(f);
          rows := rows + featureRows;
        }
      }
      assert features[..|features|] == features;
    }

    /** The rows of feature `f`: one per binding, or one unbound row. */
    method FeatureRowsOf(f: FeatureRecord) returns (rows: seq<FeatureComponentRecord>)
      ensures rows == FeatureRows(TablesOf(), f)
    {
      rows := [];
      for j := 0 to |featureComponents|
        invariant rows == BoundRows(TablesOf(), f, featureComponents[..j])
      {
        assert featureComponents[..j + 1][..j] == featureComponents[..j];
        var b := featureComponents[j];
        if b.featureId == f.id {
          var featureTranslations := GetTranslationsForKey(f.descriptionKey);
          var componentType := ComponentTypeOf(components, b.componentId);
          var rec := FeatureComponentRecord(f.id, f.descriptionKey, featureTranslations, "", []);
          if componentType.Some? {
            var limits := CollectLimits(b.id);
            rec := rec.(componentType := componentType.value, limits := limits);
          }
          rows := rows + [rec];
        }
      }
      assert featureComponents[..|featureComponents|] == featureComponents;
      if |rows| == 0 {
        var featureTranslations := GetTranslationsForKey(f.descriptionKey);
        rows := [FeatureComponentRecord(f.id, f.descriptionKey, featureTranslations, "", [])];
      }
    }

    /** The loop over the limits of binding `featureComponentId`. */
    method CollectLimits(featureComponentId: int) returns (limits: seq<ComponentLimitRecord>)
      ensures limits == LimitsFor(limitKeys, componentLimits, featureComponentId)
    {
      limits := [];
      for k := 0 to |componentLimits|
        invariant limits == LimitsFor(limitKeys, componentLimits[..k], featureComponentId)
      {
        assert componentLimits[..k + 1][..k] == componentLimits[..k];
        var x := componentLimits[k];
        var limitKey := LimitKeyOf(limitKeys, x.limitId);
        if x.featureComponentId == featureComponentId && limitKey.Some? {
          limits := limits + [ComponentLimitRecord(limitKey.value, x.value)];
        }
      }
      assert componentLimits[..|componentLimits|] == componentLimits;
    }

    /** The loop over the children of `s`: each linked child's layout, in table order. */
    method CollectChildLayouts(s: ServiceRow, firmwareId: int, ghost rank: int -> nat) returns (children: seq<ServiceLayoutRecord>)
      requires LinkIdsDistinct(serviceFirmware) && Ranked(services, rank)
      ensures children == ChildLayouts(TablesOf(), s, firmwareId, |services|, rank)
      decreases rank(s.id) + 1, 0
    {
      children := [];
      for i := 0 to |services|
        invariant children == ChildLayouts(TablesOf(), s, firmwareId, i, rank)
      {
        var c := services[i];
        if c.parent == Some(s.id) {
          var childSf := GetServiceFirmwareId(c.id, firmwareId);
          if childSf > 0 {
            LinkByIdOfLinkId(serviceFirmware, c.id, firmwareId);
            var child := GetScreenLayout(childSf, rank);
            if child.Some? {
              children := children + [child.value];
            }
          }
        }
      }
    }
  }
}
