/**
 * The catalog database of src/RecloserManager.cpp as in-memory rows. Every table is a sequence
 * in table (insertion) order, which is the order a query without ORDER BY yields its rows in
 * this model. A WHERE clause is a filter over the sequence, a JOIN a nested filter. The table
 * constraints of include/DatabaseSchema.hpp (primary keys, UNIQUE, foreign keys, which
 * `initialize` switches on) become the validity predicates at the end of this module.
 */
module CatalogTables {
  import opened Wrappers
  import opened ManagerRecords

  datatype Language = Language(code: string, name: string)

  /** A Services row; `parent` is None where the column is NULL (a root service). */
  datatype ServiceRow = ServiceRow(id: int, descriptionKey: string, parent: Option<int>)

  /** A ServiceFirmware row: links a service to a firmware version. */
  datatype LinkRow = LinkRow(id: int, serviceId: int, firmwareId: int)

  /** A FeatureComponent row: binds a feature to a component type. */
  datatype BindingRow = BindingRow(id: int, featureId: int, componentId: int)

  /** A FeatureComponentLimits row: one limit value of a binding. */
  datatype LimitRow = LimitRow(id: int, featureComponentId: int, limitId: int, value: string)

  /** The tables `getScreenLayout` reads. */
  datatype Tables = Tables(
    components: seq<string>,
    limitKeys: seq<string>,
    translations: seq<TranslationRecord>,
    services: seq<ServiceRow>,
    links: seq<LinkRow>,
    features: seq<FeatureRecord>,
    bindings: seq<BindingRow>,
    limits: seq<LimitRow>)

  /**
   * The Component table as the schema seeds it into an empty table: the component with id
   * `i + 1` has type `ComponentTypes[i]`. In the tables below a Component (or Limits) table is
   * the sequence of its type (key) column, in id order.
   */
  const ComponentTypes: seq<string> :=
    ["ComboBox", "TextField", "Decimal", "Integer", "Date", "Time", "DateTime", "Spinner",
     "CheckBox", "Toggle", "Button"]

  /** The Limits table as seeded: the limit with id `i + 1` has key `LimitKeys[i]`. */
  const LimitKeys: seq<string> :=
    ["MIN_VALUE", "MAX_VALUE", "DEFAULT_VALUE", "STEP", "MAX_CHAR", "MIN_CHAR"]

  /** The first position of `x` in `xs`. */
  function IndexOf(xs: seq<string>, x: string): (r: Option<nat>)
    ensures r.None? <==> x !in xs
    ensures r.Some? ==> r.value < |xs| && xs[r.value] == x && x !in xs[..r.value]
  {
    if |xs| == 0 then None
    else if xs[0] == x then Some(0)
    else
      var r := IndexOf(xs[1..], x);
      assert xs == [xs[0]] + xs[1..];
      if r.None? then None else Some(r.value + 1)
  }

  /** `SELECT id FROM Component WHERE type = ?`. */
  function ComponentId(components: seq<string>, componentType: string): Option<int>
  {
    match IndexOf(components, componentType)
    case None => None
    case Some(i) => Some(i + 1)
  }

  /** `LEFT JOIN Component c ON fc.component_id = c.id`: the type, or None for NULL. */
  function ComponentTypeOf(components: seq<string>, componentId: int): Option<string>
  {
    if 1 <= componentId <= |components| then Some(components[componentId - 1]) else None
  }

  /** `SELECT id FROM Limits WHERE key = ?`. */
  function LimitId(limitKeys: seq<string>, limitKey: string): Option<int>
  {
    match IndexOf(limitKeys, limitKey)
    case None => None
    case Some(i) => Some(i + 1)
  }

  /** `JOIN Limits l ON fcl.limit_id = l.id`: the key, or None when no row joins. */
  function LimitKeyOf(limitKeys: seq<string>, limitId: int): Option<string>
  {
    if 1 <= limitId <= |limitKeys| then Some(limitKeys[limitId - 1]) else None
  }

  /** Looking a component type up by the id its name was stored under gives the name back. */
  lemma ComponentRoundTrip(components: seq<string>, componentType: string)
    ensures ComponentId(components, componentType).Some? <==> componentType in components
    ensures ComponentId(components, componentType).Some? ==>
      ComponentTypeOf(components, ComponentId(components, componentType).value) == Some(componentType)
  {
  }

  /** Likewise for limit keys. */
  lemma LimitRoundTrip(limitKeys: seq<string>, limitKey: string)
    ensures LimitId(limitKeys, limitKey).Some? <==> limitKey in limitKeys
    ensures LimitId(limitKeys, limitKey).Some? ==> LimitKeyOf(limitKeys, LimitId(limitKeys, limitKey).value) == Some(limitKey)
  {
  }

  // ---------------------------------------------------------------------------------------
  // Translations

  predicate Matches(t: TranslationRecord, key: string, lang: string)
  {
    t.descriptionKey == key && t.languageCode == lang
  }

  function HasLanguage(langs: seq<Language>, code: string): bool
  {
    exists i :: 0 <= i < |langs| && langs[i].code == code
  }

  /** `SELECT value FROM Translations WHERE description_key = ? AND language_code = ?`: the first row's value. */
  function Lookup(ts: seq<TranslationRecord>, key: string, lang: string): (r: Option<string>)
    ensures r.None? <==> forall i :: 0 <= i < |ts| ==> !Matches(ts[i], key, lang)
    ensures r.Some? ==> TranslationRecord(key, lang, r.value) in ts
  {
    if |ts| == 0 then None
    else if Matches(ts[0], key, lang) then Some(ts[0].value)
    else
      var r := Lookup(ts[1..], key, lang);
      assert forall i :: 1 <= i < |ts| ==> ts[i] == ts[1..][i - 1];
      r
  }

  /** UNIQUE(description_key, language_code): no two rows share a pair. */
  predicate UniquePairs(ts: seq<TranslationRecord>)
  {
    forall i, j :: 0 <= i < j < |ts| ==> !Matches(ts[j], ts[i].descriptionKey, ts[i].languageCode)
  }

  /** With unique pairs, the lookup of a stored row's pair finds that row's value. */
  lemma {:induction false} LookupUnique(ts: seq<TranslationRecord>, t: TranslationRecord)
    requires UniquePairs(ts) && t in ts
    ensures Lookup(ts, t.descriptionKey, t.languageCode) == Some(t.value)
  {
    if ts[0] != t {
      assert t in ts[1..];
      LookupUnique(ts[1..], t);
    }
  }

  /** The rows INSERT OR REPLACE keeps when it deletes those conflicting on (key, lang). */
  function Without(ts: seq<TranslationRecord>, key: string, lang: string): (r: seq<TranslationRecord>)
    ensures |r| <= |ts|
  {
    if |ts| == 0 then []
    else (if Matches(ts[0], key, lang) then [] else [ts[0]]) + Without(ts[1..], key, lang)
  }

  lemma {:induction false} WithoutMembers(ts: seq<TranslationRecord>, key: string, lang: string)
    ensures forall t :: t in Without(ts, key, lang) <==> t in ts && !Matches(t, key, lang)
  {
    if |ts| > 0 {
      WithoutMembers(ts[1..], key, lang);
      assert ts == [ts[0]] + ts[1..];
    }
  }

  /** Unique pairs stay unique when rows are deleted. */
  lemma {:induction false} WithoutUnique(ts: seq<TranslationRecord>, key: string, lang: string)
    requires UniquePairs(ts)
    ensures UniquePairs(Without(ts, key, lang))
  {
    if |ts| > 0 {
      var rest := Without(ts[1..], key, lang);
      assert UniquePairs(ts[1..]) by {
        forall i, j | 0 <= i < j < |ts[1..]|
          ensures !Matches(ts[1..][j], ts[1..][i].descriptionKey, ts[1..][i].languageCode)
        {
          assert ts[1..][j] == ts[j + 1] && ts[1..][i] == ts[i + 1];
        }
      }
      WithoutUnique(ts[1..], key, lang);
      WithoutMembers(ts[1..], key, lang);
      if !Matches(ts[0], key, lang) {
        var r := [ts[0]] + rest;
        forall i, j | 0 <= i < j < |r|
          ensures !Matches(r[j], r[i].descriptionKey, r[i].languageCode)
        {
          if i == 0 {
            assert r[j] in rest;
            assert r[j] in ts[1..];
            var k :| 0 <= k < |ts[1..]| && ts[1..][k] == r[j];
            assert ts[k + 1] == r[j];
          } else {
            assert r[i] == rest[i - 1] && r[j] == rest[j - 1];
          }
        }
      }
    }
  }

  /** `INSERT OR REPLACE` of a translation row: the conflicting row goes, the new row is appended. */
  function Upsert(ts: seq<TranslationRecord>, t: TranslationRecord): seq<TranslationRecord>
  {
    Without(ts, t.descriptionKey, t.languageCode) + [t]
  }

  /** After an upsert there is still at most one row per (key, lang) pair. */
  lemma UpsertUnique(ts: seq<TranslationRecord>, t: TranslationRecord)
    requires UniquePairs(ts)
    ensures UniquePairs(Upsert(ts, t))
  {
    var w := Without(ts, t.descriptionKey, t.languageCode);
    WithoutUnique(ts, t.descriptionKey, t.languageCode);
    WithoutMembers(ts, t.descriptionKey, t.languageCode);
    var r := w + [t];
    forall i, j | 0 <= i < j < |r|
      ensures !Matches(r[j], r[i].descriptionKey, r[i].languageCode)
    {
      if j == |w| {
        assert r[i] == w[i];
        assert r[i] in w;
      } else {
        assert r[i] == w[i] && r[j] == w[j];
      }
    }
  }

  lemma {:induction false} LookupWithout(ts: seq<TranslationRecord>, key: string, lang: string, k: string, l: string)
    ensures Lookup(Without(ts, key, lang), k, l) == if key == k && lang == l then None else Lookup(ts, k, l)
  {
    if |ts| > 0 {
      LookupWithout(ts[1..], key, lang, k, l);
      var rest := Without(ts[1..], key, lang);
      if Matches(ts[0], key, lang) {
        assert Without(ts, key, lang) == rest;
      } else {
        var w := [ts[0]] + rest;
        assert Without(ts, key, lang) == w;
        assert w[1..] == rest;
      }
    }
  }

  lemma {:induction false} LookupAppend(ts: seq<TranslationRecord>, t: TranslationRecord, k: string, l: string)
    ensures Lookup(ts + [t], k, l) ==
      if Lookup(ts, k, l).Some? then Lookup(ts, k, l)
      else if Matches(t, k, l) then Some(t.value) else None
  {
    if |ts| > 0 {
      assert (ts + [t])[1..] == ts[1..] + [t];
      LookupAppend(ts[1..], t, k, l);
    }
  }

  /**
   * `addTranslation` replaces the value of its own pair and leaves every other pair's value
   * as it was.
   */
  lemma UpsertLookup(ts: seq<TranslationRecord>, t: TranslationRecord, k: string, l: string)
    ensures Lookup(Upsert(ts, t), k, l) ==
      if Matches(t, k, l) then Some(t.value) else Lookup(ts, k, l)
  {
    LookupWithout(ts, t.descriptionKey, t.languageCode, k, l);
    LookupAppend(Without(ts, t.descriptionKey, t.languageCode), t, k, l);
  }

  /** `getTranslationsForKey`: the rows of the key, in table order. */
  function ForKey(ts: seq<TranslationRecord>, key: string): (r: seq<TranslationRecord>)
    ensures |r| <= |ts|
  {
    if |ts| == 0 then []
    else ForKey(ts[..|ts| - 1], key) + (if ts[|ts| - 1].descriptionKey == key then [ts[|ts| - 1]] else [])
  }

  /** A row is listed for a key exactly when it is stored under that key. */
  lemma {:induction false} ForKeyMembers(ts: seq<TranslationRecord>, key: string)
    ensures forall t :: t in ForKey(ts, key) <==> t in ts && t.descriptionKey == key
  {
    if |ts| > 0 {
      ForKeyMembers(ts[..|ts| - 1], key);
      assert ts == ts[..|ts| - 1] + [ts[|ts| - 1]];
    }
  }

  /**
   * The translations after `addKeyWithTranslations` attempted every pair for `key` in turn:
   * each pair whose language is registered is upserted, the others change nothing.
   */
  function UpsertAll(ts: seq<TranslationRecord>, key: string, pairs: seq<(string, string)>, langs: seq<Language>): seq<TranslationRecord>
  {
    if |pairs| == 0 then ts
    else
      var prev := UpsertAll(ts, key, pairs[..|pairs| - 1], langs);
      var p := pairs[|pairs| - 1];
      if HasLanguage(langs, p.0) then Upsert(prev, TranslationRecord(key, p.0, p.1)) else prev
  }

  /** Some pair names the language `lang`. */
  predicate Names(pairs: seq<(string, string)>, lang: string)
  {
    exists i :: 0 <= i < |pairs| && pairs[i].0 == lang
  }

  lemma NamesSnoc(pairs: seq<(string, string)>, lang: string)
    requires |pairs| > 0
    ensures Names(pairs, lang) <==> Names(pairs[..|pairs| - 1], lang) || pairs[|pairs| - 1].0 == lang
  {
    var init := pairs[..|pairs| - 1];
    if Names(pairs, lang) && pairs[|pairs| - 1].0 != lang {
      var i :| 0 <= i < |pairs| && pairs[i].0 == lang;
      assert init[i] == pairs[i];
    }
    if Names(init, lang) {
      var i :| 0 <= i < |init| && init[i].0 == lang;
      assert pairs[i] == init[i];
    }
  }

  /**
   * No pair stops the others: after `addKeyWithTranslations`, each registered language named
   * by the pairs has the value of the last pair naming it, and every other pair of stored
   * rows keeps its old value.
   */
  lemma {:induction false} UpsertAllLookup(ts: seq<TranslationRecord>, key: string, pairs: seq<(string, string)>,
                                            langs: seq<Language>, k: string, l: string)
    ensures Lookup(UpsertAll(ts, key, pairs, langs), k, l) ==
      if k == key && HasLanguage(langs, l) && Names(pairs, l)
      then Some(LastValue(pairs, l))
      else Lookup(ts, k, l)
  {
    if |pairs| > 0 {
      var init := pairs[..|pairs| - 1];
      var p := pairs[|pairs| - 1];
      UpsertAllLookup(ts, key, init, langs, k, l);
      NamesSnoc(pairs, l);
      if HasLanguage(langs, p.0) {
        UpsertLookup(UpsertAll(ts, key, init, langs), TranslationRecord(key, p.0, p.1), k, l);
      }
    }
  }

  /** The value of the last pair naming `lang` (the empty string when there is none). */
  function LastValue(pairs: seq<(string, string)>, lang: string): string
  {
    if |pairs| == 0 then ""
    else if pairs[|pairs| - 1].0 == lang then pairs[|pairs| - 1].1
    else LastValue(pairs[..|pairs| - 1], lang)
  }

  /** `addKeyWithTranslations` keeps at most one row per pair. */
  lemma {:induction false} UpsertAllUnique(ts: seq<TranslationRecord>, key: string, pairs: seq<(string, string)>, langs: seq<Language>)
    requires UniquePairs(ts)
    ensures UniquePairs(UpsertAll(ts, key, pairs, langs))
  {
    if |pairs| > 0 {
      UpsertAllUnique(ts, key, pairs[..|pairs| - 1], langs);
      var p := pairs[|pairs| - 1];
      if HasLanguage(langs, p.0) {
        UpsertUnique(UpsertAll(ts, key, pairs[..|pairs| - 1], langs), TranslationRecord(key, p.0, p.1));
      }
    }
  }

  // ---------------------------------------------------------------------------------------
  // Services and their firmware links

  /** How `addService` and `updateService` bind `parentId`: a positive id, or NULL. */
  function ParentOf(parentId: int): Option<int>
  {
    if parentId > 0 then Some(parentId) else None
  }

  function HasService(ss: seq<ServiceRow>, id: int): bool
  {
    exists i :: 0 <= i < |ss| && ss[i].id == id
  }

  /** Some service already uses `key` (Services.description_key is UNIQUE). */
  function KeyTaken(ss: seq<ServiceRow>, key: string): bool
  {
    exists i :: 0 <= i < |ss| && ss[i].descriptionKey == key
  }

  /** The first row with `id`. */
  function ServiceById(ss: seq<ServiceRow>, id: int): (r: Option<ServiceRow>)
    ensures r.None? <==> !HasService(ss, id)
    ensures r.Some? ==> r.value in ss && r.value.id == id
  {
    if |ss| == 0 then None
    else if ss[0].id == id then Some(ss[0])
    else
      assert forall i :: 1 <= i < |ss| ==> ss[i] == ss[1..][i - 1];
      ServiceById(ss[1..], id)
  }

  /** The position of the first row with `id`: the row `UPDATE Services ... WHERE id = ?` changes. */
  function ServiceIndex(ss: seq<ServiceRow>, id: int): (r: Option<nat>)
    ensures r.None? <==> !HasService(ss, id)
    ensures r.Some? ==> r.value < |ss| && ss[r.value].id == id
  {
    if |ss| == 0 then None
    else if ss[0].id == id then Some(0)
    else
      var r := ServiceIndex(ss[1..], id);
      assert forall i :: 1 <= i < |ss| ==> ss[i] == ss[1..][i - 1];
      if r.None? then None else Some(r.value + 1)
  }

  /** Appending a row keeps every service that was there. */
  lemma HasServiceAppend(ss: seq<ServiceRow>, row: ServiceRow)
    ensures forall id :: HasService(ss, id) ==> HasService(ss + [row], id)
  {
    forall id | HasService(ss, id)
      ensures HasService(ss + [row], id)
    {
      var i :| 0 <= i < |ss| && ss[i].id == id;
      assert (ss + [row])[i] == ss[i];
    }
  }

  /** Changing a row but not its id keeps the set of service ids. */
  lemma HasServiceUpdate(ss: seq<ServiceRow>, i: nat, row: ServiceRow)
    requires i < |ss| && row.id == ss[i].id
    ensures forall id :: HasService(ss, id) <==> HasService(ss[i := row], id)
  {
    forall id
      ensures HasService(ss, id) <==> HasService(ss[i := row], id)
    {
      if HasService(ss, id) {
        var k :| 0 <= k < |ss| && ss[k].id == id;
        assert ss[i := row][k].id == id;
      }
      if HasService(ss[i := row], id) {
        var k :| 0 <= k < |ss| && ss[i := row][k].id == id;
        assert ss[k].id == id;
      }
    }
  }

  /** A row as a `ServiceRecord`: a NULL parent is read back as 0. */
  function RecordOf(s: ServiceRow): ServiceRecord
  {
    ServiceRecord(s.id, s.descriptionKey, if s.parent.Some? then s.parent.value else 0)
  }

  /** The WHERE clause on the parent: `parent_id = ?` for a positive id, `parent_id IS NULL` otherwise. */
  predicate ParentMatches(s: ServiceRow, parentId: int)
  {
    s.parent == ParentOf(parentId)
  }

  function Linked(links: seq<LinkRow>, serviceId: int, firmwareId: int): bool
  {
    exists i :: 0 <= i < |links| && links[i].serviceId == serviceId && links[i].firmwareId == firmwareId
  }

  function HasLinkId(links: seq<LinkRow>, id: int): bool
  {
    exists i :: 0 <= i < |links| && links[i].id == id
  }

  /** `SELECT id FROM ServiceFirmware WHERE service_id = ? AND firmware_id = ?`: the first row. */
  function FirstLink(links: seq<LinkRow>, serviceId: int, firmwareId: int): (r: Option<LinkRow>)
    ensures r.None? <==> !Linked(links, serviceId, firmwareId)
    ensures r.Some? ==> r.value in links && r.value.serviceId == serviceId && r.value.firmwareId == firmwareId
  {
    if |links| == 0 then None
    else if links[0].serviceId == serviceId && links[0].firmwareId == firmwareId then Some(links[0])
    else
      assert forall i :: 1 <= i < |links| ==> links[i] == links[1..][i - 1];
      FirstLink(links[1..], serviceId, firmwareId)
  }

  /** `getServiceFirmwareId`: the link id, or 0 when there is no link. */
  function LinkId(links: seq<LinkRow>, serviceId: int, firmwareId: int): int
  {
    match FirstLink(links, serviceId, firmwareId)
    case None => 0
    case Some(l) => l.id
  }

  /** `WHERE sf.id = ?` on ServiceFirmware: the first row with `id`. */
  function LinkById(links: seq<LinkRow>, id: int): (r: Option<LinkRow>)
    ensures r.None? <==> !HasLinkId(links, id)
    ensures r.Some? ==> r.value in links && r.value.id == id
  {
    if |links| == 0 then None
    else if links[0].id == id then Some(links[0])
    else
      assert forall i :: 1 <= i < |links| ==> links[i] == links[1..][i - 1];
      LinkById(links[1..], id)
  }

  /** The records the join yields for service `s`: one per link of `s` to `firmwareId`. */
  function LinkedRecords(s: ServiceRow, links: seq<LinkRow>, firmwareId: int): seq<ServiceRecord>
  {
    if |links| == 0 then []
    else
      var l := links[|links| - 1];
      LinkedRecords(s, links[..|links| - 1], firmwareId)
        + (if l.serviceId == s.id && l.firmwareId == firmwareId then [RecordOf(s)] else [])
  }

  /**
   * `getServicesByParentAndFirmware`: Services joined with ServiceFirmware on the service id,
   * filtered by the parent and the firmware, services in table order.
   */
  function ServicesBy(ss: seq<ServiceRow>, links: seq<LinkRow>, parentId: int, firmwareId: int): seq<ServiceRecord>
  {
    if |ss| == 0 then []
    else
      var s := ss[|ss| - 1];
      ServicesBy(ss[..|ss| - 1], links, parentId, firmwareId)
        + (if ParentMatches(s, parentId) then LinkedRecords(s, links, firmwareId) else [])
  }

  lemma {:induction false} LinkedRecordsMembers(s: ServiceRow, links: seq<LinkRow>, firmwareId: int)
    ensures forall r :: r in LinkedRecords(s, links, firmwareId) <==> Linked(links, s.id, firmwareId) && r == RecordOf(s)
  {
    if |links| > 0 {
      var init := links[..|links| - 1];
      LinkedRecordsMembers(s, init, firmwareId);
      if Linked(init, s.id, firmwareId) {
        var i :| 0 <= i < |init| && init[i].serviceId == s.id && init[i].firmwareId == firmwareId;
        assert links[i] == init[i];
      }
      if Linked(links, s.id, firmwareId) {
        var i :| 0 <= i < |links| && links[i].serviceId == s.id && links[i].firmwareId == firmwareId;
        if i < |init| {
          assert init[i] == links[i];
        }
      }
    }
  }

  /**
   * `getServicesByParentAndFirmware` lists exactly the services that match the parent (a root
   * for `parentId <= 0`, a child of `parentId` otherwise) and are linked to the firmware.
   * Each record's parent id is `parentId` for a positive `parentId`, and 0 otherwise.
   */
  lemma {:induction false} ServicesByMembers(ss: seq<ServiceRow>, links: seq<LinkRow>, parentId: int, firmwareId: int)
    ensures forall r :: r in ServicesBy(ss, links, parentId, firmwareId) <==>
      exists i :: 0 <= i < |ss| && ParentMatches(ss[i], parentId) && Linked(links, ss[i].id, firmwareId) && r == RecordOf(ss[i])
    ensures forall r :: r in ServicesBy(ss, links, parentId, firmwareId) ==>
      r.parentId == if parentId > 0 then parentId else 0
  {
    if |ss| > 0 {
      var init := ss[..|ss| - 1];
      var s := ss[|ss| - 1];
      ServicesByMembers(init, links, parentId, firmwareId);
      LinkedRecordsMembers(s, links, firmwareId);
      forall r
        ensures r in ServicesBy(ss, links, parentId, firmwareId) <==>
          exists i :: 0 <= i < |ss| && ParentMatches(ss[i], parentId) && Linked(links, ss[i].id, firmwareId) && r == RecordOf(ss[i])
      {
        if exists i :: 0 <= i < |ss| && ParentMatches(ss[i], parentId) && Linked(links, ss[i].id, firmwareId) && r == RecordOf(ss[i]) {
          var i :| 0 <= i < |ss| && ParentMatches(ss[i], parentId) && Linked(links, ss[i].id, firmwareId) && r == RecordOf(ss[i]);
          if i < |init| {
            assert init[i] == ss[i];
          }
        }
        if exists i :: 0 <= i < |init| && ParentMatches(init[i], parentId) && Linked(links, init[i].id, firmwareId) && r == RecordOf(init[i]) {
          var i :| 0 <= i < |init| && ParentMatches(init[i], parentId) && Linked(links, init[i].id, firmwareId) && r == RecordOf(init[i]);
          assert ss[i] == init[i];
        }
      }
    }
  }

  // ---------------------------------------------------------------------------------------
  // Features, component bindings and limits

  function HasFeature(fs: seq<FeatureRecord>, id: int): bool
  {
    exists i :: 0 <= i < |fs| && fs[i].id == id
  }

  function HasBinding(bs: seq<BindingRow>, id: int): bool
  {
    exists i :: 0 <= i < |bs| && bs[i].id == id
  }

  // ---------------------------------------------------------------------------------------
  // The table constraints

  predicate LanguagesValid(langs: seq<Language>)
  {
    forall i, j :: 0 <= i < j < |langs| ==> langs[i].code != langs[j].code
  }

  predicate DescriptionsValid(ds: seq<string>)
  {
    forall i, j :: 0 <= i < j < |ds| ==> ds[i] != ds[j]
  }

  predicate TranslationsValid(ts: seq<TranslationRecord>, ds: seq<string>, langs: seq<Language>)
  {
    UniquePairs(ts)
    && (forall i :: 0 <= i < |ts| ==> ts[i].descriptionKey in ds && HasLanguage(langs, ts[i].languageCode))
  }

  /**
   * AUTOINCREMENT ids: ascending in table order, positive, and at most the last id handed out.
   * Descriptions are unique and registered; a parent is an existing service.
   */
  predicate ServicesValid(ss: seq<ServiceRow>, ds: seq<string>, last: nat)
  {
    (forall i, j :: 0 <= i < j < |ss| ==> ss[i].id < ss[j].id)
    && (forall i :: 0 <= i < |ss| ==> 1 <= ss[i].id <= last)
    && (forall i, j :: 0 <= i < j < |ss| ==> ss[i].descriptionKey != ss[j].descriptionKey)
    && (forall i :: 0 <= i < |ss| ==> ss[i].descriptionKey in ds)
    && (forall i :: 0 <= i < |ss| && ss[i].parent.Some? ==> HasService(ss, ss[i].parent.value))
  }

  /** UNIQUE(service_id, firmware_id), and the service is an existing one. */
  predicate LinksValid(links: seq<LinkRow>, ss: seq<ServiceRow>, last: nat)
  {
    (forall i, j :: 0 <= i < j < |links| ==> links[i].id < links[j].id)
    && (forall i :: 0 <= i < |links| ==> 1 <= links[i].id <= last)
    && (forall i, j :: 0 <= i < j < |links| ==>
          !(links[i].serviceId == links[j].serviceId && links[i].firmwareId == links[j].firmwareId))
    && (forall i :: 0 <= i < |links| ==> HasService(ss, links[i].serviceId))
  }

  predicate FeaturesValid(fs: seq<FeatureRecord>, ds: seq<string>, links: seq<LinkRow>, last: nat)
  {
    (forall i, j :: 0 <= i < j < |fs| ==> fs[i].id < fs[j].id)
    && (forall i :: 0 <= i < |fs| ==> 1 <= fs[i].id <= last)
    && (forall i :: 0 <= i < |fs| ==> fs[i].descriptionKey in ds && HasLinkId(links, fs[i].serviceFirmwareId))
  }

  predicate BindingsValid(bs: seq<BindingRow>, fs: seq<FeatureRecord>, components: seq<string>, last: nat)
  {
    (forall i, j :: 0 <= i < j < |bs| ==> bs[i].id < bs[j].id)
    && (forall i :: 0 <= i < |bs| ==> 1 <= bs[i].id <= last)
    && (forall i :: 0 <= i < |bs| ==> HasFeature(fs, bs[i].featureId) && ComponentTypeOf(components, bs[i].componentId).Some?)
  }

  predicate LimitsValid(ls: seq<LimitRow>, bs: seq<BindingRow>, limitKeys: seq<string>, last: nat)
  {
    (forall i, j :: 0 <= i < j < |ls| ==> ls[i].id < ls[j].id)
    && (forall i :: 0 <= i < |ls| ==> 1 <= ls[i].id <= last)
    && (forall i :: 0 <= i < |ls| ==> HasBinding(bs, ls[i].featureComponentId) && LimitKeyOf(limitKeys, ls[i].limitId).Some?)
  }

  // ---------------------------------------------------------------------------------------
  // What the constraints give the queries

  /**
   * A root service reads back with parent id 0, and only a root does: a stored parent is an
   * existing service, whose id is positive.
   */
  lemma RootRecord(ss: seq<ServiceRow>, ds: seq<string>, last: nat, s: ServiceRow)
    requires ServicesValid(ss, ds, last) && s in ss
    ensures RecordOf(s).parentId == 0 <==> s.parent.None?
  {
    if s.parent.Some? {
      var i :| 0 <= i < |ss| && ss[i] == s;
      var j :| 0 <= j < |ss| && ss[j].id == s.parent.value;
    }
  }

  /**
   * `getServiceFirmwareId` is positive exactly for a linked pair, and then it is the id of
   * the one link row of that pair.
   */
  lemma LinkIdOfPair(links: seq<LinkRow>, ss: seq<ServiceRow>, last: nat, l: LinkRow)
    requires LinksValid(links, ss, last) && l in links
    ensures LinkId(links, l.serviceId, l.firmwareId) == l.id
  {
    var f := FirstLink(links, l.serviceId, l.firmwareId).value;
    var i :| 0 <= i < |links| && links[i] == l;
    var j :| 0 <= j < |links| && links[j] == f;
    if i < j || j < i {
      assert false;
    }
  }

  lemma LinkIdPositive(links: seq<LinkRow>, ss: seq<ServiceRow>, last: nat, serviceId: int, firmwareId: int)
    requires LinksValid(links, ss, last)
    ensures LinkId(links, serviceId, firmwareId) > 0 <==> Linked(links, serviceId, firmwareId)
  {
    if Linked(links, serviceId, firmwareId) {
      var f := FirstLink(links, serviceId, firmwareId).value;
      var j :| 0 <= j < |links| && links[j] == f;
    }
  }

  /** With unique link ids, the link found by a pair's id is that pair's link. */
  lemma LinkByIdOfLinkId(links: seq<LinkRow>, serviceId: int, firmwareId: int)
    requires forall i, j :: 0 <= i < j < |links| ==> links[i].id != links[j].id
    requires Linked(links, serviceId, firmwareId)
    ensures LinkById(links, LinkId(links, serviceId, firmwareId)).Some?
    ensures LinkById(links, LinkId(links, serviceId, firmwareId)).value.serviceId == serviceId
  {
    var f := FirstLink(links, serviceId, firmwareId).value;
    var g := LinkById(links, f.id);
    assert HasLinkId(links, f.id) by {
      var j :| 0 <= j < |links| && links[j] == f;
    }
    var i :| 0 <= i < |links| && links[i] == f;
    var j :| 0 <= j < |links| && links[j] == g.value;
    if i < j || j < i {
      assert false;
    }
  }

  // ---------------------------------------------------------------------------------------
  // Each modelled statement keeps the constraints

  lemma AddLanguageValid(langs: seq<Language>, l: Language, ts: seq<TranslationRecord>, ds: seq<string>)
    requires LanguagesValid(langs) && !HasLanguage(langs, l.code) && TranslationsValid(ts, ds, langs)
    ensures LanguagesValid(langs + [l]) && TranslationsValid(ts, ds, langs + [l])
  {
    forall i | 0 <= i < |ts|
      ensures HasLanguage(langs + [l], ts[i].languageCode)
    {
      assert HasLanguage(langs, ts[i].languageCode);
      var k :| 0 <= k < |langs| && langs[k].code == ts[i].languageCode;
      assert (langs + [l])[k] == langs[k];
    }
  }

  lemma AddDescriptionValid(ds: seq<string>, key: string, langs: seq<Language>, ts: seq<TranslationRecord>,
                            ss: seq<ServiceRow>, lastService: nat, fs: seq<FeatureRecord>, links: seq<LinkRow>, lastFeature: nat)
    requires DescriptionsValid(ds) && key !in ds
    requires TranslationsValid(ts, ds, langs) && ServicesValid(ss, ds, lastService) && FeaturesValid(fs, ds, links, lastFeature)
    ensures DescriptionsValid(ds + [key])
    ensures TranslationsValid(ts, ds + [key], langs) && ServicesValid(ss, ds + [key], lastService)
    ensures FeaturesValid(fs, ds + [key], links, lastFeature)
  {
    assert forall x :: x in ds ==> x in ds + [key];
  }

  lemma AddTranslationValid(ts: seq<TranslationRecord>, t: TranslationRecord, ds: seq<string>, langs: seq<Language>)
    requires TranslationsValid(ts, ds, langs) && t.descriptionKey in ds && HasLanguage(langs, t.languageCode)
    ensures TranslationsValid(Upsert(ts, t), ds, langs)
  {
    UpsertUnique(ts, t);
    WithoutMembers(ts, t.descriptionKey, t.languageCode);
    var r := Upsert(ts, t);
    forall i | 0 <= i < |r|
      ensures r[i].descriptionKey in ds && HasLanguage(langs, r[i].languageCode)
    {
      if i < |r| - 1 {
        assert r[i] in Without(ts, t.descriptionKey, t.languageCode);
        var k :| 0 <= k < |ts| && ts[k] == r[i];
      }
    }
  }

  lemma AddServiceValid(ss: seq<ServiceRow>, row: ServiceRow, ds: seq<string>, last: nat, links: seq<LinkRow>, lastLink: nat)
    requires ServicesValid(ss, ds, last) && LinksValid(links, ss, lastLink)
    requires row.id == last + 1 && row.descriptionKey in ds && !KeyTaken(ss, row.descriptionKey)
    requires row.parent.Some? ==> HasService(ss, row.parent.value) || row.parent.value == row.id
    ensures ServicesValid(ss + [row], ds, row.id) && LinksValid(links, ss + [row], lastLink)
  {
    HasServiceAppend(ss, row);
    var r := ss + [row];
    assert r[|ss|] == row;
    forall i, j | 0 <= i < j < |r|
      ensures r[i].id < r[j].id && r[i].descriptionKey != r[j].descriptionKey
    {
      if j < |ss| {
        assert r[i] == ss[i] && r[j] == ss[j];
      } else {
        assert r[i] == ss[i];
      }
    }
    forall i | 0 <= i < |r| && r[i].parent.Some?
      ensures HasService(r, r[i].parent.value)
    {
      if i < |ss| {
        assert r[i] == ss[i];
      }
    }
  }

  lemma UpdateServiceValid(ss: seq<ServiceRow>, i: nat, row: ServiceRow, ds: seq<string>, last: nat, links: seq<LinkRow>, lastLink: nat)
    requires ServicesValid(ss, ds, last) && LinksValid(links, ss, lastLink)
    requires i < |ss| && row.id == ss[i].id && row.descriptionKey in ds
    requires forall j :: 0 <= j < |ss| && j != i ==> ss[j].descriptionKey != row.descriptionKey
    requires row.parent.Some? ==> HasService(ss, row.parent.value)
    ensures ServicesValid(ss[i := row], ds, last) && LinksValid(links, ss[i := row], lastLink)
  {
    HasServiceUpdate(ss, i, row);
    var r := ss[i := row];
    forall a, b | 0 <= a < b < |r|
      ensures r[a].id < r[b].id && r[a].descriptionKey != r[b].descriptionKey
    {
      assert r[a].id == ss[a].id && r[b].id == ss[b].id;
      if a == i {
        assert r[b] == ss[b];
      } else if b == i {
        assert r[a] == ss[a];
      } else {
        assert r[a] == ss[a] && r[b] == ss[b];
      }
    }
    forall a | 0 <= a < |r|
      ensures 1 <= r[a].id <= last && r[a].descriptionKey in ds
      ensures r[a].parent.Some? ==> HasService(r, r[a].parent.value)
    {
      if a != i {
        assert r[a] == ss[a];
      }
    }
    assert ServicesValid(r, ds, last);
    forall k | 0 <= k < |links|
      ensures HasService(r, links[k].serviceId)
    {
    }
  }

  lemma AddLinkValid(links: seq<LinkRow>, row: LinkRow, ss: seq<ServiceRow>, last: nat,
                     fs: seq<FeatureRecord>, ds: seq<string>, lastFeature: nat)
    requires LinksValid(links, ss, last) && FeaturesValid(fs, ds, links, lastFeature)
    requires row.id == last + 1 && HasService(ss, row.serviceId) && !Linked(links, row.serviceId, row.firmwareId)
    ensures LinksValid(links + [row], ss, row.id) && FeaturesValid(fs, ds, links + [row], lastFeature)
  {
    var r := links + [row];
    assert r[|links|] == row;
    forall i, j | 0 <= i < j < |r|
      ensures r[i].id < r[j].id && !(r[i].serviceId == r[j].serviceId && r[i].firmwareId == r[j].firmwareId)
    {
      assert r[i] == links[i];
      if j < |links| {
        assert r[j] == links[j];
      }
    }
    forall i | 0 <= i < |fs|
      ensures HasLinkId(r, fs[i].serviceFirmwareId)
    {
      var k :| 0 <= k < |links| && links[k].id == fs[i].serviceFirmwareId;
      assert r[k] == links[k];
    }
  }

  lemma AddFeatureValid(fs: seq<FeatureRecord>, row: FeatureRecord, ds: seq<string>, links: seq<LinkRow>, last: nat,
                        bs: seq<BindingRow>, components: seq<string>, lastBinding: nat)
    requires FeaturesValid(fs, ds, links, last) && BindingsValid(bs, fs, components, lastBinding)
    requires row.id == last + 1 && row.descriptionKey in ds && HasLinkId(links, row.serviceFirmwareId)
    ensures FeaturesValid(fs + [row], ds, links, row.id) && BindingsValid(bs, fs + [row], components, lastBinding)
  {
    var r := fs + [row];
    assert r[|fs|] == row;
    forall i, j | 0 <= i < j < |r|
      ensures r[i].id < r[j].id
    {
      assert r[i] == fs[i];
      if j < |fs| {
        assert r[j] == fs[j];
      }
    }
    forall i | 0 <= i < |bs|
      ensures HasFeature(r, bs[i].featureId)
    {
      var k :| 0 <= k < |fs| && fs[k].id == bs[i].featureId;
      assert r[k] == fs[k];
    }
  }

  lemma AddBindingValid(bs: seq<BindingRow>, row: BindingRow, fs: seq<FeatureRecord>, components: seq<string>, last: nat,
                        ls: seq<LimitRow>, limitKeys: seq<string>, lastLimit: nat)
    requires BindingsValid(bs, fs, components, last) && LimitsValid(ls, bs, limitKeys, lastLimit)
    requires row.id == last + 1 && HasFeature(fs, row.featureId) && ComponentTypeOf(components, row.componentId).Some?
    ensures BindingsValid(bs + [row], fs, components, row.id) && LimitsValid(ls, bs + [row], limitKeys, lastLimit)
  {
    var r := bs + [row];
    assert r[|bs|] == row;
    forall i, j | 0 <= i < j < |r|
      ensures r[i].id < r[j].id
    {
      assert r[i] == bs[i];
      if j < |bs| {
        assert r[j] == bs[j];
      }
    }
    forall i | 0 <= i < |ls|
      ensures HasBinding(r, ls[i].featureComponentId)
    {
      var k :| 0 <= k < |bs| && bs[k].id == ls[i].featureComponentId;
      assert r[k] == bs[k];
    }
  }

  lemma AddLimitValid(ls: seq<LimitRow>, row: LimitRow, bs: seq<BindingRow>, limitKeys: seq<string>, last: nat)
    requires LimitsValid(ls, bs, limitKeys, last)
    requires row.id == last + 1 && HasBinding(bs, row.featureComponentId) && LimitKeyOf(limitKeys, row.limitId).Some?
    ensures LimitsValid(ls + [row], bs, limitKeys, row.id)
  {
    var r := ls + [row];
    assert r[|ls|] == row;
    forall i, j | 0 <= i < j < |r|
      ensures r[i].id < r[j].id
    {
      assert r[i] == ls[i];
      if j < |ls| {
        assert r[j] == ls[j];
      }
    }
  }
}
