/**
 * The layout record `populateServiceLayout` of src/RecloserServiceImpl.cpp reads, as that code
 * reads it: a service id and service key, the service's translations, features each with an
 * id, key, translations, component type, component key and limits, and nested child records.
 * (The record declared in include/RecloserManager.hpp has a description key where the service
 * code reads a service key, and no component key.)
 */
module ServiceLayouts {
  import opened ManagerRecords
  import opened Messages

  datatype LayoutFeatureRecord = LayoutFeatureRecord(
    featureId: int,
    featureKey: string,
    translations: seq<TranslationRecord>,
    componentType: string,
    componentKey: string,
    limits: seq<ComponentLimitRecord>)

  datatype LayoutRecord = LayoutRecord(
    serviceId: int,
    serviceKey: string,
    translations: seq<TranslationRecord>,
    features: seq<LayoutFeatureRecord>,
    children: seq<LayoutRecord>)

  function LimitsOf(ls: seq<ComponentLimitRecord>): seq<LayoutLimit>
  {
    seq(|ls|, i requires 0 <= i < |ls| => LayoutLimit(ls[i].key, ls[i].value))
  }

  function DetailOf(f: LayoutFeatureRecord): FeatureLayoutDetail
  {
    FeatureLayoutDetail(f.featureId, f.featureKey, TranslationsOf(f.translations), f.componentType, f.componentKey,
      LimitsOf(f.limits))
  }

  /** The `ServiceLayout` message `populateServiceLayout` fills from a record, children included. */
  function LayoutOf(rec: LayoutRecord): ServiceLayout
    decreases rec
  {
    ServiceLayout(rec.serviceId, rec.serviceKey, TranslationsOf(rec.translations),
      seq(|rec.features|, i requires 0 <= i < |rec.features| => DetailOf(rec.features[i])),
      seq(|rec.children|, i requires 0 <= i < |rec.children| => LayoutOf(rec.children[i])))
  }

  // ---------------------------------------------------------------------------------------
  // The inverse: the copy drops only the description key of each translation row.

  function TranslationRecordsOf(ts: seq<Translation>): seq<TranslationRecord>
  {
    seq(|ts|, i requires 0 <= i < |ts| => TranslationRecord("", ts[i].languageCode, ts[i].value))
  }

  function LimitRecordsOf(ls: seq<LayoutLimit>): seq<ComponentLimitRecord>
  {
    seq(|ls|, i requires 0 <= i < |ls| => ComponentLimitRecord(ls[i].key, ls[i].value))
  }

  function FeatureRecordOf(d: FeatureLayoutDetail): LayoutFeatureRecord
  {
    LayoutFeatureRecord(d.featureId, d.featureKey, TranslationRecordsOf(d.translations), d.componentType, d.componentKey,
      LimitRecordsOf(d.limits))
  }

  /** The record a layout message was copied from, with every translation's description key left empty. */
  function RecordOf(l: ServiceLayout): LayoutRecord
    decreases l
  {
    LayoutRecord(l.serviceId, l.serviceKey, TranslationRecordsOf(l.translations),
      seq(|l.features|, i requires 0 <= i < |l.features| => FeatureRecordOf(l.features[i])),
      seq(|l.children|, i requires 0 <= i < |l.children| => RecordOf(l.children[i])))
  }

  function Unkeyed(ts: seq<TranslationRecord>): seq<TranslationRecord>
  {
    seq(|ts|, i requires 0 <= i < |ts| => ts[i].(descriptionKey := ""))
  }

  function UnkeyedFeature(f: LayoutFeatureRecord): LayoutFeatureRecord
  {
    f.(translations := Unkeyed(f.translations))
  }

  /** A record with the description key of every translation row, at every level, left empty. */
  function UnkeyedLayout(rec: LayoutRecord): LayoutRecord
    decreases rec
  {
    LayoutRecord(rec.serviceId, rec.serviceKey, Unkeyed(rec.translations),
      seq(|rec.features|, i requires 0 <= i < |rec.features| => UnkeyedFeature(rec.features[i])),
      seq(|rec.children|, i requires 0 <= i < |rec.children| => UnkeyedLayout(rec.children[i])))
  }

  lemma TranslationRoundTrip(ts: seq<Translation>)
    ensures TranslationsOf(TranslationRecordsOf(ts)) == ts
  {
  }

  lemma RecordsRoundTrip(rs: seq<TranslationRecord>)
    ensures TranslationRecordsOf(TranslationsOf(rs)) == Unkeyed(rs)
  {
  }

  /**
   * Copying a record into a message keeps every field of the record, at every level, except
   * the description keys of the translation rows.
   */
  lemma {:induction false} LayoutRoundTrip(rec: LayoutRecord)
    ensures RecordOf(LayoutOf(rec)) == UnkeyedLayout(rec)
    decreases rec
  {
    var l := LayoutOf(rec);
    RecordsRoundTrip(rec.translations);
    forall i | 0 <= i < |rec.features|
      ensures FeatureRecordOf(l.features[i]) == UnkeyedFeature(rec.features[i])
    {
      RecordsRoundTrip(rec.features[i].translations);
    }
    forall i | 0 <= i < |rec.children|
      ensures RecordOf(l.children[i]) == UnkeyedLayout(rec.children[i])
    {
      LayoutRoundTrip(rec.children[i]);
    }
  }

  /** Every layout message is the copy of some record: the copy loses nothing of the message. */
  lemma {:induction false} MessageRoundTrip(l: ServiceLayout)
    ensures LayoutOf(RecordOf(l)) == l
    decreases l
  {
    var rec := RecordOf(l);
    TranslationRoundTrip(l.translations);
    forall i | 0 <= i < |l.features|
      ensures DetailOf(rec.features[i]) == l.features[i]
    {
      TranslationRoundTrip(l.features[i].translations);
    }
    forall i | 0 <= i < |l.children|
      ensures LayoutOf(rec.children[i]) == l.children[i]
    {
      MessageRoundTrip(l.children[i]);
    }
  }
}
