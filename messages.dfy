/**
 * The protobuf messages src/RecloserServiceImpl.cpp fills in, as values. Appending to a repeated
 * field of an output message becomes building a longer sequence.
 */
module Messages {
  import opened ManagerRecords

  datatype Translation = Translation(languageCode: string, value: string)

  datatype Feature = Feature(id: int, featureKey: string, translations: seq<Translation>)

  datatype ServiceNode = ServiceNode(
    id: int,
    serviceKey: string,
    translations: seq<Translation>,
    features: seq<Feature>,
    children: seq<ServiceNode>)

  datatype LayoutLimit = LayoutLimit(key: string, value: string)

  datatype FeatureLayoutDetail = FeatureLayoutDetail(
    featureId: int,
    featureKey: string,
    translations: seq<Translation>,
    componentType: string,
    componentKey: string,
    limits: seq<LayoutLimit>)

  datatype ServiceLayout = ServiceLayout(
    serviceId: int,
    serviceKey: string,
    translations: seq<Translation>,
    features: seq<FeatureLayoutDetail>,
    children: seq<ServiceLayout>)

  /** The repeated translation-copy loop: each record becomes a message with its language and value, in order. */
  function TranslationsOf(rs: seq<TranslationRecord>): (r: seq<Translation>)
    ensures |r| == |rs|
    ensures forall i :: 0 <= i < |rs| ==> r[i] == Translation(rs[i].languageCode, rs[i].value)
  {
    if |rs| == 0 then []
    else TranslationsOf(rs[..|rs| - 1]) + [Translation(rs[|rs| - 1].languageCode, rs[|rs| - 1].value)]
  }

  /** The loop that fills a `translations` field, proved against `TranslationsOf`. */
  method CopyTranslations(rs: seq<TranslationRecord>) returns (ts: seq<Translation>)
    ensures ts == TranslationsOf(rs)
  {
    ts := [];
    for i := 0 to |rs|
      invariant ts == TranslationsOf(rs[..i])
    {
      assert rs[..i + 1][..i] == rs[..i];
      ts := ts + [Translation(rs[i].languageCode, rs[i].value)];
    }
    assert rs[..|rs|] == rs;
  }
}
