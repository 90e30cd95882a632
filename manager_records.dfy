/**
 * The record types of include/RecloserManager.hpp: what the catalog store hands back to its
 * callers. They carry no behaviour.
 */
module ManagerRecords {
  /** One row of the Translations table. */
  datatype TranslationRecord = TranslationRecord(descriptionKey: string, languageCode: string, value: string)

  /** A service as the store reports it; `parentId` is 0 for a root service. */
  datatype ServiceRecord = ServiceRecord(id: int, descriptionKey: string, parentId: int)

  /** A feature belongs to a service-firmware link, not to a bare service. */
  datatype FeatureRecord = FeatureRecord(id: int, descriptionKey: string, serviceFirmwareId: int)

  datatype ComponentLimitRecord = ComponentLimitRecord(key: string, value: string)

  /** One feature of a screen layout with its component binding; an unbound feature has type "" and no limits. */
  datatype FeatureComponentRecord = FeatureComponentRecord(
    featureId: int,
    featureKey: string,
    translations: seq<TranslationRecord>,
    componentType: string,
    limits: seq<ComponentLimitRecord>)

  /** The screen layout of one service-firmware link, nesting the layouts of its child services. */
  datatype ServiceLayoutRecord = ServiceLayoutRecord(
    serviceId: int,
    descriptionKey: string,
    translations: seq<TranslationRecord>,
    features: seq<FeatureComponentRecord>,
    children: seq<ServiceLayoutRecord>)
}
