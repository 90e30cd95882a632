# Recloser catalog: service trees, tree comparison and the catalog manager

This project models the core of the Recloser 3P management back end: a catalog of the
services a recloser firmware offers, with their features, translations, component bindings
and limits. Two parts are modelled.

* **The service side** (`src/RecloserServiceImpl.cpp`):
  * `GetServiceTree` and `buildServiceNode` build the message tree of a firmware's services.
  * `buildInternalTree` builds the comparison snapshot of a firmware. It is a `std::map` from
    service key to node, each node holding a `std::set` of feature keys.
  * `compareNodes` and `CompareServiceTrees` compare two snapshots. They report the removed,
    modified and added services, the feature differences of each modified service, and a
    one-line summary.
  * `populateServiceLayout` copies a layout record into its message.

  These handlers read the catalog only through the manager's getters, so they are modelled
  against an abstract `Store`: the service lists per parent and firmware, the features per
  service, and the translation lookups.
* **The catalog manager** (`src/RecloserManager.cpp`) is modelled as the class
  `CatalogManager.RecloserManager`. Its fields are the SQLite tables
  (`include/DatabaseSchema.hpp`), held in memory. Its methods are the manager's operations:
  * the translation upsert and lookups, and `addKeyWithTranslations`;
  * adding a service and updating one, with the parent check;
  * linking a service to a firmware, and looking that link up;
  * the services under a parent in a firmware;
  * adding a feature, binding it to a component type, and giving that binding a limit;
  * the recursive `getScreenLayout`.

  The SQLite behaviour the code relies on is written out:
  * foreign keys are on (`src/RecloserManager.cpp:21`), so a row that breaks one is
    refused;
  * `INSERT OR IGNORE` leaves a present row alone;
  * `INSERT OR REPLACE` deletes the conflicting row and appends the new one;
  * `AUTOINCREMENT` ids come from per-table counters;
  * an `INSERT … SELECT` whose select finds no row inserts nothing and still succeeds;
  * an `UPDATE` that matches no row succeeds and changes nothing;
  * a NULL parent reads back as 0.

`std::string` ordering is the lexicographic order on characters, as `std::string::operator<`
compares bytes (module `StringOrder`). `std::map` becomes an association list sorted by
key, and `std::set<std::string>` becomes a strictly sorted sequence (module
`ServiceTreeNodes`). The recursions over the parent relation take a ghost `rank` that
decreases from parent to child (`Ranked`), and the model requires every service to have
one. The source does not need that much (see "Left out").

Where the declarations and the code disagree, the model follows the code:

* The service handlers call `getServicesByParentAndFirmware` and read a `service_key` from
  each service. The manager's `Services` table has only a `description_key`, and
  `ServiceRecord` (`include/RecloserManager.hpp:27-31`) has no service key. The `Store`
  therefore carries both keys per service.
* `populateServiceLayout` reads a `service_key` and a feature's `component_key`, which
  `ServiceLayoutRecord` and `FeatureComponentRecord` do not declare. The layout record of
  module `ServiceLayouts` carries them.

## Model

| member | source | states |
|---|---|---|
| StringOrder.LessTransitive | include/RecloserServiceImpl.hpp:16-17 | the key order of `std::set`/`std::map` is transitive (with LessIrreflexive, LessTotal, LessAsymmetric: a strict total order) |
| StringOrder.LessTotal | include/RecloserServiceImpl.hpp:16-17 | any two distinct strings are ordered one way or the other |
| StringOrder.Insert | src/RecloserServiceImpl.cpp:149-151 | inserting into a sorted set keeps it strictly sorted; afterwards it holds exactly the old members plus the new one; inserting a present member changes nothing |
| ServiceTreeNodes.Find | src/RecloserServiceImpl.cpp:168 | `find` misses exactly when no entry has the key; a hit is an entry of the map |
| ServiceTreeNodes.Assign | src/RecloserServiceImpl.cpp:156 | `map[key] = node` keeps the keys ascending; afterwards the key set is the old one plus the key; the key maps to the node and every other entry is unchanged |
| ServiceTreeNodes.FindAfterAssign | src/RecloserServiceImpl.cpp:156 | after `map[k] = n`, looking up `k` gives `n` and looking up any other key gives what it gave before |
| ServiceTreeNodes.FindAfterAssignAll | src/RecloserServiceImpl.cpp:141-157 | after a run of assignments, a key maps to the node of its last assignment, or to its old node when none assigns it |
| TreeDiff.FeatureDiffMembers | src/RecloserServiceImpl.cpp:187-203 | a feature is reported Removed iff the first node has it and the second does not, and Added iff the second has it and the first does not |
| TreeDiff.FeatureDiffOrder | src/RecloserServiceImpl.cpp:187-203 | every Removed feature difference comes before every Added one |
| TreeDiff.FeatureDiffEmpty | src/RecloserServiceImpl.cpp:187-203 | the feature differences are empty iff the two feature sets have the same members |
| TreeDiff.DifferencesLength | src/RecloserServiceImpl.cpp:160-241 | one difference entry is reported per counted service: the length is added + removed + modified |
| TreeDiff.Counts | src/RecloserServiceImpl.cpp:160-241 | added counts the keys only in the second tree, removed the keys only in the first, modified the common keys whose services differ |
| TreeDiff.ExistingModifiedCount | src/RecloserServiceImpl.cpp:167-220 | the first loop counts exactly the common keys whose services differ |
| TreeDiff.Classification | src/RecloserServiceImpl.cpp:160-241 | for every key the differences hold exactly one Removed entry (only in the first tree), one Added entry (only in the second), one Modified entry (in both and changed), or none (in both and unchanged) |
| TreeDiff.EntryOrder | src/RecloserServiceImpl.cpp:211-240 | no Unchanged entry is ever reported, and all Added entries come after the other entries |
| TreeDiff.SelfCompare | src/RecloserServiceImpl.cpp:160-241 | comparing a well-formed tree with itself reports nothing and counts zero everywhere |
| TreeDiff.SwapCounts | src/RecloserServiceImpl.cpp:160-241 | swapping the two trees swaps the added and removed counts and keeps the modified count |
| TreeDiff.ChangedSymmetric | src/RecloserServiceImpl.cpp:186-219 | a common service is modified from one side iff it is modified from the other |
| ServiceStore.ServiceTreeShape | src/RecloserServiceImpl.cpp:10-58 | the tree has one node per service listed under the parent, in list order, with its id and key; each node has one child per service listed under it |
| ServiceStore.FeatureKeys | src/RecloserServiceImpl.cpp:147-151 | the feature set of a node is strictly sorted and holds exactly the description keys of the service's features |
| ServiceStore.SnapshotWellFormed | src/RecloserServiceImpl.cpp:134-158 | the snapshot has ascending keys at every level and sorted feature sets |
| ServiceStore.SnapshotNodeFields | src/RecloserServiceImpl.cpp:142-151 | a node's display name is the translation of the service's description key, and its features are the service's feature keys |
| ServiceStore.SnapshotLookup | src/RecloserServiceImpl.cpp:134-158 | a key is missing from the snapshot iff no top-level service has it; otherwise it maps to the last such service (a later one overwrites an earlier one), with that service's translation and feature keys |
| Decimal.ParseDecimalString | src/RecloserServiceImpl.cpp:86-89 | the decimal text a count is written as reads back as the count |
| Decimal.DecimalStringInjective | src/RecloserServiceImpl.cpp:86-89 | distinct counts are written as distinct texts |
| Messages.CopyTranslations | src/RecloserServiceImpl.cpp:270-274 | the translations of a message are the translation rows, in order, each as its language code and value |
| RecloserServiceImpl.CompareServiceTrees | src/RecloserServiceImpl.cpp:60-92 | the response carries both firmware ids, the differences of comparing the two firmware snapshots, and the summary of its three counts |
| RecloserServiceImpl.SelfComparison | src/RecloserServiceImpl.cpp:60-92 | comparing a firmware with itself reports no difference and the summary "0 service(s) added, 0 service(s) removed, 0 service(s) modified" |
| RecloserServiceImpl.SwappedComparison | src/RecloserServiceImpl.cpp:60-92 | comparing in the other order gives the summary with the added and removed counts swapped |
| RecloserServiceImpl.SummaryInjective | src/RecloserServiceImpl.cpp:86-89 | the summary text determines the three counts |
| RecloserServiceImpl.CompareNodes | src/RecloserServiceImpl.cpp:160-241 | the loops append exactly the differences of the comparison and add exactly its three counts to the counters passed in |
| RecloserServiceImpl.CompareFirstTree | src/RecloserServiceImpl.cpp:167-220 | the first loop appends the Removed and Modified entries of the first tree's keys, in key order, and counts them |
| RecloserServiceImpl.ListAddedServices | src/RecloserServiceImpl.cpp:224-240 | the second loop appends one Added entry, with all its features, per key only in the second tree, and counts them |
| RecloserServiceImpl.CompareCommon | src/RecloserServiceImpl.cpp:178-219 | a common service yields a Modified entry iff its features or its children differ, and nothing otherwise |
| RecloserServiceImpl.CompareFeatures | src/RecloserServiceImpl.cpp:187-203 | the two feature loops compute the feature differences, and `hasChanges` holds iff there is one |
| RecloserServiceImpl.BuildInternalTree | src/RecloserServiceImpl.cpp:134-158 | the loop assigns each listed service's node in list order, over the tree passed in |
| RecloserServiceImpl.CollectFeatureKeys | src/RecloserServiceImpl.cpp:147-151 | the loop builds the node's feature-key set |
| RecloserServiceImpl.GetServiceTree | src/RecloserServiceImpl.cpp:10-58 | the response lists the message tree of the firmware's top-level services |
| RecloserServiceImpl.BuildServiceNode | src/RecloserServiceImpl.cpp:94-132 | the children of the services under the parent are appended to the parent node, and nothing else of it changes |
| RecloserServiceImpl.ServiceMessage | src/RecloserServiceImpl.cpp:24-55 | a service's message holds its id, keys, translations, features and child tree |
| RecloserServiceImpl.CopyFeatures | src/RecloserServiceImpl.cpp:37-51 | a service's features are copied in order, each with its translations |
| RecloserServiceImpl.PopulateServiceLayout | src/RecloserServiceImpl.cpp:264-301 | the message is the copy of the record, nested children included |
| ServiceLayouts.LayoutRoundTrip | src/RecloserServiceImpl.cpp:264-301 | the copy keeps every field of the record at every level except the description keys of translation rows |
| ServiceLayouts.MessageRoundTrip | src/RecloserServiceImpl.cpp:264-301 | every layout message is the copy of a record: the copy loses nothing a message holds |
| CatalogTables.ComponentRoundTrip | include/DatabaseSchema.hpp:50-51 | a component type found in the table maps to an id that maps back to it (`UNIQUE(type)`) |
| CatalogTables.LimitRoundTrip | include/DatabaseSchema.hpp:53-54 | a limit key found in the table maps to an id that maps back to it (`UNIQUE(key)`) |
| CatalogTables.LookupUnique | src/RecloserManager.cpp:138-155 | when (key, language) pairs are unique, the lookup gives the value of the one matching row |
| CatalogTables.UpsertLookup | src/RecloserManager.cpp:106-120 | after `INSERT OR REPLACE` the pair reads back the new value and every other pair reads what it read before |
| CatalogTables.UpsertUnique | include/DatabaseSchema.hpp:15-20 | the upsert keeps the (key, language) primary key unique |
| CatalogTables.UpsertAllLookup | src/RecloserManager.cpp:122-136 | after the loop a pair of the key reads the last value given for a registered language, and every other pair is unchanged |
| CatalogTables.UpsertAllUnique | src/RecloserManager.cpp:122-136 | the loop keeps the primary key unique |
| CatalogTables.ForKeyMembers | src/RecloserManager.cpp:157-177 | the rows returned for a key are exactly the stored rows of that key |
| CatalogTables.ServicesByMembers | src/RecloserManager.cpp:474-510 | a record is returned iff a service with that parent is linked to the firmware |
| CatalogTables.RootRecord | src/RecloserManager.cpp:474-510 | a service without parent is returned under parent 0 |
| CatalogTables.LinkIdOfPair | src/RecloserManager.cpp:409-425 | the link id of a linked pair names a link of that pair |
| CatalogTables.LinkIdPositive | src/RecloserManager.cpp:409-425 | in a valid catalog the id of a linked pair is positive, so 0 unambiguously means "not linked" |
| CatalogTables.AddLanguageValid | include/DatabaseSchema.hpp:10-11 | appending a new language keeps the catalog valid |
| CatalogTables.AddDescriptionValid | include/DatabaseSchema.hpp:13 | appending a new description key keeps the catalog valid |
| CatalogTables.AddTranslationValid | include/DatabaseSchema.hpp:15-20 | an upsert over a registered key and language keeps the catalog valid |
| CatalogTables.AddServiceValid | include/DatabaseSchema.hpp:30-34 | appending a service with a fresh id, a registered unused key and an existing (or its own) parent keeps the catalog valid |
| CatalogTables.UpdateServiceValid | include/DatabaseSchema.hpp:30-34 | rewriting a service with a registered key unused elsewhere and an existing parent keeps the catalog valid |
| CatalogTables.AddLinkValid | include/DatabaseSchema.hpp:36-41 | appending a link of an existing service not yet in that firmware keeps the catalog valid |
| CatalogTables.AddFeatureValid | include/DatabaseSchema.hpp:43-48 | appending a feature of a registered key and an existing link keeps the catalog valid |
| CatalogTables.AddBindingValid | include/DatabaseSchema.hpp:77-82 | appending a binding of an existing feature and component keeps the catalog valid |
| CatalogTables.AddLimitValid | include/DatabaseSchema.hpp:84-92 | appending a limit of an existing binding and limit key keeps the catalog valid |
| ScreenLayouts.LimitsForMembers | src/RecloserManager.cpp:722-740 | a limit is listed for a binding iff a limit row of that binding names a known limit key with that value |
| ScreenLayouts.FeatureRowsShape | src/RecloserManager.cpp:694-745 | a feature without a binding yields one row with no component; a bound feature yields as many rows as it has bindings, exactly the rows of its bindings (every binding yields its row), each with its component type and limits |
| ScreenLayouts.ScreenLayoutFound | src/RecloserManager.cpp:665-690 | a layout is found iff some link has the id, and then it is the layout of that link's service |
| ScreenLayouts.ChildLayoutsSound | src/RecloserManager.cpp:759-776 | every child layout is the screen layout, through its firmware link, of a child of the service that is linked to the same firmware |
| ScreenLayouts.ChildLayoutsComplete | src/RecloserManager.cpp:759-776 | every child of the service linked to the same firmware contributes its screen layout, through its firmware link |
| ScreenLayouts.LinksValidForLayout | include/DatabaseSchema.hpp:36-41 | in a valid catalog link ids are distinct and every link names a service, as the layout lookup needs |
| CatalogManager.RecloserManager.constructor | include/DatabaseSchema.hpp:57-75 | a new catalog is valid, has the 11 seeded component types and 6 seeded limit keys, empty tables, and all five AUTOINCREMENT counters at 0, so each table's first id is 1 |
| CatalogManager.RecloserManager.AddLanguage | src/RecloserManager.cpp:81-93 | `INSERT OR IGNORE`: a new code is appended, a present one changes nothing; the catalog stays valid |
| CatalogManager.RecloserManager.AddDescriptionKey | src/RecloserManager.cpp:95-104 | `INSERT OR IGNORE` of a description key; the catalog stays valid |
| CatalogManager.RecloserManager.AddTranslation | src/RecloserManager.cpp:106-120 | succeeds iff the key and language are registered (foreign keys), and then upserts the row; otherwise nothing changes |
| CatalogManager.RecloserManager.AddKeyWithTranslations | src/RecloserManager.cpp:122-136 | registers the key, upserts every pair of a registered language, and succeeds iff every language is registered |
| CatalogManager.RecloserManager.GetTranslation | src/RecloserManager.cpp:138-155 | the stored value of the (key, language) pair, or "" when no row matches |
| CatalogManager.RecloserManager.GetTranslationsForKey | src/RecloserManager.cpp:157-177 | the rows of the key, in table order (assumed, see "Left out") |
| CatalogManager.RecloserManager.AddService | src/RecloserManager.cpp:344-365 | with a registered unused key and a parent that is absent, an existing service or the new row itself, appends the row under the next id and returns it; otherwise returns 0 and changes nothing |
| CatalogManager.RecloserManager.UpdateService | src/RecloserManager.cpp:367-386 | an unknown id succeeds and changes nothing; otherwise succeeds iff the key is registered and unused by other services and the parent is absent or exists, and then rewrites that row only |
| CatalogManager.RecloserManager.LinkServiceToFirmware | src/RecloserManager.cpp:388-407 | an existing service not yet in the firmware gets a new link under the next id; otherwise nothing changes; afterwards an existing service is linked |
| CatalogManager.RecloserManager.GetServiceFirmwareId | src/RecloserManager.cpp:409-425 | 0 when the pair is not linked, and otherwise the id of a link of the pair |
| CatalogManager.RecloserManager.GetServicesByParentAndFirmware | src/RecloserManager.cpp:474-510 | the records of the services under the parent linked to the firmware, in table order (assumed, see "Left out") |
| CatalogManager.RecloserManager.AddFeature | src/RecloserManager.cpp:533-552 | with a registered key and an existing link, appends the feature under the next id and returns it; otherwise returns 0 and changes nothing |
| CatalogManager.RecloserManager.LinkFeatureToComponent | src/RecloserManager.cpp:605-623 | with a known component type and an existing feature, appends a binding to the type's component; otherwise nothing changes |
| CatalogManager.RecloserManager.AddComponentLimit | src/RecloserManager.cpp:625-642 | an unknown limit key selects no row and still succeeds; a missing binding fails; otherwise the limit row is appended |
| CatalogManager.RecloserManager.GetScreenLayout | src/RecloserManager.cpp:665-779 | the loops compute the screen layout of the link: its service, translations, feature rows with limits, and linked children |
| CatalogManager.RecloserManager.CollectFeatureRows | src/RecloserManager.cpp:694-745 | the feature rows of all features of the link, in table order (assumed, see "Left out") |
| CatalogManager.RecloserManager.CollectLimits | src/RecloserManager.cpp:722-740 | the limits of one binding, in table order (assumed, see "Left out") |
| CatalogManager.RecloserManager.CollectChildLayouts | src/RecloserManager.cpp:759-776 | the layouts of the service's children linked to the same firmware, in table order (assumed, see "Left out") |

## Left out

- SQLite itself is not modelled: prepared statements, `sqlite3_step` errors other than
  constraint failures, opening the database, `initialize` and the migrations. A failed prepare
  or an I/O error is not a case of the model.
- The gRPC layer, logging, `main.cpp`, `UIComponentManager` and the web client are not part of
  this model. The other handlers of `src/RecloserServiceImpl.cpp` are left out: the
  create, update and delete handlers, `GetFullInventory`, and the `GetScreenLayout` handler,
  which only calls `getScreenLayout` and then `populateServiceLayout`.
- The manager's delete operations, its reclosers and firmware versions, and its getters not
  named above are left out.
- The `Reclosers` and `FirmwareVersions` tables are not modelled.
- CatalogManager.RecloserManager.LinkServiceToFirmware: the foreign key on the firmware id
  is not checked, because the firmware table is not modelled. The link id it returns is
  not modelled either (the method returns nothing).
- CatalogManager.RecloserManager.LinkFeatureToComponent: the returned binding id is not
  modelled, and the method returns nothing. A duplicate (feature, component) pair is
  accepted, as the schema has no constraint on it.
- CatalogManager.RecloserManager.AddKeyWithTranslations: the branch where registering the
  key fails cannot happen under `INSERT OR IGNORE`, so the model has no such branch.
- Integer widths: ids, counters and counts are unbounded integers. A 32-bit
  `AUTOINCREMENT` or `int` counter overflow is not modelled.
- Result order is an assumption. None of the manager's `SELECT`s has an `ORDER BY`, so
  SQLite leaves the row order open. An index may hand the rows back in another order: for
  example `getTranslationsForKey` may return them ordered by language code through the
  `UNIQUE(description_key, language_code)` index. The model returns rows in table order.
  This fixes the order of the sequences returned by GetTranslationsForKey,
  GetServicesByParentAndFirmware, CollectFeatureRows, CollectLimits and
  CollectChildLayouts. Their contents do not depend on the order: ForKeyMembers,
  ServicesByMembers, LimitsForMembers, FeatureRowsShape, ChildLayoutsSound and
  ChildLayoutsComplete are stated by membership.
  The service side reads the getters' results as the `Store` gives them, in whatever
  order that is. Its comparison snapshot is keyed, so the order matters there only when
  two services share a key: the later one wins (ServiceStore.SnapshotLookup).
- Concurrency: the manager holds no lock, so each call is modelled as atomic.
- Cycles in the parent relation: a service may be inserted as its own parent, and updates
  can create longer cycles.
  - `GetServiceTree` and `CompareServiceTrees` start from the root services, the ones with
    a NULL parent. `getServicesByParentAndFirmware` selects children by `parent_id`, so a
    service on a cycle is never a descendant of a root. `buildServiceNode` and
    `buildInternalTree` therefore terminate on every catalog the manager can produce.
  - `getScreenLayout` recurses forever only when it is called on the link of a service
    that lies on a cycle whose members are linked to that firmware. A self-parent service
    linked to the firmware is one example.
- CatalogManager.RecloserManager.GetScreenLayout, CollectChildLayouts and the ServiceStore
  members, with GetServiceTree, BuildServiceNode, BuildInternalTree and
  CompareServiceTrees: their `Ranked` requirement (`ScreenLayouts.Ranked`,
  `ServiceStore.Ranked`) asks for a decreasing rank over every service. A catalog with a
  cycle anywhere is outside these members, even when the call never reaches the cycle and
  the source returns normally. The model does not state what the source answers on such
  catalogs.
- The service handlers are modelled against the abstract `Store`, not against the manager's
  tables. Connecting the two would need the `service_key` column that the manager's
  schema lacks.
- The `UNIQUE` constraints of the `Component` and `Limits` tables are not part of
  `Valid`. They hold for the seeded constants (ComponentRoundTrip and LimitRoundTrip are
  stated for any table), and the manager never changes these tables.
- The description keys of translation rows are dropped when a layout is copied into a
  message. ServiceLayouts.LayoutRoundTrip states that, and nothing more is lost.
