# Pricing-conditions rows loader

A Dafny model of `PricingConditionsRowsLoader`, the metasfresh web-UI component that builds the rows
of the sales/purchase pricing-conditions view. The view has one row for every occurrence of a
break in the breaks extractor's stream, paired with every info of that break's schema; a break the
extractor yields twice gets a row per occurrence. It has one editable row that stands for the conditions the current order
line uses.

The loader does the following:

1. It asks the business-partner repository, for the vendor side and then the customer side, which
   partner uses which discount schema.
2. It looks each partner up. A null lookup is skipped.
3. It collects the resulting (schema id, partner, direction) infos into a set multimap. The
   multimap is built once per loader and kept in a lazy field.
4. It expands every schema id of the multimap into its breaks, using the pluggable breaks
   extractor, and drops null breaks.
5. It pairs every break with every info of the break's own schema id. Each pair becomes one
   non-editable row, carrying the partner's last shipment/receipt date for the break's product.
   That date comes through a memo table keyed by (partner, product, direction).
6. It sorts the rows:
   - editable rows first;
   - then by partner display name;
   - then customer rows before vendor rows.
7. It takes the editable row:
   - an editable copy of the first sorted row the source order line already uses;
   - if no row matches, a row synthesised from that line;
   - no editable row at all when there is no source line.
8. It applies the view filters.

Modules, one per file:

- `Wrappers` (`wrappers.dfy`): `Option` and a failure-compatible `Result`.
- `PricingTypes` (`pricing_types.dfy`): the value types and the `Collaborators` record.
  - The value types are the rows, breaks, infos, source line, memo key and row data.
  - `Collaborators` holds the services the loader calls, as total functions:
    - the business-partner repository;
    - the partner lookups;
    - the business-partner service's direct schema lookup;
    - the pricing-conditions repository;
    - the breaks extractor;
    - the shipment/receipt repository;
    - `PricingConditionsRowData.filter`.
- `RowOrdering` (`row_ordering.dfy`): the comparator and the stable sort `Stream.sorted` performs.
  - `StrLess` models `String.compareTo(a, b) < 0`. Like Java it compares the strings' UTF-16 code
    units, so a character above U+FFFF sorts by its high surrogate.
- `ConditionsIndex` (`conditions_index.dfy`): the info stream of one direction, the multimap, its
  `keySet()` and `get()`.
- `LastInOutDates` (`last_inout_dates.dfy`): the memo key, the memo table and the date a row shows.
- `RowsPipeline` (`rows_pipeline.dfy`): `load()` as one function of the collaborators, and the
  lemmas stating what it promises.
- `RowsLoader` (`rows_loader.dfy`): the loader object.
  - Its fields are the lazy index `pricingConditionsInfoById` and the memo table `lastInOutDates`.
  - Its methods fill those fields as the source does.
  - `Load` builds the rows in a loop through the memo table and is proved to give exactly
    `RowsPipeline.Load`.
  - Its memo table ends as `LastInOutDates.Replay` of the load's date requests leaves it. Within
    one load the shipment/receipt repository is asked only on misses, at most once for every key
    whose fetch succeeds.

How the Java types map onto Dafny:

- The partner-to-schema map, declared as a `Map<BPartnerId, Integer>`, is a duplicate-free
  association list in its iteration order. Whatever fixed order the repository's map iterates in,
  the lemmas hold for every one.
- The `ImmutableSetMultimap` is the duplicate-free sequence of its entries in insertion order:
  - `keySet()` gives the distinct schema ids in order of first appearance;
  - `get(id)` gives the entries with that id, in order.
- An exception that ends the load is a `Failure` of `LoadError`.

Two behaviours of the loader worth stating outright:

- **Partners without a schema mapping.** Only the keys of the repository's map are enumerated, so
  every enumerated partner has a mapping. With the map's values as integers, a missing mapping is
  reached only through a lookup that returns a partner whose id is not a key of the map. The null
  schema id then meets the info builder's `@NonNull` check and the whole load fails.
  - `ConditionsIndex.IndexContents` states exactly when this happens.
  - `ConditionsIndex.FaithfulLookupsNeverFail` shows it cannot happen when lookups return the
    partner they were asked for.
- **Last-in/out date failures.** As the code is written, a throwing shipment/receipt repository is
  not degraded to "no date"; it aborts the load (see "## Findings"). The loader model uses the
  evidently intended degrading memo. The memo as written and the load built on it are modelled
  separately, by `LastInOutDates.CachedDateAsWritten`, `LastInOutDates.ReplayAsWritten` and
  `RowsPipeline.LoadAsWritten`.

## Model

All source paths are under `src/main/java/de/metas/ui/web/order/sales/pricingConditions/view/`.

| member | source | states |
|---|---|---|
| RowOrdering.RowsSortingEquivalent | src/main/java/de/metas/ui/web/order/sales/pricingConditions/view/PricingConditionsRowsLoader.java:80-82 | ROWS_SORTING ranks two rows equal exactly when editability, partner display name and direction all agree |
| RowOrdering.RowsSortingTotal | src/main/java/de/metas/ui/web/order/sales/pricingConditions/view/PricingConditionsRowsLoader.java:80-82 | any two rows are comparable under ROWS_SORTING |
| RowOrdering.RowsSortingTransitive | src/main/java/de/metas/ui/web/order/sales/pricingConditions/view/PricingConditionsRowsLoader.java:80-82 | ROWS_SORTING is transitive |
| RowOrdering.StrLessTrichotomy | src/main/java/de/metas/ui/web/order/sales/pricingConditions/view/PricingConditionsRowsLoader.java:81 | two display names are equal or one is before the other under String.compareTo |
| RowOrdering.StrLessTransitive | src/main/java/de/metas/ui/web/order/sales/pricingConditions/view/PricingConditionsRowsLoader.java:81 | the display-name order is transitive |
| RowOrdering.StrLessIrreflexive | src/main/java/de/metas/ui/web/order/sales/pricingConditions/view/PricingConditionsRowsLoader.java:81 | no display name is before itself |
| RowOrdering.StrLess | src/main/java/de/metas/ui/web/order/sales/pricingConditions/view/PricingConditionsRowsLoader.java:81 | String.compareTo(a, b) < 0: the lexicographic order of the two names' UTF-16 code units, a proper prefix first; defined, with its order properties in the StrLess lemmas |
| RowOrdering.CodeUnits | src/main/java/de/metas/ui/web/order/sales/pricingConditions/view/PricingConditionsRowsLoader.java:81 | the code units of one character as a Java string holds it: one unit below U+10000, otherwise a high surrogate (D800-DBFF) followed by a low surrogate (DC00-DFFF), every unit 16 bits wide |
| RowOrdering.Utf16 | src/main/java/de/metas/ui/web/order/sales/pricingConditions/view/PricingConditionsRowsLoader.java:81 | the code units of a name, the characters' CodeUnits in order: at least as many units as characters and at most twice as many |
| RowOrdering.Utf16Injective | src/main/java/de/metas/ui/web/order/sales/pricingConditions/view/PricingConditionsRowsLoader.java:81 | distinct names have distinct code-unit sequences, so the unit order is a strict total order on names |
| RowOrdering.SupplementaryBeforeHighBmp | src/main/java/de/metas/ui/web/order/sales/pricingConditions/view/PricingConditionsRowsLoader.java:81 | one concrete instance where the UTF-16 order and code-point order part: U+1F600 sorts before U+FF21 although its code point is larger |
| RowOrdering.KeyOf | src/main/java/de/metas/ui/web/order/sales/pricingConditions/view/PricingConditionsRowsLoader.java:80-82 | the three keys ROWS_SORTING extracts from a row: 0 for editable else 1, the partner display name, 0 for customer else 1; defined, its order properties in the RowsSorting lemmas |
| RowOrdering.RowsSortingLe | src/main/java/de/metas/ui/web/order/sales/pricingConditions/view/PricingConditionsRowsLoader.java:80-82 | ROWS_SORTING.compare(a, b) <= 0: lexicographic on the three keys, names by StrLess; defined, its properties in RowsSortingEquivalent, RowsSortingTotal and RowsSortingTransitive |
| RowOrdering.SortRows | src/main/java/de/metas/ui/web/order/sales/pricingConditions/view/PricingConditionsRowsLoader.java:130 | sorted(ROWS_SORTING) as a stable insertion sort; the result is a permutation (same multiset) of the input |
| RowOrdering.Insert | src/main/java/de/metas/ui/web/order/sales/pricingConditions/view/PricingConditionsRowsLoader.java:130 | inserting one row keeps every row and adds that one (multiset union) |
| RowOrdering.SortRowsSorted | src/main/java/de/metas/ui/web/order/sales/pricingConditions/view/PricingConditionsRowsLoader.java:130 | the sorted rows are ordered by ROWS_SORTING and are a permutation (same multiset) of the input rows |
| RowOrdering.SortRowsStable | src/main/java/de/metas/ui/web/order/sales/pricingConditions/view/PricingConditionsRowsLoader.java:130 | rows that ROWS_SORTING ranks equal keep their stream order |
| RowOrdering.SortedRowsOrder | src/main/java/de/metas/ui/web/order/sales/pricingConditions/view/PricingConditionsRowsLoader.java:80-82 | in sorted rows: an editable row never follows a non-editable one; at equal editability names ascend; at equal editability and name a customer row precedes a vendor row |
| ConditionsIndex.GetPricingConditionsIdByBPartner | src/main/java/de/metas/ui/web/order/sales/pricingConditions/view/PricingConditionsRowsLoader.java:185-195 | the result is some schema s exactly when the map maps the partner's id to s, and null exactly when the map has no entry for that id |
| ConditionsIndex.InfosFrom | src/main/java/de/metas/ui/web/order/sales/pricingConditions/view/PricingConditionsRowsLoader.java:174-182 | the infos of the map's keys: a failure is always the null-schema-id error; a result has no more infos than the map has keys, all of the stream's direction |
| ConditionsIndex.InfosFromContents | src/main/java/de/metas/ui/web/order/sales/pricingConditions/view/PricingConditionsRowsLoader.java:174-182 | the info stream fails exactly when some map key looks up to a partner whose id has no schema; otherwise it holds exactly the infos of non-null lookups, with the schema the map gives them and the stream's direction |
| ConditionsIndex.StreamPricingConditionsInfos | src/main/java/de/metas/ui/web/order/sales/pricingConditions/view/PricingConditionsRowsLoader.java:170-183 | one direction's infos from the repository's map for the client and direction; every info it yields has that direction |
| ConditionsIndex.SideContents | src/main/java/de/metas/ui/web/order/sales/pricingConditions/view/PricingConditionsRowsLoader.java:170-183 | one direction's infos: failure exactly when a lookup leaves the map; otherwise exactly the indexed infos of that direction |
| ConditionsIndex.IndexContents | src/main/java/de/metas/ui/web/order/sales/pricingConditions/view/PricingConditionsRowsLoader.java:157-168 | building the index fails exactly when a lookup leaves the map on either side, and then with the null-schema-id error; otherwise the index holds each indexed info once, of both directions, and no partner whose lookup is null |
| ConditionsIndex.BuildIndex | src/main/java/de/metas/ui/web/order/sales/pricingConditions/view/PricingConditionsRowsLoader.java:161-165 | the vendor stream then the customer stream, collected into the set multimap; the first failure of either ends it; defined, its contents stated by IndexContents |
| ConditionsIndex.FaithfulLookupsNeverFail | src/main/java/de/metas/ui/web/order/sales/pricingConditions/view/PricingConditionsRowsLoader.java:176-180 | when every lookup returns the partner it was asked for, building the index succeeds |
| ConditionsIndex.Dedup | src/main/java/de/metas/ui/web/order/sales/pricingConditions/view/PricingConditionsRowsLoader.java:164-165 | collecting into a set multimap keeps exactly the members of the stream, without duplicates |
| ConditionsIndex.KeySet | src/main/java/de/metas/ui/web/order/sales/pricingConditions/view/PricingConditionsRowsLoader.java:147-150 | the key set holds exactly the schema ids of the index's entries, each once |
| ConditionsIndex.InfosFor | src/main/java/de/metas/ui/web/order/sales/pricingConditions/view/PricingConditionsRowsLoader.java:152-155 | get(id) holds exactly the index entries with that schema id (none for a null id), without duplicates |
| RowsPipeline.NonNullBreaks | src/main/java/de/metas/ui/web/order/sales/pricingConditions/view/PricingConditionsRowsLoader.java:127-128 | filter(notNull) keeps every present break with its multiplicity, and only those: each break occurs as often as it does in the extractor's stream, and the length drops by the number of nulls |
| RowsPipeline.SchemaBreaks | src/main/java/de/metas/ui/web/order/sales/pricingConditions/view/PricingConditionsRowsLoader.java:197-201 | the breaks of one schema: the extractor's stream of the repository's conditions, its null breaks dropped with every other break kept as often as it occurs |
| RowsPipeline.CreatePricingConditionsRow | src/main/java/de/metas/ui/web/order/sales/pricingConditions/view/PricingConditionsRowsLoader.java:210-225 | a non-editable row of the info's partner, direction and schema id, carrying the break and the given date; defined, its fields stated by LoadedRows |
| RowsPipeline.RowOf | src/main/java/de/metas/ui/web/order/sales/pricingConditions/view/PricingConditionsRowsLoader.java:203-225 | createPricingConditionsRow of one pair with getLastInOutDate's date for the info's partner and direction and the break's product; defined, its fields stated by LoadedRows |
| RowsPipeline.PairsForBreaks | src/main/java/de/metas/ui/web/order/sales/pricingConditions/view/PricingConditionsRowsLoader.java:127-129 | createPricingConditionsRows over a schema's breaks, in order: each break paired with the infos of its schema id; defined, its members stated by PairsForBreaksMembers and JoinPairsMembers |
| RowsPipeline.PairsForKeys | src/main/java/de/metas/ui/web/order/sales/pricingConditions/view/PricingConditionsRowsLoader.java:125-129 | flatMap over the key set: the pairs of every schema's non-null breaks, schema by schema; defined, its members and count stated by JoinPairsMembers and PairsForKeysCount |
| RowsPipeline.JoinPairs | src/main/java/de/metas/ui/web/order/sales/pricingConditions/view/PricingConditionsRowsLoader.java:125-129 | the (break, info) pairs of load()'s stream before sorting; defined, its members stated by JoinPairsMembers and its length by PairsForKeysCount |
| RowsPipeline.PairsForBreak | src/main/java/de/metas/ui/web/order/sales/pricingConditions/view/PricingConditionsRowsLoader.java:203-208 | a break is paired exactly with the indexed infos whose schema id equals the break's |
| RowsPipeline.JoinPairsMembers | src/main/java/de/metas/ui/web/order/sales/pricingConditions/view/PricingConditionsRowsLoader.java:125-129 | a (break, info) pair is joined exactly when the break is a non-null break of a schema in the key set and the info is indexed with the break's schema id |
| RowsPipeline.PairsForKeysCount | src/main/java/de/metas/ui/web/order/sales/pricingConditions/view/PricingConditionsRowsLoader.java:125-129 | the number of joined pairs is the sum over breaks of the number of infos of the break's schema |
| RowsPipeline.LoadedRows | src/main/java/de/metas/ui/web/order/sales/pricingConditions/view/PricingConditionsRowsLoader.java:125-131 | the rows are sorted, are a permutation of the joined rows in stream order, number the sum of infos per break, and each is non-editable with its info's partner, direction and schema id equal to its break's schema id, and the repository's last-in/out date |
| RowsPipeline.IsCurrentConditions | src/main/java/de/metas/ui/web/order/sales/pricingConditions/view/PricingConditionsRowsLoader.java:227-242 | no row without a source line; by break id when the line names one; otherwise by partner id and the line's direction; defined, used by FirstCurrentConditions and EditableRowIsCurrentConditions |
| RowsPipeline.FirstCurrentConditions | src/main/java/de/metas/ui/web/order/sales/pricingConditions/view/PricingConditionsRowsLoader.java:133-135 | the index of the first row isCurrentConditions accepts: it is accepted, no earlier row is, and there is none exactly when no row is accepted |
| RowsPipeline.SyntheticBreak | src/main/java/de/metas/ui/web/order/sales/pricingConditions/view/PricingConditionsRowsLoader.java:254-265 | the synthesised break: no id and no creation date, break value 0, the line's product and category, its entered price as fixed price, its discount and payment term; defined, its fields stated by SynthesisedRow |
| RowsPipeline.CreateEditableRow | src/main/java/de/metas/ui/web/order/sales/pricingConditions/view/PricingConditionsRowsLoader.java:251-280 | the synthesised editable row of the line's direction and looked-up partner, with the direct schema lookup as schema id; defined, its fields stated by SynthesisedRow |
| RowsPipeline.EditableRowOrNull | src/main/java/de/metas/ui/web/order/sales/pricingConditions/view/PricingConditionsRowsLoader.java:244-281 | a synthesised row exactly when there is a source line; it is editable and its break has no id |
| RowsPipeline.EditableRow | src/main/java/de/metas/ui/web/order/sales/pricingConditions/view/PricingConditionsRowsLoader.java:133-137 | an editable row exactly when there is a source line; when some row matches the line, it is one of the rows made editable |
| RowsPipeline.Assemble | src/main/java/de/metas/ui/web/order/sales/pricingConditions/view/PricingConditionsRowsLoader.java:125-143 | the row data before filtering succeeds exactly when the index can be built; it carries the line's order line id, and an editable row exactly when there is a source line |
| RowsPipeline.OrderLineIdOf | src/main/java/de/metas/ui/web/order/sales/pricingConditions/view/PricingConditionsRowsLoader.java:142 | the source line's order line id, or none without a source line; defined, stated of the row data by Assemble |
| PricingTypes.PricingConditionsRow.CopyAndChangeToEditable | src/main/java/de/metas/ui/web/order/sales/pricingConditions/view/PricingConditionsRowsLoader.java:136 | the same row with its editable flag set and every other field kept; defined, its result stated by EditableRowIsFirstMatch |
| PricingTypes.OfDiscountSchemaIdOrNull | src/main/java/de/metas/ui/web/order/sales/pricingConditions/view/PricingConditionsRowsLoader.java:252 | PricingConditionsId.ofDiscountSchemaIdOrNull: an id for a positive schema id, none otherwise; defined, stated of the synthesised row by SynthesisedRow |
| RowsPipeline.EditableRowPresence | src/main/java/de/metas/ui/web/order/sales/pricingConditions/view/PricingConditionsRowsLoader.java:133-137 | there is an editable row exactly when there is a source line |
| RowsPipeline.EditableRowIsFirstMatch | src/main/java/de/metas/ui/web/order/sales/pricingConditions/view/PricingConditionsRowsLoader.java:133-136 | when row i is the first matching sorted row, the editable row is row i made editable |
| RowsPipeline.EditableRowSynthesisedWithoutMatch | src/main/java/de/metas/ui/web/order/sales/pricingConditions/view/PricingConditionsRowsLoader.java:137 | when no row matches, the editable row is the synthesised one (none without a source line) |
| RowsPipeline.SynthesisedRow | src/main/java/de/metas/ui/web/order/sales/pricingConditions/view/PricingConditionsRowsLoader.java:251-280 | the synthesised row is editable, of the line's direction and looked-up partner, with the direct schema lookup as its schema id (null for a non-positive id); its break has no id, schema id or creation date, break value 0, the line's product, category, entered price as fixed price, discount and payment term |
| RowsPipeline.EditableRowIsCurrentConditions | src/main/java/de/metas/ui/web/order/sales/pricingConditions/view/PricingConditionsRowsLoader.java:227-242 | the editable row matches the source line exactly when some loaded row does, or the line names no break and the partner lookup returns the line's partner |
| RowsPipeline.EditableRowByBreakId | src/main/java/de/metas/ui/web/order/sales/pricingConditions/view/PricingConditionsRowsLoader.java:233-236 | when the line names a break id that a loaded row carries, the editable row carries that break id and is an editable copy of a loaded row |
| RowsPipeline.LoadOutcome | src/main/java/de/metas/ui/web/order/sales/pricingConditions/view/PricingConditionsRowsLoader.java:139-144 | the load fails exactly when building the index fails; otherwise it returns the assembled row data passed through the filter |
| RowsPipeline.Load | src/main/java/de/metas/ui/web/order/sales/pricingConditions/view/PricingConditionsRowsLoader.java:123-145 | load() with the intended memo: the assembled row data passed through the filter; defined, its outcome stated by LoadOutcome |
| RowsPipeline.RowRequests | src/main/java/de/metas/ui/web/order/sales/pricingConditions/view/PricingConditionsRowsLoader.java:127-129 | one memo key per joined pair, in stream order: none exactly when the pair's break has no product, otherwise the info's partner, the break's product and the info's direction |
| RowsPipeline.LoadRequests | src/main/java/de/metas/ui/web/order/sales/pricingConditions/view/PricingConditionsRowsLoader.java:123-145 | the memo keys load() asks for, in order: none when the index cannot be built, otherwise the joined rows' request entries and then the editable row's; defined, its effect on the memo stated by ReplayContents and the class's Load |
| RowsPipeline.LoadAsWritten | src/main/java/de/metas/ui/web/order/sales/pricingConditions/view/PricingConditionsRowsLoader.java:123-145 | load() built on the memo as written: it fails when the intended load fails or when the load's date requests fail on the memo as written, and otherwise gives the intended row data; defined, its outcome stated by LoadAsWrittenOutcome and AsWrittenLoadAbortsOnThrowingRepository |
| RowsPipeline.EditableRequests | src/main/java/de/metas/ui/web/order/sales/pricingConditions/view/PricingConditionsRowsLoader.java:278-295 | the synthesised row's memo request: one entry per source line, no key when the line has no product, otherwise (line partner, line product, line direction) |
| RowsPipeline.EditableRowRequests | src/main/java/de/metas/ui/web/order/sales/pricingConditions/view/PricingConditionsRowsLoader.java:133-137 | the editable row has a request entry exactly when there is a source line and no loaded row matches it, and that entry is the synthesised row's request (no key, so no repository call, when the line has no product) |
| RowsPipeline.LoadAsWrittenOutcome | src/main/java/de/metas/ui/web/order/sales/pricingConditions/view/PricingConditionsRowsLoader.java:123-145 | over a consistent memo, the load built on the memo as written fails exactly when the intended load fails or some date request of the load has a throwing fetch; when it succeeds it gives the intended row data |
| RowsPipeline.AsWrittenLoadAbortsOnThrowingRepository | src/main/java/de/metas/ui/web/order/sales/pricingConditions/view/PricingConditionsRowsLoader.java:297-305 | with a repository that always throws and one loaded row with a product, the intended load succeeds while the load as written, from the empty memo, fails with the repository's error |
| LastInOutDates.RequestOf | src/main/java/de/metas/ui/web/order/sales/pricingConditions/view/PricingConditionsRowsLoader.java:285-295 | there is no memo key exactly when the break has no product; the key carries the partner, the product and the direction |
| LastInOutDates.LastInOutDateOf | src/main/java/de/metas/ui/web/order/sales/pricingConditions/view/PricingConditionsRowsLoader.java:283-306 | no date for a break without product; otherwise the repository's date for (partner, product, direction), and no date when the repository fails |
| LastInOutDates.FetchedDate | src/main/java/de/metas/ui/web/order/sales/pricingConditions/view/PricingConditionsRowsLoader.java:99 | Optional.ofNullable of the repository's date: a date exactly when the repository found one |
| LastInOutDates.CachedDate | src/main/java/de/metas/ui/web/order/sales/pricingConditions/view/PricingConditionsRowsLoader.java:92-102 | over a consistent memo the answer is the repository's for the key and the memo stays consistent; a hit leaves the memo unchanged; a miss adds the key unless the fetch failed; existing entries are kept |
| LastInOutDates.CachedDateRepeated | src/main/java/de/metas/ui/web/order/sales/pricingConditions/view/PricingConditionsRowsLoader.java:92-102 | asking twice for a key gives the same date, and after a successful fetch the second request is a hit |
| LastInOutDates.CachedDateAsWritten | src/main/java/de/metas/ui/web/order/sales/pricingConditions/view/PricingConditionsRowsLoader.java:297-305 | the memo as written fails exactly on a miss whose fetch throws |
| LastInOutDates.AsWrittenAgreesWithoutFailure | src/main/java/de/metas/ui/web/order/sales/pricingConditions/view/PricingConditionsRowsLoader.java:297-305 | where no fetch fails, the memo as written and the corrected memo give the same date and table |
| LastInOutDates.AsWrittenPropagatesFetchFailure | src/main/java/de/metas/ui/web/order/sales/pricingConditions/view/PricingConditionsRowsLoader.java:297-305 | a failing repository makes the memo as written fail where the corrected memo answers no date |
| LastInOutDates.Step | src/main/java/de/metas/ui/web/order/sales/pricingConditions/view/PricingConditionsRowsLoader.java:283-306 | one date request through the memo table: none for no key; otherwise the CachedDate table, and the key logged as a repository call exactly on a miss; defined, used by Replay |
| LastInOutDates.Replay | src/main/java/de/metas/ui/web/order/sales/pricingConditions/view/PricingConditionsRowsLoader.java:92-102 | a sequence of date requests through the memo table, in order: the final table and the repository calls made; defined, its properties in ReplayContents and ReplayAppend |
| LastInOutDates.ReplayAppend | src/main/java/de/metas/ui/web/order/sales/pricingConditions/view/PricingConditionsRowsLoader.java:92-102 | replaying a + b is replaying a and then b, with the calls of both concatenated |
| LastInOutDates.ReplayInSequence | src/main/java/de/metas/ui/web/order/sales/pricingConditions/view/PricingConditionsRowsLoader.java:92-102 | replaying a and then b into a log leaves the table and log as replaying a + b does |
| LastInOutDates.ReplayContents | src/main/java/de/metas/ui/web/order/sales/pricingConditions/view/PricingConditionsRowsLoader.java:92-102 | over a consistent memo: the table stays consistent, gains exactly the requested keys whose fetch succeeds and keeps its entries; every repository call is a requested key that missed, a call whose fetch succeeds is never repeated, and its key ends in the table |
| LastInOutDates.ReplayAsWritten | src/main/java/de/metas/ui/web/order/sales/pricingConditions/view/PricingConditionsRowsLoader.java:297-305 | the requests through the memo as written: a failure is always the repository's error |
| LastInOutDates.ReplayAsWrittenOutcome | src/main/java/de/metas/ui/web/order/sales/pricingConditions/view/PricingConditionsRowsLoader.java:297-305 | over a consistent memo, the requests through the memo as written fail exactly when some requested key's fetch throws, and otherwise leave the same table as the intended memo |
| RowsLoader.PricingConditionsRowsLoader.constructor | src/main/java/de/metas/ui/web/order/sales/pricingConditions/view/PricingConditionsRowsLoader.java:104-121 | requires a positive client id; null filters become the empty filter list; no index and an empty memo table |
| RowsLoader.PricingConditionsRowsLoader.GetPricingConditionsInfosIndexedById | src/main/java/de/metas/ui/web/order/sales/pricingConditions/view/PricingConditionsRowsLoader.java:157-168 | returns the index of ConditionsIndex.BuildIndex; once built it is returned unchanged and the partner repository is not asked again; the first build asks it once per direction |
| RowsLoader.PricingConditionsRowsLoader.GetLastInOutDate | src/main/java/de/metas/ui/web/order/sales/pricingConditions/view/PricingConditionsRowsLoader.java:283-306 | returns the date a direct repository call would give; the memo table becomes the CachedDate table; the repository is asked only on a miss; the memo stays consistent; table and call log are one Step of the request |
| RowsLoader.PricingConditionsRowsLoader.CreatePricingConditionsRows | src/main/java/de/metas/ui/web/order/sales/pricingConditions/view/PricingConditionsRowsLoader.java:127-129 | the flatMap(createPricingConditionsRows) stage in a loop: exactly RowsPipeline.RowsOf of the joined pairs, with the memo table and the repository calls those of replaying the pairs' requests in order |
| RowsLoader.PricingConditionsRowsLoader.CreateEditablePricingConditionsRowOrNull | src/main/java/de/metas/ui/web/order/sales/pricingConditions/view/PricingConditionsRowsLoader.java:244-281 | returns the synthesised editable row of the source line (none without one); the memo table and repository calls become those of replaying the synthesised row's request |
| RowsLoader.PricingConditionsRowsLoader.ChooseEditableRow | src/main/java/de/metas/ui/web/order/sales/pricingConditions/view/PricingConditionsRowsLoader.java:133-137 | returns EditableRow of the sorted rows; the memo table and repository calls become those of replaying the editable row's requests (none when a loaded row matches) |
| RowsLoader.PricingConditionsRowsLoader.AssembleRowData | src/main/java/de/metas/ui/web/order/sales/pricingConditions/view/PricingConditionsRowsLoader.java:125-143 | with the index built, builds exactly the row data of RowsPipeline.Assemble, the memo table and repository calls becoming those of replaying the load's requests |
| RowsLoader.PricingConditionsRowsLoader.Load | src/main/java/de/metas/ui/web/order/sales/pricingConditions/view/PricingConditionsRowsLoader.java:123-145 | builds row by row, through the memo table, exactly the row data of RowsPipeline.Load; the index field ends built when building succeeds; the partner repository is asked only if the index was not built yet; the memo table ends as replaying the load's date requests leaves it, gaining exactly their keys whose fetch succeeds; the shipment/receipt repository is asked only on misses and at most once per key whose fetch succeeds |
| RowsLoader.LoadTwice | src/main/java/de/metas/ui/web/order/sales/pricingConditions/view/PricingConditionsRowsLoader.java:157-168 | loading twice gives the same row data; a successful pair of loads asks the partner repository at most once per direction in all |

## Left out

- The framework wiring is not modelled: `Services.get` and the logger. The warning the catch clause
  logs would be I/O.
- Guava's `CacheBuilder` internals are not modelled. The cache is a map filled on a miss; the
  loader never evicts, so nothing is lost.
- `PricingConditionsRowData.filter` and `BasePricingSystemPriceCalculator` are not part of this
  model. The filter is an uninterpreted function of the row data and the filters. The calculator
  and the `lookups` object handed to every row are omitted from the row values, because the loader
  only passes them through.
- `BigDecimal`, `Percent`, `LocalDate` and all ids are plain integers.
  - The loader does no arithmetic on them.
  - A date is compared only for equality.
- The ORM repositories are functions of their arguments.
  - A repository exception is modelled only for the shipment/receipt repository.
  - The partner and pricing-conditions repositories are total. Their exceptions would simply
    propagate out of `load()`.
- `PricingConditionsId.ofDiscountSchemaId` is modelled as wrapping the id; its own validation is
  left out. `ofDiscountSchemaIdOrNull` treats every non-positive id as null.
- `BPartnerId.ofRepoId(bpartner.getIdAsInt())` is the lookup value's integer id. The id
  validation inside `ofRepoId` is not part of this model.
- The `SourceDocumentLine` partner id is taken as given (non-null).
- `RowsLoader.PricingConditionsRowsLoader.constructor`: the `@NonNull` checks on `lookups`,
  `pricingConditionsBreaksExtractor` and `basePricingSystemPriceCalculator` throw for a null
  argument. The model's collaborators are total functions and cannot be null, so that exception
  is not modelled.
- `PricingConditionsRow` is not part of this model; its behaviour is assumed.
  `copyAndChangeToEditable` is assumed to change only the editable flag. The row builder is assumed to accept the null partner
  that `lookups.lookupBPartner` can return for the synthesised row; the model's row holds an
  `Option` partner.
- Dafny's `char` is a Unicode scalar value, so a display name holding a lone surrogate, which a Java
  `String` can, is not modelled; `StrLess` covers names of well-formed UTF-16 only.
- `RowsLoader.PricingConditionsRowsLoader.constructor`: `Check.assumeGreaterThanZero(adClientId)`
  throws for a non-positive client id; the model makes a positive id a precondition instead of
  modelling that exception.
- A map entry whose `Integer` value is null is not modelled: the map's values are plain integers.
  Such an entry would also give a null schema id, so `IndexContents` describes the failures of
  maps without null values only.
- Java's `Map.keySet()` iteration order is modelled as the order of the association list, whatever
  that order is.
- `RowsLoader.PricingConditionsRowsLoader.Load`: it does not model that the pricing-conditions
  repository is asked once per distinct schema id. It has no call counter for that repository.
  The distinctness of the key set is stated by `ConditionsIndex.KeySet`.
- `RowsLoader.LoadTwice`: the bound it states on partner-repository calls covers a successful
  first load only. After a failed build the index stays unbuilt and the next load asks again, as
  the code does.

## Findings

| source | as written | input that shows it | evidently intended | confidence | as-written member | corrected member |
|---|---|---|---|---|---|---|
| src/main/java/de/metas/ui/web/order/sales/pricingConditions/view/PricingConditionsRowsLoader.java:297-305 | `lastInOutDates.get(request)` is wrapped in `catch (ExecutionException)`. Guava's `LoadingCache.get` throws `ExecutionException` only for a checked exception of the cache loader, and the anonymous loader at lines 92-102 declares none. A runtime exception of `getLastInOutDate` in the shipment/receipt repository therefore arrives as `UncheckedExecutionException`, is not caught, and aborts the whole load. | the empty memo, a request (partner 1, product 1, sales), and a repository that throws for every request | log a warning and show no date for that row; memoise nothing, so later requests ask again | not executed; follows from Guava's documented contract for `LoadingCache.get` | LastInOutDates.CachedDateAsWritten, LastInOutDates.AsWrittenPropagatesFetchFailure, RowsPipeline.LoadAsWritten, RowsPipeline.AsWrittenLoadAbortsOnThrowingRepository | LastInOutDates.CachedDate, RowsPipeline.Load |
