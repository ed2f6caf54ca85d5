# planzy event ingestion, modelled in Dafny

planzy collects cultural events from two ticketing sites (eBilet and GoingApp).
It normalises each raw record into one canonical JSON record with twelve text
fields, then saves the records into a relational store. The store holds events,
places, artists, tags and the event–artist and event–tag links.

This project models four parts of that pipeline as pure functions over immutable values:

- the two mappers, `EventMapperEbilet` and `EventMapperGoingApp`;
- the ingestion service `EventIntegrationService`: cache preload, batching,
  URL deduplication, event creation, place, artist and tag resolution, and
  the success, skip, error and flush counters;
- the generic helper `EntityRelationshipHelper.addEntitiesWithoutDuplicates`.

Modules, one per concern:

| module | file | what it is |
|---|---|---|
| `Wrappers` | wrappers.dfy | `Option`, standing for Java `null` and for a thrown exception |
| `JavaString` | java_string.dfy | `trim`, `isBlank`, `equalsIgnoreCase("null")`, `split(",")`, `String.join`, `replace` |
| `JavaLong` | java_long.dfy | `String.valueOf(long)` and `Long.parseLong` |
| `Json` | json.dfy | Jackson `JsonNode`: `get`, `has`, `isNull`, `asText`, joining an array |
| `Canonical` | canonical.dfy | the canonical record, its `ObjectNode`, and the drop-on-exception loop of `mapEvents` |
| `NameParsing` | names.dfy | `parseNames` |
| `EbiletMapper` | ebilet_mapper.dfy | `mapEbiletEvent` and `mapEvents` |
| `GoingAppMapper` | goingapp_mapper.dfy | `mapGoingAppEvent` and `mapEvents` |
| `RefCache` | refcache.dfy | a name-keyed table with its cache: `computeIfAbsent`, `findByName`, `getOrCreateArtists`/`getOrCreateTags`, the preload of one table |
| `EventStore` | event_store.dfy | the store, the service state, `preloadCaches`, `getEventUrl`, `parseTimestamp`, `createEventFromNode`, `assignPlace`, `processRelationships`, `processEvent` |
| `Ingest` | ingest.dfy | `processScrapedEvents`: the per-record step, the batch loop and the counters |
| `IngestProps` | ingest_props.dfy | what one call and two calls guarantee: one event per URL, healthy tables, idempotence |
| `Pipeline` | pipeline.dfy | mapper output as the service reads it |
| `RelationshipHelper` | relationship_helper.dfy | `addEntitiesWithoutDuplicates` |

Representation choices:

- **Absent values.** A Java `null`, and an exception that the caller catches,
  are both `None`. `get(key).asText()` on a missing field is a
  `NullPointerException`, so it is `None` too. The mappers drop such a record.
  In the service, such a record counts as an error.
- **The store.**
  - A name table (places, artists, tags) is a sequence of row names, and the
    id of a row is its position.
  - An event row carries the event's fields and an optional place id.
  - A link is a pair (event id, row id).
- **The service.** The three name caches and the processed-URL set belong to
  a singleton service. They persist from one call to the next.
- **The environment.** `Env` gathers what the service reads from outside:
  - the clock (`now`, one value per call);
  - the epoch-seconds-to-local-time conversion (`toLocal`; `None` is a
    `DateTimeException`);
  - the iteration order of a `HashSet` of names (`enumerate`).

  The eBilet mapper takes the `LocalDateTime.parse` + `toEpochSecond`
  conversion as a parameter (`parseDate`).
- **Where the code and its design notes disagree, the model follows the code.**
  - The eBilet tag string keeps its trailing `", "` when the subcategory is
    left out.
  - An eBilet date that does not parse drops the whole record instead of
    defaulting to `"null"`. The `RuntimeException` thrown by
    `convertToTimestamp` is not the `DateTimeParseException` the caller catches.
  - The subcategory guard tests the nullness of `category`.
  - A GoingApp record without slugs gets the URL `"Unknown URL"`. That URL
    collides with every other such record.
  - A place name made only of blanks passes the emptiness guard before it is
    trimmed. So does an artist or tag field of blanks, which then names nothing.

  The model keeps each of these, and a lemma states it.

## Model

| member | source | states |
|---|---|---|
| `JavaLong.DecimalTextRoundTrip` | src/main/java/pl/planzy/service/EventIntegrationService.java:416 | `Long.parseLong` reads back every long that `String.valueOf` prints |
| `JavaString.DecodeEncodeSpaces` | src/main/java/pl/planzy/scrappers/mapper/impl/EventMapperGoingApp.java:67 | rewriting blanks as `%20` can be undone whenever the path holds no `%20` of its own |
| `JavaString.EscapeNotRecovered` | src/main/java/pl/planzy/scrappers/mapper/impl/EventMapperGoingApp.java:67 | a path that already holds `%20` passes the rewrite untouched but decodes to a blank, so it is not recovered |
| `JavaString.RemoveChar` | src/main/java/pl/planzy/scrappers/mapper/impl/EventMapperEbilet.java:93 | removing quotes leaves no quote, keeps every other character with its multiplicity, and leaves quote-free text unchanged |
| `JavaString.RemoveCharAppend` | src/main/java/pl/planzy/scrappers/mapper/impl/EventMapperEbilet.java:93 | removal works piece by piece, so the characters kept stay in their original order |
| `Canonical.ToNode` | src/main/java/pl/planzy/scrappers/mapper/impl/EventMapperEbilet.java:123-135 | the canonical node answers each of the twelve field names with the record's text |
| `Canonical.KeptIsOrderedSubsequence` | src/main/java/pl/planzy/scrappers/mapper/impl/EventMapperEbilet.java:30-38 | the mapped list is the successful results in input order; every position left out is one whose mapping threw |
| `Canonical.MapAll` | src/main/java/pl/planzy/scrappers/mapper/impl/EventMapperGoingApp.java:24-32 | the try/catch loop computes the kept results, never more than the input |
| `NameParsing.ParseNames` | src/main/java/pl/planzy/service/EventIntegrationService.java:326-331 | the result is the trimmed non-empty pieces between commas, including those after trailing commas; no name is empty, holds a comma, or has surrounding blanks |
| `NameParsing.ParseJoinedNames` | src/main/java/pl/planzy/service/EventIntegrationService.java:326-331 | names joined with `", "` parse back to their trimmed non-empty set when none holds a comma |
| `NameParsing.ParseJoinedNamesTrailing` | src/main/java/pl/planzy/service/EventIntegrationService.java:326-331 | a trailing `", "` after such a join changes nothing in the parsed set |
| `NameParsing.JoinTextsParse` | src/main/java/pl/planzy/scrappers/mapper/impl/EventMapperEbilet.java:77-79 | the joined text of a JSON array of strings and nulls parses in the service to the element texts, trimmed and without empty ones, when none holds a comma; a JSON null element arrives as the name `"null"` |
| `NameParsing.BlankParsesToNothing` | src/main/java/pl/planzy/service/EventIntegrationService.java:326-331 | a text of blanks only parses to no name |
| `EbiletMapper.MapEbiletEvent` | src/main/java/pl/planzy/scrappers/mapper/impl/EventMapperEbilet.java:52-136 | a record maps exactly when nothing throws; the result names eBilet as its source, its thumbnail lies under the eBilet media path, and title, category name and description are copied |
| `EbiletMapper.MapEventsKeepsMappable` | src/main/java/pl/planzy/scrappers/mapper/impl/EventMapperEbilet.java:27-38 | `mapEvents` keeps the records in order, each at an increasing input position, and drops a record exactly when it cannot be mapped |
| `EbiletMapper.BadDateDropsRecord` | src/main/java/pl/planzy/scrappers/mapper/impl/EventMapperEbilet.java:138-146 | a date that passes the guard but does not parse makes the mapping throw, so the record is dropped instead of defaulted |
| `EbiletMapper.StartDateRule` | src/main/java/pl/planzy/scrappers/mapper/impl/EventMapperEbilet.java:54-65 | the start date is `"null"` exactly when the date guard fails, and otherwise the decimal epoch seconds of the parsed date |
| `EbiletMapper.EndDateRule` | src/main/java/pl/planzy/scrappers/mapper/impl/EventMapperEbilet.java:67-75 | the end date is `"null"` exactly when the `dateTo` guard fails, and otherwise the decimal epoch seconds of the parsed `dateTo` |
| `EbiletMapper.UrlRule` | src/main/java/pl/planzy/scrappers/mapper/impl/EventMapperEbilet.java:89-98 | the URL is `linkTo` verbatim, or, when `linkTo` is the `"null"` literal, the site root + category + quote-free subcategory + slug |
| `EbiletMapper.OtherFields` | src/main/java/pl/planzy/scrappers/mapper/impl/EventMapperEbilet.java:77-87 | artists are the joined array or the placeholder; place is `nextEventPlace.customName` and location `nextEventPlace.city` when present, and otherwise their placeholders |
| `EbiletMapper.TagsLayout` | src/main/java/pl/planzy/scrappers/mapper/impl/EventMapperEbilet.java:100-121 | the tag string is the included parts joined with `", "`, plus a trailing `", "` when the subcategory is left out after some part |
| `EbiletMapper.TagsParseToParts` | src/main/java/pl/planzy/scrappers/mapper/impl/EventMapperEbilet.java:100-121 | whatever the trailing separator, the service parses the tag string to exactly the trimmed included parts |
| `EbiletMapper.TrailingSeparatorKept` | src/main/java/pl/planzy/scrappers/mapper/impl/EventMapperEbilet.java:109-114 | an included category with no subcategory after it leaves the tag string ending in `", "` |
| `EbiletMapper.SubcategoryGuardReadsCategory` | src/main/java/pl/planzy/scrappers/mapper/impl/EventMapperEbilet.java:116-121 | a subcategory without a category field makes the record fail; a JSON-null category hides the subcategory |
| `GoingAppMapper.MapGoingAppEvent` | src/main/java/pl/planzy/scrappers/mapper/impl/EventMapperGoingApp.java:40-83 | a record maps exactly when its artist and tag arrays hold only strings and nulls; the source is always GoingApp |
| `GoingAppMapper.MapEvents` | src/main/java/pl/planzy/scrappers/mapper/impl/EventMapperGoingApp.java:20-38 | the mapped list is never longer than the input |
| `GoingAppMapper.MapEventsKeepsMappable` | src/main/java/pl/planzy/scrappers/mapper/impl/EventMapperGoingApp.java:20-38 | the output keeps input order and drops exactly the records with a non-string artist or tag |
| `GoingAppMapper.UrlRule` | src/main/java/pl/planzy/scrappers/mapper/impl/EventMapperGoingApp.java:58-60 | the URL is built from both slugs, or is the one shared placeholder when either slug is missing |
| `GoingAppMapper.TimestampsPassThrough` | src/main/java/pl/planzy/scrappers/mapper/impl/EventMapperGoingApp.java:42-48 | timestamps pass through verbatim, or become `"null"` when missing or JSON null |
| `GoingAppMapper.ThumbnailRule` | src/main/java/pl/planzy/scrappers/mapper/impl/EventMapperGoingApp.java:66-68 | the thumbnail is the image root followed by a blank-free suffix two characters longer per blank of the source path, which decodes back to that path when it holds no `%20` of its own; without a thumbnail it is the placeholder |
| `GoingAppMapper.LocationAndTags` | src/main/java/pl/planzy/scrappers/mapper/impl/EventMapperGoingApp.java:54-64 | location is the first location name or the placeholder; the tags are the joined array or empty, and parse in the service to the trimmed names |
| `GoingAppMapper.Placeholders` | src/main/java/pl/planzy/scrappers/mapper/impl/EventMapperGoingApp.java:70-82 | name, place, category and description are copied when present and not JSON null, and otherwise take their placeholders; artists are the joined array, or the placeholder when not an array |
| `RelationshipHelper.AddEntitiesWithoutDuplicates` | src/main/java/pl/planzy/entity/EntityRelationshipHelper.java:31-63 | an empty input changes nothing and returns 0; otherwise the admitted new entities are appended in order, and the count is the number appended |
| `RelationshipHelper.CountBounded` | src/main/java/pl/planzy/entity/EntityRelationshipHelper.java:50-62 | never more entities are added than offered |
| `RelationshipHelper.NullIdsAlwaysAppended` | src/main/java/pl/planzy/entity/EntityRelationshipHelper.java:52-58 | every new entity whose id is null is appended, in input order |
| `RelationshipHelper.AdmittedIdsFresh` | src/main/java/pl/planzy/entity/EntityRelationshipHelper.java:41-60 | the appended entities carry pairwise distinct ids, none already present, all taken from the new entities |
| `RelationshipHelper.DistinctIdsPreserved` | src/main/java/pl/planzy/entity/EntityRelationshipHelper.java:41-60 | a collection without duplicate ids still has none after the call |
| `RelationshipHelper.NewIdsCovered` | src/main/java/pl/planzy/entity/EntityRelationshipHelper.java:41-60 | every non-null id among the new entities is present after the call |
| `RelationshipHelper.SecondCallAddsNothing` | src/main/java/pl/planzy/entity/EntityRelationshipHelper.java:31-63 | repeating the call with the same entities, all with ids, appends nothing |
| `RefCache.FindByName` | src/main/java/pl/planzy/service/EventIntegrationService.java:250 | a row is found exactly when the name is in the table, and it is the first row with that name |
| `RefCache.Resolve` | src/main/java/pl/planzy/service/EventIntegrationService.java:248-259 | a cache hit answers from the cache and changes nothing; a miss caches the row found by name or appends a new one; existing rows, the validity and coverage of the cache, and unique names are kept |
| `RefCache.MissCreatesRow` | src/main/java/pl/planzy/service/EventIntegrationService.java:248-259 | when the cache holds every row name, a miss always appends a new row |
| `RefCache.ResolveAll` | src/main/java/pl/planzy/service/EventIntegrationService.java:352-364 | resolving names one by one caches every one of them and returns ids of rows carrying exactly those names |
| `RefCache.GetOrCreate` | src/main/java/pl/planzy/service/EventIntegrationService.java:336-368 | the ids returned designate exactly the requested names; all requested names end up cached; with no miss nothing changes; rows are only appended and stay unique |
| `RefCache.PreloadTable` | src/main/java/pl/planzy/service/EventIntegrationService.java:72-80 | after the preload every row name is cached, each to a row carrying that name, whatever the cache held before; a valid cache stays valid |
| `RefCache.PreloadKeepsValidEntries` | src/main/java/pl/planzy/service/EventIntegrationService.java:72-80 | on a table with unique names the preload does not change any valid cache entry |
| `EventStore.Preload` | src/main/java/pl/planzy/service/EventIntegrationService.java:68-88 | the preload only reads the store, caches every row name, and adds every stored URL to the processed set |
| `EventStore.GetEventUrl` | src/main/java/pl/planzy/service/EventIntegrationService.java:231-234 | the URL is null exactly when the `url` field is missing |
| `EventStore.ParseTimestamp` | src/main/java/pl/planzy/service/EventIntegrationService.java:410-422 | `"null"` and non-long texts give null; a long gives its local time; a failing conversion throws and is not caught |
| `EventStore.DateOr` | src/main/java/pl/planzy/service/EventIntegrationService.java:200-206 | a date field fails exactly when it is present and its conversion throws; otherwise it is the parsed local time, or the fallback when the field is missing or parses to null |
| `EventStore.CreateEventFromNode` | src/main/java/pl/planzy/service/EventIntegrationService.java:193-226 | an event is created exactly when neither date throws and `url` is present; it carries that URL and no place; each other text field is copied when present and otherwise takes its placeholder; the start is the parsed date or `now`, the end the parsed date or `now` plus an hour |
| `EventStore.BareRecordDefaults` | src/main/java/pl/planzy/service/EventIntegrationService.java:193-226 | a record holding only a URL becomes an event of the six placeholders, starting at `now` and ending an hour later |
| `EventStore.AssignPlace` | src/main/java/pl/planzy/service/EventIntegrationService.java:239-263 | with no place text nothing changes; otherwise only the place table, the place cache and this event's place change, and the event points at the row of its trimmed place name |
| `EventStore.NamesField` | src/main/java/pl/planzy/service/EventIntegrationService.java:270-272 | names are read exactly when the field is present and its untrimmed text is not empty; each name read is non-empty, trimmed and comma-free |
| `EventStore.BlankNamesField` | src/main/java/pl/planzy/service/EventIntegrationService.java:270-272 | a field of blanks passes the emptiness guard yet names nothing |
| `EventStore.LinkNames` | src/main/java/pl/planzy/service/EventIntegrationService.java:270-282 | the event ends linked to exactly its old links plus the requested names; no other event's links change; tables only grow and stay unique |
| `EventStore.ProcessEvent` | src/main/java/pl/planzy/service/EventIntegrationService.java:164-188 | null exactly for a missing or already processed URL; failure exactly when creation throws; a saved event gets the next id |
| `EventStore.ProcessRelationships` | src/main/java/pl/planzy/service/EventIntegrationService.java:268-301 | only the artist and tag tables, caches and links change; a field without names changes nothing of its kind; tables and links only grow, and only this event gains links (the linked names are stated by `EventStore.SavedLinks`) |
| `EventStore.SavedShape` | src/main/java/pl/planzy/service/EventIntegrationService.java:177-187 | a save appends exactly one row with the record's fields and URL, keeps all earlier rows, and adds links only for the new event |
| `EventStore.SavedInvariants` | src/main/java/pl/planzy/service/EventIntegrationService.java:177-187 | a save keeps the caches valid and covering, the name tables unique, and the links pointing at existing events |
| `EventStore.SavedLinks` | src/main/java/pl/planzy/service/EventIntegrationService.java:268-301 | the saved event is linked to exactly the rows of its parsed artist names and of its parsed tag names |
| `Ingest.Settle` | src/main/java/pl/planzy/service/EventIntegrationService.java:134-139 | once 50 saves are pending, one flush is counted and the pending count restarts at 0; below 50 nothing changes; no other counter ever changes |
| `Ingest.Judge` | src/main/java/pl/planzy/service/EventIntegrationService.java:116-143 | a record is skipped exactly when it has no URL or a processed one, is an error exactly when processEvent throws, and otherwise is saved with its URL recorded as processed |
| `Ingest.Tally` | src/main/java/pl/planzy/service/EventIntegrationService.java:119-145 | each verdict counts once; a skip leaves the progress counter alone, while an error or a save advances it |
| `Ingest.Step` | src/main/java/pl/planzy/service/EventIntegrationService.java:114-150 | each record counts once; a record with no URL or a seen URL is a skip and changes nothing else; no save means no world change; only successes and errors raise the processed total |
| `Ingest.BatchesCover` | src/main/java/pl/planzy/service/EventIntegrationService.java:107-109 | the batches cover every record once, in order, with 1 to 20 records each and exactly 20 in all but the last |
| `Ingest.RunFromIsFold` | src/main/java/pl/planzy/service/EventIntegrationService.java:107-155 | batching is transparent: the batch loop equals the plain per-record loop, plus one flush per batch |
| `Ingest.RunCounters` | src/main/java/pl/planzy/service/EventIntegrationService.java:100-155 | after a call, successes + skips + errors = records, processed total = successes + errors, pending flushes = successes mod 50, flushes = batches + successes div 50 |
| `Ingest.RunBatches` | src/main/java/pl/planzy/service/EventIntegrationService.java:107-155 | the two nested loops, under any per-record judgement, compute the batch loop: records in batches of 20 from index 0, a flush after each |
| `Ingest.ProcessScrapedEvents` | src/main/java/pl/planzy/service/EventIntegrationService.java:94-159 | the nested loops compute one call, with the totals above and fewer than 50 saves pending |
| `IngestProps.StepKeepsFresh` | src/main/java/pl/planzy/service/EventIntegrationService.java:116-133 | one record adds at most one event row, exactly when it counts a success, and that row's URL is new |
| `IngestProps.OneEventPerUrl` | src/main/java/pl/planzy/service/EventIntegrationService.java:94-159 | a call keeps every stored row and saves one row per success; the saved URLs are pairwise distinct, none stored or processed before, and all processed afterwards |
| `IngestProps.RunKeepsHealthy` | src/main/java/pl/planzy/service/EventIntegrationService.java:68-159 | on a consistent store a call leaves one row per name, caches that name the right rows and cover every row, links to existing events, and every stored URL processed |
| `IngestProps.FoldHandles` | src/main/java/pl/planzy/service/EventIntegrationService.java:116-133 | after a call every record has no URL, a processed URL, or a date that throws |
| `IngestProps.FoldOverHandled` | src/main/java/pl/planzy/service/EventIntegrationService.java:116-122 | over such records the loop changes nothing and saves nothing; with no throwing date all of them are skips |
| `IngestProps.RunHandles` | src/main/java/pl/planzy/service/EventIntegrationService.java:84-133 | after a call every stored URL is processed, and every record of the call has no URL, a processed URL, or a date that throws |
| `IngestProps.RunOverHandled` | src/main/java/pl/planzy/service/EventIntegrationService.java:116-133 | a call over records already handled saves nothing and leaves the store and the processed set as they were |
| `IngestProps.SecondRunSavesNothing` | src/main/java/pl/planzy/service/EventIntegrationService.java:84-133 | a second call over the same records saves nothing and leaves the store and processed set unchanged; with no throwing date it counts only skips |
| `IngestProps.SameUrlSkippedAfterSave` | src/main/java/pl/planzy/service/EventIntegrationService.java:119-128 | once a URL is saved, a later record with the same URL is a pure skip |
| `Pipeline.TimestampOfDecimal` | src/main/java/pl/planzy/service/EventIntegrationService.java:410-421 | the service reads a long's decimal text back as exactly that long's local time, or throws when the conversion does |
| `Pipeline.EbiletStartDateRoundTrip` | src/main/java/pl/planzy/scrappers/mapper/impl/EventMapperEbilet.java:138-146 | an eBilet start date reaches the service intact: the `"null"` literal reads as no date, and the mapper's epoch seconds parse back to the same instant |
| `Pipeline.RecordFieldsCarriedOver` | src/main/java/pl/planzy/service/EventIntegrationService.java:193-226 | a canonical record, which carries all twelve fields, becomes an event with the record's texts and URL, and its dates are the parsed timestamps or the clock fallbacks |
| `Pipeline.BlankPlaceNamedEmpty` | src/main/java/pl/planzy/service/EventIntegrationService.java:239-245 | a place of blanks only passes the emptiness guard, which runs before trimming, and is looked up under the empty name |
| `Pipeline.UnknownUrlShared` | src/main/java/pl/planzy/scrappers/mapper/impl/EventMapperGoingApp.java:58-60 | every GoingApp record missing a slug arrives at the service with the same URL |
| `Pipeline.UnknownUrlCollision` | src/main/java/pl/planzy/service/EventIntegrationService.java:116-133 | of two GoingApp records without slugs the first is saved and the second is skipped as a duplicate |

## Left out

- `ScrapperService`, the scrapers and the Spring wiring are not part of this
  model. The model starts from the records those components hand over.
- File output, logging (including the progress line every 50 records) and the
  `mapped_events.json` dump are I/O. They change no state the model tracks.
- `entityManager.flush()` / `clear()` are only counted (`flushes`,
  `flushCounter`). Their effect on the persistence context is not modelled,
  nor can they fail.
- Repository and JDBC failures are not modelled. `save`, `saveAndFlush`,
  `findAll`, `findByName` and the link-count queries always succeed. The
  only exceptions modelled are those the shown code raises itself:
  - a missing field dereferenced;
  - a non-string array element;
  - an unparseable date.
- The clock is read once per call: `Env.now` is one value for all records. The
  source calls `LocalDateTime.now()` anew for every record, and separately for
  the start and the end. So in the model the end of a fully defaulted event is
  exactly 3600 s after its start, and all records of a call share the fallback
  time; in the source the gap can exceed an hour and the fallbacks differ.
- `LocalDateTime.now()`, time zones, and the epoch and `LocalDateTime.parse`
  conversions are parameters (`Env.now`, `Env.toLocal`, `parseDate`). A
  date-time is a count of local seconds, and `plusHours(1)` adds 3600.
- The iteration order of a `HashSet` of names is the parameter
  `Env.enumerate`. Only `EventStore.SavedLinks` needs it to list each set
  exactly. The order can decide which ids new rows get, but never which names
  get linked.
- `Long.parseLong` accepts only ASCII digits here. Java also accepts other
  Unicode decimal digits.
- Strings are sequences of Unicode scalar values, not UTF-16 code units.
- Jackson prints numbers through `Num(lexeme)`; the number formatting itself
  is not modelled.
- `parseTimestamp(null)` cannot happen: `asText()` never returns null.
- `findByName` on a table holding the same name twice returns the first row.
  The repository query would throw. The model proves that such a table never
  arises from a consistent store (`IngestProps.RunKeepsHealthy`).
- In the helper, the `Collection` is a list, so `add` always appends. A null
  `newEntities` is the empty sequence.
- `addArtistsToEvent` and `addTagsToEvent` wrap the helper with the
  `Event`-to-artists and `Event`-to-tags accessors. The event entity in this
  repository version has no such fields, so the model links through the
  service's link sets instead.
- The entity classes are older than the service. The event's fields and
  relations are taken from how the service uses them.
- `processEvent` returning null inside the loop is unreachable. The loop has
  already rejected both null cases, so the model has no branch for it.
- `mapper.convertValue` of a nested array or object element is treated like
  any other non-string element: the join throws.
- `EbiletMapper.MapEvents`: the contract states only the length bound. The
  content is stated by `EbiletMapper.MapEventsKeepsMappable`.
- `GoingAppMapper.MapEvents`: the contract states only the length bound. The
  content is stated by `GoingAppMapper.MapEventsKeepsMappable`.
- `GoingAppMapper.ThumbnailRule`: the decoding round trip is stated only for
  paths holding no `%20` of their own. `JavaString.EscapeNotRecovered` shows
  that it fails for the others.
- `Pipeline.EbiletStartDateRoundTrip` requires the parsed epoch seconds to fit
  in a long. `toEpochSecond` of every `LocalDateTime` does, but `parseDate`
  is a free parameter here.
