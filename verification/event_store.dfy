/**
 One record through the ingestion service: `getEventUrl`, `parseTimestamp`,
 `createEventFromNode`, `assignPlace`, `processRelationships` and
 `processEvent`, over an abstract store.

 The store keeps the event rows, the three name tables and the two link
 sets; an id is a position in its table. The service state is what the
 singleton service keeps between calls: the three name caches and the set of
 URLs already processed. The environment carries the frozen clock, the
 epoch-to-local-time conversion and the iteration order of hash sets.
 */
module EventStore {
  import opened Wrappers
  import opened Json
  import JavaString
  import JavaLong
  import NameParsing
  import opened RefCache

  /** LocalDateTime.plusHours(1), in seconds. */
  const ONE_HOUR := 3600

  /** An event row. Date-times are local seconds. */
  datatype EventRow = EventRow(
    name: string,
    startDate: int,
    endDate: int,
    thumbnail: string,
    url: string,
    location: string,
    category: string,
    description: string,
    source: string,
    place: Option<nat>)

  /** (event id, artist or tag id). */
  type Link = (nat, nat)

  datatype Store = Store(
    events: seq<EventRow>,
    places: Table,
    artists: Table,
    tags: Table,
    eventArtists: set<Link>,
    eventTags: set<Link>)

  datatype Service = Service(
    placeCache: Cache,
    artistCache: Cache,
    tagCache: Cache,
    processedUrls: set<string>)

  datatype World = World(svc: Service, store: Store)

  /** `now` is LocalDateTime.now(), read as one value per run; `toLocal` is
      LocalDateTime.ofInstant(Instant.ofEpochSecond(s), systemDefault()), None
      when it throws DateTimeException; `enumerate` is the iteration order of
      a HashSet of names. */
  datatype Env = Env(
    now: int,
    toLocal: int -> Option<int>,
    enumerate: set<string> -> seq<string>)

  /** The hash-set iteration order lists each set exactly. */
  ghost predicate ValidOrder(env: Env) {
    forall s :: Enumerates(env.enumerate(s), s)
  }

  function UrlsOf(events: seq<EventRow>): set<string> {
    set i | 0 <= i < |events| :: events[i].url
  }

  predicate CachesValid(w: World) {
    && CacheValid(w.store.places, w.svc.placeCache)
    && CacheValid(w.store.artists, w.svc.artistCache)
    && CacheValid(w.store.tags, w.svc.tagCache)
  }

  predicate CachesCover(w: World) {
    && Covers(w.store.places, w.svc.placeCache)
    && Covers(w.store.artists, w.svc.artistCache)
    && Covers(w.store.tags, w.svc.tagCache)
  }

  predicate TablesUnique(s: Store) {
    Unique(s.places) && Unique(s.artists) && Unique(s.tags)
  }

  /** preloadCaches: every row of the three tables is put into its cache and
      every stored event URL joins the processed set. The store is only read. */
  function Preload(w: World): (r: World)
    ensures r.store == w.store
    ensures r.svc.processedUrls == w.svc.processedUrls + UrlsOf(w.store.events)
    ensures CachesCover(r)
    ensures CachesValid(w) ==> CachesValid(r)
  {
    var s := w.store;
    World(
      Service(
        RefCache.PreloadTable(s.places, w.svc.placeCache),
        RefCache.PreloadTable(s.artists, w.svc.artistCache),
        RefCache.PreloadTable(s.tags, w.svc.tagCache),
        w.svc.processedUrls + UrlsOf(s.events)),
      s)
  }

  /** getEventUrl: the text of `url`, Java null when the field is missing. */
  function GetEventUrl(e: Node): (r: Option<string>)
    ensures r.Some? <==> Has(e, "url")
    ensures r.Some? ==> r.value == AsText(Get(e, "url").value)
  {
    TextOf(e, "url")
  }

  /** The outcome of parseTimestamp: Java null, a local date-time, or a
      DateTimeException that the NumberFormatException handler lets through. */
  datatype Stamp = Absent | At(local: int) | Fault

  /** parseTimestamp. */
  function ParseTimestamp(text: string, toLocal: int -> Option<int>): (r: Stamp)
    ensures r.Absent? <==> text == "null" || JavaLong.ParseLong(text).None?
    ensures r.At? <==>
      && text != "null" && JavaLong.ParseLong(text).Some?
      && toLocal(JavaLong.ParseLong(text).value).Some?
    ensures r.At? ==> toLocal(JavaLong.ParseLong(text).value) == Some(r.local)
  {
    if text == "null" then Absent
    else
      match JavaLong.ParseLong(text)
      case None => Absent
      case Some(seconds) =>
        match toLocal(seconds)
        case None => Fault
        case Some(t) => At(t)
  }

  /** A present date field whose text makes parseTimestamp throw. */
  predicate StampFaults(e: Node, key: string, toLocal: int -> Option<int>) {
    Has(e, key) && ParseTimestamp(AsText(Get(e, key).value), toLocal).Fault?
  }

  /** `node != null ? node.asText() : default`. A JSON null is present and
      reads as "null". */
  function FieldOr(e: Node, key: string, default: string): string {
    match Get(e, key)
    case None => default
    case Some(n) => AsText(n)
  }

  /** A text field of createEventFromNode: the node's text when the field is
      present (a JSON null reads "null"), the placeholder when it is missing. */
  predicate CopiedOr(e: Node, key: string, placeholder: string, value: string) {
    if Has(e, key) then value == AsText(Get(e, key).value) else value == placeholder
  }

  /** A date field of createEventFromNode: the local time parseTimestamp gives
      when there is one, the fallback when the field is missing or parses to null. */
  predicate DatedOr(e: Node, key: string, toLocal: int -> Option<int>, fallback: int, value: int) {
    if Has(e, key) && ParseTimestamp(AsText(Get(e, key).value), toLocal).At?
    then value == ParseTimestamp(AsText(Get(e, key).value), toLocal).local
    else value == fallback
  }

  /** The date of `key`, or `fallback` when it is missing or parses to null;
      None when the parse throws. */
  function DateOr(e: Node, key: string, toLocal: int -> Option<int>, fallback: int): (r: Option<int>)
    ensures r.None? <==> StampFaults(e, key, toLocal)
    ensures r.Some? ==> DatedOr(e, key, toLocal, fallback, r.value)
  {
    match Get(e, key)
    case None => Some(fallback)
    case Some(n) =>
      match ParseTimestamp(AsText(n), toLocal)
      case Absent => Some(fallback)
      case At(t) => Some(t)
      case Fault => None
  }

  /** createEventFromNode. It throws when a date's conversion throws, or when
      `url` is missing; every other field has a placeholder. */
  function CreateEventFromNode(e: Node, env: Env): (r: Option<EventRow>)
    ensures r.Some? <==>
      && !StampFaults(e, "start_date", env.toLocal)
      && !StampFaults(e, "end_date", env.toLocal)
      && Has(e, "url")
    ensures r.Some? ==> r.value.url == AsText(Get(e, "url").value) && r.value.place.None?
    ensures r.Some? ==>
      && CopiedOr(e, "event_name", "Unknown Event", r.value.name)
      && CopiedOr(e, "thumbnail", "No thumbnail", r.value.thumbnail)
      && CopiedOr(e, "location", "Unknown Location", r.value.location)
      && CopiedOr(e, "category", "Unknown Category", r.value.category)
      && CopiedOr(e, "description", "No description available", r.value.description)
      && CopiedOr(e, "source", "Unknown Source", r.value.source)
    ensures r.Some? ==>
      && DatedOr(e, "start_date", env.toLocal, env.now, r.value.startDate)
      && DatedOr(e, "end_date", env.toLocal, env.now + ONE_HOUR, r.value.endDate)
  {
    var startDate :- DateOr(e, "start_date", env.toLocal, env.now);
    var endDate :- DateOr(e, "end_date", env.toLocal, env.now + ONE_HOUR);
    var url :- TextOf(e, "url");
    Some(EventRow(
      FieldOr(e, "event_name", "Unknown Event"),
      startDate,
      endDate,
      FieldOr(e, "thumbnail", "No thumbnail"),
      url,
      FieldOr(e, "location", "Unknown Location"),
      FieldOr(e, "category", "Unknown Category"),
      FieldOr(e, "description", "No description available"),
      FieldOr(e, "source", "Unknown Source"),
      None))
  }

  /** A record carrying only its URL becomes an event of placeholders, starting
      at the clock's time and ending an hour later. */
  lemma BareRecordDefaults(url: string, env: Env)
    ensures CreateEventFromNode(Object(map["url" := Text(url)]), env)
         == Some(EventRow("Unknown Event", env.now, env.now + ONE_HOUR, "No thumbnail", url,
                          "Unknown Location", "Unknown Category", "No description available",
                          "Unknown Source", None))
  {
    var e := Object(map["url" := Text(url)]);
    assert !Has(e, "start_date") && !Has(e, "end_date");
    assert !Has(e, "event_name") && !Has(e, "thumbnail") && !Has(e, "location");
    assert !Has(e, "category") && !Has(e, "description") && !Has(e, "source");
  }

  /** The guard of assignPlace: `place` is present and its text is not empty.
      It is tested before trimming. */
  predicate PlaceGiven(e: Node) {
    Has(e, "place") && AsText(Get(e, "place").value) != ""
  }

  /** The name assignPlace looks up: the trimmed text. */
  function PlaceName(e: Node): string
    requires Has(e, "place")
  {
    JavaString.Trim(AsText(Get(e, "place").value))
  }

  /** assignPlace: resolve the trimmed place name through the place cache and
      point the event at that row. */
  function AssignPlace(w: World, e: Node, eid: nat): (r: World)
    requires eid < |w.store.events|
    ensures !PlaceGiven(e) ==> r == w
    ensures r.svc == w.svc.(placeCache := r.svc.placeCache)
    ensures r.store == w.store.(places := r.store.places, events := r.store.events)
    ensures |r.store.events| == |w.store.events|
    ensures forall i :: 0 <= i < |w.store.events| && i != eid ==> r.store.events[i] == w.store.events[i]
    ensures r.store.events[eid] == w.store.events[eid].(place := r.store.events[eid].place)
    ensures w.store.places <= r.store.places
    ensures Unique(w.store.places) ==> Unique(r.store.places)
    ensures Covers(w.store.places, w.svc.placeCache) ==> Covers(r.store.places, r.svc.placeCache)
    ensures CacheValid(w.store.places, w.svc.placeCache) ==> CacheValid(r.store.places, r.svc.placeCache)
    ensures PlaceGiven(e) && CacheValid(w.store.places, w.svc.placeCache) ==>
      && r.store.events[eid].place.Some?
      && r.store.events[eid].place.value < |r.store.places|
      && r.store.places[r.store.events[eid].place.value] == PlaceName(e)
  {
    if !PlaceGiven(e) then w
    else
      var q := Resolve(w.store.places, w.svc.placeCache, PlaceName(e));
      var row := w.store.events[eid].(place := Some(q.id));
      World(
        w.svc.(placeCache := q.cache),
        w.store.(places := q.table, events := w.store.events[eid := row]))
  }

  /** The names of the rows linked to event `eid`. */
  function LinkedNames(links: set<Link>, table: Table, eid: nat): set<string> {
    set p | p in links && p.0 == eid && p.1 < |table| :: table[p.1]
  }

  datatype Linked = Linked(table: Table, cache: Cache, links: set<Link>)

  /** The names field of processRelationships: present, non-empty text,
      parsed with parseNames; None when the guard fails. */
  function NamesField(e: Node, key: string): (r: Option<set<string>>)
    ensures r.Some? <==> Has(e, key) && AsText(Get(e, key).value) != ""
    ensures r.Some? ==> r.value == NameParsing.ParseNames(AsText(Get(e, key).value))
    ensures r.Some? ==> "" !in r.value && forall x :: x in r.value ==> ',' !in x && JavaString.Trim(x) == x
  {
    if Has(e, key) && AsText(Get(e, key).value) != ""
    then Some(NameParsing.ParseNames(AsText(Get(e, key).value)))
    else None
  }

  /** The guard tests the untrimmed text: a field of blanks passes it and is
      parsed, but names nothing, so nothing is linked. */
  lemma BlankNamesField(e: Node, key: string)
    requires Has(e, key) && AsText(Get(e, key).value) != ""
    requires forall k :: 0 <= k < |AsText(Get(e, key).value)| ==> JavaString.IsTrimmable(AsText(Get(e, key).value)[k])
    ensures NamesField(e, key) == Some({})
  {
    NameParsing.BlankParsesToNothing(AsText(Get(e, key).value));
  }

  /** One half of processRelationships: get or create the named rows, then
      link each one the link set does not hold yet. */
  function LinkNames(t: Table, c: Cache, links: set<Link>, eid: nat, names: Option<set<string>>,
                     enumerate: set<string> -> seq<string>): (r: Linked)
    ensures names.None? ==> r == Linked(t, c, links)
    ensures t <= r.table
    ensures Unique(t) ==> Unique(r.table)
    ensures Covers(t, c) ==> Covers(r.table, r.cache)
    ensures CacheValid(t, c) ==> CacheValid(r.table, r.cache)
    ensures links <= r.links
    ensures forall p :: p in r.links && p.0 != eid ==> p in links
    ensures names.Some? && CacheValid(t, c)
            && Enumerates(enumerate(Misses(c, names.value)), Misses(c, names.value)) ==>
      && CacheValid(r.table, r.cache)
      && LinkedNames(r.links, r.table, eid) == LinkedNames(links, r.table, eid) + names.value
  {
    match names
    case None => Linked(t, c, links)
    case Some(ns) =>
      var b := GetOrCreate(t, c, ns, enumerate);
      var added := set id | id in b.ids && (eid, id) !in links :: (eid, id);
      LinkNamesNames(links, b.table, eid, b.ids, added);
      Linked(b.table, b.cache, links + added)
  }

  lemma LinkNamesNames(links: set<Link>, t: Table, eid: nat, ids: set<nat>, added: set<Link>)
    requires added == set id | id in ids && (eid, id) !in links :: (eid, id)
    ensures forall p :: p in links + added && p.0 != eid ==> p in links
    ensures LinkedNames(links + added, t, eid) == LinkedNames(links, t, eid) + NamesOf(t, ids)
  {
    forall x | x in NamesOf(t, ids) ensures x in LinkedNames(links + added, t, eid) {
      var id :| id in ids && id < |t| && t[id] == x;
      assert (eid, id) in links + added;
    }
  }

  /** processRelationships: artists first, then tags. */
  function ProcessRelationships(w: World, e: Node, eid: nat, env: Env): (r: World)
    ensures r.svc == w.svc.(artistCache := r.svc.artistCache, tagCache := r.svc.tagCache)
    ensures r.store == w.store.(artists := r.store.artists, tags := r.store.tags,
                                eventArtists := r.store.eventArtists, eventTags := r.store.eventTags)
    ensures NamesField(e, "artists").None? ==>
      && r.store.artists == w.store.artists && r.svc.artistCache == w.svc.artistCache
      && r.store.eventArtists == w.store.eventArtists
    ensures NamesField(e, "tags").None? ==>
      && r.store.tags == w.store.tags && r.svc.tagCache == w.svc.tagCache
      && r.store.eventTags == w.store.eventTags
    ensures w.store.artists <= r.store.artists && w.store.tags <= r.store.tags
    ensures w.store.eventArtists <= r.store.eventArtists && w.store.eventTags <= r.store.eventTags
    ensures forall p :: p in r.store.eventArtists && p.0 != eid ==> p in w.store.eventArtists
    ensures forall p :: p in r.store.eventTags && p.0 != eid ==> p in w.store.eventTags
  {
    var s := w.store;
    var a := LinkNames(s.artists, w.svc.artistCache, s.eventArtists, eid, NamesField(e, "artists"), env.enumerate);
    var g := LinkNames(s.tags, w.svc.tagCache, s.eventTags, eid, NamesField(e, "tags"), env.enumerate);
    World(
      w.svc.(artistCache := a.cache, tagCache := g.cache),
      s.(artists := a.table, tags := g.table, eventArtists := a.links, eventTags := g.links))
  }

  /** What processEvent returns: null (no URL, or a URL already processed),
      an exception, or the saved event. */
  datatype Outcome = NotSaved | Failed | Saved(world: World, id: nat)

  /** processEvent: the URL checks again, then create, save, assign the place
      and the relationships. Nothing is saved when creation throws. */
  function ProcessEvent(w: World, e: Node, env: Env): (r: Outcome)
    ensures r.NotSaved? <==> GetEventUrl(e).None? || GetEventUrl(e).value in w.svc.processedUrls
    ensures r.Failed? <==> !r.NotSaved? && CreateEventFromNode(e, env).None?
    ensures r.Saved? ==> r.id == |w.store.events| && r.world.svc.processedUrls == w.svc.processedUrls
  {
    match GetEventUrl(e)
    case None => NotSaved
    case Some(url) =>
      if url in w.svc.processedUrls then NotSaved
      else
        match CreateEventFromNode(e, env)
        case None => Failed
        case Some(row) =>
          Saved(SaveRecord(w, e, row, env), |w.store.events|)
  }

  /** saveAndFlush(newEvent), then assignPlace and processRelationships on
      the saved row. */
  function SaveRecord(w: World, e: Node, row: EventRow, env: Env): World {
    var eid := |w.store.events|;
    var w1 := w.(store := w.store.(events := w.store.events + [row]));
    ProcessRelationships(AssignPlace(w1, e, eid), e, eid, env)
  }

  /** Every link names an event row that exists. */
  predicate LinksBounded(s: Store) {
    && (forall p :: p in s.eventArtists ==> p.0 < |s.events|)
    && (forall p :: p in s.eventTags ==> p.0 < |s.events|)
  }

  /** The names a record asks to link under `key` (none when the guard fails). */
  function RequestedNames(e: Node, key: string): set<string> {
    match NamesField(e, key)
    case None => {}
    case Some(ns) => ns
  }

  /** A saved record appends exactly one event row, carrying the record's
      fields and URL, and leaves every earlier row as it was. The name tables
      and the link sets only grow, and no link of another event is added. */
  lemma SavedShape(w: World, e: Node, env: Env)
    requires ProcessEvent(w, e, env).Saved?
    ensures var r := ProcessEvent(w, e, env).world.store;
      var id := |w.store.events|;
      var row := CreateEventFromNode(e, env).value;
      && |r.events| == id + 1
      && w.store.events <= r.events
      && r.events[id] == row.(place := r.events[id].place)
      && r.events[id].url == GetEventUrl(e).value
      && w.store.places <= r.places && w.store.artists <= r.artists && w.store.tags <= r.tags
      && w.store.eventArtists <= r.eventArtists && w.store.eventTags <= r.eventTags
      && (forall p :: p in r.eventArtists && p.0 != id ==> p in w.store.eventArtists)
      && (forall p :: p in r.eventTags && p.0 != id ==> p in w.store.eventTags)
  {
    SaveRecordShape(w, e, CreateEventFromNode(e, env).value, env);
  }

  lemma SaveRecordShape(w: World, e: Node, row: EventRow, env: Env)
    ensures var r := SaveRecord(w, e, row, env).store;
      var id := |w.store.events|;
      && |r.events| == id + 1
      && w.store.events <= r.events
      && r.events[id] == row.(place := r.events[id].place)
      && w.store.places <= r.places && w.store.artists <= r.artists && w.store.tags <= r.tags
      && w.store.eventArtists <= r.eventArtists && w.store.eventTags <= r.eventTags
      && (forall p :: p in r.eventArtists && p.0 != id ==> p in w.store.eventArtists)
      && (forall p :: p in r.eventTags && p.0 != id ==> p in w.store.eventTags)
  {
    var id := |w.store.events|;
    var w1 := w.(store := w.store.(events := w.store.events + [row]));
    var w2 := AssignPlace(w1, e, id);
    assert w2.store.events[..id] == w.store.events by {
      forall i | 0 <= i < id ensures w2.store.events[i] == w.store.events[i] {
        assert w1.store.events[i] == w.store.events[i];
      }
    }
  }

  /** Saving keeps the cache, uniqueness and link invariants. */
  lemma SavedInvariants(w: World, e: Node, env: Env)
    requires ProcessEvent(w, e, env).Saved?
    ensures var r := ProcessEvent(w, e, env).world;
      && (CachesCover(w) ==> CachesCover(r))
      && (CachesValid(w) ==> CachesValid(r))
      && (TablesUnique(w.store) ==> TablesUnique(r.store))
      && (LinksBounded(w.store) ==> LinksBounded(r.store))
  {
    var row := CreateEventFromNode(e, env).value;
    SaveRecordShape(w, e, row, env);
    var eid := |w.store.events|;
    var w1 := w.(store := w.store.(events := w.store.events + [row]));
    var w2 := AssignPlace(w1, e, eid);
    assert ProcessEvent(w, e, env).world == ProcessRelationships(w2, e, eid, env);
    RelationshipsKeepCaches(w2, e, eid, env);
    if LinksBounded(w.store) {
      SavedLinksBounded(w, e, row, env);
    }
  }

  /** processRelationships keeps the caches covering and valid and the name
      tables unique; the place table and cache are not touched. */
  lemma RelationshipsKeepCaches(w: World, e: Node, eid: nat, env: Env)
    ensures var r := ProcessRelationships(w, e, eid, env);
      && (CachesCover(w) ==> CachesCover(r))
      && (CachesValid(w) ==> CachesValid(r))
      && (TablesUnique(w.store) ==> TablesUnique(r.store))
  {
    var s := w.store;
    var a := LinkNames(s.artists, w.svc.artistCache, s.eventArtists, eid, NamesField(e, "artists"), env.enumerate);
    var g := LinkNames(s.tags, w.svc.tagCache, s.eventTags, eid, NamesField(e, "tags"), env.enumerate);
    var r := ProcessRelationships(w, e, eid, env);
    assert r.svc.artistCache == a.cache && r.store.artists == a.table;
    assert r.svc.tagCache == g.cache && r.store.tags == g.table;
    assert r.svc.placeCache == w.svc.placeCache && r.store.places == w.store.places;
  }

  lemma SavedLinksBounded(w: World, e: Node, row: EventRow, env: Env)
    requires LinksBounded(w.store)
    ensures LinksBounded(SaveRecord(w, e, row, env).store)
  {
    SaveRecordShape(w, e, row, env);
    var r := SaveRecord(w, e, row, env).store;
    forall p | p in r.eventArtists ensures p.0 < |r.events| {
      if p.0 != |w.store.events| {
        assert p in w.store.eventArtists;
      }
    }
    forall p | p in r.eventTags ensures p.0 < |r.events| {
      if p.0 != |w.store.events| {
        assert p in w.store.eventTags;
      }
    }
  }

  /** Linking the names of an event no link mentions yet leaves it linked to
      exactly those names. */
  lemma LinkNamesOfNewEvent(t: Table, c: Cache, links: set<Link>, eid: nat, names: Option<set<string>>,
                            enumerate: set<string> -> seq<string>)
    requires CacheValid(t, c)
    requires forall p :: p in links ==> p.0 < eid
    requires names.Some? ==> Enumerates(enumerate(Misses(c, names.value)), Misses(c, names.value))
    ensures var r := LinkNames(t, c, links, eid, names, enumerate);
      LinkedNames(r.links, r.table, eid) == (if names.Some? then names.value else {})
  {
    var r := LinkNames(t, c, links, eid, names, enumerate);
    assert LinkedNames(links, r.table, eid) == {} by {
      forall p | p in links ensures p.0 != eid {
      }
    }
  }

  /** The saved event is linked to exactly the rows of its parsed artist
      names and of its parsed tag names. */
  lemma SavedLinks(w: World, e: Node, env: Env)
    requires ProcessEvent(w, e, env).Saved?
    requires CachesValid(w) && ValidOrder(env) && LinksBounded(w.store)
    ensures var r := ProcessEvent(w, e, env).world.store;
      var id := |w.store.events|;
      && LinkedNames(r.eventArtists, r.artists, id) == RequestedNames(e, "artists")
      && LinkedNames(r.eventTags, r.tags, id) == RequestedNames(e, "tags")
  {
    var row := CreateEventFromNode(e, env).value;
    var id := |w.store.events|;
    var w1 := w.(store := w.store.(events := w.store.events + [row]));
    var w2 := AssignPlace(w1, e, id);
    var s := w2.store;
    assert s.artists == w.store.artists && s.eventArtists == w.store.eventArtists;
    assert s.tags == w.store.tags && s.eventTags == w.store.eventTags;
    assert w2.svc.artistCache == w.svc.artistCache && w2.svc.tagCache == w.svc.tagCache;
    var artists := NamesField(e, "artists");
    var tags := NamesField(e, "tags");
    if artists.Some? {
      assert Enumerates(env.enumerate(Misses(w.svc.artistCache, artists.value)),
                        Misses(w.svc.artistCache, artists.value));
    }
    if tags.Some? {
      assert Enumerates(env.enumerate(Misses(w.svc.tagCache, tags.value)),
                        Misses(w.svc.tagCache, tags.value));
    }
    LinkNamesOfNewEvent(s.artists, w2.svc.artistCache, s.eventArtists, id, artists, env.enumerate);
    LinkNamesOfNewEvent(s.tags, w2.svc.tagCache, s.eventTags, id, tags, env.enumerate);
  }
}
