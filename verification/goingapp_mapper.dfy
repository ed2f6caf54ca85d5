/**
 EventMapperGoingApp: turns one captured GoingApp search hit into a canonical
 record. Every field has a placeholder, so the only way a record fails is an
 artist or tag array holding something other than strings and nulls.
 */
module GoingAppMapper {
  import opened Wrappers
  import opened Json
  import opened JavaString
  import opened Canonical
  import NameParsing

  const EVENT_ROOT := "https://queue.goingapp.pl/wydarzenie/"
  const IMAGE_ROOT := "https://res.cloudinary.com/dr89d8ldb/image/upload/c_fill,h_350,w_405/f_webp/q_auto:eco/v1/rundate/"
  const UNKNOWN_URL := "Unknown URL"
  const SOURCE := "GoingApp"

  /** `has(key) && !get(key).isNull() ? get(key).asText() : default`. */
  function TextOr(e: Node, key: string, default: string): string
  {
    if HasNonNull(e, key) then AsText(Get(e, key).value) else default
  }

  predicate IsArrayField(e: Node, key: string) {
    Has(e, key) && Get(e, key).value.Array?
  }

  /** An array field joined with ", ", or `default` when the field is not an array. */
  function JoinedOr(e: Node, key: string, default: string): Option<string>
  {
    if IsArrayField(e, key) then JoinTexts(Get(e, key).value.items) else Some(default)
  }

  /** The text of the first element of a non-empty `locations_names` array. */
  function LocationText(e: Node): string
  {
    if IsArrayField(e, "locations_names") && |Get(e, "locations_names").value.items| > 0
    then AsText(Get(e, "locations_names").value.items[0])
    else "Unknown Location"
  }

  function UrlText(e: Node): string
  {
    if Has(e, "slug") && Has(e, "rundate_slug")
    then EVENT_ROOT + AsText(Get(e, "slug").value) + "/" + AsText(Get(e, "rundate_slug").value)
    else UNKNOWN_URL
  }

  function ThumbnailText(e: Node): string
  {
    if HasNonNull(e, "thumbnail")
    then IMAGE_ROOT + EncodeSpaces(AsText(Get(e, "thumbnail").value))
    else "Unknown Thumbnail"
  }

  /** Every element of an array field is a string or JSON null. */
  predicate JoinableField(e: Node, key: string) {
    IsArrayField(e, key) ==>
      forall i :: 0 <= i < |Get(e, key).value.items| ==>
        Get(e, key).value.items[i].Text? || Get(e, key).value.items[i].Null?
  }

  /** mapGoingAppEvent. A record maps exactly when its artist and tag arrays
      hold only strings and nulls; the source is always GoingApp. */
  function MapGoingAppEvent(e: Node): (r: Option<Record>)
    ensures r.Some? <==> JoinableField(e, "artists_names") && JoinableField(e, "tags_names")
    ensures r.Some? ==> r.value.source == SOURCE
  {
    var startDate := TextOr(e, "start_date_timestamp", "null");
    var endDate := TextOr(e, "end_date_timestamp", "null");
    var artists :- JoinedOr(e, "artists_names", "Unknown Artist");
    var location := LocationText(e);
    var url := UrlText(e);
    var tags :- JoinedOr(e, "tags_names", "");
    var thumbnail := ThumbnailText(e);
    Some(Record(
      TextOr(e, "name_pl", "Unknown Event"),
      artists, startDate, endDate, thumbnail, url, location,
      TextOr(e, "place_name", "Unknown Place"),
      TextOr(e, "category_name", "Unknown Category"),
      tags,
      TextOr(e, "description_pl", "No Description"),
      SOURCE))
  }

  /** mapEvents: every record in order, minus those whose mapping threw. */
  function MapEvents(data: seq<Node>): (r: seq<Record>)
    ensures |r| <= |data|
  {
    KeptIsOrderedSubsequence(MapGoingAppEvent, data);
    Kept(MapGoingAppEvent, data)
  }

  /** The output is the mapped records in input order; a position is missing
      exactly when its artist or tag array holds a non-string. */
  lemma MapEventsKeepsMappable(data: seq<Node>)
    ensures var idx := KeptIndices(MapGoingAppEvent, data);
      && |idx| == |MapEvents(data)|
      && (forall k, l :: 0 <= k < l < |idx| ==> idx[k] < idx[l])
      && (forall k :: 0 <= k < |idx| ==>
            (idx[k] < |data| && MapGoingAppEvent(data[idx[k]]) == Some(MapEvents(data)[k])))
      && (forall i :: 0 <= i < |data| ==>
            (i in idx <==> JoinableField(data[i], "artists_names") && JoinableField(data[i], "tags_names")))
  {
    KeptIsOrderedSubsequence(MapGoingAppEvent, data);
  }

  /** The URL is built from both slugs when both are present, and is otherwise
      the placeholder, which is the same text for every such record. */
  lemma UrlRule(e: Node)
    requires MapGoingAppEvent(e).Some?
    ensures var url := MapGoingAppEvent(e).value.url;
      && (Has(e, "slug") && Has(e, "rundate_slug") ==>
            url == EVENT_ROOT + AsText(Get(e, "slug").value) + "/" + AsText(Get(e, "rundate_slug").value))
      && (!(Has(e, "slug") && Has(e, "rundate_slug")) ==> url == UNKNOWN_URL)
  {
  }

  /** Timestamps pass through verbatim, or become "null" when missing or JSON null. */
  lemma TimestampsPassThrough(e: Node)
    requires MapGoingAppEvent(e).Some?
    ensures var r := MapGoingAppEvent(e).value;
      && (HasNonNull(e, "start_date_timestamp") ==>
            r.startDate == AsText(Get(e, "start_date_timestamp").value))
      && (!HasNonNull(e, "start_date_timestamp") ==> r.startDate == "null")
      && (HasNonNull(e, "end_date_timestamp") ==>
            r.endDate == AsText(Get(e, "end_date_timestamp").value))
      && (!HasNonNull(e, "end_date_timestamp") ==> r.endDate == "null")
  {
  }

  /** The thumbnail is the image root followed by the source path with every
      blank written as "%20": the suffix has no blank, is two characters longer
      per blank, and decodes back to the source path unless that path held a
      "%20" of its own. */
  lemma ThumbnailRule(e: Node)
    requires MapGoingAppEvent(e).Some?
    ensures var t := MapGoingAppEvent(e).value.thumbnail;
      if HasNonNull(e, "thumbnail") then
        var path := AsText(Get(e, "thumbnail").value);
        && IMAGE_ROOT <= t
        && |t| == |IMAGE_ROOT| + |path| + 2 * multiset(path)[' ']
        && ' ' !in t[|IMAGE_ROOT|..]
        && (NoEscape(path) ==> DecodeSpaces(t[|IMAGE_ROOT|..]) == path)
      else t == "Unknown Thumbnail"
  {
    if HasNonNull(e, "thumbnail") {
      var path := AsText(Get(e, "thumbnail").value);
      var t := MapGoingAppEvent(e).value.thumbnail;
      assert t[|IMAGE_ROOT|..] == EncodeSpaces(path);
      if NoEscape(path) {
        DecodeEncodeSpaces(path);
      }
    }
  }

  /** location is the first of a non-empty `locations_names` array; the tag
      string is `tags_names` joined (empty when not an array), and it parses in
      the ingestion service to the trimmed non-empty names when none holds a comma. */
  lemma LocationAndTags(e: Node)
    requires MapGoingAppEvent(e).Some?
    ensures var r := MapGoingAppEvent(e).value;
      && (IsArrayField(e, "locations_names") && |Get(e, "locations_names").value.items| > 0 ==>
            r.location == AsText(Get(e, "locations_names").value.items[0]))
      && (!(IsArrayField(e, "locations_names") && |Get(e, "locations_names").value.items| > 0) ==>
            r.location == "Unknown Location")
      && (!IsArrayField(e, "tags_names") ==> r.tags == "")
      && (IsArrayField(e, "tags_names") ==>
            var names := ItemTexts(Get(e, "tags_names").value.items);
            && r.tags == Join(names, ", ")
            && ((forall i :: 0 <= i < |names| ==> ',' !in names[i]) ==>
                  NameParsing.ParseNames(r.tags) == NameParsing.TrimmedNames(names)))
  {
    if IsArrayField(e, "tags_names") {
      var names := ItemTexts(Get(e, "tags_names").value.items);
      if forall i :: 0 <= i < |names| ==> ',' !in names[i] {
        NameParsing.ParseJoinedNames(names);
      }
    }
  }

  /** The scalar fields are copied when present and not JSON null, and take
      their placeholders otherwise; the artists are the joined array or the
      placeholder. */
  lemma Placeholders(e: Node)
    requires MapGoingAppEvent(e).Some?
    ensures var r := MapGoingAppEvent(e).value;
      && (!HasNonNull(e, "name_pl") ==> r.eventName == "Unknown Event")
      && (!HasNonNull(e, "place_name") ==> r.place == "Unknown Place")
      && (!HasNonNull(e, "category_name") ==> r.category == "Unknown Category")
      && (!HasNonNull(e, "description_pl") ==> r.description == "No Description")
      && (!IsArrayField(e, "artists_names") ==> r.artists == "Unknown Artist")
      && (HasNonNull(e, "name_pl") ==> r.eventName == AsText(Get(e, "name_pl").value))
      && (HasNonNull(e, "place_name") ==> r.place == AsText(Get(e, "place_name").value))
      && (HasNonNull(e, "category_name") ==> r.category == AsText(Get(e, "category_name").value))
      && (HasNonNull(e, "description_pl") ==> r.description == AsText(Get(e, "description_pl").value))
      && (IsArrayField(e, "artists_names") ==>
            r.artists == Join(ItemTexts(Get(e, "artists_names").value.items), ", "))
  {
  }
}
