/**
 EventMapperEbilet: turns one raw eBilet API record into a canonical record.
 Every `get(...).asText()` on a missing field, a non-string artist, a
 subcategory without a category field, and an unparseable date throw; such a
 record is dropped by `mapEvents`.
 */
module EbiletMapper {
  import opened Wrappers
  import opened Json
  import opened JavaString
  import JavaLong
  import opened Canonical
  import NameParsing

  const SITE_ROOT := "https://www.ebilet.pl/"
  const MEDIA_ROOT := "https://www.ebilet.pl/media"
  const SOURCE := "eBilet"

  /** The date guard: present, not JSON null, not empty, not "null" in any case. */
  predicate HasDate(e: Node, key: string) {
    && HasNonNull(e, key)
    && AsText(Get(e, key).value) != ""
    && !IsNullIgnoreCase(AsText(Get(e, key).value))
  }

  /** start_date / end_date. `parseDate` stands for LocalDateTime.parse followed by
      toEpochSecond(ZoneOffset.UTC); its failure is rethrown as a RuntimeException,
      which the DateTimeParseException handler does not catch (None). */
  function DateText(e: Node, key: string, parseDate: string -> Option<int>): Option<string>
  {
    if HasDate(e, key) then
      match parseDate(AsText(Get(e, key).value))
      case None => None
      case Some(seconds) => Some(JavaLong.DecimalText(seconds))
    else Some("null")
  }

  /** artists: the array joined with ", ", the placeholder when not an array. */
  function ArtistsText(e: Node): Option<string>
  {
    if Has(e, "artists") && Get(e, "artists").value.Array?
    then JoinTexts(Get(e, "artists").value.items)
    else Some("Unknown Artist")
  }

  /** `nextEventPlace` is present and holds the field `inner`. */
  predicate PlaceHas(e: Node, inner: string) {
    Has(e, "nextEventPlace") && Has(Get(e, "nextEventPlace").value, inner)
  }

  /** nextEventPlace.<inner> as text, or the placeholder. */
  function PlaceText(e: Node, inner: string, default: string): string
  {
    if PlaceHas(e, inner)
    then AsText(Get(Get(e, "nextEventPlace").value, inner).value)
    else default
  }

  predicate LinkIsNullLiteral(e: Node) {
    Has(e, "linkTo") && IsNullIgnoreCase(AsText(Get(e, "linkTo").value))
  }

  /** The event page: `linkTo`, or a path built from category, quote-free
      subcategory and slug when `linkTo` holds the "null" literal. */
  function UrlText(e: Node): Option<string>
  {
    if LinkIsNullLiteral(e) then
      var category :- TextOf(e, "category");
      var subcategory :- TextOf(e, "subcategory");
      var slug :- TextOf(e, "slug");
      Some(SITE_ROOT + category + "/" + RemoveChar(subcategory, '"') + "/" + slug)
    else
      TextOf(e, "linkTo")
  }

  /** The guard of the first two tag parts: present, not JSON null, not blank,
      not "null" in any case. */
  predicate IsTagPart(e: Node, key: string) {
    && HasNonNull(e, key)
    && !IsBlank(AsText(Get(e, key).value))
    && !IsNullIgnoreCase(AsText(Get(e, key).value))
  }

  /** A leading tag part with the ", " that always follows it. */
  function LeadText(e: Node, key: string): string
  {
    if IsTagPart(e, key) then AsText(Get(e, key).value) + ", " else ""
  }

  /** The guard of the last tag part tests the nullness of `category`, not of
      `subcategory`; with `category` missing that test dereferences null. */
  predicate SubcategoryIncluded(e: Node) {
    && Has(e, "subcategory")
    && Has(e, "category")
    && !Get(e, "category").value.Null?
    && !IsBlank(AsText(Get(e, "subcategory").value))
    && !IsNullIgnoreCase(AsText(Get(e, "subcategory").value))
  }

  function SubcategoryText(e: Node): Option<string>
  {
    if Has(e, "subcategory") && !Has(e, "category") then None
    else if SubcategoryIncluded(e) then Some(AsText(Get(e, "subcategory").value))
    else Some("")
  }

  /** The tag string: subcategoryName, category, subcategory, each when included. */
  function TagsText(e: Node): Option<string>
  {
    var last :- SubcategoryText(e);
    Some(LeadText(e, "subcategoryName") + LeadText(e, "category") + last)
  }

  /** Exactly when mapping a record throws nothing. */
  predicate Maps(e: Node, parseDate: string -> Option<int>) {
    && (HasDate(e, "dateFrom") ==> parseDate(AsText(Get(e, "dateFrom").value)).Some?)
    && (HasDate(e, "dateTo") ==> parseDate(AsText(Get(e, "dateTo").value)).Some?)
    && (Has(e, "artists") && Get(e, "artists").value.Array? ==>
          forall i :: 0 <= i < |Get(e, "artists").value.items| ==>
            Get(e, "artists").value.items[i].Text? || Get(e, "artists").value.items[i].Null?)
    && Has(e, "linkTo")
    && (LinkIsNullLiteral(e) ==> Has(e, "category") && Has(e, "subcategory") && Has(e, "slug"))
    && (Has(e, "subcategory") ==> Has(e, "category"))
    && Has(e, "title")
    && Has(e, "imageLandscape")
    && Has(e, "categoryName")
    && Has(e, "metaDescription")
  }

  /** mapEbiletEvent. A record maps exactly when nothing throws; the result
      always names eBilet as its source and points its thumbnail into the
      eBilet media path. */
  function MapEbiletEvent(e: Node, parseDate: string -> Option<int>): (r: Option<Record>)
    ensures r.Some? <==> Maps(e, parseDate)
    ensures r.Some? ==> r.value.source == SOURCE
    ensures r.Some? ==> MEDIA_ROOT <= r.value.thumbnail
    ensures r.Some? ==> r.value.eventName == AsText(Get(e, "title").value)
    ensures r.Some? ==> r.value.category == AsText(Get(e, "categoryName").value)
    ensures r.Some? ==> r.value.description == AsText(Get(e, "metaDescription").value)
  {
    var startDate :- DateText(e, "dateFrom", parseDate);
    var endDate :- DateText(e, "dateTo", parseDate);
    var artists :- ArtistsText(e);
    var place := PlaceText(e, "customName", "Unknown Place");
    var location := PlaceText(e, "city", "Unknown City");
    var url :- UrlText(e);
    var tags :- TagsText(e);
    var title :- TextOf(e, "title");
    var image :- TextOf(e, "imageLandscape");
    var category :- TextOf(e, "categoryName");
    var description :- TextOf(e, "metaDescription");
    Some(Record(title, artists, startDate, endDate, MEDIA_ROOT + image, url,
                location, place, category, tags, description, SOURCE))
  }

  /** mapEvents: every record in order, minus those whose mapping threw. */
  function MapEvents(data: seq<Node>, parseDate: string -> Option<int>): (r: seq<Record>)
    ensures |r| <= |data|
  {
    KeptIsOrderedSubsequence(e => MapEbiletEvent(e, parseDate), data);
    Kept(e => MapEbiletEvent(e, parseDate), data)
  }

  /** The output of mapEvents is the mapped records in input order, and a
      position is missing from it exactly when that record cannot be mapped. */
  lemma MapEventsKeepsMappable(data: seq<Node>, parseDate: string -> Option<int>)
    ensures var idx := KeptIndices(e => MapEbiletEvent(e, parseDate), data);
      && |idx| == |MapEvents(data, parseDate)|
      && (forall k, l :: 0 <= k < l < |idx| ==> idx[k] < idx[l])
      && (forall k :: 0 <= k < |idx| ==>
            (idx[k] < |data| && MapEbiletEvent(data[idx[k]], parseDate) == Some(MapEvents(data, parseDate)[k])))
      && (forall i :: 0 <= i < |data| ==> (i in idx <==> Maps(data[i], parseDate)))
  {
    var f := e => MapEbiletEvent(e, parseDate);
    KeptIsOrderedSubsequence(f, data);
  }

  /** An unparseable date drops the record instead of defaulting it. */
  lemma BadDateDropsRecord(e: Node, parseDate: string -> Option<int>)
    requires HasDate(e, "dateFrom") || HasDate(e, "dateTo")
    requires HasDate(e, "dateFrom") ==> parseDate(AsText(Get(e, "dateFrom").value)).None?
    requires !HasDate(e, "dateFrom") ==> parseDate(AsText(Get(e, "dateTo").value)).None?
    ensures MapEbiletEvent(e, parseDate) == None
  {
  }

  /** start_date is the literal "null" exactly when the date guard fails;
      otherwise it is the decimal epoch seconds of the parsed date. */
  lemma StartDateRule(e: Node, parseDate: string -> Option<int>)
    requires MapEbiletEvent(e, parseDate).Some?
    ensures var d := MapEbiletEvent(e, parseDate).value.startDate;
      && (d == "null" <==> !HasDate(e, "dateFrom"))
      && (HasDate(e, "dateFrom") ==>
            d == JavaLong.DecimalText(parseDate(AsText(Get(e, "dateFrom").value)).value))
  {
  }

  /** end_date follows the same rule with `dateTo`. */
  lemma EndDateRule(e: Node, parseDate: string -> Option<int>)
    requires MapEbiletEvent(e, parseDate).Some?
    ensures var d := MapEbiletEvent(e, parseDate).value.endDate;
      && (d == "null" <==> !HasDate(e, "dateTo"))
      && (HasDate(e, "dateTo") ==>
            d == JavaLong.DecimalText(parseDate(AsText(Get(e, "dateTo").value)).value))
  {
  }

  /** The URL is `linkTo` verbatim unless it is the "null" literal, in which case
      it is synthesised under the site root from quote-free path parts. */
  lemma UrlRule(e: Node, parseDate: string -> Option<int>)
    requires MapEbiletEvent(e, parseDate).Some?
    ensures var url := MapEbiletEvent(e, parseDate).value.url;
      if LinkIsNullLiteral(e) then
        var sub := RemoveChar(AsText(Get(e, "subcategory").value), '"');
        && '"' !in sub
        && url == SITE_ROOT + AsText(Get(e, "category").value) + "/" + sub + "/"
                  + AsText(Get(e, "slug").value)
      else url == AsText(Get(e, "linkTo").value)
  {
  }

  /** artists, place and location, with their placeholders. */
  lemma OtherFields(e: Node, parseDate: string -> Option<int>)
    requires MapEbiletEvent(e, parseDate).Some?
    ensures var r := MapEbiletEvent(e, parseDate).value;
      && (Has(e, "artists") && Get(e, "artists").value.Array? ==>
            r.artists == Join(ItemTexts(Get(e, "artists").value.items), ", "))
      && (!(Has(e, "artists") && Get(e, "artists").value.Array?) ==> r.artists == "Unknown Artist")
      && (PlaceHas(e, "customName") ==> r.place == AsText(Get(Get(e, "nextEventPlace").value, "customName").value))
      && (!PlaceHas(e, "customName") ==> r.place == "Unknown Place")
      && (PlaceHas(e, "city") ==> r.location == AsText(Get(Get(e, "nextEventPlace").value, "city").value))
      && (!PlaceHas(e, "city") ==> r.location == "Unknown City")
  {
  }

  /** The included tag parts, in their fixed order. */
  function TagParts(e: Node): seq<string>
  {
    (if IsTagPart(e, "subcategoryName") then [AsText(Get(e, "subcategoryName").value)] else [])
    + (if IsTagPart(e, "category") then [AsText(Get(e, "category").value)] else [])
    + (if SubcategoryIncluded(e) then [AsText(Get(e, "subcategory").value)] else [])
  }

  /** The tag string is the included parts joined with ", ", followed by one more
      ", " when the subcategory is left out after an included part: the
      separator is never trimmed. */
  lemma TagsLayout(e: Node)
    requires TagsText(e).Some?
    ensures var parts := TagParts(e);
      var trailing := !SubcategoryIncluded(e) && |parts| > 0;
      TagsText(e).value == Join(parts, ", ") + (if trailing then ", " else "")
  {
    var parts := TagParts(e);
    var a := IsTagPart(e, "subcategoryName");
    var b := IsTagPart(e, "category");
    var c := SubcategoryIncluded(e);
    if a && b && c {
      var x, y, z := parts[0], parts[1], parts[2];
      assert parts[1..] == [y, z];
      assert Join([y, z], ", ") == y + ", " + z;
      assert Join(parts, ", ") == x + ", " + (y + ", " + z);
    } else if (a && b) || (a && c) || (b && c) {
      var x, y := parts[0], parts[1];
      assert Join(parts, ", ") == x + ", " + y;
    }
  }

  /** A tag string that kept a trailing separator still parses, in the
      ingestion service, to just the included parts (trimmed), when no part
      holds a comma. */
  lemma TagsParseToParts(e: Node)
    requires TagsText(e).Some?
    requires forall i :: 0 <= i < |TagParts(e)| ==> ',' !in TagParts(e)[i]
    ensures NameParsing.ParseNames(TagsText(e).value) == NameParsing.TrimmedNames(TagParts(e))
  {
    var parts := TagParts(e);
    var tags := TagsText(e).value;
    TagsLayout(e);
    if !SubcategoryIncluded(e) && |parts| > 0 {
      assert tags == Join(parts, ", ") + ", ";
      NameParsing.ParseJoinedNamesTrailing(parts);
    } else {
      assert tags == Join(parts, ", ");
      NameParsing.ParseJoinedNames(parts);
    }
  }

  /** The category part is followed by ", " even when nothing comes after it. */
  lemma TrailingSeparatorKept(e: Node)
    requires TagsText(e).Some?
    requires IsTagPart(e, "category") && !SubcategoryIncluded(e)
    ensures |TagsText(e).value| >= 2
    ensures TagsText(e).value[|TagsText(e).value| - 2..] == ", "
  {
  }

  /** The subcategory guard reads `category`: a subcategory with no category
      field makes the whole record fail, and a JSON-null category hides an
      otherwise valid subcategory. */
  lemma SubcategoryGuardReadsCategory(e: Node, parseDate: string -> Option<int>)
    ensures Has(e, "subcategory") && !Has(e, "category") ==> MapEbiletEvent(e, parseDate) == None
    ensures Has(e, "category") && Get(e, "category").value.Null? && TagsText(e).Some? ==>
      TagsText(e).value == LeadText(e, "subcategoryName")
  {
    if Has(e, "category") && Get(e, "category").value.Null? {
      assert !IsTagPart(e, "category");
      assert LeadText(e, "subcategoryName") + "" + "" == LeadText(e, "subcategoryName");
    }
  }
}
