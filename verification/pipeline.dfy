/**
 The mappers' records as the ingestion service reads them: the canonical
 ObjectNode carries every field, the eBilet dates round-trip through
 parseTimestamp, the GoingApp placeholder URL collides, and a blank place is
 looked up under the empty name.
 */
module Pipeline {
  import opened Wrappers
  import opened Json
  import opened Canonical
  import opened EventStore
  import opened Ingest
  import opened IngestProps
  import JavaLong
  import JavaString
  import EbiletMapper
  import GoingAppMapper

  /** The local date-time a date text gives in createEventFromNode. */
  function DateFrom(text: string, toLocal: int -> Option<int>, fallback: int): int {
    match ParseTimestamp(text, toLocal)
    case At(t) => t
    case _ => fallback
  }

  /** A canonical record carries all twelve fields, so none of
      createEventFromNode's placeholders applies: the event takes the record's
      texts, and its dates are the parsed timestamps or the clock fallbacks. */
  lemma RecordFieldsCarriedOver(r: Record, env: Env)
    requires !Faults(ToNode(r), env.toLocal)
    ensures var ev := CreateEventFromNode(ToNode(r), env);
      && ev.Some?
      && ev.value.name == r.eventName
      && ev.value.thumbnail == r.thumbnail
      && ev.value.url == r.url
      && ev.value.location == r.location
      && ev.value.category == r.category
      && ev.value.description == r.description
      && ev.value.source == r.source
      && ev.value.startDate == DateFrom(r.startDate, env.toLocal, env.now)
      && ev.value.endDate == DateFrom(r.endDate, env.toLocal, env.now + ONE_HOUR)
      && GetEventUrl(ToNode(r)) == Some(r.url)
  {
  }

  /** The decimal text of a long is never the "null" literal. */
  lemma DecimalTextNotNull(n: int)
    ensures JavaLong.DecimalText(n) != "null"
  {
    var t := JavaLong.DecimalText(n);
    if n >= 0 {
      assert JavaLong.IsDigit(t[0]);
    } else {
      assert t[0] == '-';
    }
  }

  /** parseTimestamp of a long's decimal text: the conversion of that long. */
  lemma TimestampOfDecimal(n: int, toLocal: int -> Option<int>)
    requires JavaLong.InLongRange(n)
    ensures ParseTimestamp(JavaLong.DecimalText(n), toLocal)
         == (if toLocal(n).Some? then At(toLocal(n).value) else Fault)
  {
    DecimalTextNotNull(n);
    JavaLong.DecimalTextRoundTrip(n);
  }

  /** The eBilet start date reaches the service intact: the "null" literal
      reads as no date (the clock fallback), and the epoch seconds written by
      the mapper parse back to the same instant. */
  lemma EbiletStartDateRoundTrip(e: Node, parseDate: string -> Option<int>, toLocal: int -> Option<int>)
    requires EbiletMapper.MapEbiletEvent(e, parseDate).Some?
    requires EbiletMapper.HasDate(e, "dateFrom") ==>
      JavaLong.InLongRange(parseDate(AsText(Get(e, "dateFrom").value)).value)
    ensures var r := EbiletMapper.MapEbiletEvent(e, parseDate).value;
      && (!EbiletMapper.HasDate(e, "dateFrom") ==> ParseTimestamp(r.startDate, toLocal) == Absent)
      && (EbiletMapper.HasDate(e, "dateFrom") ==>
            var seconds := parseDate(AsText(Get(e, "dateFrom").value)).value;
            ParseTimestamp(r.startDate, toLocal)
              == (if toLocal(seconds).Some? then At(toLocal(seconds).value) else Fault))
  {
    EbiletMapper.StartDateRule(e, parseDate);
    if EbiletMapper.HasDate(e, "dateFrom") {
      TimestampOfDecimal(parseDate(AsText(Get(e, "dateFrom").value)).value, toLocal);
    }
  }

  /** Every GoingApp record without both slugs carries the same URL. */
  lemma UnknownUrlShared(g: Node)
    requires GoingAppMapper.MapGoingAppEvent(g).Some?
    requires !(Has(g, "slug") && Has(g, "rundate_slug"))
    ensures GetEventUrl(ToNode(GoingAppMapper.MapGoingAppEvent(g).value)) == Some(GoingAppMapper.UNKNOWN_URL)
  {
    GoingAppMapper.UrlRule(g);
  }

  /** "Unknown URL" is a real URL to the service: of two GoingApp records
      without slugs, the first is saved and the second is skipped as a
      duplicate. */
  lemma UnknownUrlCollision(s: State, g1: Node, g2: Node, env: Env)
    requires GoingAppMapper.MapGoingAppEvent(g1).Some? && GoingAppMapper.MapGoingAppEvent(g2).Some?
    requires !(Has(g1, "slug") && Has(g1, "rundate_slug"))
    requires !(Has(g2, "slug") && Has(g2, "rundate_slug"))
    requires GoingAppMapper.UNKNOWN_URL !in s.world.svc.processedUrls
    requires !Faults(ToNode(GoingAppMapper.MapGoingAppEvent(g1).value), env.toLocal)
    ensures var e1 := ToNode(GoingAppMapper.MapGoingAppEvent(g1).value);
      var e2 := ToNode(GoingAppMapper.MapGoingAppEvent(g2).value);
      var t := Step(s, e1, env);
      && t.counters.success == s.counters.success + 1
      && Step(t, e2, env) == t.(counters := t.counters.(skip := t.counters.skip + 1))
  {
    var e1 := ToNode(GoingAppMapper.MapGoingAppEvent(g1).value);
    var e2 := ToNode(GoingAppMapper.MapGoingAppEvent(g2).value);
    UnknownUrlShared(g1);
    UnknownUrlShared(g2);
    RecordFieldsCarriedOver(GoingAppMapper.MapGoingAppEvent(g1).value, env);
    assert ProcessEvent(s.world, e1, env).Saved?;
    StepSaved(s, e1, env);
    SameUrlSkippedAfterSave(s, e1, e2, env);
  }

  /** The place guard runs before trimming: a non-empty place of blanks only
      passes it and is looked up under the empty name. */
  lemma BlankPlaceNamedEmpty(e: Node)
    requires Has(e, "place") && AsText(Get(e, "place").value) != ""
    requires forall i :: 0 <= i < |AsText(Get(e, "place").value)| ==>
      JavaString.IsTrimmable(AsText(Get(e, "place").value)[i])
    ensures PlaceGiven(e) && PlaceName(e) == ""
  {
  }
}
