/**
 `parseNames` of the ingestion service: split a comma-separated field,
 trim every piece, drop the empty ones and collect the rest into a set.
 */
module NameParsing {
  import opened JavaString
  import Json

  /** The trimmed, non-empty pieces of `ps`. */
  function TrimmedNames(ps: seq<string>): set<string>
  {
    set i | 0 <= i < |ps| && Trim(ps[i]) != "" :: Trim(ps[i])
  }

  /** Arrays.stream(s.split(",")).map(String::trim).filter(n -> !n.isEmpty()).collect(toSet()).
      The trailing empty pieces `split` drops make no difference: the result
      is the trimmed non-empty pieces between all commas, each itself free of
      commas and of leading or trailing blanks. */
  function ParseNames(s: string): (r: set<string>)
    ensures r == TrimmedNames(Split(s, ','))
    ensures "" !in r
    ensures forall x :: x in r ==> ',' !in x && Trim(x) == x
  {
    var ps := JavaSplit(s, ',');
    JavaSplitKeepsNames(s);
    TrimmedSplitNames(s);
    set i | 0 <= i < |ps| && Trim(ps[i]) != "" :: Trim(ps[i])
  }

  lemma JavaSplitKeepsNames(s: string)
    ensures TrimmedNames(JavaSplit(s, ',')) == TrimmedNames(Split(s, ','))
  {
    var full := Split(s, ',');
    if ',' !in s {
      SplitNoSeparator(s, ',');
    } else {
      var kept := DropTrailingEmpty(full);
      assert forall i :: 0 <= i < |kept| ==> kept[i] == full[i];
      assert forall i :: |kept| <= i < |full| ==> Trim(full[i]) == "";
    }
  }

  lemma TrimmedSplitNames(s: string)
    ensures forall x :: x in TrimmedNames(Split(s, ',')) ==> ',' !in x && Trim(x) == x
  {
    var full := Split(s, ',');
    forall x | x in TrimmedNames(full) ensures ',' !in x && Trim(x) == x {
      var i :| 0 <= i < |full| && Trim(full[i]) == x;
      TrimIdempotent(full[i]);
    }
  }

  /** Pieces that trim alike name alike. */
  lemma SameTrims(a: seq<string>, b: seq<string>)
    requires |a| == |b|
    requires forall i :: 0 <= i < |a| ==> Trim(a[i]) == Trim(b[i])
    ensures TrimmedNames(a) == TrimmedNames(b)
  {
    forall x | x in TrimmedNames(a) ensures x in TrimmedNames(b) {
      var i :| 0 <= i < |a| && Trim(a[i]) != "" && Trim(a[i]) == x;
      assert Trim(b[i]) == x;
    }
    forall x | x in TrimmedNames(b) ensures x in TrimmedNames(a) {
      var i :| 0 <= i < |b| && Trim(b[i]) != "" && Trim(b[i]) == x;
      assert Trim(a[i]) == x;
    }
  }

  lemma TrimmedNamesSpaceLed(first: string, rest: seq<string>)
    ensures TrimmedNames([first] + SpaceLed(rest)) == TrimmedNames([first] + rest)
  {
    var a := [first] + SpaceLed(rest);
    var b := [first] + rest;
    forall i | 0 <= i < |a| ensures Trim(a[i]) == Trim(b[i]) {
      if i > 0 {
        TrimLeadingSpace(rest[i - 1]);
      }
    }
    SameTrims(a, b);
  }

  /** The empty text parses to no name. */
  lemma ParseNamesEmpty()
    ensures ParseNames("") == {}
  {
    assert Split("", ',') == [""];
    assert Trim("") == "";
  }

  lemma SpaceLedCommaFree(ns: seq<string>)
    requires |ns| >= 1
    requires forall i :: 0 <= i < |ns| ==> ',' !in ns[i]
    ensures forall i :: 0 <= i < |ns| ==> ',' !in ([ns[0]] + SpaceLed(ns[1..]))[i]
  {
    var qs := [ns[0]] + SpaceLed(ns[1..]);
    forall i | 0 <= i < |ns| ensures ',' !in qs[i] {
      if i > 0 {
        assert qs[i] == " " + ns[i];
      }
    }
  }

  /** Names joined with ", " (as the mappers join artist and tag arrays) parse
      back to their trimmed non-empty set, provided no name holds a comma. */
  lemma ParseJoinedNames(ns: seq<string>)
    requires forall i :: 0 <= i < |ns| ==> ',' !in ns[i]
    ensures ParseNames(Join(ns, ", ")) == TrimmedNames(ns)
  {
    if |ns| == 0 {
      ParseNamesEmpty();
    } else {
      var qs := [ns[0]] + SpaceLed(ns[1..]);
      var joined := Join(ns, ", ");
      JoinCommaSpace(ns);
      assert joined == Join(qs, [',']);
      SpaceLedCommaFree(ns);
      SplitJoin(qs, ',');
      assert Split(joined, ',') == qs;
      TrimmedNamesSpaceLed(ns[0], ns[1..]);
      assert [ns[0]] + ns[1..] == ns;
    }
  }

  /** A trailing ", " adds only an empty piece, which parsing drops. */
  lemma ParseJoinedNamesTrailing(ns: seq<string>)
    requires |ns| >= 1
    requires forall i :: 0 <= i < |ns| ==> ',' !in ns[i]
    ensures ParseNames(Join(ns, ", ") + ", ") == TrimmedNames(ns)
  {
    var padded := ns + [""];
    var joined := Join(ns, ", ") + ", ";
    JoinAppend(ns, "", ", ");
    assert Join(padded, ", ") == joined;
    assert forall i :: 0 <= i < |padded| ==> ',' !in padded[i];
    ParseJoinedNames(padded);
    PaddedNames(ns);
  }

  lemma PaddedNames(ns: seq<string>)
    ensures TrimmedNames(ns + [""]) == TrimmedNames(ns)
  {
    var padded := ns + [""];
    assert Trim("") == "";
    assert forall i :: 0 <= i < |ns| ==> padded[i] == ns[i];
  }

  /** The join of a JSON array, as the mappers build it, parses in the service
      to the trimmed non-empty texts of its elements when none holds a comma;
      a JSON null element becomes the name "null". */
  lemma JoinTextsParse(items: seq<Json.Node>)
    requires Json.JoinTexts(items).Some?
    requires forall i :: 0 <= i < |items| ==> ',' !in Json.AsText(items[i])
    ensures ParseNames(Json.JoinTexts(items).value) == TrimmedNames(Json.ItemTexts(items))
    ensures forall i :: 0 <= i < |items| && items[i].Null? ==>
      "null" in ParseNames(Json.JoinTexts(items).value)
  {
    var names := Json.ItemTexts(items);
    ParseJoinedNames(names);
    TrimOfTrimmed("null");
    forall i | 0 <= i < |items| && items[i].Null?
      ensures "null" in TrimmedNames(names)
    {
      assert names[i] == "null";
    }
  }

  /** A field of blanks only passes the service's untrimmed emptiness guard,
      yet parses to no name at all. */
  lemma BlankParsesToNothing(s: string)
    requires forall k :: 0 <= k < |s| ==> IsTrimmable(s[k])
    ensures ParseNames(s) == {}
  {
    SplitNoSeparator(s, ',');
    assert Trim(s) == "";
  }
}
