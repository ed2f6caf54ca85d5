/**
 The few java.lang.String operations the mappers and the ingestion service
 rely on, with Java's exact character classes: `trim()` strips every code
 point up to U+0020, `isBlank()` uses Character.isWhitespace, `split(",")`
 drops trailing empty pieces, and `replace` rewrites every occurrence.
 Strings are sequences of Unicode scalar values.
 */
module JavaString {

  /** Characters removed by String.trim(). */
  predicate IsTrimmable(c: char) {
    c <= ' '
  }

  /** Character.isWhitespace: the Unicode space, line and paragraph separators
      except the three no-break spaces, plus the ASCII controls TAB..CR and FS..US. */
  predicate IsJavaWhitespace(c: char) {
    var k := c as int;
    || (0x09 <= k <= 0x0D)
    || (0x1C <= k <= 0x20)
    || k == 0x1680
    || (0x2000 <= k <= 0x2006)
    || (0x2008 <= k <= 0x200A)
    || k == 0x2028
    || k == 0x2029
    || k == 0x205F
    || k == 0x3000
  }

  /** String.isBlank(): empty or only whitespace. */
  predicate IsBlank(s: string) {
    forall i :: 0 <= i < |s| ==> IsJavaWhitespace(s[i])
  }

  /** s.equalsIgnoreCase("null"). No character outside ASCII case-folds onto
      'n', 'u' or 'l', so the comparison is letter by letter. */
  predicate IsNullIgnoreCase(s: string) {
    && |s| == 4
    && (s[0] == 'n' || s[0] == 'N')
    && (s[1] == 'u' || s[1] == 'U')
    && (s[2] == 'l' || s[2] == 'L')
    && (s[3] == 'l' || s[3] == 'L')
  }

  function TrimStart(s: string): (r: string)
    ensures |r| <= |s| && r == s[|s| - |r|..]
    ensures forall k :: 0 <= k < |s| - |r| ==> IsTrimmable(s[k])
    ensures r == [] || !IsTrimmable(r[0])
  {
    if |s| > 0 && IsTrimmable(s[0]) then TrimStart(s[1..]) else s
  }

  function TrimEnd(s: string): (r: string)
    ensures |r| <= |s| && r == s[..|r|]
    ensures forall k :: |r| <= k < |s| ==> IsTrimmable(s[k])
    ensures r == [] || !IsTrimmable(r[|r| - 1])
  {
    if |s| > 0 && IsTrimmable(s[|s| - 1]) then TrimEnd(s[..|s| - 1]) else s
  }

  /** String.trim(). */
  function Trim(s: string): (r: string)
    ensures |r| <= |s|
    ensures forall c :: c in r ==> c in s
    ensures r == [] || (!IsTrimmable(r[0]) && !IsTrimmable(r[|r| - 1]))
    ensures r == [] <==> forall k :: 0 <= k < |s| ==> IsTrimmable(s[k])
  {
    var t := TrimStart(s);
    var r := TrimEnd(t);
    assert r == [] ==> t == [];
    assert forall c :: c in r ==> c in t;
    r
  }

  lemma TrimOfTrimmed(s: string)
    requires s == [] || (!IsTrimmable(s[0]) && !IsTrimmable(s[|s| - 1]))
    ensures Trim(s) == s
  {
  }

  /** Trimming is idempotent: a trimmed name survives a second trim unchanged. */
  lemma TrimIdempotent(s: string)
    ensures Trim(Trim(s)) == Trim(s)
  {
    TrimOfTrimmed(Trim(s));
  }

  /** A leading blank (the one after ", ") never reaches the trimmed result. */
  lemma TrimLeadingSpace(s: string)
    ensures Trim(" " + s) == Trim(s)
  {
    assert (" " + s)[1..] == s;
  }

  /** Every piece between occurrences of `d`, including empty ones
      (String.split before trailing empty strings are removed). */
  function Split(s: string, d: char): (r: seq<string>)
    ensures |r| >= 1
    ensures forall i :: 0 <= i < |r| ==> d !in r[i]
  {
    if |s| == 0 then [""]
    else
      var rest := Split(s[1..], d);
      if s[0] == d then [""] + rest
      else [[s[0]] + rest[0]] + rest[1..]
  }

  /** String.join(sep, parts). */
  function Join(ss: seq<string>, sep: string): string
  {
    if |ss| == 0 then ""
    else if |ss| == 1 then ss[0]
    else ss[0] + sep + Join(ss[1..], sep)
  }

  function DropTrailingEmpty(ss: seq<string>): (r: seq<string>)
    ensures |r| <= |ss| && r == ss[..|r|]
    ensures forall k :: |r| <= k < |ss| ==> ss[k] == ""
    ensures r == [] || r[|r| - 1] != ""
  {
    if |ss| > 0 && ss[|ss| - 1] == "" then DropTrailingEmpty(ss[..|ss| - 1]) else ss
  }

  /** s.split(String.valueOf(d)) for a single non-special character: the whole
      string when `d` does not occur, else the pieces without trailing empties. */
  function JavaSplit(s: string, d: char): seq<string>
  {
    if d !in s then [s] else DropTrailingEmpty(Split(s, d))
  }

  /** Joining the pieces back with the separator restores the string. */
  lemma {:induction false} JoinSplit(s: string, d: char)
    ensures Join(Split(s, d), [d]) == s
  {
    if |s| > 0 {
      var rest := Split(s[1..], d);
      JoinSplit(s[1..], d);
      if s[0] == d {
        assert Split(s, d) == [""] + rest;
        assert Join([""] + rest, [d]) == "" + [d] + Join(rest, [d]) by {
          assert ([""] + rest)[1..] == rest;
        }
        assert s == [s[0]] + s[1..];
      } else {
        assert Split(s, d) == [[s[0]] + rest[0]] + rest[1..];
        if |rest| == 1 {
          assert s == [s[0]] + s[1..];
        } else {
          assert Join(rest, [d]) == rest[0] + [d] + Join(rest[1..], [d]);
          assert ([[s[0]] + rest[0]] + rest[1..])[1..] == rest[1..];
          assert s == [s[0]] + s[1..];
        }
      }
    }
  }

  lemma {:induction false} SplitPrefix(x: string, y: string, d: char)
    requires d !in x
    ensures Split(x + y, d) == [x + Split(y, d)[0]] + Split(y, d)[1..]
  {
    if |x| > 0 {
      var r := Split(y, d);
      assert (x + y)[1..] == x[1..] + y;
      assert (x + y)[0] == x[0] && x[0] != d;
      SplitPrefix(x[1..], y, d);
      var rest := Split(x[1..] + y, d);
      assert rest[0] == x[1..] + r[0] && rest[1..] == r[1..];
      assert Split(x + y, d) == [[x[0]] + rest[0]] + rest[1..];
      assert [x[0]] + (x[1..] + r[0]) == x + r[0];
    } else {
      var r := Split(y, d);
      assert x + y == y;
      assert x + r[0] == r[0];
      assert r == [r[0]] + r[1..];
    }
  }

  /** A string without `d` splits into itself alone. */
  lemma SplitNoSeparator(x: string, d: char)
    requires d !in x
    ensures Split(x, d) == [x]
  {
    SplitPrefix(x, "", d);
    assert x + "" == x;
  }

  /** Splitting a join of separator-free pieces gives the pieces back. */
  lemma {:induction false} SplitJoin(ss: seq<string>, d: char)
    requires |ss| >= 1
    requires forall i :: 0 <= i < |ss| ==> d !in ss[i]
    ensures Split(Join(ss, [d]), d) == ss
  {
    if |ss| == 1 {
      assert Join(ss, [d]) == ss[0];
      SplitNoSeparator(ss[0], d);
    } else {
      var tail := Join(ss[1..], [d]);
      SplitJoin(ss[1..], d);
      assert Join(ss, [d]) == ss[0] + ([d] + tail);
      SplitPrefix(ss[0], [d] + tail, d);
      assert ([d] + tail)[1..] == tail;
      var after := Split([d] + tail, d);
      assert after == [""] + Split(tail, d);
      assert after[0] == "" && after[1..] == ss[1..];
      assert ss[0] + after[0] == ss[0];
      assert ss == [ss[0]] + ss[1..];
    }
  }

  lemma {:induction false} JoinAppend(ss: seq<string>, last: string, sep: string)
    requires |ss| >= 1
    ensures Join(ss + [last], sep) == Join(ss, sep) + sep + last
  {
    if |ss| == 1 {
      assert (ss + [last])[1..] == [last];
    } else {
      assert (ss + [last])[1..] == ss[1..] + [last];
      JoinAppend(ss[1..], last, sep);
    }
  }

  /** Every part after the first, led by one blank. */
  function SpaceLed(ss: seq<string>): (r: seq<string>)
    ensures |r| == |ss|
    ensures forall i :: 0 <= i < |ss| ==> r[i] == " " + ss[i]
  {
    if |ss| == 0 then [] else [" " + ss[0]] + SpaceLed(ss[1..])
  }

  lemma JoinLeadingSpace(a: string, rest: seq<string>, sep: string)
    ensures Join([" " + a] + rest, sep) == " " + Join([a] + rest, sep)
  {
    if |rest| > 0 {
      assert ([" " + a] + rest)[1..] == rest;
      assert ([a] + rest)[1..] == rest;
    }
  }

  /** Joining with ", " is joining with "," after prefixing every later part with a blank. */
  lemma {:induction false} JoinCommaSpace(ss: seq<string>)
    requires |ss| >= 1
    ensures Join(ss, ", ") == Join([ss[0]] + SpaceLed(ss[1..]), ",")
  {
    if |ss| > 1 {
      JoinCommaSpace(ss[1..]);
      var rest := SpaceLed(ss[2..]);
      assert ss[1..][1..] == ss[2..];
      assert SpaceLed(ss[1..]) == [" " + ss[1]] + rest;
      JoinLeadingSpace(ss[1], rest, ",");
      assert ([ss[0]] + SpaceLed(ss[1..]))[1..] == SpaceLed(ss[1..]);
    }
  }

  /** s.replace("\"", ""): every quote removed, every other character kept in order. */
  function RemoveChar(s: string, c: char): (r: string)
    ensures c !in r
    ensures multiset(r) == multiset(s)[c := 0]
    ensures c !in s ==> r == s
  {
    if |s| == 0 then ""
    else
      assert s == [s[0]] + s[1..];
      (if s[0] == c then "" else [s[0]]) + RemoveChar(s[1..], c)
  }

  lemma RemoveCharCons(x: char, s: string, c: char)
    ensures RemoveChar([x] + s, c) == (if x == c then "" else [x]) + RemoveChar(s, c)
  {
    assert ([x] + s)[0] == x && ([x] + s)[1..] == s;
  }

  /** Removal works piece by piece: what is left of `a` comes first, in
      order, followed by what is left of `b`. */
  lemma {:induction false} RemoveCharAppend(a: string, b: string, c: char)
    ensures RemoveChar(a + b, c) == RemoveChar(a, c) + RemoveChar(b, c)
  {
    if |a| == 0 {
      assert a + b == b;
    } else {
      var x, t := a[0], a[1..];
      var head := if x == c then "" else [x];
      assert a == [x] + t;
      assert a + b == [x] + (t + b);
      RemoveCharCons(x, t + b, c);
      RemoveCharCons(x, t, c);
      RemoveCharAppend(t, b, c);
      AppendAssoc(head, RemoveChar(t, c), RemoveChar(b, c));
    }
  }

  lemma AppendAssoc<T>(x: seq<T>, y: seq<T>, z: seq<T>)
    ensures x + (y + z) == (x + y) + z
  {
  }

  /** s.replace(" ", "%20"). */
  function EncodeSpaces(s: string): (r: string)
    ensures ' ' !in r
    ensures |r| == |s| + 2 * multiset(s)[' ']
    ensures ' ' !in s ==> r == s
  {
    if |s| == 0 then ""
    else
      assert s == [s[0]] + s[1..];
      (if s[0] == ' ' then "%20" else [s[0]]) + EncodeSpaces(s[1..])
  }

  /** Reads every "%20" back as a blank; the reference inverse of EncodeSpaces. */
  function DecodeSpaces(s: string): string
  {
    if |s| == 0 then ""
    else if |s| >= 3 && s[..3] == "%20" then " " + DecodeSpaces(s[3..])
    else [s[0]] + DecodeSpaces(s[1..])
  }

  lemma DecodeEscape(e: string)
    ensures DecodeSpaces("%20" + e) == " " + DecodeSpaces(e)
  {
    assert ("%20" + e)[..3] == "%20";
    assert ("%20" + e)[3..] == e;
  }

  lemma DecodeOther(c: char, e: string)
    requires c != '%'
    ensures DecodeSpaces([c] + e) == [c] + DecodeSpaces(e)
  {
    var s := [c] + e;
    assert s[1..] == e;
    if |s| >= 3 {
      assert s[..3][0] == c;
    }
  }

  /** "%20" occurs in `s` at position `k`. */
  predicate EscapeAt(s: string, k: int)
    requires 0 <= k <= |s| - 3
  {
    s[k] == '%' && s[k + 1] == '2' && s[k + 2] == '0'
  }

  /** No "%20" occurs in `s`. */
  predicate NoEscape(s: string) {
    forall k :: 0 <= k <= |s| - 3 ==> !EscapeAt(s, k)
  }

  lemma DecodePercent(e: string)
    requires !(|e| >= 2 && e[0] == '2' && e[1] == '0')
    ensures DecodeSpaces("%" + e) == "%" + DecodeSpaces(e)
  {
    var s := "%" + e;
    assert s[1..] == e;
    if |s| >= 3 {
      assert s[..3][1] == e[0] && s[..3][2] == e[1];
    }
  }

  lemma EncodeStart(t: string)
    requires |t| > 0
    ensures EncodeSpaces(t) == (if t[0] == ' ' then "%20" else [t[0]]) + EncodeSpaces(t[1..])
  {
  }

  /** When the original holds no "%20" of its own, the rewrite can be undone
      exactly; a '%' elsewhere does no harm. */
  lemma {:induction false} DecodeEncodeSpaces(s: string)
    requires NoEscape(s)
    ensures DecodeSpaces(EncodeSpaces(s)) == s
  {
    if |s| > 0 {
      var tail := s[1..];
      assert s == [s[0]] + tail;
      assert NoEscape(tail) by {
        forall k | 0 <= k <= |tail| - 3 ensures !EscapeAt(tail, k) {
          assert !EscapeAt(s, k + 1);
        }
      }
      DecodeEncodeSpaces(tail);
      var e := EncodeSpaces(tail);
      EncodeStart(s);
      if s[0] == ' ' {
        assert EncodeSpaces(s) == "%20" + e;
        DecodeEscape(e);
      } else if s[0] == '%' {
        assert EncodeSpaces(s) == "%" + e;
        if |e| >= 2 && e[0] == '2' && e[1] == '0' {
          EncodeStart(tail);
          EncodeStart(tail[1..]);
          assert EscapeAt(s, 0);
          assert false;
        } else {
          DecodePercent(e);
        }
      } else {
        assert EncodeSpaces(s) == [s[0]] + e;
        DecodeOther(s[0], e);
      }
    }
  }

  /** A "%20" already in the original passes the rewrite untouched but is
      read back as a blank, so without NoEscape the rewrite cannot be undone. */
  lemma EscapeNotRecovered(rest: string)
    requires ' ' !in rest
    ensures EncodeSpaces("%20" + rest) == "%20" + rest
    ensures DecodeSpaces(EncodeSpaces("%20" + rest)) == " " + DecodeSpaces(rest)
    ensures DecodeSpaces(EncodeSpaces("%20" + rest)) != "%20" + rest
  {
    assert ' ' !in "%20" + rest;
    DecodeEscape(rest);
    assert (" " + DecodeSpaces(rest))[0] != ("%20" + rest)[0];
  }
}
