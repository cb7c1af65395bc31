/**
 * The map-reference resolver (`parseGoogleMapsUrl`) and the street-view
 * image URL builder (`getStreetViewImageUrl`) of `src/utils/maps.ts`.
 */
module Maps {
  import opened Optional
  import opened Strings
  import opened JsNumbers
  import opened Decimals
  import opened Scan

  /** The `Coordinates` record: a latitude and a longitude. */
  datatype Coordinates = Coordinates(lat: Number, lng: Number)

  /** Both values are finite, the latitude in [-90, 90] and the longitude in [-180, 180]. */
  predicate Valid(c: Coordinates) {
    c.lat.Finite? && c.lng.Finite? &&
    -90.0 <= c.lat.value <= 90.0 && -180.0 <= c.lng.value <= 180.0
  }

  /**
   * The guard every candidate passes through: `!isNaN(lat) && !isNaN(lng)
   * && lat >= -90 && lat <= 90 && lng >= -180 && lng <= 180`. It keeps a pair
   * exactly when the pair is valid (infinities fail one of the comparisons).
   */
  function Validate(lat: Number, lng: Number): (r: Option<Coordinates>)
    ensures r == if Valid(Coordinates(lat, lng)) then Some(Coordinates(lat, lng)) else None
  {
    if !IsNaN(lat) && !IsNaN(lng) &&
       AtLeast(lat, -90.0) && AtMost(lat, 90.0) &&
       AtLeast(lng, -180.0) && AtMost(lng, 180.0)
    then Some(Coordinates(lat, lng))
    else None
  }

  /** A shortened link needs a network hop to expand; the resolver gives up on it. */
  const ShortLinkMarker: string := "goo.gl/maps/"

  /** `@48.8584,2.2945` of a place URL (the optional `,<zoom>z` after it changes no capture). */
  const PlacePattern: Pattern := Pattern("@", ",")
  /** `ll=48.8584,2.2945` (older format). */
  const LatLngParam: Pattern := Pattern("ll=", ",")
  /** `q=48.8584,2.2945` (search format). */
  const QueryParam: Pattern := Pattern("q=", ",")
  /** `?q=48.8584,2.2945` (place format). */
  const PlaceQueryParam: Pattern := Pattern("?q=", ",")
  /** `!3d48.8584!4d2.2945` (embed format). */
  const EmbedData: Pattern := Pattern("!3d", "!4d")
  /** `!8m2!3d48.8584!4d2.2945` (data format). */
  const DataBlob: Pattern := Pattern("!8m2!3d", "!4d")

  /** The alternate encodings, in the order the resolver tries them. */
  const AlternatePatterns: seq<Pattern> := [LatLngParam, QueryParam, PlaceQueryParam, EmbedData, DataBlob]

  /** What one pattern contributes: its leftmost match, parsed and range-checked. */
  function PatternResult(url: string, p: Pattern): (r: Option<Coordinates>)
    ensures r.Some? ==> FirstMatch(url, p, 0).Some? && Valid(r.value)
  {
    match FirstMatch(url, p, 0)
    case None => None
    case Some(m) => Validate(ParseFloat(m.lat), ParseFloat(m.lng))
  }

  /**
   * The last resort: the whole string is `-?\d+\.\d+,-?\d+\.\d+`; its two
   * comma-separated pieces are trimmed, parsed and range-checked.
   */
  function BareResult(url: string): (r: Option<Coordinates>)
    ensures r.Some? ==> WholeMatch(url).Some? && Valid(r.value)
  {
    match WholeMatch(url)
    case None => None
    case Some(m) =>
      assert url[|m.lat|] == ',';
      var parts := Split(url, ',');
      Validate(ParseFloat(Trim(parts[0])), ParseFloat(Trim(parts[1])))
  }

  /** `parseGoogleMapsUrl`: total, so every failure is `None` and nothing is thrown. */
  function ParseGoogleMapsUrl(url: string): (r: Option<Coordinates>)
    ensures r.Some? ==> Valid(r.value)
  {
    if Contains(url, ShortLinkMarker) then None
    else
      var place := PatternResult(url, PlacePattern);
      if place.Some? then place
      else
        // the loop over the alternates returns the first result that passes its guard
        var other := FirstPresent(PatternResults(url, AlternatePatterns));
        if other.Some? then other else BareResult(url)
  }

  /** The first candidate that is present, or `None` when none is. */
  function FirstPresent<T>(cs: seq<Option<T>>): (r: Option<T>)
    ensures r.Some? ==> exists k :: 0 <= k < |cs| && cs[k] == r && (forall j :: 0 <= j < k ==> cs[j].None?)
    ensures r.None? <==> (forall k :: 0 <= k < |cs| ==> cs[k].None?)
  {
    if |cs| == 0 then None
    else if cs[0].Some? then cs[0]
    else
      var rest := FirstPresent(cs[1..]);
      assert forall k :: 1 <= k < |cs| ==> cs[k] == cs[1..][k - 1];
      rest
  }

  /** What each of `patterns` contributes, in order. */
  function PatternResults(url: string, patterns: seq<Pattern>): (cs: seq<Option<Coordinates>>)
    ensures |cs| == |patterns|
    ensures forall k :: 0 <= k < |cs| ==> cs[k] == PatternResult(url, patterns[k])
  {
    seq(|patterns|, k requires 0 <= k < |patterns| => PatternResult(url, patterns[k]))
  }

  /** The candidates in the order the resolver considers them. */
  function Candidates(url: string): (cs: seq<Option<Coordinates>>)
    ensures |cs| == |AlternatePatterns| + 2
    ensures cs[0] == PatternResult(url, PlacePattern) && cs[|cs| - 1] == BareResult(url)
    ensures forall k :: 0 <= k < |cs| && cs[k].Some? ==> Valid(cs[k].value)
  {
    var others := PatternResults(url, AlternatePatterns);
    var cs := [PatternResult(url, PlacePattern)] + others + [BareResult(url)];
    assert forall k :: 1 <= k < |cs| - 1 ==> cs[k] == others[k - 1];
    cs
  }

  /** Looking through candidates and then a fallback is looking through both in order. */
  lemma {:induction false} FirstPresentThen<T>(cs: seq<Option<T>>, last: Option<T>)
    ensures FirstPresent(cs + [last]) == if FirstPresent(cs).Some? then FirstPresent(cs) else last
    decreases |cs|
  {
    if |cs| > 0 {
      FirstPresentThen(cs[1..], last);
      assert (cs + [last])[1..] == cs[1..] + [last];
    }
  }

  /**
   * The cascade: a short link yields nothing; otherwise the result is the
   * first candidate that passed its guard, and nothing when none did.
   */
  lemma ResolutionOrder(url: string)
    ensures ParseGoogleMapsUrl(url) ==
      if Contains(url, ShortLinkMarker) then None else FirstPresent(Candidates(url))
  {
    CascadeOrder(PatternResult(url, PlacePattern), PatternResults(url, AlternatePatterns), BareResult(url));
  }

  /** A first candidate, then a run of candidates, then a fallback: taken in that order. */
  lemma CascadeOrder<T>(first: Option<T>, middle: seq<Option<T>>, last: Option<T>)
    ensures FirstPresent([first] + middle + [last]) ==
      if first.Some? then first else if FirstPresent(middle).Some? then FirstPresent(middle) else last
  {
    var cs := [first] + middle + [last];
    assert cs[0] == first && cs[1..] == middle + [last];
    FirstPresentThen(middle, last);
  }

  /**
   * What a pattern's candidate is: the exact decimal values of the two
   * captures of its leftmost match, kept when in range (`parseFloat` never
   * yields NaN on these captures).
   */
  lemma PatternResultMeaning(url: string, p: Pattern)
    requires FirstMatch(url, p, 0).Some?
    ensures DecimalText(FirstMatch(url, p, 0).value.lat) && DecimalText(FirstMatch(url, p, 0).value.lng)
    ensures PatternResult(url, p) ==
      Validate(Finite(DecimalValue(FirstMatch(url, p, 0).value.lat)), Finite(DecimalValue(FirstMatch(url, p, 0).value.lng)))
  {
    var m := FirstMatch(url, p, 0).value;
    MatchAtSound(url, m.start, p);
    ParseFloatOfDecimal(m.lat);
    ParseFloatOfDecimal(m.lng);
  }

  /** A match can only start where the lead occurs. */
  lemma MatchNeedsLead(url: string, head: string, p: Pattern, k: nat)
    requires |head| <= |url| && url[..|head|] == head && k + |p.lead| <= |head|
    ensures MatchAt(url, k, p).Some? ==> OccursAt(head, p.lead, k)
  {
    if MatchAt(url, k, p).Some? {
      var l, a, c, e := MatchAtParts(url, k, p);
      assert url[k..l] == head[k..l] by {
        forall j | k <= j < l
          ensures url[j] == head[j]
        {
          assert url[..|head|][j] == url[j];
        }
      }
      assert OccursAt(head, p.lead, k);
    }
  }

  /**
   * Where the lead first occurs and is followed by two decimal texts joined
   * by the separator (and then by something other than a digit), that is the
   * match `url.match(pattern)` reports, with exactly those captures.
   */
  lemma MatchAtFirstLead(pre: string, p: Pattern, lat: string, lng: string, post: string)
    returns (url: string, b: nat)
    requires WellFormed(p)
    requires forall k :: 0 <= k < |pre| ==> !OccursAt(pre + p.lead, p.lead, k)
    requires DecimalText(lat) && DecimalText(lng) && (post == [] || !IsDigit(post[0]))
    ensures url == pre + p.lead + lat + p.sep + lng + post
    ensures b == |pre| + |p.lead| + |lat| + |p.sep| + |lng|
    ensures FirstMatch(url, p, 0) == Some(Match(|pre|, lat, lng, b))
  {
    var a, c;
    url, a, c, b := PiecesInPlace(pre, p, lat, lng, post);
    HeadInPlace(pre, p, lat, lng, post);
    FirstLeadWins(url, pre, p, a, b);
  }

  /** A match at the first occurrence of the lead, followed by no digit, is the one reported. */
  lemma FirstLeadWins(url: string, pre: string, p: Pattern, a: int, b: int)
    requires WellFormed(p) && SplitsAt(url, |pre|, p, a, b) && (b == |url| || !IsDigit(url[b]))
    requires |pre + p.lead| <= |url| && url[..|pre + p.lead|] == pre + p.lead
    requires forall k :: 0 <= k < |pre| ==> !OccursAt(pre + p.lead, p.lead, k)
    ensures FirstMatch(url, p, 0) == Some(Match(|pre|, url[|pre| + |p.lead|..a], url[a + |p.sep|..b], b))
  {
    var m := Match(|pre|, url[|pre| + |p.lead|..a], url[a + |p.sep|..b], b);
    assert MatchAt(url, |pre|, p) == Some(m) by { MatchAtComplete(url, |pre|, p, a, b); }
    assert forall k :: 0 <= k < |pre| ==> MatchAt(url, k, p).None? by { NoMatchBeforeLead(url, pre, p); }
    LeftmostAt(url, p, |pre|);
  }

  /** Before the first occurrence of the lead no match starts. */
  lemma NoMatchBeforeLead(url: string, pre: string, p: Pattern)
    requires |pre + p.lead| <= |url| && url[..|pre + p.lead|] == pre + p.lead
    requires forall k :: 0 <= k < |pre| ==> !OccursAt(pre + p.lead, p.lead, k)
    ensures forall k :: 0 <= k < |pre| ==> MatchAt(url, k, p).None?
  {
    forall k | 0 <= k < |pre|
      ensures MatchAt(url, k, p).None?
    {
      MatchNeedsLead(url, pre + p.lead, p, k);
    }
  }

  lemma HeadInPlace(pre: string, p: Pattern, lat: string, lng: string, post: string)
    ensures (pre + p.lead + lat + p.sep + lng + post)[..|pre + p.lead|] == pre + p.lead
  {
    var head := pre + p.lead;
    var url := pre + p.lead + lat + p.sep + lng + post;
    assert forall k :: 0 <= k < |head| ==> url[k] == head[k];
  }

  /** Where each piece of `pre + lead + lat + sep + lng + post` sits. */
  lemma PiecesInPlace(pre: string, p: Pattern, lat: string, lng: string, post: string)
    returns (url: string, a: nat, c: nat, b: nat)
    ensures url == pre + p.lead + lat + p.sep + lng + post
    ensures a == |pre| + |p.lead| + |lat| && c == a + |p.sep| && b == c + |lng| && b + |post| == |url|
    ensures url[|pre|..|pre| + |p.lead|] == p.lead && url[|pre| + |p.lead|..a] == lat
    ensures url[a..c] == p.sep && url[c..b] == lng
    ensures b < |url| ==> url[b] == post[0]
  {
    url := pre + p.lead + lat + p.sep + lng + post;
    a := |pre| + |p.lead| + |lat|;
    c := a + |p.sep|;
    b := c + |lng|;
    PieceAt(pre, p.lead, lat + p.sep + lng + post);
    PieceAt(pre + p.lead, lat, p.sep + lng + post);
    PieceAt(pre + p.lead + lat, p.sep, lng + post);
    PieceAt(pre + p.lead + lat + p.sep, lng, post);
  }

  /** The middle piece of a concatenation, however the rest is grouped. */
  lemma PieceAt(x: string, t: string, y: string)
    ensures (x + t + y)[|x|..|x| + |t|] == t
    ensures x + t + y == x + (t + y)
  {
  }

  /**
   * A place URL: when `@` first occurs before `lat,lng` and the pair is in
   * range, the resolver returns it; out of range, the place pattern yields
   * nothing and the later candidates decide.
   */
  lemma PlaceMatchDecides(pre: string, lat: string, lng: string, post: string)
    requires '@' !in pre
    requires DecimalText(lat) && DecimalText(lng) && (post == [] || !IsDigit(post[0]))
    requires !Contains(pre + "@" + lat + "," + lng + post, ShortLinkMarker)
    ensures var c := Coordinates(Finite(DecimalValue(lat)), Finite(DecimalValue(lng)));
      ParseGoogleMapsUrl(pre + "@" + lat + "," + lng + post) ==
        if Valid(c) then Some(c) else FirstPresent(Candidates(pre + "@" + lat + "," + lng + post)[1..])
  {
    var url := pre + "@" + lat + "," + lng + post;
    forall k | 0 <= k < |pre|
      ensures !OccursAt(pre + "@", "@", k)
    {
      assert (pre + "@")[k..k + 1][0] == pre[k];
    }
    var url', b := MatchAtFirstLead(pre, PlacePattern, lat, lng, post);
    PatternResultMeaning(url, PlacePattern);
    ResolutionOrder(url);
  }

  /** A URL carrying the short-link marker anywhere resolves to nothing. */
  lemma ShortLinkYieldsNothing(pre: string, post: string)
    ensures ParseGoogleMapsUrl(pre + ShortLinkMarker + post).None?
  {
    ContainsPiece(pre, ShortLinkMarker, post);
  }

  /** Two decimal texts joined by a comma, and nothing else, resolve to their values when in range. */
  lemma BarePairResolves(t1: string, t2: string)
    requires DecimalText(t1) && DecimalText(t2)
    ensures BareResult(t1 + "," + t2) == Validate(Finite(DecimalValue(t1)), Finite(DecimalValue(t2)))
  {
    BarePairReads(t1, t2);
    ParseFloatOfDecimal(t1);
    ParseFloatOfDecimal(t2);
  }

  /** A bare pair of decimal texts given to the resolver comes back as its exact values when in range. */
  lemma BarePairEndToEnd(t1: string, t2: string)
    requires DecimalText(t1) && DecimalText(t2)
    ensures ParseGoogleMapsUrl(t1 + "," + t2) == Validate(Finite(DecimalValue(t1)), Finite(DecimalValue(t2)))
  {
    var url := t1 + "," + t2;
    DecimalTextChars(t1);
    DecimalTextChars(t2);
    forall k | 0 <= k < |url|
      ensures url[k] == '-' || url[k] == '.' || url[k] == ',' || IsDigit(url[k])
    {
      if k < |t1| {
        assert url[k] == t1[k];
      } else if k > |t1| {
        assert url[k] == t2[k - |t1| - 1];
      }
    }
    assert ShortLinkMarker[0] == 'g';
    NotContainedWithoutFirstChar(url, ShortLinkMarker);
    OnlyBareFormLeft(url);
    BarePairResolves(t1, t2);
  }

  /** The last resort reads the two texts of a bare pair with `parseFloat`. */
  lemma BarePairReads(t1: string, t2: string)
    requires DecimalText(t1) && DecimalText(t2)
    ensures BareResult(t1 + "," + t2) == Validate(ParseFloat(t1), ParseFloat(t2))
  {
    BarePairMatches(t1, t2);
    BarePairSplits(t1, t2);
    DecimalTextPlain(t1);
    DecimalTextPlain(t2);
  }

  lemma BarePairMatches(t1: string, t2: string)
    requires DecimalText(t1) && DecimalText(t2)
    ensures WholeMatch(t1 + "," + t2).Some?
  {
    var url := t1 + "," + t2;
    assert url[..|t1|] == t1 && url[|t1|] == ',' && url[|t1| + 1..] == t2;
    assert IsBarePair(url);
    WholeMatchIsRegexMatch(url);
  }

  lemma BarePairSplits(t1: string, t2: string)
    requires DecimalText(t1) && DecimalText(t2)
    ensures Split(t1 + "," + t2, ',') == [t1, t2]
  {
    DecimalTextPlain(t1);
    DecimalTextPlain(t2);
    SplitAfterPiece(t1, ',', t2);
    assert Split(t2, ',') == [t2];
  }

  /** The last resort only ever accepts a whole string of the form `lat,lng`. */
  lemma BareResultNeedsPair(url: string)
    ensures BareResult(url).Some? ==> IsBarePair(url)
  {
    WholeMatchIsRegexMatch(url);
  }

  /** A pattern whose lead holds a character the URL lacks contributes nothing. */
  lemma NoCandidateWithoutLeadChar(url: string, p: Pattern, ch: char)
    requires ch in p.lead && ch !in url
    ensures FirstMatch(url, p, 0).None?
    ensures PatternResult(url, p).None?
  {
    forall k | 0 <= k <= |url|
      ensures MatchAt(url, k, p).None?
    {
      LeadCharAppears(url, p, ch, k);
    }
  }

  lemma LeadCharAppears(url: string, p: Pattern, ch: char, k: nat)
    requires k <= |url| && ch in p.lead
    ensures MatchAt(url, k, p).Some? ==> ch in url
  {
    if MatchAt(url, k, p).Some? {
      var l, a, c, e := MatchAtParts(url, k, p);
      CharOfSlice(url, k, l, ch);
    }
  }

  /** A character of a slice is a character of the whole. */
  lemma CharOfSlice(s: string, x: int, y: int, ch: char)
    requires 0 <= x <= y <= |s| && ch in s[x..y]
    ensures ch in s
  {
    var j := IndexOf(s[x..y], ch);
    assert s[x + j] == s[x..y][j];
  }

  /**
   * A string without `@`, `=` or `!` (and no short-link marker) can only
   * resolve through the bare `lat,lng` form.
   */
  lemma OnlyBareFormLeft(url: string)
    requires '@' !in url && '=' !in url && '!' !in url && !Contains(url, ShortLinkMarker)
    ensures ParseGoogleMapsUrl(url) == BareResult(url)
  {
    assert PatternResult(url, PlacePattern).None? by {
      assert PlacePattern.lead[0] == '@';
      NoCandidateWithoutLeadChar(url, PlacePattern, '@');
    }
    AlternatesNeedLeadChars(url);
    assert FirstPresent(PatternResults(url, AlternatePatterns)).None?;
  }

  /** Every alternate encoding needs an `=` or a `!`. */
  lemma AlternatesNeedLeadChars(url: string)
    requires '=' !in url && '!' !in url
    ensures forall k :: 0 <= k < |AlternatePatterns| ==> PatternResult(url, AlternatePatterns[k]).None?
  {
    forall k | 0 <= k < |AlternatePatterns|
      ensures PatternResult(url, AlternatePatterns[k]).None?
    {
      var p := AlternatePatterns[k];
      if k < 3 {
        assert p.lead[|p.lead| - 1] == '=';
        NoCandidateWithoutLeadChar(url, p, '=');
      } else {
        assert p.lead[0] == '!';
        NoCandidateWithoutLeadChar(url, p, '!');
      }
    }
  }

  /** A decimal text holds its point. */
  lemma PointInDecimal(t: string)
    requires DecimalText(t)
    ensures '.' in t
  {
    DecimalTextStart(t);
    var a := if t[0] == '-' then 1 else 0;
    PointIsFirst(t[a..]);
    assert t[a + IndexOf(t[a..], '.')] == '.';
  }

  /** Every pattern's candidate needs a decimal point somewhere in the URL. */
  lemma CandidateNeedsPoint(url: string, p: Pattern)
    ensures PatternResult(url, p).Some? ==> '.' in url
  {
    if PatternResult(url, p).Some? {
      var m := FirstMatch(url, p, 0).value;
      PatternResultMeaning(url, p);
      PointInDecimal(m.lat);
      var l, a, c, e := MatchAtParts(url, m.start, p);
      CharOfSlice(url, l, a, '.');
    }
  }

  /** Digits without a decimal point (`@48,2`, `48,2`) never resolve: every pattern demands `\d+\.\d+`. */
  lemma NoPointNoCoordinates(url: string)
    requires '.' !in url
    ensures ParseGoogleMapsUrl(url).None?
  {
    CandidateNeedsPoint(url, PlacePattern);
    forall k | 0 <= k < |AlternatePatterns|
      ensures PatternResult(url, AlternatePatterns[k]).None?
    {
      CandidateNeedsPoint(url, AlternatePatterns[k]);
    }
    if BareResult(url).Some? {
      WholeMatchIsRegexMatch(url);
      PointInDecimal(WholeMatch(url).value.lat);
    }
  }
}
