/**
 * The coordinate selection of the table's `maps` and `image` cells in
 * `src/components/Table.tsx`: which coordinates (if any) a row's location
 * value yields, by the resolver or by splitting on a comma, and which of the
 * cell's outcomes is shown. The markup of each outcome is not modelled.
 */
module TableCells {
  import opened Optional
  import opened Strings
  import opened JsNumbers
  import opened Decimals
  import opened Maps
  import opened Table

  const MapsHost: string := "google.com/maps"
  const ShortHost: string := "goo.gl/maps"

  /** `value.includes('google.com/maps') || value.includes('goo.gl/maps')`. */
  predicate IsMapsLink(v: string) {
    Contains(v, MapsHost) || Contains(v, ShortHost)
  }

  /**
   * `{ lat: parseFloat(v.split(',')[0]), lng: parseFloat(v.split(',')[1]) }`:
   * no trimming and no range check. Only reached when `v` has a comma.
   */
  function SplitPair(v: string): Coordinates
    requires ',' in v
  {
    var parts := Split(v, ',');
    Coordinates(ParseFloat(parts[0]), ParseFloat(parts[1]))
  }

  /**
   * `const [lat, lng] = v.split(',').map(c => parseFloat(c.trim()))`, kept
   * only when both are numbers in range; a value without a second piece
   * leaves `lng` undefined, which `isNaN` rejects.
   */
  function ValidatedPair(v: string): (r: Option<Coordinates>)
    ensures r.Some? ==> ',' in v && Valid(r.value)
  {
    var parts := Split(v, ',');
    if |parts| < 2 then None
    else Validate(ParseFloat(Trim(parts[0])), ParseFloat(Trim(parts[1])))
  }

  /** What the `maps` cell shows. */
  datatype MapsView =
    | InvalidLocationData
    | PreviewNotAvailable(link: string)
    | MiniMap(coordinates: Coordinates, link: string)

  /** The coordinates the resolver gives a value, tried only on a maps link. */
  function FromUrl(v: string): (r: Option<Coordinates>)
    ensures r.Some? ==> Valid(r.value)
  {
    if IsMapsLink(v) then ParseGoogleMapsUrl(v) else None
  }

  /**
   * The `maps` cell as written: a non-string value is invalid; a maps link
   * is resolved; failing that, a value with a comma is split without any
   * check; only then is the validated retry tried, and after it the
   * "preview not available" outcome.
   */
  function MapsCell(value: Option<Cell>): (r: MapsView)
    ensures r == InvalidLocationData <==> value.None? || value.value.Num?
    ensures !r.InvalidLocationData? ==> r.link == value.value.s
    ensures r.MiniMap? && FromUrl(value.value.s).Some? ==> r.coordinates == FromUrl(value.value.s).value
  {
    if value.None? || value.value.Num? then InvalidLocationData
    else
      var v := value.value.s;
      var fromUrl := FromUrl(v);
      var parsed := if fromUrl.None? && ',' in v then Some(SplitPair(v)) else fromUrl;
      if parsed.Some? then MiniMap(parsed.value, v)
      else
        var retried := if ',' in v then ValidatedPair(v) else None;
        match retried
        case Some(c) => MiniMap(c, v)
        case None => PreviewNotAvailable(v)
  }

  /** A missing field or a number is invalid location data, and nothing else is. */
  lemma MapsCellInvalid(value: Option<Cell>)
    ensures MapsCell(value) == InvalidLocationData <==> value.None? || value.value.Num?
  {
  }

  /** The resolver comes first: a link it resolves is shown at the resolved coordinates. */
  lemma MapsCellPrefersUrl(v: string)
    requires IsMapsLink(v) && ParseGoogleMapsUrl(v).Some?
    ensures MapsCell(Some(Text(v))) == MiniMap(ParseGoogleMapsUrl(v).value, v)
    ensures Valid(MapsCell(Some(Text(v))).coordinates)
  {
  }

  /**
   * A string with a comma that the resolver does not settle is shown at
   * its split coordinates, checked or not.
   */
  lemma MapsCellSplitUnchecked(v: string)
    requires ',' in v && FromUrl(v).None?
    ensures MapsCell(Some(Text(v))) == MiniMap(SplitPair(v), v)
  {
  }

  /**
   * The preview is unavailable exactly for the strings without a comma that
   * the resolver does not settle: the validated retry never changes the
   * outcome, because it needs a comma and the split has taken all of those.
   */
  lemma MapsCellPreview(v: string)
    ensures MapsCell(Some(Text(v))).PreviewNotAvailable? <==> ',' !in v && FromUrl(v).None?
    ensures MapsCell(Some(Text(v))) == MapsCellWithoutRetry(v)
  {
  }

  /** The `maps` cell of a string with the validated retry removed. */
  function MapsCellWithoutRetry(v: string): MapsView {
    var fromUrl := FromUrl(v);
    if fromUrl.Some? then MiniMap(fromUrl.value, v)
    else if ',' in v then MiniMap(SplitPair(v), v)
    else PreviewNotAvailable(v)
  }

  /** Text that starts with no white space, sign, digit, point or `Infinity` reads as NaN. */
  lemma ParseFloatNaN(t: string)
    requires |t| > 0 && !IsWhiteSpace(t[0]) && !IsDigit(t[0])
    requires t[0] != '+' && t[0] != '-' && t[0] != '.' && t[0] != 'I'
    ensures ParseFloat(t) == NaN
  {
    assert TrimStart(t) == t;
    assert !(|t| >= |InfinityText| && t[..|InfinityText|] == InfinityText) by {
      if |t| >= |InfinityText| {
        assert t[..|InfinityText|][0] == t[0];
      }
    }
    assert DigitRunEnd(t, 0) == 0;
  }

  /** A lower-case letter on its own reads as NaN. */
  lemma ParseFloatOfLetter(c: char)
    requires 'a' <= c <= 'z'
    ensures ParseFloat([c]) == NaN
  {
    var t: string := [c];
    assert t[0] == c;
    ParseFloatNaN(t);
  }

  lemma SplitOfLetters()
    ensures Split("a,b", ',') == ["a", "b"]
    ensures Trim("a") == "a" && Trim("b") == "b"
  {
    assert "a,b" == "a" + "," + "b";
    assert "a" == ['a'] && "b" == ['b'];
    SplitOfPair("a", "b");
    TrimOfTrimmed("a");
    TrimOfTrimmed("b");
  }

  lemma LettersAreNoLink()
    ensures !IsMapsLink("a,b") && FromUrl("a,b").None? && ',' in "a,b"
  {
    assert "a,b"[1] == ',';
  }

  lemma SplitPairOfLetters()
    ensures SplitPair("a,b") == Coordinates(NaN, NaN)
  {
    SplitOfLetters();
    assert "a" == ['a'] && "b" == ['b'];
    ParseFloatOfLetter('a');
    ParseFloatOfLetter('b');
  }

  lemma ValidatedPairOfLetters()
    ensures ValidatedPair("a,b").None?
  {
    SplitOfLetters();
    assert "a" == ['a'] && "b" == ['b'];
    ParseFloatOfLetter('a');
    ParseFloatOfLetter('b');
  }

  /**
   * The text `a,b` is no map reference, yet the `maps` cell shows a map at
   * `(NaN, NaN)` for it: coordinates the validated retry would have refused.
   */
  lemma MapsCellAcceptsNaN()
    ensures MapsCell(Some(Text("a,b"))) == MiniMap(Coordinates(NaN, NaN), "a,b")
    ensures !Valid(MapsCell(Some(Text("a,b"))).coordinates)
    ensures ValidatedPair("a,b").None?
  {
    var v := "a,b";
    LettersAreNoLink();
    assert MapsCell(Some(Text(v))) == MiniMap(SplitPair(v), v) by { MapsCellSplitUnchecked(v); }
    SplitPairOfLetters();
    ValidatedPairOfLetters();
  }

  /**
   * The `maps` cell with the unchecked split replaced by the validated
   * retry: a string the resolver does not settle is split, trimmed and
   * range-checked, and the preview is unavailable when that fails too.
   */
  function MapsCellValidated(value: Option<Cell>): (r: MapsView)
    ensures r.MiniMap? ==> Valid(r.coordinates)
    ensures r == InvalidLocationData <==> value.None? || value.value.Num?
    ensures r.PreviewNotAvailable? <==>
      value.Some? && value.value.Text? && FromUrl(value.value.s).None? && ValidatedPair(value.value.s).None?
  {
    if value.None? || value.value.Num? then InvalidLocationData
    else
      var v := value.value.s;
      var fromUrl := FromUrl(v);
      var parsed := if fromUrl.Some? then fromUrl else ValidatedPair(v);
      if parsed.Some? then MiniMap(parsed.value, v) else PreviewNotAvailable(v)
  }

  /** Both versions agree on every value the resolver settles. */
  lemma ValidatedAgreesOnLinks(v: string)
    requires FromUrl(v).Some?
    ensures MapsCellValidated(Some(Text(v))) == MapsCell(Some(Text(v))) == MiniMap(FromUrl(v).value, v)
  {
  }

  /** Both versions agree on a plain pair of in-range decimals such as `48.8584,2.2945`. */
  lemma ValidatedAgreesOnDecimalPairs(a: string, b: string)
    requires DecimalText(a) && DecimalText(b)
    requires Valid(Coordinates(Finite(DecimalValue(a)), Finite(DecimalValue(b))))
    ensures var v := a + "," + b;
      var c := Coordinates(Finite(DecimalValue(a)), Finite(DecimalValue(b)));
      MapsCell(Some(Text(v))) == MiniMap(c, v) && MapsCellValidated(Some(Text(v))) == MiniMap(c, v)
  {
    DecimalPairFacts(a, b);
    PlainPairAgrees(a, b);
  }

  /** What a pair of decimals offers both versions: plain pieces, no link, exact values. */
  lemma DecimalPairFacts(a: string, b: string)
    requires DecimalText(a) && DecimalText(b)
    ensures ',' !in a && ',' !in b && Trim(a) == a && Trim(b) == b
    ensures !IsMapsLink(a + "," + b)
    ensures ParseFloat(a) == Finite(DecimalValue(a)) && ParseFloat(b) == Finite(DecimalValue(b))
  {
    DecimalTextPlain(a);
    DecimalTextPlain(b);
    DecimalPairIsNoLink(a, b);
    ParseFloatOfDecimal(a);
    ParseFloatOfDecimal(b);
  }

  /**
   * On two comma-free, trimmed pieces that form no link, both versions
   * show the split pair when it is valid.
   */
  lemma PlainPairAgrees(a: string, b: string)
    requires ',' !in a && ',' !in b && Trim(a) == a && Trim(b) == b
    requires !IsMapsLink(a + "," + b)
    requires Valid(Coordinates(ParseFloat(a), ParseFloat(b)))
    ensures var v := a + "," + b;
      var c := Coordinates(ParseFloat(a), ParseFloat(b));
      MapsCell(Some(Text(v))) == MiniMap(c, v) && MapsCellValidated(Some(Text(v))) == MiniMap(c, v)
  {
    var v := PlainPairPieces(a, b);
    var c := Coordinates(ParseFloat(a), ParseFloat(b));
    assert FromUrl(v).None?;
    assert MapsCell(Some(Text(v))) == MiniMap(c, v) by { MapsCellSplitUnchecked(v); }
    assert MapsCellValidated(Some(Text(v))) == MiniMap(c, v) by {
      assert ValidatedPair(v) == Some(c);
      ValidatedFallback(v);
    }
  }

  /** How both versions split a pair of comma-free, trimmed pieces. */
  lemma PlainPairPieces(a: string, b: string) returns (v: string)
    requires ',' !in a && ',' !in b && Trim(a) == a && Trim(b) == b
    ensures v == a + "," + b && ',' in v
    ensures SplitPair(v) == Coordinates(ParseFloat(a), ParseFloat(b))
    ensures ValidatedPair(v) == Validate(ParseFloat(a), ParseFloat(b))
  {
    v := a + "," + b;
    assert v[|a|] == ',';
    SplitOfPair(a, b);
  }

  lemma SplitOfPair(a: string, b: string)
    requires ',' !in a && ',' !in b
    ensures Split(a + "," + b, ',') == [a, b]
  {
    assert Join([a, b], ',') == a + "," + b;
    SplitJoin([a, b], ',');
  }

  /** Without a resolved link, the corrected cell shows what the validated split gives. */
  lemma ValidatedFallback(v: string)
    requires FromUrl(v).None?
    ensures MapsCellValidated(Some(Text(v))) ==
      if ValidatedPair(v).Some? then MiniMap(ValidatedPair(v).value, v) else PreviewNotAvailable(v)
  {
  }

  /** A pair of decimals has no letter `g`, so it names no maps host. */
  lemma DecimalPairIsNoLink(a: string, b: string)
    requires DecimalText(a) && DecimalText(b)
    ensures !IsMapsLink(a + "," + b)
  {
    var v := a + "," + b;
    DecimalTextChars(a);
    DecimalTextChars(b);
    assert 'g' !in v by {
      forall k | 0 <= k < |v|
        ensures v[k] != 'g'
      {
        if k < |a| {
          assert v[k] == a[k];
        } else if k > |a| {
          assert v[k] == b[k - |a| - 1];
        }
      }
    }
    assert MapsHost[0] == 'g' && ShortHost[0] == 'g';
    NotContainedWithoutFirstChar(v, MapsHost);
    NotContainedWithoutFirstChar(v, ShortHost);
  }

  /** What the `image` cell shows: nothing, or a location image for a pair and a key. */
  datatype ImageView = NoImage | LocationImage(coordinates: Coordinates, apiKey: string)

  /**
   * The coordinates of the `image` cell for a non-empty string: the resolver
   * on a maps link, else the unchecked comma split, else none.
   */
  function ImageCoordinates(v: string): (r: Option<Coordinates>)
    ensures r.Some? ==> IsMapsLink(v) || ',' in v
    ensures IsMapsLink(v) ==> r == ParseGoogleMapsUrl(v) && (r.Some? ==> Valid(r.value))
  {
    if IsMapsLink(v) then ParseGoogleMapsUrl(v)
    else if ',' in v then Some(SplitPair(v))
    else None
  }

  /**
   * The `image` cell of a row: it reads the row's `maps` field, whatever
   * the column, and shows an image only for a non-empty string with
   * coordinates and a non-empty API key.
   */
  function ImageCell(row: Row, apiKey: Option<string>): (r: ImageView)
    ensures r.LocationImage? <==>
      "maps" in row && row["maps"].Text? && row["maps"].s != "" &&
      ImageCoordinates(row["maps"].s).Some? && apiKey.Some? && apiKey.value != ""
    ensures r.LocationImage? ==>
      r.coordinates == ImageCoordinates(row["maps"].s).value && r.apiKey == apiKey.value
  {
    var mapsValue := if "maps" in row then Some(row["maps"]) else None;
    if mapsValue.None? || mapsValue.value.Num? || mapsValue.value.s == "" then NoImage
    else
      var coordinates := ImageCoordinates(mapsValue.value.s);
      if coordinates.None? then NoImage
      else if apiKey.None? || apiKey.value == "" then NoImage
      else LocationImage(coordinates.value, apiKey.value)
  }

  /** An image at resolved coordinates is always at a valid pair. */
  lemma ImageFromLinkIsValid(row: Row, apiKey: Option<string>)
    requires "maps" in row && row["maps"].Text? && IsMapsLink(row["maps"].s)
    ensures ImageCell(row, apiKey).LocationImage? ==> Valid(ImageCell(row, apiKey).coordinates)
  {
  }

  /** Like the `maps` cell, the `image` cell shows `a,b` at `(NaN, NaN)` when given a key. */
  lemma ImageCellAcceptsNaN(row: Row, key: string)
    requires "maps" in row && row["maps"] == Text("a,b") && key != ""
    ensures ImageCell(row, Some(key)) == LocationImage(Coordinates(NaN, NaN), key)
  {
    LettersAreNoLink();
    SplitPairOfLetters();
  }

  /**
   * The coordinates of the `image` cell with the comma split checked as the
   * `maps` cell's retry checks it: trimmed, parsed and range-checked.
   */
  function ImageCoordinatesValidated(v: string): (r: Option<Coordinates>)
    ensures r.Some? ==> Valid(r.value)
    ensures IsMapsLink(v) ==> r == ParseGoogleMapsUrl(v)
    ensures !IsMapsLink(v) ==> r == ValidatedPair(v)
  {
    if IsMapsLink(v) then ParseGoogleMapsUrl(v)
    else ValidatedPair(v)
  }

  /** The `image` cell with the comma split validated: an image is only ever at a valid pair. */
  function ImageCellValidated(row: Row, apiKey: Option<string>): (r: ImageView)
    ensures r.LocationImage? <==>
      "maps" in row && row["maps"].Text? && row["maps"].s != "" &&
      ImageCoordinatesValidated(row["maps"].s).Some? && apiKey.Some? && apiKey.value != ""
    ensures r.LocationImage? ==> Valid(r.coordinates) && r.apiKey == apiKey.value
  {
    var mapsValue := if "maps" in row then Some(row["maps"]) else None;
    if mapsValue.None? || mapsValue.value.Num? || mapsValue.value.s == "" then NoImage
    else
      var coordinates := ImageCoordinatesValidated(mapsValue.value.s);
      if coordinates.None? then NoImage
      else if apiKey.None? || apiKey.value == "" then NoImage
      else LocationImage(coordinates.value, apiKey.value)
  }

  /** Both versions of the `image` cell agree wherever the value is a maps link. */
  lemma ImageCellsAgreeOnLinks(row: Row, apiKey: Option<string>)
    requires "maps" in row && row["maps"].Text? && IsMapsLink(row["maps"].s)
    ensures ImageCellValidated(row, apiKey) == ImageCell(row, apiKey)
  {
  }

  /** The corrected `image` cell shows nothing for `a,b`. */
  lemma ImageCellValidatedRefusesLetters(row: Row, key: string)
    requires "maps" in row && row["maps"] == Text("a,b") && key != ""
    ensures ImageCellValidated(row, Some(key)) == NoImage
  {
    LettersAreNoLink();
    ValidatedPairOfLetters();
  }

  /** What a cell of the body shows. */
  datatype CellView =
    | StatusBadge(value: Option<Cell>)
    | FormattedDate(value: Option<Cell>)
    | FormattedPrice(value: Option<Cell>)
    | ImageOf(image: ImageView)
    | MapOf(view: MapsView)
    | Plain(value: Option<Cell>)

  /**
   * The choice a body cell makes on its lower-cased header `key`: status,
   * date and price formatting first, then the given `image` and `maps`
   * outcomes, else the raw value.
   */
  function Dispatch(key: string, value: Option<Cell>, image: ImageView, mapsView: MapsView): (r: CellView)
    ensures r.ImageOf? <==> key == "image"
    ensures r.MapOf? <==> key == "maps"
    ensures r.ImageOf? ==> r.image == image
    ensures r.MapOf? ==> r.view == mapsView
    ensures r.StatusBadge? <==> key == "status"
    ensures r.FormattedDate? <==> key == "date"
    ensures r.FormattedPrice? <==> key == "prix"
    ensures r.StatusBadge? || r.FormattedDate? || r.FormattedPrice? || r.Plain? ==> r.value == value
    ensures key != "status" && key != "date" && key != "prix" && key != "image" && key != "maps" ==> r == Plain(value)
  {
    if key == "status" then StatusBadge(value)
    else if key == "date" then FormattedDate(value)
    else if key == "prix" then FormattedPrice(value)
    else if key == "image" then ImageOf(image)
    else if key == "maps" then MapOf(mapsView)
    else Plain(value)
  }

  /** What a cell of the body shows as written: the `maps` and `image` cells with their unchecked split. */
  function CellForAsWritten(row: Row, header: string, apiKey: Option<string>): (r: CellView)
    ensures r.ImageOf? <==> ToLower(header) == "image"
    ensures r.MapOf? <==> ToLower(header) == "maps"
    ensures r.MapOf? ==> r.view == MapsCell(Field(row, header))
    ensures r.ImageOf? ==> r.image == ImageCell(row, apiKey)
  {
    Dispatch(ToLower(header), Field(row, header), ImageCell(row, apiKey), MapsCell(Field(row, header)))
  }

  /**
   * What a cell of the body shows, chosen by the lower-cased header, with
   * the corrected `maps` and `image` cells, whose comma split is validated.
   */
  function CellFor(row: Row, header: string, apiKey: Option<string>): (r: CellView)
    ensures r.ImageOf? <==> ToLower(header) == "image"
    ensures r.MapOf? <==> ToLower(header) == "maps"
    ensures r.MapOf? ==> r.view == MapsCellValidated(Field(row, header))
    ensures r.ImageOf? ==> r.image == ImageCellValidated(row, apiKey)
  {
    Dispatch(ToLower(header), Field(row, header), ImageCellValidated(row, apiKey), MapsCellValidated(Field(row, header)))
  }

  /** The corrected body differs from the body as written only in its `maps` and `image` cells. */
  lemma CellForAgreesElsewhere(row: Row, header: string, apiKey: Option<string>)
    requires ToLower(header) != "maps" && ToLower(header) != "image"
    ensures CellFor(row, header, apiKey) == CellForAsWritten(row, header, apiKey)
  {
  }

  /** Both bodies show the same cell for a `maps` field holding a link the resolver settles. */
  lemma CellForAgreesOnLinks(row: Row, header: string, apiKey: Option<string>)
    requires "maps" in row && row["maps"].Text? && FromUrl(row["maps"].s).Some?
    ensures CellFor(row, header, apiKey) == CellForAsWritten(row, header, apiKey)
  {
    var v := row["maps"].s;
    ValidatedAgreesOnLinks(v);
    if ToLower(header) == "maps" {
      assert Field(row, header) == Some(Text(v));
    }
    assert ImageCellValidated(row, apiKey) == ImageCell(row, apiKey) by {
      assert IsMapsLink(v);
      ImageCellsAgreeOnLinks(row, apiKey);
    }
  }

  /**
   * Under a `Maps` header (in any letter case), `a,b` shows a map at (NaN, NaN) as written and
   * an unavailable preview once corrected.
   */
  lemma CellForsDifferOnLetters(row: Row, header: string, apiKey: Option<string>)
    requires ToLower(header) == "maps" && "maps" in row && row["maps"] == Text("a,b")
    ensures CellForAsWritten(row, header, apiKey) == MapOf(MiniMap(Coordinates(NaN, NaN), "a,b"))
    ensures CellFor(row, header, apiKey) == MapOf(PreviewNotAvailable("a,b"))
  {
    MapsCellsOfLetters();
  }

  /** The two `maps` cells on `a,b`. */
  lemma MapsCellsOfLetters()
    ensures MapsCell(Some(Text("a,b"))) == MiniMap(Coordinates(NaN, NaN), "a,b")
    ensures MapsCellValidated(Some(Text("a,b"))) == PreviewNotAvailable("a,b")
  {
    MapsCellAcceptsNaN();
    LettersAreNoLink();
  }

  /** Headers that differ only in the case of their letters show the same cell. */
  lemma CellIgnoresHeaderCase(row: Row, h1: string, h2: string, apiKey: Option<string>)
    requires ToLower(h1) == ToLower(h2)
    ensures CellFor(row, h1, apiKey) == CellFor(row, h2, apiKey)
    ensures CellForAsWritten(row, h1, apiKey) == CellForAsWritten(row, h2, apiKey)
  {
  }
}
