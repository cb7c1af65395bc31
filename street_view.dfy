/**
 * `getStreetViewImageUrl` of `src/utils/maps.ts`: the Street View Static API
 * request for a 400x200 image at a pair of coordinates, and the reading of
 * such a request's query parameters that it must survive.
 */
module StreetView {
  import opened Optional
  import opened Strings
  import opened JsNumbers
  import opened Maps

  const Endpoint: string := "https://maps.googleapis.com/maps/api/streetview"
  const ImageSize: string := "400x200"

  /**
   * The request URL. `show` is JavaScript's number-to-string conversion of a
   * template literal, which the model takes as given.
   */
  function StreetViewImageUrl(c: Coordinates, apiKey: string, show: Number -> string): string {
    Endpoint + "?size=" + ImageSize + "&location=" + show(c.lat) + "," + show(c.lng) + "&key=" + apiKey
  }

  /** One `name=value` query parameter. */
  datatype Param = Param(name: string, value: string)

  function Render(p: Param): string {
    p.name + "=" + p.value
  }

  function RenderAll(ps: seq<Param>): (pieces: seq<string>)
    ensures |pieces| == |ps|
    ensures forall k :: 0 <= k < |ps| ==> pieces[k] == Render(ps[k])
  {
    seq(|ps|, k requires 0 <= k < |ps| => Render(ps[k]))
  }

  /** A query string: the rendered parameters joined by `&`. */
  function QueryString(ps: seq<Param>): string
    requires |ps| > 0
  {
    Join(RenderAll(ps), '&')
  }

  /** Reads one piece of a query: the name runs to the first `=`, the value is the rest. */
  function ReadParam(piece: string): (p: Param)
    ensures '=' !in p.name
    ensures piece == (if '=' in piece then Render(p) else p.name)
  {
    var i := IndexOf(piece, '=');
    if i < |piece| then
      assert piece == piece[..i] + "=" + piece[i + 1..];
      Param(piece[..i], piece[i + 1..])
    else
      assert piece[..i] == piece;
      Param(piece, "")
  }

  /** The value of the first parameter called `name`. */
  function Lookup(ps: seq<Param>, name: string): (r: Option<string>)
    ensures r.Some? <==> exists k :: 0 <= k < |ps| && ps[k].name == name
    ensures r.Some? ==> exists k :: 0 <= k < |ps| && ps[k] == Param(name, r.value) &&
                                    (forall j :: 0 <= j < k ==> ps[j].name != name)
  {
    if |ps| == 0 then None
    else if ps[0].name == name then
      assert ps[0] == Param(name, ps[0].value);
      Some(ps[0].value)
    else
      var rest := Lookup(ps[1..], name);
      assert forall k :: 1 <= k < |ps| ==> ps[k] == ps[1..][k - 1];
      rest
  }

  /**
   * The parameter called `name` in a query string, read literally: pieces
   * split at `&`, the name up to the first `=`. Unlike `URLSearchParams` it
   * decodes neither `+` nor `%XX` escapes and does not stop at a `#`.
   */
  function SearchParam(query: string, name: string): Option<string> {
    var pieces := Split(query, '&');
    Lookup(seq(|pieces|, k requires 0 <= k < |pieces| => ReadParam(pieces[k])), name)
  }

  /** A parameter that survives rendering: no `&` anywhere and no `=` in its name. */
  predicate Plain(p: Param) {
    '&' !in p.name && '=' !in p.name && '&' !in p.value
  }

  lemma ReadRender(p: Param)
    requires '=' !in p.name
    ensures ReadParam(Render(p)) == p
  {
    IndexOfAfterPiece(p.name, '=', p.value);
    assert Render(p) == p.name + ['='] + p.value;
    assert Render(p)[..|p.name|] == p.name;
    assert Render(p)[|p.name| + 1..] == p.value;
  }

  /** Reading a query string back yields, for every name, the first value written under it. */
  lemma SearchParamOfQuery(ps: seq<Param>, name: string)
    requires |ps| > 0 && forall k :: 0 <= k < |ps| ==> Plain(ps[k])
    ensures SearchParam(QueryString(ps), name) == Lookup(ps, name)
  {
    var pieces := RenderAll(ps);
    forall k | 0 <= k < |pieces|
      ensures '&' !in pieces[k]
    {
      assert pieces[k] == ps[k].name + "=" + ps[k].value;
    }
    SplitJoin(pieces, '&');
    var read := seq(|pieces|, k requires 0 <= k < |pieces| => ReadParam(pieces[k]));
    forall k | 0 <= k < |ps|
      ensures read[k] == ps[k]
    {
      ReadRender(ps[k]);
    }
    assert read == ps;
  }

  /** The parameters of the request, in order. */
  function StreetViewParams(c: Coordinates, apiKey: string, show: Number -> string): seq<Param> {
    [Param("size", ImageSize), Param("location", show(c.lat) + "," + show(c.lng)), Param("key", apiKey)]
  }

  /** The request URL is the endpoint, `?`, and its three parameters as a query string. */
  lemma StreetViewUrlShape(c: Coordinates, apiKey: string, show: Number -> string)
    ensures StreetViewImageUrl(c, apiKey, show) == Endpoint + "?" + QueryString(StreetViewParams(c, apiKey, show))
  {
    var ps := StreetViewParams(c, apiKey, show);
    var location := show(c.lat) + "," + show(c.lng);
    assert QueryString(ps) ==
      "size" + "=" + ImageSize + "&" + ("location" + "=" + location) + "&" + ("key" + "=" + apiKey) by {
      JoinOfThree(Render(ps[0]), Render(ps[1]), Render(ps[2]), '&');
      assert RenderAll(ps) == [Render(ps[0]), Render(ps[1]), Render(ps[2])];
    }
    assert StreetViewImageUrl(c, apiKey, show) ==
      Endpoint + ("?" + "size" + "=") + ImageSize + ("&" + "location" + "=") + location + ("&" + "key" + "=") + apiKey by {
      SeparatorsSplit();
    }
    Regroup(Endpoint, "size", ImageSize, "location", location, "key", apiKey);
  }

  lemma SeparatorsSplit()
    ensures "?size=" == "?" + "size" + "="
    ensures "&location=" == "&" + "location" + "="
    ensures "&key=" == "&" + "key" + "="
  {
  }

  lemma JoinOfThree(x: string, y: string, z: string, sep: char)
    ensures Join([x, y, z], sep) == x + [sep] + y + [sep] + z
  {
    var ps := [x, y, z];
    assert ps[1..] == [y, z] && ps[1..][1..] == [z];
    assert Join([y, z], sep) == y + [sep] + z;
  }

  /** Moving the `?` out of the first name-value separator leaves the query string behind it. */
  lemma Regroup(e: string, n1: string, v1: string, n2: string, v2: string, n3: string, v3: string)
    ensures e + ("?" + n1 + "=") + v1 + ("&" + n2 + "=") + v2 + ("&" + n3 + "=") + v3 ==
      e + "?" + (n1 + "=" + v1 + "&" + (n2 + "=" + v2) + "&" + (n3 + "=" + v3))
  {
  }

  /**
   * Whoever reads the request finds the image size, the location as
   * `lat,lng`, and the key, provided none of them holds an `&` (the URL is
   * not percent-encoded).
   */
  lemma StreetViewRoundTrip(c: Coordinates, apiKey: string, show: Number -> string) returns (query: string)
    requires '&' !in show(c.lat) && '&' !in show(c.lng) && '&' !in apiKey
    ensures StreetViewImageUrl(c, apiKey, show) == Endpoint + "?" + query
    ensures SearchParam(query, "size") == Some(ImageSize)
    ensures SearchParam(query, "location") == Some(show(c.lat) + "," + show(c.lng))
    ensures SearchParam(query, "key") == Some(apiKey)
  {
    var ps := StreetViewParams(c, apiKey, show);
    query := QueryString(ps);
    StreetViewUrlShape(c, apiKey, show);
    SizePlain();
    LocationPlain(show(c.lat) + "," + show(c.lng));
    KeyPlain(apiKey);
    NamesDistinct();
    assert SearchParam(query, "size") == Some(ImageSize) by { OneOfThreeFound(ps, 0); }
    assert SearchParam(query, "location") == Some(show(c.lat) + "," + show(c.lng)) by {
      OneOfThreeFound(ps, 1);
    }
    assert SearchParam(query, "key") == Some(apiKey) by { OneOfThreeFound(ps, 2); }
  }

  /** Each of three plain parameters with distinct names is found in their query string. */
  lemma OneOfThreeFound(ps: seq<Param>, k: nat)
    requires |ps| == 3 && Plain(ps[0]) && Plain(ps[1]) && Plain(ps[2])
    requires ps[0].name != ps[1].name && ps[0].name != ps[2].name && ps[1].name != ps[2].name
    requires k < 3
    ensures SearchParam(QueryString(ps), ps[k].name) == Some(ps[k].value)
  {
    ParamFound(ps, k, ps[k].name);
  }

  lemma NamesDistinct()
    ensures "size" != "location" && "size" != "key" && "location" != "key"
  {
    assert "size"[0] != "location"[0] && "size"[0] != "key"[0] && "location"[0] != "key"[0];
  }

  /** The first parameter written under a name is what reading the query string finds. */
  lemma ParamFound(ps: seq<Param>, k: nat, name: string)
    requires forall j :: 0 <= j < |ps| ==> Plain(ps[j])
    requires k < |ps| && ps[k].name == name
    requires forall j :: 0 <= j < k ==> ps[j].name != name
    ensures SearchParam(QueryString(ps), name) == Some(ps[k].value)
  {
    SearchParamOfQuery(ps, name);
  }

  lemma SizePlain()
    ensures Plain(Param("size", ImageSize))
  {
    assert ImageSize == ['4', '0', '0', 'x', '2', '0', '0'];
    assert "size" == ['s', 'i', 'z', 'e'];
  }

  lemma LocationPlain(v: string)
    requires '&' !in v
    ensures Plain(Param("location", v))
  {
    assert "location" == ['l', 'o', 'c', 'a', 't', 'i', 'o', 'n'];
  }

  lemma KeyPlain(v: string)
    requires '&' !in v
    ensures Plain(Param("key", v))
  {
    assert "key" == ['k', 'e', 'y'];
  }
}
