/**
 * The table view's logic in `src/components/Table.tsx`: the sort state and
 * its click handler, the sorted copy of the rows, and the header rewrite
 * that adds an image column after the maps column.
 */
module Table {
  import opened Optional
  import opened Strings
  import opened Sorting

  /** A field value: a number or a string. A missing key is `undefined`. */
  datatype Cell = Num(n: real) | Text(s: string)

  /** A row of the table, keyed by lower-case field name. */
  type Row = map<string, Cell>

  datatype Direction = Asc | Desc

  function Flip(d: Direction): Direction {
    if d == Asc then Desc else Asc
  }

  /** A field is looked up by the lower-cased header text, not by column position. */
  function Field(row: Row, header: string): (r: Option<Cell>)
    ensures r.Some? <==> ToLower(header) in row
    ensures r.Some? ==> r.value == row[ToLower(header)]
  {
    var key := ToLower(header);
    if key in row then Some(row[key]) else None
  }

  /** A header and its lower-cased form look up the same field. */
  lemma FieldIgnoresCase(row: Row, header: string)
    ensures Field(row, header) == Field(row, ToLower(header))
  {
    ToLowerIdempotent(header);
  }

  /** `Maps`, `MAPS` and `maps` all read the row's `maps` field. */
  lemma MapsHeaderReadsMapsField(row: Row)
    ensures Field(row, "Maps") == Field(row, "MAPS") == Field(row, "maps")
    ensures Field(row, "Maps").Some? <==> "maps" in row
  {
    assert ToLower("Maps") == "maps" && ToLower("MAPS") == "maps" && ToLower("maps") == "maps";
  }

  /** What the header shows: the active column (if any) and the direction. */
  datatype SortView = SortView(column: Option<string>, direction: Direction)

  /** The state a table starts in: `initialSortColumn || null`, ascending. */
  function InitialView(initialSortColumn: Option<string>): SortView {
    SortView(if initialSortColumn == Some("") then None else initialSortColumn, Asc)
  }

  /** A click on a header: the active column flips direction, any other becomes active, ascending. */
  function Click(v: SortView, column: string): (r: SortView)
    ensures r.column == Some(column)
  {
    if v.column == Some(column) then SortView(v.column, Flip(v.direction))
    else SortView(Some(column), Asc)
  }

  /** The two `useState` fields of the table and `handleSort`. */
  class SortState {
    var sortColumn: Option<string>
    var sortDirection: Direction

    function View(): SortView
      reads this
    {
      SortView(sortColumn, sortDirection)
    }

    constructor(initialSortColumn: Option<string>)
      ensures View() == InitialView(initialSortColumn)
    {
      sortColumn := if initialSortColumn == Some("") then None else initialSortColumn;
      sortDirection := Asc;
    }

    /** `handleSort(column)`. */
    method HandleSort(column: string)
      modifies this
      ensures View() == Click(old(View()), column)
    {
      if sortColumn == Some(column) {
        sortDirection := Flip(sortDirection);
      } else {
        sortColumn := Some(column);
        sortDirection := Asc;
      }
    }
  }

  /** Clicking the active column twice restores the state. */
  lemma ClickActiveTwice(v: SortView, column: string)
    requires v.column == Some(column)
    ensures Click(Click(v, column), column) == v
    ensures Click(v, column).direction != v.direction
  {
  }

  /** Clicking another column sorts it ascending; a second click makes it descending. */
  lemma ClickOtherTwice(v: SortView, column: string)
    requires v.column != Some(column)
    ensures Click(v, column) == SortView(Some(column), Asc)
    ensures Click(Click(v, column), column) == SortView(Some(column), Desc)
  {
  }

  /**
   * The comparator of `getSortedData` for the field `key`: two numbers by
   * subtraction, two strings by `collate` (`localeCompare`), anything else
   * (mixed kinds, a missing field) as equal.
   */
  function Compare(a: Row, b: Row, key: string, dir: Direction, collate: (string, string) -> int): real {
    if key in a && key in b && a[key].Num? && b[key].Num? then
      (if dir == Asc then a[key].n - b[key].n else b[key].n - a[key].n)
    else if key in a && key in b && a[key].Text? && b[key].Text? then
      (if dir == Asc then collate(a[key].s, b[key].s) else collate(b[key].s, a[key].s)) as real
    else 0.0
  }

  function Comparator(key: string, dir: Direction, collate: (string, string) -> int): (Row, Row) -> real {
    (a: Row, b: Row) => Compare(a, b, key, dir, collate)
  }

  /** `getSortedData`: the rows as given without an active column, else a sorted copy. */
  function SortedData(rows: seq<Row>, sortColumn: Option<string>, dir: Direction,
                      collate: (string, string) -> int): (r: seq<Row>)
    ensures multiset(r) == multiset(rows)
    ensures sortColumn == None || sortColumn == Some("") ==> r == rows
  {
    if sortColumn == None || sortColumn == Some("") then rows
    else Sort(rows, Comparator(ToLower(sortColumn.value), dir, collate))
  }

  /** Descending compares with the arguments swapped. */
  lemma DescendingSwaps(a: Row, b: Row, key: string, collate: (string, string) -> int)
    ensures Compare(a, b, key, Desc, collate) == Compare(b, a, key, Asc, collate)
  {
  }

  /** With an antisymmetric string order, descending is exactly the negation of ascending. */
  lemma DescendingNegates(a: Row, b: Row, key: string, collate: (string, string) -> int)
    requires forall x, y :: collate(y, x) == -collate(x, y)
    ensures Compare(a, b, key, Desc, collate) == -Compare(a, b, key, Asc, collate)
  {
  }

  /** Values of different kinds, or a missing field on either side, compare as equal. */
  lemma UnlikeValuesTie(a: Row, b: Row, key: string, dir: Direction, collate: (string, string) -> int)
    requires !(key in a && key in b && a[key].Num? && b[key].Num?)
    requires !(key in a && key in b && a[key].Text? && b[key].Text?)
    ensures Compare(a, b, key, dir, collate) == 0.0
  {
  }

  /** Every row holds a number under `key`. */
  ghost predicate AllNumbers(rows: seq<Row>, key: string) {
    forall k :: 0 <= k < |rows| ==> key in rows[k] && rows[k][key].Num?
  }

  /** Every row holds a string under `key`. */
  ghost predicate AllTexts(rows: seq<Row>, key: string) {
    forall k :: 0 <= k < |rows| ==> key in rows[k] && rows[k][key].Text?
  }

  function Elements<T>(s: seq<T>): set<T> {
    set k | 0 <= k < |s| :: s[k]
  }

  lemma NumbersConsistent(rows: seq<Row>, key: string, dir: Direction, collate: (string, string) -> int)
    requires AllNumbers(rows, key)
    ensures Consistent(Elements(rows), Comparator(key, dir, collate))
  {
  }

  /** Sorting by a column of numbers orders the rows by value, in the chosen direction, and stably. */
  lemma NumberColumnSorted(rows: seq<Row>, column: string, dir: Direction, collate: (string, string) -> int)
    requires column != "" && AllNumbers(rows, ToLower(column))
    ensures var r := SortedData(rows, Some(column), dir, collate);
      var key := ToLower(column);
      AllNumbers(r, key) &&
      (forall i, j | 0 <= i < j < |r| :: if dir == Asc then r[i][key].n <= r[j][key].n else r[i][key].n >= r[j][key].n)
    ensures forall z | z in rows ::
      Ties(SortedData(rows, Some(column), dir, collate), z, Comparator(ToLower(column), dir, collate)) ==
      Ties(rows, z, Comparator(ToLower(column), dir, collate))
  {
    var key := ToLower(column);
    var cmp := Comparator(key, dir, collate);
    var u := Elements(rows);
    var r: seq<Row> := Sort(rows, cmp);
    assert Consistent(u, cmp) by { NumbersConsistent(rows, key, dir, collate); }
    assert Sorted(r, cmp) && Within(r, u) by {
      assert Within(rows, u);
      SortSorted(rows, u, cmp);
    }
    forall k | 0 <= k < |r|
      ensures key in r[k] && r[k][key].Num?
    {
      var j := WithinElements(r, rows, k);
    }
    SortedByNumbers(r, key, dir, collate);
    assert Within(rows, u);
    forall z | z in rows
      ensures Ties(r, z, cmp) == Ties(rows, z, cmp)
    {
      SortStable(rows, z, u, cmp);
    }
  }

  /** Every element of `r` is some row of `rows`. */
  lemma WithinElements(r: seq<Row>, rows: seq<Row>, k: nat) returns (j: nat)
    requires Within(r, Elements(rows)) && k < |r|
    ensures j < |rows| && rows[j] == r[k]
  {
    assert r[k] in Elements(rows);
    j :| 0 <= j < |rows| && rows[j] == r[k];
  }

  lemma SortedByNumbers(r: seq<Row>, key: string, dir: Direction, collate: (string, string) -> int)
    requires AllNumbers(r, key) && Sorted(r, Comparator(key, dir, collate))
    ensures forall i, j | 0 <= i < j < |r| :: if dir == Asc then r[i][key].n <= r[j][key].n else r[i][key].n >= r[j][key].n
  {
    forall i, j | 0 <= i < j < |r|
      ensures if dir == Asc then r[i][key].n <= r[j][key].n else r[i][key].n >= r[j][key].n
    {
      assert Compare(r[i], r[j], key, dir, collate) <= 0.0;
    }
  }

  /** `collate` orders the strings of `u` consistently (a total preorder). */
  ghost predicate CollationConsistent(u: set<string>, collate: (string, string) -> int) {
    Consistent(u, (x: string, y: string) => collate(x, y) as real)
  }

  function TextsOf(rows: seq<Row>, key: string): set<string>
    requires AllTexts(rows, key)
  {
    set k | 0 <= k < |rows| :: rows[k][key].s
  }

  lemma TextsConsistent(rows: seq<Row>, key: string, dir: Direction, collate: (string, string) -> int)
    requires AllTexts(rows, key) && CollationConsistent(TextsOf(rows, key), collate)
    ensures Consistent(Elements(rows), Comparator(key, dir, collate))
  {
    var u := Elements(rows);
    var cmp := Comparator(key, dir, collate);
    var texts := TextsOf(rows, key);
    var order := (x: string, y: string) => collate(x, y) as real;
    assert forall a: Row | a in u :: key in a && a[key].Text? && a[key].s in texts;
    forall a: Row, b: Row | a in u && b in u
      ensures (cmp(a, b) < 0.0 <==> cmp(b, a) > 0.0) && (cmp(a, b) == 0.0 <==> cmp(b, a) == 0.0)
    {
      var x, y := a[key].s, b[key].s;
      assert x in texts && y in texts;
      assert (order(x, y) < 0.0 <==> order(y, x) > 0.0) && (order(x, y) == 0.0 <==> order(y, x) == 0.0);
    }
    forall a: Row, b: Row, c: Row | a in u && b in u && c in u && cmp(a, b) <= 0.0 && cmp(b, c) <= 0.0
      ensures cmp(a, c) <= 0.0
    {
      var x, y, z := a[key].s, b[key].s, c[key].s;
      assert x in texts && y in texts && z in texts;
      if dir == Asc {
        assert order(x, y) <= 0.0 && order(y, z) <= 0.0;
      } else {
        assert order(z, y) <= 0.0 && order(y, x) <= 0.0;
      }
    }
  }

  /**
   * Sorting by a column of strings orders the rows by `collate` in the
   * chosen direction, stably, when `collate` is a consistent order.
   */
  lemma TextColumnSorted(rows: seq<Row>, column: string, dir: Direction, collate: (string, string) -> int)
    requires column != "" && AllTexts(rows, ToLower(column))
    requires CollationConsistent(TextsOf(rows, ToLower(column)), collate)
    ensures var r := SortedData(rows, Some(column), dir, collate);
      var key := ToLower(column);
      AllTexts(r, key) &&
      (forall i, j | 0 <= i < j < |r| ::
        if dir == Asc then collate(r[i][key].s, r[j][key].s) <= 0 else collate(r[j][key].s, r[i][key].s) <= 0)
    ensures forall z | z in rows ::
      Ties(SortedData(rows, Some(column), dir, collate), z, Comparator(ToLower(column), dir, collate)) ==
      Ties(rows, z, Comparator(ToLower(column), dir, collate))
  {
    var key := ToLower(column);
    var cmp := Comparator(key, dir, collate);
    var u := Elements(rows);
    var r: seq<Row> := Sort(rows, cmp);
    assert Consistent(u, cmp) by { TextsConsistent(rows, key, dir, collate); }
    assert Sorted(r, cmp) && Within(r, u) by {
      assert Within(rows, u);
      SortSorted(rows, u, cmp);
    }
    forall k | 0 <= k < |r|
      ensures key in r[k] && r[k][key].Text?
    {
      var j := WithinElements(r, rows, k);
    }
    SortedByTexts(r, key, dir, collate);
    assert Within(rows, u);
    forall z | z in rows
      ensures Ties(r, z, cmp) == Ties(rows, z, cmp)
    {
      SortStable(rows, z, u, cmp);
    }
  }

  lemma SortedByTexts(r: seq<Row>, key: string, dir: Direction, collate: (string, string) -> int)
    requires AllTexts(r, key) && Sorted(r, Comparator(key, dir, collate))
    ensures forall i, j | 0 <= i < j < |r| ::
      if dir == Asc then collate(r[i][key].s, r[j][key].s) <= 0 else collate(r[j][key].s, r[i][key].s) <= 0
  {
    forall i, j | 0 <= i < j < |r|
      ensures if dir == Asc then collate(r[i][key].s, r[j][key].s) <= 0 else collate(r[j][key].s, r[i][key].s) <= 0
    {
      assert Compare(r[i], r[j], key, dir, collate) <= 0.0;
    }
  }

  /** Sorting by a column no row has (the added `Image` column, say) keeps the rows in their order. */
  lemma MissingColumnKeepsOrder(rows: seq<Row>, column: string, dir: Direction, collate: (string, string) -> int)
    requires forall k :: 0 <= k < |rows| ==> ToLower(column) !in rows[k]
    ensures SortedData(rows, Some(column), dir, collate) == rows
  {
    if column != "" {
      SortOfSorted(rows, Comparator(ToLower(column), dir, collate));
    }
  }

  /** The headers with `Image` added right after the first `Maps`, when `Maps` is there and `Image` is not. */
  function WithImageColumn(headers: seq<string>): (r: seq<string>)
    ensures multiset(r) == multiset(headers) +
      (if "Image" !in headers && "Maps" in headers then multiset{"Image"} else multiset{})
    ensures "Image" in r <==> "Image" in headers || "Maps" in headers
  {
    if "Image" !in headers && "Maps" in headers then
      var i := IndexOf(headers, "Maps");
      assert headers == headers[..i + 1] + headers[i + 1..];
      var r := headers[..i + 1] + ["Image"] + headers[i + 1..];
      assert r[i + 1] == "Image";
      r
    else headers
  }

  /** Where the image column goes: right after the first `Maps`, everything else in its place. */
  lemma ImageColumnPlacement(headers: seq<string>)
    requires "Image" !in headers && "Maps" in headers
    ensures var r := WithImageColumn(headers);
      var i := IndexOf(headers, "Maps");
      |r| == |headers| + 1 && "Maps" !in r[..i] && r[i] == "Maps" && r[i + 1] == "Image" &&
      r[..i + 1] + r[i + 2..] == headers
  {
    var i := IndexOf(headers, "Maps");
    InsertedAfter(headers, i, "Image");
    assert WithImageColumn(headers) == headers[..i + 1] + ["Image"] + headers[i + 1..];
  }

  /** Where the pieces of `h[..i + 1] + [x] + h[i + 1..]` sit. */
  lemma InsertedAfter<T>(h: seq<T>, i: nat, x: T)
    requires i < |h|
    ensures var r := h[..i + 1] + [x] + h[i + 1..];
      |r| == |h| + 1 && r[..i] == h[..i] && r[i] == h[i] && r[i + 1] == x && r[..i + 1] + r[i + 2..] == h
  {
    var r := h[..i + 1] + [x] + h[i + 1..];
    assert r[..i + 1] == h[..i + 1];
    assert r[i + 2..] == h[i + 1..];
    assert h == h[..i + 1] + h[i + 1..];
  }

  /** Without `Maps`, or with `Image` already present, the headers are left as they are. */
  lemma HeadersKeptOtherwise(headers: seq<string>)
    requires "Image" in headers || "Maps" !in headers
    ensures WithImageColumn(headers) == headers
  {
  }

  /** Rewriting twice is rewriting once. */
  lemma WithImageColumnIdempotent(headers: seq<string>)
    ensures WithImageColumn(WithImageColumn(headers)) == WithImageColumn(headers)
  {
    var r := WithImageColumn(headers);
    assert "Image" in r || "Maps" !in r;
  }
}
