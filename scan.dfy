/**
 * The regular expressions of the resolver, written as scanners. Every
 * coordinate pattern has the shape `LEAD(-?\d+\.\d+)SEP(-?\d+\.\d+)` with a
 * literal LEAD and SEP; `String.prototype.match` without the `g` flag reports
 * the match that starts leftmost.
 *
 * The captures are deterministic: each `\d+` is greedy and the character
 * that must follow it (`.`, or the first character of SEP) is not a digit,
 * so backtracking never yields a shorter capture; only the last `\d+` of
 * the second capture is unconstrained, and greediness makes it maximal.
 */
module Scan {
  import opened Optional
  import opened Strings
  import opened Decimals

  /** Where the scanner is inside `\d+\.\d+`: what it has read so far. */
  datatype Phase = NeedWhole | InWhole | NeedFraction | InFraction

  /** How many characters a phase still needs at least before the match can end. */
  function Remaining(ph: Phase): nat {
    match ph
    case NeedWhole => 3
    case InWhole => 2
    case NeedFraction => 1
    case InFraction => 0
  }

  /** The greedy scan of `\d+\.\d+` from position `k` in phase `ph`, one character at a time. */
  function ScanFrom(s: string, k: nat, ph: Phase): (r: Option<nat>)
    requires k <= |s|
    ensures r.Some? ==> k + Remaining(ph) <= r.value <= |s| && (r.value == |s| || !IsDigit(s[r.value]))
    decreases |s| - k
  {
    var digit := k < |s| && IsDigit(s[k]);
    match ph
    case NeedWhole => if digit then ScanFrom(s, k + 1, InWhole) else None
    case InWhole =>
      if digit then ScanFrom(s, k + 1, InWhole)
      else if k < |s| && s[k] == '.' then ScanFrom(s, k + 1, NeedFraction)
      else None
    case NeedFraction => if digit then ScanFrom(s, k + 1, InFraction) else None
    case InFraction => if digit then ScanFrom(s, k + 1, InFraction) else Some(k)
  }

  /** End of the greedy `-?\d+\.\d+` match that starts at `i`, if there is one. */
  function ScanDecimal(s: string, i: nat): (r: Option<nat>)
    requires i <= |s|
    ensures r.Some? ==> i + 3 <= r.value <= |s| && (r.value == |s| || !IsDigit(s[r.value]))
  {
    ScanFrom(s, if i < |s| && s[i] == '-' then i + 1 else i, NeedWhole)
  }

  /** The same scan stated by runs: the whole digits, a point, the fraction digits. */
  function ScanByRuns(s: string, i: nat): Option<nat>
    requires i <= |s|
  {
    var a := if i < |s| && s[i] == '-' then i + 1 else i;
    var b := DigitRunEnd(s, a);
    if b == a || b == |s| || s[b] != '.' then None
    else
      var c := DigitRunEnd(s, b + 1);
      if c == b + 1 then None else Some(c)
  }

  /** Reading fraction digits stops at the end of their run. */
  lemma {:induction false} FractionRun(s: string, k: nat)
    requires k <= |s|
    ensures ScanFrom(s, k, InFraction) == Some(DigitRunEnd(s, k))
    decreases |s| - k
  {
    if k < |s| && IsDigit(s[k]) {
      FractionRun(s, k + 1);
    }
  }

  /** Reading whole digits stops at the end of their run and goes on only at a point. */
  lemma {:induction false} WholeRun(s: string, k: nat)
    requires k <= |s|
    ensures var b := DigitRunEnd(s, k);
      ScanFrom(s, k, InWhole) == if b < |s| && s[b] == '.' then ScanFrom(s, b + 1, NeedFraction) else None
    decreases |s| - k
  {
    if k < |s| && IsDigit(s[k]) {
      WholeRun(s, k + 1);
    }
  }

  /** The scanner and the run-based statement agree everywhere. */
  lemma ScanDecimalByRuns(s: string, i: nat)
    requires i <= |s|
    ensures ScanDecimal(s, i) == ScanByRuns(s, i)
  {
    var a := if i < |s| && s[i] == '-' then i + 1 else i;
    if a < |s| && IsDigit(s[a]) {
      WholeRun(s, a + 1);
      var b := DigitRunEnd(s, a);
      assert b == DigitRunEnd(s, a + 1);
      if b < |s| && s[b] == '.' {
        if b + 1 < |s| && IsDigit(s[b + 1]) {
          FractionRun(s, b + 2);
        }
      }
    }
  }

  /** The digits `s[a..b]`, a point at `b` and the digits `s[b + 1..c]` form `\d+\.\d+`. */
  lemma PointAtFromRuns(s: string, a: nat, b: nat, c: nat)
    requires a < b && b + 1 < c <= |s| && s[b] == '.'
    requires forall k :: a <= k < b ==> IsDigit(s[k])
    requires forall k :: b + 1 <= k < c ==> IsDigit(s[k])
    ensures PointAt(s[a..c], b - a)
  {
    var u := s[a..c];
    var whole, frac := u[..b - a], u[b - a + 1..];
    forall k | 0 <= k < |whole| ensures IsDigit(whole[k]) {
      assert whole[k] == s[a + k];
    }
    forall k | 0 <= k < |frac| ensures IsDigit(frac[k]) {
      assert frac[k] == s[b + 1 + k];
    }
  }

  /** What the scanner reports is a match of `-?\d+\.\d+`. */
  lemma ScanDecimalSound(s: string, i: nat)
    requires i <= |s| && ScanDecimal(s, i).Some?
    ensures DecimalText(s[i..ScanDecimal(s, i).value])
  {
    ScanDecimalByRuns(s, i);
    var c := ScanDecimal(s, i).value;
    var a := if s[i] == '-' then i + 1 else i;
    var b := DigitRunEnd(s, a);
    PointAtFromRuns(s, a, b, c);
    if s[i] == '-' {
      assert s[i..c][1..] == s[a..c];
    } else {
      assert s[i..c] == s[a..c];
    }
  }

  /** `s[a..k]` is `\d+\.\d+`: the scanner's runs stop at its point and reach its end. */
  lemma RunsOfPointText(s: string, a: nat, k: nat, p: nat)
    requires a <= k <= |s| && PointAt(s[a..k], p)
    ensures DigitRunEnd(s, a) == a + p && s[a + p] == '.'
    ensures k <= DigitRunEnd(s, a + p + 1)
  {
    var u := s[a..k];
    forall j | a <= j < a + p ensures IsDigit(s[j]) {
      assert s[j] == u[..p][j - a];
    }
    DigitRunIsMaximal(s, a, a + p);
    assert s[a + p] == u[p];
    assert !IsDigit(s[a + p]);
    forall j | a + p + 1 <= j < k ensures IsDigit(s[j]) {
      assert s[j] == u[p + 1..][j - a - p - 1];
    }
    DigitRunIsMaximal(s, a + p + 1, k);
  }

  /**
   * Every match of `-?\d+\.\d+` at `i` is found by the scanner, which
   * reports the longest one; a shorter one ends just before a digit.
   */
  lemma ScanDecimalComplete(s: string, i: nat, k: nat)
    requires i <= k <= |s| && DecimalText(s[i..k])
    ensures ScanDecimal(s, i).Some?
    ensures k <= ScanDecimal(s, i).value
    ensures k < ScanDecimal(s, i).value ==> IsDigit(s[k])
  {
    var t := s[i..k];
    var a: nat;
    if Unsigned(t) {
      var p :| PointAt(t, p);
      assert IsDigit(t[0]) by { assert t[..p][0] == t[0]; }
      a := i;
    } else {
      assert t[1..] == s[i + 1..k];
      a := i + 1;
    }
    assert a == if s[i] == '-' then i + 1 else i;
    var p :| PointAt(s[a..k], p);
    RunsOfPointText(s, a, k, p);
    ScanDecimalByRuns(s, i);
  }

  datatype Pattern = Pattern(lead: string, sep: string)

  /** The separator cannot be swallowed by the first capture. */
  predicate WellFormed(p: Pattern) {
    |p.sep| > 0 && !IsDigit(p.sep[0])
  }

  /** A match: where it starts, the two captured texts, and where it ends. */
  datatype Match = Match(start: nat, lat: string, lng: string, end: nat)

  /** The match of `LEAD(-?\d+\.\d+)SEP(-?\d+\.\d+)` that starts at `i`, if any. */
  function MatchAt(s: string, i: nat, p: Pattern): (r: Option<Match>)
    requires i <= |s|
    ensures r.Some? ==> r.value.start == i && i <= r.value.end <= |s|
  {
    var l := i + |p.lead|;
    if l > |s| || s[i..l] != p.lead then None
    else MatchAfterLead(s, i, l, p)
  }

  /** The rest of a match whose lead runs from `i` to `l`. */
  function MatchAfterLead(s: string, i: nat, l: nat, p: Pattern): (r: Option<Match>)
    requires i <= l <= |s|
    ensures r.Some? ==> r.value.start == i && l <= r.value.end <= |s|
  {
    match ScanDecimal(s, l)
    case None => None
    case Some(a) =>
      if a + |p.sep| > |s| || s[a..a + |p.sep|] != p.sep then None
      else MatchAfterSep(s, i, l, a, a + |p.sep|)
  }

  /** The rest of a match whose first capture is `s[l..a]` and whose separator ends at `c`. */
  function MatchAfterSep(s: string, i: nat, l: nat, a: nat, c: nat): (r: Option<Match>)
    requires i <= l <= a <= c <= |s|
    ensures r.Some? ==> r.value.start == i && c <= r.value.end <= |s|
  {
    match ScanDecimal(s, c)
    case None => None
    case Some(e) => Some(Match(i, s[l..a], s[c..e], e))
  }

  /**
   * The regular expression matches at `i` with its first capture ending at
   * `a` and its second at `b`.
   */
  ghost predicate SplitsAt(s: string, i: int, p: Pattern, a: int, b: int) {
    0 <= i && i + |p.lead| <= a && a + |p.sep| <= b <= |s| &&
    s[i..i + |p.lead|] == p.lead && DecimalText(s[i + |p.lead|..a]) &&
    s[a..a + |p.sep|] == p.sep && DecimalText(s[a + |p.sep|..b])
  }

  /** The regular expression has a match that starts at `i`. */
  ghost predicate RegexMatchesAt(s: string, i: int, p: Pattern) {
    exists a, b :: SplitsAt(s, i, p, a, b)
  }

  /**
   * The pieces a match reported by the scanner is made of: the lead ends at
   * `l`, the first capture at `a`, the separator at `c`.
   */
  lemma MatchAtParts(s: string, i: nat, p: Pattern) returns (l: nat, a: nat, c: nat, e: nat)
    requires i <= |s| && MatchAt(s, i, p).Some?
    ensures l == i + |p.lead| && l <= a && c == a + |p.sep| && c <= e <= |s|
    ensures s[i..l] == p.lead && s[a..c] == p.sep
    ensures DecimalText(s[l..a]) && DecimalText(s[c..e]) && (e == |s| || !IsDigit(s[e]))
    ensures MatchAt(s, i, p) == Some(Match(i, s[l..a], s[c..e], e))
  {
    LeadOf(s, i, p);
    l := i + |p.lead|;
    a := FirstOf(s, i, l, p);
    c := a + |p.sep|;
    e := SecondOf(s, i, l, a, c);
  }

  /** A match reported by the scanner is a match of the regular expression with greedy captures. */
  lemma MatchAtSound(s: string, i: nat, p: Pattern)
    requires i <= |s| && MatchAt(s, i, p).Some?
    ensures var m := MatchAt(s, i, p).value;
      SplitsAt(s, i, p, i + |p.lead| + |m.lat|, m.end) &&
      DecimalText(m.lat) && DecimalText(m.lng) &&
      (m.end == |s| || !IsDigit(s[m.end]))
  {
    var l, a, c, e := MatchAtParts(s, i, p);
  }

  /** The scanner's match is assembled from the two scans. */
  lemma MatchAtFromScans(s: string, i: nat, p: Pattern, a: nat, e: nat)
    requires i + |p.lead| <= a && a + |p.sep| <= |s| && s[i..i + |p.lead|] == p.lead
    requires ScanDecimal(s, i + |p.lead|) == Some(a) && s[a..a + |p.sep|] == p.sep
    requires ScanDecimal(s, a + |p.sep|) == Some(e)
    ensures MatchAt(s, i, p) == Some(Match(i, s[i + |p.lead|..a], s[a + |p.sep|..e], e))
  {
    var l, c := i + |p.lead|, a + |p.sep|;
    SecondFound(s, i, l, a, c, e);
    FirstFound(s, i, l, a, p);
    LeadFound(s, i, p);
  }

  lemma LeadFound(s: string, i: nat, p: Pattern)
    requires i + |p.lead| <= |s| && s[i..i + |p.lead|] == p.lead
    ensures MatchAt(s, i, p) == MatchAfterLead(s, i, i + |p.lead|, p)
  {
  }

  lemma FirstFound(s: string, i: nat, l: nat, a: nat, p: Pattern)
    requires i <= l <= a && a + |p.sep| <= |s| && ScanDecimal(s, l) == Some(a) && s[a..a + |p.sep|] == p.sep
    ensures MatchAfterLead(s, i, l, p) == MatchAfterSep(s, i, l, a, a + |p.sep|)
  {
  }

  lemma SecondFound(s: string, i: nat, l: nat, a: nat, c: nat, e: nat)
    requires i <= l <= a <= c <= |s| && ScanDecimal(s, c) == Some(e)
    ensures MatchAfterSep(s, i, l, a, c) == Some(Match(i, s[l..a], s[c..e], e))
  {
  }

  lemma LeadOf(s: string, i: nat, p: Pattern)
    requires i <= |s| && MatchAt(s, i, p).Some?
    ensures i + |p.lead| <= |s| && s[i..i + |p.lead|] == p.lead
    ensures MatchAfterLead(s, i, i + |p.lead|, p) == MatchAt(s, i, p)
  {
  }

  lemma FirstOf(s: string, i: nat, l: nat, p: Pattern) returns (a: nat)
    requires i <= l <= |s| && MatchAfterLead(s, i, l, p).Some?
    ensures l <= a && a + |p.sep| <= |s| && s[a..a + |p.sep|] == p.sep && DecimalText(s[l..a])
    ensures MatchAfterSep(s, i, l, a, a + |p.sep|) == MatchAfterLead(s, i, l, p)
  {
    a := ScanDecimal(s, l).value;
    ScanDecimalSound(s, l);
  }

  lemma SecondOf(s: string, i: nat, l: nat, a: nat, c: nat) returns (e: nat)
    requires i <= l <= a <= c <= |s| && MatchAfterSep(s, i, l, a, c).Some?
    ensures c <= e <= |s| && DecimalText(s[c..e]) && (e == |s| || !IsDigit(s[e]))
    ensures MatchAfterSep(s, i, l, a, c) == Some(Match(i, s[l..a], s[c..e], e))
  {
    e := ScanDecimal(s, c).value;
    ScanDecimalSound(s, c);
  }

  /**
   * Every match of the regular expression at `i` is found by the scanner,
   * with the same first capture and a second capture at least as long.
   */
  lemma MatchAtComplete(s: string, i: nat, p: Pattern, a: int, b: int)
    requires WellFormed(p) && i <= |s| && SplitsAt(s, i, p, a, b)
    ensures MatchAt(s, i, p).Some?
    ensures MatchAt(s, i, p).value.lat == s[i + |p.lead|..a]
    ensures b <= MatchAt(s, i, p).value.end
    ensures b < MatchAt(s, i, p).value.end ==> IsDigit(s[b])
    ensures b == |s| || !IsDigit(s[b]) ==>
      MatchAt(s, i, p) == Some(Match(i, s[i + |p.lead|..a], s[a + |p.sep|..b], b))
  {
    var l := i + |p.lead|;
    var c := a + |p.sep|;
    assert s[a] == p.sep[0] by { assert s[a..c][0] == s[a]; }
    ScanDecimalComplete(s, l, a);
    ScanDecimalComplete(s, c, b);
    MatchAtFromScans(s, i, p, a, ScanDecimal(s, c).value);
  }

  /** A match with no match to its left is what `s.match` reports. */
  lemma LeftmostAt(s: string, p: Pattern, i: nat)
    requires i <= |s| && MatchAt(s, i, p).Some?
    requires forall k :: 0 <= k < i ==> MatchAt(s, k, p).None?
    ensures FirstMatch(s, p, 0) == MatchAt(s, i, p)
  {
  }

  /** The scanner and the regular expression agree on where a match starts. */
  lemma MatchAtIsRegexMatch(s: string, i: nat, p: Pattern)
    requires WellFormed(p) && i <= |s|
    ensures MatchAt(s, i, p).Some? <==> RegexMatchesAt(s, i, p)
  {
    if MatchAt(s, i, p).Some? {
      MatchAtSound(s, i, p);
    }
    if RegexMatchesAt(s, i, p) {
      var a, b :| SplitsAt(s, i, p, a, b);
      MatchAtComplete(s, i, p, a, b);
    }
  }

  /** `s.match(pattern)` searched from position `from`: the leftmost match. */
  function FirstMatch(s: string, p: Pattern, from: nat): (r: Option<Match>)
    requires from <= |s|
    ensures r.Some? ==> from <= r.value.start <= |s| && MatchAt(s, r.value.start, p) == r
    ensures r.Some? ==> forall k :: from <= k < r.value.start ==> MatchAt(s, k, p).None?
    ensures r.None? ==> forall k :: from <= k <= |s| ==> MatchAt(s, k, p).None?
    decreases |s| - from
  {
    var here := MatchAt(s, from, p);
    if here.Some? then here
    else if from == |s| then None
    else
      var rest := FirstMatch(s, p, from + 1);
      assert forall k :: from + 1 <= k <= |s| && (rest.None? || k < rest.value.start) ==> MatchAt(s, k, p).None?;
      assert forall k :: from <= k <= |s| && (rest.None? || k < rest.value.start) ==> MatchAt(s, k, p).None?;
      rest
  }

  /**
   * `FirstMatch` reports exactly the leftmost match of the regular
   * expression, and nothing when there is none.
   */
  lemma FirstMatchIsLeftmost(s: string, p: Pattern)
    requires WellFormed(p)
    ensures FirstMatch(s, p, 0).None? <==> forall i :: 0 <= i <= |s| ==> !RegexMatchesAt(s, i, p)
    ensures FirstMatch(s, p, 0).Some? ==>
      RegexMatchesAt(s, FirstMatch(s, p, 0).value.start, p) &&
      forall i :: 0 <= i < FirstMatch(s, p, 0).value.start ==> !RegexMatchesAt(s, i, p)
  {
    forall i | 0 <= i <= |s| ensures MatchAt(s, i, p).Some? <==> RegexMatchesAt(s, i, p) {
      MatchAtIsRegexMatch(s, i, p);
    }
  }

  /** `^-?\d+\.\d+,-?\d+\.\d+$`. */
  const BarePair: Pattern := Pattern("", ",")

  /** The match of `^-?\d+\.\d+,-?\d+\.\d+$` against the whole of `s`, if any. */
  function WholeMatch(s: string): (r: Option<Match>)
    ensures r.Some? ==> r.value.end == |s| && s == r.value.lat + "," + r.value.lng
  {
    match MatchAt(s, 0, BarePair)
    case None => None
    case Some(m) =>
      if m.end == |s| then
        assert s[0..|s|] == s;
        Some(m)
      else None
  }

  /** `s` is two decimal texts joined by a comma. */
  ghost predicate IsBarePair(s: string) {
    exists a :: 0 <= a < |s| && s[a] == ',' && DecimalText(s[..a]) && DecimalText(s[a + 1..])
  }

  /** The anchored scanner accepts exactly the strings the anchored regular expression matches. */
  lemma WholeMatchIsRegexMatch(s: string)
    ensures WholeMatch(s).Some? <==> IsBarePair(s)
    ensures WholeMatch(s).Some? ==> DecimalText(WholeMatch(s).value.lat) && DecimalText(WholeMatch(s).value.lng)
  {
    if WholeMatch(s).Some? {
      WholeMatchSound(s);
    }
    if IsBarePair(s) {
      var a :| 0 <= a < |s| && s[a] == ',' && DecimalText(s[..a]) && DecimalText(s[a + 1..]);
      WholeMatchComplete(s, a);
    }
  }

  lemma WholeMatchSound(s: string)
    requires WholeMatch(s).Some?
    ensures IsBarePair(s)
    ensures DecimalText(WholeMatch(s).value.lat) && DecimalText(WholeMatch(s).value.lng)
  {
    MatchAtSound(s, 0, BarePair);
    var m := WholeMatch(s).value;
    assert s[|m.lat|] == ',';
    assert s[..|m.lat|] == m.lat;
    assert s[|m.lat| + 1..] == m.lng;
  }

  lemma WholeMatchComplete(s: string, a: nat)
    requires a < |s| && s[a] == ',' && DecimalText(s[..a]) && DecimalText(s[a + 1..])
    ensures WholeMatch(s).Some?
  {
    assert s[0..a] == s[..a];
    assert s[a..a + 1] == ",";
    assert s[a + 1..|s|] == s[a + 1..];
    assert SplitsAt(s, 0, BarePair, a, |s|);
    MatchAtComplete(s, 0, BarePair, a, |s|);
  }
}
