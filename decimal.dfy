/**
 * The text matched by the regular expression `-?\d+\.\d+`, which every
 * coordinate pattern of the resolver captures twice, and its exact value.
 */
module Decimals {
  import opened Strings
  import opened JsNumbers

  /** `u` is `\d+\.\d+` with its point at index `p`. */
  predicate PointAt(u: string, p: int) {
    0 < p < |u| - 1 && u[p] == '.' && AllDigits(u[..p]) && AllDigits(u[p + 1..])
  }

  ghost predicate Unsigned(u: string) {
    exists p :: PointAt(u, p)
  }

  /** `t` matches `-?\d+\.\d+` as a whole. */
  ghost predicate DecimalText(t: string) {
    Unsigned(t) || (|t| > 0 && t[0] == '-' && Unsigned(t[1..]))
  }

  /** The point of an unsigned decimal is its first `.`. */
  lemma PointIsFirst(u: string)
    requires Unsigned(u)
    ensures PointAt(u, IndexOf(u, '.'))
  {
    var p :| PointAt(u, p);
    assert forall k :: 0 <= k < p ==> u[k] == u[..p][k];
  }

  /** The exact value of a decimal text. */
  ghost function DecimalValue(t: string): real
    requires DecimalText(t)
  {
    var negative := t[0] == '-';
    var u := if negative then t[1..] else t;
    var p := IndexOf(u, '.');
    var m := Mantissa(u[..p], u[p + 1..]);
    if negative then -m else m
  }

  /** Reading an unsigned decimal that runs to the end of `t` yields its exact value. */
  lemma ParseUnsignedToEnd(t: string, a: nat, p: nat)
    requires a <= |t| && PointAt(t[a..], p)
    ensures ParseUnsigned(t, a) == Finite(Mantissa(t[a..][..p], t[a..][p + 1..]))
  {
    var u := t[a..];
    DigitsBeforePoint(t, a, p);
    assert t[a..a + p] == u[..p];
    assert t[a + p + 1..|t|] == u[p + 1..];
    assert !(|t| - a >= |InfinityText| && t[a..a + |InfinityText|] == InfinityText) by {
      if |t| - a >= |InfinityText| {
        assert t[a..a + |InfinityText|][0] == t[a];
      }
    }
    DigitsAfterPoint(t, a, p);
    assert DigitRunEnd(t, a) == a + p;
    assert t[a + p] == '.';
    var m := Mantissa(t[a..a + p], t[a + p + 1..|t|]);
    assert ExponentAt(t, |t|) == 0;
    assert Scale(m, 0) == m;
  }

  lemma DigitsBeforePoint(t: string, a: nat, p: nat)
    requires a <= |t| && PointAt(t[a..], p)
    ensures forall k :: a <= k < a + p ==> IsDigit(t[k])
    ensures t[a + p] == '.'
    ensures DigitRunEnd(t, a) == a + p
  {
    var u := t[a..];
    forall k | a <= k < a + p ensures IsDigit(t[k]) {
      assert t[k] == u[..p][k - a];
    }
    DigitRunIsMaximal(t, a, a + p);
    assert t[a + p] == u[p] && !IsDigit(t[a + p]);
  }

  lemma DigitsAfterPoint(t: string, a: nat, p: nat)
    requires a <= |t| && PointAt(t[a..], p)
    ensures DigitRunEnd(t, a + p + 1) == |t|
  {
    var u := t[a..];
    forall k | a + p + 1 <= k < |t| ensures IsDigit(t[k]) {
      assert t[k] == u[p + 1..][k - a - p - 1];
    }
    DigitRunIsMaximal(t, a + p + 1, |t|);
  }

  /**
   * `parseFloat` of a text matched by `-?\d+\.\d+` is never NaN: it is the
   * text's exact decimal value.
   */
  lemma ParseFloatOfDecimal(t: string)
    requires DecimalText(t)
    ensures ParseFloat(t) == Finite(DecimalValue(t))
  {
    var a := if t[0] == '-' then 1 else 0;
    var u := t[a..];
    assert u == if t[0] == '-' then t[1..] else t;
    var p := IndexOf(u, '.');
    assert PointAt(u, p) by { PointIsFirst(u); }
    var m := Mantissa(u[..p], u[p + 1..]);
    assert DecimalValue(t) == if t[0] == '-' then -m else m;
    assert ParseFloat(t) == Finite(if t[0] == '-' then -m else m) by {
      ParseUnsignedToEnd(t, a, p);
      DecimalTextStart(t);
      ParseFloatSigned(t, a, m);
    }
  }

  lemma DecimalTextStart(t: string)
    requires DecimalText(t)
    ensures t[0] == '-' || IsDigit(t[0])
  {
    var a := if t[0] == '-' then 1 else 0;
    var u := t[a..];
    PointIsFirst(u);
    assert u[..IndexOf(u, '.')][0] == u[0];
  }

  /** A number text that starts with `-` or a digit is read with its sign applied. */
  lemma ParseFloatSigned(t: string, a: nat, m: real)
    requires t != [] && (t[0] == '-' || IsDigit(t[0]))
    requires a == if t[0] == '-' then 1 else 0
    requires ParseUnsigned(t, a) == Finite(m)
    ensures ParseFloat(t) == Finite(if t[0] == '-' then -m else m)
  {
    assert !IsWhiteSpace(t[0]);
    assert TrimStart(t) == t;
  }

  /** A decimal text holds only a sign, a point and digits, and ends in a digit. */
  lemma DecimalTextChars(t: string)
    requires DecimalText(t)
    ensures forall k :: 0 <= k < |t| ==> t[k] == '-' || t[k] == '.' || IsDigit(t[k])
    ensures IsDigit(t[|t| - 1])
  {
    var a := if t[0] == '-' then 1 else 0;
    var u := t[a..];
    var p := IndexOf(u, '.');
    PointIsFirst(u);
    var whole, frac := u[..p], u[p + 1..];
    assert IsDigit(u[|u| - 1]) by { assert u[|u| - 1] == frac[|frac| - 1]; }
    forall k | a <= k < |t|
      ensures t[k] == '.' || IsDigit(t[k])
    {
      if k - a < p {
        assert t[k] == whole[k - a];
      } else if k - a > p {
        assert t[k] == frac[k - a - p - 1];
      }
    }
  }

  /** A decimal text has no comma and is its own `trim()`. */
  lemma DecimalTextPlain(t: string)
    requires DecimalText(t)
    ensures ',' !in t
    ensures Trim(t) == t
  {
    DecimalTextChars(t);
    DecimalTextStart(t);
    TrimOfTrimmed(t);
  }
}
