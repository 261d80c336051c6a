/**
  Numeric text of the form checker: the sanitiser applied to the weight and
  height fields (`sanitizeNumberInput`), `parseFloat` on the sanitised text,
  and the one-decimal formatting `toFixed(1)` with its re-parse
  `Number(x.toFixed(1))`. Numbers are exact reals; the binary floating
  point of JavaScript is not modelled.
*/
module NumberText {
  import opened Wrappers
  import opened JsString

  /** The characters `/[^0-9.]/g` spares. */
  predicate IsNumericChar(c: char) {
    IsDigit(c) || c == '.'
  }

  /** A decimal separator as a user may type it: point or comma. */
  predicate IsSeparator(c: char) {
    c == ',' || c == '.'
  }

  predicate IsPoint(c: char) {
    c == '.'
  }

  /** `sanitizeNumberInput` on a string: trim, turn the first comma into a
      point, delete everything but digits and points, then fold extra points.
      The result is exactly the normalised form described by `Normalized`. */
  function Sanitize(raw: string): (r: string)
    ensures r == Normalized(raw)
  {
    PipelineIsNormalized(raw);
    FoldPoints(Filter(IsNumericChar, ReplaceFirst(Trim(raw), ',', '.')))
  }

  /** When splitting at points gives more than two pieces, keep the first
      piece, one point, and the remaining pieces glued together. */
  function FoldPoints(kept: string): string {
    var parts := Split(kept, '.');
    if |parts| > 2 then parts[0] + "." + Join(parts[1..], "") else kept
  }

  /** What the sanitiser means, stated independently: after trimming, the
      first separator (comma or point) becomes the only point; the digits
      before it and the digits after it are kept in order; every other
      character is dropped. */
  function Normalized(raw: string): string {
    var u := Trim(raw);
    var k := FirstWhere(IsSeparator, u);
    if k == |u| then Digits(u) else Digits(u[..k]) + "." + Digits(u[k + 1..])
  }

  /** Text the sanitiser can produce: digits and at most one point. */
  predicate NumericText(t: string) {
    (forall k :: 0 <= k < |t| ==> IsNumericChar(t[k])) && Count('.', t) <= 1
  }

  lemma {:induction false} KeptIsDigitsWithoutPoint(s: string)
    requires '.' !in s
    ensures Filter(IsNumericChar, s) == Digits(s)
  {
    if s != [] {
      KeptIsDigitsWithoutPoint(s[1..]);
    }
  }

  lemma {:induction false} KeptWithoutPoints(s: string)
    ensures Without('.', Filter(IsNumericChar, s)) == Digits(s)
  {
    if s != [] {
      KeptWithoutPoints(s[1..]);
      if IsNumericChar(s[0]) {
        assert Filter(IsNumericChar, s) == [s[0]] + Filter(IsNumericChar, s[1..]);
      }
    }
  }

  lemma {:induction false} DigitsReplaceComma(s: string)
    ensures Digits(ReplaceFirst(s, ',', '.')) == Digits(s)
  {
    if s != [] {
      DigitsReplaceComma(s[1..]);
      if s[0] == ',' {
        assert ReplaceFirst(s, ',', '.') == ['.'] + s[1..];
      } else {
        assert ReplaceFirst(s, ',', '.') == [s[0]] + ReplaceFirst(s[1..], ',', '.');
      }
    }
  }

  lemma DigitsHaveNoPoint(s: string)
    ensures '.' !in Digits(s)
  {
    DigitsAreDigits(s);
  }

  predicate AllDigits(s: string) {
    forall k :: 0 <= k < |s| ==> IsDigit(s[k])
  }

  /** Digits around a single point make numeric text whose first point is
      the one between them. */
  lemma PointBetweenDigits(a: string, b: string)
    requires AllDigits(a) && AllDigits(b)
    ensures NumericText(a + "." + b)
    ensures FirstWhere(IsPoint, a + "." + b) == |a|
    ensures Count('.', a + "." + b) == 1
  {
    var t := a + "." + b;
    assert Count('.', t) == 1 by {
      NoPointInDigits(a);
      NoPointInDigits(b);
      CountConcat('.', a + ".", b);
      CountConcat('.', a, ".");
    }
    forall j | 0 <= j < |t| ensures IsNumericChar(t[j]) {
      if j < |a| {
        assert t[j] == a[j];
      } else if j > |a| {
        assert t[j] == b[j - |a| - 1];
      }
    }
    assert FirstWhere(IsPoint, t) == |a| by {
      forall j | 0 <= j < |a| ensures !IsPoint(t[j]) {
        assert t[j] == a[j];
      }
      FirstWhereAt(IsPoint, t, |a|);
    }
  }

  lemma NoPointInDigits(s: string)
    requires AllDigits(s)
    ensures '.' !in s && Count('.', s) == 0
  {
    CountZeroIff('.', s);
  }

  lemma FoldWithoutPoint(kept: string)
    requires '.' !in kept
    ensures FoldPoints(kept) == kept
  {
    CountZeroIff('.', kept);
  }

  /** After a point-free head and one point, folding deletes every later point. */
  lemma FoldAfterFirstPoint(head: string, tail: string)
    requires '.' !in head
    ensures FoldPoints(head + "." + tail) == head + "." + Without('.', tail)
  {
    SplitAfter(head, '.', tail);
    var parts := Split(head + "." + tail, '.');
    assert parts == [head] + Split(tail, '.');
    if |parts| > 2 {
      assert parts[1..] == Split(tail, '.');
      JoinSplitEmpty(tail, '.');
    } else {
      CountZeroIff('.', tail);
      WithoutAbsent('.', tail);
    }
  }

  /** Replacing the first comma of a text whose first separator is at `k`
      yields the head, a point, and the rest with at most its first comma
      replaced. */
  lemma ReplaceAtFirstSeparator(u: string, k: nat) returns (rest: string)
    requires k < |u| && IsSeparator(u[k]) && ',' !in u[..k]
    ensures ReplaceFirst(u, ',', '.') == u[..k] + "." + rest
    ensures Digits(rest) == Digits(u[k + 1..])
  {
    assert u == u[..k] + u[k..];
    ReplaceFirstPrefix(u[..k], u[k..], ',', '.');
    assert u[k..][1..] == u[k + 1..];
    rest := ReplaceSeparatorHead(u[k..]);
  }

  lemma NoSeparatorBefore(u: string, k: nat)
    requires k <= |u| && k == FirstWhere(IsSeparator, u)
    ensures ',' !in u[..k] && '.' !in u[..k]
  {
    FirstWhereBefore(IsSeparator, u);
    forall j | 0 <= j < k ensures !IsSeparator(u[..k][j]) {
      assert u[..k][j] == u[j];
    }
  }

  /** At a separator, replacing the first comma gives a point followed by
      a rest with the same digits. */
  lemma ReplaceSeparatorHead(cb: string) returns (rest: string)
    requires cb != [] && IsSeparator(cb[0])
    ensures ReplaceFirst(cb, ',', '.') == "." + rest
    ensures Digits(rest) == Digits(cb[1..])
  {
    if cb[0] == ',' {
      rest := cb[1..];
    } else {
      rest := ReplaceFirst(cb[1..], ',', '.');
      DigitsReplaceComma(cb[1..]);
    }
  }

  /** The four steps of the sanitiser compute exactly the normalised form. */
  lemma PipelineIsNormalized(raw: string)
    ensures FoldPoints(Filter(IsNumericChar, ReplaceFirst(Trim(raw), ',', '.')))
         == Normalized(raw)
  {
    var u := Trim(raw);
    var k := FirstWhere(IsSeparator, u);
    if k == |u| {
      FirstWhereBefore(IsSeparator, u);
      assert ',' !in u && '.' !in u;
      ReplaceFirstAbsent(u, ',', '.');
      KeptIsDigitsWithoutPoint(u);
      DigitsHaveNoPoint(u);
      FoldWithoutPoint(Digits(u));
    } else {
      var a := u[..k];
      NoSeparatorBefore(u, k);
      var rest := ReplaceAtFirstSeparator(u, k);
      FilterConcat(IsNumericChar, a + ".", rest);
      FilterConcat(IsNumericChar, a, ".");
      KeptIsDigitsWithoutPoint(a);
      DigitsHaveNoPoint(a);
      var K := Filter(IsNumericChar, rest);
      assert Filter(IsNumericChar, u[..k] + "." + rest) == Digits(a) + "." + K;
      FoldAfterFirstPoint(Digits(a), K);
      KeptWithoutPoints(rest);
    }
  }

  /** The sanitiser's output is numeric text: only digits and points, and
      at most one point. */
  lemma SanitizeIsNumeric(raw: string)
    ensures NumericText(Sanitize(raw))
  {
    assert NumericText(Normalized(raw)) by {
      var u := Trim(raw);
      var k := FirstWhere(IsSeparator, u);
      if k == |u| {
        DigitsAreDigits(u);
        DigitsHaveNoPoint(u);
        CountZeroIff('.', Digits(u));
      } else {
        DigitsAreDigits(u[..k]);
        DigitsAreDigits(u[k + 1..]);
        PointBetweenDigits(Digits(u[..k]), Digits(u[k + 1..]));
      }
    }
  }

  /** No digit is lost, added or reordered by the sanitiser. */
  lemma SanitizeKeepsDigits(raw: string)
    ensures Digits(Sanitize(raw)) == Digits(raw)
  {
    var u := Trim(raw);
    DigitsTrim(raw);
    var k := FirstWhere(IsSeparator, u);
    if k == |u| {
      DigitsAreDigits(u);
      FilterAll(IsDigit, Digits(u));
    } else {
      var a, b := u[..k], u[k + 1..];
      assert u == a + [u[k]] + b;
      FilterConcat(IsDigit, a + [u[k]], b);
      FilterConcat(IsDigit, a, [u[k]]);
      FilterConcat(IsDigit, Digits(a) + ".", Digits(b));
      FilterConcat(IsDigit, Digits(a), ".");
      DigitsAreDigits(a);
      DigitsAreDigits(b);
      FilterAll(IsDigit, Digits(a));
      FilterAll(IsDigit, Digits(b));
    }
  }

  /** The output holds a point exactly when the trimmed input holds a comma
      or a point. */
  lemma SanitizePointIff(raw: string)
    ensures '.' in Sanitize(raw) <==> (',' in Trim(raw) || '.' in Trim(raw))
  {
    var u := Trim(raw);
    var k := FirstWhere(IsSeparator, u);
    if k == |u| {
      DigitsHaveNoPoint(u);
      FirstWhereBefore(IsSeparator, u);
      assert ',' !in u && '.' !in u;
    } else {
      assert Normalized(raw)[|Digits(u[..k])|] == '.';
      assert IsSeparator(u[k]);
    }
  }

  /** Numeric text splits at its first point into two digit runs. */
  lemma NumericShape(t: string)
    requires NumericText(t)
    ensures var k := FirstWhere(IsPoint, t);
      && AllDigits(t[..k])
      && (k < |t| ==> t == t[..k] + "." + t[k + 1..] && AllDigits(t[k + 1..]))
      && (k == |t| ==> t[..k] == t)
  {
    var k := FirstWhere(IsPoint, t);
    FirstWhereBefore(IsPoint, t);
    assert AllDigits(t[..k]) by {
      forall j | 0 <= j < k ensures IsDigit(t[..k][j]) {
        assert t[..k][j] == t[j] && IsNumericChar(t[j]);
      }
    }
    if k < |t| {
      NoPointInDigits(t[..k]);
      DigitsAfterPoint(t, k);
    }
  }

  lemma DigitsAfterPoint(t: string, k: nat)
    requires NumericText(t) && k < |t| && t[k] == '.'
    requires '.' !in t[..k]
    ensures t == t[..k] + "." + t[k + 1..] && AllDigits(t[k + 1..])
  {
    var a, b := t[..k], t[k + 1..];
    assert t == a + "." + b;
    assert '.' !in b by {
      CountConcat('.', a + ".", b);
      CountConcat('.', a, ".");
      CountZeroIff('.', a);
      CountZeroIff('.', b);
    }
    forall j | 0 <= j < |b| ensures IsDigit(b[j]) {
      assert b[j] == t[k + 1 + j] && IsNumericChar(t[k + 1 + j]);
    }
  }

  /** Text that is already numeric is left as it is. */
  lemma SanitizeFixesNumeric(t: string)
    requires NumericText(t)
    ensures Sanitize(t) == t
  {
    assert Trim(t) == t by {
      forall j | 0 <= j < |t| ensures NotWhitespace(t[j]) {
        assert IsNumericChar(t[j]);
      }
      TrimNoWhitespace(t);
    }
    NumericShape(t);
    var k := FirstWhere(IsPoint, t);
    assert FirstWhere(IsSeparator, t) == k by {
      forall j | 0 <= j < |t| ensures IsSeparator(t[j]) <==> IsPoint(t[j]) {
        assert IsNumericChar(t[j]);
      }
      SameFirst(t);
    }
    assert Digits(t[..k]) == t[..k] by {
      FilterAll(IsDigit, t[..k]);
    }
    if k < |t| {
      assert Digits(t[k + 1..]) == t[k + 1..] by {
        FilterAll(IsDigit, t[k + 1..]);
      }
    }
  }

  lemma {:induction false} SameFirst(t: string)
    requires forall j :: 0 <= j < |t| ==> (IsSeparator(t[j]) <==> IsPoint(t[j]))
    ensures FirstWhere(IsSeparator, t) == FirstWhere(IsPoint, t)
  {
    if t != [] {
      SameFirst(t[1..]);
    }
  }

  /** Sanitising twice is sanitising once. */
  lemma SanitizeIdempotent(raw: string)
    ensures Sanitize(Sanitize(raw)) == Sanitize(raw)
  {
    SanitizeIsNumeric(raw);
    SanitizeFixesNumeric(Sanitize(raw));
  }

  lemma NoWhitespaceAround(a: string, rest: string)
    requires AllDigits(a) && All(NotWhitespace, rest)
    ensures All(NotWhitespace, a + "," + rest)
  {
    assert All(NotWhitespace, a);
    AllConcat(NotWhitespace, a, ",");
    AllConcat(NotWhitespace, a + ",", rest);
  }

  lemma FirstSeparatorAfterDigits(a: string, rest: string)
    requires AllDigits(a) && rest != [] && IsSeparator(rest[0])
    ensures FirstWhere(IsSeparator, a + rest) == |a|
    ensures (a + rest)[..|a|] == a && (a + rest)[|a| + 1..] == rest[1..]
  {
    var t := a + rest;
    forall j | 0 <= j < |a| ensures !IsSeparator(t[j]) {
      assert t[j] == a[j];
    }
    FirstWhereAt(IsSeparator, t, |a|);
    assert t[..|a|] == a;
    assert t[|a| + 1..] == rest[1..];
  }

  /** After a run of digits, a comma becomes the point and only the digits
      of what follows are kept. */
  lemma SanitizeDigitsComma(a: string, rest: string)
    requires AllDigits(a) && All(NotWhitespace, rest)
    ensures Sanitize(a + "," + rest) == a + "." + Digits(rest)
  {
    var cr := "," + rest;
    var t := a + cr;
    assert a + "," + rest == t;
    assert Trim(t) == t by {
      NoWhitespaceAround(a, rest);
      TrimNoWhitespace(t);
    }
    FirstSeparatorAfterDigits(a, cr);
    assert cr[1..] == rest;
    FilterAll(IsDigit, a);
    NormalizedTrimmed(t, |a|);
  }

  /** The normal form of text that trim leaves alone, split at its first
      separator. */
  lemma NormalizedTrimmed(u: string, k: nat)
    requires Trim(u) == u && k < |u| && FirstWhere(IsSeparator, u) == k
    ensures Normalized(u) == Digits(u[..k]) + "." + Digits(u[k + 1..])
  {
    var t := Trim(u);
    assert t == u;
    assert FirstWhere(IsSeparator, t) == k;
    assert k != |t|;
  }

  /** A decimal comma between digits becomes a point. */
  lemma CommaBecomesPoint(a: string, b: string)
    requires AllDigits(a) && AllDigits(b)
    ensures Sanitize(a + "," + b) == a + "." + b
  {
    assert All(NotWhitespace, b);
    SanitizeDigitsComma(a, b);
    FilterAll(IsDigit, b);
  }

  /** Only the first comma becomes the point; a later one is deleted. */
  lemma LaterCommaDeleted(a: string, b: string, c: string)
    requires AllDigits(a) && AllDigits(b) && AllDigits(c)
    ensures Sanitize(a + "," + b + "," + c) == a + "." + b + c
  {
    var bc := b + "," + c;
    assert a + "," + b + "," + c == a + "," + bc;
    assert All(NotWhitespace, bc) by {
      assert All(NotWhitespace, c);
      NoWhitespaceAround(b, c);
    }
    assert Digits(bc) == b + c by {
      FilterConcat(IsDigit, b + ",", c);
      FilterConcat(IsDigit, b, ",");
      FilterAll(IsDigit, b);
      FilterAll(IsDigit, c);
    }
    SanitizeDigitsComma(a, bc);
    assert a + "." + (b + c) == a + "." + b + c;
  }

  // ---- parseFloat on sanitised text ----

  function DigitValue(c: char): (d: nat)
    ensures d < 10
  {
    if IsDigit(c) then c as int - '0' as int else 0
  }

  function DigitChar(d: nat): (c: char)
    requires d < 10
    ensures IsDigit(c) && DigitValue(c) == d
  {
    ('0' as int + d) as char
  }

  /** The value of a digit string, most significant digit first. */
  function Value(s: string): nat {
    if s == [] then 0 else 10 * Value(s[..|s| - 1]) + DigitValue(s[|s| - 1])
  }

  function Pow10(n: nat): (p: nat)
    ensures p >= 1
  {
    if n == 0 then 1 else 10 * Pow10(n - 1)
  }

  /** `parseFloat` on numeric text, exactly: the digits before the point are
      the whole part, those after it the fraction; no digit at all (`""`,
      `"."`) is NaN, here `None`. */
  function ParseDecimal(t: string): (r: Option<real>)
    requires NumericText(t)
    ensures r.Some? ==> r.value >= 0.0
  {
    var k := FirstWhere(IsPoint, t);
    var whole, frac := t[..k], if k < |t| then t[k + 1..] else [];
    var fraction := Value(frac) as real / Pow10(|frac|) as real;
    assert fraction >= 0.0;
    if whole == [] && frac == [] then None
    else Some(Value(whole) as real + fraction)
  }

  /** Parsing fails exactly on numeric text without a digit. */
  lemma ParseNoneIff(t: string)
    requires NumericText(t)
    ensures ParseDecimal(t).None? <==> Digits(t) == []
  {
    NumericShape(t);
    var k := FirstWhere(IsPoint, t);
    var whole := t[..k];
    FilterAll(IsDigit, whole);
    if k < |t| {
      var frac := t[k + 1..];
      FilterAll(IsDigit, frac);
      FilterConcat(IsDigit, whole + ".", frac);
      FilterConcat(IsDigit, whole, ".");
    }
  }

  /** A parsed value is never negative (the sanitiser drops any sign). */
  /** Decimal digits of a natural number, without leading zeros. */
  function NatText(n: nat): (s: string)
    ensures s != [] && forall k :: 0 <= k < |s| ==> IsDigit(s[k])
  {
    if n < 10 then [DigitChar(n)] else NatText(n / 10) + [DigitChar(n % 10)]
  }

  lemma {:induction false} ValueNatText(n: nat)
    ensures Value(NatText(n)) == n
  {
    if n >= 10 {
      ValueNatText(n / 10);
      var s := NatText(n);
      assert s[..|s| - 1] == NatText(n / 10);
    } else {
      assert NatText(n)[..0] == [];
    }
  }

  lemma DigitTextIsNumeric(s: string)
    requires forall k :: 0 <= k < |s| ==> IsDigit(s[k])
    ensures NumericText(s) && FirstWhere(IsPoint, s) == |s|
  {
    assert '.' !in s;
    CountZeroIff('.', s);
  }

  /** Parsing the decimal text of a natural number gives that number back. */
  lemma ParseNatText(n: nat)
    ensures NumericText(NatText(n)) && ParseDecimal(NatText(n)) == Some(n as real)
  {
    var s := NatText(n);
    DigitTextIsNumeric(s);
    assert s[..|s|] == s;
    ValueNatText(n);
  }

  /** The text of a number of tenths, `n / 10` with one decimal. */
  function TenthsText(n: nat): string {
    NatText(n / 10) + "." + [DigitChar(n % 10)]
  }

  lemma TenthsTextShape(n: nat)
    ensures NumericText(TenthsText(n))
    ensures FirstWhere(IsPoint, TenthsText(n)) == |NatText(n / 10)|
  {
    PointBetweenDigits(NatText(n / 10), [DigitChar(n % 10)]);
  }

  /** Parsing a tenths text gives back the number of tenths over ten. */
  lemma ParseTenthsText(n: nat)
    ensures NumericText(TenthsText(n))
    ensures ParseDecimal(TenthsText(n)) == Some(n as real / 10.0)
  {
    TenthsTextShape(n);
    var w, c := NatText(n / 10), DigitChar(n % 10);
    var t := TenthsText(n);
    assert t[..|w|] == w;
    assert t[|w| + 1..] == [c];
    assert Value(w) == n / 10 by {
      ValueNatText(n / 10);
    }
    assert Value([c]) == n % 10 by {
      assert [c][..0] == [];
    }
    assert ParseDecimal(t) == Some((n / 10) as real + (n % 10) as real / 10.0);
    TenthsSum(n);
  }

  lemma TenthsSum(n: nat)
    ensures (n / 10) as real + (n % 10) as real / 10.0 == n as real / 10.0
  {
    assert n == 10 * (n / 10) + n % 10;
  }

  /** `Number(x.toFixed(1))` for x >= 0: round half up at the first decimal. */
  function RoundTenth(x: real): (r: real)
    requires x >= 0.0
    ensures r >= 0.0
    ensures x - 0.05 < r <= x + 0.05
  {
    (10.0 * x + 0.5).Floor as real / 10.0
  }

  /** `x.toFixed(1)` for x >= 0: the tenths text of the rounded value, so
      exactly one digit follows the point. */
  function ToFixed1(x: real): (r: string)
    requires x >= 0.0
    ensures |r| >= 3 && r[|r| - 2] == '.' && IsDigit(r[|r| - 1])
  {
    TenthsText((10.0 * x + 0.5).Floor)
  }

  /** Re-parsing the one-decimal text gives the rounded number. */
  lemma ParseToFixed1(x: real)
    requires x >= 0.0
    ensures NumericText(ToFixed1(x))
    ensures ParseDecimal(ToFixed1(x)) == Some(RoundTenth(x))
  {
    ParseTenthsText((10.0 * x + 0.5).Floor);
  }

  /** Formatting the rounded number shows the same text as formatting the
      raw one. */
  lemma ToFixed1OfRounded(x: real)
    requires x >= 0.0
    ensures ToFixed1(RoundTenth(x)) == ToFixed1(x)
  {
    var n := (10.0 * x + 0.5).Floor;
    assert 10.0 * RoundTenth(x) == n as real;
    assert (n as real + 0.5).Floor == n;
  }

  /** Rounding twice is rounding once. */
  lemma RoundTenthIdempotent(x: real)
    requires x >= 0.0
    ensures RoundTenth(RoundTenth(x)) == RoundTenth(x)
  {
    var n := (10.0 * x + 0.5).Floor;
    assert 10.0 * RoundTenth(x) == n as real;
    assert (n as real + 0.5).Floor == n;
  }

  /** Rounding preserves order. */
  lemma RoundTenthMonotone(x: real, y: real)
    requires 0.0 <= x <= y
    ensures RoundTenth(x) <= RoundTenth(y)
  {
    assert (10.0 * x + 0.5).Floor <= (10.0 * y + 0.5).Floor;
  }
}
