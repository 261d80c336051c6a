/**
  The handful of JavaScript string operations the form checker uses:
  `trim`, `replace` with a string pattern (first occurrence only),
  `split` on a one-character separator, `join`, and the character filter
  that `replace(/[^...]/g, "")` performs.
*/
module JsString {

  /** The characters `String.prototype.trim` removes: the WhiteSpace and
      LineTerminator code points of ECMA-262. */
  predicate IsWhitespace(c: char) {
    c == '\t' || c == '\n' || c == '\U{000B}' || c == '\U{000C}' || c == '\r' || c == ' '
    || c == '\U{00A0}' || c == '\U{1680}' || ('\U{2000}' <= c <= '\U{200A}')
    || c == '\U{2028}' || c == '\U{2029}' || c == '\U{202F}' || c == '\U{205F}'
    || c == '\U{3000}' || c == '\U{FEFF}'
  }

  predicate IsDigit(c: char) {
    '0' <= c <= '9'
  }

  /** Drops leading whitespace; what is dropped is whitespace and what is
      kept is a suffix that does not start with whitespace. */
  function TrimStart(s: string): (r: string)
    ensures |r| <= |s|
  {
    if |s| > 0 && IsWhitespace(s[0]) then TrimStart(s[1..]) else s
  }

  lemma {:induction false} TrimStartSpec(s: string)
    ensures TrimStart(s) == s[|s| - |TrimStart(s)|..]
    ensures TrimStart(s) == [] || !IsWhitespace(TrimStart(s)[0])
    ensures forall k :: 0 <= k < |s| - |TrimStart(s)| ==> IsWhitespace(s[k])
  {
    if |s| > 0 && IsWhitespace(s[0]) {
      TrimStartSpec(s[1..]);
      var n := |s| - |TrimStart(s)|;
      assert s[1..][n - 1..] == s[n..];
      forall k | 0 <= k < n ensures IsWhitespace(s[k]) {
        if k > 0 {
          assert s[k] == s[1..][k - 1];
        }
      }
    }
  }

  /** Drops trailing whitespace; what is kept is a prefix that does not end
      with whitespace. */
  function TrimEnd(s: string): (r: string)
    ensures |r| <= |s|
  {
    if |s| > 0 && IsWhitespace(s[|s| - 1]) then TrimEnd(s[..|s| - 1]) else s
  }

  lemma {:induction false} TrimEndSpec(s: string)
    ensures TrimEnd(s) == s[..|TrimEnd(s)|]
    ensures TrimEnd(s) == [] || !IsWhitespace(TrimEnd(s)[|TrimEnd(s)| - 1])
    ensures forall k :: |TrimEnd(s)| <= k < |s| ==> IsWhitespace(s[k])
  {
    if |s| > 0 && IsWhitespace(s[|s| - 1]) {
      var init := s[..|s| - 1];
      TrimEndSpec(init);
      var n := |TrimEnd(s)|;
      assert init[..n] == s[..n];
      forall k | n <= k < |s| ensures IsWhitespace(s[k]) {
        if k < |s| - 1 {
          assert s[k] == init[k];
        }
      }
    }
  }

  /** `s.trim()`: never longer than its input, and neither end of the
      result is whitespace. */
  function Trim(s: string): (r: string)
    ensures |r| <= |s|
    ensures r == [] || (!IsWhitespace(r[0]) && !IsWhitespace(r[|r| - 1]))
  {
    var t := TrimStart(s);
    TrimStartSpec(s);
    TrimEndSpec(t);
    assert TrimEnd(t) == [] || TrimEnd(t)[0] == t[0];
    TrimEnd(t)
  }

  /** Trim keeps a contiguous slice of its input, drops only whitespace
      around it, and leaves no whitespace at either end. */
  lemma TrimSlice(s: string) returns (i: nat, j: nat)
    ensures i <= j <= |s| && Trim(s) == s[i..j]
    ensures forall k :: 0 <= k < i || j <= k < |s| ==> IsWhitespace(s[k])
  {
    var t := TrimStart(s);
    var e := TrimEnd(t);
    TrimStartSpec(s);
    TrimEndSpec(t);
    i := |s| - |t|;
    j := i + |e|;
    SliceOfSuffix(s, i, t, e);
    assert Trim(s) == e;
  }

  /** A prefix `e` of the suffix `t` of `s` that starts at `i` is the slice
      of `s` from `i`, and what `t` has beyond `e` lies at the end of `s`. */
  lemma SliceOfSuffix(s: string, i: nat, t: string, e: string)
    requires i <= |s| && t == s[i..] && |e| <= |t| && e == t[..|e|]
    requires forall k :: |e| <= k < |t| ==> IsWhitespace(t[k])
    ensures e == s[i..i + |e|]
    ensures forall k :: i + |e| <= k < |s| ==> IsWhitespace(s[k])
  {
    forall k | i + |e| <= k < |s| ensures IsWhitespace(s[k]) {
      assert s[k] == t[k - i];
    }
  }

  /** The trimmed text is empty exactly when the input is all whitespace. */
  lemma TrimEmptyIff(s: string)
    ensures Trim(s) == [] <==> forall k :: 0 <= k < |s| ==> IsWhitespace(s[k])
  {
    var i, j := TrimSlice(s);
    if Trim(s) != [] {
      assert s[i] == Trim(s)[0];
    }
  }

  predicate NotWhitespace(c: char) {
    !IsWhitespace(c)
  }

  /** A text without whitespace is left unchanged by trim. */
  lemma TrimNoWhitespace(s: string)
    requires All(NotWhitespace, s)
    ensures Trim(s) == s
  {
    var i, j := TrimSlice(s);
    assert |s| > 0 ==> !IsWhitespace(s[0]) && !IsWhitespace(s[|s| - 1]);
  }

  /** Trim is idempotent. */
  lemma TrimIdempotent(s: string)
    ensures Trim(Trim(s)) == Trim(s)
  {
    var t := Trim(s);
    var i, j := TrimSlice(s);
    if t != [] {
      var i2, j2 := TrimSlice(t);
      assert !IsWhitespace(t[0]) && !IsWhitespace(t[|t| - 1]);
    }
  }

  /** The characters of `s` that satisfy `keep`, in order. */
  function Filter(keep: char -> bool, s: string): (r: string)
    ensures |r| <= |s|
  {
    if s == [] then []
    else if keep(s[0]) then [s[0]] + Filter(keep, s[1..])
    else Filter(keep, s[1..])
  }

  /** Filtering keeps only characters that satisfy `keep`, and never
      lengthens the text. */
  lemma {:induction false} FilterKeeps(keep: char -> bool, s: string)
    ensures |Filter(keep, s)| <= |s| && All(keep, Filter(keep, s))
  {
    if s != [] {
      FilterKeeps(keep, s[1..]);
      if keep(s[0]) {
        AllConcat(keep, [s[0]], Filter(keep, s[1..]));
      }
    }
  }

  lemma {:induction false} FilterConcat(keep: char -> bool, a: string, b: string)
    ensures Filter(keep, a + b) == Filter(keep, a) + Filter(keep, b)
  {
    if a == [] {
      assert a + b == b;
    } else {
      assert (a + b)[0] == a[0] && (a + b)[1..] == a[1..] + b;
      FilterConcat(keep, a[1..], b);
    }
  }

  /** Filtering keeps everything when every character is kept. */
  lemma {:induction false} FilterAll(keep: char -> bool, s: string)
    requires forall k :: 0 <= k < |s| ==> keep(s[k])
    ensures Filter(keep, s) == s
  {
    if s != [] {
      FilterAll(keep, s[1..]);
    }
  }

  /** Filtering keeps nothing when no character is kept. */
  lemma {:induction false} FilterNone(keep: char -> bool, s: string)
    requires forall k :: 0 <= k < |s| ==> !keep(s[k])
    ensures Filter(keep, s) == []
  {
    if s != [] {
      FilterNone(keep, s[1..]);
    }
  }

  /** The digit subsequence of a text. */
  function Digits(s: string): string {
    Filter(IsDigit, s)
  }

  lemma DigitsAreDigits(s: string)
    ensures forall k :: 0 <= k < |Digits(s)| ==> IsDigit(Digits(s)[k])
  {
    FilterKeeps(IsDigit, s);
  }

  /** Trimming loses no digit: it only removes whitespace. */
  lemma DigitsTrim(s: string)
    ensures Digits(Trim(s)) == Digits(s)
  {
    DigitsTrimStart(s);
    DigitsTrimEnd(TrimStart(s));
  }

  lemma {:induction false} DigitsTrimStart(s: string)
    ensures Digits(TrimStart(s)) == Digits(s)
  {
    if |s| > 0 && IsWhitespace(s[0]) {
      DigitsTrimStart(s[1..]);
    }
  }

  lemma {:induction false} DigitsTrimEnd(s: string)
    ensures Digits(TrimEnd(s)) == Digits(s)
  {
    if |s| > 0 && IsWhitespace(s[|s| - 1]) {
      var init := s[..|s| - 1];
      DigitsTrimEnd(init);
      assert s == init + [s[|s| - 1]];
      FilterConcat(IsDigit, init, [s[|s| - 1]]);
    }
  }

  /** Number of occurrences of `c` in `s`. */
  function Count(c: char, s: string): nat {
    if s == [] then 0 else (if s[0] == c then 1 else 0) + Count(c, s[1..])
  }

  lemma {:induction false} CountConcat(c: char, a: string, b: string)
    ensures Count(c, a + b) == Count(c, a) + Count(c, b)
  {
    if a == [] {
      assert a + b == b;
    } else {
      assert (a + b)[0] == a[0] && (a + b)[1..] == a[1..] + b;
      CountConcat(c, a[1..], b);
    }
  }

  lemma {:induction false} CountZeroIff(c: char, s: string)
    ensures Count(c, s) == 0 <==> c !in s
  {
    if s != [] {
      CountZeroIff(c, s[1..]);
      assert c in s <==> s[0] == c || c in s[1..];
    }
  }

  /** `s.replace(from, to)` with a one-character string pattern: only the
      first occurrence of `from` is replaced. */
  function ReplaceFirst(s: string, from: char, to: char): (r: string)
    ensures |r| == |s|
  {
    if s == [] then []
    else if s[0] == from then [to] + s[1..]
    else [s[0]] + ReplaceFirst(s[1..], from, to)
  }

  /** Only the first occurrence is replaced; every other character is as it was. */
  lemma {:induction false} ReplaceFirstSpec(s: string, from: char, to: char, k: nat)
    requires k < |s|
    ensures ReplaceFirst(s, from, to)[k] ==
              if s[k] == from && from !in s[..k] then to else s[k]
  {
    if s[0] != from && k > 0 {
      ReplaceFirstSpec(s[1..], from, to, k - 1);
      assert s[1..][..k - 1] == s[1..k];
      assert s[..k] == [s[0]] + s[1..k];
    }
  }

  lemma {:induction false} ReplaceFirstAbsent(s: string, from: char, to: char)
    requires from !in s
    ensures ReplaceFirst(s, from, to) == s
  {
    if s != [] {
      ReplaceFirstAbsent(s[1..], from, to);
    }
  }

  lemma {:induction false} ReplaceFirstPrefix(a: string, t: string, from: char, to: char)
    requires from !in a
    ensures ReplaceFirst(a + t, from, to) == a + ReplaceFirst(t, from, to)
  {
    if a == [] {
      assert a + t == t;
    } else {
      assert (a + t)[0] == a[0] && (a + t)[1..] == a[1..] + t;
      ReplaceFirstPrefix(a[1..], t, from, to);
    }
  }

  /** `s.split(sep)` with a one-character separator: the pieces between
      separators, one more piece than there are separators. */
  function Split(s: string, sep: char): (parts: seq<string>)
    ensures |parts| == Count(sep, s) + 1
  {
    if s == [] then [[]]
    else
      var rest := Split(s[1..], sep);
      if s[0] == sep then [[]] + rest
      else [[s[0]] + rest[0]] + rest[1..]
  }

  /** No piece contains the separator, and joining the pieces with it gives
      the text back. */
  lemma {:induction false} SplitSpec(s: string, sep: char)
    ensures forall p :: p in Split(s, sep) ==> sep !in p
    ensures Join(Split(s, sep), [sep]) == s
  {
    if s != [] {
      SplitSpec(s[1..], sep);
      var rest := Split(s[1..], sep);
      if s[0] == sep {
        assert Split(s, sep) == [[]] + rest;
      } else {
        var parts := Split(s, sep);
        assert parts == [[s[0]] + rest[0]] + rest[1..];
        assert rest == [rest[0]] + rest[1..];
        assert rest[0] in rest;
        forall p | p in parts
          ensures sep !in p
        {
          if p != parts[0] {
            assert p in rest[1..];
          }
        }
        if |rest| == 1 {
          assert Join(parts, [sep]) == [s[0]] + rest[0];
        } else {
          assert Join(parts, [sep]) == [s[0]] + (rest[0] + [sep] + Join(rest[1..], [sep]));
        }
        assert s == [s[0]] + s[1..];
      }
    }
  }

  /** `parts.join(sep)` */
  function Join(parts: seq<string>, sep: string): string {
    if |parts| == 0 then []
    else if |parts| == 1 then parts[0]
    else parts[0] + sep + Join(parts[1..], sep)
  }

  /** A joined text starts with the first piece and ends with the last. */
  lemma {:induction false} JoinEnds(parts: seq<string>, sep: string)
    requires |parts| > 0
    ensures |parts[0]| <= |Join(parts, sep)|
    ensures Join(parts, sep)[..|parts[0]|] == parts[0]
    ensures |parts[|parts| - 1]| <= |Join(parts, sep)|
    ensures Join(parts, sep)[|Join(parts, sep)| - |parts[|parts| - 1]|..] == parts[|parts| - 1]
  {
    if |parts| > 1 {
      var rest := parts[1..];
      JoinEnds(rest, sep);
      var j := Join(rest, sep);
      assert Join(parts, sep) == parts[0] + sep + j;
      assert rest[|rest| - 1] == parts[|parts| - 1];
    }
  }

  /** Splitting after a separator-free head gives that head as the first piece. */
  lemma {:induction false} SplitAfter(head: string, sep: char, tail: string)
    requires sep !in head
    ensures Split(head + [sep] + tail, sep) == [head] + Split(tail, sep)
  {
    if head != [] {
      assert (head + [sep] + tail)[1..] == head[1..] + [sep] + tail;
      SplitAfter(head[1..], sep, tail);
      assert [head[0]] + head[1..] == head;
    } else {
      assert (head + [sep] + tail)[1..] == tail;
    }
  }

  /** `s` with every occurrence of `c` deleted. */
  function Without(c: char, s: string): (r: string)
    ensures c !in r
  {
    if s == [] then [] else (if s[0] == c then [] else [s[0]]) + Without(c, s[1..])
  }

  /** Joining the pieces of a split with "" deletes the separators. */
  lemma {:induction false} JoinSplitEmpty(s: string, sep: char)
    ensures Join(Split(s, sep), "") == Without(sep, s)
  {
    if s != [] {
      JoinSplitEmpty(s[1..], sep);
      var rest := Split(s[1..], sep);
      if s[0] != sep {
        assert Split(s, sep) == [[s[0]] + rest[0]] + rest[1..];
        if |rest| > 1 {
          assert Join(rest, "") == rest[0] + "" + Join(rest[1..], "");
        }
      }
    }
  }

  lemma {:induction false} WithoutAbsent(c: char, s: string)
    requires c !in s
    ensures Without(c, s) == s
  {
    if s != [] {
      WithoutAbsent(c, s[1..]);
    }
  }

  /** Index of the first character of `s` satisfying `p`, if any. */
  function FirstWhere(p: char -> bool, s: string): (k: nat)
    ensures k <= |s|
    ensures k < |s| ==> p(s[k])
  {
    if s == [] || p(s[0]) then 0 else 1 + FirstWhere(p, s[1..])
  }

  /** No character before the first match satisfies `p`. */
  lemma {:induction false} FirstWhereBefore(p: char -> bool, s: string)
    ensures forall j :: 0 <= j < FirstWhere(p, s) ==> !p(s[j])
  {
    if s != [] && !p(s[0]) {
      FirstWhereBefore(p, s[1..]);
      forall j | 0 < j < FirstWhere(p, s) ensures !p(s[j]) {
        assert s[j] == s[1..][j - 1];
      }
    }
  }

  /** The first index where `p` holds is characterised by its two properties. */
  lemma {:induction false} FirstWhereAt(p: char -> bool, s: string, k: nat)
    requires k <= |s| && (k < |s| ==> p(s[k]))
    requires forall j :: 0 <= j < k ==> !p(s[j])
    ensures FirstWhere(p, s) == k
  {
    if k > 0 {
      assert !p(s[0]);
      FirstWhereAt(p, s[1..], k - 1);
    }
  }

  /** Every character satisfies `p`. */
  predicate All(p: char -> bool, s: string) {
    forall k :: 0 <= k < |s| ==> p(s[k])
  }

  lemma AllConcat(p: char -> bool, x: string, y: string)
    requires All(p, x) && All(p, y)
    ensures All(p, x + y)
  {
    forall k | 0 <= k < |x + y| ensures p((x + y)[k]) {
      if k < |x| {
        assert (x + y)[k] == x[k];
      } else {
        assert (x + y)[k] == y[k - |x|];
      }
    }
  }
}
