/** The string operations the bot relies on: Python's `str.strip()`,
    `str.lower()`, `str.startswith`, `str.split(sep)`, `", ".join(...)`,
    `f"{n}"` and `int(s)`. */
module Text {
  import opened Wrappers

  // ---------------------------------------------------------------------
  // Whitespace and case
  // ---------------------------------------------------------------------

  /** The characters for which Python's `str.isspace()` holds; `strip()`
      with no argument removes exactly these from both ends. */
  predicate IsSpace(c: char)
  {
    || c == ' '
    || ('\t' <= c <= '\r')
    || ('\U{1C}' <= c <= '\U{1F}')
    || c == '\U{85}' || c == '\U{A0}' || c == '\U{1680}'
    || ('\U{2000}' <= c <= '\U{200A}')
    || c == '\U{2028}' || c == '\U{2029}' || c == '\U{202F}'
    || c == '\U{205F}' || c == '\U{3000}'
  }

  predicate AllSpace(s: string)
  {
    forall i :: 0 <= i < |s| ==> IsSpace(s[i])
  }

  /** Lower-casing of one character (ASCII letters only). */
  function LowerChar(c: char): (r: char)
    ensures IsSpace(r) == IsSpace(c)
    ensures !('A' <= r <= 'Z')
    ensures !('A' <= c <= 'Z') ==> r == c
  {
    if 'A' <= c <= 'Z' then (c as int + 32) as char else c
  }

  /** Python's `s.lower()`, character by character. */
  function Lower(s: string): (r: string)
    ensures |r| == |s|
    ensures forall i :: 0 <= i < |s| ==> r[i] == LowerChar(s[i])
  {
    seq(|s|, i requires 0 <= i < |s| => LowerChar(s[i]))
  }

  /** Python's `s.lstrip()`. */
  function TrimStart(s: string): (r: string)
    ensures |r| <= |s|
  {
    if |s| > 0 && IsSpace(s[0]) then TrimStart(s[1..]) else s
  }

  /** Python's `s.rstrip()`. */
  function TrimEnd(s: string): (r: string)
    ensures |r| <= |s|
  {
    if |s| > 0 && IsSpace(s[|s| - 1]) then TrimEnd(s[..|s| - 1]) else s
  }

  /** A string with no whitespace at either end. */
  predicate IsStripped(s: string)
  {
    |s| == 0 || (!IsSpace(s[0]) && !IsSpace(s[|s| - 1]))
  }

  /** Python's `s.strip()`. */
  function Strip(s: string): string
  {
    TrimEnd(TrimStart(s))
  }

  /** The lookup key of the dictionary cache and of the study list:
      `word.lower().strip()`. */
  function Normalize(s: string): (r: string)
    ensures IsStripped(r) && NoUpper(r)
    ensures |r| <= |s|
  {
    NormalizeShape(s);
    Strip(Lower(s))
  }

  lemma NormalizeShape(s: string)
    ensures IsStripped(Strip(Lower(s))) && NoUpper(Strip(Lower(s)))
    ensures |Strip(Lower(s))| <= |s|
  {
    var p, q := StripSplits(Lower(s));
    assert NoUpper(Lower(s));
    NoUpperMiddle(p, Strip(Lower(s)), q);
  }

  lemma {:induction false} TrimStartSpaces(p: string, x: string)
    requires AllSpace(p)
    ensures TrimStart(p + x) == TrimStart(x)
    decreases |p|
  {
    if |p| > 0 {
      assert (p + x)[1..] == p[1..] + x;
      TrimStartSpaces(p[1..], x);
    } else {
      assert p + x == x;
    }
  }

  lemma {:induction false} TrimEndSpaces(x: string, q: string)
    requires AllSpace(q)
    ensures TrimEnd(x + q) == TrimEnd(x)
    decreases |q|
  {
    if |q| > 0 {
      assert (x + q)[..|x + q| - 1] == x + q[..|q| - 1];
      TrimEndSpaces(x, q[..|q| - 1]);
    } else {
      assert x + q == x;
    }
  }

  /** Stripping is determined by the text between the padding: whatever
      whitespace surrounds a stripped string, `strip()` returns it. */
  lemma StripPadded(p: string, m: string, q: string)
    requires AllSpace(p) && AllSpace(q) && IsStripped(m)
    ensures Strip(p + m + q) == m
  {
    assert p + m + q == p + (m + q);
    TrimStartSpaces(p, m + q);
    TrimEndSpaces(m, q);
    if |m| == 0 {
      assert m + q == q;
      TrimStartSpaces(q, "");
      assert q + "" == q;
    }
  }

  /** `lstrip()` removes a run of whitespace and stops at the first
      character that is not whitespace. */
  lemma {:induction false} TrimStartSplits(s: string) returns (p: string)
    ensures AllSpace(p) && s == p + TrimStart(s)
    ensures |TrimStart(s)| > 0 ==> !IsSpace(TrimStart(s)[0])
    decreases |s|
  {
    if |s| > 0 && IsSpace(s[0]) {
      var p' := TrimStartSplits(s[1..]);
      p := [s[0]] + p';
    } else {
      p := "";
    }
  }

  /** `rstrip()` removes a run of whitespace and stops at the last
      character that is not whitespace. */
  lemma {:induction false} TrimEndSplits(s: string) returns (q: string)
    ensures AllSpace(q) && s == TrimEnd(s) + q
    ensures |TrimEnd(s)| > 0 ==> !IsSpace(TrimEnd(s)[|TrimEnd(s)| - 1])
    decreases |s|
  {
    if |s| > 0 && IsSpace(s[|s| - 1]) {
      var q' := TrimEndSplits(s[..|s| - 1]);
      q := q' + [s[|s| - 1]];
    } else {
      q := "";
    }
  }

  lemma StripIsStripped(s: string)
    ensures IsStripped(Strip(s))
  {
    var t := TrimStart(s);
    var m := TrimEnd(t);
    var p := TrimStartSplits(s);
    var q := TrimEndSplits(t);
    if |m| > 0 {
      assert m[0] == t[0];
    }
  }

  /** Every string is its stripped core between two runs of whitespace. */
  lemma StripSplits(s: string) returns (p: string, q: string)
    ensures AllSpace(p) && AllSpace(q) && IsStripped(Strip(s))
    ensures s == p + Strip(s) + q
  {
    p := TrimStartSplits(s);
    q := TrimEndSplits(TrimStart(s));
    StripIsStripped(s);
  }

  lemma LowerConcat(a: string, b: string)
    ensures Lower(a + b) == Lower(a) + Lower(b)
  {
  }

  lemma LowerKeepsSpaces(s: string)
    requires AllSpace(s)
    ensures Lower(s) == s
  {
  }

  lemma LowerKeepsStripped(s: string)
    requires IsStripped(s)
    ensures IsStripped(Lower(s))
  {
  }

  predicate NoUpper(s: string)
  {
    forall i :: 0 <= i < |s| ==> !('A' <= s[i] <= 'Z')
  }

  lemma LowerOfLowered(s: string)
    requires NoUpper(s)
    ensures Lower(s) == s
  {
  }

  lemma NoUpperMiddle(p: string, m: string, q: string)
    requires NoUpper(p + m + q)
    ensures NoUpper(m)
  {
    forall i | 0 <= i < |m|
      ensures !('A' <= m[i] <= 'Z')
    {
      assert m[i] == (p + m + q)[|p| + i];
    }
  }

  /** `normalize` produces a key that normalising again does not change:
      no upper-case ASCII letter and no surrounding whitespace. */
  lemma NormalizeIdempotent(s: string)
    ensures Normalize(Normalize(s)) == Normalize(s)
  {
    var k := Normalize(s);
    var p, q := StripSplits(Lower(s));
    assert NoUpper(Lower(s));
    NoUpperMiddle(p, k, q);
    LowerOfLowered(k);
    StripPadded("", k, "");
    assert "" + k + "" == k;
  }

  /** The search handler strips before lower-casing (`strip().lower()`),
      the dictionary tables lower-case before stripping; both give the
      same key. */
  lemma StripLowerCommute(s: string)
    ensures Lower(Strip(s)) == Normalize(s)
  {
    var p, q := StripSplits(s);
    var m := Strip(s);
    LowerConcat(p + m, q);
    LowerConcat(p, m);
    LowerKeepsSpaces(p);
    LowerKeepsSpaces(q);
    LowerKeepsStripped(m);
    StripPadded(p, Lower(m), q);
  }

  /** Surrounding whitespace does not change the dictionary key. */
  lemma NormalizeIgnoresPadding(p: string, s: string, q: string)
    requires AllSpace(p) && AllSpace(q)
    ensures Normalize(p + s + q) == Normalize(s)
  {
    var p', q' := StripSplits(Lower(s));
    var m := Normalize(s);
    LowerConcat(p + s, q);
    LowerConcat(p, s);
    LowerKeepsSpaces(p);
    LowerKeepsSpaces(q);
    assert Lower(p + s + q) == p + Lower(s) + q;
    Regroup(p, p', m, q', q);
    assert AllSpace(p + p') && AllSpace(q' + q);
    StripPadded(p + p', m, q' + q);
  }

  lemma Regroup(a: string, b: string, c: string, d: string, e: string)
    ensures a + (b + c + d) + e == (a + b) + c + (d + e)
  {
  }

  /** Letter case does not change the dictionary key. */
  lemma NormalizeIgnoresCase(s: string)
    ensures Normalize(Lower(s)) == Normalize(s)
  {
    assert NoUpper(Lower(s));
    LowerOfLowered(Lower(s));
  }

  // ---------------------------------------------------------------------
  // Prefixes, splitting and joining
  // ---------------------------------------------------------------------

  /** Python's `s.startswith(prefix)`. */
  predicate StartsWith(s: string, prefix: string)
  {
    |prefix| <= |s| && s[..|prefix|] == prefix
  }

  /** Python's `s.split(sep)` for a one-character separator: the pieces
      between separators, empty pieces included. */
  function Split(s: string, sep: char): (parts: seq<string>)
    ensures |parts| >= 1
    decreases |s|
  {
    if |s| == 0 then [""]
    else if s[0] == sep then [""] + Split(s[1..], sep)
    else
      var rest := Split(s[1..], sep);
      [[s[0]] + rest[0]] + rest[1..]
  }

  /** A piece without the separator splits into itself. */
  lemma {:induction false} SplitPlain(a: string, sep: char)
    requires sep !in a
    ensures Split(a, sep) == [a]
    decreases |a|
  {
    if |a| > 0 {
      SplitPlain(a[1..], sep);
      assert [a[0]] + a[1..] == a;
    }
  }

  /** Splitting stops at the first separator. */
  lemma {:induction false} SplitAt(a: string, sep: char, b: string)
    requires sep !in a
    ensures Split(a + [sep] + b, sep) == [a] + Split(b, sep)
    decreases |a|
  {
    var s := a + [sep] + b;
    if |a| == 0 {
      assert s[1..] == b;
    } else {
      assert s[1..] == a[1..] + [sep] + b;
      SplitAt(a[1..], sep, b);
      assert [a[0]] + a[1..] == a;
    }
  }

  /** The summed length of the pieces. */
  function TotalLength(items: seq<string>): nat
  {
    if |items| == 0 then 0 else |items[0]| + TotalLength(items[1..])
  }

  /** `sep.join(items)`: the pieces in order with one `sep` between
      neighbours. */
  function Join(items: seq<string>, sep: string): (r: string)
    ensures |items| == 0 ==> r == ""
    ensures |items| == 1 ==> r == items[0]
    ensures |items| > 0 ==> |r| == TotalLength(items) + (|items| - 1) * |sep|
    ensures |items| > 0 ==> StartsWith(r, items[0])
  {
    if |items| == 0 then ""
    else if |items| == 1 then items[0]
    else
      var rest := Join(items[1..], sep);
      assert (|items| - 1) * |sep| == |sep| + (|items| - 2) * |sep|;
      assert (items[0] + sep + rest)[..|items[0]|] == items[0];
      items[0] + sep + rest
  }

  /** Splitting a join on a one-character separator that no piece contains
      gives back the pieces. */
  lemma {:induction false} SplitJoin(items: seq<string>, sep: char)
    requires |items| > 0
    requires forall i :: 0 <= i < |items| ==> sep !in items[i]
    ensures Split(Join(items, [sep]), sep) == items
    decreases |items|
  {
    if |items| == 1 {
      SplitPlain(items[0], sep);
    } else {
      SplitJoin(items[1..], sep);
      SplitAt(items[0], sep, Join(items[1..], [sep]));
      assert [items[0]] + items[1..] == items;
    }
  }

  // ---------------------------------------------------------------------
  // Decimal integers
  // ---------------------------------------------------------------------

  predicate IsDigit(c: char) { '0' <= c <= '9' }

  predicate AllDigits(s: string)
  {
    forall i :: 0 <= i < |s| ==> IsDigit(s[i])
  }

  function DigitChar(d: int): (c: char)
    requires 0 <= d < 10
    ensures IsDigit(c)
  {
    ('0' as int + d) as char
  }

  /** The decimal digits of `n`, as `f"{n}"` prints a non-negative int. */
  function NatToString(n: nat): (s: string)
    ensures |s| > 0 && AllDigits(s)
  {
    if n < 10 then [DigitChar(n)] else NatToString(n / 10) + [DigitChar(n % 10)]
  }

  /** `f"{i}"` for any int. */
  function IntToString(i: int): (s: string)
    ensures |s| > 0 && ':' !in s
  {
    if i < 0 then "-" + NatToString(-i) else NatToString(i)
  }

  /** The value of a string of decimal digits. */
  function DigitsValue(s: string): nat
    requires AllDigits(s)
  {
    if |s| == 0 then 0
    else DigitsValue(s[..|s| - 1]) * 10 + (s[|s| - 1] as int - '0' as int)
  }

  /** Python's `int(s)` on an optional sign followed by decimal digits;
      `None` stands for the `ValueError` it raises otherwise. */
  function ParseInt(s: string): Option<int>
  {
    if |s| > 0 && (s[0] == '-' || s[0] == '+') then
      if |s| > 1 && AllDigits(s[1..]) then
        var v: int := DigitsValue(s[1..]);
        Some(if s[0] == '-' then -v else v)
      else None
    else if |s| > 0 && AllDigits(s) then Some(DigitsValue(s))
    else None
  }

  lemma {:induction false} NatToStringValue(n: nat)
    ensures DigitsValue(NatToString(n)) == n
  {
    var s := NatToString(n);
    if n >= 10 {
      NatToStringValue(n / 10);
      assert s[..|s| - 1] == NatToString(n / 10);
    }
  }

  /** `int(f"{i}") == i`: every id the bot prints into callback data
      parses back to itself. */
  lemma IntRoundTrip(i: int)
    ensures ParseInt(IntToString(i)) == Some(i)
  {
    var s := IntToString(i);
    if i < 0 {
      NatToStringValue(-i);
      assert s[1..] == NatToString(-i);
    } else {
      NatToStringValue(i);
    }
  }
}
