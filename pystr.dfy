/**
 * The few Python string operations the validator relies on: `str.upper`,
 * `str.startswith`, `str.replace(old, "")`, `str.strip(chars)`,
 * `str.split(sep)` and `int(str)` in base 10, together with the decimal
 * rendering of an integer that an f-string uses.
 *
 * Simplified against CPython: `upper` maps ASCII letters only, `int` skips
 * the ASCII whitespace CPython's `int` skips (not Unicode whitespace), and
 * `int` accepts ASCII digits only (no `_` separators, no other Unicode digits).
 */
module PyStr {
  import opened Wrappers

  // ---------------------------------------------------------------- upper

  function UpperChar(c: char): char {
    if 'a' <= c <= 'z' then (c as int - 32) as char else c
  }

  /** Exactly `R` and `r` upper-case to `R`. */
  lemma UpperCharR(c: char)
    ensures UpperChar(c) == 'R' <==> c == 'R' || c == 'r'
  {
  }

  /** `s.upper()`, on ASCII letters. */
  function Upper(s: string): (r: string)
    ensures |r| == |s|
    ensures forall i :: 0 <= i < |s| ==> r[i] == UpperChar(s[i])
  {
    if s == [] then [] else [UpperChar(s[0])] + Upper(s[1..])
  }

  /** `s.startswith(p)`. */
  predicate StartsWith(s: string, p: string) {
    |p| <= |s| && s[..|p|] == p
  }

  /** `s` starts with `p` exactly when `s` is `p` followed by some text. */
  lemma StartsWithIff(s: string, p: string)
    ensures StartsWith(s, p) <==> exists rest :: s == p + rest
  {
    if StartsWith(s, p) {
      assert s == p + s[|p|..];
    }
    if exists rest :: s == p + rest {
      var rest :| s == p + rest;
      assert s[..|p|] == p;
    }
  }

  /** `t in s`: `t` occurs somewhere in `s`. */
  predicate Contains(s: string, t: string) {
    exists i :: 0 <= i <= |s| - |t| && s[i..][..|t|] == t
  }

  lemma ContainsSuffix(a: string, t: string)
    ensures Contains(a + t, t)
  {
    assert (a + t)[|a|..][..|t|] == t;
  }

  lemma ContainsAppend(x: string, y: string, t: string)
    requires Contains(x, t)
    ensures Contains(x + y, t)
  {
    var i :| 0 <= i <= |x| - |t| && x[i..][..|t|] == t;
    assert (x + y)[i..][..|t|] == x[i..][..|t|];
  }

  lemma ContainsPrepend(y: string, x: string, t: string)
    requires Contains(x, t)
    ensures Contains(y + x, t)
  {
    var i :| 0 <= i <= |x| - |t| && x[i..][..|t|] == t;
    assert (y + x)[|y| + i..][..|t|] == x[i..][..|t|];
  }

  /** `s.endswith(p)`. */
  predicate EndsWith(s: string, p: string) {
    |p| <= |s| && s[|s| - |p|..] == p
  }

  // ------------------------------------------------------ replace(pat, "")

  /**
   * `s.replace(pat, "")`: occurrences of `pat` are found left to right and do
   * not overlap; text that only forms `pat` after a removal stays.
   */
  function RemoveAll(s: string, pat: string): (r: string)
    requires pat != []
    ensures |r| <= |s|
    ensures forall c :: c in r ==> c in s
    decreases |s|
  {
    if |s| < |pat| then s
    else if s[..|pat|] == pat then RemoveAll(s[|pat|..], pat)
    else [s[0]] + RemoveAll(s[1..], pat)
  }

  /** `pat` occurs in `s` at position `i`. */
  predicate OccursAt(s: string, pat: string, i: int) {
    0 <= i && i + |pat| <= |s| && s[i..i + |pat|] == pat
  }

  /** Text in which `pat` does not occur is left as it is. */
  lemma {:induction false} RemoveAllNoOccurrence(s: string, pat: string)
    requires pat != []
    requires forall i :: 0 <= i <= |s| - |pat| ==> !OccursAt(s, pat, i)
    ensures RemoveAll(s, pat) == s
    decreases |s|
  {
    if |s| >= |pat| {
      assert !OccursAt(s, pat, 0);
      forall i | 0 <= i <= |s[1..]| - |pat| ensures !OccursAt(s[1..], pat, i) {
        assert !OccursAt(s, pat, i + 1);
        assert s[1..][i..i + |pat|] == s[i + 1..i + 1 + |pat|];
      }
      RemoveAllNoOccurrence(s[1..], pat);
      assert [s[0]] + s[1..] == s;
    }
  }

  /** In particular, text without the first character of `pat` is left as it is. */
  lemma RemoveAllAbsent(s: string, pat: string)
    requires pat != [] && pat[0] !in s
    ensures RemoveAll(s, pat) == s
  {
    forall i | 0 <= i <= |s| - |pat| ensures !OccursAt(s, pat, i) {
      assert s[i] in s;
    }
    RemoveAllNoOccurrence(s, pat);
  }

  /** A prefix inside which no occurrence of `pat` begins is kept as it is. */
  lemma {:induction false} RemoveAllKeepsPrefix(a: string, b: string, pat: string)
    requires pat != []
    requires forall i :: 0 <= i < |a| ==> !OccursAt(a + b, pat, i)
    ensures RemoveAll(a + b, pat) == a + RemoveAll(b, pat)
    decreases |a|
  {
    if a != [] {
      var s, r := a + b, RemoveAll(b, pat);
      NoOccurrenceTail(a, b, pat);
      RemoveAllKeepsPrefix(a[1..], b, pat);
      RemoveAllStep(s, pat);
      assert s[0] == a[0];
      assert RemoveAll(s, pat) == [a[0]] + (a[1..] + r);
      assert [a[0]] + (a[1..] + r) == a + r;
    } else {
      assert a + b == b;
    }
  }

  /** Without an occurrence in front, the first character is kept and the removal goes on after it. */
  lemma RemoveAllStep(s: string, pat: string)
    requires pat != [] && s != [] && !OccursAt(s, pat, 0)
    ensures RemoveAll(s, pat) == [s[0]] + RemoveAll(s[1..], pat)
  {
    if |s| < |pat| {
      assert RemoveAll(s[1..], pat) == s[1..];
      assert [s[0]] + s[1..] == s;
    }
  }

  /** No occurrence starts inside `a` of `a + b`: then none starts inside `a[1..]` of `a[1..] + b`. */
  lemma NoOccurrenceTail(a: string, b: string, pat: string)
    requires a != [] && forall i :: 0 <= i < |a| ==> !OccursAt(a + b, pat, i)
    ensures !OccursAt(a + b, pat, 0) && (a + b)[1..] == a[1..] + b
    ensures forall i :: 0 <= i < |a[1..]| ==> !OccursAt(a[1..] + b, pat, i)
  {
    var s := a + b;
    assert s[1..] == a[1..] + b;
    forall i | 0 <= i < |a[1..]| ensures !OccursAt(a[1..] + b, pat, i) {
      OccursAtTail(s, pat, i);
    }
  }

  /** An occurrence in the tail of `s` is one in `s`, one position later. */
  lemma OccursAtTail(s: string, pat: string, i: nat)
    requires s != []
    ensures OccursAt(s[1..], pat, i) ==> OccursAt(s, pat, i + 1)
  {
    if OccursAt(s[1..], pat, i) {
      assert s[1..][i..i + |pat|] == s[i + 1..i + 1 + |pat|];
    }
  }

  /** No occurrence of `pat` begins inside a prefix of its length that differs from it and holds its first character only in front. */
  lemma PrefixNoOccurrence(p: string, x: string, pat: string)
    requires pat != [] && |p| == |pat| && p != pat
    requires forall i :: 1 <= i < |p| ==> p[i] != pat[0]
    ensures forall i :: 0 <= i < |p| ==> !OccursAt(p + x, pat, i)
  {
    forall i | 0 <= i < |p| ensures !OccursAt(p + x, pat, i) {
      if i == 0 {
        assert (p + x)[0..|pat|] == p;
      } else if i + |pat| <= |p + x| {
        assert (p + x)[i..i + |pat|][0] == p[i];
      }
    }
  }

  /**
   * The leftmost occurrence is removed first: when no occurrence of `pat`
   * begins inside `a`, the text before `pat` is kept and the rest is
   * processed after it, so occurrences never overlap.
   */
  lemma {:induction false} RemoveAllLeftmost(a: string, b: string, pat: string)
    requires pat != []
    requires forall i :: 0 <= i < |a| ==> !OccursAt(a + pat + b, pat, i)
    ensures RemoveAll(a + pat + b, pat) == a + RemoveAll(b, pat)
    decreases |a|
  {
    var s := a + pat + b;
    if a == [] {
      assert s == pat + b && s[..|pat|] == pat && s[|pat|..] == b;
    } else {
      assert !OccursAt(s, pat, 0);
      assert s[1..] == a[1..] + pat + b;
      forall i | 0 <= i < |a[1..]| ensures !OccursAt(a[1..] + pat + b, pat, i) {
        assert !OccursAt(s, pat, i + 1);
        assert s[1..][i..i + |pat|] == s[i + 1..i + 1 + |pat|];
      }
      RemoveAllLeftmost(a[1..], b, pat);
      assert [a[0]] + (a[1..] + RemoveAll(b, pat)) == a + RemoveAll(b, pat);
    }
  }

  /** A first character that does not start an occurrence is kept in front. */
  lemma FirstCharKept(s: string, pat: string)
    requires pat != [] && s != [] && !StartsWith(s, pat)
    ensures RemoveAll(s, pat) != [] && RemoveAll(s, pat)[0] == s[0]
  {
  }

  /** One pass only: removing the inner `RANGE` of `RARANGENGE` leaves a new `RANGE`, which stays. */
  lemma RemoveAllSinglePass()
    ensures RemoveAll("RARANGENGE", "RANGE") == "RANGE"
  {
    SinglePassSplit();
    SinglePassNoEarlierMatch();
    RemoveAllLeftmost("RA", "NGE", "RANGE");
    assert RemoveAll("NGE", "RANGE") == "NGE";
    SinglePassJoin();
  }

  // The literal-string equations of that example, each proved on its own.

  lemma SinglePassSplit()
    ensures "RA" + "RANGE" + "NGE" == "RARANGENGE"
  {
  }

  lemma SinglePassJoin()
    ensures "RA" + "NGE" == "RANGE"
  {
  }

  lemma SinglePassNoEarlierMatch()
    ensures forall i :: 0 <= i < |"RA"| ==> !OccursAt("RA" + "RANGE" + "NGE", "RANGE", i)
  {
    SinglePassSplit();
    assert !OccursAt("RARANGENGE", "RANGE", 0) by {
      assert "RARANGENGE"[1] == 'A' && "RARANGENGE"[2] == 'R';
    }
    assert !OccursAt("RARANGENGE", "RANGE", 1) by {
      assert "RARANGENGE"[1] == 'A';
    }
  }

  // -------------------------------------------------------------- strip

  function StripLeft(s: string, chars: set<char>): (r: string)
    ensures |r| <= |s| && r == s[|s| - |r|..]
    ensures forall i :: 0 <= i < |s| - |r| ==> s[i] in chars
    ensures r == [] || r[0] !in chars
  {
    if s != [] && s[0] in chars then
      var r := StripLeft(s[1..], chars);
      assert r == s[|s| - |r|..] by { assert s[1..][|s| - 1 - |r|..] == s[|s| - |r|..]; }
      assert forall i :: 1 <= i < |s| - |r| ==> s[i] == s[1..][i - 1];
      r
    else s
  }

  function StripRight(s: string, chars: set<char>): (r: string)
    ensures |r| <= |s| && r == s[..|r|]
    ensures forall i :: |r| <= i < |s| ==> s[i] in chars
    ensures r == [] || r[|r| - 1] !in chars
  {
    if s != [] && s[|s| - 1] in chars then StripRight(s[..|s| - 1], chars) else s
  }

  /** `s.strip(chars)`: drops every leading and trailing character in `chars`. */
  function Strip(s: string, chars: set<char>): (r: string)
    ensures r == [] || (r[0] !in chars && r[|r| - 1] !in chars)
  {
    StripRight(StripLeft(s, chars), chars)
  }

  /** `Strip` keeps one contiguous slice, and everything cut off on either side is in `chars`. */
  lemma StripSlice(s: string, chars: set<char>)
    ensures var r := Strip(s, chars);
      exists i :: 0 <= i <= |s| - |r| && r == s[i..][..|r|]
        && (forall j :: 0 <= j < i ==> s[j] in chars)
        && (forall j :: i + |r| <= j < |s| ==> s[j] in chars)
  {
    var l := StripLeft(s, chars);
    var r := StripRight(l, chars);
    var i := |s| - |l|;
    assert s[i..] == l && r == l[..|r|];
    forall j | i + |r| <= j < |s| ensures s[j] in chars {
      assert s[j] == l[j - i];
    }
    assert forall j :: 0 <= j < i ==> s[j] in chars;
    assert 0 <= i <= |s| - |r| && r == s[i..][..|r|];
  }

  lemma {:induction false} StripLeftPadded(pad: string, s: string, chars: set<char>)
    requires forall i :: 0 <= i < |pad| ==> pad[i] in chars
    ensures StripLeft(pad + s, chars) == StripLeft(s, chars)
  {
    if pad != [] {
      assert (pad + s)[1..] == pad[1..] + s;
      StripLeftPadded(pad[1..], s, chars);
    } else {
      assert pad + s == s;
    }
  }

  lemma {:induction false} StripRightPadded(s: string, pad: string, chars: set<char>)
    requires forall i :: 0 <= i < |pad| ==> pad[i] in chars
    ensures StripRight(s + pad, chars) == StripRight(s, chars)
  {
    if pad != [] {
      assert (s + pad)[..|s + pad| - 1] == s + pad[..|pad| - 1];
      StripRightPadded(s, pad[..|pad| - 1], chars);
    } else {
      assert s + pad == s;
    }
  }

  lemma StripLeftUntouched(s: string, chars: set<char>)
    requires s == [] || s[0] !in chars
    ensures StripLeft(s, chars) == s
  {
  }

  /** A string whose two ends are not in `chars` is left as it is. */
  lemma StripUntouched(s: string, chars: set<char>)
    requires s == [] || (s[0] !in chars && s[|s| - 1] !in chars)
    ensures Strip(s, chars) == s
  {
  }

  /** Stripping `[open] + mid + [close]` leaves `mid` when `mid`'s ends are kept. */
  lemma StripEnclosed(open: char, mid: string, close: char, chars: set<char>)
    requires open in chars && close in chars
    requires mid != [] && mid[0] !in chars && mid[|mid| - 1] !in chars
    ensures Strip([open] + mid + [close], chars) == mid
  {
    var s := [open] + mid + [close];
    assert s[1..] == mid + [close];
    StripLeftUntouched(mid + [close], chars);
    assert (mid + [close])[..|mid|] == mid;
  }

  // -------------------------------------------------------------- split

  function CountChar(s: string, c: char): nat {
    if s == [] then 0 else (if s[0] == c then 1 else 0) + CountChar(s[1..], c)
  }

  /**
   * `s.split(sep)` for a one-character separator: never empty, and no part
   * holds the separator (`"".split(",") == [""]`).
   */
  function Split(s: string, sep: char): (r: seq<string>)
    ensures |r| == CountChar(s, sep) + 1
    ensures forall i :: 0 <= i < |r| ==> sep !in r[i]
    ensures s != [] && s[0] != sep ==> r[0] != [] && r[0][0] == s[0]
  {
    if s == [] then [""]
    else
      var rest := Split(s[1..], sep);
      if s[0] == sep then [""] + rest else [[s[0]] + rest[0]] + rest[1..]
  }

  /** `sep.join(parts)`. */
  function Join(parts: seq<string>, sep: char): string {
    if |parts| <= 1 then (if parts == [] then "" else parts[0])
    else parts[0] + [sep] + Join(parts[1..], sep)
  }

  /** Splitting loses nothing: joining the parts back gives the string. */
  lemma {:induction false} JoinSplit(s: string, sep: char)
    ensures Join(Split(s, sep), sep) == s
  {
    if s != [] {
      JoinSplit(s[1..], sep);
      var rest := Split(s[1..], sep);
      if s[0] != sep {
        if |rest| > 1 {
          assert ([[s[0]] + rest[0]] + rest[1..])[1..] == rest[1..];
        }
      }
    }
  }

  lemma {:induction false} SplitNoSep(s: string, sep: char)
    requires sep !in s
    ensures Split(s, sep) == [s]
  {
    if s != [] {
      assert s[0] in s;
      SplitNoSep(s[1..], sep);
      assert [s[0]] + s[1..] == s;
    }
  }

  /** A string made of two separator-free parts splits into exactly those parts. */
  lemma {:induction false} SplitTwo(a: string, b: string, sep: char)
    requires sep !in a && sep !in b
    ensures Split(a + [sep] + b, sep) == [a, b]
  {
    if a == [] {
      assert a + [sep] + b == [sep] + b;
      SplitNoSep(b, sep);
    } else {
      assert (a + [sep] + b)[1..] == a[1..] + [sep] + b;
      SplitTwo(a[1..], b, sep);
      assert [a[0]] + a[1..] == a;
    }
  }

  // ---------------------------------------------------------------- int

  predicate IsDigit(c: char) {
    '0' <= c <= '9'
  }

  predicate AllDigits(s: string) {
    forall i :: 0 <= i < |s| ==> IsDigit(s[i])
  }

  /** The value of a string of decimal digits, most significant first. */
  function DigitsValue(s: string): nat
    requires AllDigits(s)
  {
    if s == [] then 0 else DigitsValue(s[..|s| - 1]) * 10 + (s[|s| - 1] as int - '0' as int)
  }

  /**
   * The ASCII characters `int` skips around a number: space and U+0009 to
   * U+000D. The information separators U+001C to U+001F are never skipped,
   * although `str.isspace()` holds for them.
   */
  const Whitespace: set<char> := {' ', '\t', '\n', '\r', '\U{B}', '\U{C}'}

  /** A decimal numeral: an optional sign followed by one or more digits. */
  predicate IsNumeral(t: string) {
    var digits := if t != [] && (t[0] == '+' || t[0] == '-') then t[1..] else t;
    digits != [] && AllDigits(digits)
  }

  /** `int` on text without surrounding whitespace. */
  function ParseNumeral(t: string): (r: Option<int>)
    ensures r.Some? <==> IsNumeral(t)
    ensures r.Some? && r.value < 0 ==> t[0] == '-'
  {
    if t != [] && (t[0] == '+' || t[0] == '-') then
      var digits := t[1..];
      if digits != [] && AllDigits(digits) then
        var magnitude: int := DigitsValue(digits);
        Some(if t[0] == '-' then -magnitude else magnitude)
      else None
    else if t != [] && AllDigits(t) then Some(DigitsValue(t))
    else None
  }

  /**
   * `int(s)` in base 10: optional surrounding whitespace, an optional sign,
   * then one or more digits; `None` where Python raises `ValueError`.
   */
  function ParseInt(s: string): (r: Option<int>)
    ensures r.Some? <==> IsNumeral(Strip(s, Whitespace))
    ensures r.Some? && r.value < 0 ==> Strip(s, Whitespace)[0] == '-'
  {
    ParseNumeral(Strip(s, Whitespace))
  }

  function DigitChar(d: nat): (c: char)
    requires d < 10
    ensures IsDigit(c) && c as int - '0' as int == d
  {
    ('0' as int + d) as char
  }

  /** The decimal digits of `n`, without leading zeros. */
  function NatToString(n: nat): (r: string)
    ensures r != [] && AllDigits(r) && DigitsValue(r) == n
    ensures r[0] == '0' <==> n == 0
  {
    if n < 10 then [DigitChar(n)]
    else
      var r := NatToString(n / 10) + [DigitChar(n % 10)];
      assert r[..|r| - 1] == NatToString(n / 10);
      r
  }

  /** `str(n)`: a minus sign for negative numbers, then the digits. */
  function IntToString(n: int): (r: string)
    ensures r != [] && IsDigit(r[|r| - 1])
    ensures forall i :: 0 <= i < |r| ==> IsDigit(r[i]) || r[i] == '-'
    ensures r[0] == '-' <==> n < 0
    ensures r[0] == '0' ==> r == "0"
    ensures r[0] == '-' ==> r[1] != '0'
  {
    if n < 0 then "-" + NatToString(-n) else NatToString(n)
  }

  lemma ParseNumeralRoundTrip(n: int)
    ensures ParseNumeral(IntToString(n)) == Some(n)
  {
    if n < 0 {
      assert IntToString(n)[1..] == NatToString(-n);
    }
  }

  /** `int(str(n)) == n`. */
  lemma ParseIntRoundTrip(n: int)
    ensures ParseInt(IntToString(n)) == Some(n)
  {
    var s := IntToString(n);
    assert s[0] !in Whitespace && s[|s| - 1] !in Whitespace;
    StripUntouched(s, Whitespace);
    ParseNumeralRoundTrip(n);
  }

  lemma ParseIntSameStrip(s: string, t: string)
    requires Strip(s, Whitespace) == Strip(t, Whitespace)
    ensures ParseInt(s) == ParseInt(t)
  {
  }

  /** `int` ignores whitespace around the number. */
  lemma ParseIntPadded(before: string, n: int, after: string)
    requires forall i :: 0 <= i < |before| ==> before[i] in Whitespace
    requires forall i :: 0 <= i < |after| ==> after[i] in Whitespace
    ensures ParseInt(before + IntToString(n) + after) == Some(n)
  {
    var s := IntToString(n);
    var tail := s + after;
    var whole := before + tail;
    assert before + s + after == whole;
    assert tail[0] !in Whitespace by {
      assert tail[0] == s[0];
    }
    assert StripLeft(whole, Whitespace) == tail by {
      StripLeftPadded(before, tail, Whitespace);
      StripLeftUntouched(tail, Whitespace);
    }
    assert Strip(whole, Whitespace) == Strip(s, Whitespace) by {
      StripRightPadded(s, after, Whitespace);
      StripLeftUntouched(s, Whitespace);
    }
    ParseIntSameStrip(whole, s);
    ParseIntRoundTrip(n);
  }

  /** An information separator is not whitespace to `int`: `int("\x1c5")` fails. */
  lemma SeparatorNotSkipped()
    ensures ParseInt(['\U{1C}', '5']) == None
  {
    ParseIntRejects(['\U{1C}', '5']);
  }

  /** A string whose first character cannot begin a number is rejected. */
  lemma ParseIntRejects(s: string)
    requires s != [] && s[0] !in Whitespace && s[0] != '+' && s[0] != '-' && !IsDigit(s[0])
    ensures ParseInt(s) == None
  {
    var l := StripLeft(s, Whitespace);
    assert l == s;
  }
}
