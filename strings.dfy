/**
 * The pieces of Python's `str` that the program relies on: `strip()`, `lower()`,
 * `in` and `find`, `split(".")` and `".".join(...)`, `startswith`, and the
 * conversions `int(text)` and `str(n)` for integers.
 */
module Strings {
  import opened Wrappers

  /** The characters for which Python's `str.isspace()` holds. */
  predicate IsSpace(c: char) {
    c == ' ' || '\t' <= c <= '\r' || '\U{1C}' <= c <= '\U{1F}' || c == '\U{85}' || c == '\U{A0}'
    || c == '\U{1680}' || '\U{2000}' <= c <= '\U{200A}' || c == '\U{2028}' || c == '\U{2029}'
    || c == '\U{202F}' || c == '\U{205F}' || c == '\U{3000}'
  }

  /**
   * The white space that `int(text)` skips around its digits: the ASCII
   * characters space, `\t`, `\n`, `\v`, `\f` and `\r`, and the non-ASCII
   * characters for which `str.isspace()` holds. The ASCII separators
   * U+001C-U+001F, white space for `str.isspace()`, are not skipped.
   */
  predicate IsIntSpace(c: char) {
    IsSpace(c) && !('\U{1C}' <= c <= '\U{1F}')
  }

  /** The longest suffix of `s` that does not start with a character in `space`; `s.lstrip()` for `IsSpace`. */
  function TrimStart(s: string, space: char -> bool): (r: string)
    ensures |r| <= |s| && r == s[|s| - |r|..]
    ensures forall i :: 0 <= i < |s| - |r| ==> space(s[i])
    ensures r == [] || !space(r[0])
  {
    if s != [] && space(s[0]) then TrimStart(s[1..], space) else s
  }

  /** The longest prefix of `s` that does not end with a character in `space`; `s.rstrip()` for `IsSpace`. */
  function TrimEnd(s: string, space: char -> bool): (r: string)
    ensures |r| <= |s| && r == s[..|r|]
    ensures forall i :: |r| <= i < |s| ==> space(s[i])
    ensures r == [] || !space(r[|r| - 1])
  {
    if s != [] && space(s[|s| - 1]) then TrimEnd(s[..|s| - 1], space) else s
  }

  /** `r` is `s` less `k` white-space characters in front and only white space behind. */
  predicate Framed(s: string, k: nat, r: string) {
    && k + |r| <= |s| && r == s[k..k + |r|]
    && (forall i :: 0 <= i < k ==> IsSpace(s[i]))
    && (forall i :: k + |r| <= i < |s| ==> IsSpace(s[i]))
  }

  /** `s.strip()`. */
  function Strip(s: string): (r: string)
    ensures |r| <= |s|
    ensures r == [] || (!IsSpace(r[0]) && !IsSpace(r[|r| - 1]))
    ensures exists k: nat :: Framed(s, k, r)
  {
    TrimFramed(s);
    TrimEnd(TrimStart(s, IsSpace), IsSpace)
  }

  lemma TrimFramed(s: string)
    ensures Framed(s, |s| - |TrimStart(s, IsSpace)|, TrimEnd(TrimStart(s, IsSpace), IsSpace))
  {
    var t := TrimStart(s, IsSpace);
    FramedWithin(s, |s| - |t|, t, TrimEnd(t, IsSpace));
  }

  /** Trimming a prefix of white space and then a suffix of white space frames what is left. */
  lemma FramedWithin(s: string, k: nat, t: string, r: string)
    requires k <= |s| && t == s[k..] && forall i :: 0 <= i < k ==> IsSpace(s[i])
    requires |r| <= |t| && r == t[..|r|] && forall i :: |r| <= i < |t| ==> IsSpace(t[i])
    ensures Framed(s, k, r)
  {
    forall i | k + |r| <= i < |s| ensures IsSpace(s[i]) {
      assert s[i] == t[i - k];
    }
  }

  /** Stripping leaves a string alone exactly when it neither starts nor ends with white space. */
  lemma StripFixed(s: string)
    ensures Strip(s) == s <==> (s == [] || (!IsSpace(s[0]) && !IsSpace(s[|s| - 1])))
  {
  }

  /** One leading white-space character before a stripped string is removed. */
  lemma StripLeadingSpace(c: char, s: string)
    requires IsSpace(c) && s != [] && !IsSpace(s[0]) && !IsSpace(s[|s| - 1])
    ensures Strip([c] + s) == s
  {
    assert ([c] + s)[1..] == s;
  }

  predicate IsUpper(c: char) {
    'A' <= c <= 'Z'
  }

  /** Lower-casing of one character; only the ASCII letters have a case here. */
  function LowerChar(c: char): (d: char)
    ensures !IsUpper(d)
    ensures d == c <==> !IsUpper(c)
    ensures IsUpper(c) ==> d as int - c as int == 'a' as int - 'A' as int
  {
    if IsUpper(c) then (c as int - 'A' as int + 'a' as int) as char else c
  }

  /** `s.lower()`. */
  function Lower(s: string): (r: string)
    ensures |r| == |s|
    ensures forall i :: 0 <= i < |s| ==> r[i] == LowerChar(s[i])
  {
    seq(|s|, i requires 0 <= i < |s| => LowerChar(s[i]))
  }

  predicate IsLowercase(s: string) {
    forall i :: 0 <= i < |s| ==> !IsUpper(s[i])
  }

  /** Lower-casing yields lower case, and changes exactly the strings that are not lower case already. */
  lemma LowerSpec(s: string)
    ensures IsLowercase(Lower(s))
    ensures Lower(s) == s <==> IsLowercase(s)
  {
    if Lower(s) == s {
      forall i | 0 <= i < |s| ensures !IsUpper(s[i]) {
        assert Lower(s)[i] == s[i];
      }
    }
  }

  predicate StartsWith(s: string, prefix: string) {
    |prefix| <= |s| && s[..|prefix|] == prefix
  }

  predicate IsSuffix(suffix: string, s: string) {
    |suffix| <= |s| && s[|s| - |suffix|..] == suffix
  }

  lemma SuffixTransitive(a: string, b: string, c: string)
    requires IsSuffix(a, b) && IsSuffix(b, c)
    ensures IsSuffix(a, c)
  {
    assert c[|c| - |a|..] == c[|c| - |b|..][|b| - |a|..];
  }

  predicate MatchAt(s: string, pat: string, i: nat) {
    i + |pat| <= |s| && s[i..i + |pat|] == pat
  }

  function FindFrom(s: string, pat: string, from: nat): (r: Option<nat>)
    requires from <= |s|
    ensures r.Some? ==> from <= r.value && MatchAt(s, pat, r.value)
    ensures r.Some? ==> forall k :: from <= k < r.value ==> !MatchAt(s, pat, k)
    ensures r.None? ==> forall k :: from <= k <= |s| ==> !MatchAt(s, pat, k)
    decreases |s| - from
  {
    if MatchAt(s, pat, from) then Some(from)
    else if from == |s| then None
    else FindFrom(s, pat, from + 1)
  }

  /** `s.find(pat)`, with None standing for -1: the first position where `pat` occurs. */
  function Find(s: string, pat: string): (r: Option<nat>)
    ensures r.Some? ==> MatchAt(s, pat, r.value) && forall k :: 0 <= k < r.value ==> !MatchAt(s, pat, k)
    ensures r.None? ==> forall k :: 0 <= k <= |s| ==> !MatchAt(s, pat, k)
  {
    FindFrom(s, pat, 0)
  }

  /** `pat in s` for strings. */
  predicate Contains(s: string, pat: string) {
    Find(s, pat).Some?
  }

  /** Every occurrence of `pat` in `s` starts with the first character of `pat`. */
  lemma NotContainsChar(s: string, pat: string)
    requires |pat| > 0 && forall i :: 0 <= i < |s| ==> s[i] != pat[0]
    ensures !Contains(s, pat)
  {
    forall k | 0 <= k <= |s| ensures !MatchAt(s, pat, k) {
      if k + |pat| <= |s| {
        assert s[k..k + |pat|][0] == s[k];
      }
    }
  }

  /** The longest prefix of `s` holding none of `stops` (`s` up to the first of them). */
  function TakeUntil(s: string, stops: set<char>): (r: string)
    ensures |r| <= |s| && r == s[..|r|]
    ensures forall c :: c in r ==> c !in stops
    ensures forall i :: 0 <= i < |r| ==> s[i] !in stops
    ensures |r| < |s| ==> s[|r|] in stops
  {
    if s == [] || s[0] in stops then [] else [s[0]] + TakeUntil(s[1..], stops)
  }

  /** TakeUntil stops at the first stop character, at `n`, or at the end when there is none. */
  lemma TakeUntilAt(s: string, stops: set<char>, n: nat)
    requires n <= |s| && forall i :: 0 <= i < n ==> s[i] !in stops
    requires n < |s| ==> s[n] in stops
    ensures TakeUntil(s, stops) == s[..n]
  {
  }

  lemma TakeUntilNoStops(s: string, stops: set<char>)
    requires forall i :: 0 <= i < |s| ==> s[i] !in stops
    ensures TakeUntil(s, stops) == s
  {
  }

  /** The part of `s` after the last `c`, the third part of `s.rpartition(c)`; all of `s` when there is none. */
  function AfterLast(s: string, c: char): (r: string)
    ensures IsSuffix(r, s) && c !in r
    ensures |r| < |s| ==> s[|s| - |r| - 1] == c
  {
    if s == [] then []
    else if s[|s| - 1] == c then []
    else AfterLast(s[..|s| - 1], c) + [s[|s| - 1]]
  }

  lemma AfterLastAbsent(s: string, c: char)
    requires forall i :: 0 <= i < |s| ==> s[i] != c
    ensures AfterLast(s, c) == s
  {
  }

  /** What follows a `c` with no `c` after it is the part after `c`. */
  lemma {:induction false} AfterLastSeparator(front: string, c: char, back: string)
    requires forall i :: 0 <= i < |back| ==> back[i] != c
    ensures AfterLast(front + [c] + back, c) == back
  {
    var s := front + [c] + back;
    if back == [] {
      assert s[|s| - 1] == c;
    } else {
      var init := back[..|back| - 1];
      assert s[..|s| - 1] == front + [c] + init;
      assert s[|s| - 1] == back[|back| - 1];
      AfterLastSeparator(front, c, init);
      assert init + [back[|back| - 1]] == back;
    }
  }

  /** `".".join(parts)`. */
  function Join(parts: seq<string>): (s: string)
  {
    if parts == [] then []
    else if |parts| == 1 then parts[0]
    else parts[0] + "." + Join(parts[1..])
  }

  predicate DotFree(parts: seq<string>) {
    forall i :: 0 <= i < |parts| ==> '.' !in parts[i]
  }

  /** `s.split(".")`: the dot-separated labels of `s`, at least one. */
  function Split(s: string): (parts: seq<string>)
    ensures |parts| >= 1 && DotFree(parts)
  {
    if s == [] then [[]]
    else
      var rest := Split(s[1..]);
      if s[0] == '.' then [[]] + rest
      else [[s[0]] + rest[0]] + rest[1..]
  }

  /** Joining the labels gives back the string that was split. */
  lemma {:induction false} JoinSplit(s: string)
    ensures Join(Split(s)) == s
  {
    if s != [] {
      var rest := Split(s[1..]);
      JoinSplit(s[1..]);
      if s[0] != '.' {
        var parts := [[s[0]] + rest[0]] + rest[1..];
        assert parts[1..] == rest[1..];
        if |rest| > 1 {
          assert Join(rest) == rest[0] + "." + Join(rest[1..]);
        }
        assert Join(parts) == [s[0]] + Join(rest);
      }
    }
  }

  lemma {:induction false} SplitDotFree(p: string)
    requires '.' !in p
    ensures Split(p) == [p]
  {
    if p != [] {
      assert p[0] in p;
      assert forall c :: c in p[1..] ==> c in p;
      SplitDotFree(p[1..]);
      assert [p[0]] + p[1..] == p;
    }
  }

  lemma {:induction false} SplitDot(a: string, t: string)
    requires '.' !in a
    ensures Split(a + "." + t) == [a] + Split(t)
  {
    if a == [] {
      assert (a + "." + t)[1..] == t;
    } else {
      assert a[0] in a;
      assert forall c :: c in a[1..] ==> c in a;
      assert (a + "." + t)[1..] == a[1..] + "." + t;
      SplitDot(a[1..], t);
      assert [a[0]] + a[1..] == a;
    }
  }

  /** Splitting a join of dot-free labels gives back the labels. */
  lemma {:induction false} SplitJoin(parts: seq<string>)
    requires |parts| >= 1 && DotFree(parts)
    ensures Split(Join(parts)) == parts
  {
    if |parts| == 1 {
      SplitDotFree(parts[0]);
    } else {
      SplitJoin(parts[1..]);
      SplitDot(parts[0], Join(parts[1..]));
      assert [parts[0]] + parts[1..] == parts;
    }
  }

  /** The join of the last labels is a suffix of the join of all of them. */
  lemma {:induction false} JoinSuffix(parts: seq<string>, k: nat)
    requires k < |parts|
    ensures IsSuffix(Join(parts[k..]), Join(parts))
  {
    if k > 0 {
      JoinSuffix(parts[1..], k - 1);
      assert parts[1..][k - 1..] == parts[k..];
      assert IsSuffix(Join(parts[1..]), Join(parts));
      SuffixTransitive(Join(parts[k..]), Join(parts[1..]), Join(parts));
    } else {
      assert parts[0..] == parts;
    }
  }

  predicate IsDigit(c: char) {
    '0' <= c <= '9'
  }

  function DigitValue(c: char): (d: nat)
    requires IsDigit(c)
    ensures d < 10
  {
    c as int - '0' as int
  }

  function DigitChar(d: nat): (c: char)
    requires d < 10
    ensures IsDigit(c) && DigitValue(c) == d
  {
    ('0' as int + d) as char
  }

  /**
   * The body of a decimal integer literal as Python's `int` reads it: digits,
   * with single underscores allowed between two digits.
   */
  predicate IsDigitGroups(s: string) {
    && |s| > 0 && IsDigit(s[0]) && IsDigit(s[|s| - 1])
    && (forall i :: 0 <= i < |s| ==> IsDigit(s[i]) || s[i] == '_')
    && (forall i :: 0 <= i < |s| - 1 ==> IsDigit(s[i]) || IsDigit(s[i + 1]))
  }

  /** The value of the digits of `s`, underscores skipped. */
  function DigitsValue(s: string): nat
  {
    if s == [] then 0
    else if IsDigit(s[|s| - 1]) then 10 * DigitsValue(s[..|s| - 1]) + DigitValue(s[|s| - 1])
    else DigitsValue(s[..|s| - 1])
  }

  /** `int(text)` for a `str` written in ASCII digits: None where Python raises `ValueError`. */
  function ParseInt(text: string): (r: Option<int>)
  {
    ParseSigned(TrimEnd(TrimStart(text, IsIntSpace), IsIntSpace))
  }

  /** `int` skips white space before a digit. */
  lemma ParseIntAfterSpace(c: char, d: char)
    requires IsIntSpace(c) && IsDigit(d)
    ensures ParseInt([c, d]) == Some(DigitValue(d))
  {
    TrimOneSpace(c, d);
    OneDigit(d);
  }

  /** A character that is neither white space, a digit nor a sign, before a digit, makes `int` raise. */
  lemma ParseIntAfterOther(c: char, d: char)
    requires !IsIntSpace(c) && !IsDigit(c) && c != '-' && c != '+' && IsDigit(d)
    ensures ParseInt([c, d]) == None
  {
    TrimNoSpace(c, d);
    ParseUntrimmed([c, d]);
    NotSigned([c, d]);
  }

  lemma ParseUntrimmed(s: string)
    requires TrimEnd(TrimStart(s, IsIntSpace), IsIntSpace) == s
    ensures ParseInt(s) == ParseSigned(s)
  {
  }

  /** Text that starts with neither a digit nor a sign is not an integer. */
  lemma NotSigned(s: string)
    requires s != [] && !IsDigit(s[0]) && s[0] != '-' && s[0] != '+'
    ensures ParseSigned(s) == None
  {
  }

  lemma TrimOneSpace(c: char, d: char)
    requires IsIntSpace(c) && IsDigit(d)
    ensures TrimEnd(TrimStart([c, d], IsIntSpace), IsIntSpace) == [d]
  {
    assert [c, d][1..] == [d];
    assert !IsIntSpace(d);
    assert TrimStart([d], IsIntSpace) == [d];
  }

  lemma TrimNoSpace(c: char, d: char)
    requires !IsIntSpace(c) && IsDigit(d)
    ensures TrimEnd(TrimStart([c, d], IsIntSpace), IsIntSpace) == [c, d]
  {
    var s := [c, d];
    assert s[0] == c;
    assert TrimStart(s, IsIntSpace) == s;
    assert s[|s| - 1] == d && !IsIntSpace(d);
  }

  lemma OneDigit(d: char)
    requires IsDigit(d)
    ensures ParseSigned([d]) == Some(DigitValue(d))
  {
    assert [d][..0] == [];
    assert DigitsValue([d]) == DigitValue(d);
  }

  /** `int` skips a space or a no-break space before the digits, but not the separator U+001C. */
  lemma ParseIntSpaces()
    ensures ParseInt(" 5") == Some(5)
    ensures ParseInt("\U{A0}5") == Some(5)
    ensures ParseInt("\U{1C}5") == None
  {
    ParseIntAfterSpace(' ', '5');
    ParseIntAfterSpace('\U{A0}', '5');
    ParseIntAfterOther('\U{1C}', '5');
  }

  /**
   * The most digits `int(text)` and `str(n)` accept for a decimal integer,
   * CPython's default `sys.int_info.default_max_str_digits`.
   */
  const MaxStrDigits: nat := 4300

  /** The number of digits in `s`, underscores and other characters not counted. */
  function DigitCount(s: string): (k: nat)
    ensures k <= |s|
  {
    if s == [] then 0 else DigitCount(s[..|s| - 1]) + (if IsDigit(s[|s| - 1]) then 1 else 0)
  }

  lemma {:induction false} DigitCountAll(s: string)
    requires forall i :: 0 <= i < |s| ==> IsDigit(s[i])
    ensures DigitCount(s) == |s|
  {
    if s != [] {
      DigitCountAll(s[..|s| - 1]);
    }
  }

  /** Digit groups that `int` accepts: at most `MaxStrDigits` digits. */
  predicate IsNumeral(s: string) {
    IsDigitGroups(s) && DigitCount(s) <= MaxStrDigits
  }

  /** An optional sign followed by digit groups, nothing else, within the digit limit. */
  function ParseSigned(s: string): (r: Option<int>)
    ensures r.Some? ==> s != [] && IsDigit(s[|s| - 1])
  {
    if |s| > 0 && (s[0] == '-' || s[0] == '+') then
      if IsNumeral(s[1..]) then
        var v: int := DigitsValue(s[1..]);
        Some(if s[0] == '-' then -v else v)
      else None
    else if IsNumeral(s) then Some(DigitsValue(s))
    else None
  }

  /** A run of more than `MaxStrDigits` digits makes `int` raise. */
  lemma ParseIntDigitLimit(s: string)
    requires |s| > MaxStrDigits && forall i :: 0 <= i < |s| ==> IsDigit(s[i])
    ensures ParseInt(s) == None
  {
    assert IsDigit(s[0]) && IsDigit(s[|s| - 1]);
    TrimNone(s, IsIntSpace);
    ParseUntrimmed(s);
    DigitCountAll(s);
    assert !IsNumeral(s);
  }

  /** Text that neither starts nor ends with white space is left as it is by the trim. */
  lemma TrimNone(s: string, space: char -> bool)
    requires s != [] && !space(s[0]) && !space(s[|s| - 1])
    ensures TrimEnd(TrimStart(s, space), space) == s
  {
  }

  /** The absolute value of `n`. */
  function AbsNat(n: int): nat {
    if n < 0 then -n else n
  }

  /** The decimal digits of `n`, without leading zeros. */
  function NatText(n: nat): (s: string)
    ensures |s| > 0 && forall i :: 0 <= i < |s| ==> IsDigit(s[i])
  {
    if n < 10 then [DigitChar(n)] else NatText(n / 10) + [DigitChar(n % 10)]
  }

  /** `str(n)` for an `int`. */
  function IntText(n: int): string {
    if n < 0 then "-" + NatText(-n) else NatText(n)
  }

  lemma {:induction false} NatTextValue(n: nat)
    ensures DigitsValue(NatText(n)) == n
  {
    var s := NatText(n);
    if n >= 10 {
      NatTextValue(n / 10);
      assert s[..|s| - 1] == NatText(n / 10);
    }
  }

  /**
   * `int(str(n)) == n`: the decimal text of an integer reads back as that
   * integer, within the digit limit (beyond it `str(n)` raises).
   */
  lemma IntTextRoundTrip(n: int)
    requires |NatText(AbsNat(n))| <= MaxStrDigits
    ensures ParseInt(IntText(n)) == Some(n)
  {
    var s := IntText(n);
    var m: nat := AbsNat(n);
    var digits := NatText(m);
    NatTextValue(m);
    DigitCountAll(digits);
    assert IsDigitGroups(digits);
    if n < 0 {
      assert s[1..] == digits;
      assert ParseSigned(s) == Some(n);
    } else {
      assert ParseSigned(s) == Some(n);
    }
    assert IsDigit(s[|s| - 1]) && !IsIntSpace(s[|s| - 1]);
    assert !IsIntSpace(s[0]);
  }
}
