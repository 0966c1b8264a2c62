/** The Python string operations the modelled code relies on: `str.split`
    with an explicit one-character separator, `str.join`, `str.strip()`,
    and the substring test `a in b`. */
module Text {

  /** Position of the first `c` in `s`, or `|s|` when `s` has none. */
  function IndexOf(s: string, c: char): (i: nat)
    ensures i <= |s|
    ensures i < |s| ==> s[i] == c
    ensures forall j :: 0 <= j < i ==> s[j] != c
  {
    if |s| == 0 then 0
    else if s[0] == c then 0
    else 1 + IndexOf(s[1..], c)
  }

  /** `s.split(sep)`: the pieces between occurrences of `sep`, empty pieces
      included; never an empty list. */
  function Split(s: string, sep: char): (parts: seq<string>)
    ensures |parts| >= 1
    ensures forall k :: 0 <= k < |parts| ==> sep !in parts[k]
    decreases |s|
  {
    var i := IndexOf(s, sep);
    if i == |s| then [s]
    else [s[..i]] + Split(s[i + 1..], sep)
  }

  /** `sep.join(parts)`. */
  function Join(parts: seq<string>, sep: string): string {
    if |parts| == 0 then ""
    else if |parts| == 1 then parts[0]
    else parts[0] + sep + Join(parts[1..], sep)
  }

  /** Splitting and joining back with the same separator gives the string back. */
  lemma {:induction false} JoinSplit(s: string, sep: char)
    ensures Join(Split(s, sep), [sep]) == s
    decreases |s|
  {
    var i := IndexOf(s, sep);
    if i < |s| {
      var rest := s[i + 1..];
      var parts := Split(rest, sep);
      assert Split(s, sep) == [s[..i]] + parts;
      JoinSplit(rest, sep);
      JoinCons(s[..i], parts, [sep]);
      assert Join(Split(s, sep), [sep]) == s[..i] + [sep] + rest;
      assert s == s[..i] + [sep] + rest;
    } else {
      assert Split(s, sep) == [s];
    }
  }

  /** Joining separator-free pieces and splitting again gives the pieces back. */
  lemma {:induction false} SplitJoin(parts: seq<string>, sep: char)
    requires |parts| >= 1
    requires forall k :: 0 <= k < |parts| ==> sep !in parts[k]
    ensures Split(Join(parts, [sep]), sep) == parts
    decreases |parts|
  {
    if |parts| > 1 {
      var s := Join(parts, [sep]);
      var rest := Join(parts[1..], [sep]);
      assert s == parts[0] + [sep] + rest;
      assert s[|parts[0]|] == sep;
      assert forall j :: 0 <= j < |parts[0]| ==> s[j] == parts[0][j] && parts[0][j] != sep;
      assert IndexOf(s, sep) == |parts[0]|;
      assert s[..|parts[0]|] == parts[0];
      assert s[|parts[0]| + 1..] == rest;
      SplitJoin(parts[1..], sep);
    }
  }

  /** A separator-free piece in front of `sep` comes out of a split as its
      first part. */
  lemma SplitAfterOne(k: string, tail: string, sep: char)
    requires sep !in k
    ensures Split(k + [sep] + tail, sep) == [k] + Split(tail, sep)
  {
    var s := k + [sep] + tail;
    assert forall j :: 0 <= j < |k| ==> s[j] == k[j];
    assert s[|k|] == sep;
    assert IndexOf(s, sep) == |k|;
    assert s[..|k|] == k && s[|k| + 1..] == tail;
  }

  /** When a split gives at least two parts, the text starts with the first
      two parts joined by the separator, and either ends there or goes on
      with another separator. */
  lemma SplitFirstTwo(t: string, sep: char)
    requires |Split(t, sep)| >= 2
    ensures var f := Split(t, sep);
      var p := f[0] + [sep] + f[1];
      t == p || (|p| < |t| && t[..|p| + 1] == p + [sep])
  {
    var f := Split(t, sep);
    var p := f[0] + [sep] + f[1];
    JoinSplit(t, sep);
    assert f == [f[0]] + f[1..];
    JoinCons(f[0], f[1..], [sep]);
    if |f| == 2 {
      assert f[1..] == [f[1]];
    } else {
      assert f[1..] == [f[1]] + f[2..];
      JoinCons(f[1], f[2..], [sep]);
      assert t == p + [sep] + Join(f[2..], [sep]);
      assert t[..|p| + 1] == p + [sep];
    }
  }

  /** Two separator-free pieces in front of `rest` come out of a split as
      its first two parts. */
  lemma SplitAfterTwo(k: string, v: string, rest: string, sep: char)
    requires sep !in k && sep !in v
    ensures Split(k + [sep] + v + [sep] + rest, sep) == [k, v] + Split(rest, sep)
  {
    SplitAfterOne(v, rest, sep);
    assert k + [sep] + v + [sep] + rest == k + [sep] + (v + [sep] + rest);
    SplitAfterOne(k, v + [sep] + rest, sep);
  }

  /** `"".join(s.split(sep))`: `s` with every `sep` removed. */
  function Squeeze(s: string, sep: char): string {
    Join(Split(s, sep), "")
  }

  /** `s` with every `sep` removed, character by character. */
  function Without(s: string, sep: char): (r: string)
    ensures sep !in r
  {
    if |s| == 0 then ""
    else (if s[0] == sep then "" else [s[0]]) + Without(s[1..], sep)
  }

  /** Joining a non-empty tail after one more piece puts the separator between them. */
  lemma JoinCons(x: string, ps: seq<string>, sep: string)
    requires |ps| >= 1
    ensures Join([x] + ps, sep) == x + sep + Join(ps, sep)
  {
    assert ([x] + ps)[1..] == ps;
  }

  /** Dropping the pieces' separators is the same as deleting every `sep`. */
  lemma {:induction false} SqueezeRemovesSeparator(s: string, sep: char)
    ensures Squeeze(s, sep) == Without(s, sep)
    decreases |s|
  {
    var i := IndexOf(s, sep);
    if i == |s| {
      assert Split(s, sep) == [s];
      WithoutFree(s, sep);
    } else {
      var rest := s[i + 1..];
      var parts := Split(rest, sep);
      assert Split(s, sep) == [s[..i]] + parts;
      SqueezeRemovesSeparator(rest, sep);
      JoinCons(s[..i], parts, "");
      assert Squeeze(s, sep) == s[..i] + Without(rest, sep);
      WithoutAtFirst(s, sep, i);
    }
  }

  /** Deleting `sep` from `s` whose first `sep` is at `i`. */
  lemma {:induction false} WithoutAtFirst(s: string, sep: char, i: nat)
    requires i < |s| && s[i] == sep
    requires forall j :: 0 <= j < i ==> s[j] != sep
    ensures Without(s, sep) == s[..i] + Without(s[i + 1..], sep)
    decreases i
  {
    if i > 0 {
      var tail := s[1..];
      WithoutAtFirst(tail, sep, i - 1);
      assert tail[i..] == s[i + 1..];
      assert [s[0]] + tail[..i - 1] == s[..i];
    }
  }

  /** Deleting a character that does not occur changes nothing. */
  lemma {:induction false} WithoutFree(s: string, sep: char)
    requires forall j :: 0 <= j < |s| ==> s[j] != sep
    ensures Without(s, sep) == s
    decreases |s|
  {
    if |s| > 0 {
      WithoutFree(s[1..], sep);
    }
  }

  /** `needle in hay` for strings. */
  predicate IsSubstring(needle: string, hay: string) {
    exists i :: 0 <= i <= |hay| - |needle| && OccursAt(needle, hay, i)
  }

  /** `needle` is the slice of `hay` starting at `i`. */
  predicate OccursAt(needle: string, hay: string, i: int)
    requires 0 <= i <= |hay| - |needle|
  {
    hay[i..i + |needle|] == needle
  }

  /** Every string occurs in itself. */
  lemma SubstringOfSelf(s: string)
    ensures IsSubstring(s, s)
  {
    assert OccursAt(s, s, 0);
  }

  /** The characters `str.strip()` removes (Python's `str.isspace`). */
  predicate IsSpace(c: char) {
    || '\U{0009}' <= c <= '\U{000D}'
    || '\U{001C}' <= c <= '\U{0020}'
    || c == '\U{0085}' || c == '\U{00A0}' || c == '\U{1680}'
    || '\U{2000}' <= c <= '\U{200A}'
    || c == '\U{2028}' || c == '\U{2029}' || c == '\U{202F}' || c == '\U{205F}' || c == '\U{3000}'
  }

  /** `s.lstrip()`. */
  function TrimStart(s: string): (r: string)
    ensures |r| <= |s|
  {
    if |s| > 0 && IsSpace(s[0]) then TrimStart(s[1..]) else s
  }

  /** `s.rstrip()`. */
  function TrimEnd(s: string): string {
    if |s| > 0 && IsSpace(s[|s| - 1]) then TrimEnd(s[..|s| - 1]) else s
  }

  /** `s.strip()`. */
  function Strip(s: string): string {
    TrimEnd(TrimStart(s))
  }

  /** `lstrip` removes exactly the leading whitespace run: a suffix of `s`
      remains, everything before it is whitespace, and it does not start
      with whitespace. */
  lemma {:induction false} TrimStartSpec(s: string)
    ensures var r := TrimStart(s);
      && |r| <= |s| && r == s[|s| - |r|..]
      && (forall k :: 0 <= k < |s| - |r| ==> IsSpace(s[k]))
      && (|r| > 0 ==> !IsSpace(r[0]))
  {
    if |s| > 0 && IsSpace(s[0]) {
      TrimStartSpec(s[1..]);
    }
  }

  /** `rstrip` removes exactly the trailing whitespace run. */
  lemma {:induction false} TrimEndSpec(s: string)
    ensures var r := TrimEnd(s);
      && |r| <= |s| && r == s[..|r|]
      && (forall k :: |r| <= k < |s| ==> IsSpace(s[k]))
      && (|r| > 0 ==> !IsSpace(r[|r| - 1]))
  {
    if |s| > 0 && IsSpace(s[|s| - 1]) {
      TrimEndSpec(s[..|s| - 1]);
    }
  }

  /** `r` is `s` with a whitespace run of length `a` removed at the start and
      the whitespace run after `r` removed at the end, and neither end of `r`
      is whitespace. */
  predicate Stripped(s: string, a: nat, r: string) {
    && a + |r| <= |s|
    && r == s[a..a + |r|]
    && (forall k :: 0 <= k < a ==> IsSpace(s[k]))
    && (forall k :: a + |r| <= k < |s| ==> IsSpace(s[k]))
    && (|r| > 0 ==> !IsSpace(r[0]) && !IsSpace(r[|r| - 1]))
  }

  /** `s.strip()` is the slice of `s` left after removing the whitespace at
      both ends. */
  lemma StripSpec(s: string)
    ensures Stripped(s, |s| - |TrimStart(s)|, Strip(s))
  {
    var t := TrimStart(s);
    TrimStartSpec(s);
    TrimEndSpec(t);
    StripParts(s, t, TrimEnd(t));
  }

  /** Trimming the start and then the end of `s` leaves a stripped slice. */
  lemma StripParts(s: string, t: string, r: string)
    requires |t| <= |s| && t == s[|s| - |t|..]
    requires forall k :: 0 <= k < |s| - |t| ==> IsSpace(s[k])
    requires |t| > 0 ==> !IsSpace(t[0])
    requires |r| <= |t| && r == t[..|r|]
    requires forall k :: |r| <= k < |t| ==> IsSpace(t[k])
    requires |r| > 0 ==> !IsSpace(r[|r| - 1])
    ensures Stripped(s, |s| - |t|, r)
  {
    var a := |s| - |t|;
    assert r == s[a..a + |r|];
    forall k | a + |r| <= k < |s|
      ensures IsSpace(s[k])
    {
      assert s[k] == t[k - a];
    }
  }
}

/** Decimal integers as Python's `int()` reads them, restricted to an optional
    sign followed by ASCII digits. */
module Numerals {

  predicate IsDigit(c: char) {
    '0' <= c <= '9'
  }

  predicate IsDigits(s: string) {
    |s| > 0 && forall k :: 0 <= k < |s| ==> IsDigit(s[k])
  }

  /** The strings `int()` is applied to in the model: `[+-]?[0-9]+`. */
  predicate IsInteger(s: string) {
    || IsDigits(s)
    || (|s| > 1 && (s[0] == '-' || s[0] == '+') && IsDigits(s[1..]))
  }

  /** The value of a string of decimal digits. */
  function DigitsValue(s: string): (v: nat)
    requires forall k :: 0 <= k < |s| ==> IsDigit(s[k])
  {
    if |s| == 0 then 0
    else
      assert IsDigit(s[|s| - 1]);
      10 * DigitsValue(s[..|s| - 1]) + (s[|s| - 1] as int - '0' as int)
  }

  /** `int(s)`. */
  function ParseInt(s: string): int
    requires IsInteger(s)
  {
    if s[0] == '-' then -(DigitsValue(s[1..]) as int)
    else if s[0] == '+' then DigitsValue(s[1..])
    else DigitsValue(s)
  }

  /** `str(n)` for a natural number: the decimal digits without leading zeros. */
  function ShowNat(n: nat): (s: string)
    ensures IsDigits(s)
  {
    if n < 10 then ['0' + n as char]
    else ShowNat(n / 10) + ['0' + (n % 10) as char]
  }

  /** `str(n)` for any integer. */
  function ShowInt(n: int): (s: string)
    ensures IsInteger(s)
  {
    if n < 0 then "-" + ShowNat(-n) else ShowNat(n)
  }

  lemma {:induction false} DigitsOfShowNat(n: nat)
    ensures DigitsValue(ShowNat(n)) == n
  {
    if n >= 10 {
      var s := ShowNat(n);
      DigitsOfShowNat(n / 10);
      assert s[..|s| - 1] == ShowNat(n / 10);
    }
  }

  /** `int(str(n)) == n`: the parser reads back every rendered integer. */
  lemma ParseShowInt(n: int)
    ensures ParseInt(ShowInt(n)) == n
  {
    if n < 0 {
      DigitsOfShowNat(-n);
      assert ShowInt(n)[1..] == ShowNat(-n);
    } else {
      DigitsOfShowNat(n);
    }
  }
}
