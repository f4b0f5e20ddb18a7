/** The Python string primitives the scripts rely on, as total functions on
    `seq<char>`: whitespace as `str.isspace` and `\s` define it, `strip`,
    `lower`/`upper`, substring search, `split`/`join`, `replace`, `int()` on
    digit strings and `str()` on naturals.

    Case mapping covers ASCII, the Latin-1 letters and the Kelvin sign (the
    one character outside them that lower-cases to an ASCII letter);
    Python's full Unicode case tables (and the length-changing maps such as
    ß -> SS) are not modelled. `\d` is read as the ASCII digits. */
module Strings {
  import opened Common

  /** Python's `str.isspace()`, which is also what `\s`, `strip()` and
      `split()` use on `str` values. */
  predicate IsSpace(c: char)
  {
    c == ' ' || ('\t' <= c <= '\r') || ('\U{1C}' <= c <= '\U{1F}')
    || c == '\U{85}' || c == '\U{A0}' || c == '\U{1680}'
    || ('\U{2000}' <= c <= '\U{200A}') || c == '\U{2028}' || c == '\U{2029}'
    || c == '\U{202F}' || c == '\U{205F}' || c == '\U{3000}'
  }

  predicate IsDigit(c: char) { '0' <= c <= '9' }

  predicate AllDigits(s: string) { forall i :: 0 <= i < |s| ==> IsDigit(s[i]) }

  /** Python's `s.isdigit()` on ASCII text: non-empty and all digits. */
  predicate IsDigitString(s: string) { s != [] && AllDigits(s) }

  predicate HasDigit(s: string) { exists i :: 0 <= i < |s| && IsDigit(s[i]) }

  predicate IsBlank(s: string) { forall i :: 0 <= i < |s| ==> IsSpace(s[i]) }

  predicate IsAsciiUpper(c: char) { 'A' <= c <= 'Z' }

  predicate IsAsciiLower(c: char) { 'a' <= c <= 'z' }

  /** Python's `str.isalpha()` restricted to ASCII and Latin-1. */
  predicate IsAlpha(c: char)
  {
    IsAsciiUpper(c) || IsAsciiLower(c) || c == '\U{AA}' || c == '\U{B5}' || c == '\U{BA}'
    || ('\U{C0}' <= c <= '\U{FF}' && c != '\U{D7}' && c != '\U{F7}')
  }

  /** Python's `str.islower()` on one character, restricted to ASCII and Latin-1. */
  predicate IsLower(c: char)
  {
    IsAsciiLower(c) || c == '\U{AA}' || c == '\U{B5}' || c == '\U{BA}'
    || ('\U{DF}' <= c <= '\U{FF}' && c != '\U{F7}')
  }

  function LowerChar(c: char): char
  {
    if IsAsciiUpper(c) || ('\U{C0}' <= c <= '\U{DE}' && c != '\U{D7}') then (c as int + 32) as char
    else if c == '\U{212A}' then 'k'
    else c
  }

  function UpperChar(c: char): char
  {
    if IsAsciiLower(c) || ('\U{E0}' <= c <= '\U{FE}' && c != '\U{F7}') then (c as int - 32) as char
    else if c == '\U{FF}' then '\U{178}'
    else if c == '\U{B5}' then '\U{39C}'
    else c
  }

  /** `s.lower()` */
  function Lower(s: string): (r: string)
    ensures |r| == |s|
    ensures forall i :: 0 <= i < |s| ==> r[i] == LowerChar(s[i])
  {
    seq(|s|, i requires 0 <= i < |s| => LowerChar(s[i]))
  }

  /** `s.upper()` */
  function Upper(s: string): (r: string)
    ensures |r| == |s|
    ensures forall i :: 0 <= i < |s| ==> r[i] == UpperChar(s[i])
  {
    seq(|s|, i requires 0 <= i < |s| => UpperChar(s[i]))
  }

  lemma LowerIdempotent(s: string)
    ensures Lower(Lower(s)) == Lower(s)
  {
  }

  // ---------------------------------------------------------------------
  // Stripping
  // ---------------------------------------------------------------------

  /** Index of the first character `s.lstrip(chars)` keeps, for the
      character set `cs`, searching from `i`. */
  function LeadEnd(s: string, cs: set<char>, i: nat): (k: nat)
    requires i <= |s|
    ensures i <= k <= |s|
    ensures forall j :: i <= j < k ==> s[j] in cs
    ensures k < |s| ==> s[k] !in cs
    decreases |s| - i
  {
    if i < |s| && s[i] in cs then LeadEnd(s, cs, i + 1) else i
  }

  /** Index just past the last character `s.rstrip(chars)` keeps, looking
      at `s[..e]`. */
  function TrailBegin(s: string, cs: set<char>, e: nat): (k: nat)
    requires e <= |s|
    ensures k <= e
    ensures forall j :: k <= j < e ==> s[j] in cs
    ensures k > 0 ==> s[k - 1] !in cs
  {
    if e > 0 && s[e - 1] in cs then TrailBegin(s, cs, e - 1) else e
  }

  /** `s.lstrip(chars)` */
  function LStripSet(s: string, cs: set<char>): string
  {
    s[LeadEnd(s, cs, 0)..]
  }

  /** `s.rstrip(chars)` */
  function RStripSet(s: string, cs: set<char>): string
  {
    s[..TrailBegin(s, cs, |s|)]
  }

  /** Index of the first character `s.lstrip()` keeps. */
  function StripStart(s: string): (k: nat)
    ensures k <= |s|
    ensures forall j :: 0 <= j < k ==> IsSpace(s[j])
    ensures k < |s| ==> !IsSpace(s[k])
  {
    SpaceRunFrom(s, 0)
  }

  function SpaceRunFrom(s: string, i: nat): (k: nat)
    requires i <= |s|
    ensures i <= k <= |s|
    ensures forall j :: i <= j < k ==> IsSpace(s[j])
    ensures k < |s| ==> !IsSpace(s[k])
    decreases |s| - i
  {
    if i < |s| && IsSpace(s[i]) then SpaceRunFrom(s, i + 1) else i
  }

  /** Index just past the last character `s.rstrip()` keeps. */
  function TrailStart(s: string, e: nat): (k: nat)
    requires e <= |s|
    ensures k <= e
    ensures forall j :: k <= j < e ==> IsSpace(s[j])
    ensures k > 0 ==> !IsSpace(s[k - 1])
  {
    if e > 0 && IsSpace(s[e - 1]) then TrailStart(s, e - 1) else e
  }

  /** Index just past the last character `s.strip()` keeps. */
  function StripEnd(s: string): (e: nat)
    ensures StripStart(s) <= e <= |s|
    ensures forall j :: e <= j < |s| ==> IsSpace(s[j])
    ensures e > StripStart(s) ==> !IsSpace(s[e - 1])
  {
    var k := StripStart(s);
    if k == |s| then |s|
    else
      TrailStart(s, |s|)
  }

  /** `s.lstrip()` */
  function LStrip(s: string): string
  {
    s[StripStart(s)..]
  }

  /** `s.rstrip()` */
  function RStrip(s: string): string
  {
    s[..TrailStart(s, |s|)]
  }

  /** `s.strip()`: the slice of `s` left after removing surrounding whitespace. */
  function Strip(s: string): (r: string)
    ensures |r| <= |s|
    ensures r == [] || (!IsSpace(r[0]) && !IsSpace(r[|r| - 1]))
  {
    s[StripStart(s)..StripEnd(s)]
  }

  lemma StripOfStripped(s: string)
    requires s == [] || (!IsSpace(s[0]) && !IsSpace(s[|s| - 1]))
    ensures Strip(s) == s
  {
    if s != [] {
      assert StripStart(s) == 0;
      assert StripEnd(s) == |s|;
    }
  }

  /** Stripping ignores one leading space before a stripped string. */
  lemma StripAfterSpace(s: string)
    requires s != [] && !IsSpace(s[0]) && !IsSpace(s[|s| - 1])
    ensures Strip([' '] + s) == s
  {
    var t := [' '] + s;
    assert StripStart(t) == 1 by {
      assert SpaceRunFrom(t, 1) == 1;
    }
    assert StripEnd(t) == |t| by {
      assert !IsSpace(t[|t| - 1]);
    }
    assert t[1..|t|] == s;
  }

  // ---------------------------------------------------------------------
  // Prefixes, suffixes, substrings
  // ---------------------------------------------------------------------

  /** `s.startswith(p)` */
  predicate StartsWith(s: string, p: string) { |p| <= |s| && s[..|p|] == p }

  /** `s.endswith(p)` */
  predicate EndsWith(s: string, p: string) { |p| <= |s| && s[|s| - |p|..] == p }

  /** `s` without one final newline: a regex `$` matches just before it,
      and `float` and `Decimal` ignore it. */
  function DropFinalNewline(s: string): string
  {
    if s != [] && s[|s| - 1] == '\n' then s[..|s| - 1] else s
  }

  predicate OccursAt(s: string, pat: string, i: nat)
  {
    i + |pat| <= |s| && s[i..i + |pat|] == pat
  }

  /** `pat in s` */
  predicate Contains(s: string, pat: string)
  {
    exists i: nat | i <= |s| :: OccursAt(s, pat, i)
  }

  predicate ContainsChar(s: string, c: char) { c in s }

  /** The first index at or after `from` where `pat` occurs (`s.find(pat, from)`). */
  function FindFrom(s: string, pat: string, from: nat): (r: Option<nat>)
    ensures r.Some? ==> from <= r.value && OccursAt(s, pat, r.value)
    ensures r.Some? ==> forall j :: from <= j < r.value ==> !OccursAt(s, pat, j)
    ensures r.None? ==> forall j :: from <= j ==> !OccursAt(s, pat, j)
    decreases |s| + 1 - from
  {
    if from + |pat| > |s| then None
    else if OccursAt(s, pat, from) then Some(from)
    else FindFrom(s, pat, from + 1)
  }

  /** `s.rfind(c)`, `None` standing for -1. */
  function LastIndex(s: string, c: char): (r: Option<nat>)
    ensures r.Some? ==> r.value < |s| && s[r.value] == c && forall j :: r.value < j < |s| ==> s[j] != c
    ensures r.None? ==> forall j :: 0 <= j < |s| ==> s[j] != c
  {
    if s == [] then None
    else if s[|s| - 1] == c then Some(|s| - 1)
    else LastIndex(s[..|s| - 1], c)
  }

  /** `s.index(c)`: the position of the first occurrence of `c`. */
  function IndexOfChar(s: string, c: char): (i: nat)
    requires c in s
    ensures i < |s| && s[i] == c && c !in s[..i]
  {
    if s[0] == c then 0
    else
      assert c in s[1..] by { var k :| 0 <= k < |s| && s[k] == c; assert s[1..][k - 1] == c; }
      var j := IndexOfChar(s[1..], c);
      assert s[..j + 1] == [s[0]] + s[1..][..j];
      j + 1
  }

  /** A substring of a substring is a substring. */
  lemma ContainsSlice(s: string, i: nat, j: nat, pat: string)
    requires i <= j <= |s| && Contains(s[i..j], pat)
    ensures Contains(s, pat)
  {
    var k: nat :| k <= |s[i..j]| && OccursAt(s[i..j], pat, k);
    var t := s[i..j];
    assert k + |pat| <= |t|;
    forall x | 0 <= x < |pat| ensures s[i + k + x] == pat[x] {
      assert pat[x] == t[k..k + |pat|][x] == t[k + x];
    }
    assert s[i + k..i + k + |pat|] == pat;
    assert OccursAt(s, pat, i + k);
  }

  // ---------------------------------------------------------------------
  // split / join / replace
  // ---------------------------------------------------------------------

  /** `sep.join(parts)` */
  function Join(parts: seq<string>, sep: string): string
  {
    if parts == [] then ""
    else if |parts| == 1 then parts[0]
    else parts[0] + sep + Join(parts[1..], sep)
  }

  /** `s.split(c)` for a one-character separator: always at least one part,
      and no part contains the separator. */
  function Split(s: string, c: char): (r: seq<string>)
    ensures |r| >= 1
    ensures forall k :: 0 <= k < |r| ==> c !in r[k]
  {
    if s == [] then [""]
    else if s[0] == c then [""] + Split(s[1..], c)
    else
      var rest := Split(s[1..], c);
      [[s[0]] + rest[0]] + rest[1..]
  }

  /** Splitting and re-joining with the same separator gives back the text. */
  lemma {:induction false} SplitJoin(s: string, c: char)
    ensures Join(Split(s, c), [c]) == s
  {
    if s == [] {
    } else if s[0] == c {
      SplitJoin(s[1..], c);
      var rest := Split(s[1..], c);
      assert ([""] + rest)[1..] == rest;
      assert s == [c] + s[1..];
    } else {
      SplitJoin(s[1..], c);
      var rest := Split(s[1..], c);
      assert s == [s[0]] + s[1..];
    }
  }

  /** A text without the separator splits into itself. */
  lemma {:induction false} SplitNoSeparator(s: string, c: char)
    requires c !in s
    ensures Split(s, c) == [s]
  {
    if s != [] {
      assert c !in s[1..] by { assert forall k :: 0 <= k < |s[1..]| ==> s[1..][k] == s[k + 1]; }
      SplitNoSeparator(s[1..], c);
      assert [s[0]] + s[1..] == s;
    }
  }

  /** The text before the first separator is the first part. */
  lemma {:induction false} SplitAtSeparator(a: string, c: char, rest: string)
    requires c !in a
    ensures Split(a + [c] + rest, c) == [a] + Split(rest, c)
  {
    var s := a + [c] + rest;
    if a == [] {
      assert s == [c] + rest;
      assert s[1..] == rest;
    } else {
      assert c !in a[1..] by { assert forall k :: 0 <= k < |a[1..]| ==> a[1..][k] == a[k + 1]; }
      SplitAtSeparator(a[1..], c, rest);
      assert s[1..] == a[1..] + [c] + rest;
      assert [a[0]] + a[1..] == a;
    }
  }

  /** Joining parts free of the separator and splitting again gives back
      the parts. */
  lemma {:induction false} JoinSplit(parts: seq<string>, c: char)
    requires |parts| >= 1
    requires forall k :: 0 <= k < |parts| ==> c !in parts[k]
    ensures Split(Join(parts, [c]), c) == parts
  {
    if |parts| == 1 {
      SplitNoSeparator(parts[0], c);
    } else {
      JoinSplit(parts[1..], c);
      SplitAtSeparator(parts[0], c, Join(parts[1..], [c]));
      assert [parts[0]] + parts[1..] == parts;
    }
  }

  /** Splitting parts joined by the separator, then the separator and more
      text, gives back the parts followed by the pieces of the rest. */
  lemma {:induction false} SplitJoinThen(parts: seq<string>, c: char, rest: string)
    requires |parts| >= 1
    requires forall k :: 0 <= k < |parts| ==> c !in parts[k]
    ensures Split(Join(parts, [c]) + [c] + rest, c) == parts + Split(rest, c)
  {
    if |parts| == 1 {
      SplitAtSeparator(parts[0], c, rest);
    } else {
      var p, ps := parts[0], parts[1..];
      assert forall k :: 0 <= k < |ps| ==> ps[k] == parts[k + 1];
      SplitJoinThen(ps, c, rest);
      SplitThenStep(p, ps, Join(ps, [c]), c, rest);
      assert parts == [p] + ps;
    }
  }

  lemma SplitThenStep(p: string, ps: seq<string>, j: string, c: char, rest: string)
    requires c !in p
    requires Split(j + [c] + rest, c) == ps + Split(rest, c)
    ensures Split(p + [c] + j + [c] + rest, c) == [p] + ps + Split(rest, c)
  {
    assert p + [c] + j + [c] + rest == p + [c] + (j + [c] + rest);
    SplitAtSeparator(p, c, j + [c] + rest);
  }

  /** `s.replace(pat, rep)` for a non-empty pattern: left-to-right,
      non-overlapping. */
  function ReplaceAll(s: string, pat: string, rep: string): string
    requires pat != []
    decreases |s|
  {
    if s == [] then []
    else if StartsWith(s, pat) then rep + ReplaceAll(s[|pat|..], pat, rep)
    else [s[0]] + ReplaceAll(s[1..], pat, rep)
  }

  /** `s.replace(c, "")` */
  function RemoveChar(s: string, c: char): (r: string)
    ensures c !in r
    ensures |r| <= |s|
  {
    if s == [] then [] else (if s[0] == c then [] else [s[0]]) + RemoveChar(s[1..], c)
  }

  /** Removing an absent character changes nothing. */
  lemma RemoveAbsent(s: string, c: char)
    requires c !in s
    ensures RemoveChar(s, c) == s
  {
    if s != [] { RemoveAbsent(s[1..], c); }
  }

  /** Removal distributes over concatenation. */
  lemma RemoveCharAppend(a: string, b: string, c: char)
    ensures RemoveChar(a + b, c) == RemoveChar(a, c) + RemoveChar(b, c)
  {
    if a != [] {
      RemoveCharAppend(a[1..], b, c);
      assert (a + b)[0] == a[0];
      assert (a + b)[1..] == a[1..] + b;
      var h := if a[0] == c then [] else [a[0]];
      assert RemoveChar(a + b, c) == h + (RemoveChar(a[1..], c) + RemoveChar(b, c));
      assert RemoveChar(a, c) == h + RemoveChar(a[1..], c);
    } else {
      assert a + b == b;
    }
  }

  /** `s.replace(a, b)` for single characters. */
  function ReplaceChar(s: string, a: char, b: char): (r: string)
    ensures |r| == |s|
    ensures forall i :: 0 <= i < |s| ==> r[i] == (if s[i] == a then b else s[i])
  {
    seq(|s|, i requires 0 <= i < |s| => if s[i] == a then b else s[i])
  }

  /** The longest prefix of `s` whose characters satisfy `p`. */
  function TakeWhile(s: string, p: char -> bool): (r: string)
    ensures |r| <= |s| && r == s[..|r|]
    ensures forall i :: 0 <= i < |r| ==> p(r[i])
    ensures |r| < |s| ==> !p(s[|r|])
  {
    if s != [] && p(s[0]) then [s[0]] + TakeWhile(s[1..], p) else []
  }

  /** A token separator: whitespace, and the comma when `comma` holds. */
  predicate IsSep(c: char, comma: bool) { IsSpace(c) || (comma && c == ',') }

  function SkipSeps(s: string, comma: bool): (r: string)
    ensures |r| <= |s| && r == s[|s| - |r|..]
    ensures forall i :: 0 <= i < |s| - |r| ==> IsSep(s[i], comma)
    ensures r == [] || !IsSep(r[0], comma)
  {
    if s != [] && IsSep(s[0], comma) then SkipSeps(s[1..], comma) else s
  }

  function TakeToken(s: string, comma: bool): (r: string)
    ensures |r| <= |s| && r == s[..|r|]
    ensures forall i :: 0 <= i < |r| ==> !IsSep(r[i], comma)
    ensures s != [] && !IsSep(s[0], comma) ==> |r| >= 1
  {
    if s != [] && !IsSep(s[0], comma) then [s[0]] + TakeToken(s[1..], comma) else []
  }

  /** `re.split(r"[\s]+", s)` (or `[,\s]+` when `comma`) with the empty
      pieces discarded: the maximal runs of non-separator characters. */
  function Tokens(s: string, comma: bool): (r: seq<string>)
    decreases |s|
  {
    var t := SkipSeps(s, comma);
    if t == [] then []
    else
      var w := TakeToken(t, comma);
      [w] + Tokens(t[|w|..], comma)
  }

  /** `s.split()`: the whitespace-separated words. */
  function Words(s: string): seq<string> { Tokens(s, false) }

  // ---------------------------------------------------------------------
  // Decimal digits
  // ---------------------------------------------------------------------

  function DigitChar(d: nat): char
    requires d < 10
  {
    ('0' as int + d) as char
  }

  /** `str(n)` for a natural number. */
  function NatToString(n: nat): (r: string)
    ensures r != [] && AllDigits(r)
  {
    if n < 10 then [DigitChar(n)] else NatToString(n / 10) + [DigitChar(n % 10)]
  }

  /** The end of the run of ASCII digits that starts at `i`. */
  function DigitRunEnd(s: string, i: nat): (e: nat)
    requires i <= |s|
    ensures i <= e <= |s| && AllDigits(s[i..e]) && (e == |s| || !IsDigit(s[e]))
    ensures forall j :: i <= j < e ==> IsDigit(s[j])
    decreases |s| - i
  {
    if i < |s| && IsDigit(s[i]) then DigitRunEnd(s, i + 1) else i
  }

  lemma {:induction false} DigitRunAt(s: string, i: nat, e: nat)
    requires i <= e < |s| && AllDigits(s[i..e]) && !IsDigit(s[e])
    ensures DigitRunEnd(s, i) == e
    decreases e - i
  {
    if i < e {
      assert s[i] == s[i..e][0];
      assert s[i + 1..e] == s[i..e][1..];
      DigitRunAt(s, i + 1, e);
    }
  }

  /** `int(s)` for a string of ASCII digits. */
  function DigitsValue(s: string): nat
    requires AllDigits(s)
  {
    if s == [] then 0 else DigitsValue(s[..|s| - 1]) * 10 + (s[|s| - 1] as int - '0' as int)
  }

  /** `int(str(n)) == n`. */
  lemma {:induction false} NatToStringRoundTrip(n: nat)
    ensures DigitsValue(NatToString(n)) == n
  {
    if n >= 10 {
      NatToStringRoundTrip(n / 10);
      var s := NatToString(n);
      assert s[..|s| - 1] == NatToString(n / 10);
    }
  }

  lemma NatToStringInjective(a: nat, b: nat)
    requires NatToString(a) == NatToString(b)
    ensures a == b
  {
    NatToStringRoundTrip(a);
    NatToStringRoundTrip(b);
  }
}
