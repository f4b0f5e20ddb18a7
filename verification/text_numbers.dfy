/** The number spans that the text cross-check reports for a page: every
    match of the number pattern, left to right and without overlap, with
    its text stripped of surrounding whitespace. */
module TextNumbers {
  import opened Common
  import opened Strings

  /** Position `p` moved past one character of `cs`, if one is there. */
  function Opt(s: string, p: nat, cs: set<char>): (q: nat)
    requires p <= |s|
    ensures q == p || (q == p + 1 && p < |s| && s[p] in cs)
  {
    if p < |s| && s[p] in cs then p + 1 else p
  }

  /** Past the optional currency word, `(?:Ps\.?\s*)?`, at `p`. */
  function PastPs(s: string, p: nat): (q: nat)
    requires p <= |s|
    ensures p <= q <= |s|
  {
    if p + 1 < |s| && s[p] == 'P' && s[p + 1] == 's' then SpaceRunFrom(s, Opt(s, p + 2, {'.'})) else p
  }

  /** Where the digits must begin in a match at `i`: past
      `[(\$]?\s*(?:Ps\.?\s*)?[\$]?\s*`. Each optional piece is taken when
      present; leaving one out only puts a non-digit where the digits must
      start, so the greedy path is the one the regex engine reports. */
  function DigitsStart(s: string, i: nat): (d: nat)
    requires i <= |s|
    ensures i <= d <= |s|
  {
    SpaceRunFrom(s, Opt(s, SpaceRunFrom(s, PastPs(s, SpaceRunFrom(s, Opt(s, i, {'(', '$'})))), {'$'}))
  }

  /** Past at most `n` digits, as many as there are: `\d{1,n}` after a
      first digit. */
  function DigitsUpTo(s: string, p: nat, n: nat): (q: nat)
    requires p <= |s|
    ensures p <= q <= p + n && q <= |s|
    ensures forall j :: p <= j < q ==> IsDigit(s[j])
    decreases n
  {
    if n > 0 && p < |s| && IsDigit(s[p]) then DigitsUpTo(s, p + 1, n - 1) else p
  }

  predicate IsGroupMark(c: char) { c == ',' || c == '.' }

  /** A separator followed by exactly three digits starts at `p`. */
  predicate GroupAt(s: string, p: nat)
  {
    p + 4 <= |s| && IsGroupMark(s[p]) && IsDigit(s[p + 1]) && IsDigit(s[p + 2]) && IsDigit(s[p + 3])
  }

  /** Past `(?:[,.]\d{3})*`, repeated as often as it matches. */
  function PastGroups(s: string, p: nat): (q: nat)
    requires p <= |s|
    ensures p <= q <= |s| && !GroupAt(s, q)
    decreases |s| - p
  {
    if GroupAt(s, p) then PastGroups(s, p + 4) else p
  }

  /** Past `(?:[.,]\d{1,2})?`. */
  function PastDecimals(s: string, p: nat): (q: nat)
    requires p <= |s|
    ensures p <= q <= |s|
  {
    if p + 1 < |s| && IsGroupMark(s[p]) && IsDigit(s[p + 1]) then DigitsUpTo(s, p + 2, 1) else p
  }

  /** `NUMBER_PATTERN` matched at `i`: its end, or `None` when no digit
      can begin where the optional prefix ends (or `i` is past the end).
      Everything after the first digits is optional and taken greedily,
      so no backtracking reaches it. */
  function MatchAt(s: string, i: nat): (r: Option<nat>)
    ensures r.Some? ==> i < r.value <= |s| && HasDigit(s[i..r.value])
  {
    if i > |s| then None
    else
      var d := DigitsStart(s, i);
      if d < |s| && IsDigit(s[d]) then
        var e := Opt(s, SpaceRunFrom(s, PastDecimals(s, PastGroups(s, DigitsUpTo(s, d, 3)))), {')'});
        assert s[i..e][d - i] == s[d];
        Some(e)
      else None
  }

  /** A matcher for a text of length `n`: every match ends after its start
      and inside the text. */
  ghost predicate IsMatcher(m: nat -> Option<nat>, n: nat)
  {
    forall i: nat :: m(i).Some? ==> i < m(i).value <= n
  }

  /** `NUMBER_PATTERN` on the text `s`, as a function of the start. */
  function Matcher(s: string): (m: nat -> Option<nat>)
    ensures IsMatcher(m, |s|)
    ensures forall i: nat :: m(i).Some? ==> HasDigit(s[i..m(i).value])
  {
    (i: nat) => MatchAt(s, i)
  }

  /** The first match at or after `pos`, as its start and end. */
  function NextMatch(m: nat -> Option<nat>, n: nat, pos: nat): (r: Option<(nat, nat)>)
    requires IsMatcher(m, n) && pos <= n
    ensures r.Some? ==> pos <= r.value.0 && m(r.value.0) == Some(r.value.1)
    ensures r.Some? ==> forall p: nat :: pos <= p < r.value.0 ==> m(p).None?
    ensures r.None? ==> forall p: nat :: pos <= p ==> m(p).None?
    decreases n - pos
  {
    if pos == n then None
    else if m(pos).Some? then Some((pos, m(pos).value))
    else NextMatch(m, n, pos + 1)
  }

  datatype Span = Span(start: nat, end: nat)

  /** The spans are non-empty, come in order and do not overlap. */
  predicate Ordered(spans: seq<Span>)
  {
    (forall k :: 0 <= k < |spans| ==> spans[k].start < spans[k].end)
    && forall k :: 0 <= k < |spans| - 1 ==> spans[k].end <= spans[k + 1].start
  }

  /** Position `p` lies inside some span. */
  predicate Covered(spans: seq<Span>, p: nat)
  {
    exists k :: 0 <= k < |spans| && spans[k].start <= p < spans[k].end
  }

  /** `finditer` from `pos`: each search starts where the previous match
      ended. */
  function Matches(m: nat -> Option<nat>, n: nat, pos: nat): (r: seq<Span>)
    requires IsMatcher(m, n) && pos <= n
    ensures Ordered(r)
    ensures forall k :: 0 <= k < |r| ==> pos <= r[k].start && m(r[k].start) == Some(r[k].end)
    decreases n - pos
  {
    var x := NextMatch(m, n, pos);
    if x.None? then []
    else
      var rest := Matches(m, n, x.value.1);
      var r := [Span(x.value.0, x.value.1)] + rest;
      assert forall k :: 1 <= k < |r| ==> r[k] == rest[k - 1];
      r
  }

  /** Every position where the pattern matches lies inside a reported
      span: the search skips only the matches that would overlap. */
  lemma {:induction false} MatchesComplete(m: nat -> Option<nat>, n: nat, pos: nat, p: nat)
    requires IsMatcher(m, n) && pos <= p && pos <= n && m(p).Some?
    ensures Covered(Matches(m, n, pos), p)
    decreases n - pos
  {
    var x := NextMatch(m, n, pos);
    var r := Matches(m, n, pos);
    var (a, b) := x.value;
    assert r[0] == Span(a, b);
    if p >= b {
      MatchesComplete(m, n, b, p);
      var rest := Matches(m, n, b);
      var k :| 0 <= k < |rest| && rest[k].start <= p < rest[k].end;
      assert r[k + 1] == rest[k];
    }
  }

  /** One reported number. */
  datatype Number = Number(raw: string, start: nat, end: nat)

  predicate InText(text: string, spans: seq<Span>)
  {
    forall k :: 0 <= k < |spans| ==> spans[k].start <= spans[k].end <= |text|
  }

  /** The loop body of `extract_numbers` over the spans: the stripped text
      of each span that has a digit. */
  function NumbersOf(text: string, spans: seq<Span>): (r: seq<Number>)
    requires InText(text, spans)
    ensures |r| <= |spans|
    ensures forall k :: 0 <= k < |r| ==>
      HasDigit(r[k].raw) && r[k].start <= r[k].end <= |text| && r[k].raw == Strip(text[r[k].start..r[k].end])
  {
    if spans == [] then []
    else
      var raw := Strip(text[spans[0].start..spans[0].end]);
      var rest := NumbersOf(text, spans[1..]);
      if HasDigit(raw) then [Number(raw, spans[0].start, spans[0].end)] + rest else rest
  }

  /** A digit survives `strip`. */
  lemma DigitSurvivesStrip(t: string)
    requires HasDigit(t)
    ensures HasDigit(Strip(t))
  {
    var k :| 0 <= k < |t| && IsDigit(t[k]);
    var a := StripStart(t);
    var e := StripEnd(t);
    assert !IsSpace(t[k]);
    assert a <= k < e;
    assert Strip(t)[k - a] == t[k];
  }

  /** When every span holds a digit, the digit test drops nothing. */
  lemma {:induction false} NumbersOfKeepsAll(text: string, spans: seq<Span>)
    requires InText(text, spans)
    requires forall k :: 0 <= k < |spans| ==> HasDigit(text[spans[k].start..spans[k].end])
    ensures |NumbersOf(text, spans)| == |spans|
    ensures forall k :: 0 <= k < |spans| ==>
      NumbersOf(text, spans)[k].start == spans[k].start && NumbersOf(text, spans)[k].end == spans[k].end
  {
    if spans != [] {
      DigitSurvivesStrip(text[spans[0].start..spans[0].end]);
      NumbersOfKeepsAll(text, spans[1..]);
    }
  }

  /** Position `p` lies inside some reported number. */
  predicate InSomeNumber(r: seq<Number>, p: nat)
  {
    exists k :: 0 <= k < |r| && r[k].start <= p < r[k].end
  }

  /** `extract_numbers(text)`. */
  function ExtractNumbers(text: string): seq<Number>
  {
    var spans := Matches(Matcher(text), |text|, 0);
    NumbersOf(text, spans)
  }

  /** Each number has a digit and is its span's stripped text. */
  predicate Reported(text: string, r: seq<Number>)
  {
    forall k :: 0 <= k < |r| ==>
      HasDigit(r[k].raw) && r[k].start < r[k].end <= |text| && r[k].raw == Strip(text[r[k].start..r[k].end])
  }

  /** The numbers come in order and do not overlap. */
  predicate InOrder(r: seq<Number>)
  {
    forall k :: 0 <= k < |r| - 1 ==> r[k].end <= r[k + 1].start
  }

  /** Each number is a match of `m`. */
  predicate MatchedBy(m: nat -> Option<nat>, r: seq<Number>)
  {
    forall k :: 0 <= k < |r| ==> m(r[k].start) == Some(r[k].end)
  }

  /** For any matcher whose matches hold a digit, the numbers are its
      successive matches, each with a digit and as its span's stripped
      text, in order and without overlap. */
  lemma NumbersOfMatches(text: string, m: nat -> Option<nat>)
    requires IsMatcher(m, |text|)
    requires forall i: nat :: m(i).Some? ==> HasDigit(text[i..m(i).value])
    ensures Reported(text, NumbersOf(text, Matches(m, |text|, 0)))
    ensures InOrder(NumbersOf(text, Matches(m, |text|, 0)))
    ensures MatchedBy(m, NumbersOf(text, Matches(m, |text|, 0)))
  {
    var spans := Matches(m, |text|, 0);
    assert InText(text, spans);
    NumbersOfKeepsAll(text, spans);
  }

  /** Every position where the matcher matches lies inside a reported
      number. */
  lemma NumbersCoverMatches(text: string, m: nat -> Option<nat>)
    requires IsMatcher(m, |text|)
    requires forall i: nat :: m(i).Some? ==> HasDigit(text[i..m(i).value])
    ensures forall p: nat :: m(p).Some? ==> InSomeNumber(NumbersOf(text, Matches(m, |text|, 0)), p)
  {
    var spans := Matches(m, |text|, 0);
    assert InText(text, spans);
    NumbersOfKeepsAll(text, spans);
    forall p: nat | m(p).Some?
      ensures InSomeNumber(NumbersOf(text, spans), p)
    {
      MatchesComplete(m, |text|, 0, p);
    }
  }

  /** `extract_numbers` reports exactly the successive matches of the
      number pattern: each has a digit and is its span's stripped text,
      they come in order without overlap, and every position where the
      pattern matches lies inside one of them. */
  lemma ExtractNumbersSpec(text: string)
    ensures Reported(text, ExtractNumbers(text)) && InOrder(ExtractNumbers(text))
    ensures forall k :: 0 <= k < |ExtractNumbers(text)| ==>
      MatchAt(text, ExtractNumbers(text)[k].start) == Some(ExtractNumbers(text)[k].end)
    ensures forall p: nat :: MatchAt(text, p).Some? ==> InSomeNumber(ExtractNumbers(text), p)
  {
    var m := Matcher(text);
    NumbersOfMatches(text, m);
    NumbersCoverMatches(text, m);
  }

  lemma MatchYearHead()
    ensures MatchAt("2025", 0) == Some(3)
  {
    var s := "2025";
    assert !IsSpace(s[0]) && !IsSpace(s[3]);
    assert Opt(s, 0, {'(', '$'}) == 0;
    assert SpaceRunFrom(s, 0) == 0;
    assert PastPs(s, 0) == 0;
    assert Opt(s, 0, {'$'}) == 0;
    assert DigitsStart(s, 0) == 0;
    assert DigitsUpTo(s, 3, 0) == 3;
    assert DigitsUpTo(s, 2, 1) == 3;
    assert DigitsUpTo(s, 1, 2) == 3;
    assert DigitsUpTo(s, 0, 3) == 3;
    assert PastGroups(s, 3) == 3;
    assert PastDecimals(s, 3) == 3;
    assert SpaceRunFrom(s, 3) == 3;
    assert Opt(s, 3, {')'}) == 3;
  }

  lemma MatchYearTail()
    ensures MatchAt("2025", 3) == Some(4)
  {
    var s := "2025";
    assert !IsSpace(s[3]);
    assert Opt(s, 3, {'(', '$'}) == 3;
    assert SpaceRunFrom(s, 3) == 3;
    assert PastPs(s, 3) == 3;
    assert Opt(s, 3, {'$'}) == 3;
    assert DigitsStart(s, 3) == 3;
    assert DigitsUpTo(s, 4, 2) == 4;
    assert DigitsUpTo(s, 3, 3) == 4;
    assert PastGroups(s, 4) == 4;
    assert PastDecimals(s, 4) == 4;
    assert SpaceRunFrom(s, 4) == 4;
    assert Opt(s, 4, {')'}) == 4;
  }

  lemma YearMatches()
    ensures Matches(Matcher("2025"), 4, 0) == [Span(0, 3), Span(3, 4)]
  {
    var m := Matcher("2025");
    MatchYearHead();
    MatchYearTail();
    TwoMatches(m, m(0), m(3));
  }

  /** A text of length 4 matched at 0..3 and at 3..4 has exactly those
      two matches. */
  lemma TwoMatches(m: nat -> Option<nat>, a: Option<nat>, b: Option<nat>)
    requires IsMatcher(m, 4) && a == m(0) && b == m(3)
    requires a == Some(3) && b == Some(4)
    ensures Matches(m, 4, 0) == [Span(0, 3), Span(3, 4)]
  {
    assert NextMatch(m, 4, 0) == Some((0, 3));
    assert NextMatch(m, 4, 3) == Some((3, 4));
    assert Matches(m, 4, 4) == [];
  }

  lemma YearNumbers()
    ensures NumbersOf("2025", [Span(0, 3), Span(3, 4)]) == [Number("202", 0, 3), Number("5", 3, 4)]
  {
    var s := "2025";
    var spans := [Span(0, 3), Span(3, 4)];
    assert s[0..3] == "202" && s[3..4] == "5";
    assert Strip(s[0..3]) == "202" by { StripOfStripped("202"); }
    assert Strip(s[3..4]) == "5" by { StripOfStripped("5"); }
    assert IsDigit("202"[0]) && IsDigit("5"[0]);
    assert NumbersOf(s, spans[1..][1..]) == [];
    assert NumbersOf(s, spans[1..]) == [Number("5", 3, 4)];
  }

  /** A four-digit year without a separator is cut after three digits:
      "2025" is reported as "202" and "5". */
  lemma YearIsSplit()
    ensures ExtractNumbers("2025") == [Number("202", 0, 3), Number("5", 3, 4)]
  {
    YearMatches();
    YearNumbers();
  }
}
