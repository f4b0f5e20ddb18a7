/** The stop hook of the Ralph loop. While the loop's state file exists,
    every attempt to end the session becomes one more iteration with the
    same prompt. The loop ends, and the state file is removed, when:
    - the iteration limit is reached;
    - the assistant's last message states the completion promise;
    - the state file or the transcript is unusable.

    The state file is markdown. A header between two `---` lines holds
    `key: value` fields, and the prompt follows the header. Reading and
    writing files are inputs and outputs of the model. */
module StopHook {
  import opened Common
  import opened Strings

  const Fence := "---"

  predicate IsFence(line: string) { Strip(line) == Fence }

  // ---------------------------------------------------------------------
  // The header
  // ---------------------------------------------------------------------

  /** The lines before the first one that satisfies `stop`. */
  function LinesBefore(lines: seq<string>, stop: string -> bool): (r: seq<string>)
    ensures |r| <= |lines| && r == lines[..|r|]
    ensures forall k :: 0 <= k < |r| ==> !stop(r[k])
    ensures |r| < |lines| ==> stop(lines[|r|])
  {
    if lines == [] || stop(lines[0]) then []
    else [lines[0]] + LinesBefore(lines[1..], stop)
  }

  /** The first line at or after `from` that satisfies `stop`. */
  function FirstFrom(lines: seq<string>, stop: string -> bool, from: nat): (r: Option<nat>)
    ensures r.Some? ==> from <= r.value < |lines| && stop(lines[r.value])
    ensures r.Some? ==> forall j :: from <= j < r.value ==> !stop(lines[j])
    ensures r.None? ==> forall j :: from <= j < |lines| ==> !stop(lines[j])
    decreases |lines| - from
  {
    if from >= |lines| then None
    else if stop(lines[from]) then Some(from)
    else FirstFrom(lines, stop, from + 1)
  }

  predicate IsQuote(c: char) { c == '\U{22}' || c == '\U{27}' }

  /** One pair of surrounding double or single quotes removed. A lone quote
      character becomes "", as `value[1:-1]` does. */
  function Unquote(v: string): string
  {
    if |v| >= 2 && IsQuote(v[0]) && v[|v| - 1] == v[0] then v[1..|v| - 1]
    else if |v| == 1 && IsQuote(v[0]) then []
    else v
  }

  /** A value that does not start with a quote is kept. */
  lemma UnquotePlain(v: string)
    requires v == [] || !IsQuote(v[0])
    ensures Unquote(v) == v
  {
  }

  /** A value in double quotes loses them. */
  lemma UnquoteQuoted(s: string)
    ensures Unquote("\"" + s + "\"") == s
  {
    var v := "\"" + s + "\"";
    assert v[1..|v| - 1] == s;
  }

  /** The entry of a line whose first colon is at or after `i`: the
      stripped key before it and the stripped, unquoted value after it. */
  function ParseFrom(line: string, i: nat): (r: Option<(string, string)>)
    requires i <= |line|
    ensures r.None? <==> ':' !in line[i..]
    decreases |line| - i
  {
    if i == |line| then None
    else if line[i] == ':' then Some((Strip(line[..i]), Unquote(Strip(line[i + 1..]))))
    else
      assert line[i..] == [line[i]] + line[i + 1..];
      ParseFrom(line, i + 1)
  }

  /** Characters before the colon are skipped. */
  lemma {:induction false} ParseSkips(line: string, i: nat, j: nat)
    requires i <= j <= |line|
    requires forall k :: i <= k < j ==> line[k] != ':'
    ensures ParseFrom(line, i) == ParseFrom(line, j)
    decreases j - i
  {
    if i < j {
      ParseSkips(line, i + 1, j);
    }
  }

  /** A header line with a colon splits at the first one. */
  function ParseLine(line: string): (r: Option<(string, string)>)
    ensures r.None? <==> ':' !in line
  {
    assert line[0..] == line;
    ParseFrom(line, 0)
  }

  /** The header line the loop's setup writes for a field. */
  function Entry(key: string, value: string): string
  {
    key + ": " + value
  }

  /** Such a line parses back to its key and value. */
  lemma ParseEntry(key: string, value: string)
    requires key != [] && !IsSpace(key[0]) && !IsSpace(key[|key| - 1]) && ':' !in key
    requires value != [] && !IsSpace(value[0]) && !IsSpace(value[|value| - 1])
    ensures ParseLine(Entry(key, value)) == Some((key, Unquote(value)))
  {
    var line := Entry(key, value);
    assert line[|key|] == ':';
    assert line[..|key|] == key;
    ParseSkips(line, 0, |key|);
    StripOfStripped(key);
    assert line[|key| + 1..] == [' '] + value;
    StripAfterSpace(value);
  }

  /** The entry of each line, if it has one. */
  function Entries(lines: seq<string>): (r: seq<Option<(string, string)>>)
    ensures |r| == |lines| && forall k :: 0 <= k < |lines| ==> r[k] == ParseLine(lines[k])
  {
    seq(|lines|, k requires 0 <= k < |lines| => ParseLine(lines[k]))
  }

  /** The fields of the entries, a later entry overriding an earlier one
      with the same key. */
  function AddEntries(m: map<string, string>, entries: seq<Option<(string, string)>>): (r: map<string, string>)
    ensures m.Keys <= r.Keys
    decreases |entries|
  {
    if entries == [] then m
    else
      var e := entries[0];
      AddEntries(if e.Some? then m[e.value.0 := e.value.1] else m, entries[1..])
  }

  /** The entry sets `key`. */
  predicate Sets(e: Option<(string, string)>, key: string)
  {
    e.Some? && e.value.0 == key
  }

  /** A key no entry sets keeps its earlier value. */
  lemma {:induction false} EntryKept(m: map<string, string>, entries: seq<Option<(string, string)>>, key: string)
    requires key in m
    requires forall j :: 0 <= j < |entries| ==> !Sets(entries[j], key)
    ensures key in AddEntries(m, entries) && AddEntries(m, entries)[key] == m[key]
    decreases |entries|
  {
    if entries != [] {
      var e := entries[0];
      var m' := if e.Some? then m[e.value.0 := e.value.1] else m;
      assert !Sets(entries[0], key);
      assert forall j :: 0 <= j < |entries| - 1 ==> entries[1..][j] == entries[j + 1];
      EntryKept(m', entries[1..], key);
    }
  }

  /** The last entry that sets a key decides its value. */
  lemma {:induction false} LastEntryWins(m: map<string, string>, entries: seq<Option<(string, string)>>, k: nat)
    requires k < |entries| && entries[k].Some?
    requires forall j :: k < j < |entries| ==> !Sets(entries[j], entries[k].value.0)
    ensures entries[k].value.0 in AddEntries(m, entries)
    ensures AddEntries(m, entries)[entries[k].value.0] == entries[k].value.1
    decreases |entries|
  {
    var e := entries[0];
    var m' := if e.Some? then m[e.value.0 := e.value.1] else m;
    assert forall j :: 0 <= j < |entries| - 1 ==> entries[1..][j] == entries[j + 1];
    if k == 0 {
      EntryKept(m', entries[1..], e.value.0);
    } else {
      LastEntryWins(m', entries[1..], k - 1);
    }
  }

  /** `parse_frontmatter`: nothing unless the first line is a fence; then
      the entries of the lines up to the next fence. */
  function ParseFrontmatter(content: string): (r: map<string, string>)
    ensures !IsFence(Split(content, '\n')[0]) ==> r == map[]
  {
    var lines := Split(content, '\n');
    if !IsFence(lines[0]) then map[] else AddEntries(map[], Entries(LinesBefore(lines[1..], IsFence)))
  }

  /** `frontmatter.get(key, '')` */
  function Field(fm: map<string, string>, key: string): string
  {
    if key in fm then fm[key] else ""
  }

  // ---------------------------------------------------------------------
  // The prompt
  // ---------------------------------------------------------------------

  /** `extract_prompt`: the lines after the second fence, counted from the
      top of the file; "" with fewer than two fences. */
  function ExtractPrompt(content: string): (r: string)
    ensures FirstFrom(Split(content, '\n'), IsFence, 0).None? ==> r == []
  {
    var lines := Split(content, '\n');
    var first := FirstFrom(lines, IsFence, 0);
    if first.None? then ""
    else
      var second := FirstFrom(lines, IsFence, first.value + 1);
      if second.None? then "" else Join(lines[second.value + 1..], "\n")
  }

  /** A file with fewer than two fence lines has no prompt. */
  lemma FewFencesNoPrompt(content: string)
    requires Count(Split(content, '\n'), IsFence) < 2
    ensures ExtractPrompt(content) == []
  {
    var lines := Split(content, '\n');
    var first := FirstFrom(lines, IsFence, 0);
    if first.Some? {
      var second := FirstFrom(lines, IsFence, first.value + 1);
      if second.Some? {
        CountTwo(lines, IsFence, first.value, second.value);
        assert false;
      }
    }
  }

  /** The lines strictly between line 0 and the first later stop line. */
  lemma LinesUpTo(lines: seq<string>, stop: string -> bool, n: nat)
    requires 1 <= n < |lines| && stop(lines[n])
    requires forall k :: 0 < k < n ==> !stop(lines[k])
    ensures LinesBefore(lines[1..], stop) == lines[1..n]
  {
    assert forall k :: 0 <= k < |lines| - 1 ==> lines[1..][k] == lines[k + 1];
  }

  /** The first stop line at or after `from` is found. */
  lemma FirstFromAt(lines: seq<string>, stop: string -> bool, from: nat, n: nat)
    requires from <= n < |lines| && stop(lines[n])
    requires forall k :: from <= k < n ==> !stop(lines[k])
    ensures FirstFrom(lines, stop, from) == Some(n)
  {
    var r := FirstFrom(lines, stop, from);
    assert r.Some?;
    assert r.value <= n;
  }

  /** The lines of a header between two stop lines, followed by a prompt. */
  lemma HeaderSplit(header: seq<string>, prompt: string, stop: string -> bool)
    requires |header| >= 2 && stop(header[0]) && stop(header[|header| - 1])
    requires forall k :: 0 < k < |header| - 1 ==> !stop(header[k])
    requires forall k :: 0 <= k < |header| ==> '\n' !in header[k]
    ensures Split(Join(header, "\n") + "\n" + prompt, '\n') == header + Split(prompt, '\n')
    ensures LinesBefore((header + Split(prompt, '\n'))[1..], stop) == header[1..|header| - 1]
    ensures FirstFrom(header + Split(prompt, '\n'), stop, 0) == Some(0)
    ensures FirstFrom(header + Split(prompt, '\n'), stop, 1) == Some(|header| - 1)
  {
    var n := |header| - 1;
    var lines := header + Split(prompt, '\n');
    SplitJoinThen(header, '\n', prompt);
    assert forall k :: 0 <= k <= n ==> lines[k] == header[k];
    LinesUpTo(lines, stop, n);
    assert lines[1..n] == header[1..n];
    FirstFromAt(lines, stop, 0, 0);
    FirstFromAt(lines, stop, 1, n);
  }

  /** A header between two fences followed by a prompt: the header's
      fields are parsed. */
  lemma HeaderFields(header: seq<string>, prompt: string)
    requires |header| >= 2 && IsFence(header[0]) && IsFence(header[|header| - 1])
    requires forall k :: 0 < k < |header| - 1 ==> !IsFence(header[k])
    requires forall k :: 0 <= k < |header| ==> '\n' !in header[k]
    ensures ParseFrontmatter(Join(header, "\n") + "\n" + prompt) == AddEntries(map[], Entries(header[1..|header| - 1]))
  {
    HeaderSplit(header, prompt, IsFence);
    var lines := header + Split(prompt, '\n');
    assert lines[0] == header[0];
  }

  /** ... and the prompt after it comes back unchanged. */
  lemma HeaderThenPrompt(header: seq<string>, prompt: string)
    requires |header| >= 2 && IsFence(header[0]) && IsFence(header[|header| - 1])
    requires forall k :: 0 < k < |header| - 1 ==> !IsFence(header[k])
    requires forall k :: 0 <= k < |header| ==> '\n' !in header[k]
    ensures ExtractPrompt(Join(header, "\n") + "\n" + prompt) == prompt
  {
    HeaderSplit(header, prompt, IsFence);
    var lines := header + Split(prompt, '\n');
    assert lines[|header|..] == Split(prompt, '\n');
    SplitJoin(prompt, '\n');
  }

  // ---------------------------------------------------------------------
  // The completion promise
  // ---------------------------------------------------------------------

  const OpenTag := "<promise>"

  const CloseTag := "</promise>"

  /** The raw text between the first `open` and the first `close` after
      it, or none without such a pair: the group of the lazy
      `open(.*?)close` search under DOTALL. */
  function TagSpan(output: string, open: string, close: string): Option<string>
  {
    var p := FindFrom(output, open, 0);
    if p.None? then None
    else
      var q := FindFrom(output, close, p.value + |open|);
      if q.None? then None else Some(output[p.value + |open|..q.value])
  }

  /** `extract_promise_text`: the text between the promise tags with its
      whitespace runs collapsed to single spaces, "" without such a pair. */
  function ExtractPromiseText(output: string): (r: string)
    ensures !Contains(output, OpenTag) ==> r == []
  {
    var m := TagSpan(output, OpenTag, CloseTag);
    if m.None? then "" else Join(Words(m.value), " ")
  }

  /** The first occurrence from `from` in `a` is the first in `a + b`. */
  lemma {:induction false} FindInLonger(a: string, b: string, pat: string, from: nat)
    requires FindFrom(a, pat, from).Some?
    ensures FindFrom(a + b, pat, from) == FindFrom(a, pat, from)
    decreases |a| + 1 - from
  {
    var p := FindFrom(a, pat, from).value;
    assert (a + b)[from..from + |pat|] == a[from..from + |pat|];
    if from < p {
      FindInLonger(a, b, pat, from + 1);
    }
  }

  /** Searching `a + b + c` from `|a| + from` finds what searching
      `b + c` from `from` finds. */
  lemma FindShifted(a: string, b: string, c: string, pat: string, from: nat)
    requires FindFrom(b + c, pat, from).Some?
    ensures FindFrom(a + b + c, pat, |a| + from) == Some(|a| + FindFrom(b + c, pat, from).value)
  {
    assert a + b + c == a + (b + c);
    FindAfter(a, b + c, pat, from);
  }

  /** Searching `a + t` from `|a| + from` finds what searching `t` from
      `from` finds, shifted by `|a|`. */
  lemma {:induction false} FindAfter(a: string, t: string, pat: string, from: nat)
    requires FindFrom(t, pat, from).Some?
    ensures FindFrom(a + t, pat, |a| + from) == Some(|a| + FindFrom(t, pat, from).value)
    decreases |t| + 1 - from
  {
    var p := FindFrom(t, pat, from).value;
    ShiftedSlice(a, t, from, |pat|);
    if from < p {
      FindAfter(a, t, pat, from + 1);
    }
  }

  lemma ShiftedSlice(a: string, t: string, i: nat, n: nat)
    requires i + n <= |t|
    ensures (a + t)[|a| + i..|a| + i + n] == t[i..i + n]
  {
  }

  /** Searching `a + b` from inside `b` finds nothing when `b` holds no
      occurrence. */
  lemma {:induction false} FindNotInTail(a: string, b: string, pat: string, from: nat)
    requires |a| <= from && FindFrom(b, pat, 0).None?
    ensures FindFrom(a + b, pat, from).None?
    decreases |a| + |b| + 1 - from
  {
    var s := a + b;
    if from + |pat| <= |s| {
      assert s[from..from + |pat|] == b[from - |a|..from - |a| + |pat|];
      assert !OccursAt(b, pat, from - |a|);
      FindNotInTail(a, b, pat, from + 1);
    }
  }

  /** The span read off the positions of the two tags: `open` first found
      at `p`, and `close` first found at `q` from `i`, just past it. */
  lemma TagSpanAt(output: string, open: string, close: string, p: nat, i: nat, q: nat)
    requires i == p + |open|
    requires FindFrom(output, open, 0) == Some(p)
    requires FindFrom(output, close, i) == Some(q)
    ensures i <= q <= |output|
    ensures TagSpan(output, open, close) == Some(output[i..q])
  {
    assert OccursAt(output, close, q);
  }

  /** The second of four parts, cut back out. */
  lemma SecondPart(head: string, text: string, close: string, post: string)
    ensures (head + text + close + post)[|head|..|head| + |text|] == text
  {
    var s := head + text + close + post;
    forall k | 0 <= k < |text| ensures s[|head| + k] == text[k] { }
  }

  /** Text added after the first `open` of `head` leaves it the first. */
  lemma OpenStays(head: string, open: string, text: string, close: string, post: string)
    requires FindFrom(head, open, 0).Some?
    ensures FindFrom(head + text + close + post, open, 0) == FindFrom(head, open, 0)
  {
    FindInLonger(head, text, open, 0);
    FindInLonger(head + text, close, open, 0);
    FindInLonger(head + text + close, post, open, 0);
  }

  /** The first `close` from the end of `head` is the one right after
      `text`, when `text` holds none. */
  lemma CloseAfter(head: string, text: string, close: string, post: string)
    requires FindFrom(text + close, close, 0) == Some(|text|)
    ensures FindFrom(head + text + close + post, close, |head|) == Some(|head| + |text|)
  {
    FindShifted(head, text, close, close, 0);
    FindInLonger(head + text + close, post, close, |head|);
  }

  /** In `pre + open + text + close + post`, the first `open` is the one
      after `pre` and the first `close` after it is the one after `text`,
      when neither occurs earlier in its own part. */
  lemma PairFound(pre: string, open: string, text: string, close: string, post: string)
    requires FindFrom(pre + open, open, 0) == Some(|pre|)
    requires FindFrom(text + close, close, 0) == Some(|text|)
    ensures TagSpan(pre + open + text + close + post, open, close) == Some(text)
  {
    var head := pre + open;
    OpenStays(head, open, text, close, post);
    CloseAfter(head, text, close, post);
    TagSpanAt(head + text + close + post, open, close, |pre|, |head|, |head| + |text|);
    SecondPart(head, text, close, post);
  }

  /** An `open` that no `close` follows gives no span. */
  lemma UnclosedFound(pre: string, open: string, close: string, post: string)
    requires FindFrom(pre + open, open, 0) == Some(|pre|)
    requires FindFrom(post, close, 0).None?
    ensures TagSpan(pre + open + post, open, close).None?
  {
    FindInLonger(pre + open, post, open, 0);
    FindNotInTail(pre + open, post, close, |pre + open|);
  }

  /** The promise is the text between the first opening tag and the first
      closing tag after it, with its whitespace runs collapsed to single
      spaces. `pre` may hold any text that does not itself contain the
      opening tag, and `text` any text that does not contain the closing
      tag. */
  lemma PromiseBetweenTags(pre: string, text: string, post: string)
    requires FindFrom(pre + OpenTag, OpenTag, 0) == Some(|pre|)
    requires FindFrom(text + CloseTag, CloseTag, 0) == Some(|text|)
    ensures ExtractPromiseText(pre + OpenTag + text + CloseTag + post) == Join(Words(text), " ")
  {
    PairFound(pre, OpenTag, text, CloseTag, post);
  }

  /** An opening tag that no closing tag follows gives no promise. */
  lemma UnclosedTagNoPromise(pre: string, post: string)
    requires FindFrom(pre + OpenTag, OpenTag, 0) == Some(|pre|)
    requires FindFrom(post, CloseTag, 0).None?
    ensures ExtractPromiseText(pre + OpenTag + post) == []
  {
    UnclosedFound(pre, OpenTag, CloseTag, post);
  }

  // ---------------------------------------------------------------------
  // The iteration counter
  // ---------------------------------------------------------------------

  const IterationKey := "iteration:"

  /** `^iteration:\s*\d+` matches at `p`: the start of a line, the key,
      optional whitespace, at least one digit. */
  predicate MatchesAt(s: string, p: nat)
  {
    (p == 0 || (p <= |s| && s[p - 1] == '\n')) && OccursAt(s, IterationKey, p)
    && SpaceRunFrom(s, p + |IterationKey|) < |s| && IsDigit(s[SpaceRunFrom(s, p + |IterationKey|)])
  }

  /** Where the match at `p` ends: after all its digits. */
  function MatchEnd(s: string, p: nat): (e: nat)
    requires MatchesAt(s, p)
    ensures p + |IterationKey| < e <= |s|
  {
    DigitRunEnd(s, SpaceRunFrom(s, p + |IterationKey|))
  }

  /** The first match at or after `from`. */
  function FirstMatch(s: string, from: nat): (r: Option<nat>)
    ensures r.Some? ==> from <= r.value && MatchesAt(s, r.value)
    ensures r.Some? ==> forall j :: from <= j < r.value ==> !MatchesAt(s, j)
    ensures r.None? ==> forall j :: from <= j ==> !MatchesAt(s, j)
    decreases |s| + 1 - from
  {
    if from + |IterationKey| > |s| then None
    else if MatchesAt(s, from) then Some(from)
    else FirstMatch(s, from + 1)
  }

  /** The `re.sub(..., count=1)` call: the first match becomes
      `iteration: n`. All text before the match and after its digits is
      kept, and a text without a match is returned unchanged. */
  function BumpIteration(content: string, n: nat): (r: string)
    ensures FirstMatch(content, 0).None? ==> r == content
    ensures FirstMatch(content, 0).Some? ==>
      var p := FirstMatch(content, 0).value;
      var e := MatchEnd(content, p);
      |r| == p + |Entry("iteration", NatToString(n))| + (|content| - e)
      && r[..p] == content[..p]
      && r[p..p + |Entry("iteration", NatToString(n))|] == Entry("iteration", NatToString(n))
      && r[p + |Entry("iteration", NatToString(n))|..] == content[e..]
  {
    var m := FirstMatch(content, 0);
    if m.None? then content
    else
      var p := m.value;
      var r := content[..p] + Entry("iteration", NatToString(n)) + content[MatchEnd(content, p)..];
      assert r[..p] == content[..p];
      r
  }

  /** In a state file whose second line is the counter, the first match
      is that line... */
  lemma SecondLineMatches(s: string, digits: string, tail: string)
    requires IsDigitString(digits)
    requires s == Fence + "\n" + Entry("iteration", digits) + "\n" + tail
    ensures FirstMatch(s, 0) == Some(|Fence| + 1)
  {
    var k := |Fence| + 1 + |IterationKey|;
    assert s[|Fence|] == '\n';
    assert OccursAt(s, IterationKey, |Fence| + 1) by {
      assert s[|Fence| + 1..|Fence| + 1 + |IterationKey|] == IterationKey;
    }
    assert s[k] == ' ';
    assert s[k + 1] == digits[0];
    assert SpaceRunFrom(s, k) == k + 1 by {
      assert SpaceRunFrom(s, k + 1) == k + 1;
    }
    assert MatchesAt(s, |Fence| + 1);
    assert !OccursAt(s, IterationKey, 0) by {
      assert s[0] != IterationKey[0];
    }
    assert s[0] == '-' && s[1] == '-' && s[2] == '-';
  }

  /** ... and it ends after the digits. */
  lemma SecondLineEnd(s: string, digits: string, tail: string)
    requires IsDigitString(digits)
    requires s == Fence + "\n" + Entry("iteration", digits) + "\n" + tail
    requires MatchesAt(s, |Fence| + 1)
    ensures MatchEnd(s, |Fence| + 1) == |Fence| + 1 + |Entry("iteration", digits)|
  {
    var k := |Fence| + 1 + |IterationKey|;
    assert s[k] == ' ';
    assert s[k + 1] == digits[0];
    assert SpaceRunFrom(s, k) == k + 1 by {
      assert SpaceRunFrom(s, k + 1) == k + 1;
    }
    var e := k + 1 + |digits|;
    assert s[k + 1..e] == digits;
    assert s[e] == '\n';
    DigitRunAt(s, k + 1, e);
  }

  /** A state file whose second line is the counter: only the number
      changes. */
  lemma BumpSecondLine(digits: string, n: nat, tail: string)
    requires IsDigitString(digits)
    ensures BumpIteration(Fence + "\n" + Entry("iteration", digits) + "\n" + tail, n)
      == Fence + "\n" + Entry("iteration", NatToString(n)) + "\n" + tail
  {
    var s := Fence + "\n" + Entry("iteration", digits) + "\n" + tail;
    var p := |Fence| + 1;
    var e := p + |Entry("iteration", digits)|;
    SecondLineMatches(s, digits, tail);
    SecondLineEnd(s, digits, tail);
    assert s[..p] == Fence + "\n";
    assert s[e..] == "\n" + tail;
  }

  // ---------------------------------------------------------------------
  // The state file
  // ---------------------------------------------------------------------

  /** The counter field, when it is all digits (`isdigit`, ASCII here). */
  function Counter(fm: map<string, string>, key: string): Option<nat>
  {
    if IsDigitString(Field(fm, key)) then Some(DigitsValue(Field(fm, key))) else None
  }

  /** A promise is set unless it is empty or the text `null`. */
  function Promise(fm: map<string, string>): (r: Option<string>)
    ensures r.Some? <==> Field(fm, "completion_promise") != [] && Field(fm, "completion_promise") != "null"
    ensures r.Some? ==> r.value == Field(fm, "completion_promise")
  {
    var cp := Field(fm, "completion_promise");
    if cp != [] && cp != "null" then Some(cp) else None
  }

  /** The count stops the loop only under a positive maximum. */
  predicate LimitReached(iteration: nat, maxIterations: nat)
  {
    maxIterations > 0 && iteration >= maxIterations
  }

  /** The state file as the loop's setup writes it: a header with the
      three fields, then the prompt. */
  function StateText(iteration: nat, maxIterations: nat, promise: string, prompt: string): string
  {
    Join([Fence, Entry("iteration", NatToString(iteration)), Entry("max_iterations", NatToString(maxIterations)),
          Entry("completion_promise", "\"" + promise + "\""), Fence], "\n") + "\n" + prompt
  }

  /** A field line of the setup is no fence and holds no line break. */
  lemma EntryLine(key: string, value: string)
    requires key != [] && key[0] != '-' && !IsSpace(key[0]) && '\n' !in key
    requires value != [] && !IsSpace(value[|value| - 1]) && '\n' !in value
    ensures !IsFence(Entry(key, value)) && '\n' !in Entry(key, value)
  {
    var line := Entry(key, value);
    assert line[0] == key[0] && line[|line| - 1] == value[|value| - 1];
    StripOfStripped(line);
  }

  lemma ShapeOfFive(h: seq<string>, f: string, a: string, b: string, c: string)
    requires h == [f, a, b, c, f]
    requires IsFence(f) && '\n' !in f
    requires !IsFence(a) && !IsFence(b) && !IsFence(c)
    requires '\n' !in a && '\n' !in b && '\n' !in c
    ensures IsFence(h[0]) && IsFence(h[4])
    ensures forall k :: 0 < k < 4 ==> !IsFence(h[k])
    ensures forall k :: 0 <= k < 5 ==> '\n' !in h[k]
  {
  }

  /** Three entries setting three different keys give each its value. */
  lemma ThreeFields(entries: seq<Option<(string, string)>>, ka: string, kb: string, kc: string, va: string, vb: string, vc: string)
    requires ka != kb && ka != kc && kb != kc
    requires entries == [Some((ka, va)), Some((kb, vb)), Some((kc, vc))]
    ensures Field(AddEntries(map[], entries), ka) == va
    ensures Field(AddEntries(map[], entries), kb) == vb
    ensures Field(AddEntries(map[], entries), kc) == vc
  {
    var m1 := map[ka := va];
    var m2 := m1[kb := vb];
    var m3 := m2[kc := vc];
    assert entries[1..] == [Some((kb, vb)), Some((kc, vc))];
    assert entries[1..][1..] == [Some((kc, vc))];
    assert AddEntries(m2, entries[1..][1..]) == AddEntries(m3, []);
    assert AddEntries(m1, entries[1..]) == AddEntries(m2, entries[1..][1..]);
    assert AddEntries(map[], entries) == AddEntries(m1, entries[1..]);
  }

  /** A header of three field lines between fences, then a prompt: the
      fields read back. */
  lemma HeaderOfThree(a: string, b: string, c: string, i: string, m: string, p: string, prompt: string)
    requires !IsFence(a) && !IsFence(b) && !IsFence(c)
    requires '\n' !in a && '\n' !in b && '\n' !in c
    requires ParseLine(a) == Some(("iteration", i))
    requires ParseLine(b) == Some(("max_iterations", m))
    requires ParseLine(c) == Some(("completion_promise", p))
    ensures Field(ParseFrontmatter(Join([Fence, a, b, c, Fence], "\n") + "\n" + prompt), "iteration") == i
    ensures Field(ParseFrontmatter(Join([Fence, a, b, c, Fence], "\n") + "\n" + prompt), "max_iterations") == m
    ensures Field(ParseFrontmatter(Join([Fence, a, b, c, Fence], "\n") + "\n" + prompt), "completion_promise") == p
  {
    var h := [Fence, a, b, c, Fence];
    SetupKeys();
    ShapeOfFive(h, Fence, a, b, c);
    HeaderFields(h, prompt);
    assert h[1..4] == [a, b, c];
    assert Entries([a, b, c]) == [Some(("iteration", i)), Some(("max_iterations", m)), Some(("completion_promise", p))];
    ThreeFields(Entries([a, b, c]), "iteration", "max_iterations", "completion_promise", i, m, p);
  }

  /** ... and so does the prompt. */
  lemma PromptOfThree(a: string, b: string, c: string, prompt: string)
    requires !IsFence(a) && !IsFence(b) && !IsFence(c)
    requires '\n' !in a && '\n' !in b && '\n' !in c
    ensures ExtractPrompt(Join([Fence, a, b, c, Fence], "\n") + "\n" + prompt) == prompt
  {
    var h := [Fence, a, b, c, Fence];
    SetupKeys();
    ShapeOfFive(h, Fence, a, b, c);
    HeaderThenPrompt(h, prompt);
  }

  /** The counter lines parse back and are no fences. */
  lemma CounterLine(key: string, n: nat)
    requires PlainKey(key)
    ensures ParseLine(Entry(key, NatToString(n))) == Some((key, NatToString(n)))
    ensures !IsFence(Entry(key, NatToString(n))) && '\n' !in Entry(key, NatToString(n))
  {
    var v := NatToString(n);
    assert IsDigit(v[0]) && IsDigit(v[|v| - 1]);
    assert '\n' !in v by {
      assert forall j :: 0 <= j < |v| ==> IsDigit(v[j]);
    }
    ParseEntry(key, v);
    assert Unquote(v) == v by {
      UnquotePlain(v);
    }
    EntryLine(key, v);
  }

  /** The promise line parses back and is no fence. */
  lemma PromiseLine(key: string, promise: string)
    requires PlainKey(key) && '\n' !in promise
    ensures ParseLine(Entry(key, "\"" + promise + "\"")) == Some((key, promise))
    ensures !IsFence(Entry(key, "\"" + promise + "\"")) && '\n' !in Entry(key, "\"" + promise + "\"")
  {
    var q := "\"" + promise + "\"";
    assert q[0] == '\U{22}' && q[|q| - 1] == '\U{22}';
    ParseEntry(key, q);
    UnquoteQuoted(promise);
    EntryLine(key, q);
  }

  /** A field key a setup line can carry: no dash, colon or line break
      in the way of the line parser. */
  predicate PlainKey(key: string)
  {
    key != [] && key[0] != '-' && !IsSpace(key[0]) && !IsSpace(key[|key| - 1]) && ':' !in key && '\n' !in key
  }

  /** The fence is a fence line, and the three field keys are plain and
      pairwise different. */
  lemma SetupKeys()
    ensures IsFence(Fence) && '\n' !in Fence
    ensures PlainKey("iteration") && PlainKey("max_iterations") && PlainKey("completion_promise")
    ensures "iteration" != "max_iterations" && "iteration" != "completion_promise" && "max_iterations" != "completion_promise"
  {
    StripOfStripped(Fence);
    assert |"iteration"| != |"max_iterations"| && |"iteration"| != |"completion_promise"|;
    assert "max_iterations"[0] != "completion_promise"[0];
  }

  /** A written state file reads back: its counters, its promise and its
      prompt. */
  lemma StateReadsBack(iteration: nat, maxIterations: nat, promise: string, prompt: string)
    requires '\n' !in promise
    ensures Counter(ParseFrontmatter(StateText(iteration, maxIterations, promise, prompt)), "iteration") == Some(iteration)
    ensures Counter(ParseFrontmatter(StateText(iteration, maxIterations, promise, prompt)), "max_iterations") == Some(maxIterations)
    ensures Field(ParseFrontmatter(StateText(iteration, maxIterations, promise, prompt)), "completion_promise") == promise
    ensures ExtractPrompt(StateText(iteration, maxIterations, promise, prompt)) == prompt
  {
    SetupKeys();
    CounterLine("iteration", iteration);
    CounterLine("max_iterations", maxIterations);
    PromiseLine("completion_promise", promise);
    HeaderOfThree(Entry("iteration", NatToString(iteration)), Entry("max_iterations", NatToString(maxIterations)),
                  Entry("completion_promise", "\"" + promise + "\""), NatToString(iteration), NatToString(maxIterations), promise, prompt);
    PromptOfThree(Entry("iteration", NatToString(iteration)), Entry("max_iterations", NatToString(maxIterations)),
                  Entry("completion_promise", "\"" + promise + "\""), prompt);
    NatToStringRoundTrip(iteration);
    NatToStringRoundTrip(maxIterations);
  }

  /** The first two lines of a joined header come first. */
  lemma JoinFront(f: string, a: string, tail: seq<string>)
    requires tail != []
    ensures Join([f, a] + tail, "\n") == f + "\n" + a + "\n" + Join(tail, "\n")
  {
    assert ([f, a] + tail)[1..] == [a] + tail;
    assert ([a] + tail)[1..] == tail;
  }

  /** Bumping a written state file writes the next iteration and changes
      nothing else. */
  lemma BumpState(iteration: nat, n: nat, maxIterations: nat, promise: string, prompt: string)
    ensures BumpIteration(StateText(iteration, maxIterations, promise, prompt), n)
      == StateText(n, maxIterations, promise, prompt)
  {
    var tail := [Entry("max_iterations", NatToString(maxIterations)), Entry("completion_promise", "\"" + promise + "\""), Fence];
    var rest := Join(tail, "\n") + "\n" + prompt;
    JoinFront(Fence, Entry("iteration", NatToString(iteration)), tail);
    JoinFront(Fence, Entry("iteration", NatToString(n)), tail);
    assert [Fence, Entry("iteration", NatToString(iteration))] + tail
      == [Fence, Entry("iteration", NatToString(iteration)), Entry("max_iterations", NatToString(maxIterations)),
          Entry("completion_promise", "\"" + promise + "\""), Fence];
    assert [Fence, Entry("iteration", NatToString(n))] + tail
      == [Fence, Entry("iteration", NatToString(n)), Entry("max_iterations", NatToString(maxIterations)),
          Entry("completion_promise", "\"" + promise + "\""), Fence];
    var j := Join(tail, "\n");
    var a := Entry("iteration", NatToString(iteration));
    var a' := Entry("iteration", NatToString(n));
    assert Fence + "\n" + a + "\n" + j + "\n" + prompt == Fence + "\n" + a + "\n" + rest;
    assert Fence + "\n" + a' + "\n" + j + "\n" + prompt == Fence + "\n" + a' + "\n" + rest;
    BumpSecondLine(NatToString(iteration), n, rest);
  }

  // ---------------------------------------------------------------------
  // The decision
  // ---------------------------------------------------------------------

  /** A content block of a transcript message. */
  datatype Part = TextPart(text: string) | OtherPart

  /** A transcript line: its raw text, and its message content when it is
      JSON. */
  datatype Line = Line(raw: string, content: Option<seq<Part>>)

  datatype Transcript = NoTranscript | UnreadableTranscript | Lines(lines: seq<Line>)

  datatype StateFile = NoState | UnreadableState | State(content: string)

  /** What the hook reads from its input: unparsable JSON, or the
      transcript path ("" when missing, as for empty input). */
  datatype HookInput = Unparsable | Input(transcriptPath: string)

  /** `Leave`: exit with nothing changed. `Finish`: the state file is
      removed and the session may end. `Iterate`: the state file is
      rewritten as `updated` and the session continues with `prompt`; the
      system message names `next` and the promise, if one is set. */
  datatype Action = Leave | Finish | Iterate(prompt: string, updated: string, next: nat, promise: Option<string>)

  /** A line the hook takes for an assistant message. */
  predicate IsAssistant(raw: string)
  {
    Contains(raw, "\"role\":\"assistant\"") || Contains(raw, "\"role\": \"assistant\"")
  }

  /** The last assistant line. */
  function LastAssistant(lines: seq<Line>): (r: Option<nat>)
    ensures r.Some? ==> r.value < |lines| && IsAssistant(lines[r.value].raw)
    ensures r.Some? ==> forall j :: r.value < j < |lines| ==> !IsAssistant(lines[j].raw)
    ensures r.None? <==> forall j :: 0 <= j < |lines| ==> !IsAssistant(lines[j].raw)
  {
    if lines == [] then None
    else if IsAssistant(lines[|lines| - 1].raw) then Some(|lines| - 1)
    else
      var r := LastAssistant(lines[..|lines| - 1]);
      assert forall j :: 0 <= j < |lines| - 1 ==> lines[..|lines| - 1][j] == lines[j];
      r
  }

  /** The texts of the text blocks, in order. */
  function Texts(parts: seq<Part>): (r: seq<string>)
  {
    if parts == [] then []
    else (if parts[0].TextPart? then [parts[0].text] else []) + Texts(parts[1..])
  }

  /** The text of the last assistant message: none when the transcript is
      unusable, has no assistant line or that line is not JSON. */
  function LastOutput(t: Transcript): (r: Option<string>)
    ensures r.Some? ==> t.Lines? && LastAssistant(t.lines).Some?
  {
    if !t.Lines? then None
    else
      var i := LastAssistant(t.lines);
      if i.None? || t.lines[i.value].content.None? then None
      else Some(Join(Texts(t.lines[i.value].content.value), "\n"))
  }

  /** The last message states the promise. */
  predicate Kept(promise: Option<string>, output: string)
  {
    promise.Some? && ExtractPromiseText(output) != [] && ExtractPromiseText(output) == promise.value
  }

  /** The hook. */
  function Decide(input: HookInput, state: StateFile, t: Transcript): (r: Action)
    ensures r.Leave? <==> input.Unparsable? || !state.State?
    ensures r.Iterate? ==> Counter(ParseFrontmatter(state.content), "iteration").Some?
    ensures r.Iterate? ==> Counter(ParseFrontmatter(state.content), "max_iterations").Some?
    ensures r.Iterate? ==> !LimitReached(Counter(ParseFrontmatter(state.content), "iteration").value,
      Counter(ParseFrontmatter(state.content), "max_iterations").value)
    ensures r.Iterate? ==> r.next == Counter(ParseFrontmatter(state.content), "iteration").value + 1
    ensures r.Iterate? ==> r.updated == BumpIteration(state.content, r.next)
    ensures r.Iterate? ==> r.prompt == ExtractPrompt(state.content) && !IsBlank(r.prompt)
    ensures r.Iterate? ==> input.transcriptPath != [] && LastOutput(t).Some? && LastOutput(t).value != []
    ensures r.Iterate? ==> r.promise == Promise(ParseFrontmatter(state.content)) && !Kept(r.promise, LastOutput(t).value)
  {
    if input.Unparsable? || !state.State? then Leave
    else
      var fm := ParseFrontmatter(state.content);
      var iteration := Counter(fm, "iteration");
      var maxIterations := Counter(fm, "max_iterations");
      if iteration.None? || maxIterations.None? then Finish
      else if LimitReached(iteration.value, maxIterations.value) then Finish
      else if input.transcriptPath == [] then Finish
      else
        var output := LastOutput(t);
        if output.None? || output.value == [] then Finish
        else if Kept(Promise(fm), output.value) then Finish
        else
          var prompt := ExtractPrompt(state.content);
          if IsBlank(prompt) then Finish
          else Iterate(prompt, BumpIteration(state.content, iteration.value + 1), iteration.value + 1, Promise(fm))
  }

  /** The other direction: with usable state and transcript, a count below
      the limit (any count when the maximum is 0), a prompt and no kept
      promise, the loop goes on. */
  lemma ContinuesWhen(path: string, content: string, t: Transcript)
    requires path != []
    requires Counter(ParseFrontmatter(content), "iteration").Some? && Counter(ParseFrontmatter(content), "max_iterations").Some?
    requires !LimitReached(Counter(ParseFrontmatter(content), "iteration").value, Counter(ParseFrontmatter(content), "max_iterations").value)
    requires LastOutput(t).Some? && LastOutput(t).value != []
    requires !Kept(Promise(ParseFrontmatter(content)), LastOutput(t).value)
    requires !IsBlank(ExtractPrompt(content))
    ensures Decide(Input(path), State(content), t).Iterate?
  {
  }

  /** The promise a written state file carries. */
  function PromiseOf(promise: string): (r: Option<string>)
    ensures r.Some? <==> promise != [] && promise != "null"
    ensures r.Some? ==> r.value == promise
  {
    if promise == [] || promise == "null" then None else Some(promise)
  }

  /** The decision on a state file whose counters and prompt are known,
      at the limit. */
  lemma DecideAtLimit(path: string, content: string, t: Transcript, iteration: nat, maxIterations: nat)
    requires Counter(ParseFrontmatter(content), "iteration") == Some(iteration)
    requires Counter(ParseFrontmatter(content), "max_iterations") == Some(maxIterations)
    requires LimitReached(iteration, maxIterations)
    ensures Decide(Input(path), State(content), t) == Finish
  {
  }

  /** ... and below it. */
  lemma DecideBelowLimit(path: string, content: string, t: Transcript, iteration: nat, maxIterations: nat, promise: Option<string>, prompt: string)
    requires path != [] && LastOutput(t).Some? && LastOutput(t).value != [] && !IsBlank(prompt)
    requires Counter(ParseFrontmatter(content), "iteration") == Some(iteration)
    requires Counter(ParseFrontmatter(content), "max_iterations") == Some(maxIterations)
    requires Promise(ParseFrontmatter(content)) == promise && !Kept(promise, LastOutput(t).value)
    requires ExtractPrompt(content) == prompt
    requires !LimitReached(iteration, maxIterations)
    ensures Decide(Input(path), State(content), t) == Iterate(prompt, BumpIteration(content, iteration + 1), iteration + 1, promise)
  {
    ContinuesWhen(path, content, t);
  }

  /** At the limit, a written state file finishes the loop. */
  lemma LimitStops(path: string, iteration: nat, maxIterations: nat, promise: string, prompt: string, t: Transcript)
    requires '\n' !in promise
    requires LimitReached(iteration, maxIterations)
    ensures Decide(Input(path), State(StateText(iteration, maxIterations, promise, prompt)), t) == Finish
  {
    StateReadsBack(iteration, maxIterations, promise, prompt);
    DecideAtLimit(path, StateText(iteration, maxIterations, promise, prompt), t, iteration, maxIterations);
  }

  /** One turn of the loop on a written state file below the limit: it
      goes on with the prompt and the next iteration written back. */
  lemma LoopTurn(path: string, iteration: nat, maxIterations: nat, promise: string, prompt: string, t: Transcript)
    requires '\n' !in promise && path != []
    requires LastOutput(t).Some? && LastOutput(t).value != []
    requires !IsBlank(prompt)
    requires promise == [] || promise == "null" || ExtractPromiseText(LastOutput(t).value) != promise
    requires !LimitReached(iteration, maxIterations)
    ensures Decide(Input(path), State(StateText(iteration, maxIterations, promise, prompt)), t)
      == Iterate(prompt, StateText(iteration + 1, maxIterations, promise, prompt), iteration + 1, PromiseOf(promise))
  {
    var content := StateText(iteration, maxIterations, promise, prompt);
    StateReadsBack(iteration, maxIterations, promise, prompt);
    BumpState(iteration, iteration + 1, maxIterations, promise, prompt);
    assert Promise(ParseFrontmatter(content)) == PromiseOf(promise);
    DecideBelowLimit(path, content, t, iteration, maxIterations, PromiseOf(promise), prompt);
  }

  /** The promise, stated in the last message, finishes the loop. */
  lemma PromiseFinishes(path: string, content: string, t: Transcript)
    requires path != []
    requires Counter(ParseFrontmatter(content), "iteration").Some? && Counter(ParseFrontmatter(content), "max_iterations").Some?
    requires LastOutput(t).Some? && LastOutput(t).value != []
    requires Kept(Promise(ParseFrontmatter(content)), LastOutput(t).value)
    ensures Decide(Input(path), State(content), t) == Finish
  {
  }
}
