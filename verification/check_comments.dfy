/** The post-edit hook that warns about comment-heavy code: for a Write,
    Edit or MultiEdit of a file in a known language it counts the non-blank
    lines and the comment lines of the new text and, when comments make up
    more than a quarter of them and some comment is not of an exempt kind,
    lists up to ten of those comments. */
module CheckComments {
  import opened Common
  import opened Strings

  /** The comment prefixes of each extension. The `.R` entry is never
      consulted: extensions are lower-cased before the lookup, and `.r`
      has the same prefixes. */
  const CommentPatterns: map<string, seq<string>> := map[
    ".ts" := ["//", "/*", "*/", "*"],
    ".tsx" := ["//", "/*", "*/", "*"],
    ".js" := ["//", "/*", "*/", "*"],
    ".jsx" := ["//", "/*", "*/", "*"],
    ".py" := ["#", "\"\"\"", "'''"],
    ".go" := ["//", "/*", "*/"],
    ".rs" := ["//", "/*", "*/"],
    ".java" := ["//", "/*", "*/", "*"],
    ".cpp" := ["//", "/*", "*/"],
    ".c" := ["//", "/*", "*/"],
    ".sol" := ["//", "/*", "*/"],
    ".r" := ["#"],
    ".R" := ["#"]]

  /** How many flagged comments the warning lists. */
  const MaxListed := 10

  /** How much of a flagged line the warning shows. */
  const PreviewWidth := 80

  // ---------------------------------------------------------------------
  // The file and the new text
  // ---------------------------------------------------------------------

  /** `os.path.splitext(path)[1]` for `/`-separated paths: the last
      component's text from its last dot, unless only dots precede that
      dot in the component. */
  function Extension(path: string): (r: string)
    ensures r == [] || (r[0] == '.' && EndsWith(path, r) && '/' !in r && '.' !in r[1..])
  {
    var dot := LastIndex(path, '.');
    var sep := LastIndex(path, '/');
    var start := if sep.Some? then sep.value + 1 else 0;
    if dot.Some? && start <= dot.value && exists j :: start <= j < dot.value && path[j] != '.' then
      var r := path[dot.value..];
      assert forall k :: 0 <= k < |r| ==> r[k] == path[dot.value + k];
      r
    else ""
  }

  /** A file name with a dot-free suffix has that suffix as its
      extension. */
  lemma ExtensionOfName(name: string, e: string)
    requires name != [] && name[0] != '.' && '/' !in name
    requires '.' !in e && '/' !in e
    ensures Extension(name + "." + e) == "." + e
  {
    var path := name + "." + e;
    assert path[|name|] == '.';
    assert forall j :: |name| < j < |path| ==> path[j] == e[j - |name| - 1];
    assert forall j :: 0 <= j < |name| ==> path[j] == name[j];
    assert LastIndex(path, '.') == Some(|name|);
    assert LastIndex(path, '/').None?;
    assert path[0] != '.';
    assert path[|name|..] == "." + e;
  }

  /** A dot file has no extension. */
  lemma DotFileHasNoExtension(e: string)
    requires '.' !in e && '/' !in e
    ensures Extension("." + e) == ""
  {
    var path := "." + e;
    forall j | 0 < j < |path| ensures path[j] != '.' {
      assert path[j] == e[j - 1] && e[j - 1] in e;
    }
    assert path[0] == '.';
    assert LastIndex(path, '.') == Some(0);
  }

  /** What the hook reads from a tool call: the path and the new text of
      the three editing tools; every other tool is ignored. A missing
      `new_string` of a MultiEdit edit reads as "". */
  datatype ToolCall =
    | WriteCall(path: Option<string>, content: Option<string>)
    | EditCall(path: Option<string>, newString: Option<string>)
    | MultiEditCall(path: Option<string>, edits: seq<string>)
    | OtherCall(name: string)

  /** The path and text to check, when both are present and not empty. */
  function Target(call: ToolCall): (r: Option<(string, string)>)
    ensures call.OtherCall? ==> r.None?
    ensures r.Some? ==> r.value.0 != [] && r.value.1 != []
    ensures r.Some? ==> call.path == Some(r.value.0)
    ensures r.Some? && call.MultiEditCall? ==> r.value.1 == Join(call.edits, "\n")
    ensures r.Some? && call.WriteCall? ==> call.content == Some(r.value.1)
    ensures r.Some? && call.EditCall? ==> call.newString == Some(r.value.1)
    ensures !call.OtherCall? && call.path.Some? && call.path.value != [] ==>
      (r.Some? <==> match call
        case WriteCall(_, c) => c.Some? && c.value != []
        case EditCall(_, c) => c.Some? && c.value != []
        case MultiEditCall(_, es) => Join(es, "\n") != []
        case OtherCall(_) => false)
  {
    var content :=
      match call
      case WriteCall(_, c) => c
      case EditCall(_, c) => c
      case MultiEditCall(_, es) => Some(Join(es, "\n"))
      case OtherCall(_) => None;
    if call.OtherCall? || call.path.None? || call.path.value == [] || content.None? || content.value == [] then None
    else Some((call.path.value, content.value))
  }

  // ---------------------------------------------------------------------
  // Classifying lines
  // ---------------------------------------------------------------------

  /** The stripped line starts with one of the language's prefixes. */
  predicate IsComment(trimmed: string, prefixes: seq<string>)
  {
    exists p :: p in prefixes && StartsWith(trimmed, p)
  }

  /** `^\s*///` */
  predicate DocComment(t: string) { OccursAt(t, "///", SpaceRunFrom(t, 0)) }

  /** `^\s*\*\s*@` */
  predicate DocTag(t: string)
  {
    var k := SpaceRunFrom(t, 0);
    k < |t| && t[k] == '*' && OccursAt(t, "@", SpaceRunFrom(t, k + 1))
  }

  /** `#\s*(given|when|then)` */
  predicate BddStep(t: string)
  {
    exists i :: 0 <= i < |t| && t[i] == '#' &&
      (OccursAt(t, "given", SpaceRunFrom(t, i + 1)) || OccursAt(t, "when", SpaceRunFrom(t, i + 1))
       || OccursAt(t, "then", SpaceRunFrom(t, i + 1)))
  }

  /** `type:\s*ignore` */
  predicate TypeIgnore(t: string)
  {
    exists i :: 0 <= i && i + 5 <= |t| && OccursAt(t, "type:", i) && OccursAt(t, "ignore", SpaceRunFrom(t, i + 5))
  }

  /** The exempt patterns that are plain words; `region|endregion` is the
      word `region`, which `endregion` contains. */
  const ExemptWords: seq<string> :=
    ["TODO", "FIXME", "HACK", "XXX", "@ts-expect-error", "eslint-disable", "pragma", "region", "noqa", "pylint:"]

  /** Some exempt pattern is found in the stripped comment (case
      sensitive). */
  predicate IsExempt(t: string)
  {
    DocComment(t) || DocTag(t) || BddStep(t) || TypeIgnore(t) || exists w :: w in ExemptWords && Contains(t, w)
  }

  /** The list entry of flagged line `n`. */
  function FlagEntry(n: nat, trimmed: string): (r: string)
    ensures '\n' !in trimmed ==> '\n' !in r
  {
    var r := "  Line " + NatToString(n) + ": " + Take(trimmed, PreviewWidth);
    assert '\n' !in trimmed ==> '\n' !in Take(trimmed, PreviewWidth);
    assert forall k :: 0 <= k < |NatToString(n)| ==> NatToString(n)[k] != '\n';
    r
  }

  predicate CountsAsLine(line: string) { !IsBlank(line) }

  predicate CommentLine(line: string, prefixes: seq<string>)
  {
    !IsBlank(line) && IsComment(Strip(line), prefixes)
  }

  predicate FlaggedLine(line: string, prefixes: seq<string>)
  {
    CommentLine(line, prefixes) && !IsExempt(Strip(line))
  }

  /** The number of non-blank lines. */
  function Total(lines: seq<string>): (n: nat)
    ensures n <= |lines|
  {
    if lines == [] then 0 else Total(lines[..|lines| - 1]) + (if CountsAsLine(lines[|lines| - 1]) then 1 else 0)
  }

  /** The number of comment lines. */
  function Comments(lines: seq<string>, prefixes: seq<string>): (n: nat)
    ensures n <= Total(lines)
  {
    if lines == [] then 0
    else Comments(lines[..|lines| - 1], prefixes) + (if CommentLine(lines[|lines| - 1], prefixes) then 1 else 0)
  }

  /** The entries of the comments no exempt pattern covers, numbered
      from 1 and in line order. */
  function Flagged(lines: seq<string>, prefixes: seq<string>): (r: seq<string>)
    ensures |r| <= Comments(lines, prefixes)
    ensures (forall k :: 0 <= k < |lines| ==> '\n' !in lines[k]) ==> forall k :: 0 <= k < |r| ==> '\n' !in r[k]
    ensures forall k :: 0 <= k < |r| ==>
      exists j :: 0 <= j < |lines| && FlaggedLine(lines[j], prefixes) && r[k] == FlagEntry(j + 1, Strip(lines[j]))
  {
    if lines == [] then []
    else
      var last := lines[|lines| - 1];
      var init := lines[..|lines| - 1];
      var rest := Flagged(init, prefixes);
      assert forall k :: 0 <= k < |init| ==> init[k] == lines[k];
      assert '\n' !in last ==> '\n' !in Strip(last);
      rest + if FlaggedLine(last, prefixes) then [FlagEntry(|lines|, Strip(last))] else []
  }

  /** The counting loop: it keeps the three tallies over the lines seen so
      far. */
  method TallyLines(lines: seq<string>, prefixes: seq<string>) returns (total: nat, comments: nat, flagged: seq<string>)
    ensures total == Total(lines) && comments == Comments(lines, prefixes) && flagged == Flagged(lines, prefixes)
  {
    total, comments, flagged := 0, 0, [];
    var i := 0;
    while i < |lines|
      invariant i <= |lines|
      invariant total == Total(lines[..i]) && comments == Comments(lines[..i], prefixes)
      invariant flagged == Flagged(lines[..i], prefixes)
    {
      var trimmed := Strip(lines[i]);
      TallyStep(lines, prefixes, i);
      if trimmed != [] {
        total := total + 1;
        if IsComment(trimmed, prefixes) {
          comments := comments + 1;
          if !IsExempt(trimmed) {
            flagged := flagged + [FlagEntry(i + 1, trimmed)];
          }
        }
      }
      i := i + 1;
    }
    assert lines[..|lines|] == lines;
  }

  lemma TallyStep(lines: seq<string>, prefixes: seq<string>, i: nat)
    requires i < |lines|
    ensures Total(lines[..i + 1]) == Total(lines[..i]) + (if CountsAsLine(lines[i]) then 1 else 0)
    ensures Comments(lines[..i + 1], prefixes) == Comments(lines[..i], prefixes) + (if CommentLine(lines[i], prefixes) then 1 else 0)
    ensures Flagged(lines[..i + 1], prefixes) ==
      Flagged(lines[..i], prefixes) + if FlaggedLine(lines[i], prefixes) then [FlagEntry(i + 1, Strip(lines[i]))] else []
  {
    assert lines[..i + 1][..i] == lines[..i];
  }

  /** Blank lines at the end change nothing. */
  lemma TrailingBlankLinesIgnored(lines: seq<string>, prefixes: seq<string>, blank: string)
    requires IsBlank(blank)
    ensures Total(lines + [blank]) == Total(lines)
    ensures Comments(lines + [blank], prefixes) == Comments(lines, prefixes)
    ensures Flagged(lines + [blank], prefixes) == Flagged(lines, prefixes)
  {
    assert (lines + [blank])[..|lines|] == lines;
  }

  // ---------------------------------------------------------------------
  // The warning
  // ---------------------------------------------------------------------

  /** The listed flagged comments: the first ten, and a count of the rest
      when there are more. */
  function FlaggedList(flagged: seq<string>): string
  {
    Join(Take(flagged, MaxListed), "\n")
    + if |flagged| > MaxListed then "\n" + MoreText(|flagged| - MaxListed) else ""
  }

  /** The line that counts the comments left off the list. */
  function MoreText(n: nat): string
  {
    "  ... and " + NatToString(n) + " more"
  }

  function MoreLine(flagged: seq<string>): seq<string>
  {
    if |flagged| > MaxListed then [MoreText(|flagged| - MaxListed)] else []
  }

  lemma JoinSnoc(parts: seq<string>, x: string, sep: string)
    requires parts != []
    ensures Join(parts + [x], sep) == Join(parts, sep) + sep + x
    decreases |parts|
  {
    if |parts| == 1 {
      assert (parts + [x])[1..] == [x];
    } else {
      JoinSnoc(parts[1..], x, sep);
      assert (parts + [x])[1..] == parts[1..] + [x];
    }
  }

  /** Read line by line, the list is the first ten entries, then the
      count of the others when there are more than ten. */
  lemma FlaggedListLines(flagged: seq<string>)
    requires flagged != [] && forall k :: 0 <= k < |flagged| ==> '\n' !in flagged[k]
    ensures Split(FlaggedList(flagged), '\n') == Take(flagged, MaxListed) + MoreLine(flagged)
  {
    var shown := Take(flagged, MaxListed);
    assert forall k :: 0 <= k < |shown| ==> '\n' !in shown[k] by {
      assert forall k :: 0 <= k < |shown| ==> shown[k] == flagged[k];
    }
    if |flagged| > MaxListed {
      ListWithMore(flagged, shown);
    } else {
      assert FlaggedList(flagged) == Join(shown, "\n");
      assert shown + MoreLine(flagged) == shown;
      JoinSplit(shown, '\n');
    }
  }

  lemma ListWithMore(flagged: seq<string>, shown: seq<string>)
    requires |flagged| > MaxListed && shown == Take(flagged, MaxListed)
    requires forall k :: 0 <= k < |shown| ==> '\n' !in shown[k]
    ensures Split(FlaggedList(flagged), '\n') == shown + MoreLine(flagged)
  {
    var more := MoreText(|flagged| - MaxListed);
    JoinSnoc(shown, more, "\n");
    var parts := shown + [more];
    assert MoreLine(flagged) == [more];
    assert FlaggedList(flagged) == Join(shown, "\n") + "\n" + more;
    assert forall k :: 0 <= k < |parts| ==> '\n' !in parts[k] by {
      assert forall k :: 0 <= k < |shown| ==> parts[k] == shown[k];
    }
    JoinSplit(parts, '\n');
  }

  /** What the hook reports: the comment and line counts (from which the
      printed percentage is formed) and the list of flagged comments. */
  datatype Warning = Warning(comments: nat, total: nat, listed: string)

  /** `comments / total > 0.25`. For line counts below 2^53 the division
      in floating point is above 0.25 exactly when the rational quotient
      is. */
  predicate AboveThreshold(comments: nat, total: nat) { total > 0 && 4 * comments > total }

  /** The comment prefixes of the file's language, if it is known. */
  function PrefixesFor(path: string): (r: Option<seq<string>>)
    ensures r.Some? <==> Lower(Extension(path)) in CommentPatterns
  {
    var ext := Lower(Extension(path));
    if ext in CommentPatterns then Some(CommentPatterns[ext]) else None
  }

  /** The flagged comments of a text. */
  function FlaggedIn(text: string, prefixes: seq<string>): seq<string>
  {
    Flagged(Split(text, '\n'), prefixes)
  }

  /** More than a quarter of the non-blank lines are comments, and some
      comment is flagged. */
  predicate Warns(text: string, prefixes: seq<string>)
  {
    AboveThreshold(Comments(Split(text, '\n'), prefixes), Total(Split(text, '\n'))) && FlaggedIn(text, prefixes) != []
  }

  /** The hook on one tool call: a warning exactly when the call edits a
      file of a known language with non-empty text, more than a quarter of
      its non-blank lines are comments and some comment is flagged. */
  function Check(call: ToolCall): (r: Option<Warning>)
    ensures r.Some? <==> (Target(call).Some? && PrefixesFor(Target(call).value.0).Some?
                          && Warns(Target(call).value.1, PrefixesFor(Target(call).value.0).value))
    ensures r.Some? ==> r.value.comments <= r.value.total && r.value.total > 0
    ensures r.Some? ==>
      var lines := Split(Target(call).value.1, '\n');
      r.value.comments == Comments(lines, PrefixesFor(Target(call).value.0).value)
      && r.value.total == Total(lines)
  {
    var t := Target(call);
    if t.None? then None
    else
      var prefixes := PrefixesFor(t.value.0);
      if prefixes.None? then None
      else
        var lines := Split(t.value.1, '\n');
        var total := Total(lines);
        var comments := Comments(lines, prefixes.value);
        var flagged := Flagged(lines, prefixes.value);
        if total == 0 then None
        else if AboveThreshold(comments, total) && flagged != [] then Some(Warning(comments, total, FlaggedList(flagged)))
        else None
  }

  /** The warning lists the first ten flagged comments of the text, one per
      line, then the count of the others. */
  lemma WarningLists(call: ToolCall)
    requires Check(call).Some?
    ensures Split(Check(call).value.listed, '\n') ==
      Take(FlaggedIn(Target(call).value.1, PrefixesFor(Target(call).value.0).value), MaxListed)
      + MoreLine(FlaggedIn(Target(call).value.1, PrefixesFor(Target(call).value.0).value))
  {
    var t := Target(call).value;
    FlaggedListLines(FlaggedIn(t.1, PrefixesFor(t.0).value));
  }
}
