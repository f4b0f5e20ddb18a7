/** Clean-up of tables taken from presentation-style PDFs: leading columns
    of RGB colour components left behind by design elements, label
    fragments that the table finder split into columns of their own, and
    rows left blank by both. */
module Artifacts {
  import opened Common
  import opened Strings
  import opened Cells

  // ---------------------------------------------------------------------
  // is_rgb_artifact
  // ---------------------------------------------------------------------

  /** One colour component: ASCII digits worth at most 255. */
  predicate IsChannel(t: string) { IsDigitString(t) && DigitsValue(t) <= 255 }

  /** The cell text with whitespace and trailing commas trimmed. */
  function RgbText(s: string): string { Strip(RStripSet(Strip(s), {','})) }

  /** `is_rgb_artifact(cell)`: an absent or blank cell, or one whose pieces
      between commas and whitespace are all colour components. */
  predicate IsRgbArtifact(c: Cell)
  {
    c.None? || (var s := RgbText(c.value); s == [] || forall t :: t in Tokens(s, true) ==> IsChannel(t))
  }

  /** When every token is made of digits, so is every non-separator. */
  lemma {:induction false} DigitTokens(s: string)
    requires forall t :: t in Tokens(s, true) ==> AllDigits(t)
    ensures forall i :: 0 <= i < |s| ==> IsSep(s[i], true) || IsDigit(s[i])
    decreases |s|
  {
    var t := SkipSeps(s, true);
    if t != [] {
      var w := TakeToken(t, true);
      assert Tokens(s, true) == [w] + Tokens(t[|w|..], true);
      assert w in Tokens(s, true);
      assert forall u :: u in Tokens(t[|w|..], true) ==> u in Tokens(s, true);
      DigitTokens(t[|w|..]);
      forall i | 0 <= i < |s| ensures IsSep(s[i], true) || IsDigit(s[i]) {
        var k := |s| - |t|;
        if i >= k + |w| {
          assert s[i] == t[|w|..][i - k - |w|];
        } else if i >= k {
          assert s[i] == w[i - k];
        }
      }
    }
  }

  /** The characters an RGB artifact may hold. */
  predicate IsRgbChar(c: char) { IsDigit(c) || c == ',' || IsSpace(c) }

  predicate AllRgbChars(s: string) { forall i :: 0 <= i < |s| ==> IsRgbChar(s[i]) }

  /** Stripping whitespace only removes characters an artifact may hold. */
  lemma RgbCharsUnstrip(s: string)
    requires AllRgbChars(Strip(s))
    ensures AllRgbChars(s)
  {
    var k, e := StripStart(s), StripEnd(s);
    forall i | 0 <= i < |s| ensures IsRgbChar(s[i]) {
      if k <= i < e {
        assert s[i] == Strip(s)[i - k];
      }
    }
  }

  /** So does trimming trailing commas. */
  lemma RgbCharsUntrimCommas(s: string)
    requires AllRgbChars(RStripSet(s, {','}))
    ensures AllRgbChars(s)
  {
    var e := TrailBegin(s, {','}, |s|);
    forall i | 0 <= i < |s| ensures IsRgbChar(s[i]) {
      if i < e {
        assert s[i] == RStripSet(s, {','})[i];
      }
    }
  }

  /** An RGB artifact holds nothing but digits, commas and whitespace. */
  lemma RgbArtifactCharset(x: string)
    requires IsRgbArtifact(Some(x))
    ensures forall i :: 0 <= i < |x| ==> IsDigit(x[i]) || x[i] == ',' || IsSpace(x[i])
  {
    var b := RStripSet(Strip(x), {','});
    var s := Strip(b);
    if s != [] {
      assert forall t :: t in Tokens(s, true) ==> AllDigits(t);
      DigitTokens(s);
    }
    assert AllRgbChars(s);
    RgbCharsUnstrip(b);
    RgbCharsUntrimCommas(Strip(x));
    RgbCharsUnstrip(x);
    assert AllRgbChars(x);
  }

  /** A text without separators is one whole token. */
  lemma TakeTokenWhole(s: string, comma: bool)
    requires forall i :: 0 <= i < |s| ==> !IsSep(s[i], comma)
    ensures TakeToken(s, comma) == s
  {
    if s != [] { TakeTokenWhole(s[1..], comma); }
  }

  /** A lone component such as `128` is an artifact. */
  lemma ChannelIsArtifact(d: string)
    requires IsChannel(d)
    ensures IsRgbArtifact(Some(d))
  {
    StripOfStripped(d);
    assert TrailBegin(d, {','}, |d|) == |d|;
    assert RStripSet(d, {','}) == d;
    assert SkipSeps(d, true) == d;
    TakeTokenWhole(d, true);
    assert Tokens(d, true) == [d] by {
      assert d[|d|..] == [];
    }
  }

  // ---------------------------------------------------------------------
  // detect_artifact_columns
  // ---------------------------------------------------------------------

  /** How many rows have a filled cell in column `c`. */
  function FilledCount(t: Table, c: nat): (n: nat)
  {
    if t == [] then 0 else (if Filled(CellAt(t[0], c)) then 1 else 0) + FilledCount(t[1..], c)
  }

  /** How many of those cells are colour components. */
  function ArtifactCount(t: Table, c: nat): (n: nat)
  {
    if t == [] then 0
    else (if Filled(CellAt(t[0], c)) && IsRgbArtifact(CellAt(t[0], c)) then 1 else 0) + ArtifactCount(t[1..], c)
  }

  /** A column whose filled cells are (more than 70%) colour components,
      or which has no filled cell at all. */
  predicate IsArtifactColumn(t: Table, c: nat)
  {
    var n := FilledCount(t, c);
    n == 0 || 10 * ArtifactCount(t, c) > 7 * n
  }

  function LeadingArtifacts(t: Table, c: nat, w: nat): (r: nat)
    requires c <= w
    ensures c <= r <= w
    ensures forall j :: c <= j < r ==> IsArtifactColumn(t, j)
    ensures r < w ==> !IsArtifactColumn(t, r)
    decreases w - c
  {
    if c < w && IsArtifactColumn(t, c) then LeadingArtifacts(t, c + 1, w) else c
  }

  /** `detect_artifact_columns(table)`: the number of leading artifact
      columns, i.e. the longest run of them starting at column 0. */
  function DetectArtifactColumns(t: Table): (r: nat)
    ensures t == [] ==> r == 0
    ensures r <= MaxWidth(t)
    ensures forall j :: 0 <= j < r ==> IsArtifactColumn(t, j)
    ensures r < MaxWidth(t) ==> !IsArtifactColumn(t, r)
  {
    if t == [] then 0 else LeadingArtifacts(t, 0, MaxWidth(t))
  }

  // ---------------------------------------------------------------------
  // is_financial_cell
  // ---------------------------------------------------------------------

  /** `[\s($]`: what may precede the first digit. */
  predicate IsLeadChar(c: char) { IsSpace(c) || c == '(' || c == '$' }

  /** `[\d,.\s]`: what may follow it. */
  predicate IsBodyChar(c: char) { IsDigit(c) || c == ',' || c == '.' || IsSpace(c) }

  /** `FINANCIAL_CELL.match(s)`, i.e. `^[\s($]*\d[\d,.\s]*[)%]?$`. No
      character class overlaps the next element, so the match is decided
      by greedy scanning. */
  predicate FinancialShape(s: string)
  {
    var k := |TakeWhile(s, IsLeadChar)|;
    k < |s| && IsDigit(s[k]) &&
    var rest := s[k + 1..];
    var m := |TakeWhile(rest, IsBodyChar)|;
    m == |rest| || (m + 1 == |rest| && (rest[m] == ')' || rest[m] == '%'))
  }

  /** `is_financial_cell(v)` on text. */
  predicate IsFinancialText(v: string)
  {
    var s := Strip(v);
    s != [] && FinancialShape(s)
  }

  /** A financial cell holds a digit and nothing but digits, separators,
      whitespace, parentheses, `$` and `%`; in particular no letter. */
  lemma FinancialCharset(s: string)
    requires FinancialShape(s)
    ensures HasDigit(s)
    ensures forall i :: 0 <= i < |s| ==> IsLeadChar(s[i]) || IsBodyChar(s[i]) || s[i] == ')' || s[i] == '%'
  {
    var k := |TakeWhile(s, IsLeadChar)|;
    var rest := s[k + 1..];
    var m := |TakeWhile(rest, IsBodyChar)|;
    forall i | 0 <= i < |s| ensures IsLeadChar(s[i]) || IsBodyChar(s[i]) || s[i] == ')' || s[i] == '%' {
      if i < k {
        assert TakeWhile(s, IsLeadChar)[i] == s[i];
      } else if k + 1 <= i < k + 1 + m {
        assert TakeWhile(rest, IsBodyChar)[i - k - 1] == rest[i - k - 1] == s[i];
      } else if i > k {
        assert rest[m] == s[i];
      }
    }
  }

  /** A bare number such as `1234` is financial. */
  lemma DigitsAreFinancial(d: string)
    requires IsDigitString(d)
    ensures FinancialShape(d)
  {
    assert TakeWhile(d, IsLeadChar) == [];
    var rest := d[1..];
    var m := |TakeWhile(rest, IsBodyChar)|;
    if m < |rest| {
      assert IsBodyChar(rest[m]);
    }
  }

  // ---------------------------------------------------------------------
  // detect_continuation_columns
  // ---------------------------------------------------------------------

  /** How many rows show text in column `c`. */
  function TextCount(t: Table, c: nat): (n: nat)
  {
    if t == [] then 0 else (if CellText(CellAt(t[0], c)) != [] then 1 else 0) + TextCount(t[1..], c)
  }

  /** Some row shows a financial value in column `c`. */
  predicate HasFinancial(t: Table, c: nat)
  {
    exists i :: 0 <= i < |t| && IsFinancialText(CellText(CellAt(t[i], c)))
  }

  /** A label-fragment column: some text, no financial value, and blank in
      more than half of the rows (`1 - filled / rows > 0.5`). */
  predicate IsContinuationColumn(t: Table, c: nat)
  {
    var n := TextCount(t, c);
    n > 0 && !HasFinancial(t, c) && 2 * n < |t|
  }

  /** `detect_continuation_columns(table)`: every column after the first
      that qualifies. */
  function DetectContinuationColumns(t: Table): (r: set<nat>)
    ensures forall c :: c in r ==> 1 <= c < MaxWidth(t) && IsContinuationColumn(t, c)
    ensures forall c :: 1 <= c < MaxWidth(t) && IsContinuationColumn(t, c) ==> c in r
  {
    set c: nat | 1 <= c < MaxWidth(t) && IsContinuationColumn(t, c)
  }

  /** A column showing a financial value in any row is never merged away. */
  lemma NumbersAreNeverMerged(t: Table, c: nat, i: nat)
    requires i < |t| && IsFinancialText(CellText(CellAt(t[i], c)))
    ensures c !in DetectContinuationColumns(t)
  {
  }

  /** A column filled in at least half of the rows is never merged away. */
  lemma BusyColumnsAreNeverMerged(t: Table, c: nat)
    requires 2 * TextCount(t, c) >= |t|
    ensures c !in DetectContinuationColumns(t)
  {
  }

  // ---------------------------------------------------------------------
  // merge_columns
  // ---------------------------------------------------------------------

  /** Appending a fragment to a label: glued on when a word was split
      (letter followed by a lower-case letter), otherwise after a space. */
  function Combine(curr: Cell, addition: Cell): (r: Cell)
    ensures !Filled(addition) ==> r == curr
    ensures Filled(addition) && !Filled(curr) ==> r == Some(CellText(addition))
  {
    var c := CellText(curr);
    var a := CellText(addition);
    if c != [] && a != [] then
      Some(if IsAlpha(c[|c| - 1]) && IsLower(a[0]) then c + a else c + " " + a)
    else if a != [] then Some(a)
    else curr
  }

  /** A word split over two cells is glued back together. */
  lemma GluesSplitWord(x: string, y: string)
    requires x != [] && Strip(x) == x && IsAlpha(x[|x| - 1])
    requires y != [] && Strip(y) == y && IsLower(y[0])
    ensures Combine(Some(x), Some(y)) == Some(x + y)
  {
  }

  /** Any other fragment is appended after a single space. */
  lemma SpacesOtherFragments(x: string, y: string)
    requires x != [] && Strip(x) == x && y != [] && Strip(y) == y
    requires !IsAlpha(x[|x| - 1]) || !IsLower(y[0])
    ensures Combine(Some(x), Some(y)) == Some(x + " " + y)
  {
  }

  /** The column a continuation column at `t + 1` is merged into: the
      nearest column to its left that is not itself a continuation, or
      column 0. */
  function Target(cols: set<nat>, t: nat): (r: nat)
    ensures r <= t
    ensures r == 0 || r !in cols
    ensures forall j :: r < j <= t ==> j in cols
  {
    if t in cols && t > 0 then Target(cols, t - 1) else t
  }

  /** One turn of the source's loop: column `c` is appended to its target
      and then blanked. */
  function MergeStep(row: Row, cols: set<nat>, c: nat): (r: Row)
    requires 1 <= c < |row|
    ensures |r| == |row|
  {
    var t := Target(cols, c - 1);
    row[t := Combine(row[t], row[c])][c := Some("")]
  }

  /** The row after the loop has visited column `c`: merged when `c` is a
      continuation column other than column 0, unchanged otherwise. */
  function Turn(row: Row, cols: set<nat>, c: nat): (r: Row)
    requires c < |row|
    ensures |r| == |row|
  {
    if c in cols && c >= 1 then MergeStep(row, cols, c) else row
  }

  /** The loop over `sorted(merge_cols)` from column `c` on; columns past
      the row's end and column 0 are skipped as in the source. */
  function MergeFrom(row: Row, cols: set<nat>, c: nat): (r: Row)
    ensures |r| == |row|
    decreases |row| - c
  {
    if c >= |row| then row else MergeFrom(Turn(row, cols, c), cols, c + 1)
  }

  /** A label absorbing fragments one after the other. */
  function Absorb(acc: Cell, fragments: seq<Cell>): Cell
    decreases |fragments|
  {
    if fragments == [] then acc else Absorb(Combine(acc, fragments[0]), fragments[1..])
  }

  /** Absorbing no fragment changes nothing; absorbing one is `Combine`. */
  lemma AbsorbRun(row: Row, j: nat, e: nat)
    requires j < e <= |row| && e <= j + 2
    ensures e == j + 1 ==> Absorb(row[j], row[j + 1..e]) == row[j]
    ensures e == j + 2 ==> Absorb(row[j], row[j + 1..e]) == Combine(row[j], row[j + 1])
  {
    if e == j + 2 {
      assert row[j + 1..e][1..] == [];
    }
  }

  /** The end of the run of continuation columns starting at `j`. */
  function RunEnd(cols: set<nat>, j: nat, n: nat): (e: nat)
    requires j <= n
    ensures j <= e <= n
    ensures forall m :: j <= m < e ==> m in cols
    ensures e < n ==> e !in cols
    decreases n - j
  {
    if j < n && j in cols then RunEnd(cols, j + 1, n) else j
  }

  /** The fragments of kept column `i` that the loop has yet to append
      once it has reached column `c`: the part of the run after `i` that
      lies at or beyond `c`. */
  function Pending(row: Row, cols: set<nat>, c: nat, i: nat): seq<Cell>
    requires i < |row|
  {
    var e := RunEnd(cols, i + 1, |row|);
    var s := if c <= i + 1 then i + 1 else c;
    if s <= e then row[s..e] else []
  }

  /** One turn of the loop moves the next pending fragment into column `i`
      and nothing else changes what column `i` ends up with. */
  lemma PendingStep(row: Row, cols: set<nat>, c: nat, i: nat)
    requires 1 <= c < |row| && i < |row| && (i == 0 || i !in cols)
    ensures var next := Turn(row, cols, c);
      Absorb(next[i], Pending(next, cols, c + 1, i)) == Absorb(row[i], Pending(row, cols, c, i))
  {
    var e := RunEnd(cols, i + 1, |row|);
    if c !in cols {
      assert Turn(row, cols, c) == row;
      if i < c {
        assert c >= e;
      }
    } else if c <= i {
      StepBefore(row, cols, c, i);
    } else if c < e {
      StepInside(row, cols, c, i, e);
    } else {
      StepAfter(row, cols, c, i, e);
    }
  }

  /** A merge at or before a kept column `i` leaves `i` and its run alone. */
  lemma StepBefore(row: Row, cols: set<nat>, c: nat, i: nat)
    requires 1 <= c <= i < |row| && c in cols && i !in cols
    ensures var next := MergeStep(row, cols, c);
      next[i] == row[i] && Pending(next, cols, c + 1, i) == Pending(row, cols, c, i)
  {
    var next := MergeStep(row, cols, c);
    var e := RunEnd(cols, i + 1, |row|);
    if i + 1 <= e {
      assert next[i + 1..e] == row[i + 1..e];
    }
  }

  /** A merge inside the run after `i` appends that fragment to `i`. */
  lemma StepInside(row: Row, cols: set<nat>, c: nat, i: nat, e: nat)
    requires i < c < |row| && e == RunEnd(cols, i + 1, |row|) && c < e && (i == 0 || i !in cols)
    ensures var next := MergeStep(row, cols, c);
      next[i] == Combine(row[i], row[c]) && Pending(next, cols, c + 1, i) == row[c + 1..e]
      && Pending(row, cols, c, i) == row[c..e] && row[c..e][1..] == row[c + 1..e]
  {
    TargetInRun(cols, i, c);
    var next := MergeStep(row, cols, c);
    assert next[c + 1..e] == row[c + 1..e];
  }

  /** A merge past the run after `i` leaves `i` alone, with nothing pending. */
  lemma StepAfter(row: Row, cols: set<nat>, c: nat, i: nat, e: nat)
    requires i < c < |row| && e == RunEnd(cols, i + 1, |row|) && e <= c && c in cols
    ensures var next := MergeStep(row, cols, c);
      next[i] == row[i] && Pending(next, cols, c + 1, i) == [] && Pending(row, cols, c, i) == []
  {
    assert e < c;
    TargetPastRun(cols, e, c);
  }

  /** A continuation column past a non-continuation column `e` is merged
      into `e` or a column after it. */
  lemma TargetPastRun(cols: set<nat>, e: nat, c: nat)
    requires e < c && e !in cols
    ensures e <= Target(cols, c - 1)
    decreases c
  {
    if c - 1 > e && c - 1 in cols {
      TargetPastRun(cols, e, c - 1);
    }
  }

  /** Inside the run after a kept column `i`, every continuation column is
      merged into `i`. */
  lemma TargetInRun(cols: set<nat>, i: nat, c: nat)
    requires i < c && (i == 0 || i !in cols)
    requires forall m :: i < m < c ==> m in cols
    ensures Target(cols, c - 1) == i
    decreases c
  {
    if c - 1 > i {
      TargetInRun(cols, i, c - 1);
    }
  }

  /** The invariant of the merge loop for one kept column `i`: once the loop
      has reached column `c`, column `i` ends up with its current content
      followed by its pending fragments. */
  lemma {:induction false} MergeFromAbsorbs(row: Row, cols: set<nat>, c: nat, i: nat)
    requires 1 <= c && i < |row| && (i == 0 || i !in cols)
    ensures MergeFrom(row, cols, c)[i] == Absorb(row[i], Pending(row, cols, c, i))
    decreases |row| - c
  {
    if c < |row| {
      MergeFromAbsorbs(Turn(row, cols, c), cols, c + 1, i);
      PendingStep(row, cols, c, i);
    }
  }

  /** Every kept column ends up holding its own text followed by the run
      of continuation fragments to its right. */
  lemma MergeAbsorbsRun(row: Row, cols: set<nat>, i: nat)
    requires i < |row| && (i == 0 || i !in cols)
    ensures MergeFrom(row, cols, 1)[i] == Absorbed(row, cols, i)
  {
    MergeFromAbsorbs(row, cols, 1, i);
  }

  /** The indices from `i` on that are not continuation columns, ascending. */
  function KeptIndices(n: nat, cols: set<nat>, i: nat): (r: seq<nat>)
    ensures forall k :: 0 <= k < |r| ==> i <= r[k] < n && r[k] !in cols
    decreases n - i
  {
    if i >= n then [] else (if i in cols then [] else [i]) + KeptIndices(n, cols, i + 1)
  }

  /** Every index from `i` on that is not a continuation column is kept. */
  lemma {:induction false} KeptIndicesCover(n: nat, cols: set<nat>, i: nat)
    ensures forall j :: i <= j < n && j !in cols ==> j in KeptIndices(n, cols, i)
    decreases n - i
  {
    if i < n {
      KeptIndicesCover(n, cols, i + 1);
    }
  }

  predicate Ascending(r: seq<nat>) { forall a, b :: 0 <= a < b < |r| ==> r[a] < r[b] }

  /** The kept indices ascend. */
  lemma {:induction false} KeptIndicesAscend(n: nat, cols: set<nat>, i: nat)
    ensures Ascending(KeptIndices(n, cols, i))
    decreases n - i
  {
    if i < n {
      KeptIndicesAscend(n, cols, i + 1);
      var tail := KeptIndices(n, cols, i + 1);
      if i !in cols {
        assert KeptIndices(n, cols, i) == [i] + tail;
      } else {
        assert KeptIndices(n, cols, i) == tail;
      }
    }
  }

  /** One row of `merge_columns`: the merge loop, then the continuation
      columns dropped. */
  function MergeRow(row: Row, cols: set<nat>): (r: Row)
    ensures |r| == |KeptIndices(|row|, cols, 0)|
  {
    var merged := MergeFrom(row, cols, 1);
    var kept := KeptIndices(|row|, cols, 0);
    seq(|kept|, k requires 0 <= k < |kept| => merged[kept[k]])
  }

  /** The column the `k`-th surviving cell comes from. */
  function KeptAt(row: Row, cols: set<nat>, k: nat): (j: nat)
    requires k < |MergeRow(row, cols)|
    ensures j < |row| && j !in cols
  {
    KeptIndices(|row|, cols, 0)[k]
  }

  /** Kept column `j` followed by the run of continuation columns to its
      right, absorbed in order. */
  function Absorbed(row: Row, cols: set<nat>, j: nat): Cell
    requires j < |row|
  {
    Absorb(row[j], row[j + 1..RunEnd(cols, j + 1, |row|)])
  }

  /** Every surviving cell is a kept column that has absorbed, in order,
      the run of continuation columns to its right. */
  lemma MergeRowAbsorbs(row: Row, cols: set<nat>, k: nat)
    requires k < |MergeRow(row, cols)|
    ensures MergeRow(row, cols)[k] == Absorbed(row, cols, KeptAt(row, cols, k))
  {
    var j := KeptAt(row, cols, k);
    MergeAbsorbsRun(row, cols, j);
  }

  /** `merge_columns(table, merge_cols)` */
  function MergeColumns(t: Table, cols: set<nat>): (r: Table)
    ensures |r| == |t|
    ensures cols == {} ==> r == t
    ensures cols != {} ==> forall i :: 0 <= i < |t| ==> r[i] == MergeRow(t[i], cols)
  {
    if cols == {} then t else seq(|t|, i requires 0 <= i < |t| => MergeRow(t[i], cols))
  }

  /** The ascending indices `a, a + 1, ..., b - 1`. */
  function Iota(a: nat, b: nat): (r: seq<nat>)
    requires a <= b
    ensures |r| == b - a
    ensures forall k :: 0 <= k < |r| ==> r[k] == a + k
  {
    seq(b - a, k requires 0 <= k < b - a => a + k)
  }

  /** Without continuation columns from `i` on, every index is kept. */
  lemma {:induction false} KeptAll(n: nat, cols: set<nat>, i: nat)
    requires i <= n
    requires forall j :: i <= j < n ==> j !in cols
    ensures KeptIndices(n, cols, i) == Iota(i, n)
    decreases n - i
  {
    if i < n {
      KeptAll(n, cols, i + 1);
    }
  }

  /** Dropping one column keeps the others in order. */
  lemma {:induction false} KeptSkipsOne(n: nat, c: nat, i: nat)
    requires i <= c < n
    ensures KeptIndices(n, {c}, i) == Iota(i, c) + Iota(c + 1, n)
    decreases c - i
  {
    if i == c {
      KeptAll(n, {c}, c + 1);
      assert KeptIndices(n, {c}, c) == KeptIndices(n, {c}, c + 1);
      assert Iota(c, c) == [];
    } else {
      KeptSkipsOne(n, c, i + 1);
      assert KeptIndices(n, {c}, i) == [i] + KeptIndices(n, {c}, i + 1);
      assert [i] + (Iota(i + 1, c) + Iota(c + 1, n)) == ([i] + Iota(i + 1, c)) + Iota(c + 1, n);
    }
  }

  /** With a single continuation column `c`, the row loses that column and
      column `c - 1` absorbs its text. */
  lemma MergeSingleColumn(row: Row, c: nat)
    requires 1 <= c < |row|
    ensures MergeRow(row, {c}) == row[..c - 1] + [Combine(row[c - 1], row[c])] + row[c + 1..]
  {
    KeptSingle(|row|, c, 0);
    var r := MergeRow(row, {c});
    var want := row[..c - 1] + [Combine(row[c - 1], row[c])] + row[c + 1..];
    assert |r| == |want|;
    forall k | 0 <= k < |r| ensures r[k] == want[k] {
      MergeSingleAt(row, c, k);
    }
  }

  /** The kept indices around a single continuation column `c`. */
  lemma KeptSingle(n: nat, c: nat, k: nat)
    requires c < n
    ensures |KeptIndices(n, {c}, 0)| == n - 1
    ensures k < n - 1 ==> KeptIndices(n, {c}, 0)[k] == if k < c then k else k + 1
  {
    var kept := KeptIndices(n, {c}, 0);
    KeptSkipsOne(n, c, 0);
    if k < n - 1 {
      if k < c {
        assert kept[k] == Iota(0, c)[k];
      } else {
        assert kept[k] == Iota(c + 1, n)[k - c];
      }
    }
  }

  lemma MergeSingleAt(row: Row, c: nat, k: nat)
    requires 1 <= c < |row| && k < |row| - 1 && k < |MergeRow(row, {c})|
    ensures MergeRow(row, {c})[k]
         == if k < c - 1 then row[k] else if k == c - 1 then Combine(row[c - 1], row[c]) else row[k + 1]
  {
    var j := if k < c then k else k + 1;
    KeptSingle(|row|, c, k);
    MergeRowAbsorbs(row, {c}, k);
    if j + 1 == c && c < |row| {
      assert RunEnd({c}, c + 1, |row|) == c + 1;
    }
    var e := RunEnd({c}, j + 1, |row|);
    if j == c - 1 {
      assert e == c + 1;
      AbsorbRun(row, j, e);
    } else {
      assert e == j + 1;
      AbsorbRun(row, j, e);
    }
  }

  // ---------------------------------------------------------------------
  // clean_presentation_artifacts
  // ---------------------------------------------------------------------

  /** `row[k:]` */
  function DropLeading(row: Row, k: nat): Row
  {
    if k <= |row| then row[k..] else []
  }

  /** `[row[k:] for row in table]` */
  function DropColumns(t: Table, k: nat): (r: Table)
    ensures |r| == |t|
    ensures forall i :: 0 <= i < |t| ==> r[i] == DropLeading(t[i], k)
  {
    seq(|t|, i requires 0 <= i < |t| => DropLeading(t[i], k))
  }

  /** The rows with at least one filled cell, in order. */
  function FilledRows(t: Table): (r: Table)
    ensures |r| == Count(t, RowFilled)
    ensures forall i :: 0 <= i < |r| ==> RowFilled(r[i])
    ensures SubsequenceOf(r, t)
  {
    if t == [] then []
    else
      var rest := FilledRows(t[1..]);
      if RowFilled(t[0]) then [t[0]] + rest
      else
        assert rest == [] || rest[0] != t[0];
        rest
  }

  /** Exactly the filled rows survive: a row is kept when it has a filled
      cell, and every kept row is one of the input's. */
  lemma {:induction false} FilledRowsExact(t: Table, row: Row)
    ensures row in FilledRows(t) <==> row in t && RowFilled(row)
  {
    if t != [] {
      FilledRowsExact(t[1..], row);
      assert t == [t[0]] + t[1..];
    }
  }

  /** The table after the two column passes of
      `clean_presentation_artifacts`: the leading artifact columns cut off
      every row, then the continuation columns merged into their left
      neighbours. Each input row gives one row. */
  function Tidy(t: Table): (r: Table)
    ensures |r| == |t|
  {
    var k := DetectArtifactColumns(t);
    var stripped := if k > 0 then DropColumns(t, k) else t;
    var cols := DetectContinuationColumns(stripped);
    if cols != {} then MergeColumns(stripped, cols) else stripped
  }

  /** `clean_presentation_artifacts(table)`: of the tidied table, exactly
      the rows with a filled cell survive, in their order. */
  function CleanPresentationArtifacts(t: Table): (r: Table)
    ensures SubsequenceOf(r, Tidy(t))
    ensures forall row :: row in r <==> row in Tidy(t) && RowFilled(row)
    ensures |r| == Count(Tidy(t), RowFilled)
    ensures forall i :: 0 <= i < |r| ==> RowFilled(r[i])
  {
    if t == [] then t
    else
      var r := FilledRows(Tidy(t));
      assert forall row :: row in r <==> row in Tidy(t) && RowFilled(row) by {
        forall row ensures row in r <==> row in Tidy(t) && RowFilled(row) {
          FilledRowsExact(Tidy(t), row);
        }
      }
      r
  }
}
