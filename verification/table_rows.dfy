/** The last stage of table extraction: row labels carried down over
    merged cells, footnote and bullet rows set apart from the data, the
    exact check that a row's last amount is the sum of the others, and the
    scale and currency read from the text around the tables. */
module TableRows {
  import opened Common
  import opened Strings
  import opened Cells
  import opened NumberFormat
  import opened Artifacts

  // ---------------------------------------------------------------------
  // forward_fill_labels
  // ---------------------------------------------------------------------

  /** The row starts with a visible label. */
  predicate IsLabelled(row: Row) { row != [] && Filled(row[0]) }

  /** One row of the fill: a labelled or empty row stays as it is, any
      other row takes the current label `last`, if there is one, as its
      first cell. */
  function FillRow(row: Row, last: Option<Cell>): (r: Row)
    ensures |r| == |row|
    ensures forall j :: 1 <= j < |row| ==> r[j] == row[j]
  {
    if IsLabelled(row) || row == [] || last.None? then row else row[0 := last.value]
  }

  /** The current label after the rows `p`, starting from `last`. */
  function Carry(last: Option<Cell>, p: Table): Option<Cell>
    decreases |p|
  {
    if p == [] then last else Carry(if IsLabelled(p[0]) then Some(p[0][0]) else last, p[1..])
  }

  /** The source loop over the rows from the current label `last` on. */
  function FillFrom(t: Table, last: Option<Cell>): (r: Table)
    ensures |r| == |t|
  {
    if t == [] then []
    else [FillRow(t[0], last)] + FillFrom(t[1..], if IsLabelled(t[0]) then Some(t[0][0]) else last)
  }

  /** `forward_fill_labels(table)` */
  function ForwardFill(t: Table): (r: Table)
    ensures |r| == |t|
  {
    FillFrom(t, None)
  }

  /** Row `i` of the fill is row `i` filled with the label current after
      the rows before it. */
  lemma {:induction false} FillFromAt(t: Table, last: Option<Cell>, i: nat)
    requires i < |t|
    ensures FillFrom(t, last)[i] == FillRow(t[i], Carry(last, t[..i]))
  {
    if i > 0 {
      var next := if IsLabelled(t[0]) then Some(t[0][0]) else last;
      FillFromAt(t[1..], next, i - 1);
      assert t[..i][1..] == t[1..][..i - 1];
      assert t[..i][0] == t[0];
    }
  }

  /** Row `j` is the last labelled row before row `i`. */
  predicate LastLabelledBefore(t: Table, i: nat, j: nat)
    requires i <= |t|
  {
    j < i && IsLabelled(t[j]) && forall m :: j < m < i ==> !IsLabelled(t[m])
  }

  lemma {:induction false} CarryUnlabelled(last: Option<Cell>, p: Table)
    requires forall m :: 0 <= m < |p| ==> !IsLabelled(p[m])
    ensures Carry(last, p) == last
  {
    if p != [] {
      CarryUnlabelled(last, p[1..]);
    }
  }

  lemma {:induction false} CarryLast(last: Option<Cell>, p: Table, j: nat)
    requires LastLabelledBefore(p, |p|, j)
    ensures Carry(last, p) == Some(p[j][0])
    decreases |p|
  {
    if j == 0 {
      CarryUnlabelled(Some(p[0][0]), p[1..]);
    } else {
      CarryLast(if IsLabelled(p[0]) then Some(p[0][0]) else last, p[1..], j - 1);
    }
  }

  /** Some label before row `i` has a last one. */
  lemma {:induction false} LastLabelExists(t: Table, i: nat, j: nat)
    requires j < i <= |t| && IsLabelled(t[j])
    ensures exists k :: LastLabelledBefore(t, i, k)
  {
    if !IsLabelled(t[i - 1]) {
      LastLabelExists(t, i - 1, j);
      var k :| LastLabelledBefore(t, i - 1, k);
      assert LastLabelledBefore(t, i, k);
    } else {
      assert LastLabelledBefore(t, i, i - 1);
    }
  }

  /** The fill touches first cells only, and never a labelled row. */
  lemma ForwardFillShape(t: Table, i: nat)
    requires i < |t|
    ensures |ForwardFill(t)[i]| == |t[i]|
    ensures forall j :: 1 <= j < |t[i]| ==> ForwardFill(t)[i][j] == t[i][j]
    ensures IsLabelled(t[i]) ==> ForwardFill(t)[i] == t[i]
  {
    FillFromAt(t, None, i);
  }

  /** A non-empty unlabelled row takes the label of the last labelled row
      above it. */
  lemma ForwardFillTakesLastLabel(t: Table, i: nat, j: nat)
    requires i < |t| && t[i] != [] && !IsLabelled(t[i])
    requires LastLabelledBefore(t, i, j)
    ensures ForwardFill(t)[i] == t[i][0 := t[j][0]]
  {
    FillFromAt(t, None, i);
    assert LastLabelledBefore(t[..i], i, j);
    CarryLast(None, t[..i], j);
  }

  /** Above the first label nothing is filled. */
  lemma ForwardFillBeforeFirstLabel(t: Table, i: nat)
    requires i < |t|
    requires forall m :: 0 <= m < i ==> !IsLabelled(t[m])
    ensures ForwardFill(t)[i] == t[i]
  {
    FillFromAt(t, None, i);
    CarryUnlabelled(None, t[..i]);
  }

  /** Every non-empty row at or below the first labelled row ends up with
      a visible first cell. */
  lemma ForwardFillLabels(t: Table, i: nat, j: nat)
    requires j <= i < |t| && IsLabelled(t[j]) && t[i] != []
    ensures ForwardFill(t)[i] != [] && Filled(ForwardFill(t)[i][0])
  {
    ForwardFillShape(t, i);
    if !IsLabelled(t[i]) {
      LastLabelExists(t, i, j);
      var k :| LastLabelledBefore(t, i, k);
      ForwardFillTakesLastLabel(t, i, k);
    }
  }

  /** Filling keeps every filled row filled. */
  lemma ForwardFillKeepsFilled(t: Table, i: nat)
    requires i < |t| && RowFilled(t[i])
    ensures RowFilled(ForwardFill(t)[i])
  {
    ForwardFillShape(t, i);
    var j :| 0 <= j < |t[i]| && Filled(t[i][j]);
    if j == 0 {
      assert IsLabelled(t[i]);
    } else {
      assert Filled(ForwardFill(t)[i][j]);
    }
  }

  // ---------------------------------------------------------------------
  // is_footnote_row
  // ---------------------------------------------------------------------

  /** `*`, dagger, double dagger, section sign, superscripts one to five. */
  predicate IsFootnoteSymbol(c: char)
  {
    c == '*' || c == '\U{2020}' || c == '\U{2021}' || c == '\U{A7}'
    || c == '\U{B9}' || c == '\U{B2}' || c == '\U{B3}' || c == '\U{2074}' || c == '\U{2075}'
  }

  /** `FOOTNOTE_PATTERN.match(s)`: after optional whitespace, either one or
      two digits and then (after optional whitespace) `)` or `.`, or one
      footnote symbol, or one digit in parentheses. A run of three digits
      fails the first branch because the regex cannot stop inside it. */
  predicate IsFootnoteStart(s: string)
  {
    var k := StripStart(s);
    var n := DigitRunEnd(s, k) - k;
    (1 <= n <= 2 && (var m := SpaceRunFrom(s, k + n); m < |s| && (s[m] == ')' || s[m] == '.')))
    || (k < |s| && IsFootnoteSymbol(s[k]))
    || (k + 2 < |s| && s[k] == '(' && IsDigit(s[k + 1]) && s[k + 2] == ')')
  }

  /** A cell whose text begins with a letter never starts a footnote. */
  lemma LetterNeverFootnote(s: string)
    requires StripStart(s) < |s| && IsAlpha(s[StripStart(s)])
    ensures !IsFootnoteStart(s)
  {
    var k := StripStart(s);
    assert DigitRunEnd(s, k) == k;
  }

  /** Footnote marks the pattern accepts and one it refuses: `1)`,
      ` 12.` and `(3)` open a footnote, three digits and a dot open a
      numbered line instead. */
  lemma FootnoteExamples()
    ensures IsFootnoteStart("1) Net") && IsFootnoteStart(" 12. Net") && IsFootnoteStart("(3) Net")
    ensures !IsFootnoteStart("123. Net")
  {
    var a, b, c, d := "1) Net", " 12. Net", "(3) Net", "123. Net";
    assert StripStart(a) == 0 && DigitRunEnd(a, 1) == 1 && SpaceRunFrom(a, 1) == 1;
    assert StripStart(b) == 1 && DigitRunEnd(b, 3) == 3 && SpaceRunFrom(b, 3) == 3;
    assert StripStart(c) == 0;
    assert StripStart(d) == 0 && DigitRunEnd(d, 3) == 3;
  }

  /** `[str(c) for c in row if c is not None and str(c).strip()]` */
  function TextCells(row: Row): (r: seq<string>)
    ensures |r| <= |row|
    ensures forall k :: 0 <= k < |r| ==> !IsBlank(r[k])
  {
    if row == [] then [] else (if Filled(row[0]) then [row[0].value] else []) + TextCells(row[1..])
  }

  lemma {:induction false} TextCellsIffFilled(row: Row)
    ensures TextCells(row) != [] <==> RowFilled(row)
  {
    if row != [] {
      TextCellsIffFilled(row[1..]);
      if RowFilled(row[1..]) {
        var j :| 0 <= j < |row[1..]| && Filled(row[1..][j]);
        assert Filled(row[j + 1]);
      }
      if RowFilled(row) && !Filled(row[0]) {
        var j :| 0 <= j < |row| && Filled(row[j]);
        assert Filled(row[1..][j - 1]);
      }
    }
  }

  /** Bullet characters: small black square, bullet, black circle. */
  predicate IsBullet(c: char) { c == '\U{25AA}' || c == '\U{2022}' || c == '\U{25CF}' }

  predicate HasBullet(row: Row)
  {
    exists j, k :: 0 <= j < |row| && row[j].Some? && 0 <= k < |row[j].value| && IsBullet(row[j].value[k])
  }

  /** `is_footnote_row(row)`: no visible cell, a first visible cell that
      opens like a footnote, more than 200 characters of visible text
      joined by spaces, or a bullet in any cell. */
  predicate IsFootnoteRow(row: Row)
  {
    var cells := TextCells(row);
    cells == [] || IsFootnoteStart(cells[0]) || |Join(cells, " ")| > 200 || HasBullet(row)
  }

  /** The text a footnote row contributes. */
  function FootnoteText(row: Row): (r: string)
    ensures r != [] <==> RowFilled(row)
  {
    TextCellsIffFilled(row);
    var cells := TextCells(row);
    if cells != [] then
      assert !IsBlank(cells[0]);
      Join(cells, " ")
    else Join(cells, " ")
  }

  // ---------------------------------------------------------------------
  // process_table
  // ---------------------------------------------------------------------

  /** The loop of `process_table`: data rows in order, and the text of the
      footnote rows that show any. */
  function Partition(rows: Table): (r: (Table, seq<string>))
    ensures |r.0| + |r.1| <= |rows|
    ensures forall k :: 0 <= k < |r.0| ==> !IsFootnoteRow(r.0[k])
    ensures forall k :: 0 <= k < |r.1| ==> r.1[k] != []
    ensures SubsequenceOf(r.0, rows)
  {
    if rows == [] then ([], [])
    else
      var (data, notes) := Partition(rows[1..]);
      if IsFootnoteRow(rows[0]) then
        var text := FootnoteText(rows[0]);
        assert data == [] || data[0] != rows[0];
        (data, (if text != [] then [text] else []) + notes)
      else ([rows[0]] + data, notes)
  }

  /** The data rows are exactly the rows that are not footnote rows. */
  lemma {:induction false} PartitionData(rows: Table, row: Row)
    ensures row in Partition(rows).0 <==> row in rows && !IsFootnoteRow(row)
  {
    if rows != [] {
      PartitionData(rows[1..], row);
      assert rows == [rows[0]] + rows[1..];
    }
  }

  /** When every row shows some text, each row goes to exactly one side. */
  lemma {:induction false} PartitionCounts(rows: Table)
    requires forall k :: 0 <= k < |rows| ==> RowFilled(rows[k])
    ensures |Partition(rows).0| + |Partition(rows).1| == |rows|
  {
    if rows != [] {
      PartitionCounts(rows[1..]);
    }
  }

  /** A row `process_table` keeps as data. */
  predicate IsDataRow(row: Row) { !IsFootnoteRow(row) }

  /** A footnote row whose text is kept: one that shows some text. */
  predicate IsNoteRow(row: Row) { IsFootnoteRow(row) && RowFilled(row) }

  /** The loop is two filters over the rows: the data rows as they are,
      and the text of each footnote row that shows some, in row order. */
  lemma {:induction false} PartitionSpec(rows: Table)
    ensures Partition(rows).0 == Filter(rows, IsDataRow)
    ensures Partition(rows).1 == Map(Filter(rows, IsNoteRow), FootnoteText)
  {
    if rows != [] {
      PartitionSpec(rows[1..]);
      PartitionStep(rows);
      FilterFirst(rows, IsDataRow);
      FilterFirst(rows, IsNoteRow);
      var notes := Filter(rows[1..], IsNoteRow);
      if IsNoteRow(rows[0]) {
        MapCons(rows[0], notes, FootnoteText);
      }
    }
  }

  /** One turn of the loop, and of each filter, on the first row. */
  lemma PartitionStep(rows: Table)
    requires rows != []
    ensures !IsFootnoteRow(rows[0]) ==>
      Partition(rows) == ([rows[0]] + Partition(rows[1..]).0, Partition(rows[1..]).1)
    ensures IsNoteRow(rows[0]) ==>
      Partition(rows) == (Partition(rows[1..]).0, [FootnoteText(rows[0])] + Partition(rows[1..]).1)
    ensures IsFootnoteRow(rows[0]) && !RowFilled(rows[0]) ==> Partition(rows) == Partition(rows[1..])
  {
    var text := FootnoteText(rows[0]);
    assert text != [] <==> RowFilled(rows[0]);
    if IsFootnoteRow(rows[0]) && !RowFilled(rows[0]) {
      assert [] + Partition(rows[1..]).1 == Partition(rows[1..]).1;
    }
  }

  /** A text is a footnote iff some footnote row showing text joins to it. */
  lemma PartitionNotes(rows: Table, t: string)
    ensures t in Partition(rows).1 <==>
      exists k :: 0 <= k < |rows| && IsNoteRow(rows[k]) && t == FootnoteText(rows[k])
  {
    PartitionSpec(rows);
    MapOfFilterMembers(rows, IsNoteRow, FootnoteText, t);
  }

  /** `process_table(raw_table, fmt)`; the format is not used. */
  function ProcessTable(raw: Table, fmt: Fmt): (r: (Table, seq<string>))
    ensures forall k :: 0 <= k < |r.0| ==> !IsFootnoteRow(r.0[k])
    ensures forall k :: 0 <= k < |r.1| ==> r.1[k] != []
    ensures var rows := ForwardFill(CleanPresentationArtifacts(raw));
      r.0 == Filter(rows, IsDataRow) && r.1 == Map(Filter(rows, IsNoteRow), FootnoteText)
  {
    var rows := ForwardFill(CleanPresentationArtifacts(raw));
    PartitionSpec(rows);
    Partition(rows)
  }

  /** No row is lost: every cleaned row is either a data row or a
      footnote. */
  lemma ProcessTableCounts(raw: Table, fmt: Fmt)
    ensures |ProcessTable(raw, fmt).0| + |ProcessTable(raw, fmt).1| == |CleanPresentationArtifacts(raw)|
  {
    var rows := ForwardFill(CleanPresentationArtifacts(raw));
    forall k | 0 <= k < |rows| ensures RowFilled(rows[k]) {
      ForwardFillKeepsFilled(CleanPresentationArtifacts(raw), k);
    }
    PartitionCounts(rows);
  }

  // ---------------------------------------------------------------------
  // validate_row_totals
  // ---------------------------------------------------------------------

  /** One validation record; `row` is the row's index. */
  datatype Check =
    | Skipped(row: nat)
    | Pass(row: nat, expected: real, computed: real)
    | Mismatch(row: nat, expected: real, computed: real, diff: real)

  /** The present values, in order. */
  function Somes(s: seq<Option<real>>): (r: seq<real>)
  {
    if s == [] then [] else (if s[0].Some? then [s[0].value] else []) + Somes(s[1..])
  }

  /** The exact value of each cell, `None` for a cell that is not a number. */
  function CellValues(row: Row, fmt: Fmt): (r: seq<Option<real>>)
    ensures |r| == |row|
  {
    seq(|row|, i requires 0 <= i < |row| => ToDecimal(NormalizeNumber(row[i], fmt)))
  }

  /** The exact values of the row's numeric cells, in order. */
  function Amounts(row: Row, fmt: Fmt): seq<real>
  {
    Somes(CellValues(row, fmt))
  }

  function Sum(s: seq<real>): real
  {
    if s == [] then 0.0 else s[0] + Sum(s[1..])
  }

  function Abs(x: real): real { if x < 0.0 then -x else x }

  /** The record for row `i` whose amounts are `a`: fewer than three
      amounts are skipped; otherwise the last is the expected total of the
      others. */
  function CheckAmounts(i: nat, a: seq<real>): (c: Check)
    ensures c.row == i
    ensures c.Skipped? <==> |a| < 3
    ensures !c.Skipped? ==> c.expected == a[|a| - 1] && c.computed == Sum(a[..|a| - 1])
    ensures c.Pass? ==> c.computed == c.expected
    ensures c.Mismatch? ==>
      c.computed != c.expected && c.diff > 0.0 && c.diff == Abs(c.computed - c.expected)
  {
    if |a| < 3 then Skipped(i)
    else
      var last := a[|a| - 1];
      var total := Sum(a[..|a| - 1]);
      if total == last then Pass(i, last, total)
      else Mismatch(i, last, total, Abs(total - last))
  }

  /** `validate_row_totals(rows, fmt)`: one record per row, in order. */
  function ValidateRowTotals(rows: Table, fmt: Fmt): (r: seq<Check>)
    ensures |r| == |rows|
    ensures forall i :: 0 <= i < |rows| ==> r[i] == CheckAmounts(i, Amounts(rows[i], fmt))
  {
    seq(|rows|, i requires 0 <= i < |rows| => CheckAmounts(i, Amounts(rows[i], fmt)))
  }

  /** A digit string is worth its integer value. */
  lemma DigitsAmount(d: string, fmt: Fmt)
    requires IsDigitString(d)
    ensures ToDecimal(NormalizeNumber(Some(d), fmt)) == Some(DigitsValue(d) as real)
  {
    NormalizeDigits(d, fmt);
    DigitsDecimal(d);
  }

  lemma SomesCons(o: Option<real>, rest: seq<Option<real>>)
    ensures Somes([o] + rest) == (if o.Some? then [o.value] else []) + Somes(rest)
  {
    assert ([o] + rest)[1..] == rest;
  }

  lemma SomesLabelled(a: real, b: real, c: real)
    ensures Somes([None, Some(a), Some(b), Some(c)]) == [a, b, c]
  {
    SomesCons(Some(c), []);
    SomesCons(Some(b), [Some(c)]);
    SomesCons(Some(a), [Some(b), Some(c)]);
    SomesCons(None, [Some(a), Some(b), Some(c)]);
  }

  /** A cell holding a whole number is worth that number. */
  lemma CellValueOfDigits(row: Row, i: nat, x: string, fmt: Fmt)
    requires i < |row| && row[i] == Some(x) && IsDigitString(x)
    ensures CellValues(row, fmt)[i] == Some(DigitsValue(x) as real)
  {
    DigitsAmount(x, fmt);
  }

  lemma FourEqual<T>(v: seq<T>, w: seq<T>)
    requires |v| == 4 && |w| == 4
    requires v[0] == w[0] && v[1] == w[1] && v[2] == w[2] && v[3] == w[3]
    ensures v == w
  {
    forall i | 0 <= i < 4 ensures v[i] == w[i] {
      if i == 0 {} else if i == 1 {} else if i == 2 {} else {}
    }
  }

  /** A label followed by three whole amounts yields those three amounts. */
  lemma AmountsOfLabelledRow(x: string, y: string, z: string, fmt: Fmt)
    requires IsDigitString(x) && IsDigitString(y) && IsDigitString(z)
    ensures Amounts([None, Some(x), Some(y), Some(z)], fmt)
         == [DigitsValue(x) as real, DigitsValue(y) as real, DigitsValue(z) as real]
  {
    var vx, vy, vz := DigitsValue(x) as real, DigitsValue(y) as real, DigitsValue(z) as real;
    var row: Row := [None, Some(x), Some(y), Some(z)];
    var v := CellValues(row, fmt);
    assert v[0] == None;
    CellValueOfDigits(row, 1, x, fmt);
    CellValueOfDigits(row, 2, y, fmt);
    CellValueOfDigits(row, 3, z, fmt);
    FourEqual(v, [None, Some(vx), Some(vy), Some(vz)]);
    SomesLabelled(vx, vy, vz);
  }

  lemma SumTwo(a: real, b: real)
    ensures Sum([a, b]) == a + b
  {
    assert [a, b][1..] == [b];
    assert [b][1..] == [];
    assert Sum([b]) == b + Sum([]);
  }

  /** A label and two whole amounts followed by their sum passes. */
  lemma RowTotalsPass(x: string, y: string, z: string, fmt: Fmt)
    requires IsDigitString(x) && IsDigitString(y) && IsDigitString(z)
    requires DigitsValue(x) + DigitsValue(y) == DigitsValue(z)
    ensures ValidateRowTotals([[None, Some(x), Some(y), Some(z)]], fmt)[0]
         == Pass(0, DigitsValue(z) as real, DigitsValue(z) as real)
  {
    AmountsOfLabelledRow(x, y, z, fmt);
    var a := [DigitsValue(x) as real, DigitsValue(y) as real, DigitsValue(z) as real];
    assert a[..2] == [a[0], a[1]];
    SumTwo(a[0], a[1]);
  }

  /** A label and two whole amounts followed by anything else is a
      mismatch by exactly the difference. */
  lemma RowTotalsMismatch(x: string, y: string, z: string, fmt: Fmt)
    requires IsDigitString(x) && IsDigitString(y) && IsDigitString(z)
    requires DigitsValue(x) + DigitsValue(y) != DigitsValue(z)
    ensures var sum := (DigitsValue(x) + DigitsValue(y)) as real;
      ValidateRowTotals([[None, Some(x), Some(y), Some(z)]], fmt)[0]
         == Mismatch(0, DigitsValue(z) as real, sum, Abs(sum - DigitsValue(z) as real))
  {
    AmountsOfLabelledRow(x, y, z, fmt);
    var a := [DigitsValue(x) as real, DigitsValue(y) as real, DigitsValue(z) as real];
    assert a[..2] == [a[0], a[1]];
    SumTwo(a[0], a[1]);
  }

  /** A whole amount followed by a newline and a grouping mark, as a cell
      broken across two lines reads, still counts as that amount. */
  lemma NewlineAmount(x: string, g: char, fmt: Fmt)
    requires IsDigitString(x) && g == (if fmt == En then ',' else '.')
    ensures ToDecimal(NormalizeNumber(Some(x + "\n" + [g]), fmt)) == Some(DigitsValue(x) as real)
  {
    FinalNewlineKept(x, g, fmt);
    NewlineDecimal(x);
  }

  lemma CellValueOfNewline(row: Row, i: nat, x: string, g: char, fmt: Fmt)
    requires IsDigitString(x) && g == (if fmt == En then ',' else '.')
    requires i < |row| && row[i] == Some(x + "\n" + [g])
    ensures CellValues(row, fmt)[i] == Some(DigitsValue(x) as real)
  {
    NewlineAmount(x, g, fmt);
  }

  lemma AmountsOfNewlineRow(x: string, y: string, z: string, g: char, fmt: Fmt)
    requires IsDigitString(x) && IsDigitString(y) && IsDigitString(z)
    requires g == (if fmt == En then ',' else '.')
    ensures Amounts([None, Some(x + "\n" + [g]), Some(y), Some(z)], fmt)
         == [DigitsValue(x) as real, DigitsValue(y) as real, DigitsValue(z) as real]
  {
    var vx, vy, vz := DigitsValue(x) as real, DigitsValue(y) as real, DigitsValue(z) as real;
    var row: Row := [None, Some(x + "\n" + [g]), Some(y), Some(z)];
    var v := CellValues(row, fmt);
    assert v[0] == None;
    CellValueOfNewline(row, 1, x, g, fmt);
    CellValueOfDigits(row, 2, y, fmt);
    CellValueOfDigits(row, 3, z, fmt);
    FourEqual(v, [None, Some(vx), Some(vy), Some(vz)]);
    SomesLabelled(vx, vy, vz);
  }

  /** Such a cell takes part in the row total: `x\n,`, `y`, `x + y` passes. */
  lemma NewlineRowPasses(x: string, y: string, z: string, g: char, fmt: Fmt)
    requires IsDigitString(x) && IsDigitString(y) && IsDigitString(z)
    requires g == (if fmt == En then ',' else '.')
    requires DigitsValue(x) + DigitsValue(y) == DigitsValue(z)
    ensures ValidateRowTotals([[None, Some(x + "\n" + [g]), Some(y), Some(z)]], fmt)[0]
         == Pass(0, DigitsValue(z) as real, DigitsValue(z) as real)
  {
    AmountsOfNewlineRow(x, y, z, g, fmt);
    var a := [DigitsValue(x) as real, DigitsValue(y) as real, DigitsValue(z) as real];
    assert a[..2] == [a[0], a[1]];
    SumTwo(a[0], a[1]);
  }

  // ---------------------------------------------------------------------
  // detect_scale, detect_currency
  // ---------------------------------------------------------------------

  datatype Scale = MillionsMxn | ThousandsMxn | Millions | Thousands

  /** The phrases `detect_scale` looks for, in the order it tries them. */
  const ScalePatterns: seq<(string, Scale)> := [
    ("millones de pesos", MillionsMxn),
    ("miles de pesos", ThousandsMxn),
    ("millions of pesos", MillionsMxn),
    ("thousands of pesos", ThousandsMxn),
    ("en millones", Millions),
    ("en miles", Thousands),
    ("in millions", Millions),
    ("in thousands", Thousands)
  ]

  /** Pattern `k` is the first of `ps` found in `text`. */
  predicate FirstHit(text: string, ps: seq<(string, Scale)>, k: nat)
  {
    k < |ps| && Contains(text, ps[k].0) && forall m :: 0 <= m < k ==> !Contains(text, ps[m].0)
  }

  function ScaleFrom(text: string, ps: seq<(string, Scale)>): (r: Option<Scale>)
    ensures r.Some? ==> exists k: nat :: FirstHit(text, ps, k) && ps[k].1 == r.value
    ensures r.None? ==> forall k :: 0 <= k < |ps| ==> !Contains(text, ps[k].0)
  {
    if ps == [] then None
    else if Contains(text, ps[0].0) then
      assert FirstHit(text, ps, 0);
      Some(ps[0].1)
    else
      var r := ScaleFrom(text, ps[1..]);
      if r.Some? then
        var k: nat :| FirstHit(text, ps[1..], k) && ps[1..][k].1 == r.value;
        assert FirstHit(text, ps, k + 1);
        r
      else r
  }

  /** `detect_scale(all_text)`: the scale of the first phrase found in the
      lower-cased text. */
  function DetectScale(text: string): Option<Scale>
  {
    ScaleFrom(Lower(text), ScalePatterns)
  }

  /** The scale does not depend on letter case. */
  lemma DetectScaleIgnoresCase(text: string)
    ensures DetectScale(Lower(text)) == DetectScale(text)
  {
    LowerIdempotent(text);
  }

  /** "millones de pesos" reads as millions of pesos even though the text
      then also contains "en millones", because it is tried first. */
  lemma MillionsOfPesosFirst(text: string)
    requires Contains(Lower(text), "millones de pesos")
    ensures DetectScale(text) == Some(MillionsMxn)
  {
    assert ScalePatterns[0] == ("millones de pesos", MillionsMxn);
  }

  datatype Currency = Mxn | Usd

  predicate MentionsPesos(t: string) { Contains(t, "ps.") || Contains(t, "pesos") || Contains(t, "mxn") }

  predicate MentionsDollars(t: string) { Contains(t, "usd") || Contains(t, "us$") || Contains(t, "dollars") }

  /** `detect_currency(all_text)`: pesos win over dollars. */
  function DetectCurrency(text: string): (r: Option<Currency>)
    ensures r == Some(Mxn) <==> MentionsPesos(Lower(text))
    ensures r == Some(Usd) <==> !MentionsPesos(Lower(text)) && MentionsDollars(Lower(text))
    ensures r == None <==> !MentionsPesos(Lower(text)) && !MentionsDollars(Lower(text))
  {
    var t := Lower(text);
    if MentionsPesos(t) then Some(Mxn) else if MentionsDollars(t) then Some(Usd) else None
  }

  /** The currency does not depend on letter case. */
  lemma DetectCurrencyIgnoresCase(text: string)
    ensures DetectCurrency(Lower(text)) == DetectCurrency(text)
  {
    LowerIdempotent(text);
  }
}
