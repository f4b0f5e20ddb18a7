/** Reading one statement's line items for one period: the standard layout
    (header row, label column, period column), the sign convention for
    expenses, and the choice of balance-sheet layout. */
module Statements {
  import opened Common
  import opened Strings
  import opened Periods
  import opened Values

  /** A line item: its label and its value for the period. */
  datatype Item = Item(name: string, value: Option<Value>)

  // ---------------------------------------------------------------------
  // parse_standard_csv
  // ---------------------------------------------------------------------

  /** Lower-cased label prefixes of metadata rows. */
  const NoisePrefixes: seq<string> := [
    "note:", "fibra soma", "mexican pesos", "soma21", "closing price", "outstanding cbfi",
    "market capitalization", "mxn$", "interest affo", "\U{2022}", "we ", "showing ", "affo ", "to "]

  predicate StartsWithAny(s: string, ps: seq<string>)
  {
    exists k :: 0 <= k < |ps| && StartsWith(s, ps[k])
  }

  /** `re.match(r"^\d{4}\.$", s)`, where `$` also matches before a final
      newline. */
  predicate YearFragment(s: string)
  {
    (|s| == 5 || (|s| == 6 && s[5] == '\n')) && AllDigits(s[..4]) && s[4] == '.'
  }

  /** `re.match(r"^to \d{4}\.$", s)` */
  predicate ToYearFragment(s: string)
  {
    StartsWith(s, "to ") && YearFragment(s[3..])
  }

  /** A row whose label says it is not a line item: metadata, a day count,
      a sentence of narrative (over 60 characters, with a space), or a
      stray year. */
  predicate IsNoise(name: string)
  {
    var lower := Lower(name);
    StartsWithAny(lower, NoisePrefixes) || Contains(lower, "days of operation")
    || (|name| > 60 && ' ' in name) || YearFragment(name) || ToYearFragment(lower)
  }

  /** The "to 2024." test never decides anything: such labels already start
      with the prefix "to ". */
  lemma ToYearIsPrefixNoise(lower: string)
    requires ToYearFragment(lower)
    ensures StartsWithAny(lower, NoisePrefixes)
  {
    assert NoisePrefixes[13] == "to ";
  }

  /** The label of a row: its first cell stripped, or the second when the
      first is blank. */
  function RowLabel(row: seq<string>): (r: Option<string>)
    requires row != []
    ensures r.Some? ==> r.value != [] && Strip(r.value) == r.value
    ensures r.None? <==> IsBlank(row[0]) && (|row| == 1 || IsBlank(row[1]))
  {
    var first := Strip(row[0]);
    if first != [] then Some(first)
    else if |row| > 1 && Strip(row[1]) != [] then Some(Strip(row[1]))
    else None
  }

  /** A value cell holding text that is no value and is over 30
      characters long once stripped. */
  predicate IsNarrative(cell: string)
  {
    CleanValue(cell).None? && !IsBlank(cell) && |Strip(cell)| > 30
  }

  /** What one data row contributes, with the period's values in column
      `col`. */
  function RowItem(row: seq<string>, col: nat): (r: Option<Item>)
    ensures r.Some? <==>
      col < |row| && RowLabel(row).Some? && !IsNoise(RowLabel(row).value) && !IsNarrative(row[col])
    ensures r.Some? ==>
      r.value == Item(RowLabel(row).value, CleanValue(row[col]))
  {
    if |row| <= col then None
    else
      var name := RowLabel(row);
      if name.None? || IsNoise(name.value) || IsNarrative(row[col]) then None
      else Some(Item(name.value, CleanValue(row[col])))
  }

  /** Labels that survive the filters: non-empty, stripped, not noise. */
  predicate GoodLabel(name: string)
  {
    name != [] && Strip(name) == name && !IsNoise(name)
  }

  function ParseRows(rows: seq<seq<string>>, col: nat): (r: seq<Item>)
    ensures |r| <= |rows|
    ensures forall it :: it in r ==> GoodLabel(it.name)
  {
    if rows == [] then [] else Emitted(rows[0], col) + ParseRows(rows[1..], col)
  }

  /** The items one row adds to the list: none or one. */
  function Emitted(row: seq<string>, col: nat): (r: seq<Item>)
    ensures forall it :: it in r ==> GoodLabel(it.name)
  {
    var item := RowItem(row, col);
    if item.Some? then [item.value] else []
  }

  /** Rows are read independently of one another. */
  lemma {:induction false} ParseRowsAppend(a: seq<seq<string>>, b: seq<seq<string>>, col: nat)
    ensures ParseRows(a + b, col) == ParseRows(a, col) + ParseRows(b, col)
  {
    if a == [] {
      assert a + b == b;
    } else {
      assert (a + b)[0] == a[0];
      assert (a + b)[1..] == a[1..] + b;
      ParseRowsAppend(a[1..], b, col);
      assert ParseRows(a + b, col) == Emitted(a[0], col) + ParseRows(a[1..] + b, col);
    }
  }

  /** `parse_standard_csv(rows, period)`: the items of the rows below the
      header row, read in the header's column for the period. */
  function ParseStandardCsv(rows: seq<seq<string>>, period: string): (r: seq<Item>)
    ensures FindHeaderRow(rows).None? ==> r == []
    ensures FindHeaderRow(rows).Some? && FindPeriodColumn(rows[FindHeaderRow(rows).value], period).None? ==> r == []
    ensures forall it :: it in r ==> GoodLabel(it.name) && !(|it.name| > 60 && ' ' in it.name)
  {
    var h := FindHeaderRow(rows);
    if h.None? then []
    else
      var col := FindPeriodColumn(rows[h.value], period);
      if col.None? then [] else ParseRows(rows[h.value + 1..], col.value)
  }

  /** A row whose first cell is a good label and whose period cell holds
      a value yields exactly that label and value. */
  lemma KeepsValueRow(row: seq<string>, col: nat)
    requires col < |row| && GoodLabel(row[0]) && CleanValue(row[col]).Some?
    ensures RowItem(row, col) == Some(Item(row[0], CleanValue(row[col])))
  {
    assert RowLabel(row) == Some(row[0]);
  }

  /** A blank first cell defers to the second. */
  lemma LabelFromSecondCell(row: seq<string>, col: nat)
    requires |row| >= 2 && col < |row| && IsBlank(row[0]) && GoodLabel(row[1]) && CleanValue(row[col]).Some?
    ensures RowItem(row, col) == Some(Item(row[1], CleanValue(row[col])))
  {
    assert RowLabel(row) == Some(row[1]);
  }

  // ---------------------------------------------------------------------
  // _normalize_expense_signs
  // ---------------------------------------------------------------------

  /** A "total revenue(s)" row opens the expense zone. */
  predicate Opens(it: Item)
  {
    var lower := Lower(it.name);
    Contains(lower, "total revenues") || Contains(lower, "total revenue")
  }

  /** A "total expenses" row that does not open the zone closes it. */
  predicate Closes(it: Item)
  {
    !Opens(it) && Contains(Lower(it.name), "total expenses")
  }

  /** A numeric value above 0; percentages are text and never count. */
  predicate Positive(v: Option<Value>)
  {
    v.Some? && v.value.Num? && v.value.amount > 0.0
  }

  /** The item with a positive number negated. */
  function NegatePositive(it: Item): (r: Item)
    ensures r.name == it.name
    ensures Positive(it.value) ==> r.value == Some(Num(-it.value.value.amount))
    ensures !Positive(it.value) ==> r.value == it.value
    ensures !Positive(r.value)
  {
    if Positive(it.value) then Item(it.name, Negated(it.value)) else it
  }

  /** One step of the loop: the new zone flag and the item to emit. */
  function Step(zone: bool, it: Item): (bool, Item)
  {
    if Opens(it) then (true, it)
    else if Contains(Lower(it.name), "total expenses") then (false, NegatePositive(it))
    else if zone then (zone, NegatePositive(it))
    else (zone, it)
  }

  function SignsFrom(items: seq<Item>, zone: bool): (r: seq<Item>)
    ensures |r| == |items|
  {
    if items == [] then []
    else
      var (z, it) := Step(zone, items[0]);
      [it] + SignsFrom(items[1..], z)
  }

  /** `_normalize_expense_signs(pairs)` */
  function NormalizeExpenseSigns(items: seq<Item>): (r: seq<Item>)
    ensures |r| == |items|
  {
    SignsFrom(items, false)
  }

  /** The zone is open before index `i` when some earlier row opened it and
      no row after that closed it, or when it was open at the start and no
      row before `i` closed it. */
  predicate InZone(items: seq<Item>, i: nat, start: bool)
    requires i <= |items|
  {
    (exists j :: 0 <= j < i && Opens(items[j]) && NotClosedBetween(items, j + 1, i))
    || (start && NotClosedBetween(items, 0, i))
  }

  predicate NotClosedBetween(items: seq<Item>, a: nat, b: nat)
    requires a <= b <= |items|
  {
    forall k :: a <= k < b ==> !Closes(items[k])
  }

  /** The rows whose positive value is negated: the closing row itself,
      and every row inside the zone except one that opens it. */
  predicate Negates(items: seq<Item>, i: nat, start: bool)
    requires i < |items|
  {
    !Opens(items[i]) && (Contains(Lower(items[i].name), "total expenses") || InZone(items, i, start))
  }

  /** The flag a row leaves: set by an opening row, kept by any other row
      that does not close the zone. */
  lemma StepZone(zone: bool, it: Item)
    ensures Step(zone, it).0 <==> Opens(it) || (zone && !Closes(it))
  {
  }

  /** Moving past the first row turns the zone at `i + 1` into the zone at
      `i` of the rest, started with the flag the first row leaves. */
  lemma InZoneShift(items: seq<Item>, i: nat, start: bool)
    requires items != [] && i < |items|
    ensures InZone(items, i + 1, start) <==> InZone(items[1..], i, Step(start, items[0]).0)
  {
    var z := Step(start, items[0]).0;
    StepZone(start, items[0]);
    if InZone(items, i + 1, start) {
    }
    if InZone(items[1..], i, z) {
    }
  }

  /** The loop against the reference definition: every row keeps its label,
      and its value is negated exactly when it is positive and `Negates`
      holds. */
  lemma {:induction false} SignsFromSpec(items: seq<Item>, start: bool, i: nat)
    requires i < |items|
    ensures SignsFrom(items, start)[i] ==
      if Negates(items, i, start) then NegatePositive(items[i]) else items[i]
    decreases i
  {
    if i == 0 {
      assert !InZone(items, 0, start) <==> !start;
    } else {
      var z := Step(start, items[0]).0;
      SignsFromSpec(items[1..], z, i - 1);
      InZoneShift(items, i - 1, start);
      assert items[1..][i - 1] == items[i];
    }
  }

  /** `_normalize_expense_signs` keeps every label and negates the value of
      row `i` exactly when it is a positive number and the row is the
      "total expenses" row or lies inside the expense zone. */
  lemma NormalizeExpenseSignsSpec(items: seq<Item>, i: nat)
    requires i < |items|
    ensures NormalizeExpenseSigns(items)[i].name == items[i].name
    ensures Positive(items[i].value) && Negates(items, i, false) ==>
      NormalizeExpenseSigns(items)[i].value == Some(Num(-items[i].value.value.amount))
    ensures !(Positive(items[i].value) && Negates(items, i, false)) ==>
      NormalizeExpenseSigns(items)[i] == items[i]
  {
    SignsFromSpec(items, false, i);
  }

  /** A second pass changes nothing: the labels, and so the zone, are the
      same, and no negated value is positive any more. */
  lemma NormalizeExpenseSignsIdempotent(items: seq<Item>)
    ensures NormalizeExpenseSigns(NormalizeExpenseSigns(items)) == NormalizeExpenseSigns(items)
  {
    var once := NormalizeExpenseSigns(items);
    forall k | 0 <= k < |items| ensures once[k].name == items[k].name {
      NormalizeExpenseSignsSpec(items, k);
    }
    forall i | 0 <= i < |once| ensures NormalizeExpenseSigns(once)[i] == once[i] {
      NormalizeExpenseSignsSpec(items, i);
      NormalizeExpenseSignsSpec(once, i);
      SameLabelsSameZone(items, once, i);
    }
  }

  /** Zones depend only on the labels. */
  lemma SameLabelsSameZone(a: seq<Item>, b: seq<Item>, i: nat)
    requires |a| == |b| && i < |a|
    requires forall k :: 0 <= k < |a| ==> a[k].name == b[k].name
    ensures Negates(a, i, false) <==> Negates(b, i, false)
  {
    assert forall k :: 0 <= k < |a| ==> (Opens(a[k]) <==> Opens(b[k])) && (Closes(a[k]) <==> Closes(b[k]));
    if InZone(a, i, false) {
      var j :| 0 <= j < i && Opens(a[j]) && NotClosedBetween(a, j + 1, i);
      assert Opens(b[j]) && NotClosedBetween(b, j + 1, i);
    }
    if InZone(b, i, false) {
      var j :| 0 <= j < i && Opens(b[j]) && NotClosedBetween(b, j + 1, i);
      assert Opens(a[j]) && NotClosedBetween(a, j + 1, i);
    }
  }

  // ---------------------------------------------------------------------
  // parse_balance_sheet
  // ---------------------------------------------------------------------

  /** The balance-sheet layouts, each read by its own parser. */
  datatype Layout = NoRows | FullPesos1Q21 | Compact | SideBySide

  /** The layout `parse_balance_sheet` dispatches to: nothing for an empty
      file, then the 1Q21 parser by period, then by the widest row. */
  function BalanceSheetLayout(rows: seq<seq<string>>, period: string): (r: Layout)
    ensures r == NoRows <==> rows == []
    ensures r == FullPesos1Q21 <==> rows != [] && Upper(period) == "1Q21"
    ensures r == Compact <==>
      rows != [] && Upper(period) != "1Q21" && forall i :: 0 <= i < |rows| ==> |rows[i]| <= 4
    ensures r == SideBySide <==>
      rows != [] && Upper(period) != "1Q21" && exists i :: 0 <= i < |rows| && |rows[i]| > 4
  {
    if rows == [] then NoRows
    else if Upper(period) == "1Q21" then FullPesos1Q21
    else if MaxWidth(rows) <= 4 then Compact
    else SideBySide
  }

  /** The period test ignores letter case. */
  lemma LowerCase1Q21(rows: seq<seq<string>>)
    requires rows != []
    ensures BalanceSheetLayout(rows, "1q21") == FullPesos1Q21
  {
    var u := Upper("1q21");
    assert u[0] == '1' && u[1] == 'Q' && u[2] == '2' && u[3] == '1';
    assert u == "1Q21";
  }
}
