/** Quarter labels such as `3Q25` (third quarter of 2025) or the Spanish
    `3T25`: the sort key that orders workbook columns, the header row of a
    statement, and the column of one period in that header. */
module Periods {
  import opened Common
  import opened Strings

  /** `QUARTER_RE = (\d)[QqTt](\d{2})` matching at index `i`. */
  predicate QuarterAt(s: string, i: nat)
  {
    i + 4 <= |s| && IsDigit(s[i]) && (s[i + 1] == 'Q' || s[i + 1] == 'q' || s[i + 1] == 'T' || s[i + 1] == 't')
    && IsDigit(s[i + 2]) && IsDigit(s[i + 3])
  }

  /** `QUARTER_RE.search(s)` succeeds. */
  predicate HasQuarter(s: string) { exists i: nat | i <= |s| :: QuarterAt(s, i) }

  function DigitValue(c: char): (n: nat)
    requires IsDigit(c)
  {
    c as int - '0' as int
  }

  /** A sort key is a pair compared like a Python tuple. */
  type Key = (nat, nat)

  predicate KeyBefore(a: Key, b: Key) { a.0 < b.0 || (a.0 == b.0 && a.1 < b.1) }

  const Unsorted: Key := (99, 99)

  /** `period_sort_key(period)`: (year, quarter) for a period that starts
      with a quarter label, in either letter case, and (99, 99) for anything
      else. */
  function PeriodSortKey(period: string): (k: Key)
    ensures QuarterAt(Upper(period), 0) ==> k.0 <= 99 && k.1 <= 9
    ensures !QuarterAt(Upper(period), 0) ==> k == Unsorted
  {
    var u := Upper(period);
    if QuarterAt(u, 0) then (10 * DigitValue(u[2]) + DigitValue(u[3]), DigitValue(u[0])) else Unsorted
  }

  /** The label `dQyy` written for quarter `d` of year `yy`, with the
      quarter letter `q`. */
  function QuarterName(d: nat, yy: nat, q: char): (s: string)
    requires d <= 9 && yy <= 99
  {
    [DigitChar(d), q, DigitChar(yy / 10), DigitChar(yy % 10)]
  }

  /** The key reads back the quarter and year of any period that starts
      with a quarter label, whichever of the four quarter letters it uses
      and whatever follows the label. */
  lemma SortKeyOfQuarterName(d: nat, yy: nat, q: char, rest: string)
    requires d <= 9 && yy <= 99
    requires q == 'Q' || q == 'q' || q == 'T' || q == 't'
    ensures PeriodSortKey(QuarterName(d, yy, q) + rest) == (yy, d)
  {
    var s := QuarterName(d, yy, q) + rest;
    var u := Upper(s);
    assert u[0] == s[0] && u[2] == s[2] && u[3] == s[3];
    assert QuarterAt(u, 0);
  }

  /** Every period with a quarter label sorts before every period
      without one. */
  lemma QuartersSortFirst(p: string, other: string)
    requires QuarterAt(Upper(p), 0) && !QuarterAt(Upper(other), 0)
    ensures KeyBefore(PeriodSortKey(p), PeriodSortKey(other))
  {
  }

  /** Later years sort later, whatever the quarter. */
  lemma SortKeyChronological(d1: nat, y1: nat, d2: nat, y2: nat)
    requires d1 <= 9 && y1 <= 99 && d2 <= 9 && y2 <= 99
    requires y1 < y2 || (y1 == y2 && d1 < d2)
    ensures KeyBefore(PeriodSortKey(QuarterName(d1, y1, 'Q')), PeriodSortKey(QuarterName(d2, y2, 'T')))
  {
    SortKeyOfQuarterName(d1, y1, 'Q', []);
    SortKeyOfQuarterName(d2, y2, 'T', []);
  }

  // ---------------------------------------------------------------------
  // find_header_row
  // ---------------------------------------------------------------------

  /** The test `find_header_row` applies to one row: a quarter label
      anywhere in the row's text joined by spaces, or "thousand" together
      with "pesos" or a cell with a quarter label. */
  predicate IsHeaderRow(row: seq<string>)
  {
    var joined := Join(row, " ");
    HasQuarter(joined)
    || (Contains(Lower(joined), "thousand")
        && (Contains(Lower(joined), "pesos") || exists k :: 0 <= k < |row| && HasQuarter(row[k])))
  }

  /** `find_header_row(rows)`: the first header row. */
  function FindHeaderRow(rows: seq<seq<string>>): (r: Option<nat>)
    ensures r.Some? ==>
      r.value < |rows| && IsHeaderRow(rows[r.value]) && forall j :: 0 <= j < r.value ==> !IsHeaderRow(rows[j])
    ensures r.None? ==> forall j :: 0 <= j < |rows| ==> !IsHeaderRow(rows[j])
  {
    if rows == [] then None
    else if IsHeaderRow(rows[0]) then Some(0)
    else
      var r := FindHeaderRow(rows[1..]);
      if r.Some? then Some(r.value + 1) else None
  }

  /** Each cell sits inside the joined row. */
  lemma {:induction false} JoinHasPart(row: seq<string>, k: nat)
    requires k < |row|
    ensures Contains(Join(row, " "), row[k])
  {
    var j := Join(row, " ");
    if k == 0 {
      if |row| == 1 {
        assert OccursAt(j, row[0], 0);
      } else {
        assert j == row[0] + " " + Join(row[1..], " ");
        assert OccursAt(j, row[0], 0);
      }
    } else {
      JoinHasPart(row[1..], k - 1);
      var rest := Join(row[1..], " ");
      var off: nat :| off <= |rest| && OccursAt(rest, row[1..][k - 1], off);
      var pre := row[0] + " ";
      assert j == pre + rest;
      assert j[|pre| + off..|pre| + off + |row[k]|] == rest[off..off + |row[k]|];
      assert OccursAt(j, row[k], |pre| + off);
    }
  }

  /** A quarter label inside a part of `s` is a quarter label of `s`. */
  lemma QuarterInPart(s: string, t: string)
    requires Contains(s, t) && HasQuarter(t)
    ensures HasQuarter(s)
  {
    var off: nat :| off <= |s| && OccursAt(s, t, off);
    var i: nat :| i <= |t| && QuarterAt(t, i);
    assert s[off + i] == t[i] && s[off + i + 1] == t[i + 1] && s[off + i + 2] == t[i + 2] && s[off + i + 3] == t[i + 3];
    assert QuarterAt(s, off + i);
  }

  /** The per-cell quarter test never decides anything: a cell with a
      quarter label already puts one in the joined row, so a header row is
      one with a quarter label, or with both "thousand" and "pesos". */
  lemma HeaderRowSimplified(row: seq<string>)
    ensures IsHeaderRow(row) <==>
      HasQuarter(Join(row, " "))
      || (Contains(Lower(Join(row, " ")), "thousand") && Contains(Lower(Join(row, " ")), "pesos"))
  {
    if exists k :: 0 <= k < |row| && HasQuarter(row[k]) {
      var k :| 0 <= k < |row| && HasQuarter(row[k]);
      JoinHasPart(row, k);
      QuarterInPart(Join(row, " "), row[k]);
    }
  }

  // ---------------------------------------------------------------------
  // find_period_column
  // ---------------------------------------------------------------------

  /** A header cell upper-cased with its spaces removed. */
  function SquashCell(cell: string): string
  {
    RemoveChar(Upper(cell), ' ')
  }

  /** The cell names the period: its squashed text contains the upper-cased
      period or that period with every `Q` turned into `T`. */
  predicate NamesPeriod(cell: string, period: string)
  {
    var p := Upper(period);
    Contains(SquashCell(cell), p) || Contains(SquashCell(cell), ReplaceChar(p, 'Q', 'T'))
  }

  /** `find_period_column(header_row, period)`: the first column that
      names the period. */
  function FindPeriodColumn(header: seq<string>, period: string): (r: Option<nat>)
    ensures r.Some? ==>
      r.value < |header| && NamesPeriod(header[r.value], period)
      && forall j :: 0 <= j < r.value ==> !NamesPeriod(header[j], period)
    ensures r.None? ==> forall j :: 0 <= j < |header| ==> !NamesPeriod(header[j], period)
  {
    if header == [] then None
    else if NamesPeriod(header[0], period) then Some(0)
    else
      var r := FindPeriodColumn(header[1..], period);
      if r.Some? then Some(r.value + 1) else None
  }

  lemma UpperQuarterName(d: nat, yy: nat, q: char)
    requires d <= 9 && yy <= 99 && (q == 'Q' || q == 'T')
    ensures Upper(QuarterName(d, yy, q)) == QuarterName(d, yy, q)
  {
    var s := QuarterName(d, yy, q);
    assert Upper(s)[0] == s[0] && Upper(s)[1] == s[1] && Upper(s)[2] == s[2] && Upper(s)[3] == s[3];
  }

  lemma SquashQuarterName(d: nat, yy: nat, q: char)
    requires d <= 9 && yy <= 99 && (q == 'Q' || q == 'T')
    ensures SquashCell(QuarterName(d, yy, q)) == QuarterName(d, yy, q)
  {
    var s := QuarterName(d, yy, q);
    UpperQuarterName(d, yy, q);
    assert forall i :: 0 <= i < 4 ==> s[i] != ' ';
    assert s[3..][1..] == [];
    assert RemoveChar(s[3..], ' ') == s[3..];
    assert s[2..][1..] == s[3..];
    assert RemoveChar(s[2..], ' ') == s[2..];
    assert s[1..][1..] == s[2..];
    assert RemoveChar(s[1..], ' ') == s[1..];
  }

  /** An English period finds the Spanish column of the same quarter. */
  lemma EnglishPeriodFindsSpanishColumn(d: nat, yy: nat)
    requires d <= 9 && yy <= 99
    ensures NamesPeriod(QuarterName(d, yy, 'T'), QuarterName(d, yy, 'Q'))
  {
    var p := QuarterName(d, yy, 'Q');
    var t := QuarterName(d, yy, 'T');
    UpperQuarterName(d, yy, 'Q');
    SquashQuarterName(d, yy, 'T');
    assert ReplaceChar(p, 'Q', 'T') == t;
    assert OccursAt(t, t, 0);
  }

  /** The converse does not hold: a Spanish period does not find the
      English column of the same quarter. The callers only ever pass
      periods with a `Q`. */
  lemma SpanishPeriodMissesEnglishColumn(d: nat, yy: nat)
    requires d <= 9 && yy <= 99
    ensures !NamesPeriod(QuarterName(d, yy, 'Q'), QuarterName(d, yy, 'T'))
  {
    var p := QuarterName(d, yy, 'Q');
    var t := QuarterName(d, yy, 'T');
    UpperQuarterName(d, yy, 'T');
    SquashQuarterName(d, yy, 'Q');
    assert ReplaceChar(t, 'Q', 'T') == t;
    forall i: nat | i <= |p| ensures !OccursAt(p, t, i) {
      if i == 0 { assert p[0..4][1] == p[1] && p[1] != t[1]; }
    }
  }
}
