/** The rules of the batch extractor that decide what happens to a report:
    the period its file name stands for, the pages worth extracting, the
    statement type each extracted table scores highest for, and the unique
    name each table is renamed to. Regular-expression searches over table
    text are an input (`Searcher`); the rest is modelled exactly. */
module Batch {
  import opened Common
  import opened Strings
  import opened Periods
  import opened Scan

  // ---------------------------------------------------------------------
  // derive_period
  // ---------------------------------------------------------------------

  /** `PurePath(name).stem` for a bare file name: the name without its last
      suffix, a suffix being the last dot, when it is neither the first nor
      the last character, and what follows it. */
  function Stem(name: string): (r: string)
    ensures r == name || (0 < |r| < |name| - 1 && r == name[..|r|] && name[|r|] == '.'
                          && forall j :: |r| < j < |name| ==> name[j] != '.')
  {
    var i := LastIndex(name, '.');
    if i.Some? && 0 < i.value < |name| - 1 then name[..i.value] else name
  }

  /** A non-empty name with a dot-free extension loses exactly the
      extension. */
  lemma StemDropsExtension(s: string, e: string)
    requires s != [] && e != [] && '.' !in e
    ensures Stem(s + "." + e) == s
  {
    var n := s + "." + e;
    assert n[|s|] == '.';
    assert forall j :: |s| < j < |n| ==> n[j] == e[j - |s| - 1];
    var i := LastIndex(n, '.');
    assert i == Some(|s|);
    assert n[..|s|] == s;
  }

  /** `re.match(r"(\d[Qq]\d{2})", stem)`. */
  predicate QuarterPrefix(s: string)
  {
    |s| >= 4 && IsDigit(s[0]) && (s[1] == 'Q' || s[1] == 'q') && IsDigit(s[2]) && IsDigit(s[3])
  }

  /** `derive_period(filename)` for a bare file name: the upper-cased
      leading `dQyy` of the stem, or else the whole stem. */
  function DerivePeriod(name: string): (r: string)
    ensures QuarterPrefix(Stem(name)) ==>
      |r| == 4 && r[1] == 'Q' && r[0] == Stem(name)[0] && r[2..] == Stem(name)[2..4] && QuarterAt(r, 0)
    ensures !QuarterPrefix(Stem(name)) ==> r == Stem(name)
  {
    var s := Stem(name);
    if QuarterPrefix(s) then Upper(s[..4]) else s
  }

  /** A file named after a quarter, in either letter case, gives that
      quarter with an upper-case `Q`. */
  lemma QuarterFileName(d: nat, yy: nat, q: char, e: string)
    requires d <= 9 && yy <= 99 && (q == 'Q' || q == 'q')
    requires e != [] && '.' !in e
    ensures DerivePeriod(QuarterName(d, yy, q) + "." + e) == QuarterName(d, yy, 'Q')
  {
    StemDropsExtension(QuarterName(d, yy, q), e);
  }

  /** Any other file name gives its stem. */
  lemma OtherFileName(s: string, e: string)
    requires s != [] && e != [] && '.' !in e && !QuarterPrefix(s)
    ensures DerivePeriod(s + "." + e) == s
  {
    StemDropsExtension(s, e);
  }

  /** A derived quarter period sorts as the quarter of its file name. */
  lemma DerivedPeriodSorts(name: string)
    requires QuarterPrefix(Stem(name))
    ensures var s := Stem(name);
      PeriodSortKey(DerivePeriod(name)) == (10 * DigitValue(s[2]) + DigitValue(s[3]), DigitValue(s[0]))
  {
    var r := DerivePeriod(name);
    assert Upper(r)[0] == r[0] && Upper(r)[2] == r[2] && Upper(r)[3] == r[3] && Upper(r)[1] == 'Q';
  }

  // ---------------------------------------------------------------------
  // Classification
  // ---------------------------------------------------------------------

  datatype Statement =
    IncomeStatement | BalanceSheet | CashFlow | NoiEbitda | FfoAffo | KeyIndicators | CreditProfile

  /** The statement types in the order `STATEMENT_PATTERNS` lists them. */
  const StatementTypes: seq<Statement> :=
    [IncomeStatement, BalanceSheet, CashFlow, NoiEbitda, FfoAffo, KeyIndicators, CreditProfile]

  /** The position of the type in `StatementTypes`. */
  function TypeIndex(t: Statement): (k: nat)
    ensures k < |StatementTypes| && StatementTypes[k] == t
  {
    match t
    case IncomeStatement => 0
    case BalanceSheet => 1
    case CashFlow => 2
    case NoiEbitda => 3
    case FfoAffo => 4
    case KeyIndicators => 5
    case CreditProfile => 6
  }

  /** The type's name, the base of its output file names. */
  function TypeName(t: Statement): string
  {
    match t
    case IncomeStatement => "income_statement"
    case BalanceSheet => "balance_sheet"
    case CashFlow => "cash_flow"
    case NoiEbitda => "noi_ebitda"
    case FfoAffo => "ffo_affo"
    case KeyIndicators => "key_indicators"
    case CreditProfile => "credit_profile"
  }

  /** How many patterns `STATEMENT_PATTERNS` holds for the type. */
  function PatternCount(t: Statement): nat
  {
    match t
    case IncomeStatement => 4
    case BalanceSheet => 5
    case CashFlow => 3
    case NoiEbitda => 4
    case FfoAffo => 4
    case KeyIndicators => 4
    case CreditProfile => 5
  }

  /** Whether the `k`-th pattern of type `t` is found in the text: the
      case-insensitive regular-expression search, taken as an input. */
  type Searcher = (Statement, nat, string) -> bool

  /** `sum(1 for p in patterns[:n] if p.search(text))`. */
  function Hits(search: Searcher, t: Statement, n: nat, text: string): (r: nat)
  {
    if n == 0 then 0 else Hits(search, t, n - 1, text) + (if search(t, n - 1, text) then 1 else 0)
  }

  /** The number of patterns of `t` found in the text. */
  function Score(search: Searcher, t: Statement, text: string): nat
  {
    Hits(search, t, PatternCount(t), text)
  }

  /** The scores of all types, in `STATEMENT_PATTERNS` order. */
  function Scores(search: Searcher, text: string): (r: seq<nat>)
    ensures |r| == |StatementTypes|
    ensures forall k :: 0 <= k < |r| ==> r[k] == Score(search, StatementTypes[k], text)
  {
    seq(|StatementTypes|, k requires 0 <= k < |StatementTypes| => Score(search, StatementTypes[k], text))
  }

  /** The classification loop from index `i` on, with the best index so
      far and its score: a later type replaces it only with a strictly
      higher score. */
  function BestFrom(scores: seq<nat>, i: nat, best: Option<nat>, bestScore: nat): (Option<nat>, nat)
    requires i <= |scores|
    decreases |scores| - i
  {
    if i == |scores| then (best, bestScore)
    else if scores[i] > bestScore then BestFrom(scores, i + 1, Some(i), scores[i])
    else BestFrom(scores, i + 1, best, bestScore)
  }

  /** `k` holds the first of the highest scores, and that score is
      positive. */
  predicate FirstBest(scores: seq<nat>, k: nat)
  {
    k < |scores| && scores[k] > 0
    && (forall j :: 0 <= j < k ==> scores[j] < scores[k])
    && (forall j :: k < j < |scores| ==> scores[j] <= scores[k])
  }

  /** What the loop knows after looking at `scores[..i]`. */
  predicate BestSoFar(scores: seq<nat>, i: nat, best: Option<nat>, bestScore: nat)
    requires i <= |scores|
  {
    if best.None? then bestScore == 0 && forall j :: 0 <= j < i ==> scores[j] == 0
    else
      var k := best.value;
      k < i && bestScore == scores[k] > 0
      && (forall j :: 0 <= j < k ==> scores[j] < scores[k])
      && (forall j :: k < j < i ==> scores[j] <= scores[k])
  }

  lemma {:induction false} BestFromSpec(scores: seq<nat>, i: nat, best: Option<nat>, bestScore: nat)
    requires i <= |scores| && BestSoFar(scores, i, best, bestScore)
    ensures var r := BestFrom(scores, i, best, bestScore); BestSoFar(scores, |scores|, r.0, r.1)
    decreases |scores| - i
  {
    if i < |scores| {
      if scores[i] > bestScore {
        BestFromSpec(scores, i + 1, Some(i), scores[i]);
      } else {
        BestFromSpec(scores, i + 1, best, bestScore);
      }
    }
  }

  /** The loop from the start: no type when every score is 0, otherwise
      the first type with the highest score, and that score. */
  function Best(scores: seq<nat>): (r: (Option<nat>, nat))
    ensures r.0.None? <==> forall j :: 0 <= j < |scores| ==> scores[j] == 0
    ensures r.0.None? ==> r.1 == 0
    ensures r.0.Some? ==> FirstBest(scores, r.0.value) && r.1 == scores[r.0.value]
  {
    BestFromSpec(scores, 0, None, 0);
    BestFrom(scores, 0, None, 0)
  }

  /** The scoring loop shared by `classify_table` and
      `classify_from_scan`. */
  function ClassifyText(search: Searcher, text: string): (r: (Option<Statement>, nat))
    ensures r.0.None? <==> forall k :: 0 <= k < |StatementTypes| ==> Score(search, StatementTypes[k], text) == 0
    ensures r.0.None? ==> r.1 == 0
    ensures r.0.Some? ==> FirstBest(Scores(search, text), TypeIndex(r.0.value)) && r.1 == Score(search, r.0.value, text)
  {
    var scores := Scores(search, text);
    var b := Best(scores);
    if b.0.Some? then
      (Some(StatementTypes[b.0.value]), b.1)
    else (None, 0)
  }

  /** Of two types with the same highest score the earlier one wins. */
  lemma TieGoesToEarlier(search: Searcher, text: string, a: nat, b: nat)
    requires a < b < |StatementTypes|
    requires Score(search, StatementTypes[a], text) == Score(search, StatementTypes[b], text) > 0
    ensures ClassifyText(search, text).0 != Some(StatementTypes[b])
  {
    var r := ClassifyText(search, text);
    if r.0.Some? {
    }
  }

  /** The winner's score bounds every type's score. */
  lemma WinnerScoresHighest(search: Searcher, text: string, t: Statement)
    requires ClassifyText(search, text).0.Some?
    ensures Score(search, t, text) <= ClassifyText(search, text).1
  {
    var r := ClassifyText(search, text);
    var k := TypeIndex(r.0.value);
    var j := TypeIndex(t);
    assert Scores(search, text)[j] <= Scores(search, text)[k];
  }

  predicate NonBlankCell(cell: string) { !IsBlank(cell) }

  const HeadRows := 15

  /** The text `classify_table` searches: the non-blank cells of each of
      the first fifteen rows joined by spaces, and the rows joined by
      spaces. */
  function TableText(rows: seq<seq<string>>): string
  {
    var head := Take(rows, HeadRows);
    Join(seq(|head|, i requires 0 <= i < |head| => Join(Filter(head[i], NonBlankCell), " ")), " ")
  }

  /** `classify_table`: a file that cannot be read, or has no rows, is
      unclassified. */
  function ClassifyTable(search: Searcher, rows: Option<seq<seq<string>>>): (r: (Option<Statement>, nat))
    ensures rows.None? || rows.value == [] ==> r == (None, 0)
    ensures rows.Some? && rows.value != [] ==> r == ClassifyText(search, TableText(rows.value))
  {
    if rows.None? || rows.value == [] then (None, 0) else ClassifyText(search, TableText(rows.value))
  }

  /** Rows past the fifteenth do not affect the classification. */
  lemma OnlyHeadRowsCount(search: Searcher, rows: seq<seq<string>>, more: seq<seq<string>>)
    requires |rows| >= HeadRows
    ensures ClassifyTable(search, Some(rows + more)) == ClassifyTable(search, Some(rows))
  {
    assert Take(rows + more, HeadRows) == Take(rows, HeadRows);
  }

  /** The text `classify_from_scan` searches: the page's keywords joined by
      spaces, a space, and its preview; a page missing from the scan has
      neither. */
  function ScanText(info: Option<PageInfo>): string
  {
    if info.None? then " " else Join(info.value.keywords, " ") + " " + info.value.preview
  }

  function ClassifyFromScan(search: Searcher, info: Option<PageInfo>): (Option<Statement>, nat)
  {
    ClassifyText(search, ScanText(info))
  }

  const PagePrefix := "page_"

  /** `re.match(r"page_(\d+)_", name)`: the page number, when the digits
      after the prefix are followed by an underscore. */
  function PageOfName(name: string): (r: Option<nat>)
  {
    if StartsWith(name, PagePrefix) then
      var e := DigitRunEnd(name, 5);
      if 5 < e < |name| && name[e] == '_' then Some(DigitsValue(name[5..e])) else None
    else None
  }

  /** The extractor's own file names give back their page number. */
  lemma PageOfTableName(n: nat, rest: string)
    requires rest != [] && rest[0] == '_'
    ensures PageOfName(PagePrefix + NatToString(n) + rest) == Some(n)
  {
    var d := NatToString(n);
    var name := PagePrefix + d + rest;
    assert name[..5] == PagePrefix;
    assert forall j :: 5 <= j < 5 + |d| ==> name[j] == d[j - 5];
    assert name[5 + |d|] == '_';
    assert DigitRunEnd(name, 5) == 5 + |d| by {
      DigitRunAt(name, 5, 5 + |d|);
    }
    assert name[5..5 + |d|] == d;
    NatToStringRoundTrip(n);
  }

  /** The classification fallback of `rename_tables`: the scan is
      consulted only when the table scored below 1, and replaces the result
      only with a strictly higher score. */
  function Reclassify(csv: (Option<Statement>, nat), scan: Option<(Option<Statement>, nat)>): (r: (Option<Statement>, nat))
    ensures csv.1 >= 1 || scan.None? ==> r == csv
    ensures r != csv ==> csv.1 < 1 && scan.Some? && r == scan.value && r.1 > csv.1
    ensures r.1 >= csv.1
  {
    if csv.1 < 1 && scan.Some? && scan.value.1 > csv.1 then scan.value else csv
  }

  // ---------------------------------------------------------------------
  // select_financial_pages
  // ---------------------------------------------------------------------

  const DefaultMaxPages := 15

  /** A page with tables and at least two keywords. */
  predicate IsPrimary(p: PageInfo) { p.tables > 0 && |p.keywords| >= 2 }

  function PrimaryScore(p: PageInfo): int { |p.keywords| * 2 + p.tables }

  /** A page with tables and at least one keyword. */
  predicate IsFallback(p: PageInfo) { p.tables > 0 && |p.keywords| >= 1 }

  function FallbackScore(p: PageInfo): int { |p.keywords| }

  /** The `n` best of `s` by `key`, ties in their original order. */
  function Top(s: seq<PageInfo>, key: PageInfo -> int, n: nat): (r: seq<PageInfo>)
    ensures |r| == if n <= |s| then n else |s|
    ensures SortedDesc(r, key)
    ensures forall p :: p in r ==> p in s
    ensures forall p, q :: p in r && q in s && key(q) > key(p) ==> q in r
    ensures forall k :: WithKey(r, key, k) <= WithKey(s, key, k)
  {
    var sorted := SortDesc(s, key);
    var r := Take(sorted, n);
    forall k ensures WithKey(r, key, k) <= WithKey(s, key, k) {
      WithKeyOfPrefix(sorted, key, k, |r|);
      SortDescStable(s, key, k);
    }
    SortedPrefix(sorted, key, |r|);
    SameMembers(s, sorted);
    SortedPrefixKeepsBest(sorted, key, |r|);
    r
  }

  /** A prefix of a descending sequence is descending. */
  lemma SortedPrefix(s: seq<PageInfo>, key: PageInfo -> int, n: nat)
    requires SortedDesc(s, key) && n <= |s|
    ensures SortedDesc(s[..n], key)
    ensures forall p :: p in s[..n] ==> p in s
  {
  }

  /** Sequences that are permutations of each other have the same members. */
  lemma SameMembers(s: seq<PageInfo>, t: seq<PageInfo>)
    requires multiset(t) == multiset(s)
    ensures forall p :: p in t <==> p in s
  {
    forall p ensures p in t <==> p in s {
      assert p in t <==> p in multiset(t);
      assert p in s <==> p in multiset(s);
    }
  }

  /** A prefix of a descending sequence holds every element that is
      better than one of its own. */
  lemma SortedPrefixKeepsBest(s: seq<PageInfo>, key: PageInfo -> int, n: nat)
    requires SortedDesc(s, key) && n <= |s|
    ensures forall p, q :: p in s[..n] && q in s && key(q) > key(p) ==> q in s[..n]
  {
    forall p, q | p in s[..n] && q in s && key(q) > key(p) ensures q in s[..n] {
      var i :| 0 <= i < n && s[..n][i] == p;
      var j :| 0 <= j < |s| && s[j] == q;
      assert s[i] == p;
      assert j < n;
      assert s[..n][j] == q;
    }
  }

  /** The pages `select_financial_pages` picks, best first. */
  function SelectPages(pages: seq<PageInfo>, maxPages: nat): (r: seq<PageInfo>)
    ensures |r| <= maxPages
    ensures forall p :: p in r ==> p in pages
    ensures maxPages > 0 && Count(pages, IsPrimary) > 0 ==>
      |r| == (if maxPages <= Count(pages, IsPrimary) then maxPages else Count(pages, IsPrimary))
      && (forall p :: p in r ==> IsPrimary(p)) && SortedDesc(r, PrimaryScore)
      && (forall p, q :: p in r && q in pages && IsPrimary(q) && PrimaryScore(q) > PrimaryScore(p) ==> q in r)
      && forall k :: WithKey(r, PrimaryScore, k) <= WithKey(Filter(pages, IsPrimary), PrimaryScore, k)
    ensures !(maxPages > 0 && Count(pages, IsPrimary) > 0) ==>
      |r| == (if maxPages <= Count(pages, IsFallback) then maxPages else Count(pages, IsFallback))
      && (forall p :: p in r ==> IsFallback(p)) && SortedDesc(r, FallbackScore)
      && (forall p, q :: p in r && q in pages && IsFallback(q) && FallbackScore(q) > FallbackScore(p) ==> q in r)
      && forall k :: WithKey(r, FallbackScore, k) <= WithKey(Filter(pages, IsFallback), FallbackScore, k)
  {
    var primary := Filter(pages, IsPrimary);
    var top := Top(primary, PrimaryScore, maxPages);
    assert |primary| == Count(pages, IsPrimary);
    if top != [] then
      assert maxPages > 0 && Count(pages, IsPrimary) > 0;
      assert forall q :: q in pages && IsPrimary(q) ==> q in primary by {
        FilterKeeps(pages, IsPrimary);
      }
      top
    else
      assert !(maxPages > 0 && Count(pages, IsPrimary) > 0);
      var fallback := Filter(pages, IsFallback);
      assert |fallback| == Count(pages, IsFallback);
      assert forall q :: q in pages && IsFallback(q) ==> q in fallback by {
        FilterKeeps(pages, IsFallback);
      }
      Top(fallback, FallbackScore, maxPages)
  }

  /** The primary selection is empty only when no page qualifies or no
      page may be taken; then the fallback decides. */
  lemma FallbackOnlyWhenPrimaryEmpty(pages: seq<PageInfo>, maxPages: nat)
    requires maxPages > 0 && exists p :: p in pages && IsPrimary(p)
    ensures forall p :: p in SelectPages(pages, maxPages) ==> IsPrimary(p)
    ensures SelectPages(pages, maxPages) != []
  {
    var p :| p in pages && IsPrimary(p);
    FilterKeeps(pages, IsPrimary);
    assert p in Filter(pages, IsPrimary);
    assert |Top(Filter(pages, IsPrimary), PrimaryScore, maxPages)| > 0 by {
      var sorted := SortDesc(Filter(pages, IsPrimary), PrimaryScore);
      assert |sorted| == |Filter(pages, IsPrimary)| > 0;
    }
  }

  /** Pages of equal score keep their document order. */
  lemma SelectionStable(pages: seq<PageInfo>, k: int)
    ensures WithKey(SortDesc(Filter(pages, IsPrimary), PrimaryScore), PrimaryScore, k)
         == WithKey(Filter(pages, IsPrimary), PrimaryScore, k)
  {
    SortDescStable(Filter(pages, IsPrimary), PrimaryScore, k);
  }

  function PageNumbers(pages: seq<PageInfo>): (r: seq<int>)
    ensures |r| == |pages| && forall i :: 0 <= i < |r| ==> r[i] == pages[i].page
  {
    seq(|pages|, i requires 0 <= i < |pages| => pages[i].page)
  }

  /** `select_financial_pages(scan_data, max_pages)`. */
  function SelectFinancialPages(pages: seq<PageInfo>, maxPages: nat): seq<int>
  {
    PageNumbers(SelectPages(pages, maxPages))
  }

  // ---------------------------------------------------------------------
  // unique_name
  // ---------------------------------------------------------------------

  /** `f"{base}_{period}.csv"` */
  function PlainName(base: string, period: string): string
  {
    base + "_" + period + ".csv"
  }

  /** `f"{base}_{counter}"` */
  function CounterKey(base: string, n: nat): (k: string)
    ensures |k| == |base| + 1 + |NatToString(n)|
  {
    base + "_" + NatToString(n)
  }

  /** `f"{base}_{counter}_{period}.csv"` */
  function CounterName(base: string, n: nat, period: string): (r: string)
    ensures |r| == |CounterKey(base, n)| + 1 + |period| + 4
  {
    CounterKey(base, n) + "_" + period + ".csv"
  }

  /** Different counters give different names, whatever the base and
      period. */
  lemma CounterNameInjective(base: string, a: nat, b: nat, period: string)
    requires CounterName(base, a, period) == CounterName(base, b, period)
    ensures a == b
  {
    var x := CounterName(base, a, period);
    var da := NatToString(a);
    var db := NatToString(b);
    if |da| < |db| {
      assert false;
    } else if |db| < |da| {
      assert false;
    }
    assert da == db by {
      forall j | 0 <= j < |da| ensures da[j] == db[j] {
        assert x[|base| + 1 + j] == da[j];
      }
    }
    NatToStringInjective(a, b);
  }

  /** The used names some counter from `n` on would produce. */
  ghost function UsedFrom(used: set<string>, base: string, period: string, n: nat): set<string>
  {
    set x | x in used && exists j: nat :: j >= n && x == CounterName(base, j, period)
  }

  /** The counter loop of `unique_name`: the first counter from `n` on
      whose name is unused. */
  function FreeCounter(used: set<string>, base: string, period: string, n: nat): (r: nat)
    ensures r >= n && CounterName(base, r, period) !in used
    ensures forall j :: n <= j < r ==> CounterName(base, j, period) in used
    decreases UsedFrom(used, base, period, n)
  {
    if CounterName(base, n, period) !in used then n
    else
      var x := CounterName(base, n, period);
      assert x in UsedFrom(used, base, period, n);
      assert x !in UsedFrom(used, base, period, n + 1) by {
        if x in UsedFrom(used, base, period, n + 1) {
          var j: nat :| j >= n + 1 && x == CounterName(base, j, period);
          CounterNameInjective(base, n, j, period);
        }
      }
      assert UsedFrom(used, base, period, n + 1) <= UsedFrom(used, base, period, n);
      FreeCounter(used, base, period, n + 1)
  }

  datatype Naming = Naming(name: string, key: string, used: set<string>)

  /** `unique_name(base, period)` with the names used so far: the plain
      name when it is free, otherwise the name with the smallest counter
      from 2 whose name is free. The name joins the used names. */
  function UniqueName(used: set<string>, base: string, period: string): (r: Naming)
    ensures r.name !in used && r.used == used + {r.name}
    ensures PlainName(base, period) !in used ==> r.name == PlainName(base, period) && r.key == base
    ensures PlainName(base, period) in used ==> exists n: nat ::
      n >= 2 && r.name == CounterName(base, n, period) && r.key == CounterKey(base, n)
      && forall j :: 2 <= j < n ==> CounterName(base, j, period) in used
  {
    var plain := PlainName(base, period);
    if plain !in used then Naming(plain, base, used + {plain})
    else
      var n := FreeCounter(used, base, period, 2);
      var name := CounterName(base, n, period);
      Naming(name, CounterKey(base, n), used + {name})
  }

  /** The names of a run of bases, in order, starting from `used`. */
  function NameAll(bases: seq<string>, period: string, used: set<string>): (r: seq<Naming>)
    ensures |r| == |bases|
    ensures forall k :: 0 <= k < |r| ==> r[k].name !in used
    ensures forall i, j :: 0 <= i < j < |r| ==> r[i].name != r[j].name
  {
    if bases == [] then []
    else
      var first := UniqueName(used, bases[0], period);
      var rest := NameAll(bases[1..], period, first.used);
      var r := [first] + rest;
      assert forall k :: 1 <= k < |r| ==> r[k] == rest[k - 1];
      r
  }

  /** The second table of a type is numbered 2 and the third 3. */
  lemma RepeatedTypeNumbered(t: Statement, period: string)
    ensures var r := NameAll([TypeName(t), TypeName(t), TypeName(t)], period, {});
      r[0].name == PlainName(TypeName(t), period)
      && r[1].name == CounterName(TypeName(t), 2, period)
      && r[2].name == CounterName(TypeName(t), 3, period)
  {
    var b := TypeName(t);
    var bases := [b, b, b];
    var r := NameAll(bases, period, {});
    var n0 := UniqueName({}, b, period);
    var u1 := {PlainName(b, period)};
    assert n0.used == u1;
    assert bases[1..] == [b, b];
    var rest1 := NameAll([b, b], period, u1);
    assert r == [n0] + rest1;
    var n1 := UniqueName(u1, b, period);
    assert [b, b][1..] == [b];
    var rest2 := NameAll([b], period, n1.used);
    assert rest1 == [n1] + rest2;
    assert CounterName(b, 2, period) != PlainName(b, period) by {
      assert |NatToString(2)| == 1;
    }
    assert FreeCounter(u1, b, period, 2) == 2;
    var u2 := u1 + {CounterName(b, 2, period)};
    assert n1.used == u2;
    var n2 := UniqueName(u2, b, period);
    assert rest2 == [n2];
    assert CounterName(b, 3, period) != PlainName(b, period) by {
      assert |NatToString(3)| == 1;
    }
    assert CounterName(b, 3, period) != CounterName(b, 2, period) by {
      if CounterName(b, 3, period) == CounterName(b, 2, period) {
        CounterNameInjective(b, 3, 2, period);
      }
    }
    assert FreeCounter(u2, b, period, 3) == 3;
    assert FreeCounter(u2, b, period, 2) == 3;
  }

  // ---------------------------------------------------------------------
  // rename_tables
  // ---------------------------------------------------------------------

  const TableInfix := "_table_"

  /** `re.match(r"(page_\d+_table_\d+)", name)`, or else the stem: the
      base name of a table no type claimed. */
  function TableBase(name: string): string
  {
    if StartsWith(name, PagePrefix) then
      var e := DigitRunEnd(name, 5);
      if e > 5 && OccursAt(name, TableInfix, e) then
        var f := DigitRunEnd(name, e + 7);
        if f > e + 7 then name[..f] else Stem(name)
      else Stem(name)
    else Stem(name)
  }

  /** The extractor's name for table `m` of page `n`. */
  function ExtractedName(n: nat, m: nat): string
  {
    PagePrefix + NatToString(n) + TableInfix + NatToString(m)
  }

  /** `TableBase` of a name shaped `page_<digits>_table_<digits>` and
      something that is not a digit. */
  lemma TableBaseOfShape(name: string, e: nat, f: nat)
    requires StartsWith(name, PagePrefix) && 5 < e && e + 7 < f < |name|
    requires AllDigits(name[5..e]) && OccursAt(name, TableInfix, e)
    requires AllDigits(name[e + 7..f]) && !IsDigit(name[f])
    ensures TableBase(name) == name[..f]
  {
    assert name[e] == TableInfix[0];
    DigitRunAt(name, 5, e);
    DigitRunAt(name, e + 7, f);
  }

  /** An extracted table no type claims keeps its page and table numbers
      as its base, and its name gives back its page. */
  lemma ExtractedNameBase(n: nat, m: nat)
    ensures TableBase(ExtractedName(n, m) + ".csv") == ExtractedName(n, m)
    ensures PageOfName(ExtractedName(n, m) + ".csv") == Some(n)
  {
    var dn := NatToString(n);
    var dm := NatToString(m);
    var base := ExtractedName(n, m);
    var name := base + ".csv";
    var e := 5 + |dn|;
    var f := e + 7 + |dm|;
    assert name == PagePrefix + dn + (TableInfix + dm + ".csv");
    PageOfTableName(n, TableInfix + dm + ".csv");
    assert name[..f] == base;
    assert name[5..e] == dn;
    assert name[e..e + 7] == TableInfix;
    assert name[e + 7..f] == dm;
    assert name[f] == '.';
    TableBaseOfShape(name, e, f);
  }

  /** An extracted table's file: its name and its rows, or `None` when it
      cannot be read. */
  datatype Csv = Csv(fileName: string, rows: Option<seq<seq<string>>>)

  /** The type and score a table ends up with, after the scan fallback. */
  function FinalClass(search: Searcher, csv: Csv, lookup: map<int, PageInfo>): (r: (Option<Statement>, nat))
    ensures var c := ClassifyTable(search, csv.rows);
      r.1 >= c.1 && (c.1 >= 1 ==> r == c)
  {
    var c := ClassifyTable(search, csv.rows);
    var page := PageOfName(csv.fileName);
    var scan :=
      if c.1 < 1 && page.Some? then
        Some(ClassifyFromScan(search, if page.value in lookup then Some(lookup[page.value]) else None))
      else None;
    Reclassify(c, scan)
  }

  /** The base a table is named after: its type's name, or its own page
      and table numbers. */
  function BaseFor(search: Searcher, csv: Csv, lookup: map<int, PageInfo>): string
  {
    var c := FinalClass(search, csv, lookup);
    if c.0.Some? then TypeName(c.0.value) else TableBase(csv.fileName)
  }

  function Bases(search: Searcher, csvs: seq<Csv>, lookup: map<int, PageInfo>): (r: seq<string>)
    ensures |r| == |csvs| && forall k :: 0 <= k < |r| ==> r[k] == BaseFor(search, csvs[k], lookup)
  {
    seq(|csvs|, k requires 0 <= k < |csvs| => BaseFor(search, csvs[k], lookup))
  }

  /** The (key, new name) pairs of `rename_tables`, for the table files in
      sorted order: no name is given twice. */
  function RenameTables(search: Searcher, csvs: seq<Csv>, period: string, lookup: map<int, PageInfo>): (r: seq<Naming>)
    ensures |r| == |csvs|
    ensures forall i, j :: 0 <= i < j < |r| ==> r[i].name != r[j].name
  {
    NameAll(Bases(search, csvs, lookup), period, {})
  }

  /** `page_lookup`: each scanned page by number, a later entry replacing
      an earlier one with the same number. */
  function PageLookup(pages: seq<PageInfo>): (m: map<int, PageInfo>)
    ensures forall p :: p in pages ==> p.page in m
    ensures forall n :: n in m ==> m[n] in pages && m[n].page == n
  {
    if pages == [] then map[]
    else
      var last := pages[|pages| - 1];
      var m := PageLookup(pages[..|pages| - 1])[last.page := last];
      assert forall p :: p in pages ==> p == last || p in pages[..|pages| - 1];
      m
  }
}
