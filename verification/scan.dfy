/** The page map of a report. For each page it records the table count,
    the financial keywords found in the page text and a short preview. For
    the whole document it lists the pages worth a closer look. The text of
    a page and the number of tables each detection strategy finds are
    inputs: the PDF reader is not part of this model. */
module Scan {
  import opened Common
  import opened Strings

  const EnglishKeywords: seq<string> := [
    "revenue", "income", "ebitda", "noi", "net operating income",
    "balance sheet", "cash flow", "total assets", "total liabilities",
    "equity", "earnings", "depreciation", "amortization", "capex",
    "capital expenditure", "operating expenses", "gross profit",
    "net income", "dividends", "distributions", "occupancy",
    "rental income", "interest expense", "debt", "leverage",
    "loan to value", "ltv", "ffo", "affo", "funds from operations",
    "fair value", "investment properties", "gla", "sqm", "sq ft"]

  const SpanishKeywords: seq<string> := [
    "ingresos", "estado de resultados", "estado de posición financiera",
    "balance general", "flujo de efectivo", "utilidad neta",
    "utilidad de operación", "activos totales", "pasivos totales",
    "capital contable", "depreciación", "amortización",
    "gastos de operación", "ingreso por rentas", "gasto por intereses",
    "deuda", "propiedades de inversión", "ocupación",
    "resultado integral", "distribuciones", "certificados",
    "cbfis", "fibra", "fideicomiso", "arrendamiento",
    "millones de pesos", "miles de pesos"]

  /** `ALL_KEYWORDS`: the English keywords, then the Spanish ones. */
  const AllKeywords: seq<string> := EnglishKeywords + SpanishKeywords

  /** One entry of the page map. */
  datatype PageInfo = PageInfo(
    page: int, tables: nat, chars: nat, hasNumbers: bool, keywords: seq<string>, preview: string)

  /** The larger of the two detection strategies' table counts. */
  function TableCount(linesTables: nat, textTables: nat): (r: nat)
    ensures r >= linesTables && r >= textTables
    ensures r == linesTables || r == textTables
  {
    if linesTables >= textTables then linesTables else textTables
  }

  // ---------------------------------------------------------------------
  // Keywords
  // ---------------------------------------------------------------------

  /** A keyword compiled with `re.IGNORECASE` found in the lower-cased page
      text: the keyword, lower-cased, occurs in the lower-cased text. */
  predicate KeywordFound(text: string, kw: string)
  {
    Contains(Lower(text), Lower(kw))
  }

  /** The keywords of `kws` found in `text`, in the order of `kws`. */
  function MatchedKeywords(text: string, kws: seq<string>): (r: seq<string>)
    ensures SubsequenceOf(r, kws)
    ensures forall kw :: kw in r <==> kw in kws && KeywordFound(text, kw)
  {
    if kws == [] then []
    else
      var rest := MatchedKeywords(text, kws[1..]);
      if KeywordFound(text, kws[0]) then [kws[0]] + rest
      else
        assert rest == [] || rest[0] != kws[0];
        rest
  }

  // ---------------------------------------------------------------------
  // Preview
  // ---------------------------------------------------------------------

  const PreviewLineCount := 5
  const PreviewLimit := 300
  const PreviewSeparator := " | "
  const Ellipsis := "..."

  /** The stripped lines of `lines` that are not blank, in order. */
  function NonBlankLines(lines: seq<string>): (r: seq<string>)
    ensures |r| <= |lines|
    ensures forall i :: 0 <= i < |r| ==> r[i] != [] && Strip(r[i]) == r[i]
  {
    if lines == [] then []
    else if IsBlank(lines[0]) then NonBlankLines(lines[1..])
    else
      [Strip(lines[0])] + NonBlankLines(lines[1..])
  }

  /** Exactly the non-blank lines, stripped, make it into the list. */
  lemma {:induction false} NonBlankLinesMembers(lines: seq<string>, x: string)
    ensures x in NonBlankLines(lines) <==> exists j :: 0 <= j < |lines| && !IsBlank(lines[j]) && x == Strip(lines[j])
  {
    if lines != [] {
      NonBlankLinesMembers(lines[1..], x);
      var h := if IsBlank(lines[0]) then [] else [Strip(lines[0])];
      assert NonBlankLines(lines) == h + NonBlankLines(lines[1..]);
      assert x in h <==> !IsBlank(lines[0]) && x == Strip(lines[0]);
      LaterLine(lines, x);
    }
  }

  /** A stripped non-blank line after the first is one of the rest. */
  lemma LaterLine(lines: seq<string>, x: string)
    requires lines != []
    ensures (exists j :: 1 <= j < |lines| && !IsBlank(lines[j]) && x == Strip(lines[j]))
        <==> exists j :: 0 <= j < |lines[1..]| && !IsBlank(lines[1..][j]) && x == Strip(lines[1..][j])
  {
    if exists j :: 1 <= j < |lines| && !IsBlank(lines[j]) && x == Strip(lines[j]) {
      var j :| 1 <= j < |lines| && !IsBlank(lines[j]) && x == Strip(lines[j]);
      assert lines[1..][j - 1] == lines[j];
    }
    if exists j :: 0 <= j < |lines[1..]| && !IsBlank(lines[1..][j]) && x == Strip(lines[1..][j]) {
      var j :| 0 <= j < |lines[1..]| && !IsBlank(lines[1..][j]) && x == Strip(lines[1..][j]);
      assert lines[j + 1] == lines[1..][j];
    }
  }

  /** The first five non-blank lines of the text, stripped and joined. */
  function PreviewText(text: string): string
  {
    Join(Take(NonBlankLines(Split(text, '\n')), PreviewLineCount), PreviewSeparator)
  }

  /** A preview longer than the limit keeps exactly its first 300
      characters and gains an ellipsis. */
  function Truncate(p: string): (r: string)
    ensures |r| <= PreviewLimit + |Ellipsis|
    ensures |p| <= PreviewLimit ==> r == p
    ensures |p| > PreviewLimit ==> |r| == PreviewLimit + |Ellipsis|
    ensures |p| > PreviewLimit ==> r[..PreviewLimit] == p[..PreviewLimit] && r[PreviewLimit..] == Ellipsis
  {
    if |p| > PreviewLimit then p[..PreviewLimit] + Ellipsis else p
  }

  // ---------------------------------------------------------------------
  // Pages and the document
  // ---------------------------------------------------------------------

  /** The regex `[\d,]+\.?\d*` finds a match exactly when some character of
      the text is a digit or a comma: the rest of the pattern is optional. */
  predicate HasNumbers(text: string)
  {
    exists i :: 0 <= i < |text| && (IsDigit(text[i]) || text[i] == ',')
  }

  /** `scan_page` for page `number` whose text is `text`. */
  function ScanPage(number: int, text: string, linesTables: nat, textTables: nat): (r: PageInfo)
    ensures r.page == number && r.chars == |text| && r.hasNumbers == HasNumbers(text)
    ensures r.tables >= linesTables && r.tables >= textTables
    ensures r.tables == linesTables || r.tables == textTables
    ensures SubsequenceOf(r.keywords, AllKeywords)
    ensures forall kw :: kw in r.keywords <==> kw in AllKeywords && KeywordFound(text, kw)
    ensures |r.preview| <= PreviewLimit + |Ellipsis|
  {
    LowerIdempotent(text);
    PageInfo(number, TableCount(linesTables, textTables), |text|, HasNumbers(text),
             MatchedKeywords(Lower(text), AllKeywords), Truncate(PreviewText(text)))
  }

  /** What the reader gives for one page: its text and the two strategies'
      table counts. */
  datatype RawPage = RawPage(text: string, linesTables: nat, textTables: nat)

  datatype ScanResult = ScanResult(
    totalPages: nat, financialPages: seq<int>, financialPageCount: nat, pages: seq<PageInfo>)

  /** A page with a table or a keyword. */
  predicate IsFinancialPage(p: PageInfo) { p.tables > 0 || p.keywords != [] }

  /** The `financial_pages` loop: the numbers of the financial pages, in
      order. */
  function FinancialPages(pages: seq<PageInfo>): (r: seq<int>)
  {
    if pages == [] then []
    else (if IsFinancialPage(pages[0]) then [pages[0].page] else []) + FinancialPages(pages[1..])
  }

  /** Pages numbered consecutively from `base`. */
  predicate NumberedFrom(pages: seq<PageInfo>, base: int)
  {
    forall i :: 0 <= i < |pages| ==> pages[i].page == base + i
  }

  /** `numbers` holds exactly the numbers of the financial pages, when
      the first page is numbered `base`. */
  ghost predicate ListsFinancial(numbers: seq<int>, pages: seq<PageInfo>, base: int)
  {
    forall n :: n in numbers <==> base <= n < base + |pages| && IsFinancialPage(pages[n - base])
  }

  /** On consecutively numbered pages the financial page list is
      increasing and holds exactly the numbers of financial pages. */
  lemma {:induction false} FinancialPagesNumbered(pages: seq<PageInfo>, base: int)
    requires NumberedFrom(pages, base)
    ensures StrictlyIncreasing(FinancialPages(pages))
    ensures ListsFinancial(FinancialPages(pages), pages, base)
  {
    if pages != [] {
      var rest := FinancialPages(pages[1..]);
      var h := if IsFinancialPage(pages[0]) then [pages[0].page] else [];
      forall i | 0 <= i < |pages[1..]| ensures pages[1..][i].page == base + 1 + i {
        assert pages[1..][i] == pages[i + 1];
      }
      FinancialPagesNumbered(pages[1..], base + 1);
      assert FinancialPages(pages) == h + rest;
      ListsCons(pages, base, h, rest);
      assert StrictlyIncreasing(h + rest) by {
        assert forall n :: n in rest ==> base < n;
        assert forall k :: 0 <= k < |rest| ==> rest[k] in rest;
      }
    }
  }

  /** The financial numbers of the first page, then of the others. */
  lemma ListsCons(pages: seq<PageInfo>, base: int, h: seq<int>, rest: seq<int>)
    requires pages != [] && pages[0].page == base
    requires h == if IsFinancialPage(pages[0]) then [base] else []
    requires ListsFinancial(rest, pages[1..], base + 1)
    ensures ListsFinancial(h + rest, pages, base)
  {
    forall n ensures n in h + rest <==> base <= n < base + |pages| && IsFinancialPage(pages[n - base]) {
      assert n in h + rest <==> n in h || n in rest;
      if base + 1 <= n < base + |pages| {
        assert pages[1..][n - (base + 1)] == pages[n - base];
      }
    }
  }

  /** The page map of a document: page `i + 1` is the `i`-th raw page. */
  function PageInfos(raw: seq<RawPage>): (r: seq<PageInfo>)
    ensures |r| == |raw| && NumberedFrom(r, 1)
  {
    seq(|raw|, i requires 0 <= i < |raw| => ScanPage(i + 1, raw[i].text, raw[i].linesTables, raw[i].textTables))
  }

  /** `scan_pdf` after the document is open. */
  function ScanPdf(raw: seq<RawPage>): (r: ScanResult)
    ensures r.totalPages == |raw| && r.pages == PageInfos(raw)
    ensures r.financialPageCount == |r.financialPages|
    ensures StrictlyIncreasing(r.financialPages)
    ensures ListsFinancial(r.financialPages, r.pages, 1)
  {
    var pages := PageInfos(raw);
    FinancialPagesNumbered(pages, 1);
    ScanResult(|raw|, FinancialPages(pages), |FinancialPages(pages)|, pages)
  }

  /** Some keyword is listed exactly when some keyword occurs. */
  lemma {:induction false} MatchedNonEmpty(text: string, kws: seq<string>)
    ensures MatchedKeywords(text, kws) != [] <==> exists kw :: kw in kws && KeywordFound(text, kw)
  {
    var r := MatchedKeywords(text, kws);
    if exists kw :: kw in kws && KeywordFound(text, kw) {
      var kw :| kw in kws && KeywordFound(text, kw);
      assert kw in r;
    }
    if r != [] {
      assert r[0] in r;
    }
  }

  /** A page counts as financial exactly when one strategy found a table
      or some keyword occurs in its text. */
  lemma FinancialPageIff(n: int, raw: RawPage)
    ensures IsFinancialPage(ScanPage(n, raw.text, raw.linesTables, raw.textTables)) <==>
      raw.linesTables > 0 || raw.textTables > 0 || exists kw :: kw in AllKeywords && KeywordFound(raw.text, kw)
  {
    LowerIdempotent(raw.text);
    MatchedNonEmpty(Lower(raw.text), AllKeywords);
  }
}
