/** The page-list argument shared by the table extractor and the text
    extractor: `"5,6,7"`, `"5-10"` or `"5,8-12"` becomes the sorted list of
    distinct page numbers. A piece that `int()` rejects makes the script
    stop with an error, modelled as `None`. */
module PageRange {
  import opened Common
  import opened Strings

  /** One comma-separated piece: a single page or an inclusive range. */
  datatype Item = Single(page: int) | Span(first: int, last: int)

  predicate Covers(item: Item, x: int)
  {
    match item
    case Single(p) => x == p
    case Span(a, b) => a <= x <= b
  }

  /** Python's `int(s)` on text that is, after stripping, an optional sign
      followed by ASCII digits. Anything else raises, which is `None` here. */
  function PyInt(s: string): (r: Option<int>)
    ensures r.Some? ==> HasDigit(s)
  {
    var t := Strip(s);
    if t != [] && (t[0] == '+' || t[0] == '-') then
      var d := t[1..];
      if IsDigitString(d) then
        assert t[1] == s[StripStart(s) + 1];
        Some(if t[0] == '-' then -(DigitsValue(d) as int) else DigitsValue(d) as int)
      else None
    else if IsDigitString(t) then
      assert t[0] == s[StripStart(s)];
      Some(DigitsValue(t))
    else None
  }

  /** One piece: a `-` splits it at its first occurrence into the two
      bounds of a range; otherwise it is a single page. */
  function ParseItem(part: string): Option<Item>
  {
    var p := Strip(part);
    if '-' in p then
      var i := IndexOfChar(p, '-');
      var a := PyInt(p[..i]);
      var b := PyInt(p[i + 1..]);
      if a.Some? && b.Some? then Some(Span(a.value, b.value)) else None
    else
      var n := PyInt(p);
      if n.Some? then Some(Single(n.value)) else None
  }

  function ParseItems(parts: seq<string>): (r: Option<seq<Item>>)
    ensures r.Some? ==> |r.value| == |parts|
    ensures r.Some? ==> forall k :: 0 <= k < |parts| ==> ParseItem(parts[k]) == Some(r.value[k])
    ensures r.None? ==> exists k :: 0 <= k < |parts| && ParseItem(parts[k]).None?
  {
    if parts == [] then Some([])
    else
      var head := ParseItem(parts[0]);
      var tail := ParseItems(parts[1..]);
      if head.None? then None
      else if tail.None? then
        var k :| 0 <= k < |parts[1..]| && ParseItem(parts[1..][k]).None?;
        assert ParseItem(parts[k + 1]).None?;
        None
      else Some([head.value] + tail.value)
  }

  /** `range(a, b + 1)` as a list. */
  function Range(a: int, b: int): (r: seq<int>)
    ensures forall x :: x in r <==> a <= x <= b
    decreases b - a
  {
    if a > b then [] else [a] + Range(a + 1, b)
  }

  /** Some item names page `x`. */
  predicate CoveredBy(items: seq<Item>, x: int)
  {
    exists k :: 0 <= k < |items| && Covers(items[k], x)
  }

  /** Every page the items name, in the order `pages.update` meets them. */
  function Expand(items: seq<Item>): (r: seq<int>)
    ensures forall x :: x in r <==> CoveredBy(items, x)
  {
    if items == [] then []
    else
      var first := match items[0] case Single(p) => [p] case Span(a, b) => Range(a, b);
      var rest := Expand(items[1..]);
      assert forall x :: CoveredBy(items, x) <==> Covers(items[0], x) || CoveredBy(items[1..], x) by {
        forall x ensures CoveredBy(items, x) <==> Covers(items[0], x) || CoveredBy(items[1..], x) {
        }
      }
      first + rest
  }

  /** Adds `x` to a strictly increasing list unless it is already there. */
  function InsertUnique(x: int, s: seq<int>): (r: seq<int>)
    requires StrictlyIncreasing(s)
    ensures StrictlyIncreasing(r)
    ensures forall y :: y in r <==> y == x || y in s
  {
    if s == [] then [x]
    else if x < s[0] then [x] + s
    else if x == s[0] then s
    else
      var rest := InsertUnique(x, s[1..]);
      var r := [s[0]] + rest;
      assert StrictlyIncreasing(r) by {
        forall i, j | 0 <= i < j < |r| ensures r[i] < r[j] {
          if i == 0 {
            assert r[j] in rest;
            assert r[j] == x || r[j] in s[1..];
          }
        }
      }
      r
  }

  /** `sorted(set(xs))` */
  function SortedUnique(xs: seq<int>): (r: seq<int>)
    ensures StrictlyIncreasing(r)
    ensures forall y :: y in r <==> y in xs
  {
    if xs == [] then [] else InsertUnique(xs[0], SortedUnique(xs[1..]))
  }

  /** `parse_page_range(spec)`: the sorted, duplicate-free pages that the
      comma-separated pieces name, or `None` when a piece is not a number
      or a `first-last` pair of numbers. */
  function Parse(spec: string): (r: Option<seq<int>>)
    ensures r.None? <==> ParseItems(Split(spec, ',')).None?
    ensures r.Some? ==> StrictlyIncreasing(r.value)
    ensures r.Some? ==> forall x :: x in r.value <==> CoveredBy(ParseItems(Split(spec, ',')).value, x)
  {
    match ParseItems(Split(spec, ','))
    case None => None
    case Some(items) => Some(SortedUnique(Expand(items)))
  }

  /** The piece `part`, parsed on its own, is page `x` or a range holding it. */
  predicate PieceNames(part: string, x: int)
  {
    var it := ParseItem(part);
    it.Some? && Covers(it.value, x)
  }

  /** Some piece of `parts` names page `x`. */
  predicate SomePieceNames(parts: seq<string>, x: int)
  {
    exists k :: 0 <= k < |parts| && PieceNames(parts[k], x)
  }

  lemma ItemsMembership(parts: seq<string>, items: seq<Item>, x: int)
    requires ParseItems(parts) == Some(items)
    ensures CoveredBy(items, x) <==> SomePieceNames(parts, x)
  {
    if CoveredBy(items, x) {
      var k :| 0 <= k < |items| && Covers(items[k], x);
      assert ParseItem(parts[k]) == Some(items[k]);
      assert PieceNames(parts[k], x);
    }
    if SomePieceNames(parts, x) {
      var k :| 0 <= k < |parts| && PieceNames(parts[k], x);
      assert ParseItem(parts[k]) == Some(items[k]);
      assert Covers(items[k], x);
    }
  }

  /** Page `x` is in the result exactly when some comma-separated piece
      names it. */
  lemma ParseMembership(spec: string, x: int)
    requires Parse(spec).Some?
    ensures x in Parse(spec).value <==> SomePieceNames(Split(spec, ','), x)
  {
    var parts := Split(spec, ',');
    ItemsMembership(parts, ParseItems(parts).value, x);
  }
}
