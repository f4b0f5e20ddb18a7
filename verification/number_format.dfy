/** Number handling of the table extractor: the English/Spanish separator
    vote over all cells, the float-free normalisation of one cell to a plain
    `-?digits[.digits]` string (with a final newline when the cell had one
    inside it), and its exact value (Python's `Decimal`,
    modelled as a Dafny `real`). */
module NumberFormat {
  import opened Common
  import opened Strings

  /** The two separator conventions: `1,234.56` and `1.234,56`. */
  datatype Fmt = En | Es

  // ---------------------------------------------------------------------
  // Digits of a text, in order
  // ---------------------------------------------------------------------

  function Digits(s: string): (r: string)
    ensures AllDigits(r)
  {
    if s == [] then [] else (if IsDigit(s[0]) then [s[0]] else []) + Digits(s[1..])
  }

  lemma DigitsAppend(a: string, b: string)
    ensures Digits(a + b) == Digits(a) + Digits(b)
  {
    if a != [] {
      assert (a + b)[1..] == a[1..] + b;
      DigitsAppend(a[1..], b);
    } else {
      assert a + b == b;
    }
  }

  lemma DigitsOfBlank(s: string)
    requires IsBlank(s)
    ensures Digits(s) == []
  {
    if s != [] { assert !IsDigit(s[0]); DigitsOfBlank(s[1..]); }
  }

  lemma DigitsOfNoDigit(s: string)
    requires forall i :: 0 <= i < |s| ==> !IsDigit(s[i])
    ensures Digits(s) == []
  {
    if s != [] { DigitsOfNoDigit(s[1..]); }
  }

  lemma HasDigitIffDigits(s: string)
    ensures HasDigit(s) <==> Digits(s) != []
  {
    if s != [] {
      HasDigitIffDigits(s[1..]);
      if HasDigit(s[1..]) {
        var i :| 0 <= i < |s[1..]| && IsDigit(s[1..][i]);
        assert IsDigit(s[i + 1]);
      }
      if HasDigit(s) && !IsDigit(s[0]) {
        var i :| 0 <= i < |s| && IsDigit(s[i]);
        assert IsDigit(s[1..][i - 1]);
      }
    }
  }

  /** Removing surrounding whitespace loses no digit. */
  lemma DigitsStrip(s: string)
    ensures Digits(Strip(s)) == Digits(s)
  {
    var k, e := StripStart(s), StripEnd(s);
    var a, r, b := s[..k], s[k..e], s[e..];
    assert IsBlank(a) by {
      forall j | 0 <= j < |a| ensures IsSpace(a[j]) { assert a[j] == s[j]; }
    }
    assert IsBlank(b) by {
      forall j | 0 <= j < |b| ensures IsSpace(b[j]) { assert b[j] == s[e + j]; }
    }
    assert s == a + r + b by {
      assert s == s[..e] + b;
      assert s[..e] == a + r;
    }
    DigitsAppend(a + r, b);
    DigitsAppend(a, r);
    DigitsOfBlank(a);
    DigitsOfBlank(b);
  }

  lemma DigitsReplaceChar(s: string, a: char, b: char)
    requires !IsDigit(a) && !IsDigit(b)
    ensures Digits(ReplaceChar(s, a, b)) == Digits(s)
  {
    if s != [] {
      var r := ReplaceChar(s, a, b);
      assert r[1..] == ReplaceChar(s[1..], a, b);
      DigitsReplaceChar(s[1..], a, b);
      assert IsDigit(r[0]) <==> IsDigit(s[0]);
    }
  }

  lemma DigitsRemoveChar(s: string, c: char)
    requires !IsDigit(c)
    ensures Digits(RemoveChar(s, c)) == Digits(s)
  {
    if s != [] {
      DigitsRemoveChar(s[1..], c);
      DigitsAppend(if s[0] == c then [] else [s[0]], RemoveChar(s[1..], c));
      DigitsAppend([s[0]], s[1..]);
      assert s == [s[0]] + s[1..];
    }
  }

  // ---------------------------------------------------------------------
  // Currency prefix and parenthetical negatives
  // ---------------------------------------------------------------------

  /** Where the match of `CURRENCY_PREFIX` ends: leading whitespace, one
      of `Ps`/`Ps.`, `MXN`, `USD`, `US$` or `$` (tried in that order),
      and the whitespace after it. Without a marker nothing matches and
      the end is 0. The matched part never holds a digit. */
  function CurrencyEnd(s: string): (e: nat)
    ensures e <= |s|
    ensures forall j :: 0 <= j < e ==> !IsDigit(s[j])
  {
    var k := StripStart(s);
    var m := MarkerEnd(s, k);
    if m == k then 0
    else
      var e := SpaceRunFrom(s, m);
      assert forall j :: m <= j < e ==> !IsDigit(s[j]);
      e
  }

  /** The end of the currency marker at `k`, or `k` when there is none. */
  function MarkerEnd(s: string, k: nat): (m: nat)
    requires k <= |s|
    requires forall j :: 0 <= j < k ==> !IsDigit(s[j])
    ensures k <= m <= |s|
    ensures forall j :: 0 <= j < m ==> !IsDigit(s[j])
  {
    if OccursAt(s, "Ps", k) then
      NoDigitAt(s, "Ps", k);
      if k + 2 < |s| && s[k + 2] == '.' then k + 3 else k + 2
    else if OccursAt(s, "MXN", k) then NoDigitAt(s, "MXN", k); k + 3
    else if OccursAt(s, "USD", k) then NoDigitAt(s, "USD", k); k + 3
    else if OccursAt(s, "US$", k) then NoDigitAt(s, "US$", k); k + 3
    else if OccursAt(s, "$", k) then NoDigitAt(s, "$", k); k + 1
    else k
  }

  lemma NoDigitAt(s: string, p: string, k: nat)
    requires OccursAt(s, p, k) && forall j :: 0 <= j < |p| ==> !IsDigit(p[j])
    ensures forall j :: k <= j < k + |p| ==> !IsDigit(s[j])
  {
    forall j | k <= j < k + |p| ensures !IsDigit(s[j]) {
      assert s[j] == s[k..k + |p|][j - k];
    }
  }

  /** `CURRENCY_PREFIX.sub("", s)`: the text after the matched prefix,
      the text itself when there is none. */
  function DropCurrencyPrefix(s: string): string
  {
    s[CurrencyEnd(s)..]
  }

  lemma DigitsDropCurrencyPrefix(s: string)
    ensures Digits(DropCurrencyPrefix(s)) == Digits(s)
  {
    var e := CurrencyEnd(s);
    assert s == s[..e] + s[e..];
    DigitsAppend(s[..e], s[e..]);
    DigitsOfNoDigit(s[..e]);
  }

  /** The character class `[\d,.\s]` of the parenthetical pattern. */
  predicate IsAmountChar(c: char) { IsDigit(c) || c == ',' || c == '.' || IsSpace(c) }

  /** `PARENTHETICAL_NEG.match(s)` for stripped text: `(`, a non-empty run
      of digits, separators and spaces, `)`. */
  predicate IsParenthetical(s: string)
  {
    |s| >= 3 && s[0] == '(' && s[|s| - 1] == ')'
    && forall i :: 1 <= i < |s| - 1 ==> IsAmountChar(s[i])
  }

  // ---------------------------------------------------------------------
  // Number shapes
  // ---------------------------------------------------------------------

  /** `\d+\.?\d*` matching all of `s`: digits, then optionally one dot
      and more digits. */
  predicate IsDecimalBody(s: string)
  {
    var k := |TakeWhile(s, IsDigit)|;
    k >= 1 && (k == |s| || (s[k] == '.' && AllDigits(s[k + 1..])))
  }

  /** `re.match(r"^\d+\.?\d*$", s)`: the body, where `$` also matches just
      before a final newline, so `"12\n"` passes. */
  predicate IsPlainDecimal(s: string)
  {
    IsDecimalBody(DropFinalNewline(s))
  }

  /** The shape `-?\d+\.?\d*\n?` of every normalised number. */
  predicate IsNumberText(s: string)
  {
    IsPlainDecimal(s) || (s != [] && s[0] == '-' && IsPlainDecimal(s[1..]))
  }

  function Pow10(n: nat): (r: nat)
    ensures r >= 1
  {
    if n == 0 then 1 else 10 * Pow10(n - 1)
  }

  /** The exact value of a decimal body such as `1234.50`. */
  function BodyValue(s: string): real
    requires IsDecimalBody(s)
  {
    var k := |TakeWhile(s, IsDigit)|;
    var whole := DigitsValue(s[..k]) as real;
    if k == |s| then whole
    else whole + DigitsValue(s[k + 1..]) as real / Pow10(|s| - k - 1) as real
  }

  /** The exact value of a plain decimal: `Decimal` ignores the final
      newline. */
  function PlainValue(s: string): real
    requires IsPlainDecimal(s)
  {
    BodyValue(DropFinalNewline(s))
  }

  /** `to_decimal(s)`: the exact value of a normalised number, `None` for
      `None`. Text of any other shape never reaches it from the scripts and
      is mapped to `None`. */
  function ToDecimal(s: Option<string>): (r: Option<real>)
    ensures r.Some? <==> s.Some? && IsNumberText(s.value)
  {
    if s.None? then None
    else if IsPlainDecimal(s.value) then Some(PlainValue(s.value))
    else if IsNumberText(s.value) then Some(-PlainValue(s.value[1..]))
    else None
  }

  // ---------------------------------------------------------------------
  // normalize_number_string
  // ---------------------------------------------------------------------

  const MinusSign: char := '\U{2212}'
  const EnDash: char := '\U{2013}'
  const EmDash: char := '\U{2014}'
  const NoBreakSpace: char := '\U{A0}'

  /** The text after the currency prefix and the parentheses are gone, with
      the flag saying whether the parentheses were there. */
  function Unwrap(s0: string): (string, bool)
  {
    var s1 := Strip(DropCurrencyPrefix(s0));
    if IsParenthetical(s1) then (Strip(s1[1..|s1| - 1]), true) else (s1, false)
  }

  /** After the dash variants become `-`: a leading minus is removed and
      recorded, then plain and no-break spaces are dropped. */
  function Unsign(s2: string): (string, bool)
  {
    var s3 := ReplaceChar(ReplaceChar(s2, MinusSign, '-'), EnDash, '-');
    var (s4, minus) := if StartsWith(s3, "-") then (Strip(s3[1..]), true) else (s3, false);
    (RemoveChar(RemoveChar(s4, ' '), NoBreakSpace), minus)
  }

  /** Separator handling: Spanish drops dots and turns the decimal comma
      into a dot, English drops commas. */
  function Separators(s: string, fmt: Fmt): string
  {
    if fmt == Es then ReplaceChar(RemoveChar(s, '.'), ',', '.') else RemoveChar(s, ',')
  }

  /** The steps after the parentheses: sign, spaces, dash placeholders,
      separators and the final shape test. */
  function Finish(u: (string, bool), fmt: Fmt): (r: Option<string>)
    ensures r.Some? ==> IsNumberText(r.value)
  {
    var (s5, minus) := Unsign(u.0);
    if s5 == "-" || s5 == [EmDash] || s5 == [EnDash] then
      assert IsPlainDecimal("0") by { assert TakeWhile("0", IsDigit) == "0"; }
      Some("0")
    else
      var s6 := Separators(s5, fmt);
      if !IsPlainDecimal(s6) then None
      else
        assert ("-" + s6)[1..] == s6;
        Some(if u.1 || minus then "-" + s6 else s6)
  }

  /** `normalize_number_string(raw, fmt)`: `None` for a missing cell or a
      cell without digits, otherwise the plain number or `None` when what
      is left is not one. */
  function NormalizeNumber(raw: Option<string>, fmt: Fmt): (r: Option<string>)
    ensures r.Some? ==> IsNumberText(r.value)
  {
    if raw.None? then None
    else
      var s0 := Strip(raw.value);
      if s0 == [] || !HasDigit(s0) then None
      else Finish(Unwrap(s0), fmt)
  }

  /** Dropping the parentheses and the whitespace inside loses no digit. */
  lemma DigitsParenthetical(s1: string)
    requires IsParenthetical(s1)
    ensures Digits(Strip(s1[1..|s1| - 1])) == Digits(s1)
  {
    var inner := s1[1..|s1| - 1];
    assert s1 == [s1[0]] + inner + [s1[|s1| - 1]];
    DigitsAppend([s1[0]] + inner, [s1[|s1| - 1]]);
    DigitsAppend([s1[0]], inner);
    DigitsStrip(inner);
  }

  lemma DigitsUnwrap(s0: string)
    ensures Digits(Unwrap(s0).0) == Digits(s0)
  {
    var d := DropCurrencyPrefix(s0);
    var s1 := Strip(d);
    assert Digits(s1) == Digits(s0) by {
      DigitsStrip(d);
      DigitsDropCurrencyPrefix(s0);
    }
    if IsParenthetical(s1) {
      assert Unwrap(s0).0 == Strip(s1[1..|s1| - 1]);
      DigitsParenthetical(s1);
    } else {
      assert Unwrap(s0).0 == s1;
    }
  }

  lemma DigitsUnsign(s2: string)
    ensures Digits(Unsign(s2).0) == Digits(s2)
  {
    var s3 := ReplaceChar(ReplaceChar(s2, MinusSign, '-'), EnDash, '-');
    DigitsReplaceChar(s2, MinusSign, '-');
    DigitsReplaceChar(ReplaceChar(s2, MinusSign, '-'), EnDash, '-');
    var s4 := if StartsWith(s3, "-") then Strip(s3[1..]) else s3;
    if StartsWith(s3, "-") {
      assert s3 == "-" + s3[1..];
      DigitsAppend("-", s3[1..]);
      DigitsStrip(s3[1..]);
    }
    DigitsRemoveChar(s4, ' ');
    DigitsRemoveChar(RemoveChar(s4, ' '), NoBreakSpace);
  }

  lemma DigitsSeparators(s: string, fmt: Fmt)
    ensures Digits(Separators(s, fmt)) == Digits(s)
  {
    if fmt == Es {
      DigitsRemoveChar(s, '.');
      DigitsReplaceChar(RemoveChar(s, '.'), ',', '.');
    } else {
      DigitsRemoveChar(s, ',');
    }
  }

  /** Only cells that hold a digit yield a number. */
  lemma NormalizeNeedsDigit(raw: Option<string>, fmt: Fmt)
    requires NormalizeNumber(raw, fmt).Some?
    ensures raw.Some? && HasDigit(raw.value)
  {
    var s0 := Strip(raw.value);
    DigitsStrip(raw.value);
    HasDigitIffDigits(s0);
    HasDigitIffDigits(raw.value);
  }

  /** The steps after the parentheses keep the digits, in order. */
  lemma FinishKeepsDigits(u: (string, bool), fmt: Fmt)
    requires Finish(u, fmt).Some? && Digits(u.0) != []
    ensures Digits(Finish(u, fmt).value) == Digits(u.0)
  {
    var (s5, minus) := Unsign(u.0);
    DigitsUnsign(u.0);
    assert s5 != "-" && s5 != [EmDash] && s5 != [EnDash];
    var s6 := Separators(s5, fmt);
    DigitsSeparators(s5, fmt);
    DigitsAppend("-", s6);
  }

  /** No precision is lost: a normalised number carries exactly the digits
      of the cell, in order. In particular the `"0"` answer reserved for
      dash placeholders is never produced, because a cell without digits
      has already been rejected. */
  lemma NormalizeKeepsDigits(raw: Option<string>, fmt: Fmt)
    requires NormalizeNumber(raw, fmt).Some?
    ensures Digits(NormalizeNumber(raw, fmt).value) == Digits(raw.value)
    ensures NormalizeNumber(raw, fmt).value != "0" || Digits(raw.value) == "0"
  {
    var s0 := Strip(raw.value);
    DigitsStrip(raw.value);
    DigitsUnwrap(s0);
    HasDigitIffDigits(s0);
    FinishKeepsDigits(Unwrap(s0), fmt);
  }

  // ---------------------------------------------------------------------
  // Concrete promises about signs and separators
  // ---------------------------------------------------------------------

  /** Text that starts with anything but whitespace or the first letter
      of a currency marker has no prefix to drop. */
  lemma NoCurrencyPrefix(t: string)
    requires t != [] && !IsSpace(t[0])
    requires t[0] != 'P' && t[0] != 'M' && t[0] != 'U' && t[0] != '$'
    ensures DropCurrencyPrefix(t) == t
  {
    assert StripStart(t) == 0;
  }

  lemma ReplaceAbsent(s: string, a: char, b: char)
    requires a !in s
    ensures ReplaceChar(s, a, b) == s
  {
  }

  lemma PlainDigits(d: string)
    requires IsDigitString(d)
    ensures DropFinalNewline(d) == d
    ensures IsPlainDecimal(d)
  {
    assert IsDigit(d[|d| - 1]);
  }

  /** Text whose characters are digits, commas and dots. */
  predicate Numeral(s: string)
  {
    forall i :: 0 <= i < |s| ==> IsDigit(s[i]) || s[i] == ',' || s[i] == '.'
  }

  lemma NumeralLacks(s: string, c: char)
    requires Numeral(s) && !IsDigit(c) && c != ',' && c != '.'
    ensures c !in s
  {
  }

  /** A numeral starting with a digit passes the prefix and parenthesis
      steps untouched. */
  lemma UnwrapNumeral(s: string)
    requires Numeral(s) && s != [] && IsDigit(s[0])
    ensures Unwrap(s) == (s, false)
  {
    StripOfStripped(s);
    NoCurrencyPrefix(s);
  }

  /** ... and has no sign, space or dash to remove. */
  lemma UnsignNumeral(s: string)
    requires Numeral(s) && s != [] && IsDigit(s[0])
    ensures Unsign(s) == (s, false)
  {
    NumeralLacks(s, MinusSign);
    NumeralLacks(s, EnDash);
    NumeralLacks(s, ' ');
    NumeralLacks(s, NoBreakSpace);
    ReplaceAbsent(s, MinusSign, '-');
    ReplaceAbsent(s, EnDash, '-');
    RemoveAbsent(s, ' ');
    RemoveAbsent(s, NoBreakSpace);
  }

  /** Normalisation of a cell with a digit, one stage at a time. */
  lemma NormalizeStages(raw: string, u: (string, bool), fmt: Fmt)
    requires HasDigit(Strip(raw)) && Unwrap(Strip(raw)) == u
    ensures NormalizeNumber(Some(raw), fmt) == Finish(u, fmt)
  {
  }

  /** A numeral that survives the separator step as a plain decimal is
      finished unchanged apart from the sign. */
  lemma FinishNumeral(s: string, t: string, neg: bool, fmt: Fmt)
    requires Numeral(s) && s != [] && IsDigit(s[0])
    requires Separators(s, fmt) == t && IsPlainDecimal(t)
    ensures Finish((s, neg), fmt) == Some(if neg then "-" + t else t)
  {
    UnsignNumeral(s);
    assert s != "-" && s != [EmDash] && s != [EnDash];
  }

  lemma SeparatorsOfDigits(d: string, fmt: Fmt)
    requires AllDigits(d)
    ensures Separators(d, fmt) == d
  {
    RemoveAbsent(d, ',');
    RemoveAbsent(d, '.');
    ReplaceAbsent(d, ',', '.');
  }

  /** A bare digit string is its own normalisation, in either format. */
  lemma NormalizeDigits(d: string, fmt: Fmt)
    requires IsDigitString(d)
    ensures NormalizeNumber(Some(d), fmt) == Some(d)
  {
    UnwrapNumeral(d);
    NormalizeStages(d, (d, false), fmt);
    SeparatorsOfDigits(d, fmt);
    PlainDigits(d);
    FinishNumeral(d, d, false, fmt);
  }

  lemma ParenthesisedShape(d: string)
    requires IsDigitString(d)
    ensures IsParenthetical("(" + d + ")")
    ensures ("(" + d + ")")[1..|d| + 1] == d
    ensures var s := "(" + d + ")"; s[0] == '(' && s[|s| - 1] == ')' && IsDigit(s[1]) && HasDigit(s)
    ensures !IsSpace(d[0]) && !IsSpace(d[|d| - 1])
  {
    var s := "(" + d + ")";
    forall i | 1 <= i < |s| - 1 ensures IsAmountChar(s[i]) { assert s[i] == d[i - 1]; }
    assert s[1] == d[0];
  }

  lemma UnwrapParenthesised(d: string)
    requires IsDigitString(d)
    ensures Strip("(" + d + ")") == "(" + d + ")"
    ensures HasDigit("(" + d + ")")
    ensures Unwrap("(" + d + ")") == (d, true)
  {
    var s := "(" + d + ")";
    ParenthesisedShape(d);
    StripOfStripped(s);
    NoCurrencyPrefix(s);
    StripOfStripped(d);
  }

  /** `(d)` becomes `-d`: parentheses mean a negative amount. */
  lemma ParenthesesNegate(d: string, fmt: Fmt)
    requires IsDigitString(d)
    ensures NormalizeNumber(Some("(" + d + ")"), fmt) == Some("-" + d)
  {
    UnwrapParenthesised(d);
    NormalizeStages("(" + d + ")", (d, true), fmt);
    SeparatorsOfDigits(d, fmt);
    PlainDigits(d);
    FinishNumeral(d, d, true, fmt);
  }

  lemma UnsignLeadingDash(d: string, dash: char)
    requires IsDigitString(d)
    requires dash == '-' || dash == MinusSign || dash == EnDash
    ensures Unsign([dash] + d) == (d, true)
  {
    var s := [dash] + d;
    var s3 := ReplaceChar(ReplaceChar(s, MinusSign, '-'), EnDash, '-');
    assert s3 == "-" + d;
    assert s3[1..] == d;
    StripOfStripped(d);
    RemoveAbsent(d, ' ');
    RemoveAbsent(d, NoBreakSpace);
  }

  lemma UnwrapSigned(d: string, dash: char)
    requires IsDigitString(d)
    requires dash == '-' || dash == MinusSign || dash == EnDash
    ensures Strip([dash] + d) == [dash] + d
    ensures HasDigit([dash] + d)
    ensures Unwrap([dash] + d) == ([dash] + d, false)
  {
    var s := [dash] + d;
    StripOfStripped(s);
    assert IsDigit(s[1]);
    NoCurrencyPrefix(s);
    assert !IsParenthetical(s);
  }

  /** A leading minus, Unicode minus or en-dash becomes `-`. */
  lemma LeadingMinusNegates(d: string, dash: char, fmt: Fmt)
    requires IsDigitString(d)
    requires dash == '-' || dash == MinusSign || dash == EnDash
    ensures NormalizeNumber(Some([dash] + d), fmt) == Some("-" + d)
  {
    var s := [dash] + d;
    UnwrapSigned(d, dash);
    NormalizeStages(s, (s, false), fmt);
    UnsignLeadingDash(d, dash);
    SeparatorsOfDigits(d, fmt);
    PlainDigits(d);
    assert d != "-" && d != [EmDash] && d != [EnDash] by { assert IsDigit(d[0]); }
  }

  /** The grouping mark `g` between digit runs removed, the decimal mark
      `d` kept. */
  lemma GroupingRemoved(a: string, b: string, c: string, g: char, d: char)
    requires AllDigits(a) && AllDigits(b) && AllDigits(c)
    requires !IsDigit(g) && g != d
    ensures RemoveChar(a + [g] + b + [d] + c, g) == (a + b) + [d] + c
  {
    var x := a + [g] + b;
    MarkDropped(a, b, g);
    assert RemoveChar(x + [d], g) == (a + b) + [d] by {
      RemoveCharAppend(x, [d], g);
      assert RemoveChar([d], g) == [d];
    }
    RemoveCharAppend(x + [d], c, g);
    RemoveDigitsKept(c, g);
  }

  lemma MarkDropped(a: string, b: string, g: char)
    requires AllDigits(a) && AllDigits(b) && !IsDigit(g)
    ensures RemoveChar(a + [g] + b, g) == a + b
  {
    var ra := RemoveChar(a + [g], g);
    assert ra == a by {
      RemoveCharAppend(a, [g], g);
      assert RemoveChar([g], g) == [];
      RemoveDigitsKept(a, g);
    }
    RemoveCharAppend(a + [g], b, g);
    RemoveDigitsKept(b, g);
  }

  /** Removing a non-digit from digits keeps them. */
  lemma RemoveDigitsKept(d: string, c: char)
    requires AllDigits(d) && !IsDigit(c)
    ensures RemoveChar(d, c) == d
  {
    RemoveAbsent(d, c);
  }

  /** A numeral that starts with a digit reaches the separator step as is. */
  lemma NormalizeNumeral(s: string, t: string, fmt: Fmt)
    requires Numeral(s) && s != [] && IsDigit(s[0])
    requires Separators(s, fmt) == t && IsPlainDecimal(t)
    ensures NormalizeNumber(Some(s), fmt) == Some(t)
  {
    UnwrapNumeral(s);
    NormalizeStages(s, (s, false), fmt);
    FinishNumeral(s, t, false, fmt);
  }

  /** Digit runs joined by separators form a numeral that starts with a digit. */
  lemma GroupedNumeral(a: string, b: string, c: string, g: char, d: char)
    requires IsDigitString(a) && AllDigits(b) && AllDigits(c)
    requires (g == ',' || g == '.') && (d == ',' || d == '.')
    ensures var s := a + [g] + b + [d] + c; Numeral(s) && s != [] && IsDigit(s[0])
  {
    var s := a + [g] + b + [d] + c;
    forall i | 0 <= i < |s| ensures IsDigit(s[i]) || s[i] == ',' || s[i] == '.' {
      if i < |a| {
        assert s[i] == a[i];
      } else if |a| < i < |a| + 1 + |b| {
        assert s[i] == b[i - |a| - 1];
      } else if i > |a| + 1 + |b| {
        assert s[i] == c[i - |a| - |b| - 2];
      }
    }
    assert s[0] == a[0];
  }

  /** Digits, a dot and digits form a plain decimal. */
  lemma DecimalPlain(x: string, c: string)
    requires IsDigitString(x) && AllDigits(c)
    ensures IsPlainDecimal(x + ['.'] + c)
  {
    var s := x + ['.'] + c;
    TakeDigitsOf(x, ['.'] + c);
    assert s[|x| + 1..] == c;
  }

  /** The leading digit run of `x + rest` is `x` when `rest` starts with a non-digit. */
  lemma {:induction false} TakeDigitsOf(x: string, rest: string)
    requires AllDigits(x) && rest != [] && !IsDigit(rest[0])
    ensures TakeWhile(x + rest, IsDigit) == x
  {
    if x != [] {
      assert (x + rest)[0] == x[0];
      assert (x + rest)[1..] == x[1..] + rest;
      TakeDigitsOf(x[1..], rest);
    } else {
      assert x + rest == rest;
    }
  }

  /** English format: `a,bbb.cc` becomes `abbb.cc` (thousands commas go). */
  lemma EnglishDropsCommas(a: string, b: string, c: string)
    requires IsDigitString(a) && IsDigitString(b) && IsDigitString(c)
    ensures NormalizeNumber(Some(a + "," + b + "." + c), En) == Some(a + b + "." + c)
  {
    assert a + "," + b + "." + c == a + [','] + b + ['.'] + c;
    assert a + b + "." + c == (a + b) + ['.'] + c;
    GroupedNumeral(a, b, c, ',', '.');
    GroupingRemoved(a, b, c, ',', '.');
    DigitsJoined(a, b);
    DecimalPlain(a + b, c);
    NormalizeNumeral(a + "," + b + "." + c, a + b + "." + c, En);
  }

  lemma DigitsJoined(a: string, b: string)
    requires IsDigitString(a) && AllDigits(b)
    ensures IsDigitString(a + b)
  {
    forall i | 0 <= i < |a + b| ensures IsDigit((a + b)[i]) {
      if i >= |a| { assert (a + b)[i] == b[i - |a|]; }
    }
  }

  /** Spanish format: `a.bbb,cc` becomes `abbb.cc` (thousands dots go, the
      decimal comma becomes a dot). */
  lemma SpanishSwapsSeparators(a: string, b: string, c: string)
    requires IsDigitString(a) && IsDigitString(b) && IsDigitString(c)
    ensures NormalizeNumber(Some(a + "." + b + "," + c), Es) == Some(a + b + "." + c)
  {
    assert a + "." + b + "," + c == a + ['.'] + b + [','] + c;
    assert a + b + "." + c == (a + b) + ['.'] + c;
    GroupedNumeral(a, b, c, '.', ',');
    GroupingRemoved(a, b, c, '.', ',');
    DigitsJoined(a, b);
    DecimalPlain(a + b, c);
    NormalizeNumeral(a + "." + b + "," + c, a + b + "." + c, Es);
  }

  /** A newline inside the cell survives: `d\n,` in English (`d\n.` in
      Spanish) loses only its grouping mark, and the `$` of the final shape
      test matches before the newline that is left, so `d\n` is returned. */
  lemma FinalNewlineKept(d: string, g: char, fmt: Fmt)
    requires IsDigitString(d)
    requires g == (if fmt == En then ',' else '.')
    ensures NormalizeNumber(Some(d + "\n" + [g]), fmt) == Some(d + "\n")
  {
    var t := d + "\n";
    var s := t + [g];
    UnwrapNewline(d, g);
    NormalizeStages(s, (s, false), fmt);
    UnsignNewline(d, g);
    SeparatorsNewline(d, g, fmt);
    NewlineDecimal(d);
    FinishUnsigned(s, t, fmt);
  }

  /** `Decimal` reads a digit string as its value. */
  lemma DigitsDecimal(d: string)
    requires IsDigitString(d)
    ensures ToDecimal(Some(d)) == Some(DigitsValue(d) as real)
  {
    assert DropFinalNewline(d) == d by { assert IsDigit(d[|d| - 1]); }
    assert TakeWhile(d, IsDigit) == d by { PlainDigits(d); }
  }

  /** `Decimal` reads `d\n` as the value of `d`. */
  lemma NewlineDecimal(d: string)
    requires IsDigitString(d)
    ensures IsPlainDecimal(d + "\n")
    ensures ToDecimal(Some(d + "\n")) == Some(DigitsValue(d) as real)
  {
    var t := d + "\n";
    assert DropFinalNewline(t) == d;
    assert TakeWhile(d, IsDigit) == d by { PlainDigits(d); }
  }

  lemma UnwrapNewline(d: string, g: char)
    requires IsDigitString(d) && (g == ',' || g == '.')
    ensures HasDigit(Strip(d + "\n" + [g]))
    ensures Unwrap(Strip(d + "\n" + [g])) == (d + "\n" + [g], false)
  {
    var s := d + "\n" + [g];
    StripOfStripped(s);
    assert IsDigit(s[0]);
    NoCurrencyPrefix(s);
  }

  /** Unsigned text that is a plain decimal once the separators are
      handled is returned as such. */
  lemma FinishUnsigned(s: string, t: string, fmt: Fmt)
    requires s != [] && IsDigit(s[0]) && Unsign(s) == (s, false)
    requires Separators(s, fmt) == t && IsPlainDecimal(t)
    ensures Finish((s, false), fmt) == Some(t)
  {
    assert s != "-" && s != [EmDash] && s != [EnDash];
  }

  /** Digits, a newline and a separator pass the sign step untouched. */
  lemma UnsignNewline(d: string, g: char)
    requires IsDigitString(d) && (g == ',' || g == '.')
    ensures Unsign(d + "\n" + [g]) == (d + "\n" + [g], false)
  {
    var s := d + "\n" + [g];
    assert forall c :: c in s ==> IsDigit(c) || c == '\n' || c == g;
    assert !StartsWith(s, "-") by { assert IsDigit(s[0]); }
    ReplaceAbsent(s, MinusSign, '-');
    ReplaceAbsent(s, EnDash, '-');
    RemoveAbsent(s, ' ');
    RemoveAbsent(s, NoBreakSpace);
  }

  lemma SeparatorsNewline(d: string, g: char, fmt: Fmt)
    requires IsDigitString(d)
    requires g == (if fmt == En then ',' else '.')
    ensures Separators(d + "\n" + [g], fmt) == d + "\n"
  {
    var t := d + "\n";
    NewlineLacks(d, g);
    MarkAtEndDropped(t, g);
    if fmt == Es {
      NewlineLacks(d, ',');
      ReplaceAbsent(t, ',', '.');
    }
  }

  lemma NewlineLacks(d: string, c: char)
    requires AllDigits(d) && !IsDigit(c) && c != '\n'
    ensures c !in d + "\n"
  {
    forall k | 0 <= k < |d + "\n"| ensures (d + "\n")[k] != c {
      if k < |d| { assert (d + "\n")[k] == d[k]; }
    }
  }

  /** Removing a mark that occurs only at the end drops just that mark. */
  lemma MarkAtEndDropped(t: string, g: char)
    requires g !in t
    ensures RemoveChar(t + [g], g) == t
  {
    RemoveCharAppend(t, [g], g);
    assert RemoveChar([g], g) == [];
    RemoveAbsent(t, g);
  }

  // ---------------------------------------------------------------------
  // detect_number_format
  // ---------------------------------------------------------------------

  /** One position of a fixed search pattern: any ASCII digit or one literal. */
  datatype PatChar = AnyDigit | Lit(c: char)

  predicate PatCharMatches(p: PatChar, c: char)
  {
    match p
    case AnyDigit => IsDigit(c)
    case Lit(x) => c == x
  }

  predicate MatchesAt(s: string, i: nat, pat: seq<PatChar>)
  {
    i + |pat| <= |s| && forall j :: 0 <= j < |pat| ==> PatCharMatches(pat[j], s[i + j])
  }

  /** `re.search(pat, s)` for a fixed-width pattern. */
  predicate Search(s: string, pat: seq<PatChar>)
  {
    exists i: nat | i <= |s| :: MatchesAt(s, i, pat)
  }

  /** `re.search(pat + "$", s)` on text without a trailing newline. */
  predicate SearchAtEnd(s: string, pat: seq<PatChar>)
  {
    |pat| <= |s| && MatchesAt(s, |s| - |pat|, pat)
  }

  /** `\d,\d{3}\.` and its mirror `\d\.\d{3},` */
  function Grouped(group: char, decimal: char): seq<PatChar>
  {
    [AnyDigit, Lit(group), AnyDigit, AnyDigit, AnyDigit, Lit(decimal)]
  }

  /** `\d,\d{3}` (or with a dot) */
  function Thousands(group: char): seq<PatChar>
  {
    [AnyDigit, Lit(group), AnyDigit, AnyDigit, AnyDigit]
  }

  datatype Vote = VoteEn | VoteEs | NoVote

  /** The text a cell is judged on: currency prefix, parentheses and every
      kind of dash removed. */
  function VoteText(cell: string): string
  {
    var c := Strip(DropCurrencyPrefix(cell));
    var d := RemoveChar(RemoveChar(RemoveChar(RemoveChar(RemoveChar(c, '('), ')'), MinusSign), EnDash), '-');
    Strip(d)
  }

  /** The evidence one cell gives, checked in the source's order. */
  function CellVote(cell: Option<string>): Vote
  {
    if cell.None? then NoVote
    else
      var c := VoteText(cell.value);
      if Search(c, Grouped(',', '.')) then VoteEn
      else if Search(c, Grouped('.', ',')) then VoteEs
      else if SearchAtEnd(c, Thousands(',')) && '.' !in c then VoteEn
      else if SearchAtEnd(c, Thousands('.')) && ',' !in c then VoteEs
      else NoVote
  }

  predicate VotesEn(cell: Option<string>) { CellVote(cell) == VoteEn }

  predicate VotesEs(cell: Option<string>) { CellVote(cell) == VoteEs }

  /** `detect_number_format(cells)`: the counting loop of the source, whose
      answer is Spanish exactly when the Spanish votes outnumber the
      English ones. */
  method DetectNumberFormat(cells: seq<Option<string>>) returns (fmt: Fmt)
    ensures fmt == Es <==> Count(cells, VotesEs) > Count(cells, VotesEn)
  {
    var en := 0;
    var es := 0;
    var i := 0;
    while i < |cells|
      invariant 0 <= i <= |cells|
      invariant en == Count(cells[..i], VotesEn)
      invariant es == Count(cells[..i], VotesEs)
    {
      CountPrefix(cells, i, VotesEn);
      CountPrefix(cells, i, VotesEs);
      if VotesEn(cells[i]) {
        en := en + 1;
      } else if VotesEs(cells[i]) {
        es := es + 1;
      }
      i := i + 1;
    }
    assert cells[..i] == cells;
    fmt := if es > en then Es else En;
  }

  /** Each cell votes at most once, and only cells that are present vote. */
  lemma {:induction false} VotesAreExclusive(cells: seq<Option<string>>)
    ensures Count(cells, VotesEn) + Count(cells, VotesEs) <= Count(cells, (c: Option<string>) => c.Some?)
  {
    if cells != [] {
      VotesAreExclusive(cells[1..]);
    }
  }

  /** `\d<g>\d{3}<d>` at `i`, spelled out. */
  lemma MatchesGrouped(s: string, i: nat, g: char, d: char)
    ensures MatchesAt(s, i, Grouped(g, d)) <==>
      i + 6 <= |s| && IsDigit(s[i]) && s[i + 1] == g && IsDigit(s[i + 2])
      && IsDigit(s[i + 3]) && IsDigit(s[i + 4]) && s[i + 5] == d
  {
    var pat := Grouped(g, d);
    if i + 6 <= |s| && IsDigit(s[i]) && s[i + 1] == g && IsDigit(s[i + 2])
      && IsDigit(s[i + 3]) && IsDigit(s[i + 4]) && s[i + 5] == d {
      forall j | 0 <= j < |pat| ensures PatCharMatches(pat[j], s[i + j]) {
      }
    }
    if MatchesAt(s, i, pat) {
      assert PatCharMatches(pat[0], s[i]) && PatCharMatches(pat[1], s[i + 1]);
      assert PatCharMatches(pat[2], s[i + 2]) && PatCharMatches(pat[3], s[i + 3]);
      assert PatCharMatches(pat[4], s[i + 4]) && PatCharMatches(pat[5], s[i + 5]);
    }
  }

  /** A numeral between digits has nothing for the vote to remove. */
  lemma VoteTextOfNumeral(s: string)
    requires Numeral(s) && s != [] && IsDigit(s[0]) && IsDigit(s[|s| - 1])
    ensures VoteText(s) == s
  {
    StripOfStripped(s);
    NoCurrencyPrefix(s);
    assert Strip(DropCurrencyPrefix(s)) == s;
    NumeralLacks(s, '(');
    NumeralLacks(s, ')');
    NumeralLacks(s, MinusSign);
    NumeralLacks(s, EnDash);
    NumeralLacks(s, '-');
    RemoveAbsent(s, '(');
    RemoveAbsent(s, ')');
    RemoveAbsent(s, MinusSign);
    RemoveAbsent(s, EnDash);
    RemoveAbsent(s, '-');
  }

  lemma GroupedAt(a: string, g: char, b: string, d: char, c: string)
    requires IsDigitString(a) && |b| == 3 && AllDigits(b) && IsDigitString(c)
    ensures Search(a + [g] + b + [d] + c, Grouped(g, d))
  {
    var s := a + [g] + b + [d] + c;
    var i := |a| - 1;
    assert s[i] == a[i] && s[i + 1] == g && s[i + 5] == d;
    assert s[i + 2] == b[0] && s[i + 3] == b[1] && s[i + 4] == b[2];
    MatchesGrouped(s, i, g, d);
  }

  /** A cell such as `1,234.56` (comma thousands, dot decimals) is English
      evidence. */
  lemma EnglishEvidence(a: string, b: string, c: string)
    requires IsDigitString(a) && |b| == 3 && AllDigits(b) && IsDigitString(c)
    ensures VotesEn(Some(a + "," + b + "." + c))
  {
    var s := a + "," + b + "." + c;
    VoteTextOfNumeral(s);
    GroupedAt(a, ',', b, '.', c);
  }

  /** In `a.bbb,c` the only comma is followed by digits, so the English
      pattern finds nothing. */
  lemma NoEnglishGroup(a: string, b: string, c: string)
    requires IsDigitString(a) && |b| == 3 && AllDigits(b) && IsDigitString(c)
    ensures !Search(a + "." + b + "," + c, Grouped(',', '.'))
  {
    var s := a + "." + b + "," + c;
    forall i: nat | i <= |s| ensures !MatchesAt(s, i, Grouped(',', '.')) {
      MatchesGrouped(s, i, ',', '.');
      if i + 6 <= |s| && s[i + 1] == ',' {
        if i + 1 < |a| { assert s[i + 1] == a[i + 1]; }
        else if i + 1 == |a| { assert s[i + 1] == '.'; }
        else if i + 1 < |a| + 4 { assert s[i + 1] == b[i - |a|]; }
        else if i + 1 > |a| + 4 { assert s[i + 1] == c[i - |a| - 4]; }
        else { assert s[i + 5] == c[i - |a|]; }
      }
    }
  }

  /** A cell such as `1.234,56` (dot thousands, comma decimals) is Spanish
      evidence. */
  lemma SpanishEvidence(a: string, b: string, c: string)
    requires IsDigitString(a) && |b| == 3 && AllDigits(b) && IsDigitString(c)
    ensures VotesEs(Some(a + "." + b + "," + c))
  {
    var s := a + "." + b + "," + c;
    VoteTextOfNumeral(s);
    NoEnglishGroup(a, b, c);
    GroupedAt(a, '.', b, ',', c);
  }
}
