/** Cell values of the workbook: a dollar-formatted amount becomes an exact
    number, a percentage stays text, and anything else is no value. */
module Values {
  import opened Common
  import opened Strings
  import opened NumberFormat

  datatype Value = Num(amount: real) | Pct(text: string)

  /** `neg` applied to a parsed value; percentages keep no sign. */
  function Negated(v: Option<Value>): Option<Value>
  {
    if v.Some? && v.value.Num? then Some(Num(-v.value.amount)) else v
  }

  /** The stripped text with its parentheses taken off, and whether they
      were there: `(x)` becomes `x` stripped, and an unbalanced `($x`
      becomes `x` without trailing `)`. */
  function Unparen(s: string): (string, bool)
  {
    if |s| >= 2 && s[0] == '(' && s[|s| - 1] == ')' then (Strip(s[1..|s| - 1]), true)
    else if StartsWith(s, "($") then (RStripSet(s[2..], {')'}), true)
    else (s, false)
  }

  /** The regex `-?\d[\d.]*%?` matching all of `t`. */
  predicate NumberShape(t: string)
  {
    var a := if t != [] && t[0] == '-' then 1 else 0;
    var e := if t != [] && t[|t| - 1] == '%' then |t| - 1 else |t|;
    a < e && IsDigit(t[a]) && forall i :: a < i < e ==> IsDigit(t[i]) || t[i] == '.'
  }

  /** `re.match(r"^-?\d[\d.]*%?$", u)`: `$` also matches just before a
      final newline. */
  predicate CleanShape(u: string)
  {
    NumberShape(u) || (u != [] && u[|u| - 1] == '\n' && NumberShape(u[..|u| - 1]))
  }

  const EmDashText: string := "\U{2014}"

  /** The number text after the commas are gone: `None` unless it has the
      number shape, a percentage as text, otherwise its exact value (`None`
      where `float` would fail on a second dot). */
  function ParseNumber(u: string): (r: Option<Value>)
    ensures r.Some? ==> CleanShape(u)
    ensures r.Some? && r.value.Pct? ==> r.value.text == u && EndsWith(u, "%")
  {
    if !CleanShape(u) then None
    else if EndsWith(u, "%") then Some(Pct(u))
    else
      var d := ToDecimal(Some(DropFinalNewline(u)));
      if d.None? then None else Some(Num(d.value))
  }

  /** The magnitude of text whose parentheses are already gone: dollar
      signs and surrounding whitespace dropped, a lone dash is 0, and the
      commas are removed before parsing. */
  function Magnitude(s: string): (r: Option<Value>)
    ensures r.Some? && r.value.Pct? ==> ',' !in r.value.text && EndsWith(r.value.text, "%")
  {
    var t := Strip(LStripSet(s, {'$'}));
    if t == [] || t == "-" || t == EmDashText then Some(Num(0.0))
    else ParseNumber(RemoveChar(t, ','))
  }

  /** `clean_value(raw)`. The source returns 0 for a dash before looking at
      the parentheses, which is the negation of 0. */
  function CleanValue(raw: string): (r: Option<Value>)
    ensures IsBlank(raw) ==> r.None?
    ensures r.Some? && r.value.Pct? ==> ',' !in r.value.text && EndsWith(r.value.text, "%")
  {
    if IsBlank(raw) then None
    else
      var (s, neg) := Unparen(Strip(raw));
      if neg then Negated(Magnitude(s)) else Magnitude(s)
  }

  /** Parentheses around an amount negate it: `(x)` is the negation of `x`
      for any stripped `x` that is not itself parenthesised. */
  lemma ParenthesesNegate(x: string)
    requires x != [] && !IsSpace(x[0]) && !IsSpace(x[|x| - 1]) && x[0] != '('
    ensures CleanValue("(" + x + ")") == Negated(CleanValue(x))
  {
    var w := "(" + x + ")";
    StripOfStripped(w);
    StripOfStripped(x);
    UnparenPlain(x);
  }

  lemma UnparenPlain(x: string)
    requires x == [] || x[0] != '('
    ensures Unparen(x) == (x, false)
  {
    assert !StartsWith(x, "($");
  }

  /** A lone dash, hyphen or em dash, with or without a dollar sign, is 0. */
  lemma DashIsZero(raw: string)
    requires Strip(raw) == "-" || Strip(raw) == EmDashText || Strip(raw) == "$-"
    ensures CleanValue(raw) == Some(Num(0.0))
  {
    var s := Strip(raw);
    assert !IsBlank(raw) by {
      assert raw[StripStart(raw)] == s[0];
    }
    assert !StartsWith(s, "($");
    UnparenPlain(s);
    var u := LStripSet(s, {'$'});
    assert u == "-" || u == EmDashText by {
      if s == "$-" {
        assert LeadEnd(s, {'$'}, 1) == 1;
      } else {
        assert LeadEnd(s, {'$'}, 0) == 0;
      }
    }
    StripOfStripped(u);
  }

  /** A digit string parses to its value. */
  lemma ParseDigits(u: string)
    requires IsDigitString(u)
    ensures ParseNumber(u) == Some(Num(DigitsValue(u) as real))
  {
    var t := TakeWhile(u, IsDigit);
    assert |t| == |u| && u[..|t|] == u;
    assert IsPlainDecimal(u);
    assert NumberShape(u) && DropFinalNewline(u) == u && ToDecimal(Some(u)) == Some(DigitsValue(u) as real);
    assert IsDigit(u[|u| - 1]);
    assert !EndsWith(u, "%");
  }

  /** A dollar amount with a thousands comma is worth its digits. */
  lemma DollarMagnitude(a: string, b: string)
    requires IsDigitString(a) && AllDigits(b)
    ensures Magnitude("$" + a + "," + b) == Some(Num(DigitsValue(a + b) as real))
  {
    var t := a + "," + b;
    assert "$" + a + "," + b == "$" + t;
    assert Strip(LStripSet("$" + t, {'$'})) == t by {
      assert LeadEnd("$" + t, {'$'}, 1) == 1;
      StripOfStripped(t);
    }
    assert |t| >= 2 && t != EmDashText;
    assert ParseNumber(RemoveChar(t, ',')) == Some(Num(DigitsValue(a + b) as real)) by {
      assert RemoveChar(",", ',') == [];
      assert RemoveChar(a + ",", ',') == a by {
        RemoveCharAppend(a, ",", ',');
        RemoveDigitsKept(a, ',');
      }
      RemoveCharAppend(a + ",", b, ',');
      RemoveDigitsKept(b, ',');
      ParseDigits(a + b);
    }
  }

  /** Unparenthesised text is its own magnitude. */
  lemma CleanPlain(raw: string)
    requires !IsBlank(raw)
    requires var s := Strip(raw); s[0] != '(' && !StartsWith(s, "($")
    ensures CleanValue(raw) == Magnitude(Strip(raw))
  {
  }

  /** A run of digits with a thousands comma and a dollar sign is worth its
      digits; in parentheses it is negative, by `ParenthesesNegate`. */
  lemma DollarAmount(a: string, b: string)
    requires IsDigitString(a) && AllDigits(b)
    ensures CleanValue("$" + a + "," + b) == Some(Num(DigitsValue(a + b) as real))
  {
    var x := "$" + a + "," + b;
    assert Strip(x) == x && !IsBlank(x) by { StripOfStripped(x); }
    assert !StartsWith(x, "($") && x[0] != '(';
    CleanPlain(x);
    DollarMagnitude(a, b);
  }

  /** Text that starts with no dollar sign or space and ends in no space
      is its own magnitude's input. */
  lemma MagnitudeOfBare(x: string)
    requires |x| >= 2 && x[0] != '$' && !IsSpace(x[0]) && !IsSpace(x[|x| - 1])
    ensures Magnitude(x) == ParseNumber(RemoveChar(x, ','))
  {
    assert LeadEnd(x, {'$'}, 0) == 0;
    StripOfStripped(x);
  }

  /** A percentage parses to itself. */
  lemma PercentParses(x: string)
    requires |x| >= 2 && x[|x| - 1] == '%' && IsDigitString(x[..|x| - 1])
    ensures ParseNumber(x) == Some(Pct(x))
  {
    assert NumberShape(x);
  }

  lemma PercentMagnitude(d: string)
    requires IsDigitString(d)
    ensures Magnitude(d + "%") == Some(Pct(d + "%"))
  {
    var x := d + "%";
    assert x[..|x| - 1] == d;
    MagnitudeOfBare(x);
    assert RemoveChar(x, ',') == x by {
      RemoveCharAppend(d, "%", ',');
      RemoveDigitsKept(d, ',');
    }
    PercentParses(x);
  }

  /** A parenthesised percentage loses its sign: the text comes back as
      the bare percentage. */
  lemma PercentKeepsNoSign(d: string)
    requires IsDigitString(d)
    ensures CleanValue("(" + (d + "%") + ")") == Some(Pct(d + "%"))
  {
    var x := d + "%";
    assert Strip(x) == x && !IsBlank(x) by { StripOfStripped(x); }
    assert CleanValue(x) == Some(Pct(x)) by {
      CleanPlain(x);
      PercentMagnitude(d);
    }
    ParenthesesNegate(x);
  }

  /** Text that opens with a letter parses to nothing. */
  lemma WordParsesToNothing(u: string)
    requires u != [] && IsAlpha(u[0])
    ensures ParseNumber(u) == None
  {
    if |u| >= 2 {
      assert u[..|u| - 1][0] == u[0];
    }
  }

  /** Text that opens with a letter is no value. */
  lemma WordIsNoValue(raw: string)
    requires !IsBlank(raw) && IsAlpha(Strip(raw)[0])
    ensures CleanValue(raw) == None
  {
    var s := Strip(raw);
    CleanPlain(raw);
    assert Strip(LStripSet(s, {'$'})) == s by {
      assert LeadEnd(s, {'$'}, 0) == 0;
      StripOfStripped(s);
    }
    var u := RemoveChar(s, ',');
    assert u == [s[0]] + RemoveChar(s[1..], ',');
    WordParsesToNothing(u);
  }
}
