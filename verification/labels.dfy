/** The key under which line items of different quarters are matched:
    the label lower-cased, without footnote and "(net)" annotations, with
    the spellings of "non operating" unified, without trailing punctuation,
    with whitespace collapsed, without leading bullets and dollar signs,
    and without the "(own portfolio)" and "(consolidated portfolio)"
    qualifiers. */
module Labels {
  import opened Common
  import opened Strings

  /** Start of the run of ASCII digits that ends at `e`. */
  function DigitRunBack(s: string, e: nat): (k: nat)
    requires e <= |s|
    ensures k <= e
    ensures forall j :: k <= j < e ==> IsDigit(s[j])
    ensures k > 0 ==> !IsDigit(s[k - 1])
  {
    if e > 0 && IsDigit(s[e - 1]) then DigitRunBack(s, e - 1) else e
  }

  /** Where `re.sub(r"\s*\(\d+\)\s*$", "", s)` cuts `s`: the whitespace
      before a final parenthesised number, if there is one. */
  function NumberNoteStart(s: string): (r: Option<nat>)
    ensures r.Some? ==> r.value < |s|
  {
    var e := TrailStart(s, |s|);
    if e >= 1 && s[e - 1] == ')' then
      var k := DigitRunBack(s, e - 1);
      if 1 <= k < e - 1 && s[k - 1] == '(' then Some(TrailStart(s, k - 1)) else None
    else None
  }

  function DropNumberNote(s: string): (r: string)
    ensures |r| <= |s| && r == s[..|r|]
  {
    var q := NumberNoteStart(s);
    if q.Some? then s[..q.value] else s
  }

  /** `re.sub(r"\s*\(net\)\s*$", "", s, flags=re.IGNORECASE)` on text
      that is already lower-cased. */
  function DropNetNote(s: string): (r: string)
    ensures |r| <= |s| && r == s[..|r|]
  {
    var e := TrailStart(s, |s|);
    if e >= 5 && s[e - 5..e] == "(net)" then s[..TrailStart(s, e - 5)] else s
  }

  /** A label that ends in a footnote number loses it, with the space
      before it. */
  lemma DropsNumberNote(b: string, d: string)
    requires b != [] && !IsSpace(b[|b| - 1]) && IsDigitString(d)
    ensures DropNumberNote(b + " (" + d + ")") == b
  {
    var s := b + " (" + d + ")";
    var n := |b| + 2;
    assert s[|s| - 1] == ')';
    assert TrailStart(s, |s|) == |s|;
    assert s[n..|s| - 1] == d;
    assert DigitRunBack(s, |s| - 1) == n by {
      DigitRunBackOver(s, n, |s| - 1);
    }
    assert s[n - 1] == '(' && s[n - 2] == ' ';
    assert TrailStart(s, n - 1) == |b| by {
      assert TrailStart(s, n - 2) == |b|;
    }
    assert s[..|b|] == b;
  }

  lemma DigitRunBackOver(s: string, k: nat, e: nat)
    requires k <= e <= |s| && (forall j :: k <= j < e ==> IsDigit(s[j])) && k > 0 && !IsDigit(s[k - 1])
    ensures DigitRunBack(s, e) == k
    decreases e
  {
    if e > k {
      DigitRunBackOver(s, k, e - 1);
    }
  }

  /** A label that ends in "(net)" loses it, with the space before it. */
  lemma DropsNetNote(b: string)
    requires b != [] && !IsSpace(b[|b| - 1])
    ensures DropNetNote(b + " (net)") == b
  {
    var s := b + " (net)";
    assert s[|s| - 1] == ')';
    assert TrailStart(s, |s|) == |s|;
    assert s[|s| - 5..|s|] == "(net)";
    assert TrailStart(s, |s| - 5) == |b| by {
      assert s[|s| - 6] == ' ';
      assert TrailStart(s, |s| - 6) == |b|;
    }
    assert s[..|b|] == b;
  }

  /** The four `replace` calls that unify "non operating". */
  function Spelling(s: string): string
  {
    var s1 := ReplaceAll(s, "non-operating", "non operating");
    var s2 := ReplaceAll(s1, "non-operation", "non operating");
    var s3 := ReplaceAll(s2, "non operating", "non operating");
    ReplaceAll(s3, "non operation", "non operating")
  }

  /** Replacing a pattern by itself changes nothing, so the third of the
      four replacements has no effect. */
  lemma {:induction false} ReplaceSelf(s: string, p: string)
    requires p != []
    ensures ReplaceAll(s, p, p) == s
    decreases |s|
  {
    if s != [] {
      if StartsWith(s, p) {
        ReplaceSelf(s[|p|..], p);
        assert s == s[..|p|] + s[|p|..];
      } else {
        ReplaceSelf(s[1..], p);
        assert s == [s[0]] + s[1..];
      }
    }
  }

  /** A text shorter than the pattern is left as it is. */
  lemma {:induction false} ReplaceShort(s: string, p: string, q: string)
    requires p != [] && |s| < |p|
    ensures ReplaceAll(s, p, q) == s
    decreases |s|
  {
    if s != [] {
      ReplaceShort(s[1..], p, q);
      assert s == [s[0]] + s[1..];
    }
  }

  /** A text as long as the pattern is replaced exactly when it is the
      pattern. */
  lemma ReplaceSameLength(s: string, p: string, q: string)
    requires p != [] && |s| == |p|
    ensures ReplaceAll(s, p, q) == if s == p then q else s
  {
    if s == p {
      assert s[|p|..] == [];
    } else {
      ReplaceShort(s[1..], p, q);
      assert s == [s[0]] + s[1..];
    }
  }

  /** The four spellings of "non operating" all end up as the same text. */
  lemma SpellingVariants(w: string)
    requires w == "non-operating" || w == "non-operation" || w == "non operating" || w == "non operation"
    ensures Spelling(w) == "non operating"
  {
    var s1 := ReplaceAll(w, "non-operating", "non operating");
    ReplaceSameLength(w, "non-operating", "non operating");
    var s2 := ReplaceAll(s1, "non-operation", "non operating");
    ReplaceSameLength(s1, "non-operation", "non operating");
    var s3 := ReplaceAll(s2, "non operating", "non operating");
    ReplaceSameLength(s2, "non operating", "non operating");
    ReplaceSameLength(s3, "non operation", "non operating");
  }

  /** `re.sub(r"\s+", " ", s)` from index `i` on. */
  function CollapseFrom(s: string, i: nat): (r: string)
    requires i <= |s|
    decreases |s| - i
  {
    if i == |s| then []
    else if IsSpace(s[i]) then " " + CollapseFrom(s, SpaceRunFrom(s, i))
    else [s[i]] + CollapseFrom(s, i + 1)
  }

  function Collapse(s: string): string { CollapseFrom(s, 0) }

  /** Whitespace is single plain spaces. */
  predicate SingleSpaced(s: string)
  {
    forall i :: 0 <= i < |s| && IsSpace(s[i]) ==> s[i] == ' ' && (i + 1 < |s| ==> !IsSpace(s[i + 1]))
  }

  /** The text without its whitespace. */
  function NonSpace(s: string): string
  {
    if s == [] then [] else if IsSpace(s[0]) then NonSpace(s[1..]) else [s[0]] + NonSpace(s[1..])
  }

  lemma NonSpaceAppend(a: string, b: string)
    ensures NonSpace(a + b) == NonSpace(a) + NonSpace(b)
  {
    if a != [] {
      NonSpaceAppend(a[1..], b);
      assert (a + b)[0] == a[0];
      assert (a + b)[1..] == a[1..] + b;
      var h := if IsSpace(a[0]) then [] else [a[0]];
      assert NonSpace(a + b) == h + (NonSpace(a[1..]) + NonSpace(b));
      assert NonSpace(a) == h + NonSpace(a[1..]);
    } else {
      assert a + b == b;
    }
  }

  lemma NonSpaceOfBlank(s: string)
    requires IsBlank(s)
    ensures NonSpace(s) == []
  {
    if s != [] {
      NonSpaceOfBlank(s[1..]);
    }
  }

  /** Collapsing leaves single plain spaces. */
  lemma {:induction false} CollapseFromSpacing(s: string, i: nat)
    requires i <= |s|
    ensures SingleSpaced(CollapseFrom(s, i))
    ensures CollapseFrom(s, i) != [] && IsSpace(CollapseFrom(s, i)[0]) ==> IsSpace(s[i])
    decreases |s| - i
  {
    if i < |s| {
      if IsSpace(s[i]) {
        var k := SpaceRunFrom(s, i);
        CollapseFromSpacing(s, k);
        var rest := CollapseFrom(s, k);
        assert CollapseFrom(s, i) == " " + rest;
        assert rest != [] ==> !IsSpace(rest[0]);
      } else {
        CollapseFromSpacing(s, i + 1);
      }
    }
  }

  /** Collapsing keeps every character other than whitespace, in order. */
  lemma {:induction false} CollapseFromKeeps(s: string, i: nat)
    requires i <= |s|
    ensures NonSpace(CollapseFrom(s, i)) == NonSpace(s[i..])
    decreases |s| - i
  {
    if i < |s| {
      if IsSpace(s[i]) {
        var k := SpaceRunFrom(s, i);
        CollapseFromKeeps(s, k);
        NonSpaceAppend(" ", CollapseFrom(s, k));
        assert s[i..] == s[i..k] + s[k..];
        NonSpaceAppend(s[i..k], s[k..]);
        NonSpaceOfBlank(s[i..k]);
      } else {
        CollapseFromKeeps(s, i + 1);
        NonSpaceAppend([s[i]], CollapseFrom(s, i + 1));
        assert s[i..] == [s[i]] + s[i + 1..];
        NonSpaceAppend([s[i]], s[i + 1..]);
      }
    } else {
      assert s[i..] == [];
    }
  }

  lemma CollapseShape(s: string)
    ensures SingleSpaced(Collapse(s)) && NonSpace(Collapse(s)) == NonSpace(s)
  {
    CollapseFromSpacing(s, 0);
    CollapseFromKeeps(s, 0);
    assert s[0..] == s;
  }

  /** Text that is already single-spaced is left as it is, so collapsing
      twice is collapsing once. */
  lemma {:induction false} CollapseFromSingleSpaced(s: string, i: nat)
    requires i <= |s| && SingleSpaced(s)
    ensures CollapseFrom(s, i) == s[i..]
    decreases |s| - i
  {
    if i < |s| {
      if IsSpace(s[i]) {
        assert SpaceRunFrom(s, i) == i + 1 by {
          if i + 1 < |s| { assert !IsSpace(s[i + 1]); }
        }
      }
      CollapseFromSingleSpaced(s, i + 1);
      assert s[i..] == [s[i]] + s[i + 1..];
    }
  }

  lemma CollapseIdempotent(s: string)
    ensures Collapse(Collapse(s)) == Collapse(s)
  {
    CollapseFromSpacing(s, 0);
    CollapseFromSingleSpaced(Collapse(s), 0);
    assert Collapse(s)[0..] == Collapse(s);
  }

  /** The characters `lstrip("$•·- ")` removes. */
  const LeadChars: set<char> := {'$', '\U{2022}', '\U{B7}', '-', ' '}

  const TrailChars: set<char> := {'.', ':', ';'}

  const Own: string := "own"
  const Consolidated: string := "consolidated"
  const PortfolioClose: string := "portfolio)"

  /** Index just past `(own portfolio)` or `(consolidated portfolio)`
      starting at `k`, with any whitespace before "portfolio". */
  function PortfolioEnd(s: string, k: nat): (r: Option<nat>)
    requires k <= |s|
    ensures r.Some? ==> k < r.value <= |s|
  {
    if k < |s| && s[k] == '(' then
      var w := if OccursAt(s, Own, k + 1) then |Own| else if OccursAt(s, Consolidated, k + 1) then |Consolidated| else 0;
      if w == 0 then None
      else
        var m := SpaceRunFrom(s, k + 1 + w);
        if OccursAt(s, PortfolioClose, m) then Some(m + |PortfolioClose|) else None
    else None
  }

  /** `re.sub(r"\s*\((own|consolidated)\s*portfolio\)", "", s)` from index
      `i` on: a match starts at the first of the whitespace before it. */
  function DropPortfolioFrom(s: string, i: nat): (r: string)
    requires i <= |s|
    decreases |s| - i
  {
    if i == |s| then []
    else
      var e := PortfolioEnd(s, SpaceRunFrom(s, i));
      if e.Some? then DropPortfolioFrom(s, e.value) else [s[i]] + DropPortfolioFrom(s, i + 1)
  }

  function DropPortfolio(s: string): string { DropPortfolioFrom(s, 0) }

  /** Every character of the result is a character of `s`. */
  lemma {:induction false} DropPortfolioChars(s: string, i: nat)
    requires i <= |s|
    ensures forall c :: c in DropPortfolioFrom(s, i) ==> c in s[i..]
    decreases |s| - i
  {
    if i < |s| {
      var e := PortfolioEnd(s, SpaceRunFrom(s, i));
      if e.Some? {
        DropPortfolioChars(s, e.value);
        forall c | c in s[e.value..] ensures c in s[i..] {
          var j :| 0 <= j < |s[e.value..]| && s[e.value..][j] == c;
          assert s[i..][e.value - i + j] == c;
        }
      } else {
        DropPortfolioChars(s, i + 1);
        forall c | c in s[i + 1..] ensures c in s[i..] {
          var j :| 0 <= j < |s[i + 1..]| && s[i + 1..][j] == c;
          assert s[i..][j + 1] == c;
        }
      }
    }
  }

  /** Before the qualifier nothing is dropped from a text without
      parentheses. */
  lemma {:induction false} DropPortfolioBefore(b: string, s: string, i: nat)
    requires '(' !in b && b != [] && !IsSpace(b[|b| - 1])
    requires |b| < |s| && s[..|b|] == b && i <= |b|
    ensures DropPortfolioFrom(s, i) == b[i..] + DropPortfolioFrom(s, |b|)
    decreases |b| - i
  {
    if i < |b| {
      var k := SpaceRunFrom(s, i);
      assert s[|b| - 1] == b[|b| - 1];
      assert k < |b|;
      assert s[k] == b[k] && b[k] in b;
      DropPortfolioBefore(b, s, i + 1);
      assert b[i..] == [b[i]] + b[i + 1..];
    }
  }

  /** The text of the qualifier `(w portfolio)` after a space. */
  function Qualifier(w: string): (q: string)
    ensures |q| == |w| + 3 + |PortfolioClose|
  {
    " (" + w + " " + PortfolioClose
  }

  lemma TwoSpaceRuns(s: string, i: nat, j: nat)
    requires i < j && j + 1 < |s| && s[i] == ' ' && s[i + 1] == '(' && s[j] == ' ' && s[j + 1] == 'p'
    ensures SpaceRunFrom(s, i) == i + 1 && SpaceRunFrom(s, j) == j + 1
  {
  }

  /** The qualifier's characters read through `pre`. */
  lemma QualifierAt(pre: string, w: string, j: nat)
    requires j < |Qualifier(w)|
    ensures (pre + Qualifier(w))[|pre| + j] == Qualifier(w)[j]
  {
  }

  lemma QualifierSpaces(s: string, pre: string, w: string)
    requires s == pre + Qualifier(w)
    ensures SpaceRunFrom(s, |pre|) == |pre| + 1 && SpaceRunFrom(s, |pre| + 2 + |w|) == |pre| + 3 + |w|
  {
    var q := Qualifier(w);
    var n := |pre|;
    var m := 2 + |w|;
    assert s[n] == ' ' && s[n + 1] == '(' by {
      QualifierAt(pre, w, 0);
      QualifierAt(pre, w, 1);
    }
    assert s[n + m] == ' ' && s[n + m + 1] == 'p' by {
      assert q[m + 1] == q[m + 1..][0] == PortfolioClose[0];
      QualifierAt(pre, w, m);
      QualifierAt(pre, w, m + 1);
    }
    TwoSpaceRuns(s, n, n + m);
  }

  lemma QualifierWord(pre: string, w: string)
    requires w == Own || w == Consolidated
    ensures var s := pre + Qualifier(w);
      s[|pre| + 1] == '(' && (OccursAt(s, Own, |pre| + 2) <==> w == Own) && OccursAt(s, w, |pre| + 2)
  {
    var q := Qualifier(w);
    var s := pre + q;
    var n := |pre|;
    QualifierAt(pre, w, 1);
    assert s[n + 2..n + 2 + |w|] == q[2..2 + |w|];
    if w == Consolidated {
      QualifierAt(pre, w, 2);
      assert q[2] == q[2..2 + |w|][0] == 'c';
    }
  }

  /** A label that ends in "(own portfolio)" or "(consolidated portfolio)"
      loses it, with the space before it. */
  lemma DropsPortfolioQualifier(b: string, w: string)
    requires w == Own || w == Consolidated
    requires '(' !in b && b != [] && !IsSpace(b[|b| - 1])
    ensures DropPortfolio(b + Qualifier(w)) == b
  {
    var s := b + Qualifier(w);
    QualifierDropped(b, w);
    assert s[..|b|] == b;
    DropPortfolioBefore(b, s, 0);
    assert b[0..] == b;
  }

  /** The qualifier itself, from the space before it, is dropped whole. */
  lemma QualifierDropped(b: string, w: string)
    requires w == Own || w == Consolidated
    ensures DropPortfolioFrom(b + Qualifier(w), |b|) == []
  {
    var s := b + Qualifier(w);
    QualifierSpaces(s, b, w);
    QualifierEnd(b, w);
    DropPortfolioAt(s, |b|, |s|);
  }

  /** A match found at `i` ending at `e` is skipped whole. */
  lemma DropPortfolioAt(s: string, i: nat, e: nat)
    requires i < |s| && PortfolioEnd(s, SpaceRunFrom(s, i)) == Some(e)
    ensures DropPortfolioFrom(s, i) == DropPortfolioFrom(s, e)
  {
  }

  /** The qualifier, read from its opening parenthesis, ends the text. */
  lemma QualifierEnd(b: string, w: string)
    requires w == Own || w == Consolidated
    ensures var s := b + Qualifier(w); PortfolioEnd(s, |b| + 1) == Some(|s|)
  {
    var s := b + Qualifier(w);
    QualifierSpaces(s, b, w);
    QualifierWord(b, w);
    QualifierClose(b, w);
  }

  /** The qualifier ends in "portfolio)", which ends the text. */
  lemma QualifierClose(pre: string, w: string)
    ensures var s := pre + Qualifier(w);
      OccursAt(s, PortfolioClose, |pre| + 3 + |w|) && |s| == |pre| + 3 + |w| + |PortfolioClose|
  {
    var s := pre + Qualifier(w);
    var k := |pre| + 3 + |w|;
    assert s[k..k + |PortfolioClose|] == PortfolioClose;
  }

  /** All characters are their own lower case. */
  predicate Lowered(s: string) { forall c :: c in s ==> LowerChar(c) == c }

  lemma {:induction false} ReplaceAllLowered(s: string, p: string, q: string)
    requires p != [] && Lowered(s) && Lowered(q)
    ensures Lowered(ReplaceAll(s, p, q))
    decreases |s|
  {
    if s != [] {
      if StartsWith(s, p) {
        ReplaceAllLowered(s[|p|..], p, q);
      } else {
        ReplaceAllLowered(s[1..], p, q);
      }
    }
  }

  lemma {:induction false} CollapseLowered(s: string, i: nat)
    requires i <= |s| && Lowered(s)
    ensures Lowered(CollapseFrom(s, i))
    decreases |s| - i
  {
    if i < |s| {
      if IsSpace(s[i]) {
        CollapseLowered(s, SpaceRunFrom(s, i));
      } else {
        CollapseLowered(s, i + 1);
      }
    }
  }

  /** `normalize_label(label)` */
  function NormalizeLabel(name: string): string
  {
    DropPortfolio(LStripSet(Collapse(RStripSet(Spelling(Trimmed(name)), TrailChars)), LeadChars))
  }

  /** The label lower-cased and stripped, without its trailing footnote
      number and "(net)". */
  function Trimmed(name: string): string
  {
    DropNetNote(DropNumberNote(Strip(Lower(name))))
  }

  lemma TrimmedLowered(name: string)
    ensures Lowered(Trimmed(name))
  {
    var s0 := Strip(Lower(name));
    assert Lowered(s0);
    var s1 := DropNumberNote(s0);
    PrefixLowered(s0, |s1|);
    PrefixLowered(s1, |DropNetNote(s1)|);
  }

  /** A prefix of a lower-case text is in lower case. */
  lemma PrefixLowered(s: string, n: nat)
    requires Lowered(s) && n <= |s|
    ensures Lowered(s[..n])
  {
    forall c | c in s[..n] ensures LowerChar(c) == c {
      var k :| 0 <= k < n && s[..n][k] == c;
      assert s[k] == c;
    }
  }

  lemma SpellingLowered(s: string)
    requires Lowered(s)
    ensures Lowered(Spelling(s))
  {
    var t1 := ReplaceAll(s, "non-operating", "non operating");
    ReplaceAllLowered(s, "non-operating", "non operating");
    var t2 := ReplaceAll(t1, "non-operation", "non operating");
    ReplaceAllLowered(t1, "non-operation", "non operating");
    var t3 := ReplaceAll(t2, "non operating", "non operating");
    ReplaceAllLowered(t2, "non operating", "non operating");
    ReplaceAllLowered(t3, "non operation", "non operating");
  }

  /** The key is in lower case: `Lower` leaves it as it is. */
  lemma NormalizeLabelLowered(name: string)
    ensures Lower(NormalizeLabel(name)) == NormalizeLabel(name)
  {
    var s2 := RStripSet(Spelling(Trimmed(name)), TrailChars);
    assert Lowered(s2) by {
      TrimmedLowered(name);
      SpellingLowered(Trimmed(name));
    }
    var c := Collapse(s2);
    var s3 := LStripSet(c, LeadChars);
    assert Lowered(s3) by {
      CollapseLowered(s2, 0);
    }
    var r := NormalizeLabel(name);
    assert forall ch :: ch in r ==> ch in s3 by {
      DropPortfolioChars(s3, 0);
      assert s3[0..] == s3;
    }
    forall i | 0 <= i < |r| ensures Lower(r)[i] == r[i] {
      assert r[i] in r;
    }
  }

  /** Matching ignores letter case. */
  lemma NormalizeIgnoresCase(name: string)
    ensures NormalizeLabel(Lower(name)) == NormalizeLabel(name)
  {
    LowerIdempotent(name);
  }
}
