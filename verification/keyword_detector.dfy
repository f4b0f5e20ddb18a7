/** The prompt hook that switches on a working mode: the first mode, in
    declaration order, one of whose keywords occurs in the lower-cased
    prompt decides the single instruction added to the prompt. The
    instruction texts are constants and are represented by their mode. */
module KeywordDetector {
  import opened Common
  import opened Strings

  datatype Mode = Ultrawork | Search | Analyze | Think

  /** The modes in the order `MODES` declares them. */
  const Modes: seq<Mode> := [Ultrawork, Search, Analyze, Think]

  /** The keywords of each mode, in the order of `Modes`. */
  const KeywordTable: seq<seq<string>> := [
    ["ultrawork", "ulw", "ultra work"],
    ["search", "find", "locate", "where is"],
    ["analyze", "investigate", "debug", "diagnose"],
    ["think deeply", "think hard", "think carefully"]]

  /** Where the mode sits in `Modes`. */
  function Rank(m: Mode): (k: nat)
    ensures k < |Modes| && Modes[k] == m
  {
    match m
    case Ultrawork => 0
    case Search => 1
    case Analyze => 2
    case Think => 3
  }

  lemma RankOfMode(i: nat)
    requires i < |Modes|
    ensures Rank(Modes[i]) == i
  {
  }

  function Keywords(m: Mode): seq<string>
  {
    KeywordTable[Rank(m)]
  }

  /** The tag that wraps the mode's instruction. */
  function InstructionTag(m: Mode): string
  {
    match m
    case Ultrawork => "ultrawork-mode"
    case Search => "search-mode"
    case Analyze => "analysis-mode"
    case Think => "think-mode"
  }

  /** Some keyword of `kws` is a substring of the lower-cased prompt. */
  predicate Hit(prompt: string, kws: seq<string>)
  {
    exists k :: k in kws && Contains(Lower(prompt), k)
  }

  predicate Triggers(prompt: string, m: Mode)
  {
    Hit(prompt, Keywords(m))
  }

  /** The first keyword of `kws` found in `text`: the inner loop. */
  function FirstFound(text: string, kws: seq<string>): (r: Option<string>)
    ensures r.Some? ==> r.value in kws && Contains(text, r.value)
    ensures r.None? <==> forall k :: k in kws ==> !Contains(text, k)
  {
    if kws == [] then None
    else if Contains(text, kws[0]) then Some(kws[0])
    else
      var r := FirstFound(text, kws[1..]);
      assert forall k :: k in kws ==> k == kws[0] || k in kws[1..];
      r
  }

  /** The outer loop over the keyword lists from `i` on: the index of the
      first list with a keyword in the prompt. */
  function SelectFrom(prompt: string, table: seq<seq<string>>, i: nat): (r: Option<nat>)
    requires i <= |table|
    ensures r.Some? ==> i <= r.value < |table| && Hit(prompt, table[r.value])
    ensures r.Some? ==> forall j :: i <= j < r.value ==> !Hit(prompt, table[j])
    ensures r.None? <==> forall j :: i <= j < |table| ==> !Hit(prompt, table[j])
    decreases |table| - i
  {
    if i == |table| then None
    else if FirstFound(Lower(prompt), table[i]).Some? then Some(i)
    else SelectFrom(prompt, table, i + 1)
  }

  /** The mode chosen for a prompt: one whose keyword occurs, with no
      earlier mode's keyword occurring; none exactly when no keyword
      occurs. */
  function SelectMode(prompt: string): (r: Option<Mode>)
    ensures r.Some? ==> Triggers(prompt, r.value) && forall m :: Rank(m) < Rank(r.value) ==> !Triggers(prompt, m)
    ensures r.None? <==> forall m :: !Triggers(prompt, m)
  {
    var i := SelectFrom(prompt, KeywordTable, 0);
    if i.Some? then
      RankOfMode(i.value);
      Some(Modes[i.value])
    else None
  }

  /** Any mode that triggers is the chosen one unless an earlier mode
      triggers too. */
  lemma EarliestModeWins(prompt: string, m: Mode)
    requires Triggers(prompt, m)
    requires forall e :: Rank(e) < Rank(m) ==> !Triggers(prompt, e)
    ensures SelectMode(prompt) == Some(m)
  {
    var r := SelectMode(prompt);
    assert Modes[Rank(m)] == m;
  }

  /** Matching ignores the case of the prompt. */
  lemma CaseIgnored(prompt: string)
    ensures SelectMode(Lower(prompt)) == SelectMode(prompt)
  {
    SelectFromLower(prompt, KeywordTable, 0);
  }

  lemma {:induction false} SelectFromLower(prompt: string, table: seq<seq<string>>, i: nat)
    requires i <= |table|
    ensures SelectFrom(Lower(prompt), table, i) == SelectFrom(prompt, table, i)
    decreases |table| - i
  {
    LowerIdempotent(prompt);
    if i < |table| {
      SelectFromLower(prompt, table, i + 1);
    }
  }

  /** What the hook reads from its input. */
  datatype HookInput = Unparsable | Input(prompt: Option<string>, message: Option<string>)

  /** `data.get("prompt") or data.get("message") or ""`: the first of the
      two that is present and not empty. */
  function PromptText(prompt: Option<string>, message: Option<string>): (r: string)
    ensures prompt.Some? && prompt.value != [] ==> r == prompt.value
    ensures (prompt.None? || prompt.value == []) && message.Some? && message.value != [] ==> r == message.value
    ensures (prompt.None? || prompt.value == []) && (message.None? || message.value == []) ==> r == []
  {
    if prompt.Some? && prompt.value != [] then prompt.value
    else if message.Some? && message.value != [] then message.value
    else ""
  }

  /** The hook: the mode whose instruction is printed, if any. Unreadable
      input and an empty prompt print nothing. */
  function Detect(input: HookInput): (r: Option<Mode>)
    ensures input.Unparsable? ==> r.None?
    ensures input.Input? && PromptText(input.prompt, input.message) == [] ==> r.None?
    ensures input.Input? && PromptText(input.prompt, input.message) != [] ==>
      r == SelectMode(PromptText(input.prompt, input.message))
  {
    if input.Unparsable? then None
    else
      var p := PromptText(input.prompt, input.message);
      if p == [] then None else SelectMode(p)
  }
}
