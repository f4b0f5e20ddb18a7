/** The stop hook that keeps a session from ending while its todo list has
    pending or in-progress items. The list is the one written by the last
    TodoWrite call of the transcript. A counter of consecutive blocks of the
    same session, kept in the hook's configuration, acts as a safety valve:
    on reaching ten the hook lets the session end and starts counting
    again. Reading and writing the configuration, the transcript and the
    log are inputs and outputs of the model. */
module TodoEnforcer {
  import opened Common
  import opened Strings

  const MaxConsecutiveBlocks := 10

  /** One todo; a missing status or content reads as "". */
  datatype Todo = Todo(status: string, content: string)

  predicate IsPending(t: Todo) { t.status == "pending" }

  predicate IsInProgress(t: Todo) { t.status == "in_progress" }

  predicate IsIncomplete(t: Todo) { IsPending(t) || IsInProgress(t) }

  /** `pending + in_progress` */
  function Incomplete(todos: seq<Todo>): (n: nat)
    ensures n == Count(todos, IsIncomplete)
  {
    if todos == [] then 0
    else (if IsPending(todos[0]) then 1 else 0) + (if IsInProgress(todos[0]) then 1 else 0) + Incomplete(todos[1..])
  }

  // ---------------------------------------------------------------------
  // The transcript
  // ---------------------------------------------------------------------

  /** A content block of a transcript message: a TodoWrite call carries its
      todo list, `None` when its input has none. */
  datatype Block = TodoWrite(todos: Option<seq<Todo>>) | OtherBlock

  /** One non-blank line of the transcript as the reading loop meets it.
      Text that is not JSON is skipped. JSON the loop cannot walk raises
      an error the loop does not catch: a value that is not an object, a
      message that is not an object, content that is a number, null or a
      non-empty string or object, a content item or tool input that is not
      an object; `before` holds the blocks of the line read before the
      error. Otherwise the line gives its content blocks in order; a
      missing message or content, or an empty one, gives none. */
  datatype Line = NotJson | Unwalkable(before: seq<Block>) | Entry(blocks: seq<Block>)

  /** No line of the transcript stops the loop. */
  predicate Walkable(lines: seq<Line>)
  {
    forall k :: 0 <= k < |lines| ==> !lines[k].Unwalkable?
  }

  /** The blocks the loop reads from one line. */
  function LineBlocks(l: Line): seq<Block>
  {
    match l
    case NotJson => []
    case Unwalkable(before) => before
    case Entry(blocks) => blocks
  }

  /** The blocks of the transcript's lines, in order. */
  function Blocks(lines: seq<Line>): seq<Block>
  {
    if lines == [] then [] else LineBlocks(lines[0]) + Blocks(lines[1..])
  }

  /** The position of the last TodoWrite block. */
  function LastWrite(blocks: seq<Block>): (r: Option<nat>)
    ensures r.Some? ==> r.value < |blocks| && blocks[r.value].TodoWrite?
    ensures r.Some? ==> forall j :: r.value < j < |blocks| ==> !blocks[j].TodoWrite?
    ensures r.None? <==> forall j :: 0 <= j < |blocks| ==> !blocks[j].TodoWrite?
  {
    if blocks == [] then None
    else if blocks[|blocks| - 1].TodoWrite? then Some(|blocks| - 1)
    else
      var r := LastWrite(blocks[..|blocks| - 1]);
      assert forall j :: 0 <= j < |blocks| - 1 ==> blocks[..|blocks| - 1][j] == blocks[j];
      r
  }

  /** `todos_json` after the transcript loop: the list of the last
      TodoWrite call, which replaces any earlier one even when it carries
      no list. */
  function LastTodos(blocks: seq<Block>): (r: Option<seq<Todo>>)
    ensures LastWrite(blocks).None? ==> r.None?
    ensures LastWrite(blocks).Some? ==> r == blocks[LastWrite(blocks).value].todos
  {
    var i := LastWrite(blocks);
    if i.Some? then blocks[i.value].todos else None
  }

  /** A later TodoWrite call decides, whatever came before. */
  lemma LaterWriteWins(blocks: seq<Block>, more: seq<Block>)
    requires LastWrite(more).Some?
    ensures LastTodos(blocks + more) == LastTodos(more)
  {
    var k := LastWrite(more).value;
    var all := blocks + more;
    assert all[|blocks| + k] == more[k];
    assert forall j :: |blocks| + k < j < |all| ==> all[j] == more[j - |blocks|];
  }

  /** Blocks of other kinds do not change the list. */
  lemma OtherBlocksIgnored(blocks: seq<Block>, more: seq<Block>)
    requires forall j :: 0 <= j < |more| ==> !more[j].TodoWrite?
    ensures LastTodos(blocks + more) == LastTodos(blocks)
  {
    var all := blocks + more;
    assert forall j :: 0 <= j < |blocks| ==> all[j] == blocks[j];
    assert forall j :: |blocks| <= j < |all| ==> all[j] == more[j - |blocks|];
    if LastWrite(blocks).Some? {
      assert LastWrite(all) == LastWrite(blocks);
    }
  }

  // ---------------------------------------------------------------------
  // The block message
  // ---------------------------------------------------------------------

  function TaskLine(t: Todo): string
  {
    if IsInProgress(t) then "  -> [in progress] " + t.content else "  o [pending] " + t.content
  }

  /** One line per incomplete todo, in list order. */
  function TaskLines(todos: seq<Todo>): (r: seq<string>)
    ensures |r| == Incomplete(todos)
  {
    if todos == [] then []
    else (if IsIncomplete(todos[0]) then [TaskLine(todos[0])] else []) + TaskLines(todos[1..])
  }

  /** The line of each todo of `ts`, in order. */
  function LinesOf(ts: seq<Todo>): (r: seq<string>)
    ensures |r| == |ts| && forall k :: 0 <= k < |ts| ==> r[k] == TaskLine(ts[k])
  {
    if ts == [] then [] else [TaskLine(ts[0])] + LinesOf(ts[1..])
  }

  /** The task lines are those of the incomplete todos, in order. */
  lemma {:induction false} TaskLinesOfIncomplete(todos: seq<Todo>)
    ensures TaskLines(todos) == LinesOf(Filter(todos, IsIncomplete))
  {
    if todos != [] {
      TaskLinesOfIncomplete(todos[1..]);
      var f := Filter(todos[1..], IsIncomplete);
      if IsIncomplete(todos[0]) {
        assert Filter(todos, IsIncomplete) == [todos[0]] + f;
        assert LinesOf([todos[0]] + f) == [TaskLine(todos[0])] + LinesOf(f);
      } else {
        assert Filter(todos, IsIncomplete) == f;
      }
    }
  }

  /** The reason given for blocking. */
  function Reason(todos: seq<Todo>): string
  {
    "You have " + NatToString(Incomplete(todos)) + " incomplete todo(s):\n" + Join(TaskLines(todos), "\n")
    + "\n\nComplete these tasks before stopping.\nMark each task as 'completed' using TodoWrite when done."
  }

  // ---------------------------------------------------------------------
  // The decision
  // ---------------------------------------------------------------------

  /** The stored configuration; a missing file reads as enabled with a
      count of 0 and no session. */
  datatype Config = Config(enabled: bool, blockCount: int, lastBlockSession: Option<string>)

  const DefaultConfig := Config(true, 0, None)

  /** What the hook reads from its input; unparsable input lets the session
      end. A missing session id reads as "unknown" and a missing path as
      "". */
  datatype HookInput = Unparsable | Input(sessionId: string, transcriptPath: string, stopHookActive: bool)

  /** The transcript file as the hook finds it. */
  datatype Transcript = Missing | Unreadable | Read(lines: seq<Line>)

  /** What the hook can see besides its input and configuration. */
  datatype Env = Env(ralphLoopActive: bool, transcript: Transcript)

  /** Let the session end, or block it; a block prints `Reason(todos)`
      for the todo list it found. */
  datatype Decision = Allow | Block(todos: seq<Todo>)

  /** The decision and the configuration as it is stored afterwards. */
  datatype Outcome = Outcome(decision: Decision, config: Config)

  function ResetCount(c: Config): Config { c.(blockCount := 0) }

  /** The count the next block would store: one more for the same session,
      1 for a new one. */
  function NextCount(c: Config, session: string): int
  {
    if c.lastBlockSession == Some(session) then c.blockCount + 1 else 1
  }

  /** The transcript reads to the end, and its last todo list exists and
      has an unfinished item. */
  predicate Unfinished(t: Transcript)
  {
    t.Read? && Walkable(t.lines) && LastTodos(Blocks(t.lines)).Some? && Incomplete(LastTodos(Blocks(t.lines)).value) > 0
  }

  function Pending(t: Transcript): seq<Todo>
    requires Unfinished(t)
  {
    LastTodos(Blocks(t.lines)).value
  }

  /** A stop that continues a block of the same session starts the count
      again. */
  function Resume(c: Config, session: string, stopHookActive: bool): Config
  {
    if stopHookActive && c.lastBlockSession == Some(session) then ResetCount(c) else c
  }

  /** The steps after the reset: block while the last todo list has
      unfinished items and the valve is closed; every other way out that
      reads the transcript clears the count, an error while reading it
      included. */
  function Continue(c: Config, session: string, path: string, t: Transcript): (r: Outcome)
    ensures r.decision.Block? <==> (path != [] && Unfinished(t) && NextCount(c, session) < MaxConsecutiveBlocks)
    ensures r.decision.Block? ==> r.decision.todos == Pending(t)
    ensures r.decision.Block? ==> r.config == c.(blockCount := NextCount(c, session), lastBlockSession := Some(session))
    ensures path == [] || t.Missing? ==> r == Outcome(Allow, c)
    ensures path != [] && !t.Missing? && r.decision.Allow? ==> r.config == ResetCount(c)
  {
    if path == [] || t.Missing? then Outcome(Allow, c)
    else if t.Unreadable? || !Walkable(t.lines) then Outcome(Allow, ResetCount(c))
    else OnTodos(c, session, LastTodos(Blocks(t.lines)))
  }

  /** The steps once the todo list is known: no list, an empty one or one
      with nothing open clears the count and allows, as does an open
      valve; otherwise block and store the count with the session. */
  function OnTodos(c: Config, session: string, todos: Option<seq<Todo>>): Outcome
  {
    if todos.None? || todos.value == [] then Outcome(Allow, ResetCount(c))
    else if Incomplete(todos.value) == 0 then Outcome(Allow, ResetCount(c))
    else
      var count := NextCount(c, session);
      if count >= MaxConsecutiveBlocks then Outcome(Allow, ResetCount(c))
      else Outcome(Block(todos.value), c.(blockCount := count, lastBlockSession := Some(session)))
  }

  /** `main` after the configuration is loaded. */
  function Run(config: Config, input: HookInput, env: Env): (r: Outcome)
    ensures !config.enabled || input.Unparsable? || env.ralphLoopActive ==> r == Outcome(Allow, config)
    ensures r.decision.Block? ==> input.Input? && Unfinished(env.transcript)
    ensures r.decision.Block? ==> r.decision.todos == Pending(env.transcript)
    ensures r.decision.Block? ==> r.config.blockCount < MaxConsecutiveBlocks
    ensures r.decision.Block? ==> r.config.lastBlockSession == Some(input.sessionId)
    ensures r.config.enabled == config.enabled
  {
    if !config.enabled || input.Unparsable? || env.ralphLoopActive then Outcome(Allow, config)
    else Continue(Resume(config, input.sessionId, input.stopHookActive), input.sessionId, input.transcriptPath, env.transcript)
  }

  /** The hook run `n` times in a row with the same input and
      surroundings, each run starting from the configuration the previous
      one stored. */
  function Repeat(config: Config, input: HookInput, env: Env, n: nat): (r: (seq<Decision>, Config))
    ensures |r.0| == n
  {
    if n == 0 then ([], config)
    else
      var prev := Repeat(config, input, env, n - 1);
      var o := Run(prev.1, input, env);
      (prev.0 + [o.decision], o.config)
  }

  /** One stop without the continuation mark, when the todos are
      unfinished: blocked with the next count while it stays below ten,
      otherwise let through with the count cleared. */
  lemma PlainStop(c: Config, session: string, path: string, env: Env)
    requires c.enabled && path != [] && !env.ralphLoopActive && Unfinished(env.transcript)
    ensures Run(c, Input(session, path, false), env).decision.Allow? <==> NextCount(c, session) >= MaxConsecutiveBlocks
    ensures Run(c, Input(session, path, false), env).decision.Block? ==>
      Run(c, Input(session, path, false), env).config == c.(blockCount := NextCount(c, session), lastBlockSession := Some(session))
    ensures Run(c, Input(session, path, false), env).decision.Allow? ==>
      Run(c, Input(session, path, false), env).config == ResetCount(c)
  {
  }

  /** The safety valve: a session with unfinished todos, stopped again and
      again without the continuation mark, is blocked nine times and let go
      on the tenth, and the cycle repeats. */
  lemma {:induction false} SafetyValve(config: Config, session: string, path: string, env: Env, n: nat)
    requires config.enabled && path != [] && !env.ralphLoopActive && Unfinished(env.transcript)
    requires config.lastBlockSession != Some(session) || config.blockCount == 0
    ensures forall i :: 0 <= i < n ==>
      (Repeat(config, Input(session, path, false), env, n).0[i].Allow? <==> i % MaxConsecutiveBlocks == MaxConsecutiveBlocks - 1)
    ensures Repeat(config, Input(session, path, false), env, n).1.enabled
    ensures n > 0 ==> Repeat(config, Input(session, path, false), env, n).1.lastBlockSession == Some(session)
    ensures n > 0 ==> Repeat(config, Input(session, path, false), env, n).1.blockCount == n % MaxConsecutiveBlocks
    ensures n == 0 ==> Repeat(config, Input(session, path, false), env, n).1 == config
  {
    if n > 0 {
      var input := Input(session, path, false);
      SafetyValve(config, session, path, env, n - 1);
      var prev := Repeat(config, input, env, n - 1);
      PlainStop(prev.1, session, path, env);
      var o := Run(prev.1, input, env);
      assert Repeat(config, input, env, n) == (prev.0 + [o.decision], o.config);
      assert NextCount(prev.1, session) == (n - 1) % MaxConsecutiveBlocks + 1;
      assert forall i :: 0 <= i < n - 1 ==> (prev.0 + [o.decision])[i] == prev.0[i];
    }
  }

  /** A stop marked as a continuation of a block of the same session resets
      the count first, so with unfinished todos such a stop is always
      blocked and leaves the count at 1. */
  lemma ContinuationBlocks(config: Config, session: string, path: string, env: Env)
    requires config.enabled && path != [] && !env.ralphLoopActive && Unfinished(env.transcript)
    ensures Run(config, Input(session, path, true), env).decision.Block?
    ensures Run(config, Input(session, path, true), env).config.blockCount == 1
  {
  }

  /** So however many such stops follow each other, the valve never
      opens for them. */
  lemma {:induction false} ContinuationNeverReleased(config: Config, session: string, path: string, env: Env, n: nat)
    requires config.enabled && path != [] && !env.ralphLoopActive && Unfinished(env.transcript)
    ensures forall i :: 0 <= i < n ==> Repeat(config, Input(session, path, true), env, n).0[i].Block?
    ensures Repeat(config, Input(session, path, true), env, n).1.enabled
  {
    if n > 0 {
      var input := Input(session, path, true);
      ContinuationNeverReleased(config, session, path, env, n - 1);
      var prev := Repeat(config, input, env, n - 1);
      ContinuationBlocks(prev.1, session, path, env);
      var o := Run(prev.1, input, env);
      assert Repeat(config, input, env, n) == (prev.0 + [o.decision], o.config);
      assert forall i :: 0 <= i < n - 1 ==> (prev.0 + [o.decision])[i] == prev.0[i];
    }
  }

  /** The reading that keeps the safety valve working for continued stops:
      the same hook without the reset of lines 84-87, so a stop marked as
      a continuation counts like any other. */
  function RunKeepingCount(config: Config, input: HookInput, env: Env): (r: Outcome)
    ensures input.Input? ==> r == Run(config, input.(stopHookActive := false), env)
  {
    if !config.enabled || input.Unparsable? || env.ralphLoopActive then Outcome(Allow, config)
    else Continue(config, input.sessionId, input.transcriptPath, env.transcript)
  }

  /** `RunKeepingCount` run `n` times in a row, as `Repeat` runs the hook. */
  function RepeatKeepingCount(config: Config, input: HookInput, env: Env, n: nat): (r: (seq<Decision>, Config))
    ensures |r.0| == n
  {
    if n == 0 then ([], config)
    else
      var prev := RepeatKeepingCount(config, input, env, n - 1);
      var o := RunKeepingCount(prev.1, input, env);
      (prev.0 + [o.decision], o.config)
  }

  /** Without the reset, continued stops are the plain stops of the hook
      as written. */
  lemma {:induction false} KeepingCountIsPlain(config: Config, session: string, path: string, env: Env, n: nat)
    ensures RepeatKeepingCount(config, Input(session, path, true), env, n) == Repeat(config, Input(session, path, false), env, n)
  {
    if n > 0 {
      KeepingCountIsPlain(config, session, path, env, n - 1);
    }
  }

  /** So under that reading the valve opens for continued stops too: every
      tenth one is let through, and the cycle repeats. */
  lemma ContinuationReleasedWhenCounted(config: Config, session: string, path: string, env: Env, n: nat)
    requires config.enabled && path != [] && !env.ralphLoopActive && Unfinished(env.transcript)
    requires config.lastBlockSession != Some(session) || config.blockCount == 0
    ensures forall i :: 0 <= i < n ==>
      (RepeatKeepingCount(config, Input(session, path, true), env, n).0[i].Allow? <==> i % MaxConsecutiveBlocks == MaxConsecutiveBlocks - 1)
  {
    KeepingCountIsPlain(config, session, path, env, n);
    SafetyValve(config, session, path, env, n);
  }

  /** A disabled hook lets every stop through and stores nothing new. */
  lemma DisabledAllows(config: Config, input: HookInput, env: Env)
    requires !config.enabled
    ensures Run(config, input, env) == Outcome(Allow, config)
  {
  }

  // ---------------------------------------------------------------------
  // Lines the loop cannot walk
  // ---------------------------------------------------------------------

  /** As written, one line the loop cannot walk anywhere in the transcript
      (a typed prompt stored as plain-string content is one) clears the
      count and lets the session end, whatever the todo list says. */
  lemma UnwalkableLineAllows(config: Config, input: HookInput, env: Env, k: nat)
    requires env.transcript.Read? && k < |env.transcript.lines| && env.transcript.lines[k].Unwalkable?
    ensures Run(config, input, env).decision.Allow?
  {
  }

  /** A transcript with a typed prompt followed by a TodoWrite call with an
      open todo: the hook lets the session end. */
  const PromptThenTodo: seq<Line> := [Unwalkable([]), Entry([TodoWrite(Some([Todo("pending", "write tests")]))])]

  lemma PromptThenTodoAllowed()
    ensures Run(DefaultConfig, Input("s", "t.jsonl", false), Env(false, Read(PromptThenTodo))).decision.Allow?
    ensures Unfinished(Read(PromptThenTodo[1..]))
  {
    assert !Walkable(PromptThenTodo) by { assert PromptThenTodo[0].Unwalkable?; }
    var rest := PromptThenTodo[1..];
    assert Blocks(rest) == [TodoWrite(Some([Todo("pending", "write tests")]))];
  }

  /** The evidently intended reading: a line the loop cannot walk is
      skipped like one that is not JSON, keeping the blocks read before
      the error, and the rest of the transcript is read on. */
  function ContinueSkipping(c: Config, session: string, path: string, t: Transcript): (r: Outcome)
    ensures r.decision.Block? <==>
      path != [] && t.Read? && LastTodos(Blocks(t.lines)).Some? && Incomplete(LastTodos(Blocks(t.lines)).value) > 0
      && NextCount(c, session) < MaxConsecutiveBlocks
    ensures r.decision.Block? ==> r.decision.todos == LastTodos(Blocks(t.lines)).value
    ensures r.decision.Block? ==> r.config == c.(blockCount := NextCount(c, session), lastBlockSession := Some(session))
    ensures path != [] && !t.Missing? && r.decision.Allow? ==> r.config == ResetCount(c)
  {
    if path == [] || t.Missing? then Outcome(Allow, c)
    else if t.Unreadable? then Outcome(Allow, ResetCount(c))
    else OnTodos(c, session, LastTodos(Blocks(t.lines)))
  }

  /** On transcripts the loop walks to the end, the intended reading and
      the code agree. */
  lemma SkippingAgrees(c: Config, session: string, path: string, t: Transcript)
    requires t.Read? ==> Walkable(t.lines)
    ensures ContinueSkipping(c, session, path, t) == Continue(c, session, path, t)
  {
  }

  /** Under the intended reading a typed prompt no longer hides the todo
      list: the same transcript blocks. */
  lemma PromptThenTodoBlocksWhenSkipped()
    ensures ContinueSkipping(DefaultConfig, "s", "t.jsonl", Read(PromptThenTodo)).decision.Block?
  {
    assert Blocks(PromptThenTodo) == [TodoWrite(Some([Todo("pending", "write tests")]))] by {
      assert Blocks(PromptThenTodo[1..]) == [TodoWrite(Some([Todo("pending", "write tests")]))];
    }
  }
}
