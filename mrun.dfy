// `run`: resolve the targets' executables from the build tool's query
// output, pair each target with its executable under a display name and a
// common column width, and reduce the tasks' outcomes to one exit status.
// The thread pool, the subprocesses and the build tool are outside the
// model: their results arrive as parameters.

module MRun {
  import opened Text
  import opened Reduction

  datatype Option<T> = None | Some(value: T)

  /** The arguments one `_run_one` call receives (the workspace and the
      execution root, the same for every task, are left out). */
  datatype Task = Task(name: string, executable: string, width: int)

  /** What `run` sets up before waiting on any task: the query expression
      sent to the build tool and the tasks handed to the thread pool. */
  datatype Prepared = Ready(query: string, tasks: seq<Task>) | Failed(fault: Fault)

  function Min(a: int, b: int): int
  {
    if a < b then a else b
  }

  /** `aliases.get(target, target)`. */
  function DisplayName(aliases: map<string, string>, target: string): (name: string)
    ensures target in aliases ==> name == aliases[target]
    ensures target !in aliases ==> name == target
  {
    if target in aliases then aliases[target] else target
  }

  /** The width used when none is given: the longest display name. Python's
      `max` raises on an empty sequence, hence the precondition. */
  function DefaultWidth(aliases: map<string, string>, targets: seq<string>): (w: nat)
    requires |targets| > 0
    ensures forall t | t in targets :: |DisplayName(aliases, t)| <= w
    ensures exists t | t in targets :: |DisplayName(aliases, t)| == w
  {
    var n := |DisplayName(aliases, targets[0])|;
    if |targets| == 1 then n
    else
      var m := DefaultWidth(aliases, targets[1..]);
      assert forall t | t in targets :: t == targets[0] || t in targets[1..];
      if n >= m then n else m
  }

  /** `" + ".join(targets)`: the union of all targets, as a query expression. */
  function QueryExpression(targets: seq<string>): (q: string)
    ensures |targets| == 0 ==> q == ""
    ensures |targets| == 1 ==> q == targets[0]
    ensures |targets| >= 1 ==> |q| == TotalLength(targets) + 3 * (|targets| - 1)
  {
    Join(targets, " + ")
  }

  /** Each further target extends the query by " + " and that target. */
  lemma QueryExpressionAppend(targets: seq<string>, t: string)
    requires |targets| >= 1
    ensures QueryExpression(targets + [t]) == QueryExpression(targets) + " + " + t
  {
    JoinAppend(targets, t, " + ");
  }

  /** `output.rstrip("\n").split("\n")`: one path per line of the query
      output, ignoring trailing newlines. */
  function ExecutablePaths(output: string): (paths: seq<string>)
    ensures |paths| >= 1
    ensures forall p | p in paths :: '\n' !in p
    ensures Join(paths, "\n") <= output
    ensures forall i | |Join(paths, "\n")| <= i < |output| :: output[i] == '\n'
    ensures paths[|paths| - 1] == "" ==> paths == [""]
  {
    var stripped := StripTrailing(output, '\n');
    var paths := Split(stripped, '\n');
    SplitLastPiece(stripped, '\n');
    assert paths[|paths| - 1] == "" ==> paths == [""] by {
      if paths[|paths| - 1] == "" {
        assert stripped == [];
      }
    }
    paths
  }

  /** Reading back the lines of a query output made of newline-free paths,
      one per line, gives those paths. */
  lemma {:induction false} ExecutablePathsOfLines(paths: seq<string>, newlines: nat)
    requires |paths| >= 1 && paths[|paths| - 1] != ""
    requires forall p | p in paths :: '\n' !in p
    ensures ExecutablePaths(Join(paths, "\n") + seq(newlines, _ => '\n')) == paths
  {
    var body := Join(paths, "\n");
    var output := body + seq(newlines, _ => '\n');
    LinesDoNotEndInNewline(paths);
    StripTrailingPadding(body, '\n', newlines);
    assert StripTrailing(output, '\n') == body;
    assert "\n" == ['\n'];
    SplitOfJoin(paths, '\n');
    assert Split(body, '\n') == paths;
  }

  /** Newline-free lines joined by newlines, the last one not empty, do not
      end in a newline. */
  lemma LinesDoNotEndInNewline(paths: seq<string>)
    requires |paths| >= 1 && paths[|paths| - 1] != ""
    requires forall p | p in paths :: '\n' !in p
    ensures var body := Join(paths, "\n"); body != [] && body[|body| - 1] != '\n'
  {
    var body := Join(paths, "\n");
    var last := paths[|paths| - 1];
    JoinEndsWithLast(paths, "\n");
    assert body[|body| - 1] == last[|last| - 1];
    assert last[|last| - 1] in last;
  }

  /** `zip(targets, executables)` turned into tasks: as many as the shorter
      list, task i for target i and executable i. */
  function Dispatch(aliases: map<string, string>, targets: seq<string>, executables: seq<string>, width: int)
    : (tasks: seq<Task>)
    ensures |tasks| == Min(|targets|, |executables|)
    ensures forall i | 0 <= i < |tasks| ::
              tasks[i] == Task(DisplayName(aliases, targets[i]), executables[i], width)
  {
    if targets == [] || executables == [] then []
    else
      [Task(DisplayName(aliases, targets[0]), executables[0], width)]
        + Dispatch(aliases, targets[1..], executables[1..], width)
  }

  /** Everything `run` computes before the tasks start. */
  function Prepare(aliases: map<string, string>, targets: seq<string>, width: Option<int>, output: string)
    : (r: Prepared)
    ensures r.Failed? <==> width.None? && targets == []
    ensures r.Failed? ==> r.fault == EmptyWidthMax
    ensures r.Ready? ==> r.query == QueryExpression(targets)
    ensures r.Ready? ==> |r.tasks| == Min(|targets|, |ExecutablePaths(output)|)
    ensures r.Ready? ==> forall i | 0 <= i < |r.tasks| ::
              r.tasks[i].name == DisplayName(aliases, targets[i]) && r.tasks[i].executable == ExecutablePaths(output)[i]
    ensures r.Ready? ==> forall i, j | 0 <= i < |r.tasks| && 0 <= j < |r.tasks| :: r.tasks[i].width == r.tasks[j].width
    ensures r.Ready? && width.Some? ==> forall task | task in r.tasks :: task.width == width.value
    ensures r.Ready? && width.None? ==> forall task | task in r.tasks :: task.width == DefaultWidth(aliases, targets)
    ensures r.Ready? && width.None? ==> forall task, t | task in r.tasks && t in targets :: |DisplayName(aliases, t)| <= task.width
  {
    if width.None? && targets == [] then Failed(EmptyWidthMax)
    else
      var w := if width.Some? then width.value else DefaultWidth(aliases, targets);
      Ready(QueryExpression(targets), Dispatch(aliases, targets, ExecutablePaths(output), w))
  }

  /** `ThreadPoolExecutor(max_workers=parallelism)` accepts no worker count
      and any positive one; it raises on zero or a negative count. */
  predicate PoolAccepts(parallelism: Option<int>)
  {
    parallelism.None? || parallelism.value > 0
  }

  /** `run` from the query output and the outcomes in completion order;
      `dispatched` holds the same outcomes in task order (ghost: the thread
      pool decides the order, the model only knows it is a permutation). */
  method Run(aliases: map<string, string>, targets: seq<string>, width: Option<int>, parallelism: Option<int>,
             output: string, completed: seq<Outcome>, ghost dispatched: seq<Outcome>)
    returns (v: Verdict)
    requires |dispatched| == Min(|targets|, |ExecutablePaths(output)|)
    requires multiset(completed) == multiset(dispatched)
    ensures width.None? && targets == [] ==> v == Raised(EmptyWidthMax)
    ensures !(width.None? && targets == []) && !PoolAccepts(parallelism) ==> v == Raised(PoolRejected)
    ensures !(width.None? && targets == []) && PoolAccepts(parallelism) ==> v == Expected(completed)
    ensures v == Raised(TaskFault) <==> Faulted in dispatched && PoolAccepts(parallelism)
    ensures v.Exit? ==> (v.diagnostic <==> v.code != 0)
    ensures v.Exit? ==> (v.diagnostic <==> exists o | o in dispatched :: o.SpawnFailed? || NonZeroExit(o))
    ensures v.Exit? && SpawnFailed in dispatched ==> v.code == SpawnFailureCode
    ensures v.Exit? ==> v.code == 0 || v.code == SpawnFailureCode || Exited(v.code) in dispatched
    ensures (forall o | o in dispatched :: o == Exited(0)) ==>
              v == if width.None? && targets == [] then Raised(EmptyWidthMax)
                   else if !PoolAccepts(parallelism) then Raised(PoolRejected)
                   else Exit(0, false)
  {
    var prepared := Prepare(aliases, targets, width, output);
    if prepared.Failed? {
      return Raised(prepared.fault);
    }
    // The query and the build run here, before the pool is created.
    if !PoolAccepts(parallelism) {
      return Raised(PoolRejected);
    }
    // prepared.tasks go to the thread pool; their outcomes come back as `completed`.
    v := Reduce(completed);
    CompletionOrderTolerance(dispatched, completed);
  }
}
