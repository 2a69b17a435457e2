// The exit-code reduction at the end of `run`: one accumulator, starting at
// success, folded over the task outcomes in the order the thread pool
// reports them as completed.

module Reduction {

  /** What `future.result()` gives for one task. */
  datatype Outcome =
    | Exited(code: int)  // the subprocess ran; its return code
    | SpawnFailed        // the subprocess could not be started (`None`)
    | Faulted            // an exception escaped the task and is re-raised

  /** Why `run` ends by raising instead of exiting with a code. */
  datatype Fault =
    | EmptyWidthMax      // no width given and no targets: `max` of nothing
    | PoolRejected       // `ThreadPoolExecutor` refuses a worker count <= 0
    | TaskFault          // a task's exception, re-raised by `future.result()`

  /** How `run` ends: `sys.exit(code)`, after printing the diagnostic line
      when `diagnostic` holds, or by raising. */
  datatype Verdict = Exit(code: int, diagnostic: bool) | Raised(fault: Fault)

  /** The return code reserved for a task that could not be spawned. */
  const SpawnFailureCode := 127

  predicate NonZeroExit(o: Outcome)
  {
    o.Exited? && o.code != 0
  }

  /** One iteration of the loop: a spawn failure always sets 127; a non-zero
      code is taken only while the accumulator still says success. */
  function Step(code: int, o: Outcome): (r: int)
    requires !o.Faulted?
    ensures o.SpawnFailed? ==> r == SpawnFailureCode
    ensures code == 0 && o.Exited? ==> r == o.code
    ensures code != 0 && o.Exited? ==> r == code
  {
    match o
    case SpawnFailed => SpawnFailureCode
    case Exited(c) => if c != 0 && code == 0 then c else code
  }

  /** The loop from accumulator `code` over the outcomes still to come,
      followed by the final diagnostic test. */
  function Fold(code: int, rest: seq<Outcome>): (v: Verdict)
    ensures v.Raised? <==> Faulted in rest
    ensures v.Raised? ==> v.fault == TaskFault
    ensures v.Exit? ==> (v.diagnostic <==> v.code != 0)
    ensures v.Exit? && code != 0 ==> v.diagnostic
    decreases |rest|
  {
    if rest == [] then Exit(code, code != 0)
    else if rest[0].Faulted? then Raised(TaskFault)
    else Fold(Step(code, rest[0]), rest[1..])
  }

  /** The first non-zero return code, in the given order; 0 if there is none. */
  function FirstNonZero(s: seq<Outcome>): (r: int)
    ensures r == 0 <==> forall o | o in s :: !NonZeroExit(o)
    ensures r != 0 ==> exists k | 0 <= k < |s| :: s[k] == Exited(r) && forall j | 0 <= j < k :: !NonZeroExit(s[j])
  {
    if s == [] then 0
    else if NonZeroExit(s[0]) then s[0].code
    else
      var r := FirstNonZero(s[1..]);
      assert forall o | o in s :: o == s[0] || o in s[1..];
      if r != 0 then
        var k :| 0 <= k < |s| - 1 && s[1..][k] == Exited(r) && forall j | 0 <= j < k :: !NonZeroExit(s[1..][j]);
        assert s[k + 1] == Exited(r);
        assert forall j | 0 <= j < k + 1 :: !NonZeroExit(s[j]) by {
          forall j | 0 < j < k + 1 ensures !NonZeroExit(s[j]) {
            assert s[j] == s[1..][j - 1];
          }
        }
        r
      else r
  }

  /** The result the loop is meant to produce, stated without the loop:
      a task exception aborts; otherwise any spawn failure gives 127,
      else the first non-zero code, else 0; the diagnostic accompanies any
      non-zero code. */
  function Expected(completed: seq<Outcome>): Verdict
  {
    if Faulted in completed then Raised(TaskFault)
    else
      var code := if SpawnFailed in completed then SpawnFailureCode else FirstNonZero(completed);
      Exit(code, code != 0)
  }

  /** The loop from any accumulator, stated without the loop. */
  lemma {:induction false} FoldCharacterized(code: int, rest: seq<Outcome>)
    ensures Fold(code, rest) ==
      if Faulted in rest then Raised(TaskFault)
      else
        var c := if SpawnFailed in rest then SpawnFailureCode
                 else if code != 0 then code
                 else FirstNonZero(rest);
        Exit(c, c != 0)
    decreases |rest|
  {
    if rest != [] && !rest[0].Faulted? {
      assert rest == [rest[0]] + rest[1..];
      FoldCharacterized(Step(code, rest[0]), rest[1..]);
    }
  }

  /** Starting from success, the loop computes `Expected`. */
  lemma FoldFromSuccess(completed: seq<Outcome>)
    ensures Fold(0, completed) == Expected(completed)
  {
    FoldCharacterized(0, completed);
  }

  /** Once the accumulator is non-zero, later exit codes (zero or not) never
      change it; only a spawn failure does, and only to 127. */
  lemma Latched(code: int, rest: seq<Outcome>)
    requires code != 0
    requires Faulted !in rest
    ensures Fold(code, rest) == Exit(if SpawnFailed in rest then SpawnFailureCode else code, true)
  {
    FoldCharacterized(code, rest);
  }

  /** The reduction loop of `run`, over outcomes in completion order. */
  method Reduce(completed: seq<Outcome>) returns (v: Verdict)
    ensures v == Fold(0, completed)
    ensures v == Expected(completed)
  {
    FoldFromSuccess(completed);
    var code := 0;
    for i := 0 to |completed|
      invariant Fold(code, completed[i..]) == Fold(0, completed)
    {
      assert completed[i..] == [completed[i]] + completed[i + 1..];
      match completed[i]
      case Faulted =>
        return Raised(TaskFault);
      case SpawnFailed =>
        code := SpawnFailureCode;
      case Exited(c) =>
        if c != 0 && code == 0 {
          code := c;
        }
    }
    assert completed[|completed|..] == [];
    v := Exit(code, code != 0);
  }

  /** Completion order does not matter for whether `run` raises, whether it
      prints the diagnostic, for the 127 of a spawn failure, or for success;
      and the code is always 0, 127 or one of the tasks' own codes. */
  lemma CompletionOrderTolerance(dispatched: seq<Outcome>, completed: seq<Outcome>)
    requires multiset(completed) == multiset(dispatched)
    ensures Expected(completed) == Raised(TaskFault) <==> Faulted in dispatched
    ensures Expected(completed).Exit? ==>
              (Expected(completed).diagnostic <==> exists o | o in dispatched :: o.SpawnFailed? || NonZeroExit(o))
    ensures Faulted !in dispatched && SpawnFailed in dispatched ==> Expected(completed) == Exit(SpawnFailureCode, true)
    ensures (forall o | o in dispatched :: o == Exited(0)) ==> Expected(completed) == Exit(0, false)
    ensures Expected(completed).Exit? ==>
              var c := Expected(completed).code;
              c == 0 || c == SpawnFailureCode || Exited(c) in dispatched
  {
    forall o
      ensures o in completed <==> o in dispatched
    {
      assert o in completed <==> o in multiset(completed);
      assert o in dispatched <==> o in multiset(dispatched);
    }
    var c := FirstNonZero(completed);
    if c != 0 {
      var k :| 0 <= k < |completed| && completed[k] == Exited(c);
      assert Exited(c) in completed;
    }
  }

  /** When exactly one task exits non-zero and every other exits 0, `run`
      exits with that task's code, whatever the completion order. */
  lemma SingleFailureDecides(dispatched: seq<Outcome>, completed: seq<Outcome>, k: nat)
    requires multiset(completed) == multiset(dispatched)
    requires k < |dispatched| && NonZeroExit(dispatched[k])
    requires forall j | 0 <= j < |dispatched| && j != k :: dispatched[j] == Exited(0)
    ensures Expected(completed) == Exit(dispatched[k].code, true)
  {
    assert Faulted !in dispatched && SpawnFailed !in dispatched;
    assert Faulted !in completed && SpawnFailed !in completed by {
      assert Faulted !in multiset(dispatched) && SpawnFailed !in multiset(dispatched);
    }
    assert dispatched[k] in completed by {
      assert dispatched[k] in multiset(dispatched);
    }
    var c := FirstNonZero(completed);
    assert c != 0;
    var i :| 0 <= i < |completed| && completed[i] == Exited(c);
    assert completed[i] in multiset(dispatched);
    var j :| 0 <= j < |dispatched| && dispatched[j] == Exited(c);
    assert j == k;
  }
}
