# mrun: run several Bazel executables at once, reduce their exit codes

This project models `run` from `bazel/mrun/src/rivetbazelutil/bazelmrun/mrun.py`.
The function starts the executables of several Bazel targets on a thread pool.
It then folds the tasks' results, taken in completion order, into one process exit status.

The model has three modules:

- `Text`: Python's `rstrip("\n")`, `split(sep)` and `sep.join(parts)` on strings.
  A split always yields at least one piece (`"".split("\n") == [""]`).
  Splitting and joining are proved inverse in both directions.
- `Reduction`: the exit-code loop.
  An `Outcome` is `Exited(code)`, `SpawnFailed` (Python's `None`) or `Faulted` (an exception re-raised by `future.result()`).
  `Reduce` is the loop itself, a method with an invariant.
  `Fold` is the loop as a function.
  `Expected` is an independent statement of the result: a task exception aborts the run; otherwise any spawn failure gives 127; otherwise the first non-zero code wins; otherwise the result is 0.
  The lemmas connect `Fold` to `Expected` and show which parts of the result do not depend on completion order.
- `MRun`: the default width, the query expression, the executable paths read from the query output, the pairing of targets with executables, and `Run`, which composes them with the reduction.
  `Run` also takes the `parallelism` bound; the thread pool raises on a bound of zero or less.
  `Run` takes the outcomes in completion order plus a ghost sequence of the same outcomes in dispatch order; the two must be permutations of each other.
  The result is a `Verdict`: `Exit(code, diagnostic)` for `sys.exit(code)`, where `diagnostic` says whether the line "One or more mrun targets failed" is printed; or `Raised(fault)` when `run` ends with an exception.

The comment at mrun.py:62 says the first non-zero code is used.
But mrun.py:66-67 sets 127 on a spawn failure even when an earlier task already set a non-zero code.
So a spawn failure always wins, whenever it completes.
The model follows the code (`Reduction.Latched`, `Reduction.CompletionOrderTolerance`).

## Model

| member | source | states |
|---|---|---|
| `Reduction.Step` | bazel/mrun/src/rivetbazelutil/bazelmrun/mrun.py:66-69 | A spawn failure sets 127. A return code is taken only while the accumulator is 0. A non-zero accumulator is kept against any return code. |
| `Reduction.FirstNonZero` | bazel/mrun/src/rivetbazelutil/bazelmrun/mrun.py:62-69 | The result is 0 exactly when no task exited non-zero. Otherwise it is the code of some outcome, and every earlier outcome is not a non-zero exit. |
| `Reduction.Fold` | bazel/mrun/src/rivetbazelutil/bazelmrun/mrun.py:59-71 | The loop as a function: it raises a task fault exactly when some remaining outcome is a fault. The diagnostic is printed exactly when the code is non-zero, and always when the accumulator was already non-zero. |
| `Reduction.FoldCharacterized` | bazel/mrun/src/rivetbazelutil/bazelmrun/mrun.py:59-71 | The loop from any accumulator: it raises if any outcome is a fault. Otherwise the result is 127 if any spawn failed, else the accumulator if non-zero, else the first non-zero code. The diagnostic is printed exactly when that code is non-zero. |
| `Reduction.FoldFromSuccess` | bazel/mrun/src/rivetbazelutil/bazelmrun/mrun.py:46-71 | Starting from 0, the loop computes `Expected`. |
| `Reduction.Latched` | bazel/mrun/src/rivetbazelutil/bazelmrun/mrun.py:66-69 | Once the accumulator is non-zero, later exit codes never change it. Only a spawn failure does, and only to 127. The diagnostic is then always printed. |
| `Reduction.Reduce` | bazel/mrun/src/rivetbazelutil/bazelmrun/mrun.py:46-71 | The loop over outcomes in completion order returns exactly `Expected(completed)`. It returns `Raised` at the first fault. |
| `Reduction.CompletionOrderTolerance` | bazel/mrun/src/rivetbazelutil/bazelmrun/mrun.py:59-71 | For every permutation of the dispatched outcomes, these results are the same: whether `run` raises, whether the diagnostic is printed (exactly when some task failed to spawn or exited non-zero), 127 when a spawn failed, and 0 without a diagnostic when all tasks exited 0. The code is always 0, 127 or a task's own code. |
| `Reduction.SingleFailureDecides` | bazel/mrun/src/rivetbazelutil/bazelmrun/mrun.py:59-69 | When exactly one task exits non-zero and all others exit 0, `run` exits with that code in every completion order. |
| `Text.StripTrailing` | bazel/mrun/src/rivetbazelutil/bazelmrun/mrun.py:41 | `rstrip`: the result is a prefix of the input. It does not end in the stripped character. Everything cut off is that character. |
| `Text.Split` | bazel/mrun/src/rivetbazelutil/bazelmrun/mrun.py:41 | `split`: at least one piece. No piece holds the separator. Joining the pieces with the separator gives the input back. |
| `Text.SplitOfJoin` | bazel/mrun/src/rivetbazelutil/bazelmrun/mrun.py:41 | Splitting a join of separator-free parts gives the parts back. |
| `Text.Join` | bazel/mrun/src/rivetbazelutil/bazelmrun/mrun.py:37 | `sep.join(parts)`: empty for no parts. Otherwise its length is the parts' total plus one separator per pair of neighbouring parts. |
| `MRun.DisplayName` | bazel/mrun/src/rivetbazelutil/bazelmrun/mrun.py:54 | `aliases.get(target, target)`: the alias when the target has one, the target itself otherwise. |
| `MRun.DefaultWidth` | bazel/mrun/src/rivetbazelutil/bazelmrun/mrun.py:28-29 | For a non-empty target list, the default width is at least every display name's length and equals one of them. |
| `MRun.QueryExpression` | bazel/mrun/src/rivetbazelutil/bazelmrun/mrun.py:37 | The query is empty for no targets and is the target itself for one target. Its length is the targets' total length plus 3 per " + " separator. |
| `MRun.QueryExpressionAppend` | bazel/mrun/src/rivetbazelutil/bazelmrun/mrun.py:37 | Each further target extends the query by " + " and that target. |
| `MRun.ExecutablePaths` | bazel/mrun/src/rivetbazelutil/bazelmrun/mrun.py:40-42 | At least one path. No path holds a newline. The paths joined by newlines are a prefix of the output, and only newlines follow it. The last path is empty only when the output is nothing but newlines. |
| `MRun.ExecutablePathsOfLines` | bazel/mrun/src/rivetbazelutil/bazelmrun/mrun.py:40-42 | An output made of newline-free paths, one per line, with any number of trailing newlines, reads back as exactly those paths. |
| `MRun.Dispatch` | bazel/mrun/src/rivetbazelutil/bazelmrun/mrun.py:48-58 | `zip` pairing: min(targets, executables) tasks. Task i runs executable i under the display name of target i, with the common width. |
| `MRun.Prepare` | bazel/mrun/src/rivetbazelutil/bazelmrun/mrun.py:27-58 | Raises (`max` of nothing) exactly when no width is given and there are no targets. Otherwise it builds the joined query and the zip-pairing of tasks. All tasks share one width: the given one, or else the longest display name (`DefaultWidth`), which is at least as long as every display name. |
| `MRun.Run` | bazel/mrun/src/rivetbazelutil/bazelmrun/mrun.py:27-72 | `run` with the Bazel calls and subprocesses as inputs: the empty-target `max` error first, then the pool's error for `parallelism` of zero or less, else `Expected` of the completion order. It raises a task fault exactly when a task faulted and the pool accepted the bound. The diagnostic is printed exactly when the code is non-zero, and exactly when some task failed to spawn or exited non-zero. A spawn failure gives 127. All-zero tasks give 0 with no diagnostic. The code is always 0, 127 or a task's code. |

## Left out

- The thread pool and `as_completed` (mrun.py:47, 59) are concurrency. The completion order is an input sequence, required to be a permutation of the dispatched outcomes. Of `parallelism` (mrun.py:27, 47) the model keeps only the pool's refusal of a bound of zero or less; how many tasks run at once is not modelled, since it changes only the completion order.
- `_run_one` and `run_.run_executable` (mrun.py:12-24) spawn and wait on a subprocess through a module that is not part of this model. "A spawn failure yields `None`" is taken from the comment at mrun.py:61.
- `client.info`, `client.cquery` and `client.build` (mrun.py:31-39, 44) are Bazel I/O. The cquery output is a parameter of `Prepare` and `Run`. Failures of these calls are not modelled.
- The workspace and execution root from `client.info` (mrun.py:31-33) are passed unchanged to every task; `MRun.Task` leaves them out.
- `pathlib.Path` conversions (mrun.py:32-33, 41) are modelled as plain strings, without Python's path normalisation. In particular `Path("")` is `Path(".")`. When the cquery output is empty or holds only newlines, the source dispatches the executable ".", while `ExecutablePaths` gives `[""]`.
- `print` and `sys.exit` (mrun.py:71-72) become the `Verdict` that `Run` returns. The operating system truncates the exit status to 8 bits (a negative return code from a signal turns into 256 plus that code); the model keeps the unbounded integer.
- The thread pool drains in-flight tasks before a re-raised task exception leaves `run` (mrun.py:63-65). The model returns `Raised(TaskFault)` at the first fault in completion order and does not model the draining.
