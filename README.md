# base_mt: directory creation, path locks and background results, in Dafny

This project models three pieces of the `base_mt` utility package and proves
properties about them.

- **`make_dirs`** (`basemt/path.py`) creates a directory and its missing
  parents. It splits the path into tails until it finds an ancestor that
  exists, pushing each tail on a stack. Then it pops the tails, joins each one
  back on and calls `mkdir` on the result. The file system is modelled as the
  set of paths that exist, and `exists(p)` as membership in it. `MakeDirs`
  returns the list of paths it passed to `mkdir`, in call order.
  `os.path.split` and `os.path.join` are modelled character by character in
  module `PosixPath`.
- **`lock`** (`basemt/path.py`) is a module-level registry that maps each
  path to a read/write lock, plus a counter of misses. On a miss the counter
  goes up. On every 1024th miss the counter goes back to 0 and every lock
  that is free is dropped from the table. A new lock is then stored for the
  path. Class `BasemtPath.PathLocks` holds the table as a `map` and the
  counter as an `int`, and its method `Lock` updates both in place. The
  locks are objects (`ReadWriteLock`) whose `free` field stands for
  `is_free()`. Their holders can change that field between calls.
- **`BgInvoke`** (`base_mt/bg_invoke.py`) runs a target in the background.
  `_wrapper` stores the target's return value in `_result`, or the output of
  `sys.exc_info()` when the target raises an `Exception`. The `result`
  property then does one of three things:
  - raises `ValueError` if nothing is stored;
  - raises `BgException` if the stored value is an exception-info tuple;
  - otherwise returns the stored value.

  The text of a `BgException` is the message, then `{`, then each chunk that
  `format_exception` returns with two spaces in front, then `}`, all joined
  with newlines. Those chunks end in a newline of their own, so the text has
  a blank line after each chunk, and only the first line of a chunk is
  indented.

## Model

| member | source | states |
|---|---|---|
| `PosixPath.Split` | basemt/path.py:35 | `split` returns a head that is a prefix of the path and a tail with no separator. The head equals the path exactly when the path is empty or made only of separators, and those are the fixed points the first loop raises on. |
| `PosixPath.Join` | basemt/path.py:43 | `join` with a relative component keeps the directory as a prefix and adds at most one separator. That it undoes `split` is stated by `JoinSplit` and `SplitJoin`. |
| `PosixPath.JoinSplit` | basemt/path.py:35-43 | For a path without doubled separators, joining its split head and tail gives back the path. So each pop in the second loop undoes one push of the first. |
| `PosixPath.SplitJoin` | basemt/path.py:35-43 | The reverse round trip: splitting `join(a, t)`, for a tail `t` with no separator and a head-shaped `a`, gives back `(a, t)`. |
| `BasemtPath.Descend` | basemt/path.py:33-40 | The first loop either stops at an ancestor that exists or stops at a missing path that is its own head (`RuntimeError`). The stack is empty exactly when the path already exists. |
| `BasemtPath.Rebuild` | basemt/path.py:41-44 | The second loop makes one `mkdir` per pushed tail. The last one is on the path reached by popping every tail and joining it back on. |
| `BasemtPath.Plan` | basemt/path.py:28-44 | An empty path, or one that exists, returns without any `mkdir`. A `RuntimeError` is raised before any `mkdir` and names a path that does not exist. |
| `BasemtPath.MakeDirs` | basemt/path.py:28-44 | The method runs the two loops (`FindExisting`, then `CreateMissing`) and computes exactly what `Plan` says. If it raises, nothing is created. If the path exists, nothing is created. For a path without doubled separators, the last `mkdir` is on the requested path as spelled. If the path also has no trailing separator, the `mkdir` calls are on distinct spellings, none ending in a separator. |
| `BasemtPath.FindExisting` | basemt/path.py:33-40 | The first loop, run in place on the path and the stack, ends either at an ancestor that exists, holding the tails `Descend` pushes, or at a missing path that is its own head, which `make_dirs` reports as a `RuntimeError`. |
| `BasemtPath.CreateMissing` | basemt/path.py:41-44 | The second loop pops every tail, joins it on and records the `mkdir`. The calls it makes are exactly `Rebuild` of the ancestor and the stack. |
| `BasemtPath.RebuildPushFront` | basemt/path.py:33-44 | The stack is last-in first-out: the tail pushed first is popped last, so its `mkdir` comes last. |
| `BasemtPath.DescentRebuilds` | basemt/path.py:33-44 | Joining the popped tails onto the ancestor reproduces the requested path. Every `mkdir` is on a path that did not exist, as spelled. The first is on a child of the ancestor, each later one on a child of the one before, and the last on the requested path. |
| `BasemtPath.RebuildsDistinct` | basemt/path.py:33-44 | For a path without doubled or trailing separators, no `mkdir` is on a path ending in a separator and each is on a longer path than the one before, so no two are spelled alike. Two such spellings can still name one directory through a `.` or `..` component (see "## Left out"). |
| `BasemtPath.PlanDistinct` | basemt/path.py:28-44 | The same for the whole of `make_dirs`: when it returns normally on such a path, its `mkdir` calls are on distinct spellings, none ending in a separator. |
| `BasemtPath.LastMkdirIsPath` | basemt/path.py:35-43 | When `make_dirs` returns normally and creates anything, the last path it passes to `mkdir` is the requested path as spelled (for paths without doubled separators). |
| `BasemtPath.MissingRelativeNameRaises` | basemt/path.py:34-38 | As written, a missing single-component relative name raises `RuntimeError("Unable to parse path=")` and creates nothing. |
| `BasemtPath.PlanFixed` | basemt/path.py:34-38 | The corrected `make_dirs`, which counts the working directory (the empty head) as existing. It agrees with the original wherever the original returns normally. |
| `BasemtPath.FixedPlanSucceeds` | basemt/path.py:34-38 | If the root exists, the corrected `make_dirs` never raises `RuntimeError` on a path without doubled separators, and its last `mkdir` is on the requested path as spelled. A `mkdir` is taken to succeed: on a path with a trailing separator this plan still makes the duplicate `mkdir` of the second Findings row, which `TrimmedPlanSucceeds` covers. |
| `BasemtPath.TrailingSepCreatesTwice` | basemt/path.py:35-44 | As written, take a missing directory `h` (no doubled separators, no trailing one, and `h + "/"` missing as spelled too) whose descent reaches an existing ancestor. `make_dirs(h + "/")` makes exactly the `mkdir` calls of `make_dirs(h)` and then one more on `h + "/"`. Its last two `mkdir` calls are therefore on `h` and then on `h + "/"`. They name one directory, so the second `mkdir` raises `FileExistsError`. |
| `BasemtPath.PlainPathExample` | basemt/path.py:33-44 | With `a` present and `a/b` missing, `make_dirs("a/b")` makes the single call `mkdir("a/b")`. |
| `BasemtPath.TrailingSepExample` | basemt/path.py:33-44 | With `a` present and `a/b` missing, `make_dirs("a/b/")` calls `mkdir("a/b")` and then `mkdir("a/b/")`. |
| `BasemtPath.Trimmed` | basemt/path.py:35 | The directory a path names: a prefix of the path with only separators after it, and no trailing separator. |
| `BasemtPath.PlanTrimmed` | basemt/path.py:33-44 | The corrected `make_dirs` for trailing separators: the descent of `PlanFixed`, run on the directory the path names. It agrees with `PlanFixed` on paths without a trailing separator. |
| `BasemtPath.TrimmedPlanSucceeds` | basemt/path.py:33-44 | If the root exists, the corrected `make_dirs` never raises `RuntimeError` on a path without doubled separators. Its `mkdir` calls are on distinct spellings, none ending in a separator, and the last one is the directory the path names. |
| `BasemtPath.ReadWriteLock.constructor` | basemt/path.py:84 | A newly created lock has no holders and is free. |
| `BasemtPath.CollectFree` | basemt/path.py:73-77 | The clean-up's first loop lists exactly the registered paths whose lock is free, each one once. |
| `BasemtPath.PathLocks.constructor` | basemt/path.py:88-90 | The registry starts with an empty table and the counter at 0. |
| `BasemtPath.PathLocks.Lock` | basemt/path.py:50-86 | After the call, `path` is in the table and the returned handle is a writer or a reader as `to_write` says, wrapping the stored lock. A hit changes neither the table nor the counter. A miss stores a fresh free lock and advances the counter modulo 1024, so the counter stays in [0, 1024). On the 1024th miss the miss first removes every free lock and nothing else, so every busy lock is kept. |
| `BackgroundInvoke.SplitJoinLines` | base_mt/bg_invoke.py:14 | `'\n'.join` is undone by `split('\n')` for a non-empty list of lines that contain no newline. |
| `BackgroundInvoke.SplitJoinLinesEach` | base_mt/bg_invoke.py:14 | Splitting `'\n'.join(lines)` on newlines gives the pieces of every line in order, for any non-empty list. A line that holds newlines of its own becomes several pieces. |
| `BackgroundInvoke.ExceptionLines` | base_mt/bg_invoke.py:11-13 | The line list is the message, `{`, each traceback line prefixed by exactly two spaces in the original order, then `}`. That is the traceback line count plus 3. |
| `BackgroundInvoke.NewBgException` | base_mt/bg_invoke.py:10-15 | The exception text starts with the message followed by a newline and `{`, and ends with a newline followed by `}`. |
| `BackgroundInvoke.BgExceptionLines` | base_mt/bg_invoke.py:10-15 | For any message and any chunks, the physical lines of the exception text are those of the message, then `{`, then those of each indented chunk in order, then `}`. |
| `BackgroundInvoke.IndentedChunk` | base_mt/bg_invoke.py:12-14 | A chunk that ends in a newline, as every chunk of `format_exception` does, becomes its physical lines in the text. Only the first of them is indented by two spaces, and a blank line follows them. |
| `BackgroundInvoke.Header` | base_mt/bg_invoke.py:53 | The heading naming the thread (the fixed text followed by the decimal thread identifier) holds no newline, so it is a single line of the text. |
| `BackgroundInvoke.Capture` | base_mt/bg_invoke.py:43-47 | `_wrapper` stores the return value, or a `(type, value, traceback)` triple whose type is the raised `Exception` class. For any other exception it leaves `_result` as it was. Nothing is stored only if nothing was stored before and an exception that is not an `Exception` escaped. |
| `BackgroundInvoke.ReadResult` | base_mt/bg_invoke.py:49-56 | `result` raises `ValueError` exactly when nothing is stored. It returns only the stored value, unchanged, and always does so for a value that is not a tuple. It raises `BgException` only for a tuple whose first item is an `Exception` subclass. |
| `BackgroundInvoke.RaisedIsReported` | base_mt/bg_invoke.py:43-53 | After the target raises an `Exception`, `result` raises a `BgException` that names the thread and carries the formatted traceback. |
| `BackgroundInvoke.ReturnedIsRead` | base_mt/bg_invoke.py:43-54 | After the target returns a value that is not a tuple, `result` returns that value. |
| `BackgroundInvoke.UncaughtKeepsResult` | base_mt/bg_invoke.py:43-47 | An exception that does not derive from `Exception` escapes `_wrapper` and stores nothing, so `result` reads as it did before. |
| `BackgroundInvoke.ReturnedTupleMisread` | base_mt/bg_invoke.py:45-53 | As written, a returned `()` makes `result` raise `IndexError`. A returned `(1, 2)` makes it raise `TypeError`. A returned triple that starts with an exception class, such as `(ValueError, v, None)`, is reported as a failure. |
| `BackgroundInvoke.CaptureOutcome` | base_mt/bg_invoke.py:43-47 | The corrected `_wrapper` stores a tagged outcome: a completed call with its value, or a failed one with its exception triple. For any other exception it leaves the record as it was. |
| `BackgroundInvoke.ReadOutcome` | base_mt/bg_invoke.py:49-56 | The corrected `result` reads a tagged outcome. It raises `ValueError` exactly when nothing is stored, and returns exactly when a completed call is stored, giving that call's value. |
| `BackgroundInvoke.FixedResultIsFaithful` | base_mt/bg_invoke.py:43-56 | With tagged outcomes, `result` returns exactly what the target returned, whatever its shape, and raises `BgException` exactly when the target raised an `Exception`. |
| `BackgroundInvoke.BgInvoke.constructor` | base_mt/bg_invoke.py:58-72 | A new invocation has no stored result. |
| `BackgroundInvoke.BgInvoke.Wrapper` | base_mt/bg_invoke.py:43-47 | `_wrapper` updates `_result` in place to `Capture` of its old value. It stores the return value on normal completion. It stores the `(type, value, traceback)` triple when an `Exception` is raised. It leaves `_result` unchanged for any other exception. |
| `BackgroundInvoke.BgInvoke.Result` | base_mt/bg_invoke.py:49-56 | The `result` property computes `ReadResult` of the stored record without modifying it, so repeated reads agree. It raises `ValueError` exactly when nothing is stored, and a value it returns is the stored value. |

## Left out

- `basemt/net.py`, `basemt/traceback.py` and `setup.py` are not part of this model. They are socket probes, name lookups, a wrapper over the standard traceback formatter, and packaging metadata.
- `remove` (`basemt/path.py:16-26`) is not modelled. It only dispatches to operating-system calls and swallows `OSError`.
- The `shared=False` branch of `make_dirs` (`os.makedirs`) is not modelled. Neither are the permission bits and the `chmod` after each `mkdir`. A `mkdir` is recorded as the path passed to it, and it is taken to succeed.
- Only the POSIX `os.path` (`posixpath`) is modelled. On Windows, `split` and `join` are those of `ntpath`, with drive letters and both separators, and they are not modelled.
- Paths are compared as spelled. The operating system treats `a//b` as `a/b` and `a/b/` as `a/b`, and the model does not. The same goes for `.` and `..` components and for symbolic links. So `make_dirs("x/a/.")` with `x` present and `x/a` missing calls `mkdir("x/a")` and then `mkdir("x/a/.")`, which names the same directory and raises `FileExistsError`; `make_dirs("x/a/b/..")` likewise ends on `x/a` again. Neither the as-written model nor `PlanTrimmed` detects this, and the distinctness lemmas (`RebuildsDistinct`, `PlanDistinct`, `TrimmedPlanSucceeds`) are about spellings only.
- The file system set may hold the empty path, which `exists` never reports on a real system. On such a set the as-written `Plan` behaves like the corrected one (`Plan({""}, "newdir")` creates `newdir`). `PlanFixed` adds the empty path on purpose.
- `BasemtPath.MakeDirs`: a `mkdir` is taken to succeed, so `Status` has no `FileExistsError`. For a missing path that ends in a separator, the model returns `Ok` with two `mkdir` calls on one directory, while the program raises `FileExistsError` on the second. `TrailingSepCreatesTwice` states this and the second row of "Findings" records it. That no two `mkdir` calls are spelled alike is proved only for paths without a trailing separator. That they name distinct directories is not proved, because of `.` and `..` components (see above).
- `BasemtPath.MakeDirs`: the last `mkdir` is proved to be the requested path only for paths without doubled separators. For such a path, the joins rebuild the path character for character. For other paths they rebuild a different spelling of the same directory.
- `lock.__lock0` is not modelled: it only serialises the calls, so `Lock` is a sequential update. The internals of the threading package's `ReadWriteLock`, `ReadRWLock` and `WriteRWLock` are not modelled either. The handles only record which lock they wrap and whether they are for writing.
- The order in which the clean-up visits the table is not modelled, because a `map` has no order. The set of removed paths does not depend on it.
- The exit handler that waits, with `sleep`, for all locks to be free (`basemt/path.py:94-103`) is timing and is not modelled.
- Creating, starting and polling the thread (`BgInvoke.__init__`, `is_running`) is not modelled. The thread identifier is a number given to the constructor, and how the target ended is the `Call` given to `Wrapper`.
- `format_exception` is not modelled. The chunks it produces are a parameter of `Result`. A chunk may end in a newline and hold several lines. `BgExceptionLines` and `IndentedChunk` describe the text for any chunks.
- `BackgroundInvoke.ReadResult`: the failure of `format_exception` itself is not modelled. For a stored tuple that starts with an `Exception` subclass but is not a `(type, value, traceback)` triple, such as `(ValueError,)`, `BgException.__init__` makes `format_exception` raise `TypeError` (or `ValueError`, depending on the Python version), and `result` raises that error instead of `BgException`. The model reports `BgException` for every such tuple.

## Findings

| source | as written | input that shows it | evidently intended | confidence | as-written member | corrected member |
|---|---|---|---|---|---|---|
| basemt/path.py:34-38 | A relative path whose first component is missing splits down to the empty head. `exists("")` is false and `split("")` is a fixed point, so `RuntimeError` is raised. | `make_dirs("newdir")` when `newdir` does not exist | Create the directory below the working directory, as `os.makedirs` does in the other branch (line 47). | high; not executed | `BasemtPath.MissingRelativeNameRaises` | `BasemtPath.PlanFixed`, proved by `BasemtPath.FixedPlanSucceeds` |
| basemt/path.py:35-44 | A missing path spelled with a trailing separator splits off an empty tail first, and that tail is popped last. `join(head, "")` is the directory just created plus a separator, so the last `mkdir` raises `FileExistsError`. | `make_dirs("a/b/")` when `a` exists and `a/b` does not: `mkdir("a/b")`, then `mkdir("a/b/")` | Create each directory once, as `os.makedirs` does by skipping an empty tail. The corrected member removes the trailing separators only; a `.` or `..` component still yields a second spelling of a directory already made (see "## Left out"). | high; not executed | `BasemtPath.TrailingSepCreatesTwice`, instance `BasemtPath.TrailingSepExample` | `BasemtPath.PlanTrimmed`, proved by `BasemtPath.TrimmedPlanSucceeds` |
| base_mt/bg_invoke.py:45-53 | `result` decides whether the target failed from the shape of the value it stored. A returned tuple is therefore misread. | target returning `()` (`IndexError`), `(1, 2)` (`TypeError`), or `(ValueError, ValueError("v"), None)` (reported as a failure) | `result` returns whatever the target returned, and raises only when it raised. | high; not executed | `BackgroundInvoke.ReturnedTupleMisread` | `BackgroundInvoke.ReadOutcome`, proved by `BackgroundInvoke.FixedResultIsFaithful` |
