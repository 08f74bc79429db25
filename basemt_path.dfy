/** `make_dirs` and the path-lock registry `lock` of `basemt/path.py`.

    The file system is the set of paths that exist, as spelled: `exists(p)`
    is `p in fs`.  `make_dirs` reads it only in its first loop and never
    reads it again after a `mkdir`, so the model takes it as a value and
    returns the `mkdir` calls it makes, in order.  `exists("")` is false on
    every real file system, so a set holding the empty path stands for none;
    only the corrected `PlanFixed` adds it, on purpose. */
module BasemtPath {
  import opened PosixPath

  // ---------------------------------------------------------------------
  // make_dirs (shared=True branch)
  // ---------------------------------------------------------------------

  /** How `make_dirs` ends: it returns, or it raises `RuntimeError` naming
      the path at which `split` stopped making progress. */
  datatype Status = Ok | RuntimeError(path: string)

  /** Outcome of the first loop: the existing ancestor it stopped at and the
      tails it pushed (first pushed first), or the fixed point it hit. */
  datatype Descent = Reached(ancestor: string, stack: seq<string>) | Unparsable(path: string)

  /** The first loop of `make_dirs`: split off tails until an existing path is
      found; a path that is its own head cannot be split further. */
  function Descend(fs: set<string>, p: string): (d: Descent)
    decreases |p|
    ensures d.Reached? ==> d.ancestor in fs
    ensures d.Unparsable? ==> d.path !in fs && AllSeps(d.path)
    ensures d == Reached(p, []) <==> p in fs
  {
    if p in fs then Reached(p, [])
    else
      var (head, tail) := Split(p);
      if head == p then Unparsable(p)
      else
        match Descend(fs, head)
        case Reached(a, s) => Reached(a, [tail] + s)
        case Unparsable(q) => Unparsable(q)
  }

  /** One step of the first loop: a missing path that is its own head
      cannot be parsed; otherwise its descent is its head's, below its tail. */
  lemma DescendStep(fs: set<string>, p: string)
    requires p !in fs
    ensures Split(p).0 == p ==> Descend(fs, p) == Unparsable(p)
    ensures Split(p).0 != p ==> Descend(fs, p) == Below([Split(p).1], Descend(fs, Split(p).0))
  {
  }

  /** The descent from a path, given that `stack` was pushed on the way to it. */
  function Below(stack: seq<string>, d: Descent): Descent {
    match d
    case Reached(a, s) => Reached(a, stack + s)
    case Unparsable(q) => Unparsable(q)
  }

  /** Descending below two stacks in turn is descending below the two pushed one after the other. */
  lemma BelowBelow(first: seq<string>, second: seq<string>, d: Descent)
    ensures Below(first, Below(second, d)) == Below(first + second, d)
  {
  }

  /** The path the second loop ends on: pop every tail and join it on. */
  function Unwind(base: string, stack: seq<string>): string
    decreases |stack|
  {
    if stack == [] then base
    else Unwind(Join(base, stack[|stack| - 1]), stack[..|stack| - 1])
  }

  /** The paths the second loop passes to `mkdir`, in call order. */
  function Rebuild(base: string, stack: seq<string>): (dirs: seq<string>)
    decreases |stack|
    ensures |dirs| == |stack|
    ensures dirs != [] ==> dirs[|dirs| - 1] == Unwind(base, stack)
  {
    if stack == [] then []
    else
      var next := Join(base, stack[|stack| - 1]);
      [next] + Rebuild(next, stack[..|stack| - 1])
  }

  /** What `make_dirs(path)` does: its status and the `mkdir` calls it makes. */
  function Plan(fs: set<string>, p: string): (r: (Status, seq<string>))
    ensures r.0.RuntimeError? ==> r.1 == [] && r.0.path !in fs
    ensures p == [] || p in fs ==> r == (Ok, [])
  {
    if p == [] then (Ok, [])
    else
      match Descend(fs, p)
      case Reached(a, s) => (Ok, Rebuild(a, s))
      case Unparsable(q) => (RuntimeError(q), [])
  }

  /** `make_dirs(path)` with `shared` set: descend to an existing ancestor,
      pushing tails, then pop them and create each directory. */
  method MakeDirs(fs: set<string>, path: string) returns (status: Status, mkdirs: seq<string>)
    ensures (status, mkdirs) == Plan(fs, path)
    ensures status.RuntimeError? ==> mkdirs == []
    ensures path in fs ==> mkdirs == []
    ensures status == Ok && NoDoubleSep(path) && mkdirs != [] ==> mkdirs[|mkdirs| - 1] == path
    ensures status == Ok && NoDoubleSep(path) && NoTrailingSep(path) ==> DistinctSpellings(mkdirs)
  {
    status, mkdirs := Ok, [];
    if path == [] {
      return;
    }
    var parsed, p, stack := FindExisting(fs, path);
    if !parsed {
      status := RuntimeError(p);
      return;
    }
    mkdirs := CreateMissing(p, stack);
    if NoDoubleSep(path) {
      LastMkdirIsPath(fs, path);
      if NoTrailingSep(path) {
        PlanDistinct(fs, path);
      }
    }
  }

  /** The first loop of `make_dirs`: split off and push tails until an
      existing path is reached, or stop at a path that is its own head. */
  method FindExisting(fs: set<string>, path: string) returns (parsed: bool, p: string, stack: seq<string>)
    ensures parsed ==> Descend(fs, path) == Reached(p, stack)
    ensures !parsed ==> Descend(fs, path) == Unparsable(p)
  {
    p, stack := path, [];
    while p !in fs
      invariant Descend(fs, path) == Below(stack, Descend(fs, p))
      decreases |p|
    {
      var (head, tail) := Split(p);
      DescendStep(fs, p);
      stack := stack + [tail];
      if p == head {
        return false, p, stack;
      }
      assert Descend(fs, path) == Below(stack, Descend(fs, head)) by {
        BelowBelow(stack[..|stack| - 1], [tail], Descend(fs, head));
        assert stack[..|stack| - 1] + [tail] == stack;
      }
      p := head;
    }
    assert stack + [] == stack;
    parsed := true;
  }

  /** The second loop of `make_dirs`: pop each tail, join it on and create
      the directory. */
  method CreateMissing(base: string, pushed: seq<string>) returns (mkdirs: seq<string>)
    ensures mkdirs == Rebuild(base, pushed)
  {
    mkdirs := [];
    var p, stack := base, pushed;
    while stack != []
      invariant mkdirs + Rebuild(p, stack) == Rebuild(base, pushed)
      decreases |stack|
    {
      ghost var before := mkdirs;
      var tail := stack[|stack| - 1];
      assert Rebuild(p, stack) == [Join(p, tail)] + Rebuild(Join(p, tail), stack[..|stack| - 1]);
      stack := stack[..|stack| - 1];
      p := Join(p, tail);
      mkdirs := mkdirs + [p];
      assert before + ([p] + Rebuild(p, stack)) == mkdirs + Rebuild(p, stack);
    }
    assert mkdirs + [] == mkdirs;
  }

  /** When `make_dirs` returns normally on a path without doubled or
      trailing separators, its `mkdir` calls are on distinct spellings,
      none ending in a separator. */
  lemma PlanDistinct(fs: set<string>, p: string)
    requires NoDoubleSep(p) && NoTrailingSep(p)
    ensures Plan(fs, p).0 == Ok ==> DistinctSpellings(Plan(fs, p).1)
  {
    if p != [] && Descend(fs, p).Reached? {
      RebuildsDistinct(fs, p);
    }
  }

  /** Joining the popped tails back on reproduces the requested path, so the
      last `mkdir`, when there is one, is on the path itself. */
  lemma LastMkdirIsPath(fs: set<string>, p: string)
    requires NoDoubleSep(p)
    ensures Plan(fs, p).0 == Ok && Plan(fs, p).1 != [] ==> Plan(fs, p).1[|Plan(fs, p).1| - 1] == p
  {
    if p != [] && Descend(fs, p).Reached? {
      DescentRebuilds(fs, p);
    }
  }

  /** Pushing one more tail before a stack adds one last `mkdir`, on the join
      of that tail with the path the rest of the stack rebuilds. */
  lemma {:induction false} RebuildPushFront(base: string, tail: string, stack: seq<string>)
    decreases |stack|
    ensures Unwind(base, [tail] + stack) == Join(Unwind(base, stack), tail)
    ensures Rebuild(base, [tail] + stack) == Rebuild(base, stack) + [Join(Unwind(base, stack), tail)]
  {
    var s := [tail] + stack;
    if stack == [] {
      assert s[..|s| - 1] == [];
    } else {
      assert s[|s| - 1] == stack[|stack| - 1];
      assert s[..|s| - 1] == [tail] + stack[..|stack| - 1];
      RebuildPushFront(Join(base, stack[|stack| - 1]), tail, stack[..|stack| - 1]);
    }
  }

  /** `dirs` climbs down from `ancestor` to `p` one component at a time,
      through paths missing from `fs`: the first is a child of the ancestor,
      each later one a child of the one before, and the last is `p`. */
  ghost predicate Chain(fs: set<string>, ancestor: string, dirs: seq<string>, p: string) {
    && (dirs == [] ==> ancestor == p)
    && (dirs != [] ==> Split(dirs[0]).0 == ancestor && dirs[|dirs| - 1] == p)
    && (forall i, j :: 0 <= i < j < |dirs| && j == i + 1 ==> Split(dirs[j]).0 == dirs[i])
    && (forall j :: 0 <= j < |dirs| ==> dirs[j] !in fs)
  }

  /** A chain to `head` extends by one missing child of `head`. */
  lemma ChainExtend(fs: set<string>, ancestor: string, dirs: seq<string>, head: string, p: string)
    requires Chain(fs, ancestor, dirs, head)
    requires p !in fs && Split(p).0 == head
    ensures Chain(fs, ancestor, dirs + [p], p)
  {
  }

  /** For a path without doubled separators that has an existing ancestor,
      popping the tails back on reproduces the path, and the `mkdir` calls
      climb down from the ancestor to the path through missing directories,
      parents before children. */
  lemma {:induction false} DescentRebuilds(fs: set<string>, p: string)
    requires NoDoubleSep(p)
    requires Descend(fs, p).Reached?
    decreases |p|
    ensures Unwind(Descend(fs, p).ancestor, Descend(fs, p).stack) == p
    ensures Chain(fs, Descend(fs, p).ancestor, Rebuild(Descend(fs, p).ancestor, Descend(fs, p).stack), p)
  {
    if p !in fs {
      var sp := Split(p);
      var head, tail := sp.0, sp.1;
      assert head != p;
      var d := Descend(fs, head);
      assert Descend(fs, p) == Reached(d.ancestor, [tail] + d.stack);
      NoDoubleSepPrefix(p, |head|);
      DescentRebuilds(fs, head);
      RebuildPushFront(d.ancestor, tail, d.stack);
      JoinSplit(p);
      ChainExtend(fs, d.ancestor, Rebuild(d.ancestor, d.stack), head, p);
    }
  }

  /** No `mkdir` is on a path that ends with a separator, and each is on a
      longer path than the one before: no two are spelled alike.  Two
      spellings may still name one directory when a component is `.` or
      `..`, which the model does not resolve. */
  ghost predicate DistinctSpellings(dirs: seq<string>) {
    && (forall j :: 0 <= j < |dirs| ==> dirs[j] != [] && dirs[j][|dirs[j]| - 1] != Sep)
    && (forall i, j :: 0 <= i < j < |dirs| ==> |dirs[i]| < |dirs[j]|)
  }

  /** For a path without doubled or trailing separators that has an existing
      ancestor, the `mkdir` calls are on distinct spellings. */
  lemma {:induction false} RebuildsDistinct(fs: set<string>, p: string)
    requires NoDoubleSep(p) && NoTrailingSep(p)
    requires Descend(fs, p).Reached?
    decreases |p|
    ensures DistinctSpellings(Rebuild(Descend(fs, p).ancestor, Descend(fs, p).stack))
  {
    if p !in fs {
      var sp := Split(p);
      var head, tail := sp.0, sp.1;
      assert head != p;
      var d := Descend(fs, head);
      assert Descend(fs, p) == Reached(d.ancestor, [tail] + d.stack);
      NoDoubleSepPrefix(p, |head|);
      SplitHeadShape(p);
      RebuildsDistinct(fs, head);
      var before := Rebuild(d.ancestor, d.stack);
      assert before != [] ==> before[|before| - 1] == head by {
        DescentRebuilds(fs, head);
      }
      assert Rebuild(d.ancestor, [tail] + d.stack) == before + [p] by {
        RebuildPushFront(d.ancestor, tail, d.stack);
        JoinSplit(p);
        DescentRebuilds(fs, head);
      }
      assert !AllSeps(p);
      DistinctSpellingsSnoc(before, head, p);
    }
  }

  /** A longer directory without a trailing separator, created after one
      that ends on `head`, keeps the directories distinct. */
  lemma DistinctSpellingsSnoc(dirs: seq<string>, head: string, p: string)
    requires DistinctSpellings(dirs) && (dirs != [] ==> dirs[|dirs| - 1] == head)
    requires |head| < |p| && p[|p| - 1] != Sep
    ensures DistinctSpellings(dirs + [p])
  {
    assert forall i :: 0 <= i < |dirs| ==> |dirs[i]| <= |head| by {
      if dirs != [] {
        assert forall i :: 0 <= i < |dirs| - 1 ==> |dirs[i]| < |dirs[|dirs| - 1]|;
      }
    }
  }

  /** As written, a missing directory `h` spelled with a trailing separator
      is created twice: the empty tail split off first is popped last, and
      joining it on gives the directory just created with a separator
      appended, whose `mkdir` fails with `FileExistsError`. */
  lemma TrailingSepCreatesTwice(fs: set<string>, h: string)
    requires h != [] && h[|h| - 1] != Sep && NoDoubleSep(h)
    requires h !in fs && h + [Sep] !in fs
    requires Descend(fs, h).Reached?
    ensures Plan(fs, h + [Sep]).0 == Ok
    ensures |Plan(fs, h + [Sep]).1| >= 2
    ensures Plan(fs, h + [Sep]).1[|Plan(fs, h + [Sep]).1| - 2] == h
    ensures Plan(fs, h + [Sep]).1[|Plan(fs, h + [Sep]).1| - 1] == h + [Sep]
    ensures Plan(fs, h + [Sep]).1 == Plan(fs, h).1 + [h + [Sep]]
  {
    var d := Descend(fs, h);
    TrailingDescent(fs, h);
    UnwindsToPath(fs, h);
    RebuildPushFront(d.ancestor, [], d.stack);
  }

  /** The descent from `h` with a separator appended pushes the empty tail
      and then descends as from `h`. */
  lemma TrailingDescent(fs: set<string>, h: string)
    requires h != [] && h[|h| - 1] != Sep
    requires h + [Sep] !in fs
    ensures Descend(fs, h).Reached? ==>
      Descend(fs, h + [Sep]) == Reached(Descend(fs, h).ancestor, [[]] + Descend(fs, h).stack)
    ensures Join(h, []) == h + [Sep]
  {
    SplitTrailing(h);
  }

  /** A missing path reached by its descent is rebuilt by it, and the
      descent pushed at least one tail. */
  lemma UnwindsToPath(fs: set<string>, h: string)
    requires NoDoubleSep(h) && h !in fs
    requires Descend(fs, h).Reached?
    ensures Unwind(Descend(fs, h).ancestor, Descend(fs, h).stack) == h
    ensures Descend(fs, h).stack != []
  {
    DescentRebuilds(fs, h);
  }

  /** A directory spelled with one separator appended splits into the
      directory and an empty tail, and joining those gives it back. */
  lemma SplitTrailing(h: string)
    requires h != [] && h[|h| - 1] != Sep
    ensures Split(h + [Sep]) == (h, [])
    ensures Join(h, []) == h + [Sep]
  {
    var p := h + [Sep];
    assert TailStart(p) == |p|;
    assert !AllSeps(p) by { assert p[|h| - 1] != Sep; }
    assert StripTrailingSeps(p) == h by {
      assert p[..|h|] == h;
    }
    assert p[..|p|] == p && p[|p|..] == [];
  }

  /** Without the trailing separator: with `a` present and `a/b` missing,
      `make_dirs("a/b")` makes the one call `mkdir("a/b")`. */
  lemma PlainPathExample()
    ensures Descend({"a"}, "a/b") == Reached("a", ["b"])
    ensures Plan({"a"}, "a/b") == (Ok, ["a/b"])
  {
    assert Split("a/b") == ("a", "b") by {
      assert TailStart("a/b") == 2;
      assert StripTrailingSeps("a/") == "a" by { assert "a/"[..1] == "a"; }
      assert "a/b"[..2] == "a/";
    }
    assert Descend({"a"}, "a/b") == Reached("a", ["b"]);
    assert Join("a", "b") == "a/b";
    var one: seq<string> := ["b"];
    assert one[..0] == [];
    assert Rebuild("a", one) == ["a/b"];
  }

  /** With the trailing separator: `make_dirs("a/b/")` makes `mkdir("a/b")`
      and then `mkdir("a/b/")` on the directory it has just created. */
  lemma TrailingSepExample()
    ensures Plan({"a"}, "a/b/") == (Ok, ["a/b", "a/b/"])
  {
    TrailingExampleSteps({"a"}, "a/b");
    assert "a/b" + [Sep] == "a/b/";
  }

  /** The example above, with the trailing separator still appended. */
  lemma TrailingExampleSteps(fs: set<string>, h: string)
    requires fs == {"a"} && h == "a/b"
    ensures Plan(fs, h + [Sep]) == (Ok, [h, h + [Sep]])
  {
    PlainPathExample();
    TrailingExampleShape();
    TrailingSepCreatesTwice(fs, h);
    var p: string := h + [Sep];
    assert [h] + [p] == [h, p];
  }

  /** The spelling facts about `a/b` that the example above needs. */
  lemma TrailingExampleShape()
    ensures "a/b"[2] != Sep && NoDoubleSep("a/b")
    ensures "a/b" !in {"a"} && "a/b" + [Sep] !in {"a"}
  {
  }

  /** The directory a path names: the path without trailing separators,
      unless it is made of separators only. */
  function Trimmed(p: string): (q: string)
    ensures |q| <= |p| && q == p[..|q|] && AllSeps(p[|q|..])
    ensures NoTrailingSep(q)
  {
    if AllSeps(p) then p else StripTrailingSeps(p)
  }

  /** `make_dirs` as evidently intended for trailing separators too: the
      corrected descent of `PlanFixed`, on the directory the path names. */
  function PlanTrimmed(fs: set<string>, p: string): (r: (Status, seq<string>))
    ensures p == Trimmed(p) ==> r == PlanFixed(fs, p)
  {
    PlanFixed(fs, Trimmed(p))
  }

  /** With the root present, the corrected `make_dirs` never raises
      `RuntimeError` on a path without doubled separators; its `mkdir` calls
      are on distinct spellings, none ending in a separator, and the last is
      the directory the path names. */
  lemma TrimmedPlanSucceeds(fs: set<string>, p: string)
    requires "/" in fs && NoDoubleSep(p)
    ensures PlanTrimmed(fs, p).0 == Ok
    ensures DistinctSpellings(PlanTrimmed(fs, p).1)
    ensures PlanTrimmed(fs, p).1 != [] ==> PlanTrimmed(fs, p).1[|PlanTrimmed(fs, p).1| - 1] == Trimmed(p)
  {
    var q := Trimmed(p);
    NoDoubleSepPrefix(p, |q|);
    FixedPlanSucceeds(fs, q);
    var fs' := fs + {""};
    assert PlanFixed(fs, q) == Plan(fs', q) by {
      if "" in fs { assert fs' == fs; }
    }
    if q != [] {
      ReachesRootOrCwd(fs', q);
      RebuildsDistinct(fs', q);
    }
  }

  /** As written, a missing relative name with no separator cannot be
      created: its head is the empty path, which does not exist and is its
      own head, so `RuntimeError` is raised and nothing is created. */
  lemma MissingRelativeNameRaises(fs: set<string>, name: string)
    requires name != [] && name !in fs && "" !in fs
    requires forall k :: 0 <= k < |name| ==> name[k] != Sep
    ensures Plan(fs, name) == (RuntimeError(""), [])
  {
    SplitJoin("", name);
    assert Split(name) == ("", name);
    assert Descend(fs, "") == Unparsable("");
    assert Descend(fs, name) == Unparsable("");
  }

  /** `make_dirs` as evidently intended: the empty head, the working
      directory, counts as existing, so a relative path is created below it. */
  function PlanFixed(fs: set<string>, p: string): (r: (Status, seq<string>))
    ensures Plan(fs, p).0 == Ok ==> r == Plan(fs, p)
  {
    if "" in fs then Plan(fs, p)
    else
      DescendMore(fs, p);
      Plan(fs + {""}, p)
  }

  /** Adding the empty path to the file system changes nothing for a
      descent that already reached an ancestor. */
  lemma {:induction false} DescendMore(fs: set<string>, p: string)
    decreases |p|
    ensures Descend(fs, p).Reached? ==> Descend(fs + {""}, p) == Descend(fs, p)
  {
    if p !in fs && p != "" {
      var (head, tail) := Split(p);
      if head != p {
        DescendMore(fs, head);
      }
    }
  }

  /** With the root present, the corrected `make_dirs` never raises, and the
      last directory it creates is the requested path. */
  lemma {:induction false} FixedPlanSucceeds(fs: set<string>, p: string)
    requires "/" in fs && NoDoubleSep(p)
    ensures PlanFixed(fs, p).0 == Ok
    ensures PlanFixed(fs, p).1 != [] ==> PlanFixed(fs, p).1[|PlanFixed(fs, p).1| - 1] == p
  {
    var fs' := fs + {""};
    ReachesRootOrCwd(fs', p);
    if p != [] {
      DescentRebuilds(fs', p);
    }
    if "" in fs {
      assert fs' == fs;
    }
  }

  /** A descent in a file system holding both the root and the empty path
      always reaches an ancestor, for paths without doubled separators. */
  lemma {:induction false} ReachesRootOrCwd(fs: set<string>, p: string)
    requires "/" in fs && "" in fs && NoDoubleSep(p)
    decreases |p|
    ensures Descend(fs, p).Reached?
  {
    if p !in fs {
      var head := Split(p).0;
      if |p| == 1 {
        assert p == [p[0]];
      } else {
        assert p[0] != Sep || p[1] != Sep;
      }
      assert !AllSeps(p);
      NoDoubleSepPrefix(p, |head|);
      ReachesRootOrCwd(fs, head);
    }
  }

  // ---------------------------------------------------------------------
  // lock: the registry of read/write locks by path
  // ---------------------------------------------------------------------

  /** The number of misses after which free locks are evicted. */
  const CleanupPeriod: int := 1024

  /** A read/write lock of the threading package; all the registry asks of it
      is whether it is free.  Its holders change `free`; a new lock has none. */
  class ReadWriteLock {
    var free: bool

    constructor ()
      ensures free
    {
      free := true;
    }
  }

  /** What `lock` returns: a writer's or a reader's view of the stored lock. */
  datatype LockHandle = WriteRWLock(target: ReadWriteLock) | ReadRWLock(target: ReadWriteLock)

  /** The registered paths whose lock is free. */
  function FreePaths(locks: map<string, ReadWriteLock>): set<string>
    reads locks.Values
  {
    set x | x in locks && locks[x].free
  }

  /** The first loop of the clean-up: list the paths whose lock is free. */
  method CollectFree(locks: map<string, ReadWriteLock>) returns (removed: seq<string>)
    ensures forall x :: x in removed <==> x in locks && locks[x].free
    ensures forall i, j :: 0 <= i < j < |removed| ==> removed[i] != removed[j]
  {
    removed := [];
    var todo := locks.Keys;
    while todo != {}
      invariant todo <= locks.Keys
      invariant forall x :: x in removed <==> x in locks && x !in todo && locks[x].free
      invariant forall i, j :: 0 <= i < j < |removed| ==> removed[i] != removed[j]
      decreases todo
    {
      var x :| x in todo;
      if locks[x].free {
        removed := removed + [x];
      }
      todo := todo - {x};
    }
  }

  /** The module-level table of `lock`: a lock per path and the count of
      misses since the last clean-up. */
  class PathLocks {
    var locks: map<string, ReadWriteLock>
    var cleanupCnt: int

    /** The counter stays below the clean-up period between calls. */
    ghost predicate Valid()
      reads this
    {
      0 <= cleanupCnt < CleanupPeriod
    }

    /** The table as the module sets it up: empty, counter at zero. */
    constructor ()
      ensures Valid()
      ensures locks == map[] && cleanupCnt == 0
    {
      locks := map[];
      cleanupCnt := 0;
    }

    /** `lock(path, to_write)`: on a miss, count it, evict every free lock
        each `CleanupPeriod`-th miss, and register a new lock for `path`;
        return a writer's or reader's view of the lock for `path`. */
    method Lock(path: string, toWrite: bool) returns (h: LockHandle)
      requires Valid()
      modifies this
      ensures Valid()
      ensures path in locks && h.target == locks[path] && (h.WriteRWLock? <==> toWrite)
      ensures path in old(locks) ==> locks == old(locks) && cleanupCnt == old(cleanupCnt)
      ensures path !in old(locks) ==>
                && fresh(locks[path]) && locks[path].free
                && cleanupCnt == (old(cleanupCnt) + 1) % CleanupPeriod
                && locks == (if old(cleanupCnt) + 1 == CleanupPeriod
                             then old(locks) - old(FreePaths(locks))
                             else old(locks))[path := locks[path]]
      ensures forall x :: x in old(locks) && !old(locks[x].free) ==> x in locks && locks[x] == old(locks[x])
      ensures forall x :: x in old(locks) && x !in locks ==> old(locks[x].free)
    {
      if path !in locks {
        cleanupCnt := cleanupCnt + 1;
        if cleanupCnt >= CleanupPeriod {
          cleanupCnt := 0;
          var removed := CollectFree(locks);
          for i := 0 to |removed|
            invariant cleanupCnt == 0
            invariant locks == old(locks) - (set k | 0 <= k < i :: removed[k])
          {
            locks := locks - {removed[i]};
          }
          assert (set k | 0 <= k < |removed| :: removed[k]) == old(FreePaths(locks));
        }
        var created := new ReadWriteLock();
        locks := locks[path := created];
      }
      h := if toWrite then WriteRWLock(locks[path]) else ReadRWLock(locks[path]);
    }
  }
}
