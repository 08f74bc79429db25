/** The two POSIX path operations `make_dirs` is built on, `split` and
    single-component `join`, on paths spelled as strings.  A path is compared
    as spelled: `a//b` and `a/b` are different strings here. */
module PosixPath {

  const Sep: char := '/'

  /** Every character of `s` is the separator (this includes the empty string). */
  predicate AllSeps(s: string) {
    forall k :: 0 <= k < |s| ==> s[k] == Sep
  }

  /** No two separators in a row: the spelling on which joining the two
      halves of a split gives back the path character for character. */
  ghost predicate NoDoubleSep(p: string) {
    forall i, j :: 0 <= i < j < |p| && j == i + 1 ==> p[i] != Sep || p[j] != Sep
  }

  /** `p` does not end with a separator, unless it is made of separators
      only: the form every head `split` returns. */
  predicate NoTrailingSep(p: string) {
    p == [] || AllSeps(p) || p[|p| - 1] != Sep
  }

  /** The index just past the last separator of `p` (0 when there is none):
      where the tail of `p` starts. */
  function TailStart(p: string): (i: nat)
    ensures i <= |p|
    ensures 0 < i ==> p[i - 1] == Sep
    ensures forall k :: i <= k < |p| ==> p[k] != Sep
  {
    if p == [] then 0
    else if p[|p| - 1] == Sep then |p|
    else TailStart(p[..|p| - 1])
  }

  /** `s` without its trailing separators. */
  function StripTrailingSeps(s: string): (r: string)
    ensures |r| <= |s| && r == s[..|r|]
    ensures r == [] || r[|r| - 1] != Sep
    ensures AllSeps(s[|r|..])
  {
    if s != [] && s[|s| - 1] == Sep then
      var r := StripTrailingSeps(s[..|s| - 1]);
      assert s[|r|..] == s[..|s| - 1][|r|..] + [Sep];
      r
    else s
  }

  /** `os.path.split`: the tail is everything after the last separator; the
      head is everything before it, with trailing separators removed unless
      the head consists of separators only. */
  function Split(p: string): (r: (string, string))
    ensures |r.0| <= |p| && r.0 == p[..|r.0|]
    ensures forall k :: 0 <= k < |r.1| ==> r.1[k] != Sep
    ensures r.0 == p <==> AllSeps(p)
  {
    var i := TailStart(p);
    var head := p[..i];
    if head != [] && !AllSeps(head) then
      var h := StripTrailingSeps(head);
      assert h != p;
      assert !AllSeps(p) by { assert !AllSeps(head); }
      (h, p[i..])
    else
      assert AllSeps(p) ==> i == |p|;
      (head, p[i..])
  }

  /** Every head `split` returns is in the form `NoTrailingSep` names. */
  lemma SplitHeadShape(p: string)
    ensures NoTrailingSep(Split(p).0)
  {
  }

  /** `os.path.join` with one component: an absolute component replaces the
      path; otherwise a separator is put between them unless the path is
      empty or already ends with one. */
  function Join(a: string, b: string): (r: string)
    ensures b == [] || b[0] != Sep ==> |a| <= |r| && r[..|a|] == a
    ensures |r| <= |a| + 1 + |b|
  {
    if b != [] && b[0] == Sep then b
    else if a == [] || a[|a| - 1] == Sep then a + b
    else a + [Sep] + b
  }

  /** A prefix of a path without doubled separators has none either. */
  lemma NoDoubleSepPrefix(p: string, n: nat)
    requires n <= |p| && NoDoubleSep(p)
    ensures NoDoubleSep(p[..n])
  {
  }

  /** Joining the two halves of a split gives back the path, for every path
      without doubled separators. */
  lemma JoinSplit(p: string)
    requires NoDoubleSep(p)
    ensures Join(Split(p).0, Split(p).1) == p
  {
    var i := TailStart(p);
    var head := p[..i];
    assert Split(p).1 == p[i..];
    if head != [] && !AllSeps(head) {
      assert 2 <= i;
      assert p[i - 2] != Sep;
      var shorter := head[..i - 1];
      assert shorter == p[..i - 1];
      assert StripTrailingSeps(shorter) == shorter;
      assert StripTrailingSeps(head) == p[..i - 1];
      assert Split(p).0 == p[..i - 1];
      assert p == p[..i - 1] + [Sep] + p[i..];
    } else {
      assert Split(p).0 == head;
      assert p == head + p[i..];
    }
  }

  /** Splitting the join of a directory and a component without separators
      gives back both, when the directory is empty, made of separators only,
      or does not end with one (the form every split head has). */
  lemma SplitJoin(a: string, t: string)
    requires NoTrailingSep(a)
    requires forall k :: 0 <= k < |t| ==> t[k] != Sep
    ensures Split(Join(a, t)) == (a, t)
  {
    var p := Join(a, t);
    if a == [] {
      assert p == t;
      assert TailStart(p) == 0;
      assert p[..0] == [] && p[0..] == t;
    } else if a[|a| - 1] == Sep {
      assert p == a + t;
      var i := TailStart(p);
      assert p[|a| - 1] == Sep;
      assert i == |a|;
      assert p[..i] == a && p[i..] == t;
    } else {
      assert p == a + [Sep] + t;
      var i := TailStart(p);
      assert p[|a|] == Sep;
      assert i == |a| + 1;
      var head := p[..i];
      assert head == a + [Sep];
      assert !AllSeps(head) by { assert head[|a| - 1] == a[|a| - 1]; }
      assert StripTrailingSeps(head) == a by {
        assert head[..|head| - 1] == a;
      }
      assert p[i..] == t;
    }
  }
}
