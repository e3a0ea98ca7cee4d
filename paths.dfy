/**
 * The parts of `posixpath` (`os.path` on POSIX) that the fuzz target relies on:
 * `join`, `basename`, `dirname`, and the directories `os.makedirs` creates.
 * Paths are plain strings; nothing here normalises them.
 */
module Paths {
  const Sep: char := '/'

  predicate IsAbsolute(p: string) {
    |p| > 0 && p[0] == Sep
  }

  predicate EndsWithSep(p: string) {
    |p| > 0 && p[|p| - 1] == Sep
  }

  predicate AllSeps(p: string) {
    forall i :: 0 <= i < |p| ==> p[i] == Sep
  }

  /** No two separators in a row. */
  predicate NoDoubledSep(p: string) {
    forall i :: 0 < i < |p| ==> !(p[i - 1] == Sep && p[i] == Sep)
  }

  /**
   * One step of `posixpath.join(a, b)`: an absolute `b` replaces everything
   * before it; otherwise `b` is appended, with a separator unless `a` is
   * empty or already ends with one.
   */
  function Join(a: string, b: string): (r: string)
    ensures |r| >= |b| && r[|r| - |b|..] == b
    ensures !IsAbsolute(b) ==> |a| + |b| <= |r| <= |a| + 1 + |b| && r[..|a|] == a
    ensures IsAbsolute(b) ==> r == b
  {
    if IsAbsolute(b) then b
    else if a == [] || EndsWithSep(a) then a + b
    else a + [Sep] + b
  }

  /**
   * What lies between the two parts of a join: nothing when `a` is empty or
   * already ends with a separator, exactly one separator otherwise.
   */
  lemma JoinSeparator(a: string, b: string)
    requires !IsAbsolute(b)
    ensures a == [] || EndsWithSep(a) ==> Join(a, b) == a + b
    ensures a != [] && !EndsWithSep(a) ==> |Join(a, b)| == |a| + 1 + |b| && Join(a, b)[|a|] == Sep
  {
  }

  /** `posixpath.join(*parts)`, which needs at least one argument. */
  function JoinAll(parts: seq<string>): (r: string)
    requires |parts| >= 1
    ensures |r| >= |parts[|parts| - 1]|
  {
    if |parts| == 1 then parts[0]
    else Join(JoinAll(parts[..|parts| - 1]), parts[|parts| - 1])
  }

  /** `p.rfind('/')`: the index of the last separator, or -1. */
  function LastSep(p: string): (r: int)
    ensures -1 <= r < |p|
    ensures r >= 0 ==> p[r] == Sep
    ensures forall j :: r < j < |p| ==> p[j] != Sep
  {
    if p == [] then -1
    else if p[|p| - 1] == Sep then |p| - 1
    else LastSep(p[..|p| - 1])
  }

  /** `posixpath.basename`: everything after the last separator. */
  function Basename(p: string): (r: string)
    ensures Sep !in r
    ensures |r| <= |p| && p[|p| - |r|..] == r
    ensures Sep !in p ==> r == p
  {
    p[LastSep(p) + 1..]
  }

  /** `s.rstrip('/')`. */
  function StripTrailingSeps(s: string): (r: string)
    ensures |r| <= |s| && s[..|r|] == r
    ensures !EndsWithSep(r)
    ensures forall i :: |r| <= i < |s| ==> s[i] == Sep
  {
    if EndsWithSep(s) then StripTrailingSeps(s[..|s| - 1]) else s
  }

  /**
   * `posixpath.dirname`: everything up to the last separator, with trailing
   * separators removed unless the head consists of separators only.
   */
  function Dirname(p: string): string
  {
    var head := p[..LastSep(p) + 1];
    if head != [] && !AllSeps(head) then StripTrailingSeps(head) else head
  }

  /** The basename is the longest separator-free tail: a separator stands just before it, if anything does. */
  lemma BasenameMaximal(p: string)
    ensures var r := Basename(p);
            |r| < |p| ==> p[|p| - |r| - 1] == Sep
  {
  }

  /**
   * The dirname is the head up to the last separator, shortened only by
   * trailing separators, and ends in one only when it consists of nothing
   * else; it is empty exactly when `p` has no separator.
   */
  lemma DirnameShape(p: string)
    ensures var r := Dirname(p);
            |r| <= LastSep(p) + 1 && p[..|r|] == r
    ensures var r := Dirname(p);
            forall i :: |r| <= i <= LastSep(p) ==> p[i] == Sep
    ensures Dirname(p) == [] <==> LastSep(p) == -1
    ensures EndsWithSep(Dirname(p)) ==> AllSeps(Dirname(p))
    ensures AllSeps(p[..LastSep(p) + 1]) ==> Dirname(p) == p[..LastSep(p) + 1]
  {
  }

  /** `os.path.exists(p)` over the set of existing paths: the empty path never exists. */
  predicate PathExists(paths: set<string>, p: string) {
    p != [] && p in paths
  }

  /**
   * The directories `os.makedirs(p)` leaves existing: every prefix of `p`
   * that ends just before a separator, and `p` itself.
   */
  function Directories(p: string): (r: set<string>)
    ensures p != [] ==> p in r
    ensures forall d :: d in r ==> |d| <= |p|
  {
    assert p != [] ==> p[..|p|] == p;
    set i | 0 < i <= |p| && (i == |p| || p[i] == Sep) :: p[..i]
  }

  /**
   * The name an archive entry is written under: `extractall` drops the
   * separators an absolute entry name starts with.
   */
  function MemberName(e: string): (r: string)
    ensures !IsAbsolute(r)
    ensures |r| <= |e| && e[|e| - |r|..] == r
    ensures forall i :: 0 <= i < |e| - |r| ==> e[i] == Sep
  {
    if e != [] && e[0] == Sep then MemberName(e[1..]) else e
  }

  /** What `extractall(dir)` of an archive with the given entry names adds. */
  function Extracted(dir: string, entries: set<string>): (r: set<string>)
  {
    set e | e in entries :: Join(dir, MemberName(e))
  }

  /** Whatever `extractall(dir)` writes lands under `dir`, absolute entry names included. */
  lemma ExtractedInside(dir: string, entries: set<string>, p: string)
    requires p in Extracted(dir, entries)
    ensures |dir| <= |p| && p[..|dir|] == dir
  {
    var e :| e in entries && p == Join(dir, MemberName(e));
  }

  /**
   * When the archive holds relative names only, a relative name lands
   * under `dir` exactly when the archive holds it.
   */
  lemma {:induction false} ExtractedUnder(dir: string, entries: set<string>, e: string)
    requires forall x :: x in entries ==> !IsAbsolute(x)
    requires !IsAbsolute(e)
    ensures Join(dir, e) in Extracted(dir, entries) <==> e in entries
  {
    if Join(dir, e) in Extracted(dir, entries) {
      var x :| x in entries && Join(dir, MemberName(x)) == Join(dir, e);
      JoinInjective(dir, MemberName(x), e);
      assert MemberName(x) == x;
    }
  }

  /** Relative names joined onto the same directory give the same path only when they are equal. */
  lemma JoinInjective(a: string, b1: string, b2: string)
    requires !IsAbsolute(b1) && !IsAbsolute(b2)
    requires Join(a, b1) == Join(a, b2)
    ensures b1 == b2
  {
    var r := Join(a, b1);
    assert |b1| == |b2|;
    assert r[|r| - |b1|..] == b1 && r[|r| - |b2|..] == b2;
  }

  /** Three parts, none empty or absolute and no stray separators, are joined with single separators. */
  lemma JoinThree(a: string, b: string, c: string)
    requires a != [] && !EndsWithSep(a)
    requires b != [] && Sep !in b
    requires !IsAbsolute(c)
    ensures JoinAll([a, b, c]) == a + [Sep] + b + [Sep] + c
  {
    assert [a, b, c][..2] == [a, b] && [a, b][..1] == [a];
    assert !IsAbsolute(b) by { assert b[0] in b; }
    var ab := a + [Sep] + b;
    assert JoinAll([a, b]) == ab;
    assert !EndsWithSep(ab) by { assert ab[|ab| - 1] == b[|b| - 1]; assert b[|b| - 1] in b; }
  }

  /** Splitting a path and joining it again gives it back. */
  lemma JoinDirnameBasename(p: string)
    requires NoDoubledSep(p)
    ensures Join(Dirname(p), Basename(p)) == p
  {
    var r := LastSep(p);
    var b := Basename(p);
    assert b == p[r + 1..];
    if r == -1 {
      assert Dirname(p) == [];
      assert !IsAbsolute(b) by { if |p| > 0 { assert p[0] != Sep; } }
    } else {
      var head := p[..r + 1];
      assert !IsAbsolute(b) by { if |b| > 0 { assert b[0] == p[r + 1]; } }
      if AllSeps(head) {
        assert Dirname(p) == head;
        assert EndsWithSep(head) by { assert head[r] == p[r]; }
        assert head + b == p;
      } else {
        assert r >= 1;
        assert p[r - 1] != Sep;
        assert EndsWithSep(head) by { assert head[r] == p[r]; }
        assert StripTrailingSeps(head[..r]) == head[..r] by {
          assert head[..r][r - 1] == p[r - 1];
        }
        assert Dirname(p) == p[..r];
        assert p[..r] != [] && !EndsWithSep(p[..r]) by { assert p[..r][r - 1] == p[r - 1]; }
        assert p[..r] + [Sep] + b == p;
      }
    }
  }

  /** Joining a plain name onto a directory, the name is the basename and the directory the dirname. */
  lemma {:induction false} BasenameDirnameOfJoin(a: string, b: string)
    requires b != [] && Sep !in b
    requires a != [] && !EndsWithSep(a)
    ensures Basename(Join(a, b)) == b
    ensures Dirname(Join(a, b)) == a
  {
    var p := Join(a, b);
    assert p == a + [Sep] + b by { assert b[0] != Sep; }
    assert LastSep(p) == |a| by {
      assert p[|a|] == Sep;
      assert forall j :: |a| < j < |p| ==> p[j] == b[j - |a| - 1];
      assert forall j :: |a| < j < |p| ==> p[j] != Sep by {
        forall j | |a| < j < |p| ensures p[j] != Sep { assert b[j - |a| - 1] in b; }
      }
    }
    var head := p[..|a| + 1];
    assert head == a + [Sep];
    assert !AllSeps(head) by { assert head[|a| - 1] == a[|a| - 1]; }
    assert head[..|head| - 1] == a;
    assert p[|a| + 1..] == b;
  }
}
