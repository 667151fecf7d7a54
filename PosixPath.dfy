/**
  The POSIX `os.path` functions the fixtures use to build paths: `join`,
  `dirname`, `basename`, `splitext` and `normpath`.
 */
module PosixPath {
  import opened PyStr

  /** `os.path.join(a, b)`: an absolute `b` replaces `a`, otherwise one `/` separates them. */
  function Join(a: string, b: string): (r: string)
    ensures StartsWith(b, "/") ==> r == b
    ensures !StartsWith(b, "/") ==> StartsWith(r, a) && EndsWith(r, b)
    ensures !StartsWith(b, "/") ==> |r| == |a| + |b| || (|r| == |a| + |b| + 1 && r[|a|] == '/')
  {
    if StartsWith(b, "/") then b
    else if a == [] || EndsWith(a, "/") then a + b
    else a + "/" + b
  }

  /** `join` puts a `/` between a relative `b` and `a` exactly when `a` is non-empty and does not already end in `/`. */
  lemma JoinSlash(a: string, b: string)
    requires !StartsWith(b, "/")
    ensures |Join(a, b)| == |a| + |b| + 1 <==> a != [] && !EndsWith(a, "/")
    ensures |Join(a, b)| == |a| + |b| + 1 ==> Join(a, b) == a + "/" + b
    ensures |Join(a, b)| == |a| + |b| ==> Join(a, b) == a + b
  {
  }

  /** `s.rfind(c)`: the index of the last `c` in `s`, or -1. */
  function RFind(s: string, c: char): (i: int)
    ensures -1 <= i < |s|
    ensures 0 <= i ==> s[i] == c
    ensures forall k | i < k < |s| :: s[k] != c
  {
    if s == [] then -1
    else if s[|s| - 1] == c then |s| - 1
    else RFind(s[..|s| - 1], c)
  }

  predicate AllSlashes(s: string) {
    forall k | 0 <= k < |s| :: s[k] == '/'
  }

  /** `s.rstrip('/')` */
  function RStripSlashes(s: string): (r: string)
    ensures |r| <= |s| && r == s[..|r|] && AllSlashes(s[|r|..])
    ensures r == [] || r[|r| - 1] != '/'
  {
    if s != [] && s[|s| - 1] == '/' then
      var r := RStripSlashes(s[..|s| - 1]);
      assert s[|r|..] == s[..|s| - 1][|r|..] + ['/'];
      r
    else
      s
  }

  /** `os.path.dirname(p)`: everything up to the last `/`, without trailing slashes unless it is all slashes. */
  function Dirname(p: string): string {
    var head := p[..RFind(p, '/') + 1];
    if head != [] && !AllSlashes(head) then RStripSlashes(head) else head
  }

  /** `os.path.basename(p)`: everything after the last `/`. */
  function Basename(p: string): string {
    p[RFind(p, '/') + 1..]
  }

  /**
    The root returned by `os.path.splitext(p)`: `p` cut before its last dot,
    unless that dot lies in an earlier component or only dots precede it in
    the last component (a leading-dot name has no extension).
   */
  function SplitextRoot(p: string): string {
    var sep := RFind(p, '/');
    var dot := RFind(p, '.');
    if dot > sep && exists k | sep < k < dot :: p[k] != '.' then p[..dot] else p
  }

  /** The last `c` in `a + b` when `b` has no `c`. */
  lemma {:induction false} RFindAppend(a: string, b: string, c: char)
    requires c !in b
    ensures RFind(a + b, c) == RFind(a, c)
  {
    if b == [] {
      assert a + b == a;
    } else {
      assert b[|b| - 1] in b;
      assert (a + b)[..|a + b| - 1] == a + b[..|b| - 1];
      assert forall x | x in b[..|b| - 1] :: x in b;
      RFindAppend(a, b[..|b| - 1], c);
    }
  }

  /** `dirname(join(a, b))` for a last component `b` without `/`: `a` without its trailing slashes, unless `a` is all slashes. */
  lemma DirnameOfJoin(a: string, b: string)
    requires '/' !in b
    ensures Dirname(Join(a, b)) == if AllSlashes(a) then a else RStripSlashes(a)
  {
    assert !StartsWith(b, "/") by {
      if b != [] { assert b[0] in b; }
    }
    if a == [] {
      DirnameAfterEmpty(b);
    } else if EndsWith(a, "/") {
      DirnameAfterSlash(a, b);
    } else {
      DirnameAfterName(a, b);
    }
  }

  lemma DirnameAfterEmpty(b: string)
    requires '/' !in b && !StartsWith(b, "/")
    ensures Dirname(Join([], b)) == []
  {
    assert Join([], b) == [] + b;
    RFindAppend([], b, '/');
  }

  lemma DirnameAfterSlash(a: string, b: string)
    requires '/' !in b && !StartsWith(b, "/")
    requires a != [] && EndsWith(a, "/")
    ensures Dirname(Join(a, b)) == if AllSlashes(a) then a else RStripSlashes(a)
  {
    assert a[|a| - 1] == '/';
    RFindAppend(a, b, '/');
    assert (a + b)[..|a|] == a;
  }

  lemma DirnameAfterName(a: string, b: string)
    requires '/' !in b && !StartsWith(b, "/")
    requires a != [] && !EndsWith(a, "/")
    ensures Dirname(Join(a, b)) == RStripSlashes(a)
    ensures !AllSlashes(a)
  {
    assert a[|a| - 1] != '/' by {
      assert [a[|a| - 1]] == a[|a| - 1..];
    }
    var a' := a + "/";
    assert Join(a, b) == a' + b;
    RFindAppend(a', b, '/');
    assert (a' + b)[..|a'|] == a';
    assert !AllSlashes(a');
    assert a'[..|a'| - 1] == a;
  }

  /** `basename(join(a, b)) == b` for a last component `b` without `/`. */
  lemma BasenameOfJoin(a: string, b: string)
    requires '/' !in b
    ensures Basename(Join(a, b)) == b
  {
    assert !StartsWith(b, "/") by {
      if b != [] { assert b[0] in b; }
    }
    if a == [] {
      assert Join(a, b) == [] + b;
      RFindAppend([], b, '/');
    } else if EndsWith(a, "/") {
      assert a[|a| - 1] == '/';
      RFindAppend(a, b, '/');
    } else {
      var a' := a + "/";
      assert Join(a, b) == a' + b;
      RFindAppend(a', b, '/');
    }
  }

  /** Joining a plain name onto a directory and taking `dirname` gives the directory back. */
  lemma DirnameOfJoinPlain(dir: string, name: string)
    requires dir != [] && dir[|dir| - 1] != '/'
    requires '/' !in name
    ensures Dirname(Join(dir, name)) == dir
  {
    DirnameOfJoin(dir, name);
    assert !AllSlashes(dir);
  }

  /** A path component other than "", "." and "..": `normpath` keeps it as it is. */
  predicate IsPlainComponent(c: string) {
    c != "" && c != "." && c != ".."
  }

  /** The component loop of `normpath`: drop "" and ".", let ".." cancel the previous component where it can. */
  function NormComponents(comps: seq<string>, rooted: bool, acc: seq<string>): seq<string>
    decreases |comps|
  {
    if comps == [] then
      acc
    else
      var c := comps[0];
      var next :=
        if c == "" || c == "." then acc
        else if c != ".." || (!rooted && acc == []) || (acc != [] && acc[|acc| - 1] == "..") then acc + [c]
        else if acc != [] then acc[..|acc| - 1]
        else acc;
      NormComponents(comps[1..], rooted, next)
  }

  /** `os.path.normpath(p)` on POSIX. */
  function NormPath(p: string): (r: string)
    ensures r != []
  {
    if p == [] then
      "."
    else
      var initial := if StartsWith(p, "//") && !StartsWith(p, "///") then 2 else if StartsWith(p, "/") then 1 else 0;
      var body := JoinWith(NormComponents(SplitOn(p, '/'), initial > 0, []), '/');
      var q := seq(initial, _ => '/') + body;
      if q == [] then "." else q
  }

  /** Plain components pass through the `normpath` loop unchanged. */
  lemma {:induction false} NormComponentsPlain(comps: seq<string>, rooted: bool, acc: seq<string>)
    requires forall k | 0 <= k < |comps| :: IsPlainComponent(comps[k])
    ensures NormComponents(comps, rooted, acc) == acc + comps
  {
    if comps != [] {
      NormComponentsPlain(comps[1..], rooted, acc + [comps[0]]);
      assert acc + [comps[0]] + comps[1..] == acc + comps;
    }
  }

  /** An absolute path with one leading `/` whose components are all plain: what `normpath` returns unchanged. */
  ghost predicate IsNormalAbsolute(p: string) {
    StartsWith(p, "/") && forall c | c in SplitOn(p[1..], '/') :: IsPlainComponent(c)
  }

  /** `normpath` leaves a normal absolute path as it is. */
  lemma NormPathOfNormal(p: string)
    requires IsNormalAbsolute(p)
    ensures NormPath(p) == p
  {
    var t := p[1..];
    var comps := SplitOn(t, '/');
    FirstComponent(t);
    assert p == "/" + t;
    assert !StartsWith(p, "//") by {
      assert p[1] == t[0];
    }
    RootedComponents(t);
    assert NormComponents(SplitOn(p, '/'), true, []) == comps;
    JoinSplit(t, '/');
    assert seq(1, _ => '/') == "/";
  }

  lemma FirstComponent(t: string)
    requires IsPlainComponent(SplitOn(t, '/')[0])
    ensures t != [] && t[0] != '/'
  {
  }

  lemma LastComponent(t: string)
    ensures t == [] || t[|t| - 1] == '/' ==> SplitOn(t, '/')[|SplitOn(t, '/')| - 1] == []
  {
    if t != [] && t[|t| - 1] == '/' {
      assert t == t[..|t| - 1] + ['/'] + [];
      SplitOnAppend(t[..|t| - 1], [], '/');
    }
  }

  lemma RootedComponents(t: string)
    requires forall c | c in SplitOn(t, '/') :: IsPlainComponent(c)
    ensures NormComponents(SplitOn("/" + t, '/'), true, []) == SplitOn(t, '/')
  {
    var comps := SplitOn(t, '/');
    assert "/" + t == [] + ['/'] + t;
    SplitOnAppend([], t, '/');
    assert SplitOn("/" + t, '/') == [[]] + comps;
    assert ([[]] + comps)[1..] == comps;
    NormComponentsPlain(comps, true, []);
    assert [] + comps == comps;
  }

  /** Joining a plain name onto a normal absolute path keeps it normal. */
  lemma JoinNormal(p: string, name: string)
    requires IsNormalAbsolute(p)
    requires IsPlainComponent(name) && '/' !in name
    ensures Join(p, name) == p + "/" + name
    ensures IsNormalAbsolute(Join(p, name))
  {
    var t := p[1..];
    var comps := SplitOn(t, '/');
    assert comps[|comps| - 1] in comps;
    LastComponent(t);
    assert name[0] in name;
    assert !StartsWith(name, "/");
    assert p[|p| - 1] == t[|t| - 1];
    var q := p + "/" + name;
    assert q[1..] == t + ['/'] + name;
    SplitOnAppend(t, name, '/');
    SplitOnNoSeparator(name, '/');
    assert SplitOn(q[1..], '/') == comps + [name];
  }
}
