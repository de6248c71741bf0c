/** Absolute paths as sequences of segments, and the few operations of Node's
    `path` module that the engine relies on: `basename`, `dirname`, `join`
    (as a string), `resolve` and `relative`. */
module NodePath {

  /** An absolute path: `["a", "b"]` stands for "/a/b", `[]` for "/". */
  type Path = seq<string>

  /** A segment that `readdir` can return: not empty, not "." or "..", no separator. */
  predicate NormalSegment(s: string) {
    s != "" && s != "." && s != ".." && '/' !in s
  }

  predicate NormalPath(p: Path) {
    forall i :: 0 <= i < |p| ==> NormalSegment(p[i])
  }

  /** The segments joined with "/" ("a/b"; "" for no segment). */
  function Join(p: Path): string {
    if p == [] then ""
    else if |p| == 1 then p[0]
    else p[0] + "/" + Join(p[1..])
  }

  /** The absolute path as a string ("/a/b"; "/" for the root). */
  function PathString(p: Path): string {
    "/" + Join(p)
  }

  /** `path.basename` */
  function BaseName(p: Path): string {
    if p == [] then "" else p[|p| - 1]
  }

  /** `path.dirname` */
  function Parent(p: Path): (r: Path)
    ensures p != [] ==> r + [BaseName(p)] == p
  {
    if p == [] then [] else p[..|p| - 1]
  }

  /** Neither path lies inside the other. */
  predicate Separate(p: Path, q: Path) {
    !(p <= q) && !(q <= p)
  }

  /** The string cut at every "/" ("a//b" gives ["a", "", "b"], "/a" gives ["", "a"]). */
  function Split(s: string): (r: seq<string>)
    ensures |r| >= 1
  {
    if s == [] then [""]
    else
      var rest := Split(s[1..]);
      if s[0] == '/' then [""] + rest
      else [[s[0]] + rest[0]] + rest[1..]
  }

  /** Applies the segments to `acc` the way `path.resolve` does: empty
      segments and "." are skipped, ".." goes up (never above the root). */
  function Normalize(acc: Path, segs: seq<string>): Path
    decreases |segs|
  {
    if segs == [] then acc
    else
      var s := segs[0];
      var next := if s == "" || s == "." then acc
                  else if s == ".." then Parent(acc)
                  else acc + [s];
      Normalize(next, segs[1..])
  }

  /** `path.resolve(base, s)` for an absolute `base`. */
  function Resolve(base: Path, s: string): Path {
    if |s| > 0 && s[0] == '/' then Normalize([], Split(s)) else Normalize(base, Split(s))
  }

  function CommonPrefixLength(a: Path, b: Path): (n: nat)
    ensures n <= |a| && n <= |b| && a[..n] == b[..n]
    ensures n < |a| && n < |b| ==> a[n] != b[n]
  {
    if a == [] || b == [] || a[0] != b[0] then 0
    else
      var n := CommonPrefixLength(a[1..], b[1..]);
      assert a[1..][..n] == b[1..][..n];
      assert a[..n + 1] == [a[0]] + a[1..][..n];
      assert b[..n + 1] == [b[0]] + b[1..][..n];
      1 + n
  }

  function Ups(n: nat): (r: seq<string>)
    ensures |r| == n && forall i :: 0 <= i < n ==> r[i] == ".."
  {
    if n == 0 then [] else [".."] + Ups(n - 1)
  }

  /** `path.relative(from, to)` as segments. */
  function Relative(from: Path, to: Path): seq<string> {
    var c := CommonPrefixLength(from, to);
    Ups(|from| - c) + to[c..]
  }

  lemma {:induction false} RelativeInside(from: Path, to: Path)
    requires from <= to
    ensures Relative(from, to) == to[|from|..]
  {
    var c := CommonPrefixLength(from, to);
    assert c == |from|;
  }

  lemma {:induction false} SplitNoSlash(a: string)
    requires '/' !in a
    ensures Split(a) == [a]
  {
    if a != [] {
      SplitNoSlash(a[1..]);
      assert [a[0]] + a[1..] == a;
    }
  }

  lemma {:induction false} SplitCons(a: string, b: string)
    requires '/' !in a
    ensures Split(a + "/" + b) == [a] + Split(b)
  {
    if a == [] {
      assert a + "/" + b == "/" + b;
      assert ("/" + b)[1..] == b;
    } else {
      assert (a + "/" + b)[1..] == a[1..] + "/" + b;
      SplitCons(a[1..], b);
      assert [a[0]] + a[1..] == a;
    }
  }

  lemma {:induction false} SplitJoin(q: Path)
    requires q != [] && NormalPath(q)
    ensures Split(Join(q)) == q
  {
    if |q| == 1 {
      SplitNoSlash(q[0]);
    } else {
      assert NormalSegment(q[0]);
      SplitCons(q[0], Join(q[1..]));
      SplitJoin(q[1..]);
    }
  }

  lemma {:induction false} NormalizeAppend(acc: Path, q: Path)
    requires NormalPath(q)
    ensures Normalize(acc, q) == acc + q
    decreases |q|
  {
    if q != [] {
      assert NormalSegment(q[0]);
      NormalizeAppend(acc + [q[0]], q[1..]);
      assert acc + [q[0]] + q[1..] == acc + q;
    }
  }

  /** Resolving the string of a normal absolute path gives that path back,
      whatever the base. */
  lemma ResolvePathString(base: Path, q: Path)
    requires NormalPath(q)
    ensures Resolve(base, PathString(q)) == q
  {
    var s := PathString(q);
    assert s[0] == '/';
    assert s[1..] == Join(q);
    if q == [] {
      assert s == "/" && s[1..] == "";
      assert Split(s) == ["", ""];
      assert Normalize([], ["", ""]) == Normalize([], [""]);
    } else {
      SplitJoin(q);
      NormalizeAppend([], q);
    }
  }

  /** Resolving a normal segment against a directory names the child. */
  lemma ResolveChild(base: Path, name: string)
    requires NormalSegment(name)
    ensures Resolve(base, name) == base + [name]
  {
    SplitNoSlash(name);
    NormalizeAppend(base, [name]);
  }

  /** The string of a child path is the parent's string, a "/" (none after
      the root) and the name. */
  lemma {:induction false} PathStringChild(p: Path, name: string)
    ensures PathString(p + [name]) == (if p == [] then "/" else PathString(p) + "/") + name
  {
    JoinSnoc(p, name);
  }

  lemma {:induction false} JoinSnoc(p: Path, name: string)
    ensures Join(p + [name]) == (if p == [] then "" else Join(p) + "/") + name
  {
    if |p| == 1 {
      assert p + [name] == [p[0], name];
    } else if |p| > 1 {
      assert (p + [name])[1..] == p[1..] + [name];
      JoinSnoc(p[1..], name);
    }
  }
}
