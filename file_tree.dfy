/** The file system the engine works on: a tree of directories and text files,
    the operations of `fs` and `shelljs` the engine calls, and the order in
    which `fs.readdirSync` lists a directory. */
module FileTree {
  import opened Wrappers
  import opened NodePath

  datatype Node = File(content: string) | Dir(entries: map<string, Node>)

  /** The entry at `p` below `n`, if any (`fs.existsSync` / `fs.statSync`). */
  function Get(n: Node, p: Path): Option<Node>
    decreases |p|
  {
    if p == [] then Some(n)
    else match n
      case File(_) => None
      case Dir(es) => if p[0] in es then Get(es[p[0]], p[1..]) else None
  }

  predicate IsDir(n: Node, p: Path) {
    Get(n, p).Some? && Get(n, p).value.Dir?
  }

  predicate IsFile(n: Node, p: Path) {
    Get(n, p).Some? && Get(n, p).value.File?
  }

  /** The tree with the entry at `p` created or replaced by `o.value`, or
      removed when `o` is None; the tree is unchanged when the parent of `p`
      is not a directory. The root itself is never replaced. */
  function Place(n: Node, p: Path, o: Option<Node>): Node
    decreases |p|
  {
    if p == [] then n
    else match n
      case File(_) => n
      case Dir(es) =>
        if |p| == 1 then (if o.Some? then Dir(es[p[0] := o.value]) else Dir(es - {p[0]}))
        else if p[0] in es then Dir(es[p[0] := Place(es[p[0]], p[1..], o)])
        else n
  }

  /** `mkdir -p`: creates the missing directories along `p`; it stops at the
      first file in the way. */
  function Mkdirp(n: Node, p: Path): Node
    decreases |p|
  {
    if p == [] then n
    else match n
      case File(_) => n
      case Dir(es) =>
        var child := if p[0] in es then es[p[0]] else Dir(map[]);
        if child.File? then n else Dir(es[p[0] := Mkdirp(child, p[1..])])
  }

  /** `shell.rm(p)` without `-r`: removes a file, leaves a directory alone. */
  function RemovedFile(n: Node, p: Path): Node {
    if IsFile(n, p) then Place(n, p, None) else n
  }

  /** `s` copied over `d` the way `cp -r` merges: directories are merged entry
      by entry, a file replaces a file, and on a clash of kinds the existing
      entry stays. */
  function Union(d: Node, s: Node): Node
    decreases s
  {
    match (d, s)
    case (Dir(de), Dir(se)) =>
      Dir(map k | k in de.Keys + se.Keys ::
        if k in se then (if k in de then Union(de[k], se[k]) else se[k]) else de[k])
    case (File(_), File(_)) => s
    case _ => d
  }

  /** Where `cp` puts an entry named `name` copied to `dest`: inside `dest`
      when `dest` is a directory, at `dest` otherwise. */
  function CopyTarget(n: Node, dest: Path, name: string): Path {
    if IsDir(n, dest) then dest + [name] else dest
  }

  function CopyNode(n: Node, x: Node, dest: Path, name: string): Node {
    var t := CopyTarget(n, dest, name);
    var e := Get(n, t);
    Place(n, t, Some(if e.Some? then Union(e.value, x) else x))
  }

  /** `shell.cp(src, dest)`, or `shell.cp("-r", src, dest)` when `recursive`:
      a directory is only copied with `-r`. */
  function Cp(n: Node, src: Path, dest: Path, recursive: bool): Node {
    match Get(n, src)
    case None => n
    case Some(x) => if x.File? || recursive then CopyNode(n, x, dest, BaseName(src)) else n
  }

  /** A name the shell glob `*` does not match. */
  predicate Hidden(name: string) {
    |name| > 0 && name[0] == '.'
  }

  /** The entries of a directory that the glob `*` matches. */
  function Visible(es: map<string, Node>): map<string, Node> {
    map k | k in es && !Hidden(k) :: es[k]
  }

  /** `shell.cp("-r", ...)` of the directory `src` globbed with `*` into the
      directory `dst`: the visible entries are copied, merging with what is
      there; hidden entries are not matched by the glob. */
  function CopyChildren(n: Node, src: Path, dst: Path): Node {
    match Get(n, src)
    case Some(Dir(es)) =>
      if IsDir(n, dst) then Place(n, dst, Some(Union(Get(n, dst).value, Dir(Visible(es))))) else n
    case _ => n
  }

  /** The number of names `shell.ls("-A", p)` prints: none for a missing
      path, the path itself for a file, every entry of a directory. */
  function LsCount(n: Node, p: Path): nat {
    match Get(n, p)
    case None => 0
    case Some(File(_)) => 1
    case Some(Dir(es)) => |es|
  }

  // ----- order of a directory listing -----

  /** `a` sorts before `b` in a `readdir` listing: byte order of the UTF-8
      encodings, which is the order of the code points. */
  predicate Below(a: string, b: string) {
    if a == [] then b != []
    else if b == [] then false
    else if a[0] == b[0] then Below(a[1..], b[1..])
    else a[0] < b[0]
  }

  predicate StrictlySorted(s: seq<string>) {
    forall i, j :: 0 <= i < j < |s| ==> Below(s[i], s[j])
  }

  lemma {:induction false} BelowIrreflexive(a: string)
    ensures !Below(a, a)
  {
    if a != [] {
      BelowIrreflexive(a[1..]);
    }
  }

  lemma {:induction false} BelowTransitive(a: string, b: string, c: string)
    requires Below(a, b) && Below(b, c)
    ensures Below(a, c)
  {
    if a != [] && b != [] && c != [] && a[0] == b[0] && b[0] == c[0] {
      BelowTransitive(a[1..], b[1..], c[1..]);
    }
  }

  lemma {:induction false} BelowTotal(a: string, b: string)
    requires a != b
    ensures Below(a, b) || Below(b, a)
  {
    if a != [] && b != [] && a[0] == b[0] {
      assert a == [a[0]] + a[1..] && b == [b[0]] + b[1..];
      BelowTotal(a[1..], b[1..]);
    }
  }

  /** Every finite non-empty set of names has a first one. */
  lemma {:induction false} FirstOf(s: set<string>) returns (m: string)
    requires s != {}
    ensures m in s && forall x :: x in s && x != m ==> Below(m, x)
  {
    var y :| y in s;
    if s == {y} {
      return y;
    }
    var m' := FirstOf(s - {y});
    BelowTotal(y, m');
    if Below(y, m') {
      forall x | x in s && x != y
        ensures Below(y, x)
      {
        if x != m' {
          BelowTransitive(y, m', x);
        }
      }
      return y;
    }
    return m';
  }

  /** A listing names every entry once. */
  lemma SortedDistinct(s: seq<string>, i: int)
    requires StrictlySorted(s) && 0 <= i < |s|
    ensures s[i] !in s[..i]
    ensures s[i] !in (set j | 0 <= j < i :: s[j])
  {
    if s[i] in s[..i] {
      var j :| 0 <= j < i && s[j] == s[i];
      BelowIrreflexive(s[i]);
    }
    forall j | 0 <= j < i
      ensures s[j] != s[i]
    {
      assert s[..i][j] == s[j];
    }
  }

  /** The names of a listing's first `i + 1` entries. */
  lemma PrefixSetStep(s: seq<string>, i: int)
    requires 0 <= i < |s|
    ensures (set j | 0 <= j < i + 1 :: s[j]) == (set j | 0 <= j < i :: s[j]) + {s[i]}
  {
  }

  // ----- facts about Get, Place and Mkdirp -----

  lemma {:induction false} GetAppend(n: Node, p: Path, q: Path)
    ensures Get(n, p + q) == (if Get(n, p).Some? then Get(Get(n, p).value, q) else None)
    decreases |p|
  {
    if p != [] {
      assert p + q != [];
      assert (p + q)[0] == p[0] && (p + q)[1..] == p[1..] + q;
      if n.Dir? && p[0] in n.entries {
        GetAppend(n.entries[p[0]], p[1..], q);
      }
    } else {
      assert p + q == q;
    }
  }

  /** After placing `o` at `p`, what lies at or below `p` is `o`'s. */
  lemma {:induction false} PlaceBelow(n: Node, p: Path, o: Option<Node>, q: Path)
    requires p != [] && IsDir(n, Parent(p)) && p <= q
    ensures Get(Place(n, p, o), q) == (if o.Some? then Get(o.value, q[|p|..]) else None)
    decreases |p|
  {
    if |p| == 1 {
      assert q[1..] == q[|p|..];
    } else {
      assert Parent(p) == [p[0]] + Parent(p[1..]);
      GetAppend(n, [p[0]], Parent(p[1..]));
      assert q[|p|..] == q[1..][|p[1..]|..];
      PlaceBelow(n.entries[p[0]], p[1..], o, q[1..]);
    }
  }

  /** Placing at `p` leaves every path outside `p` that does not lead to it alone. */
  lemma {:induction false} PlaceElsewhere(n: Node, p: Path, o: Option<Node>, q: Path)
    requires Separate(p, q)
    ensures Get(Place(n, p, o), q) == Get(n, q)
    decreases |p|
  {
    if |p| > 1 && n.Dir? && p[0] in n.entries && q[0] == p[0] {
      PlaceElsewhere(n.entries[p[0]], p[1..], o, q[1..]);
    }
  }

  /** A directory on the way to `p` stays a directory. */
  lemma {:induction false} PlaceAbove(n: Node, p: Path, o: Option<Node>, q: Path)
    requires q < p
    ensures IsDir(Place(n, p, o), q) == IsDir(n, q)
    decreases |p|
  {
    if q != [] && n.Dir? && p[0] in n.entries && |p| > 1 && q[0] == p[0] {
      PlaceAbove(n.entries[p[0]], p[1..], o, q[1..]);
    }
  }

  /** No file sits at `p` or at any directory on the way to it. */
  predicate NoFileOn(n: Node, p: Path) {
    forall i :: 0 <= i <= |p| ==> !IsFile(n, p[..i])
  }

  /** `mkdir -p` leaves a directory at `p` exactly when no file is in its way. */
  lemma {:induction false} MkdirpMakesDir(n: Node, p: Path)
    requires n.Dir?
    ensures IsDir(Mkdirp(n, p), p) <==> NoFileOn(n, p)
    decreases |p|
  {
    if p != [] {
      var es := n.entries;
      var child := if p[0] in es then es[p[0]] else Dir(map[]);
      if child.File? {
        assert p[..1] == [p[0]];
        assert IsFile(n, p[..1]);
        GetAppend(n, [p[0]], p[1..]);
        assert [p[0]] + p[1..] == p;
      } else {
        MkdirpMakesDir(child, p[1..]);
        GetCons(Mkdirp(n, p), p[0], p[1..]);
        assert [p[0]] + p[1..] == p;
        if p[0] in es {
          if NoFileOn(n, p) {
            forall j | 0 <= j <= |p[1..]|
              ensures !IsFile(child, p[1..][..j])
            {
              assert p[..j + 1] == [p[0]] + p[1..][..j];
              GetCons(n, p[0], p[1..][..j]);
              assert !IsFile(n, p[..j + 1]);
            }
          }
          if NoFileOn(child, p[1..]) {
            forall i | 0 <= i <= |p|
              ensures !IsFile(n, p[..i])
            {
              if i > 0 {
                assert p[..i] == [p[0]] + p[1..][..i - 1];
                GetCons(n, p[0], p[1..][..i - 1]);
                assert !IsFile(child, p[1..][..i - 1]);
              }
            }
          }
        } else {
          assert NoFileOn(n, p) by {
            forall i | 0 <= i <= |p| ensures !IsFile(n, p[..i]) {
              if i > 0 {
                assert p[..i][0] == p[0];
              }
            }
          }
          assert NoFileOn(Dir(map[]), p[1..]) by {
            forall i | 0 <= i <= |p[1..]| ensures !IsFile(Dir(map[]), p[1..][..i]) {
              if i > 0 {
                assert p[1..][..i][0] == p[1];
              }
            }
          }
        }
      }
    }
  }

  lemma GetCons(n: Node, a: string, r: Path)
    requires n.Dir? && a in n.entries
    ensures Get(n, [a] + r) == Get(n.entries[a], r)
  {
    assert ([a] + r)[0] == a && ([a] + r)[1..] == r;
  }

  /** `mkdir -p p` changes nothing at a path that is not on the way to `p`. */
  lemma {:induction false} MkdirpElsewhere(n: Node, p: Path, q: Path)
    requires !(q <= p)
    ensures Get(Mkdirp(n, p), q) == Get(n, q)
    decreases |p|
  {
    if p != [] && n.Dir? && q[0] == p[0] {
      var child := if p[0] in n.entries then n.entries[p[0]] else Dir(map[]);
      if child.Dir? {
        MkdirpElsewhere(child, p[1..], q[1..]);
        if p[0] !in n.entries {
          EmptyDirHasNothingBelow(q[1..]);
        }
      }
    }
  }

  lemma EmptyDirHasNothingBelow(q: Path)
    requires q != []
    ensures Get(Dir(map[]), q) == None
  {
  }

  /** What `mkdir -p p` leaves at `p` when no file is in the way: the
      directory that was there, or a new empty one. */
  lemma {:induction false} MkdirpAt(n: Node, p: Path)
    requires n.Dir? && NoFileOn(n, p)
    ensures Get(Mkdirp(n, p), p) == Some(if IsDir(n, p) then Get(n, p).value else Dir(map[]))
    decreases |p|
  {
    if p != [] {
      var es := n.entries;
      assert p[..1] == [p[0]];
      var child := if p[0] in es then es[p[0]] else Dir(map[]);
      assert !child.File? by {
        if p[0] in es {
          GetCons(n, p[0], []);
          assert [p[0]] + [] == p[..1];
        }
      }
      GetCons(Mkdirp(n, p), p[0], p[1..]);
      assert [p[0]] + p[1..] == p;
      if p[0] in es {
        GetCons(n, p[0], p[1..]);
        assert NoFileOn(child, p[1..]) by {
          forall j | 0 <= j <= |p[1..]|
            ensures !IsFile(child, p[1..][..j])
          {
            assert p[..j + 1] == [p[0]] + p[1..][..j];
            GetCons(n, p[0], p[1..][..j]);
            assert !IsFile(n, p[..j + 1]);
          }
        }
        MkdirpAt(child, p[1..]);
      } else {
        assert NoFileOn(Dir(map[]), p[1..]) by {
          forall i | 0 <= i <= |p[1..]| ensures !IsFile(Dir(map[]), p[1..][..i]) {
            if i > 0 {
              assert p[1..][..i][0] == p[1];
            }
          }
        }
        MkdirpAt(Dir(map[]), p[1..]);
        if p[1..] != [] {
          EmptyDirHasNothingBelow(p[1..]);
        }
      }
    }
  }

  /** Every path on the way to an existing entry is a directory. */
  lemma {:induction false} AncestorIsDir(n: Node, p: Path, q: Path)
    requires Get(n, p).Some? && q < p
    ensures IsDir(n, q)
    decreases |q|
  {
    if q != [] {
      AncestorIsDir(n.entries[p[0]], p[1..], q[1..]);
    }
  }

  /** `mkdir -p p` keeps every directory on the way to `p` a directory. */
  lemma {:induction false} MkdirpKeepsDirs(n: Node, p: Path, q: Path)
    requires q <= p && IsDir(n, q)
    ensures IsDir(Mkdirp(n, p), q)
    decreases |p|
  {
    if q != [] {
      MkdirpKeepsDirs(n.entries[p[0]], p[1..], q[1..]);
    }
  }

  /** Removing what is not there changes nothing. */
  lemma {:induction false} PlaceAbsent(n: Node, p: Path)
    requires Get(n, p).None?
    ensures Place(n, p, None) == n
    decreases |p|
  {
    if n.Dir? {
      var es := n.entries;
      if |p| == 1 {
        assert es - {p[0]} == es;
      } else if p[0] in es {
        PlaceAbsent(es[p[0]], p[1..]);
        assert es[p[0] := es[p[0]]] == es;
      }
    }
  }

  /** Putting back what is there changes nothing. */
  lemma {:induction false} PlaceSame(n: Node, p: Path)
    requires Get(n, p).Some?
    ensures Place(n, p, Some(Get(n, p).value)) == n
    decreases |p|
  {
    if p != [] && n.Dir? {
      var es := n.entries;
      if |p| > 1 {
        PlaceSame(es[p[0]], p[1..]);
      }
      assert es[p[0] := es[p[0]]] == es;
    }
  }

  /** Placing twice at the same path keeps only the second. */
  lemma {:induction false} PlaceTwice(n: Node, p: Path, a: Option<Node>, b: Option<Node>)
    ensures Place(Place(n, p, a), p, b) == Place(n, p, b)
    decreases |p|
  {
    if p != [] && n.Dir? {
      var es := n.entries;
      if |p| == 1 {
        if a.Some? && b.Some? {
          assert es[p[0] := a.value][p[0] := b.value] == es[p[0] := b.value];
        } else if a.Some? {
          assert es[p[0] := a.value] - {p[0]} == es - {p[0]};
        } else if b.Some? {
          assert (es - {p[0]})[p[0] := b.value] == es[p[0] := b.value];
        } else {
          assert es - {p[0]} - {p[0]} == es - {p[0]};
        }
      } else if p[0] in es {
        PlaceTwice(es[p[0]], p[1..], a, b);
        assert es[p[0] := Place(es[p[0]], p[1..], a)][p[0] := Place(Place(es[p[0]], p[1..], a), p[1..], b)]
            == es[p[0] := Place(es[p[0]], p[1..], b)];
      }
    }
  }

  /** `mkdir -p` of an existing directory changes nothing. */
  lemma {:induction false} MkdirpExisting(n: Node, p: Path)
    requires IsDir(n, p)
    ensures Mkdirp(n, p) == n
    decreases |p|
  {
    if p != [] {
      var es := n.entries;
      assert [p[0]] + p[1..] == p;
      GetCons(n, p[0], p[1..]);
      MkdirpExisting(es[p[0]], p[1..]);
      assert es[p[0] := es[p[0]]] == es;
    }
  }

  /** `mkdir -p` of a missing entry in an existing directory adds an empty
      directory there. */
  lemma {:induction false} MkdirpNew(n: Node, p: Path)
    requires p != [] && IsDir(n, Parent(p)) && Get(n, p).None?
    ensures Mkdirp(n, p) == Place(n, p, Some(Dir(map[])))
    decreases |p|
  {
    if |p| > 1 {
      assert Parent(p) == [p[0]] + Parent(p[1..]);
      GetCons(n, p[0], Parent(p[1..]));
      GetCons(n, p[0], p[1..]);
      assert [p[0]] + p[1..] == p;
      MkdirpNew(n.entries[p[0]], p[1..]);
    }
  }

  /** Placing inside a directory just placed is placing the changed directory. */
  lemma {:induction false} PlaceNested(n: Node, p: Path, m: map<string, Node>, c: string, o: Option<Node>)
    requires p != [] && IsDir(n, Parent(p))
    ensures Place(Place(n, p, Some(Dir(m))), p + [c], o)
         == Place(n, p, Some(Dir(if o.Some? then m[c := o.value] else m - {c})))
    decreases |p|
  {
    assert (p + [c])[0] == p[0] && (p + [c])[1..] == p[1..] + [c];
    if |p| > 1 {
      assert Parent(p) == [p[0]] + Parent(p[1..]);
      GetCons(n, p[0], Parent(p[1..]));
      PlaceNested(n.entries[p[0]], p[1..], m, c, o);
    }
  }

  /** Paths apart stay apart when one of them goes deeper. */
  lemma SeparateExtend(p: Path, q: Path, c: string)
    requires Separate(p, q)
    ensures Separate(p + [c], q) && Separate(q, p + [c])
  {
    assert p <= p + [c];
  }

  /** Every directory on the way down from `n` ends within `d` levels. */
  predicate DepthBelow(n: Node, d: nat) {
    match n
    case File(_) => true
    case Dir(es) => d > 0 && forall k :: k in es ==> DepthBelow(es[k], d - 1)
  }

  lemma {:induction false} DepthBelowMore(n: Node, d: nat, e: nat)
    requires DepthBelow(n, d) && d <= e
    ensures DepthBelow(n, e)
    decreases n
  {
    if n.Dir? {
      forall k | k in n.entries ensures DepthBelow(n.entries[k], e - 1) {
        DepthBelowMore(n.entries[k], d - 1, e - 1);
      }
    }
  }

  /** Every tree is finitely deep. */
  lemma {:induction false} FiniteDepth(n: Node) returns (d: nat)
    ensures DepthBelow(n, d)
    decreases n, 1
  {
    if n.File? {
      return 0;
    }
    var e := FiniteDepthOf(n, n.entries.Keys);
    d := e + 1;
  }

  lemma {:induction false} FiniteDepthOf(n: Node, ks: set<string>) returns (d: nat)
    requires n.Dir? && ks <= n.entries.Keys
    ensures forall k :: k in ks ==> DepthBelow(n.entries[k], d)
    decreases n, 0, |ks|
  {
    if ks == {} {
      return 0;
    }
    var k :| k in ks;
    var d1 := FiniteDepth(n.entries[k]);
    var d2 := FiniteDepthOf(n, ks - {k});
    d := if d1 < d2 then d2 else d1;
    DepthBelowMore(n.entries[k], d1, d);
    forall k' | k' in ks - {k} ensures DepthBelow(n.entries[k'], d) {
      DepthBelowMore(n.entries[k'], d2, d);
    }
  }

  // ----- the file system object -----

  /** The file system as the engine sees it; every call below stands for one
      `fs` or `shelljs` call and changes `root` as the function beside it says. */
  class FileSystem {
    var root: Node

    constructor (root: Node)
      ensures this.root == root
    {
      this.root := root;
    }

    /** `fs.readdirSync(p)`: the names in the directory, in `readdir` order;
        None when `p` is not a directory (the call throws). */
    method ReadDir(p: Path) returns (r: Option<seq<string>>)
      ensures r.None? <==> !IsDir(root, p)
      ensures r.Some? ==> StrictlySorted(r.value)
      ensures r.Some? ==> forall x :: x in r.value <==> x in Get(root, p).value.entries
    {
      var entry := Get(root, p);
      if entry.None? || entry.value.File? {
        return None;
      }
      var remaining := entry.value.entries.Keys;
      var names: seq<string> := [];
      while remaining != {}
        invariant StrictlySorted(names)
        invariant forall x :: x in entry.value.entries <==> x in names || x in remaining
        invariant forall i, y :: 0 <= i < |names| && y in remaining ==> Below(names[i], y)
        decreases |remaining|
      {
        ghost var first := FirstOf(remaining);
        var m :| m in remaining && forall x :: x in remaining && x != m ==> Below(m, x);
        names := names + [m];
        remaining := remaining - {m};
      }
      return Some(names);
    }

    method MakeDirs(p: Path)
      modifies this
      ensures root == Mkdirp(old(root), p)
    {
      root := Mkdirp(root, p);
    }

    /** `shell.rm("-rf", p)` */
    method Remove(p: Path)
      modifies this
      ensures root == Place(old(root), p, None)
    {
      root := Place(root, p, None);
    }

    /** `shell.rm(p)` */
    method RemoveFile(p: Path)
      modifies this
      ensures root == RemovedFile(old(root), p)
    {
      root := RemovedFile(root, p);
    }

    /** `fs.unlinkSync(p)` followed by `fs.writeFileSync(p, content)`; a
        failing unlink (no file at `p`) skips the write. */
    method Rewrite(p: Path, content: string)
      modifies this
      ensures root == if IsFile(old(root), p) then Place(old(root), p, Some(File(content))) else old(root)
    {
      if IsFile(root, p) {
        root := Place(root, p, Some(File(content)));
      }
    }

    method Copy(src: Path, dest: Path, recursive: bool)
      modifies this
      ensures root == Cp(old(root), src, dest, recursive)
    {
      root := Cp(root, src, dest, recursive);
    }

    method CopyEntries(src: Path, dst: Path)
      modifies this
      ensures root == CopyChildren(old(root), src, dst)
    {
      root := CopyChildren(root, src, dst);
    }
  }
}
