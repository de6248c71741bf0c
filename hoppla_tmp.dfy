/** The first step of a run (lib/hoppla.js `createTmpDir` and
    `copyToTmpRecursive`): the template is copied into a working copy under
    the destination, leaving out every entry whose path relative to the
    working copy matches one of the `excludeGlobs`, and all that lies below
    it. */
module HopplaTmp {
  import opened Wrappers
  import opened Errors
  import opened JsValues
  import opened NodePath
  import opened FileTree
  import opened Externals
  import opened ConfigStore
  import opened Paths

  /** `micromatch([rel], globs).length > 0` as a predicate on `rel`. */
  function MatchedBy(or: Oracles, globs: JsValue): string -> bool {
    s => or.matches(s, globs)
  }

  /** The working copy of the entry `x` whose path relative to the working
      copy of the template is `rel`: nothing when `rel` is excluded, and
      otherwise the entry with its excluded descendants left out. */
  function Pruned(x: Node, rel: seq<string>, excluded: string -> bool): Option<Node>
    decreases x
  {
    if excluded(Join(rel)) then None
    else match x
      case File(c) => Some(File(c))
      case Dir(es) =>
        Some(Dir(map k | k in es && Pruned(es[k], rel + [k], excluded).Some?
                   :: Pruned(es[k], rel + [k], excluded).value))
  }

  /** The entries of the directory `es` named in `done`, pruned. */
  function PrunedPart(es: map<string, Node>, done: set<string>, rel: seq<string>, excluded: string -> bool)
    : map<string, Node>
  {
    map k | k in done && k in es && Pruned(es[k], rel + [k], excluded).Some?
      :: Pruned(es[k], rel + [k], excluded).value
  }

  /** An entry is in the working copy exactly when it is in the template and
      neither its relative path nor that of a directory above it is
      excluded; a file keeps its content. */
  lemma {:induction false} PrunedPaths(x: Node, rel: seq<string>, excluded: string -> bool, q: Path)
    ensures
      var p := Pruned(x, rel, excluded);
      (p.Some? && Get(p.value, q).Some?)
        <==> (Get(x, q).Some? && forall i :: 0 <= i <= |q| ==> !excluded(Join(rel + q[..i])))
    ensures
      var p := Pruned(x, rel, excluded);
      p.Some? && Get(p.value, q).Some? && Get(p.value, q).value.File? ==> Get(p.value, q) == Get(x, q)
    decreases |q|
  {
    var p := Pruned(x, rel, excluded);
    if q == [] {
      assert rel + q[..0] == rel;
    } else if x.Dir? && q[0] in x.entries {
      var a := q[0];
      var child := x.entries[a];
      PrunedPaths(child, rel + [a], excluded, q[1..]);
      forall i | 0 <= i <= |q[1..]|
        ensures rel + q[..i + 1] == rel + [a] + q[1..][..i]
      {
        assert q[..i + 1] == [a] + q[1..][..i];
      }
      assert rel + q[..0] == rel;
      if (Get(x, q).Some? && forall i :: 0 <= i <= |q| ==> !excluded(Join(rel + q[..i]))) {
        assert forall i :: 0 <= i <= |q[1..]| ==> !excluded(Join(rel + [a] + q[1..][..i])) by {
          forall i | 0 <= i <= |q[1..]| ensures !excluded(Join(rel + [a] + q[1..][..i])) {
            assert !excluded(Join(rel + q[..i + 1]));
          }
        }
      }
      if p.Some? && Get(p.value, q).Some? {
        forall i | 0 <= i <= |q| ensures !excluded(Join(rel + q[..i])) {
          if i > 0 {
            assert rel + q[..i] == rel + [a] + q[1..][..i - 1];
          }
        }
      }
    }
  }

  /** The pruned entries of a whole directory are those of its pruned copy. */
  lemma PrunedPartAll(es: map<string, Node>, rel: seq<string>, excluded: string -> bool)
    requires !excluded(Join(rel))
    ensures Pruned(Dir(es), rel, excluded) == Some(Dir(PrunedPart(es, es.Keys, rel, excluded)))
  {
    var a := Pruned(Dir(es), rel, excluded).value.entries;
    var b := PrunedPart(es, es.Keys, rel, excluded);
    assert a.Keys == b.Keys;
    assert forall k :: k in a ==> a[k] == b[k];
  }

  /** One turn of the copy loop: the entry `name` can be copied into the
      directory being filled, and copying it extends what is filled. */
  lemma CopyStep(start: Node, source: Path, dAndS: Path, es: map<string, Node>, done: set<string>,
                 name: string, rel: seq<string>, excluded: string -> bool)
    requires Separate(source, dAndS) && IsDir(start, Parent(dAndS)) && dAndS != []
    requires Get(start, source) == Some(Dir(es)) && name in es && name !in done
    ensures
      var cur := Place(start, dAndS, Some(Dir(PrunedPart(es, done, rel, excluded))));
      && Separate(source + [name], dAndS + [name])
      && IsDir(cur, dAndS) && Get(cur, dAndS + [name]).None?
      && Get(cur, source + [name]) == Some(es[name])
    ensures
      var cur := Place(start, dAndS, Some(Dir(PrunedPart(es, done, rel, excluded))));
      var next := Place(start, dAndS, Some(Dir(PrunedPart(es, done + {name}, rel, excluded))));
      && Place(cur, dAndS + [name], Pruned(es[name], rel + [name], excluded)) == next
      && Get(next, source) == Some(Dir(es))
  {
    var m := PrunedPart(es, done, rel, excluded);
    var o := Pruned(es[name], rel + [name], excluded);
    EntryFree(start, source, dAndS, es, m, name);
    PlaceNested(start, dAndS, m, name, o);
    var m' := PrunedPart(es, done + {name}, rel, excluded);
    PrunedPartStep(es, done, name, rel, excluded);
    PlaceElsewhere(start, dAndS, Some(Dir(m')), source);
  }

  /** In the directory being filled, an entry not filled yet is free, and
      its source is where it was. */
  lemma EntryFree(start: Node, source: Path, dAndS: Path, es: map<string, Node>, m: map<string, Node>,
                  name: string)
    requires Separate(source, dAndS) && IsDir(start, Parent(dAndS)) && dAndS != []
    requires Get(start, source) == Some(Dir(es)) && name in es && name !in m
    ensures
      var cur := Place(start, dAndS, Some(Dir(m)));
      && Separate(source + [name], dAndS + [name])
      && IsDir(cur, dAndS) && Get(cur, dAndS + [name]).None?
      && Get(cur, source + [name]) == Some(es[name])
  {
    var cur := Place(start, dAndS, Some(Dir(m)));
    SeparateExtend(source, dAndS, name);
    SeparateExtend(dAndS, source + [name], name);
    PlaceBelow(start, dAndS, Some(Dir(m)), dAndS);
    PlaceBelow(start, dAndS, Some(Dir(m)), dAndS + [name]);
    assert (dAndS + [name])[|dAndS|..] == [name];
    PlaceElsewhere(start, dAndS, Some(Dir(m)), source);
    GetAppend(cur, source, [name]);
  }

  /** Filling one more entry. */
  lemma PrunedPartStep(es: map<string, Node>, done: set<string>, name: string, rel: seq<string>,
                       excluded: string -> bool)
    requires name in es && name !in done
    ensures name !in PrunedPart(es, done, rel, excluded)
    ensures
      var m := PrunedPart(es, done, rel, excluded);
      var o := Pruned(es[name], rel + [name], excluded);
      PrunedPart(es, done + {name}, rel, excluded) == (if o.Some? then m[name := o.value] else m - {name})
  {
  }

  /** Before a turn of the copy loop, the entry `name` meets the conditions
      under which its copy is exact, and after it what is filled has grown
      by that entry. */
  lemma ChildReady(start: Node, templateTmpDir: Path, source: Path, dAndS: Path, es: map<string, Node>,
                   done: set<string>, name: string, rel: seq<string>, excluded: string -> bool, fuel: nat)
    requires Separate(source, dAndS) && IsDir(start, Parent(dAndS)) && dAndS != []
    requires templateTmpDir <= dAndS && rel == dAndS[|templateTmpDir|..]
    requires Get(start, source) == Some(Dir(es)) && name in es && name !in done
    requires DepthBelow(Dir(es), fuel + 1)
    ensures
      var cur := Place(start, dAndS, Some(Dir(PrunedPart(es, done, rel, excluded))));
      var child := dAndS + [BaseName(source + [name])];
      && Separate(source + [name], child) && IsDir(cur, dAndS) && Get(cur, child).None?
      && templateTmpDir <= child && Get(cur, source + [name]) == Some(es[name])
      && DepthBelow(es[name], fuel) && child[|templateTmpDir|..] == rel + [name]
      && Place(cur, child, Pruned(es[name], child[|templateTmpDir|..], excluded))
         == Place(start, dAndS, Some(Dir(PrunedPart(es, done + {name}, rel, excluded))))
  {
    CopyStep(start, source, dAndS, es, done, name, rel, excluded);
    assert BaseName(source + [name]) == name;
    assert (dAndS + [name])[|templateTmpDir|..] == rel + [name];
  }

  /** An excluded entry is left out; a file that is not is kept as it is. */
  lemma PrunedOf(x: Node, rel: seq<string>, excluded: string -> bool)
    ensures excluded(Join(rel)) ==> Pruned(x, rel, excluded) == None
    ensures !excluded(Join(rel)) && x.File? ==> Pruned(x, rel, excluded) == Some(x)
  {
  }

  /** An excluded entry leaves the tree as it is. */
  lemma ExcludedFromTmp(n: Node, templateTmpDir: Path, source: Path, destination: Path, excluded: string -> bool)
    requires
      var dAndS := destination + [BaseName(source)];
      templateTmpDir <= dAndS && excluded(Join(Relative(templateTmpDir, dAndS))) && Get(n, dAndS).None?
    ensures
      var dAndS := destination + [BaseName(source)];
      Get(n, source).Some? ==> Place(n, dAndS, Pruned(Get(n, source).value, dAndS[|templateTmpDir|..], excluded)) == n
  {
    var dAndS := destination + [BaseName(source)];
    RelativeInside(templateTmpDir, dAndS);
    PlaceAbsent(n, dAndS);
    if Get(n, source).Some? {
      PrunedOf(Get(n, source).value, dAndS[|templateTmpDir|..], excluded);
    }
  }

  /** A file copied with `cp` to a free path lands there unchanged. */
  lemma FileToTmp(n: Node, templateTmpDir: Path, source: Path, destination: Path, excluded: string -> bool)
    requires
      var dAndS := destination + [BaseName(source)];
      && templateTmpDir <= dAndS && !excluded(Join(Relative(templateTmpDir, dAndS))) && Get(n, dAndS).None?
      && Get(n, source).Some? && Get(n, source).value.File?
    ensures
      var dAndS := destination + [BaseName(source)];
      Cp(n, source, dAndS, false) == Place(n, dAndS, Pruned(Get(n, source).value, dAndS[|templateTmpDir|..], excluded))
  {
    var dAndS := destination + [BaseName(source)];
    RelativeInside(templateTmpDir, dAndS);
    PrunedOf(Get(n, source).value, dAndS[|templateTmpDir|..], excluded);
  }

  /** A directory is started as an empty directory at a free path, without
      disturbing its source; once all its entries are filled it is the
      pruned copy of the source. */
  lemma DirToTmp(n: Node, templateTmpDir: Path, source: Path, destination: Path, excluded: string -> bool)
    requires
      var dAndS := destination + [BaseName(source)];
      && Separate(source, dAndS) && IsDir(n, destination) && Get(n, dAndS).None? && templateTmpDir <= dAndS
      && !excluded(Join(Relative(templateTmpDir, dAndS))) && Get(n, source).Some? && Get(n, source).value.Dir?
    ensures
      var dAndS := destination + [BaseName(source)];
      var es := Get(n, source).value.entries;
      var rel := dAndS[|templateTmpDir|..];
      && dAndS != [] && Parent(dAndS) == destination
      && Mkdirp(n, dAndS) == Place(n, dAndS, Some(Dir(map[])))
      && Get(Place(n, dAndS, Some(Dir(map[]))), source) == Get(n, source)
      && PrunedPart(es, {}, rel, excluded) == map[]
      && Pruned(Dir(es), rel, excluded) == Some(Dir(PrunedPart(es, es.Keys, rel, excluded)))
  {
    var dAndS := destination + [BaseName(source)];
    assert Parent(dAndS) == destination;
    RelativeInside(templateTmpDir, dAndS);
    MkdirpNew(n, dAndS);
    PlaceElsewhere(n, dAndS, Some(Dir(map[])), source);
    PrunedPartAll(Get(n, source).value.entries, dAndS[|templateTmpDir|..], excluded);
  }

  /** `copyToTmpRecursive`: copies the entry at `source` to
      `destination/<its name>` unless its path relative to the working copy
      is excluded; a directory is created and its entries copied one by one
      in listing order, a file is copied with `cp`. The copy is exact when
      the source does not lie inside the target (or the target inside the
      source), the target does not exist yet, its parent does, and the
      recursion bound covers the depth of the source. */
  method CopyToTmpRecursive(fs: FileSystem, excluded: string -> bool, templateTmpDir: Path,
                            source: Path, destination: Path, fuel: nat)
    returns (r: Result<(), Failure>)
    modifies fs
    decreases fuel, 3
    ensures
      var dAndS := destination + [BaseName(source)];
      excluded(Join(Relative(templateTmpDir, dAndS))) ==> r.Success? && fs.root == old(fs.root)
    ensures
      var dAndS := destination + [BaseName(source)];
      (!excluded(Join(Relative(templateTmpDir, dAndS))) && Get(old(fs.root), source).None?)
        ==> r == Failure(NoSuchEntry(source)) && fs.root == old(fs.root)
    ensures
      var dAndS := destination + [BaseName(source)];
      (&& Separate(source, dAndS) && IsDir(old(fs.root), destination) && Get(old(fs.root), dAndS).None?
       && templateTmpDir <= dAndS && Get(old(fs.root), source).Some?
       && DepthBelow(Get(old(fs.root), source).value, fuel))
        ==> && r.Success?
            && fs.root == Place(old(fs.root), dAndS,
                 Pruned(Get(old(fs.root), source).value, dAndS[|templateTmpDir|..], excluded))
  {
    var dAndS := destination + [BaseName(source)];
    var rel := Relative(templateTmpDir, dAndS);
    if excluded(Join(rel)) {
      if templateTmpDir <= dAndS && Get(fs.root, dAndS).None? {
        ExcludedFromTmp(fs.root, templateTmpDir, source, destination, excluded);
      }
      return Success(());
    }
    var stat := Get(fs.root, source);
    if stat.None? {
      return Failure(NoSuchEntry(source));
    }
    if stat.value.File? {
      if templateTmpDir <= dAndS && Get(fs.root, dAndS).None? {
        FileToTmp(fs.root, templateTmpDir, source, destination, excluded);
      }
      fs.Copy(source, dAndS, false);
      return Success(());
    }
    r := CopyDirToTmp(fs, excluded, templateTmpDir, source, destination, fuel);
  }

  /** The directory part of `copyToTmpRecursive`: the directory is created
      and its listing copied entry by entry. */
  method CopyDirToTmp(fs: FileSystem, excluded: string -> bool, templateTmpDir: Path,
                      source: Path, destination: Path, fuel: nat)
    returns (r: Result<(), Failure>)
    modifies fs
    decreases fuel, 2
    ensures
      var dAndS := destination + [BaseName(source)];
      (&& Separate(source, dAndS) && IsDir(old(fs.root), destination) && Get(old(fs.root), dAndS).None?
       && templateTmpDir <= dAndS && !excluded(Join(Relative(templateTmpDir, dAndS)))
       && Get(old(fs.root), source).Some? && Get(old(fs.root), source).value.Dir?
       && DepthBelow(Get(old(fs.root), source).value, fuel))
        ==> && r.Success?
            && fs.root == Place(old(fs.root), dAndS,
                 Pruned(Get(old(fs.root), source).value, dAndS[|templateTmpDir|..], excluded))
  {
    if fuel == 0 {
      return Failure(DepthExceeded(source));
    }
    var dAndS := destination + [BaseName(source)];
    ghost var H := && Separate(source, dAndS) && IsDir(fs.root, destination)
                   && Get(fs.root, dAndS).None? && templateTmpDir <= dAndS
                   && !excluded(Join(Relative(templateTmpDir, dAndS)))
                   && Get(fs.root, source).Some? && Get(fs.root, source).value.Dir?;
    ghost var es := if H then Get(fs.root, source).value.entries else map[];
    ghost var relSegs := if H then dAndS[|templateTmpDir|..] else [];
    ghost var start := fs.root;
    if H {
      DirToTmp(start, templateTmpDir, source, destination, excluded);
    }
    fs.MakeDirs(dAndS);
    var listing := fs.ReadDir(source);
    if listing.None? {
      return Failure(NotADirectory(source));
    }
    r := CopyEntriesToTmp(fs, excluded, templateTmpDir, source, dAndS, listing.value, fuel - 1,
                          H, start, es, relSegs);
  }

  /** The loop of `copyToTmpRecursive` over a directory's listing `names`. */
  method CopyEntriesToTmp(fs: FileSystem, excluded: string -> bool, templateTmpDir: Path,
                          source: Path, dAndS: Path, names: seq<string>, fuel: nat,
                          ghost H: bool, ghost start: Node, ghost es: map<string, Node>, ghost rel: seq<string>)
    returns (r: Result<(), Failure>)
    modifies fs
    decreases fuel, 4
    requires H ==> && Separate(source, dAndS) && IsDir(start, Parent(dAndS)) && dAndS != []
                   && templateTmpDir <= dAndS && rel == dAndS[|templateTmpDir|..]
                   && Get(start, source) == Some(Dir(es)) && StrictlySorted(names)
                   && (forall x :: x in names <==> x in es)
                   && fs.root == Place(start, dAndS, Some(Dir(map[])))
    ensures H && DepthBelow(Dir(es), fuel + 1)
      ==> r.Success? && fs.root == Place(start, dAndS, Some(Dir(PrunedPart(es, es.Keys, rel, excluded))))
  {
    var i := 0;
    ghost var done: set<string> := {};
    ghost var D := H && DepthBelow(Dir(es), fuel + 1);
    if D {
      assert PrunedPart(es, {}, rel, excluded) == map[];
    }
    while i < |names|
      invariant 0 <= i <= |names|
      invariant D ==> done == set j | 0 <= j < i :: names[j]
      invariant D ==> fs.root == Place(start, dAndS, Some(Dir(PrunedPart(es, done, rel, excluded))))
    {
      var name := names[i];
      if D {
        SortedDistinct(names, i);
        ChildReady(start, templateTmpDir, source, dAndS, es, done, name, rel, excluded, fuel);
      }
      ghost var cur := fs.root;
      var res := CopyToTmpRecursive(fs, excluded, templateTmpDir, source + [name], dAndS, fuel);
      if res.Failure? {
        return res;
      }
      if D {
        PrefixSetStep(names, i);
      }
      done := done + {name};
      i := i + 1;
    }
    if D {
      assert done == es.Keys;
    }
    return Success(());
  }

  /** Once the tmp dir is made and the old working copy removed, the tmp dir
      is a directory without the working copy, and the template is where it
      was. */
  lemma TmpDirReady(n: Node, tmpDir: Path, templateTmpDir: Path, template: Path)
    requires n.Dir? && NoFileOn(n, tmpDir) && Separate(template, templateTmpDir)
    requires templateTmpDir == tmpDir + [BaseName(template)]
    ensures
      var n1 := Place(Mkdirp(n, tmpDir), templateTmpDir, None);
      && IsDir(n1, tmpDir) && Get(n1, templateTmpDir).None? && Get(n1, template) == Get(n, template)
      && templateTmpDir[|templateTmpDir|..] == [] && Parent(templateTmpDir) == tmpDir
  {
    var n0 := Mkdirp(n, tmpDir);
    MkdirpMakesDir(n, tmpDir);
    assert tmpDir <= templateTmpDir;
    MkdirpElsewhere(n, tmpDir, template);
    assert Parent(templateTmpDir) == tmpDir;
    PlaceElsewhere(n0, templateTmpDir, None, template);
    PlaceBelow(n0, templateTmpDir, None, templateTmpDir);
    PlaceAbove(n0, templateTmpDir, None, tmpDir);
    assert templateTmpDir[|templateTmpDir|..] == [];
  }

  /** `createTmpDir`: makes `<destination>/tmp-hoppla`, removes an old
      working copy of the template, and copies the template into it. */
  method CreateTmpDir(fs: FileSystem, config: Config, or: Oracles, fuel: nat) returns (r: Result<(), Failure>)
    modifies fs
    ensures
      var tmp := GetTmpDir(config);
      var tt := GetTemplateTmpDir(config);
      var x := Get(old(fs.root), config.template);
      (&& old(fs.root).Dir? && NoFileOn(old(fs.root), tmp)
       && NormalPath(config.template) && config.template != [] && Separate(config.template, tt)
       && x.Some? && DepthBelow(x.value, fuel))
        ==> && r.Success?
            && fs.root == Place(Place(Mkdirp(old(fs.root), tmp), tt, None), tt,
                                Pruned(x.value, [], MatchedBy(or, config.excludeGlobs)))
  {
    var tmpDir := GetTmpDir(config);
    fs.MakeDirs(tmpDir);
    var templateTmpDir := GetTemplateTmpDir(config);
    ghost var n1 := fs.root;
    if Get(fs.root, templateTmpDir).Some? {
      fs.Remove(templateTmpDir);
    } else {
      PlaceAbsent(fs.root, templateTmpDir);
    }
    var template := config.template;
    ghost var x := Get(old(fs.root), template);
    if old(fs.root).Dir? && NoFileOn(old(fs.root), tmpDir) && NormalPath(template) && template != []
       && Separate(template, templateTmpDir) && x.Some? {
      TmpDirReady(old(fs.root), tmpDir, templateTmpDir, template);
    }
    r := CopyToTmpRecursive(fs, MatchedBy(or, config.excludeGlobs), templateTmpDir, template, tmpDir, fuel);
  }
}
