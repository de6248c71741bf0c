/** The last step of a run (lib/hoppla.js `copyToDestinationRecursive`): an
    entry of the prepared working copy is copied into the destination. A
    file, and a directory recorded as raw, is one unit: an existing target
    is kept unless `force` is set, and is otherwise removed and replaced.
    Any other directory is created where missing and filled entry by entry,
    so what the destination already holds and the template does not stays. */
module HopplaCopy {
  import opened Wrappers
  import opened Errors
  import opened NodePath
  import opened FileTree
  import opened Util
  import opened ConfigStore

  /** The entry `k` of the directory entries `es`, if any. */
  function Entry(es: map<string, Node>, k: string): Option<Node> {
    if k in es then Some(es[k]) else None
  }

  /** The entry at `q` below the optional node `d`. */
  function Under(d: Option<Node>, q: Path): Option<Node> {
    if d.Some? then Get(d.value, q) else None
  }

  /** What the destination entry `d` becomes when the working-copy entry `s`
      at `source` is copied over it, `raw` being the raw directories recorded
      during the walk. */
  function Delivered(d: Option<Node>, s: Node, source: Path, raw: set<Path>, force: bool): Option<Node>
    decreases s, 1
  {
    match s
    case File(_) => if d.Some? && !force then d else Some(s)
    case Dir(es) =>
      if source in raw then
        (if d.Some? && !force then d
         else if es == map[] then None
         else Some(Dir(Visible(es))))
      else if d.Some? && d.value.File? then d
      else Some(Dir(DeliveredPart(if d.Some? then d.value.entries else map[], es, es.Keys, source, raw, force)))
  }

  /** The entries `de` of a destination directory once the entries of `es`
      named in `done` have been copied over them. */
  function DeliveredPart(de: map<string, Node>, es: map<string, Node>, done: set<string>, source: Path,
                         raw: set<Path>, force: bool): map<string, Node>
    decreases Dir(es), 0
  {
    map k | && k in de.Keys + (done * es.Keys)
            && (k in done && k in es ==> Delivered(Entry(de, k), es[k], source + [k], raw, force).Some?)
      :: if k in done && k in es then Delivered(Entry(de, k), es[k], source + [k], raw, force).value else de[k]
  }

  /** The copy is exact where no file of the destination stands in the way
      of a directory of the working copy that is walked into. */
  predicate Fits(d: Option<Node>, s: Node, source: Path, raw: set<Path>)
    decreases s
  {
    match s
    case File(_) => true
    case Dir(es) =>
      || source in raw
      || (&& !(d.Some? && d.value.File?)
          && forall k :: k in es ==>
               Fits(Entry(if d.Some? then d.value.entries else map[], k), es[k], source + [k], raw))
  }

  // ----- what the copy promises -----

  /** Without `force`, an existing file or raw folder of the destination is
      left as it is; with `force` it is replaced: a file by the working
      copy's file, a raw folder by the visible entries of the working copy's
      folder (and removed when that folder is empty). */
  lemma UnitsAndForce(d: Option<Node>, s: Node, source: Path, raw: set<Path>, force: bool)
    requires s.File? || (s.Dir? && source in raw)
    ensures d.Some? && !force ==> Delivered(d, s, source, raw, force) == d
    ensures d.None? || force
      ==> (Delivered(d, s, source, raw, force)
           == if s.File? then Some(s) else if s.entries == map[] then None else Some(Dir(Visible(s.entries))))
  {
  }

  /** A file of the working copy reached through directories that are not
      raw ends up in the destination: as it is with `force`, and without
      `force` only where the destination has nothing at that path. */
  lemma {:induction false} DeliveredFile(d: Option<Node>, s: Node, source: Path, raw: set<Path>, force: bool,
                                         q: Path)
    requires Fits(d, s, source, raw) && IsFile(s, q)
    requires forall i :: 0 <= i < |q| ==> source + q[..i] !in raw
    ensures Delivered(d, s, source, raw, force).Some?
    ensures force ==> Get(Delivered(d, s, source, raw, force).value, q) == Get(s, q)
    ensures !force ==> Get(Delivered(d, s, source, raw, force).value, q)
                       == if Under(d, q).Some? then Under(d, q) else Get(s, q)
    decreases |q|
  {
    if q != [] {
      assert source + q[..0] == source;
      var es := s.entries;
      var a := q[0];
      var de := if d.Some? then d.value.entries else map[];
      GetCons(s, a, q[1..]);
      assert [a] + q[1..] == q;
      forall i | 0 <= i < |q[1..]|
        ensures source + [a] + q[1..][..i] !in raw
      {
        assert source + [a] + q[1..][..i] == source + q[..i + 1];
      }
      DeliveredFile(Entry(de, a), es[a], source + [a], raw, force, q[1..]);
      var m := DeliveredPart(de, es, es.Keys, source, raw, force);
      assert a in m && m[a] == Delivered(Entry(de, a), es[a], source + [a], raw, force).value;
      GetCons(Dir(m), a, q[1..]);
      if d.Some? {
        if a in de {
          GetCons(d.value, a, q[1..]);
        }
      }
    }
  }

  /** What the destination holds below a walked directory of the working
      copy where the working copy has nothing stays as it was. */
  lemma {:induction false} DeliveredKeeps(d: Option<Node>, s: Node, source: Path, raw: set<Path>, force: bool,
                                          q: Path, j: nat)
    requires Fits(d, s, source, raw)
    requires j < |q| && IsDir(s, q[..j]) && Get(s, q[..j + 1]).None?
    requires forall i :: 0 <= i <= j ==> source + q[..i] !in raw
    requires Under(d, q).Some?
    ensures Delivered(d, s, source, raw, force).Some?
    ensures Get(Delivered(d, s, source, raw, force).value, q) == Under(d, q)
    decreases j
  {
    assert source + q[..0] == source;
    var es := s.entries;
    var a := q[0];
    var de := d.value.entries;
    assert [a] + q[1..] == q;
    GetCons(d.value, a, q[1..]);
    var m := DeliveredPart(de, es, es.Keys, source, raw, force);
    if j == 0 {
      assert q[..1] == [a];
      assert a !in es;
      assert a in m && m[a] == de[a];
    } else {
      assert q[..j] == [a] + q[1..][..j - 1];
      assert q[..j + 1] == [a] + q[1..][..j];
      GetCons(s, a, q[1..][..j - 1]);
      GetCons(s, a, q[1..][..j]);
      forall i | 0 <= i <= j - 1
        ensures source + [a] + q[1..][..i] !in raw
      {
        assert source + [a] + q[1..][..i] == source + q[..i + 1];
      }
      DeliveredKeeps(Entry(de, a), es[a], source + [a], raw, force, q[1..], j - 1);
      assert a in m && m[a] == Delivered(Entry(de, a), es[a], source + [a], raw, force).value;
    }
    GetCons(Dir(m), a, q[1..]);
  }

  // ----- the copy -----

  /** Nothing copied yet leaves the destination's entries as they are. */
  lemma DeliveredNone(de: map<string, Node>, es: map<string, Node>, source: Path, raw: set<Path>, force: bool)
    ensures DeliveredPart(de, es, {}, source, raw, force) == de
  {
  }

  /** Where one turn of the copy loop over a walked directory copies the
      entry `name`: its target holds what the destination had there, its
      source is still in place. */
  lemma DeliverStepAt(start: Node, source: Path, dAndS: Path, m: map<string, Node>, es: map<string, Node>,
                      name: string)
    requires Separate(source, dAndS) && IsDir(start, Parent(dAndS)) && dAndS != []
    requires Get(start, source) == Some(Dir(es)) && name in es
    ensures
      var cur := Place(start, dAndS, Some(Dir(m)));
      && Separate(source + [name], dAndS + [name])
      && IsDir(cur, dAndS) && Get(cur, dAndS + [name]) == Entry(m, name)
      && Get(cur, source + [name]) == Some(es[name])
  {
    var cur := Place(start, dAndS, Some(Dir(m)));
    SeparateExtend(source, dAndS, name);
    SeparateExtend(dAndS, source + [name], name);
    PlaceBelow(start, dAndS, Some(Dir(m)), dAndS);
    PlaceBelow(start, dAndS, Some(Dir(m)), dAndS + [name]);
    assert dAndS[|dAndS|..] == [];
    assert (dAndS + [name])[|dAndS|..] == [name];
    assert Get(Dir(m), [name]) == Entry(m, name);
    PlaceElsewhere(start, dAndS, Some(Dir(m)), source);
    GetAppend(cur, source, [name]);
    GetAppend(start, source, [name]);
  }

  /** One turn of the copy loop over a walked directory: the entry `name` of
      the working copy can be copied, and copying it extends what is
      copied. */
  lemma DeliverStep(start: Node, source: Path, dAndS: Path, de: map<string, Node>, es: map<string, Node>,
                    done: set<string>, name: string, raw: set<Path>, force: bool)
    requires Separate(source, dAndS) && IsDir(start, Parent(dAndS)) && dAndS != []
    requires Get(start, source) == Some(Dir(es)) && name in es && name !in done
    ensures
      var cur := Place(start, dAndS, Some(Dir(DeliveredPart(de, es, done, source, raw, force))));
      && Separate(source + [name], dAndS + [name])
      && IsDir(cur, dAndS) && Get(cur, dAndS + [name]) == Entry(de, name)
      && Get(cur, source + [name]) == Some(es[name])
    ensures
      var cur := Place(start, dAndS, Some(Dir(DeliveredPart(de, es, done, source, raw, force))));
      var next := Place(start, dAndS, Some(Dir(DeliveredPart(de, es, done + {name}, source, raw, force))));
      && Place(cur, dAndS + [name], Delivered(Entry(de, name), es[name], source + [name], raw, force)) == next
      && Get(next, source) == Some(Dir(es))
  {
    var m := DeliveredPart(de, es, done, source, raw, force);
    var o := Delivered(Entry(de, name), es[name], source + [name], raw, force);
    DeliverStepAt(start, source, dAndS, m, es, name);
    assert Entry(m, name) == Entry(de, name);
    var m' := DeliveredPart(de, es, done + {name}, source, raw, force);
    PlaceNested(start, dAndS, m, name, o);
    DeliveredPartStep(de, es, done, name, source, raw, force);
    PlaceElsewhere(start, dAndS, Some(Dir(m')), source);
  }

  /** Copying one more entry updates that entry alone. */
  lemma DeliveredPartStep(de: map<string, Node>, es: map<string, Node>, done: set<string>, name: string,
                          source: Path, raw: set<Path>, force: bool)
    requires name in es && name !in done
    ensures
      var m := DeliveredPart(de, es, done, source, raw, force);
      var o := Delivered(Entry(de, name), es[name], source + [name], raw, force);
      DeliveredPart(de, es, done + {name}, source, raw, force)
        == if o.Some? then m[name := o.value] else m - {name}
  {
    var m := DeliveredPart(de, es, done, source, raw, force);
    var o := Delivered(Entry(de, name), es[name], source + [name], raw, force);
    var m' := DeliveredPart(de, es, done + {name}, source, raw, force);
    var want := if o.Some? then m[name := o.value] else m - {name};
    assert m'.Keys == want.Keys;
    forall k | k in m'
      ensures m'[k] == want[k]
    {
    }
  }

  /** `mergeDirectories` of a raw folder onto a free target: the visible
      entries are copied there, and nothing is made for an empty folder. */
  lemma RawMerge(n: Node, source: Path, dAndS: Path, es: map<string, Node>)
    requires Separate(source, dAndS) && IsDir(n, Parent(dAndS)) && dAndS != []
    requires Get(n, source) == Some(Dir(es)) && Get(n, dAndS).None?
    ensures MergedDirectories(n, source, dAndS)
         == Place(n, dAndS, if es == map[] then None else Some(Dir(Visible(es))))
  {
    if es == map[] {
      PlaceAbsent(n, dAndS);
    } else {
      assert |es| > 0 by {
        var x :| x in es;
      }
      MkdirpNew(n, dAndS);
      var n2 := Place(n, dAndS, Some(Dir(map[])));
      PlaceElsewhere(n, dAndS, Some(Dir(map[])), source);
      PlaceBelow(n, dAndS, Some(Dir(map[])), dAndS);
      assert dAndS[|dAndS|..] == [];
      assert Union(Dir(map[]), Dir(Visible(es))) == Dir(Visible(es));
      PlaceTwice(n, dAndS, Some(Dir(map[])), Some(Dir(Visible(es))));
    }
  }

  /** Removing the target before copying onto it. */
  lemma ClearedTarget(n: Node, dAndS: Path, source: Path)
    requires Separate(source, dAndS) && IsDir(n, Parent(dAndS)) && dAndS != []
    ensures var n1 := Place(n, dAndS, None);
      && Get(n1, dAndS).None? && IsDir(n1, Parent(dAndS)) && Get(n1, source) == Get(n, source)
  {
    PlaceBelow(n, dAndS, None, dAndS);
    PlaceAbove(n, dAndS, None, Parent(dAndS));
    PlaceElsewhere(n, dAndS, None, source);
  }

  /** `copyToDestinationRecursive`: copies the working-copy entry at
      `source` to `destination/<its name>`. A file, and a directory recorded
      as raw, is kept as it is when the target exists and `force` is off,
      and otherwise replaces the target (`rm -rf`, then `cp` or
      `mergeDirectories`). Any other directory is created with `mkdir -p`
      and its entries copied one by one in listing order. The result is
      `Delivered` when the source does not lie inside the target (nor the
      target inside it), the target's parent is a directory, no file of the
      destination is in a walked directory's way, and the recursion bound
      covers the depth of the source. */
  method CopyToDestinationRecursive(fs: FileSystem, config: Config, force: bool, source: Path, destination: Path,
                                    fuel: nat)
    returns (r: Result<(), Failure>)
    modifies fs
    decreases fuel, 0
    ensures Get(old(fs.root), source).None? ==> r == Failure(NoSuchEntry(source)) && fs.root == old(fs.root)
    ensures
      var dAndS := destination + [BaseName(source)];
      var x := Get(old(fs.root), source);
      (&& Separate(source, dAndS) && IsDir(old(fs.root), destination) && x.Some?
       && Fits(Get(old(fs.root), dAndS), x.value, source, config.rawDirectories)
       && DepthBelow(x.value, fuel))
        ==> && r.Success?
            && fs.root == Place(old(fs.root), dAndS,
                 Delivered(Get(old(fs.root), dAndS), x.value, source, config.rawDirectories, force))
  {
    var dAndS := destination + [BaseName(source)];
    assert Parent(dAndS) == destination;
    ghost var H := Separate(source, dAndS) && IsDir(fs.root, destination);
    ghost var start := fs.root;
    ghost var d := Get(start, dAndS);
    var stat := Get(fs.root, source);
    if stat.None? {
      return Failure(NoSuchEntry(source));
    }
    var isDirectory := stat.value.Dir?;
    if isDirectory {
      var isRawDirectory := source in config.rawDirectories;
      if isRawDirectory {
        if Get(fs.root, dAndS).Some? {
          if !force {
            PlaceSame(start, dAndS);
            return Success(());
          }
          fs.Remove(dAndS);
        } else {
          PlaceAbsent(start, dAndS);
        }
        if H {
          ClearedTarget(start, dAndS, source);
          RawMerge(fs.root, source, dAndS, stat.value.entries);
          PlaceTwice(start, dAndS, None, if stat.value.entries == map[] then None
                                         else Some(Dir(Visible(stat.value.entries))));
        }
        MergeDirectories(fs, source, dAndS);
        return Success(());
      }
      if fuel == 0 {
        return Failure(DepthExceeded(source));
      }
      ghost var es := stat.value.entries;
      ghost var de := if d.Some? && d.value.Dir? then d.value.entries else map[];
      ghost var G := H && Fits(d, stat.value, source, config.rawDirectories);
      fs.MakeDirs(dAndS);
      if G {
        if d.None? {
          MkdirpNew(start, dAndS);
        } else {
          MkdirpExisting(start, dAndS);
          PlaceSame(start, dAndS);
        }
        PlaceElsewhere(start, dAndS, Some(Dir(de)), source);
      }
      var listing := fs.ReadDir(source);
      if listing.None? {
        return Failure(NotADirectory(source));
      }
      r := CopyEntriesToDestination(fs, config, force, source, dAndS, listing.value, fuel - 1, G, start, de, es);
    } else {
      if Get(fs.root, dAndS).Some? {
        if !force {
          PlaceSame(start, dAndS);
          return Success(());
        }
        fs.Remove(dAndS);
      }
      if H {
        ClearedTarget(start, dAndS, source);
        ghost var n1 := Place(start, dAndS, None);
        if d.None? {
          PlaceAbsent(start, dAndS);
        }
        assert fs.root == n1;
        assert Cp(n1, source, dAndS, false) == Place(n1, dAndS, Some(stat.value));
        PlaceTwice(start, dAndS, None, Some(stat.value));
      }
      fs.Copy(source, dAndS, false);
      return Success(());
    }
  }

  /** The loop of `copyToDestinationRecursive` over a walked directory's
      listing `names`. */
  method CopyEntriesToDestination(fs: FileSystem, config: Config, force: bool, source: Path, dAndS: Path,
                                  names: seq<string>, fuel: nat, ghost H: bool, ghost start: Node,
                                  ghost de: map<string, Node>, ghost es: map<string, Node>)
    returns (r: Result<(), Failure>)
    modifies fs
    decreases fuel, 1
    requires H ==> && Separate(source, dAndS) && IsDir(start, Parent(dAndS)) && dAndS != []
                   && Get(start, source) == Some(Dir(es)) && StrictlySorted(names)
                   && (forall x :: x in names <==> x in es)
                   && (forall k :: k in es ==> Fits(Entry(de, k), es[k], source + [k], config.rawDirectories))
                   && fs.root == Place(start, dAndS, Some(Dir(de)))
    ensures H && DepthBelow(Dir(es), fuel + 1)
      ==> && r.Success?
          && fs.root == Place(start, dAndS,
               Some(Dir(DeliveredPart(de, es, es.Keys, source, config.rawDirectories, force))))
  {
    var i := 0;
    ghost var done: set<string> := {};
    ghost var D := H && DepthBelow(Dir(es), fuel + 1);
    if D {
      DeliveredNone(de, es, source, config.rawDirectories, force);
    }
    while i < |names|
      invariant 0 <= i <= |names|
      invariant D ==> done == set j | 0 <= j < i :: names[j]
      invariant D ==> fs.root == Place(start, dAndS,
                                       Some(Dir(DeliveredPart(de, es, done, source, config.rawDirectories, force))))
    {
      var fileName := names[i];
      if D {
        SortedDistinct(names, i);
        DeliverStep(start, source, dAndS, de, es, done, fileName, config.rawDirectories, force);
        assert Parent(dAndS + [fileName]) == dAndS;
        assert BaseName(source + [fileName]) == fileName;
      }
      ghost var cur := fs.root;
      var res := CopyToDestinationRecursive(fs, config, force, source + [fileName], dAndS, fuel);
      if res.Failure? {
        return res;
      }
      if D {
        assert (set j | 0 <= j < i + 1 :: names[j]) == done + {fileName};
      }
      done := done + {fileName};
      i := i + 1;
    }
    if D {
      assert done == es.Keys;
    }
    return Success(());
  }
}
