/** The transformation walker of lib/hoppla.js (`applyTransformationRecursive`
    and `applyTransformationDirectory`): every entry of the working copy is
    classified, may fan out into generated copies, gets exactly one action
    and may be renamed; a directory's entries are walked one after another
    with their directives, which are deleted afterwards. */
module HopplaWalk {
  import opened Wrappers
  import opened Errors
  import opened NodePath
  import opened JsValues
  import opened FileTree
  import opened Externals
  import opened Util
  import opened ConfigStore
  import opened HopplaRules

  /** `targetFileInfo` */
  datatype FileInfo = FileInfo(
    path: Path,
    pathOrig: Path,
    pathOrigRelative: seq<string>,
    isDirectory: bool,
    raw: bool,
    exclude: bool,
    /** the rewritten text of a template file */
    content: string)

  /** What the walker knows about an entry before it decides on exclusion:
      the file info and the directive in force. */
  datatype Classified = Classified(info: FileInfo, directive: JsValue)

  /** The record of one call of `applyTransformationRecursive`. */
  datatype Visit =
    | RootConfigRemoved(removed: Path)
    | Transformed(
        /** the final `targetFileInfo` */
        info: FileInfo,
        /** where the entry was when the call started */
        from: Path,
        /** the tree when the call started */
        start: Node,
        file: Option<DirectiveFile>,
        /** the input of the configuration the call ran with */
        input: JsValue,
        /** the directive in force (sibling directive merged with the header) */
        directive: JsValue,
        generated: bool,
        /** the input handed to the `generate` code, and the calls it made */
        generateInput: JsValue,
        calls: seq<JsValue>,
        copies: seq<Visit>,
        action: Action,
        /** a walked directory's listing, and the visits of its content entries */
        entries: seq<string>,
        children: seq<Visit>)

  // ----- classification (lib/hoppla.js:421-459) -----

  /** The relative path, the kind, the raw decision, the directive and the
      rendered text of the entry at `path`, read from the tree `n`. */
  ghost function Classification(n: Node, or: Oracles, template: Path, input: JsValue, ejs: JsValue,
                                rawGlobs: JsValue, path: Path, pathOrig: Path, file: Option<DirectiveFile>)
    : Result<Classified, Failure>
  {
    var rel := Relative(template, pathOrig);
    match Get(n, path)
    case None => Failure(NoSuchEntry(path))
    case Some(x) =>
      var sibling :- ReadDirective(n, or, input, ejs, file);
      var rawSetting :- Prop(sibling, "raw");
      var raw := IsRaw(or, rawSetting, x.Dir?, Join(rel), rawGlobs);
      var info := FileInfo(path, pathOrig, rel, x.Dir?, raw, false, "");
      if raw || x.Dir? then Success(Classified(info, sibling))
      else
        var t :- ReadTemplate(n, or, input, ejs, path, pathOrig);
        var merged :- Merged(sibling, t.1);
        Success(Classified(info.(content := t.0), merged))
  }

  /** The first steps of `applyTransformationRecursive`, which change nothing
      but `targetFileInfo`. */
  method Classify(fs: FileSystem, config: Config, or: Oracles, path: Path, pathOrig: Path,
                  file: Option<DirectiveFile>)
    returns (r: Result<Classified, Failure>)
    ensures r == Classification(fs.root, or, config.template, config.input, config.ejs, config.rawGlobs,
                                path, pathOrig, file)
  {
    var info := FileInfo(path, pathOrig, [], false, false, false, "");
    info := info.(pathOrigRelative := Relative(config.template, pathOrig));
    var stat := Get(fs.root, path);
    if stat.None? {
      return Failure(NoSuchEntry(path));
    }
    info := info.(isDirectory := stat.value.Dir?);
    var directive :- ReadDirective(fs.root, or, config.input, config.ejs, file);
    var rawSetting :- Prop(directive, "raw");
    info := info.(raw := IsRaw(or, rawSetting, info.isDirectory, Join(info.pathOrigRelative), config.rawGlobs));
    if !info.raw && !info.isDirectory {
      var t :- ReadTemplate(fs.root, or, config.input, config.ejs, path, pathOrig);
      directive :- MergeDeep(directive, t.1);
      info := info.(content := t.0);
    }
    return Success(Classified(info, directive));
  }

  /** Raw entries and directories are not read: their directive is the
      sibling directive and they have no rewritten text. A file that is not
      raw is read as a template, and the keys of its header win over the
      keys of the sibling directive, which keep their values otherwise. */
  lemma ClassificationDirective(n: Node, or: Oracles, template: Path, input: JsValue, ejs: JsValue,
                                rawGlobs: JsValue, path: Path, pathOrig: Path, file: Option<DirectiveFile>,
                                k: string)
    requires Classification(n, or, template, input, ejs, rawGlobs, path, pathOrig, file).Success?
    ensures
      var c := Classification(n, or, template, input, ejs, rawGlobs, path, pathOrig, file).value;
      var sibling := ReadDirective(n, or, input, ejs, file);
      && sibling.Success?
      && (c.info.raw || c.info.isDirectory ==> c.directive == sibling.value && c.info.content == "")
      && (!c.info.raw && !c.info.isDirectory ==>
            var t := ReadTemplate(n, or, input, ejs, path, pathOrig);
            && t.Success? && c.info.content == t.value.0
            && (sibling.value.Obj? && k in OwnKeys(t.value.1) && !IsObject(OwnProp(t.value.1, k))
                ==> c.directive.Obj? && k in c.directive.props && c.directive.props[k] == OwnProp(t.value.1, k))
            && (sibling.value.Obj? && k in sibling.value.props && k !in OwnKeys(t.value.1)
                ==> c.directive.Obj? && k in c.directive.props && c.directive.props[k] == sibling.value.props[k]))
  {
    ClassificationSteps(n, or, template, input, ejs, rawGlobs, path, pathOrig, file);
    var c := Classification(n, or, template, input, ejs, rawGlobs, path, pathOrig, file).value;
    var sibling := ReadDirective(n, or, input, ejs, file);
    if !c.info.raw && !c.info.isDirectory && sibling.value.Obj? {
      var t := ReadTemplate(n, or, input, ejs, path, pathOrig);
      MergedKeys(sibling.value, t.value.1, k);
      if k in OwnKeys(t.value.1) {
        MergedSourceKey(sibling.value, t.value.1, k);
      }
    }
  }

  /** The steps of the classification: the entry exists, its relative
      path and kind are recorded, the raw decision is the decision table of
      `IsRaw` applied to the sibling directive's `raw`, and the directive is
      the sibling directive, merged with the header of a template file. */
  lemma ClassificationSteps(n: Node, or: Oracles, template: Path, input: JsValue, ejs: JsValue,
                            rawGlobs: JsValue, path: Path, pathOrig: Path, file: Option<DirectiveFile>)
    requires Classification(n, or, template, input, ejs, rawGlobs, path, pathOrig, file).Success?
    ensures
      var c := Classification(n, or, template, input, ejs, rawGlobs, path, pathOrig, file).value;
      var sibling := ReadDirective(n, or, input, ejs, file);
      && Get(n, path).Some? && c.info.isDirectory == Get(n, path).value.Dir?
      && c.info.path == path && c.info.pathOrig == pathOrig && !c.info.exclude
      && c.info.pathOrigRelative == Relative(template, pathOrig)
      && sibling.Success? && Prop(sibling.value, "raw").Success?
      && c.info.raw == IsRaw(or, Prop(sibling.value, "raw").value, c.info.isDirectory,
                             Join(Relative(template, pathOrig)), rawGlobs)
      && (c.info.raw || c.info.isDirectory ==> c.directive == sibling.value && c.info.content == "")
      && (!c.info.raw && !c.info.isDirectory ==>
            var t := ReadTemplate(n, or, input, ejs, path, pathOrig);
            && t.Success? && c.info.content == t.value.0 && Merged(sibling.value, t.value.1) == Success(c.directive))
  {
    var x := Get(n, path).value;
    var sibling := ReadDirective(n, or, input, ejs, file).value;
    var rawSetting := Prop(sibling, "raw").value;
    var rel := Relative(template, pathOrig);
    var raw := IsRaw(or, rawSetting, x.Dir?, Join(rel), rawGlobs);
    var info := FileInfo(path, pathOrig, rel, x.Dir?, raw, false, "");
    if !raw && !x.Dir? {
      var t := ReadTemplate(n, or, input, ejs, path, pathOrig).value;
      var merged := Merged(sibling, t.1).value;
      assert Classification(n, or, template, input, ejs, rawGlobs, path, pathOrig, file)
          == Success(Classified(info.(content := t.0), merged));
    } else {
      assert Classification(n, or, template, input, ejs, rawGlobs, path, pathOrig, file)
          == Success(Classified(info, sibling));
    }
  }

  // ----- what a visit promises -----

  /** The visit `w` of a generated copy at `path`, made from `pathOrig`
      with the same directive file and the input `input`: generation is
      switched off for it. */
  ghost predicate CopyVisit(w: Visit, path: Path, pathOrig: Path, file: Option<DirectiveFile>, input: JsValue) {
    (w.RootConfigRemoved? && w.removed == path)
    || (&& w.Transformed? && w.from == path && w.info.pathOrig == pathOrig && w.file == file
        && w.input == input && !w.generated && w.copies == [])
  }

  /** The visit `w` of the content entry at `path`. */
  ghost predicate ChildVisit(w: Visit, path: Path, pathOrig: Path, file: Option<DirectiveFile>, input: JsValue) {
    (w.RootConfigRemoved? && w.removed == path)
    || (w.Transformed? && w.from == path && w.info.pathOrig == pathOrig && w.file == file && w.input == input)
  }

  /** The walk of the `k`-th copy of the entry at `path` started from the
      tree `n` with the entry, as it was, copied to `CopyPath(path, k)`. */
  ghost predicate CopyWalkedFrom(w: Visit, n: Node, path: Path, k: nat, isDirectory: bool) {
    w.Transformed? && w.start == Cp(n, path, CopyPath(path, k), isDirectory)
  }

  /** Where the `k`-th generated copy of the entry at `path` is made. */
  function CopyPath(path: Path, k: nat): Path {
    Resolve(Parent(path), NumberedName(k, BaseName(path)))
  }

  /** The directive file paired with a content entry of the directory at
      `path` (and `pathOrig` in the template). */
  function FileOf(found: Option<string>, path: Path, pathOrig: Path): Option<DirectiveFile> {
    match found
    case Some(d) => Some(DirectiveFile(path + [d], pathOrig + [d]))
    case None => None
  }

  /** The `generate` fan-out: the directive's code got a copy of the input
      and made `calls`; the `k`-th call made the copy `k + 1`, walked with
      its own input when the call passed a truthy one. */
  ghost predicate GeneratedCopies(directive: JsValue, generateInput: JsValue, calls: seq<JsValue>,
                                  copies: seq<Visit>, or: Oracles, input: JsValue, path: Path, pathOrig: Path,
                                  file: Option<DirectiveFile>)
  {
    && Merged(Obj(map[]), input) == Success(generateInput)
    && Prop(directive, "generate").Success?
    && or.generate(Prop(directive, "generate").value, generateInput) == Some(calls)
    && |copies| == |calls|
    && forall k :: 0 <= k < |calls| ==>
         CopyVisit(copies[k], CopyPath(path, k + 1), pathOrig, file,
                   if Truthy(calls[k]) then calls[k] else input)
  }

  /** The listing of a walked directory and the visits of its content
      entries, in listing order, each with its paired directive. */
  ghost predicate DirectoryVisits(entries: seq<string>, visits: seq<Visit>, n: Node, path: Path, pathOrig: Path,
                                  input: JsValue)
  {
    && IsDir(n, path) && StrictlySorted(entries)
    && (forall x :: x in entries <==> x in Get(n, path).value.entries)
    && |visits| == |ContentNames(entries)|
    && forall i :: 0 <= i < |visits| ==>
         var name := ContentNames(entries)[i];
         && DirectiveFor(DirectiveTable(entries), name).Success?
         && ChildVisit(visits[i], path + [name], pathOrig + [name],
                       FileOf(DirectiveFor(DirectiveTable(entries), name).value, path, pathOrig), input)
  }

  /** Everything one call promises about the entry at `path` of the tree
      `n` it started from, apart from the tree it leaves. */
  ghost predicate Walked(v: Visit, n: Node, or: Oracles, config: Config, path: Path, pathOrig: Path,
                         file: Option<DirectiveFile>, ignoreGenerate: bool)
    reads config
  {
    && v.Transformed? && v.from == path && v.start == n && v.info.pathOrig == pathOrig
    && v.file == file && v.input == config.input
    && WalkedTree(v, or, config.template, config.ejs, config.rawGlobs, ignoreGenerate)
  }

  /** The visit `w` and, below it, the visits of its generated copies
      (walked with generation off) and of its content entries: each call
      classified its entry in the tree it started from and settled it as
      `Settled` states. The template path, the EJS options and the raw
      globs are those of every cloned configuration. */
  ghost predicate WalkedTree(w: Visit, or: Oracles, template: Path, ejs: JsValue, rawGlobs: JsValue,
                             ignoreGenerate: bool)
    decreases w, 1
  {
    w.RootConfigRemoved?
    || (&& Classification(w.start, or, template, w.input, ejs, rawGlobs, w.from, w.info.pathOrig, w.file)
           == Success(Classified(w.info.(path := w.from, exclude := false), w.directive))
        && Settled(w, w.start, or, w.input, w.from, w.info.pathOrig, w.file, ignoreGenerate)
        && BelowWalked(w, or, template, ejs, rawGlobs))
  }

  /** Every copy visit and every child visit of `v` is a walked tree. */
  ghost predicate BelowWalked(v: Visit, or: Oracles, template: Path, ejs: JsValue, rawGlobs: JsValue)
    requires v.Transformed?
    decreases v, 0
  {
    && AllWalked(v.copies, or, template, ejs, rawGlobs, true)
    && AllWalked(v.children, or, template, ejs, rawGlobs, false)
  }

  /** Every visit of `vs` is a walked tree. */
  ghost predicate AllWalked(vs: seq<Visit>, or: Oracles, template: Path, ejs: JsValue, rawGlobs: JsValue,
                            ignoreGenerate: bool)
    decreases vs
  {
    forall k :: 0 <= k < |vs| ==> WalkedTree(vs[k], or, template, ejs, rawGlobs, ignoreGenerate)
  }

  /** One more walked visit. */
  lemma AllWalkedAppend(vs: seq<Visit>, v: Visit, or: Oracles, template: Path, ejs: JsValue, rawGlobs: JsValue,
                        ignoreGenerate: bool)
    requires AllWalked(vs, or, template, ejs, rawGlobs, ignoreGenerate)
    requires WalkedTree(v, or, template, ejs, rawGlobs, ignoreGenerate)
    ensures AllWalked(vs + [v], or, template, ejs, rawGlobs, ignoreGenerate)
  {
  }

  /** What the steps after the classification promise about the visit `v`
      of the entry at `path`: exclusion, generation, the action and the
      rename. */
  ghost predicate Settled(v: Visit, n: Node, or: Oracles, input: JsValue, path: Path, pathOrig: Path,
                          file: Option<DirectiveFile>, ignoreGenerate: bool)
  {
    && v.Transformed?
    && Prop(v.directive, "exclude").Success?
    && (v.generated <==> !ignoreGenerate && Prop(v.directive, "generate").Success?
                         && Truthy(Prop(v.directive, "generate").value))
    && v.info.exclude == (v.generated || Truthy(Prop(v.directive, "exclude").value))
    && v.action == ActionOf(v.info.exclude, v.info.raw, v.info.isDirectory)
    && (v.info.exclude ==> v.info.path == path)
    && (!v.info.exclude ==> RenameTarget(v.directive, path) == Success(v.info.path))
    && (!v.generated ==> v.copies == [] && v.calls == [])
    && (v.generated ==> GeneratedCopies(v.directive, v.generateInput, v.calls, v.copies, or, input,
                                       path, pathOrig, file))
    && (v.action != Recurse ==> v.entries == [] && v.children == [])
    && (v.action == Recurse ==> DirectoryVisits(v.entries, v.children, n, path, pathOrig, input))
  }

  // ----- the walk -----

  /** `applyTransformationRecursive` for the entry at `path` (at `pathOrig`
      in the template), with its directive file `file`. An entry named
      `hopplaconfig` is only removed. Otherwise the entry is classified and
      `TransformClassified` carries out the remaining steps. `fuel` bounds
      the depth of the walk. */
  method TransformEntry(fs: FileSystem, rootConfig: Config, config: Config, or: Oracles,
                        path: Path, pathOrig: Path, file: Option<DirectiveFile>, ignoreGenerate: bool, fuel: nat)
    returns (r: Result<Visit, Failure>)
    modifies fs, rootConfig`rawDirectories
    decreases fuel, 1
    ensures BaseName(path) == RootConfigName
      ==> r == Success(RootConfigRemoved(path)) && fs.root == RemovedFile(old(fs.root), path)
    ensures r.Success? && BaseName(path) != RootConfigName
      ==> && r.value.Transformed? && r.value.from == path && r.value.info.pathOrig == pathOrig
          && r.value.file == file && r.value.input == config.input
          && (ignoreGenerate ==> !r.value.generated && r.value.copies == [])
    ensures r.Success? && BaseName(path) != RootConfigName
      ==> Walked(r.value, old(fs.root), or, config, path, pathOrig, file, ignoreGenerate)
    ensures old(rootConfig.rawDirectories) <= rootConfig.rawDirectories
    ensures (r.Success? && r.value.Transformed? && r.value.action == KeepRaw && r.value.info.isDirectory)
      ==> path in rootConfig.rawDirectories
    ensures (r.Success? && r.value.Transformed? && r.value.copies == [] && r.value.action != Recurse)
      ==> (var v := r.value;
           && fs.root == MoveEffect(ActEffect(old(fs.root), v.action, path, v.info.isDirectory, v.info.content),
                                    path, v.info.path, v.info.isDirectory)
           && rootConfig.rawDirectories
              == old(rootConfig.rawDirectories) + (if v.action == KeepRaw && v.info.isDirectory then {path} else {}))
  {
    if BaseName(path) == RootConfigName {
      fs.RemoveFile(path);
      return Success(RootConfigRemoved(path));
    }
    if fuel == 0 {
      return Failure(DepthExceeded(path));
    }
    var c :- Classify(fs, config, or, path, pathOrig, file);
    ClassificationSteps(fs.root, or, config.template, config.input, config.ejs, config.rawGlobs, path, pathOrig, file);
    r := TransformClassified(fs, rootConfig, config, or, path, pathOrig, file, c, ignoreGenerate, fuel - 1);
  }

  /** The steps of `applyTransformationRecursive` after the classification
      `c`: a truthy `exclude` excludes the entry, its `generate` code fans
      it out into numbered copies (which also excludes it), it is removed,
      kept, walked or rewritten, and unless excluded it is renamed. Raw
      directories are recorded in the root configuration. `fuel` bounds the
      depth of the walk below the entry. */
  method TransformClassified(fs: FileSystem, rootConfig: Config, config: Config, or: Oracles,
                             path: Path, pathOrig: Path, file: Option<DirectiveFile>, c: Classified,
                             ignoreGenerate: bool, fuel: nat)
    returns (r: Result<Visit, Failure>)
    modifies fs, rootConfig`rawDirectories
    requires c.info.path == path
    decreases fuel, 7
    ensures r.Success?
      ==> && r.value.Transformed? && r.value.from == path && r.value.file == file && r.value.input == config.input
          && r.value.info.(path := path, exclude := false) == c.info.(path := path, exclude := false)
          && r.value.directive == c.directive
          && (ignoreGenerate ==> !r.value.generated && r.value.copies == [])
          && r.value.start == old(fs.root)
          && Settled(r.value, old(fs.root), or, config.input, path, pathOrig, file, ignoreGenerate)
          && BelowWalked(r.value, or, config.template, config.ejs, config.rawGlobs)
    ensures old(rootConfig.rawDirectories) <= rootConfig.rawDirectories
    ensures (r.Success? && r.value.Transformed? && r.value.action == KeepRaw && r.value.info.isDirectory)
      ==> path in rootConfig.rawDirectories
    ensures (r.Success? && r.value.Transformed? && r.value.copies == [] && r.value.action != Recurse)
      ==> (var v := r.value;
           && fs.root == MoveEffect(ActEffect(old(fs.root), v.action, path, v.info.isDirectory, v.info.content),
                                    path, v.info.path, v.info.isDirectory)
           && rootConfig.rawDirectories
              == old(rootConfig.rawDirectories) + (if v.action == KeepRaw && v.info.isDirectory then {path} else {}))
  {
    var start := fs.root;
    var info := c.info;
    var excludeSetting :- Prop(c.directive, "exclude");
    info := info.(exclude := Truthy(excludeSetting));
    var g :- Generate(fs, rootConfig, config, or, path, pathOrig, info.isDirectory, file, c.directive,
                      ignoreGenerate, fuel);
    if g.generated {
      info := info.(exclude := true);
    }
    var action := ActionOf(info.exclude, info.raw, info.isDirectory);
    var done :- ActAndRename(fs, rootConfig, config, or, path, pathOrig, info, c.directive, action, fuel);
    var v := Transformed(info.(path := done.0), path, start, file, config.input, c.directive, g.generated,
                         g.generateInput, g.calls, g.copies, action, done.1, done.2);
    assert Settled(v, start, or, config.input, path, pathOrig, file, ignoreGenerate);
    return Success(v);
  }

  /** The act step followed by the rename step: the target of the rename
      (the entry's own path when it is excluded), and the listing and the
      visits of a walked directory. */
  method ActAndRename(fs: FileSystem, rootConfig: Config, config: Config, or: Oracles, path: Path, pathOrig: Path,
                      info: FileInfo, directive: JsValue, action: Action, fuel: nat)
    returns (r: Result<(Path, seq<string>, seq<Visit>), Failure>)
    modifies fs, rootConfig`rawDirectories
    decreases fuel, 6
    ensures r.Success? && info.exclude ==> r.value.0 == path
    ensures r.Success? && !info.exclude ==> RenameTarget(directive, path) == Success(r.value.0)
    ensures old(rootConfig.rawDirectories) <= rootConfig.rawDirectories
    ensures r.Success? && action != Recurse
      ==> && r.value.1 == [] && r.value.2 == []
          && fs.root == MoveEffect(ActEffect(old(fs.root), action, path, info.isDirectory, info.content),
                                   path, r.value.0, info.isDirectory)
          && rootConfig.rawDirectories
             == old(rootConfig.rawDirectories) + (if action == KeepRaw && info.isDirectory then {path} else {})
    ensures r.Success? && action == Recurse
      ==> DirectoryVisits(r.value.1, r.value.2, old(fs.root), path, pathOrig, config.input)
    ensures r.Success? ==> AllWalked(r.value.2, or, config.template, config.ejs, config.rawGlobs, false)
  {
    var walked :- Act(fs, rootConfig, config, or, path, pathOrig, info, action, fuel);
    var target := path;
    if !info.exclude {
      target :- RenameTarget(directive, path);
      Move(fs, path, target, info.isDirectory);
    }
    return Success((target, walked.0, walked.1));
  }

  /** What the generate step did: whether the directive's code ran, the
      input it was given, the calls it made and the visits of the copies. */
  datatype Generation = Generation(generated: bool, generateInput: JsValue, calls: seq<JsValue>, copies: seq<Visit>)

  /** The generate step: unless switched off, a truthy `generate` of the
      directive is run with a deep copy of the input, and its calls are
      carried out by `RunGenerate`. Code that throws fails the walk. */
  method Generate(fs: FileSystem, rootConfig: Config, config: Config, or: Oracles, path: Path, pathOrig: Path,
                  isDirectory: bool, file: Option<DirectiveFile>, directive: JsValue, ignoreGenerate: bool, fuel: nat)
    returns (r: Result<Generation, Failure>)
    modifies fs, rootConfig`rawDirectories
    decreases fuel, 4
    ensures r.Success? ==> (r.value.generated <==> (!ignoreGenerate && Prop(directive, "generate").Success?
                                                  && Truthy(Prop(directive, "generate").value)))
    ensures r.Success? && !r.value.generated ==> r.value.calls == [] && r.value.copies == []
    ensures r.Success? && r.value.generated
      ==> GeneratedCopies(directive, r.value.generateInput, r.value.calls, r.value.copies,
                          or, config.input, path, pathOrig, file)
    ensures r.Success? && r.value.copies == []
      ==> fs.root == old(fs.root) && rootConfig.rawDirectories == old(rootConfig.rawDirectories)
    ensures r.Success? ==> AllWalked(r.value.copies, or, config.template, config.ejs, config.rawGlobs, true)
    ensures old(rootConfig.rawDirectories) <= rootConfig.rawDirectories
  {
    if ignoreGenerate {
      return Success(Generation(false, Undefined, [], []));
    }
    var code :- Prop(directive, "generate");
    if !Truthy(code) {
      return Success(Generation(false, Undefined, [], []));
    }
    var generateInput :- MergeDeep(Obj(map[]), config.input);
    var made := or.generate(code, generateInput);
    if made.None? {
      return Failure(GenerateFailed(pathOrig));
    }
    var copies :- RunGenerate(fs, rootConfig, config, or, path, pathOrig, isDirectory, file, made.value, fuel);
    return Success(Generation(true, generateInput, made.value, copies));
  }

  /** The first `|copies|` of the `calls` made the visits `copies`. */
  ghost predicate CopyVisits(copies: seq<Visit>, calls: seq<JsValue>, pathOrig: Path, file: Option<DirectiveFile>,
                             input: JsValue, path: Path)
  {
    && |copies| <= |calls|
    && forall k :: 0 <= k < |copies| ==>
         CopyVisit(copies[k], CopyPath(path, k + 1), pathOrig, file, if Truthy(calls[k]) then calls[k] else input)
  }

  /** One more copy visit, made by the next call. */
  lemma CopyVisitsAppend(copies: seq<Visit>, v: Visit, calls: seq<JsValue>, pathOrig: Path,
                         file: Option<DirectiveFile>, input: JsValue, path: Path)
    requires CopyVisits(copies, calls, pathOrig, file, input, path) && |copies| < |calls|
    requires CopyVisit(v, CopyPath(path, |copies| + 1), pathOrig, file,
                       if Truthy(calls[|copies|]) then calls[|copies|] else input)
    ensures CopyVisits(copies + [v], calls, pathOrig, file, input, path)
  {
  }

  /** The `generate(...)` calls of a directive's code, made one after another
      by `WalkCopy`. */
  method RunGenerate(fs: FileSystem, rootConfig: Config, config: Config, or: Oracles, path: Path, pathOrig: Path,
                     isDirectory: bool, file: Option<DirectiveFile>, calls: seq<JsValue>, fuel: nat)
    returns (r: Result<seq<Visit>, Failure>)
    modifies fs, rootConfig`rawDirectories
    decreases fuel, 3
    ensures r.Success? ==> |r.value| == |calls|
    ensures r.Success? ==> forall k :: 0 <= k < |calls| ==>
      CopyVisit(r.value[k], CopyPath(path, k + 1), pathOrig, file,
                if Truthy(calls[k]) then calls[k] else config.input)
    ensures r.Success? ==> AllWalked(r.value, or, config.template, config.ejs, config.rawGlobs, true)
    ensures old(rootConfig.rawDirectories) <= rootConfig.rawDirectories
    ensures calls == [] ==> (r == Success([]) && fs.root == old(fs.root)
                             && rootConfig.rawDirectories == old(rootConfig.rawDirectories))
  {
    if calls == [] {
      return Success([]);
    }
    var copies: seq<Visit> := [];
    var generateIndex := 0;
    var input, template, ejs, rawGlobs := config.input, config.template, config.ejs, config.rawGlobs;
    while generateIndex < |calls|
      invariant 0 <= generateIndex <= |calls| && |copies| == generateIndex
      invariant input == config.input && template == config.template
      invariant ejs == config.ejs && rawGlobs == config.rawGlobs
      invariant CopyVisits(copies, calls, pathOrig, file, input, path)
      invariant AllWalked(copies, or, template, ejs, rawGlobs, true)
      invariant old(rootConfig.rawDirectories) <= rootConfig.rawDirectories
    {
      var v :- WalkCopy(fs, rootConfig, config, or, path, pathOrig, isDirectory, file, calls[generateIndex],
                        generateIndex + 1, fuel);
      AllWalkedAppend(copies, v, or, template, ejs, rawGlobs, true);
      CopyVisitsAppend(copies, v, calls, pathOrig, file, input, path);
      generateIndex := generateIndex + 1;
      copies := copies + [v];
    }
    return Success(copies);
  }

  /** One `generate(...)` call, the `k`-th: the entry is copied to
      `<k>_hoppla_<name>` beside it (a directory with `-r`), and the copy is
      walked with a copy of the configuration, its input replaced by the
      call's argument when that is truthy, and with generation switched
      off. */
  method WalkCopy(fs: FileSystem, rootConfig: Config, config: Config, or: Oracles, path: Path, pathOrig: Path,
                  isDirectory: bool, file: Option<DirectiveFile>, mutatedInput: JsValue, k: nat, fuel: nat)
    returns (r: Result<Visit, Failure>)
    modifies fs, rootConfig`rawDirectories
    decreases fuel, 2
    ensures r.Success? ==> CopyVisit(r.value, CopyPath(path, k), pathOrig, file,
                                     if Truthy(mutatedInput) then mutatedInput else config.input)
    ensures r.Success? ==> WalkedTree(r.value, or, config.template, config.ejs, config.rawGlobs, true)
    ensures r.Success? && NormalSegment(BaseName(path))
      ==> CopyWalkedFrom(r.value, old(fs.root), path, k, isDirectory)
    ensures old(rootConfig.rawDirectories) <= rootConfig.rawDirectories
  {
    var newTargetPath := CopyPath(path, k);
    NumberedNames(k, k, BaseName(path));
    if NormalSegment(BaseName(path)) {
      ResolveChild(Parent(path), NumberedName(k, BaseName(path)));
      assert BaseName(newTargetPath) != RootConfigName;
    }
    fs.Copy(path, newTargetPath, isDirectory);
    var nextConfig := config.Clone();
    if Truthy(mutatedInput) {
      nextConfig.SetInput(mutatedInput);
    }
    r := TransformEntry(fs, rootConfig, nextConfig, or, newTargetPath, pathOrig, file, true, fuel);
  }

  /** The action step: an excluded entry is removed (a directory with
      `-r`), a raw directory is recorded in the root configuration, a
      directory is walked and a template file is written with its rendered
      text. */
  method Act(fs: FileSystem, rootConfig: Config, config: Config, or: Oracles, path: Path, pathOrig: Path,
             info: FileInfo, action: Action, fuel: nat)
    returns (r: Result<(seq<string>, seq<Visit>), Failure>)
    modifies fs, rootConfig`rawDirectories
    ensures old(rootConfig.rawDirectories) <= rootConfig.rawDirectories
    ensures action != Recurse
      ==> && r == Success(([], []))
          && fs.root == ActEffect(old(fs.root), action, path, info.isDirectory, info.content)
          && rootConfig.rawDirectories
             == old(rootConfig.rawDirectories) + (if action == KeepRaw && info.isDirectory then {path} else {})
    ensures action == Recurse && r.Success?
      ==> DirectoryVisits(r.value.0, r.value.1, old(fs.root), path, pathOrig, config.input)
    ensures r.Success? ==> AllWalked(r.value.1, or, config.template, config.ejs, config.rawGlobs, false)
    decreases fuel, 5
  {
    match action {
      case Remove =>
        if info.isDirectory {
          fs.Remove(path);
        } else {
          fs.RemoveFile(path);
        }
      case KeepRaw =>
        if info.isDirectory {
          rootConfig.rawDirectories := rootConfig.rawDirectories + {path};
        }
      case Recurse =>
        r := TransformDirectory(fs, rootConfig, config, or, path, pathOrig, fuel);
        return;
      case Rewrite =>
        fs.Rewrite(path, info.content);
    }
    return Success(([], []));
  }

  /** The rename step once the target is known: a directory is merged into
      the target, a file copied there after its directory is made, and the
      old entry removed. */
  method Move(fs: FileSystem, from: Path, to: Path, isDirectory: bool)
    modifies fs
    ensures fs.root == MoveEffect(old(fs.root), from, to, isDirectory)
  {
    if from != to {
      if isDirectory {
        MergeDirectories(fs, from, to);
      } else {
        fs.MakeDirs(Parent(to));
        fs.Copy(from, to, false);
      }
      fs.Remove(from);
    }
  }

  /** `applyTransformationDirectory`: lists the directory, sets the
      directive files apart, pairs each content entry with its directive
      (a name inherited by the table's object makes this fail, and then no
      entry is walked), walks the content entries one after another in
      listing order, and then deletes the filed directive files. */
  method TransformDirectory(fs: FileSystem, rootConfig: Config, config: Config, or: Oracles,
                            path: Path, pathOrig: Path, fuel: nat)
    returns (r: Result<(seq<string>, seq<Visit>), Failure>)
    modifies fs, rootConfig`rawDirectories
    decreases fuel, 4
    ensures r.Success? ==> DirectoryVisits(r.value.0, r.value.1, old(fs.root), path, pathOrig, config.input)
    ensures r.Success? ==> forall d :: d in DirectiveTable(r.value.0).Values ==> !IsFile(fs.root, path + [d])
    ensures r.Success? ==> AllWalked(r.value.1, or, config.template, config.ejs, config.rawGlobs, false)
    ensures old(rootConfig.rawDirectories) <= rootConfig.rawDirectories
  {
    var listing := fs.ReadDir(path);
    if listing.None? {
      return Failure(NotADirectory(path));
    }
    var children := listing.value;
    var names, table := SplitListing(children);
    var files := PairDirectives(table, names, path, pathOrig);
    if files.Failure? {
      return Failure(files.error);
    }
    var visits :- WalkEntries(fs, rootConfig, config, or, path, pathOrig, names, files.value, fuel);
    DeleteDirectives(fs, path, table);
    return Success((children, visits));
  }

  /** The promise chain of `applyTransformationDirectory`: the content
      entries `names`, each with its directive file, walked one after
      another by `WalkChild`. */
  method WalkEntries(fs: FileSystem, rootConfig: Config, config: Config, or: Oracles, path: Path, pathOrig: Path,
                     names: seq<string>, files: seq<Option<DirectiveFile>>, fuel: nat)
    returns (r: Result<seq<Visit>, Failure>)
    modifies fs, rootConfig`rawDirectories
    requires |files| == |names|
    decreases fuel, 3
    ensures r.Success? ==> |r.value| == |names|
    ensures r.Success? ==> forall j :: 0 <= j < |names| ==>
      ChildVisit(r.value[j], path + [names[j]], pathOrig + [names[j]], files[j], config.input)
    ensures r.Success? ==> AllWalked(r.value, or, config.template, config.ejs, config.rawGlobs, false)
    ensures old(rootConfig.rawDirectories) <= rootConfig.rawDirectories
  {
    var visits: seq<Visit> := [];
    for i := 0 to |names|
      invariant |visits| == i
      invariant forall j :: 0 <= j < i ==>
        ChildVisit(visits[j], path + [names[j]], pathOrig + [names[j]], files[j], config.input)
      invariant AllWalked(visits, or, config.template, config.ejs, config.rawGlobs, false)
      invariant old(rootConfig.rawDirectories) <= rootConfig.rawDirectories
    {
      var v :- WalkChild(fs, rootConfig, config, or, path + [names[i]], pathOrig + [names[i]], files[i], fuel);
      AllWalkedAppend(visits, v, or, config.template, config.ejs, config.rawGlobs, false);
      visits := visits + [v];
    }
    return Success(visits);
  }

  /** One link of the chain: the content entry at `path` walked with a copy
      of the configuration. */
  method WalkChild(fs: FileSystem, rootConfig: Config, config: Config, or: Oracles, path: Path, pathOrig: Path,
                   file: Option<DirectiveFile>, fuel: nat)
    returns (r: Result<Visit, Failure>)
    modifies fs, rootConfig`rawDirectories
    decreases fuel, 2
    ensures r.Success? ==> ChildVisit(r.value, path, pathOrig, file, config.input)
    ensures r.Success? ==> WalkedTree(r.value, or, config.template, config.ejs, config.rawGlobs, false)
    ensures old(rootConfig.rawDirectories) <= rootConfig.rawDirectories
  {
    var nextConfig := config.Clone();
    r := TransformEntry(fs, rootConfig, nextConfig, or, path, pathOrig, file, false, fuel);
  }

  /** The filter over the listing that files each directive name in the
      table and keeps the other names. */
  method SplitListing(children: seq<string>) returns (names: seq<string>, table: map<string, string>)
    ensures names == ContentNames(children) && table == DirectiveTable(children)
  {
    names, table := [], map[];
    for i := 0 to |children|
      invariant names == ContentNames(children[..i]) && table == DirectiveTable(children[..i])
    {
      var name := children[i];
      assert children[..i + 1][..i] == children[..i];
      if IsDirectiveName(name) {
        var key := DirectiveKey(name);
        if key != ProtoKey {
          table := table[key := name];
        }
      } else {
        names := names + [name];
      }
    }
    assert children[..|children|] == children;
  }

  /** The `forEach` that builds the chain: the directive file of every
      content entry, looked up before any entry is walked. */
  method PairDirectives(table: map<string, string>, names: seq<string>, path: Path, pathOrig: Path)
    returns (r: Result<seq<Option<DirectiveFile>>, Failure>)
    ensures r.Success? <==> forall i :: 0 <= i < |names| ==> DirectiveFor(table, names[i]).Success?
    ensures r.Success? ==> |r.value| == |names| && forall i :: 0 <= i < |names| ==>
      r.value[i] == FileOf(DirectiveFor(table, names[i]).value, path, pathOrig)
    ensures r.Failure? ==> r.error == TypeError
  {
    var files: seq<Option<DirectiveFile>> := [];
    for i := 0 to |names|
      invariant |files| == i
      invariant forall j :: 0 <= j < i ==> DirectiveFor(table, names[j]).Success?
      invariant forall j :: 0 <= j < i ==> files[j] == FileOf(DirectiveFor(table, names[j]).value, path, pathOrig)
    {
      var found := DirectiveFor(table, names[i]);
      if found.Failure? {
        return Failure(found.error);
      }
      files := files + [FileOf(found.value, path, pathOrig)];
    }
    return Success(files);
  }

  /** The entries `es` without the files among `names`. */
  function Kept(es: map<string, Node>, names: set<string>): map<string, Node> {
    map k | k in es && !(k in names && es[k].File?) :: es[k]
  }

  /** The tree with the files among `names` removed from the directory at
      `dir`. */
  function WithoutFiles(n: Node, dir: Path, names: set<string>): Node {
    match Get(n, dir)
    case Some(Dir(es)) =>
      if dir == [] then Dir(Kept(es, names)) else Place(n, dir, Some(Dir(Kept(es, names))))
    case _ => n
  }

  /** Removing no file changes nothing. */
  lemma WithoutNothing(n: Node, dir: Path)
    ensures WithoutFiles(n, dir, {}) == n
  {
    match Get(n, dir)
    case Some(Dir(es)) =>
      assert Kept(es, {}) == es;
      if dir != [] {
        PlaceSame(n, dir);
      }
    case _ =>
  }

  /** Removing one more file. */
  lemma WithoutFilesStep(n: Node, dir: Path, names: set<string>, d: string)
    ensures RemovedFile(WithoutFiles(n, dir, names), dir + [d]) == WithoutFiles(n, dir, names + {d})
  {
    var w := WithoutFiles(n, dir, names);
    match Get(n, dir)
    case Some(Dir(es)) =>
      var m := Kept(es, names);
      var m' := Kept(es, names + {d});
      GetAppend(w, dir, [d]);
      if dir == [] {
        assert dir + [d] == [d];
        if d in m && m[d].File? {
          assert m' == m - {d};
        } else {
          assert m' == m;
        }
      } else {
        AncestorIsDir(n, dir, Parent(dir));
        PlaceBelow(n, dir, Some(Dir(m)), dir);
        if d in m && m[d].File? {
          PlaceNested(n, dir, m, d, None);
          assert m' == m - {d};
        } else {
          assert m' == m;
        }
      }
    case _ =>
      GetAppend(n, dir, [d]);
  }

  /** None of the files among `names` is left in the directory. */
  lemma WithoutFilesGone(n: Node, dir: Path, names: set<string>, d: string)
    requires d in names
    ensures !IsFile(WithoutFiles(n, dir, names), dir + [d])
  {
    var w := WithoutFiles(n, dir, names);
    GetAppend(w, dir, [d]);
    match Get(n, dir)
    case Some(Dir(es)) =>
      if dir != [] {
        AncestorIsDir(n, dir, Parent(dir));
        PlaceBelow(n, dir, Some(Dir(Kept(es, names))), dir);
      }
    case _ =>
      GetAppend(n, dir, [d]);
  }

  /** The `forEach` over the table's values that removes every directive
      file of the directory (a name that is not a file stays). */
  method DeleteDirectives(fs: FileSystem, path: Path, table: map<string, string>)
    modifies fs
    ensures fs.root == WithoutFiles(old(fs.root), path, table.Values)
    ensures forall d :: d in table.Values ==> !IsFile(fs.root, path + [d])
  {
    var remaining := table.Values;
    ghost var removed: set<string> := {};
    ghost var start := fs.root;
    WithoutNothing(start, path);
    while remaining != {}
      invariant remaining + removed == table.Values && remaining !! removed
      invariant fs.root == WithoutFiles(start, path, removed)
      decreases |remaining|
    {
      var d :| d in remaining;
      fs.RemoveFile(path + [d]);
      WithoutFilesStep(start, path, removed, d);
      remaining := remaining - {d};
      removed := removed + {d};
    }
    forall d | d in table.Values
      ensures !IsFile(fs.root, path + [d])
    {
      WithoutFilesGone(start, path, table.Values, d);
    }
  }
}
