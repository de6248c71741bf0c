/** The naming rules of the template walker in lib/hoppla.js: which names
    are templates and which are directives, how a directive is paired with
    its entry, where an entry is renamed to, and how directives and
    templates are read. */
module HopplaRules {
  import opened Wrappers
  import opened Errors
  import opened NodePath
  import opened JsValues
  import opened FileTree
  import opened Externals
  import opened Util
  import opened UserFileConfig

  const TemplateSuffix: string := "hop.ejs"
  const DirectiveSuffix: string := ".hopplaconfig"
  /** The name of the template's own directive file. */
  const RootConfigName: string := "hopplaconfig"

  // ----- the template suffix -----

  /** The text of the suffix expression. The template literal turns `\.`
      into a bare `.`, so only the escaped suffix keeps its backslash. */
  function SuffixPattern(): string {
    "." + EscapeRegExp(TemplateSuffix) + "$"
  }

  /** The expression is a wildcard `.`, the suffix escaped so that it reads
      literally, and the end anchor `$`. */
  lemma SuffixPatternText()
    ensures var p := SuffixPattern();
      && p[0] == '.' && RegExpSpecial(p[0]) && p[|p| - 1] == '$'
      && p[1..|p| - 1] == EscapeRegExp(TemplateSuffix)
      && Literal(EscapeRegExp(TemplateSuffix)) && Unescape(EscapeRegExp(TemplateSuffix)) == TemplateSuffix
  {
    EscapeRegExpIsLiteral(TemplateSuffix);
  }

  /** The characters the wildcard `.` does not match. */
  predicate LineTerminator(c: char) {
    c == '\n' || c == '\r' || c == '\U{2028}' || c == '\U{2029}'
  }

  /** `s` matches `.hop\.ejs$`: one character that is not a line terminator,
      then `hop.ejs`, at the end of `s`. */
  predicate MatchesSuffix(s: string) {
    |s| > |TemplateSuffix|
    && !LineTerminator(s[|s| - |TemplateSuffix| - 1])
    && s[|s| - |TemplateSuffix|..] == TemplateSuffix
  }

  /** `s.replace(HOPPLA_EJS_FILE_SUFFIX_REGEX, "")` */
  function StripSuffix(s: string): string {
    if MatchesSuffix(s) then s[..|s| - |TemplateSuffix| - 1] else s
  }

  /** A name ending in ".hop.ejs" loses exactly that ending. */
  lemma StripTemplateName(stem: string)
    ensures MatchesSuffix(stem + "." + TemplateSuffix)
    ensures StripSuffix(stem + "." + TemplateSuffix) == stem
  {
    var s := stem + "." + TemplateSuffix;
    assert s[|s| - |TemplateSuffix|..] == TemplateSuffix;
    assert s[|s| - |TemplateSuffix| - 1] == '.';
    assert s[..|s| - |TemplateSuffix| - 1] == stem;
  }

  /** Because the dot is a wildcard, a name ending in "hop.ejs" after any
      other character loses eight characters too: "workshop.ejs" becomes
      "work". */
  lemma StripWorkshop()
    ensures MatchesSuffix("workshop.ejs") && StripSuffix("workshop.ejs") == "work"
  {
    assert "workshop.ejs"[5..] == TemplateSuffix;
  }

  // ----- directive names -----

  /** `name.endsWith(".hopplaconfig")` */
  predicate IsDirectiveName(name: string) {
    |name| >= |DirectiveSuffix| && name[|name| - |DirectiveSuffix|..] == DirectiveSuffix
  }

  predicate OccursAt(s: string, pat: string, i: int) {
    0 <= i && i + |pat| <= |s| && s[i..i + |pat|] == pat
  }

  /** `s.indexOf(pat, from)` */
  function IndexOf(s: string, pat: string, from: nat): (r: Option<nat>)
    decreases |s| - from
    ensures r.Some? ==> from <= r.value && OccursAt(s, pat, r.value)
    ensures r.Some? ==> forall i :: from <= i < r.value ==> !OccursAt(s, pat, i)
    ensures r.None? ==> forall i :: from <= i ==> !OccursAt(s, pat, i)
  {
    if from + |pat| > |s| then None
    else if s[from..from + |pat|] == pat then Some(from)
    else IndexOf(s, pat, from + 1)
  }

  /** `name.replace(".hopplaconfig", "")`: a string pattern replaces its
      first occurrence only. */
  function DirectiveKey(name: string): string {
    match IndexOf(name, DirectiveSuffix, 0)
    case Some(i) => name[..i] + name[i + |DirectiveSuffix|..]
    case None => name
  }

  /** Only the first ".hopplaconfig" is cut: in a name made of a part
      without the suffix, the suffix and any rest, the rest stays even when
      it ends with the suffix again. */
  lemma DirectiveKeyCutsFirst(k: string, rest: string)
    requires forall i :: !OccursAt(k, DirectiveSuffix, i)
    ensures DirectiveKey(k + DirectiveSuffix + rest) == k + rest
  {
    var s := k + DirectiveSuffix + rest;
    assert OccursAt(s, DirectiveSuffix, |k|) by {
      assert s[|k|..|k| + |DirectiveSuffix|] == DirectiveSuffix;
    }
    forall i | 0 <= i < |k|
      ensures !OccursAt(s, DirectiveSuffix, i)
    {
      if i + |DirectiveSuffix| <= |k| {
        assert s[i..i + |DirectiveSuffix|] == k[i..i + |DirectiveSuffix|];
        assert !OccursAt(k, DirectiveSuffix, i);
      } else {
        // An occurrence reaching into the suffix would put the suffix's dot
        // inside another copy of it, where the suffix holds no dot.
        assert s[|k|] == '.';
        assert s[i..i + |DirectiveSuffix|][|k| - i] == s[|k|];
        assert DirectiveSuffix[|k| - i] != '.';
      }
    }
    var r := IndexOf(s, DirectiveSuffix, 0);
    assert r == Some(|k|);
    assert s[..|k|] + s[|k| + |DirectiveSuffix|..] == k + rest;
  }

  /** A directive named after an entry ("main.js.hopplaconfig") is filed
      under the entry's name ("main.js"), as long as that name does not
      hold ".hopplaconfig" itself. */
  lemma DirectiveKeyOf(k: string)
    requires forall i :: !OccursAt(k, DirectiveSuffix, i)
    ensures IsDirectiveName(k + DirectiveSuffix)
    ensures DirectiveKey(k + DirectiveSuffix) == k
  {
    DirectiveKeyCutsFirst(k, "");
    assert k + DirectiveSuffix + "" == k + DirectiveSuffix;
    var s := k + DirectiveSuffix;
    assert s[|s| - |DirectiveSuffix|..] == DirectiveSuffix;
  }

  // ----- the directives of a directory -----

  /** Assigning to `__proto__` stores nothing. */
  const ProtoKey: string := "__proto__"

  /** The key a listed name is filed under: directive names by their key,
      except `__proto__`; other names are not filed. */
  function Filing(c: string): Option<string> {
    if IsDirectiveName(c) && DirectiveKey(c) != ProtoKey then Some(DirectiveKey(c)) else None
  }

  /** The table built by filing the names of a listing in order, a later
      name replacing an earlier one filed under the same key. */
  function TableOf(children: seq<string>, filing: string -> Option<string>): map<string, string> {
    if children == [] then map[]
    else
      var t := TableOf(children[..|children| - 1], filing);
      var c := children[|children| - 1];
      if filing(c).Some? then t[filing(c).value := c] else t
  }

  /** `hopplaConfigByFileName` once the listing has been filtered: every
      directive name under its key, a later name replacing an earlier one
      with the same key. */
  function DirectiveTable(children: seq<string>): map<string, string> {
    TableOf(children, Filing)
  }

  /** The listing without its directive names, in listing order. */
  function ContentNames(children: seq<string>): (r: seq<string>)
    ensures |r| <= |children|
    ensures forall c :: c in r <==> c in children && !IsDirectiveName(c)
  {
    if children == [] then []
    else
      var rest := ContentNames(children[..|children| - 1]);
      var c := children[|children| - 1];
      assert children == children[..|children| - 1] + [c];
      if IsDirectiveName(c) then rest else rest + [c]
  }

  lemma {:induction false} TableOfSound(children: seq<string>, filing: string -> Option<string>, key: string)
    requires key in TableOf(children, filing)
    ensures TableOf(children, filing)[key] in children
    ensures filing(TableOf(children, filing)[key]) == Some(key)
  {
    var init := children[..|children| - 1];
    var c := children[|children| - 1];
    assert children == init + [c];
    if filing(c) != Some(key) {
      TableOfSound(init, filing, key);
    }
  }

  lemma {:induction false} TableOfHas(children: seq<string>, filing: string -> Option<string>, i: int)
    requires 0 <= i < |children| && filing(children[i]).Some?
    ensures filing(children[i]).value in TableOf(children, filing)
  {
    var n := |children| - 1;
    if i < n {
      assert children[..n][i] == children[i];
      TableOfHas(children[..n], filing, i);
    }
  }

  lemma {:induction false} TableOfLast(children: seq<string>, filing: string -> Option<string>, i: int)
    requires 0 <= i < |children| && filing(children[i]).Some?
    requires forall l :: i < l < |children| ==> filing(children[l]) != filing(children[i])
    ensures filing(children[i]).value in TableOf(children, filing)
    ensures TableOf(children, filing)[filing(children[i]).value] == children[i]
  {
    TableOfHas(children, filing, i);
    var n := |children| - 1;
    if i < n {
      var init := children[..n];
      assert init[i] == children[i];
      forall l | i < l < |init|
        ensures filing(init[l]) != filing(children[i])
      {
        assert init[l] == children[l];
      }
      TableOfLast(init, filing, i);
    }
  }

  /** Every entry of the table is a directive of the listing filed under its
      own key. */
  lemma DirectiveTableSound(children: seq<string>, key: string)
    requires key in DirectiveTable(children)
    ensures DirectiveTable(children)[key] in children
    ensures IsDirectiveName(DirectiveTable(children)[key])
    ensures DirectiveKey(DirectiveTable(children)[key]) == key && key != ProtoKey
  {
    TableOfSound(children, Filing, key);
  }

  /** Every directive of the listing with a key other than `__proto__` is
      filed. */
  lemma DirectiveTableHas(children: seq<string>, i: int)
    requires 0 <= i < |children| && IsDirectiveName(children[i])
    requires DirectiveKey(children[i]) != ProtoKey
    ensures DirectiveKey(children[i]) in DirectiveTable(children)
  {
    TableOfHas(children, Filing, i);
  }

  /** Under its key the table holds the last directive of the listing with
      that key. */
  lemma DirectiveTableLast(children: seq<string>, i: int)
    requires 0 <= i < |children| && IsDirectiveName(children[i])
    requires DirectiveKey(children[i]) != ProtoKey
    requires forall l :: i < l < |children| ==>
      !(IsDirectiveName(children[l]) && DirectiveKey(children[l]) == DirectiveKey(children[i]))
    ensures DirectiveKey(children[i]) in DirectiveTable(children)
    ensures DirectiveTable(children)[DirectiveKey(children[i])] == children[i]
  {
    forall l | i < l < |children|
      ensures Filing(children[l]) != Filing(children[i])
    {
    }
    TableOfHas(children, Filing, i);
    TableOfLast(children, Filing, i);
  }

  /** The names an object literal inherits from `Object.prototype`: looked
      up in the table they give a function or an object, never a string. */
  const ObjectPrototypeNames: set<string> := {
    "constructor", "__defineGetter__", "__defineSetter__", "hasOwnProperty",
    "__lookupGetter__", "__lookupSetter__", "isPrototypeOf",
    "propertyIsEnumerable", "toString", "valueOf", "__proto__", "toLocaleString"}

  /** The directive file paired with the entry `name`: the table is looked up
      with the name stripped of its template suffix. An inherited member
      found there is truthy and reaches `path.resolve`, which throws a
      TypeError. */
  function DirectiveFor(table: map<string, string>, name: string): Result<Option<string>, Failure> {
    var key := StripSuffix(name);
    if key in table then Success(Some(table[key]))
    else if key in ObjectPrototypeNames then Failure(TypeError)
    else Success(None)
  }

  /** The pairing in full: a directive found has the entry's key, no
      directive is found only when the listing holds none with that key,
      and the lookup fails only for an inherited name no directive claims. */
  lemma DirectiveForCases(children: seq<string>, name: string)
    ensures
      var r := DirectiveFor(DirectiveTable(children), name);
      && (r.Success? && r.value.Some? ==>
            r.value.value in children && IsDirectiveName(r.value.value)
            && DirectiveKey(r.value.value) == StripSuffix(name))
      && (r.Success? && r.value.None? ==>
            forall d :: d in children && IsDirectiveName(d) ==> DirectiveKey(d) != StripSuffix(name))
      && (r.Failure? <==> StripSuffix(name) in ObjectPrototypeNames && StripSuffix(name) !in DirectiveTable(children))
      && (r.Failure? ==> r.error == TypeError)
  {
    var t := DirectiveTable(children);
    var key := StripSuffix(name);
    if key in t {
      DirectiveTableSound(children, key);
    } else if key !in ObjectPrototypeNames {
      forall d | d in children && IsDirectiveName(d)
        ensures DirectiveKey(d) != key
      {
        var i :| 0 <= i < |children| && children[i] == d;
        if DirectiveKey(d) == key {
          DirectiveTableHas(children, i);
        }
      }
    }
  }

  /** "main.js.hop.ejs" and "main.js" are both paired with
      "main.js.hopplaconfig" (or with a later directive of the same key). */
  lemma TemplatePairsWithDirective(children: seq<string>, stem: string)
    requires stem + DirectiveSuffix in children
    requires forall i :: !OccursAt(stem, DirectiveSuffix, i)
    requires stem != ProtoKey
    ensures
      var r := DirectiveFor(DirectiveTable(children), stem + "." + TemplateSuffix);
      r.Success? && r.value.Some? && DirectiveKey(r.value.value) == stem
    ensures
      var r := DirectiveFor(DirectiveTable(children), stem);
      !MatchesSuffix(stem) ==> r.Success? && r.value.Some? && DirectiveKey(r.value.value) == stem
  {
    DirectiveKeyOf(stem);
    var i :| 0 <= i < |children| && children[i] == stem + DirectiveSuffix;
    DirectiveTableHas(children, i);
    StripTemplateName(stem);
    DirectiveForCases(children, stem + "." + TemplateSuffix);
    DirectiveForCases(children, stem);
  }

  // ----- raw entries -----

  /** The patterns that make every file raw except directives and templates. */
  const DefaultRawPatterns: JsValue := Arr([Str("**/*"), Str("!**/*hopplaconfig"), Str("!**/*.hop.ejs")])

  /** Whether the walker copies an entry without transforming it: the
      directive's `raw` decides when it is set; otherwise a file is raw when
      it matches the default patterns, and any entry is raw when it matches
      the raw globs. */
  function IsRaw(or: Oracles, rawSetting: JsValue, isDirectory: bool, rel: string, rawGlobs: JsValue): (r: bool)
    ensures !IsNullish(rawSetting) ==> (r <==> Truthy(rawSetting))
    ensures IsNullish(rawSetting) && isDirectory ==> (r <==> or.matches(rel, rawGlobs))
    ensures IsNullish(rawSetting) && !isDirectory
         ==> (r <==> or.matches(rel, rawGlobs) || or.matches(rel, DefaultRawPatterns))
  {
    if !IsNullish(rawSetting) then Truthy(rawSetting)
    else
      var byDefault := !isDirectory && or.matches(rel, DefaultRawPatterns);
      if or.matches(rel, rawGlobs) then true else byDefault
  }

  // ----- what happens to an entry -----

  datatype Action = Remove | KeepRaw | Recurse | Rewrite

  /** The act step: excluded entries go, raw ones stay as they are,
      directories are walked and other files are rewritten. */
  function ActionOf(exclude: bool, raw: bool, isDirectory: bool): Action {
    if exclude then Remove
    else if raw then KeepRaw
    else if isDirectory then Recurse
    else Rewrite
  }

  /** The tree after the act step, for every action but `Recurse`. */
  function ActEffect(n: Node, a: Action, path: Path, isDirectory: bool, content: string): Node {
    match a
    case Remove => if isDirectory then Place(n, path, None) else RemovedFile(n, path)
    case Rewrite => if IsFile(n, path) then Place(n, path, Some(File(content))) else n
    case _ => n
  }

  // ----- renaming -----

  /** The directive's `fileName` as the rename step reads it: a falsy one is
      replaced by the path stripped of the template suffix when the path
      matches it. */
  function FileNameSetting(directive: JsValue, pathString: string): Result<JsValue, Failure> {
    var fileName :- Prop(directive, "fileName");
    if !Truthy(fileName) && MatchesSuffix(pathString) then
      var d :- SetProp(directive, "fileName", Str(StripSuffix(pathString)));
      Prop(d, "fileName")
    else Success(fileName)
  }

  /** Where the rename step puts the entry at `path`: a truthy `fileName` is
      resolved against the entry's directory (a value that is not a string
      makes `path.resolve` throw); without one the entry stays. */
  function RenameTarget(directive: JsValue, path: Path): Result<Path, Failure> {
    var fileName :- FileNameSetting(directive, PathString(path));
    if !Truthy(fileName) then Success(path)
    else if !fileName.Str? then Failure(TypeError)
    else Success(Resolve(Parent(path), fileName.s))
  }

  /** A `fileName` that is a plain name renames the entry within its directory. */
  lemma RenameToFileName(directive: JsValue, path: Path, name: string)
    requires Prop(directive, "fileName") == Success(Str(name)) && NormalSegment(name)
    ensures RenameTarget(directive, path) == Success(Parent(path) + [name])
  {
    ResolveChild(Parent(path), name);
  }

  /** Without a `fileName`, a path matching the suffix is resolved with the
      suffix cut off. */
  lemma RenameStripped(directive: JsValue, path: Path)
    requires directive.Obj? && !Truthy(Prop(directive, "fileName").value)
    requires MatchesSuffix(PathString(path))
    ensures RenameTarget(directive, path)
         == Success(if StripSuffix(PathString(path)) == "" then path
                    else Resolve(Parent(path), StripSuffix(PathString(path))))
  {
    var s := PathString(path);
    var stripped := StripSuffix(s);
    var d := SetProp(directive, "fileName", Str(stripped)).value;
    assert FileNameSetting(directive, s) == Prop(d, "fileName") == Success(Str(stripped));
  }

  /** Without a `fileName`, a name matching the suffix loses its last eight
      characters: "main.js.hop.ejs" becomes "main.js" and, as the dot is a
      wildcard, "workshop.ejs" becomes "work". */
  lemma RenameBySuffix(directive: JsValue, parent: Path, name: string)
    requires directive.Obj? && !Truthy(Prop(directive, "fileName").value)
    requires NormalPath(parent) && MatchesSuffix(name)
    requires NormalSegment(StripSuffix(name))
    ensures RenameTarget(directive, parent + [name]) == Success(parent + [StripSuffix(name)])
  {
    var path := parent + [name];
    var stem := StripSuffix(name);
    PathStringChild(parent, name);
    PathStringChild(parent, stem);
    var prefix := if parent == [] then "/" else PathString(parent) + "/";
    var s := PathString(path);
    assert s == prefix + name;
    assert s[|s| - |TemplateSuffix|..] == name[|name| - |TemplateSuffix|..];
    assert s[|s| - |TemplateSuffix| - 1] == name[|name| - |TemplateSuffix| - 1];
    assert StripSuffix(s) == prefix + stem == PathString(parent + [stem]) != "";
    RenameStripped(directive, path);
    assert NormalPath(parent + [stem]);
    ResolvePathString(Parent(path), parent + [stem]);
  }

  /** A template file named after the suffix alone with one character in
      front ("shop.ejs") is renamed onto its own directory. The character
      is one UTF-16 code unit, which the pattern's `.` matches whole. */
  lemma RenameOntoParent(directive: JsValue, parent: Path, c: char)
    requires directive.Obj? && !Truthy(Prop(directive, "fileName").value)
    requires NormalPath(parent) && !LineTerminator(c) && c != '/' && c < '\U{10000}'
    ensures RenameTarget(directive, parent + [[c] + TemplateSuffix]) == Success(parent)
  {
    var name := [c] + TemplateSuffix;
    var path := parent + [name];
    PathStringChild(parent, name);
    var s := PathString(path);
    var prefix := if parent == [] then "/" else PathString(parent) + "/";
    assert s == prefix + name;
    assert s[|s| - |TemplateSuffix|..] == TemplateSuffix;
    assert s[|s| - |TemplateSuffix| - 1] == c;
    assert StripSuffix(s) == prefix != "";
    RenameStripped(directive, path);
    if parent == [] {
      assert Split("/") == ["", ""];
    } else {
      SplitSlash(PathString(parent));
      NormalizeEmpty([], Split(PathString(parent)));
      ResolvePathString(parent, parent);
    }
  }

  /** A trailing slash adds one empty segment. */
  lemma {:induction false} SplitSlash(s: string)
    ensures Split(s + "/") == Split(s) + [""]
  {
    if s == [] {
      assert Split("/") == [""] + Split("");
    } else {
      assert (s + "/")[1..] == s[1..] + "/";
      SplitSlash(s[1..]);
    }
  }

  /** An empty last segment changes nothing. */
  lemma {:induction false} NormalizeEmpty(acc: Path, segs: seq<string>)
    ensures Normalize(acc, segs + [""]) == Normalize(acc, segs)
    decreases |segs|
  {
    if segs != [] {
      assert (segs + [""])[1..] == segs[1..] + [""];
      var s := segs[0];
      var next := if s == "" || s == "." then acc else if s == ".." then Parent(acc) else acc + [s];
      NormalizeEmpty(next, segs[1..]);
    }
  }

  /** The tree after the rename step moved an entry from `from` to `to`: a
      directory is merged into the target, a file copied over it once the
      target's directory exists; then the old entry is removed. */
  function MoveEffect(n: Node, from: Path, to: Path, isDirectory: bool): Node {
    if from == to then n
    else
      var moved := if isDirectory then MergedDirectories(n, from, to)
                   else Cp(Mkdirp(n, Parent(to)), from, to, false);
      Place(moved, from, None)
  }

  /** The directory holding `from` survives the steps of a move that create
      or fill `to`. */
  lemma KeepsParentDir(n: Node, from: Path, to: Path)
    requires Get(n, from).Some? && from != [] && Separate(from, to)
    ensures IsDir(n, Parent(from))
    ensures IsDir(Mkdirp(n, Parent(to)), Parent(from))
    ensures IsDir(Mkdirp(n, to), Parent(from))
  {
    AncestorIsDir(n, from, Parent(from));
    if Parent(from) <= Parent(to) {
      MkdirpKeepsDirs(n, Parent(to), Parent(from));
    } else {
      MkdirpElsewhere(n, Parent(to), Parent(from));
    }
    if Parent(from) <= to {
      MkdirpKeepsDirs(n, to, Parent(from));
    } else {
      MkdirpElsewhere(n, to, Parent(from));
    }
  }

  /** Moving a file to a free place apart from it: the file is found at the
      target and no longer at its old place. */
  lemma MoveFileResult(n: Node, from: Path, to: Path)
    requires n.Dir? && IsFile(n, from) && from != [] && Separate(from, to)
    requires NoFileOn(n, Parent(to)) && Get(n, to).None?
    ensures Get(MoveEffect(n, from, to, false), to) == Get(n, from)
    ensures Get(MoveEffect(n, from, to, false), from).None?
  {
    var n1 := Mkdirp(n, Parent(to));
    MkdirpMakesDir(n, Parent(to));
    assert to != [];
    MkdirpElsewhere(n, Parent(to), from);
    MkdirpElsewhere(n, Parent(to), to);
    assert CopyTarget(n1, to, BaseName(from)) == to;
    var n2 := Cp(n1, from, to, false);
    assert n2 == Place(n1, to, Some(Get(n, from).value));
    PlaceBelow(n1, to, Some(Get(n, from).value), to);
    PlaceElsewhere(n1, to, Some(Get(n, from).value), from);
    KeepsParentDir(n, from, to);
    if Parent(from) < to {
      PlaceAbove(n1, to, Some(Get(n, from).value), Parent(from));
    } else {
      assert Separate(to, Parent(from));
      PlaceElsewhere(n1, to, Some(Get(n, from).value), Parent(from));
    }
    PlaceBelow(n2, from, None, from);
    PlaceElsewhere(n2, from, None, to);
  }

  /** Moving a non-empty directory to a place apart from it: the target is a
      directory holding the old entries of the target and every visible
      entry of the source, and the source is gone. */
  lemma MoveDirectoryResult(n: Node, from: Path, to: Path)
    requires n.Dir? && IsDir(n, from) && Get(n, from).value.entries != map[]
    requires from != [] && Separate(from, to) && NoFileOn(n, to)
    ensures IsDir(MoveEffect(n, from, to, true), to)
    ensures Get(MoveEffect(n, from, to, true), to).value.entries.Keys
         == (if IsDir(n, to) then Get(n, to).value.entries.Keys else {})
            + Visible(Get(n, from).value.entries).Keys
    ensures Get(MoveEffect(n, from, to, true), from).None?
  {
    var x :| x in Get(n, from).value.entries;
    MergeDirectoriesResult(n, from, to, x);
    var m := MergedDirectories(n, from, to);
    var n1 := Mkdirp(n, to);
    assert m == CopyChildren(n1, from, to);
    KeepsParentDir(n, from, to);
    MkdirpElsewhere(n, to, from);
    MkdirpMakesDir(n, to);
    var u := Union(Get(n1, to).value, Dir(Visible(Get(n, from).value.entries)));
    assert m == Place(n1, to, Some(u));
    assert to != [];
    if Parent(from) < to {
      PlaceAbove(n1, to, Some(u), Parent(from));
    } else {
      PlaceElsewhere(n1, to, Some(u), Parent(from));
    }
    PlaceBelow(m, from, None, from);
    PlaceElsewhere(m, from, None, to);
  }

  // ----- reading directives and templates -----

  /** `ejs.render` where a failure keeps the text as it was. */
  function RenderOrKeep(or: Oracles, text: string, input: JsValue, ejs: JsValue): string {
    match or.render(text, input, ejs)
    case Some(t) => t
    case None => text
  }

  /** The place of a directive file, and its place in the template for
      messages. */
  datatype DirectiveFile = DirectiveFile(path: Path, pathOrig: Path)

  /** `readPureHopplaConfig`: `{}` without a directive file, otherwise the
      file rendered (or kept when rendering fails) and parsed. */
  function ReadDirective(n: Node, or: Oracles, input: JsValue, ejs: JsValue, file: Option<DirectiveFile>)
    : (r: Result<JsValue, Failure>)
    ensures r.Failure? ==> file.Some? && r.error in {IsADirectory(file.value.path), InvalidHopplaconfig(file.value.pathOrig)}
    ensures file.None? || Get(n, file.value.path).None? ==> r == Success(Obj(map[]))
  {
    match file
    case None => Success(Obj(map[]))
    case Some(f) =>
      match Get(n, f.path)
      case None => Success(Obj(map[]))
      case Some(Dir(_)) => Failure(IsADirectory(f.path))
      case Some(File(text)) =>
        match or.parse(RenderOrKeep(or, text, input, ejs))
        case None => Failure(InvalidHopplaconfig(f.pathOrig))
        case Some(v) => Success(v)
  }

  /** `readTemplateFromFileInfo`: the rendered text without its header, and
      the header's directive. */
  function ReadTemplate(n: Node, or: Oracles, input: JsValue, ejs: JsValue, path: Path, pathOrig: Path)
    : Result<(string, JsValue), Failure>
  {
    match Get(n, path)
    case None => Failure(NoSuchEntry(path))
    case Some(Dir(_)) => Failure(IsADirectory(path))
    case Some(File(text)) =>
      var rendered := RenderOrKeep(or, text, input, ejs);
      var header :- CreateWithFileHeader(pathOrig, rendered, or.parse);
      Success((CleanFileHeaderContent(rendered), header))
  }

  /** A template whose rendering starts with a header: the header's body is
      parsed into the directive and the file keeps what follows the header. */
  lemma TemplateWithHeader(n: Node, or: Oracles, input: JsValue, ejs: JsValue, path: Path, pathOrig: Path,
                           text: string, body: string, rest: string)
    requires Get(n, path) == Some(File(text))
    requires or.render(text, input, ejs) == Some(StartMarker + body + EndMarker + rest)
    requires forall j :: |StartMarker| + |body| < j ==> !EndAt(StartMarker + body + EndMarker + rest, j)
    requires body != [] && or.parse(body).Some?
    ensures ReadTemplate(n, or, input, ejs, path, pathOrig) == Success((rest[NewlineRun(rest)..], or.parse(body).value))
  {
    HeaderParts(pathOrig, body, rest, or.parse);
  }

  /** A template whose rendering fails is read as it is; without a header
      its directive is `{}` and its text is unchanged. */
  lemma TemplateWithoutHeader(n: Node, or: Oracles, input: JsValue, ejs: JsValue, path: Path, pathOrig: Path,
                              text: string)
    requires Get(n, path) == Some(File(text))
    requires or.render(text, input, ejs).None? && !(StartMarker <= text)
    ensures ReadTemplate(n, or, input, ejs, path, pathOrig) == Success((text, Obj(map[])))
  {
    HeaderNeedsStartMarker(pathOrig, text, or.parse);
  }

  // ----- generated copies -----

  /** The name of the `k`-th copy made by a directive's `generate` code. */
  function NumberedName(k: nat, base: string): string {
    Decimal(k) + "_hoppla_" + base
  }

  /** Copies of one entry get distinct names, none of them the template's
      own directive name, and a plain name stays a plain name. */
  lemma NumberedNames(k: nat, l: nat, base: string)
    ensures k != l ==> NumberedName(k, base) != NumberedName(l, base)
    ensures NumberedName(k, base) != RootConfigName
    ensures NormalSegment(base) ==> NormalSegment(NumberedName(k, base))
  {
    var a := NumberedName(k, base);
    var dk := Decimal(k);
    assert a[0] == dk[0] && IsDigit(a[0]);
    if k != l && a == NumberedName(l, base) {
      var dl := Decimal(l);
      assert a == dk + ("_hoppla_" + base);
      assert NumberedName(l, base) == dl + ("_hoppla_" + base);
      DigitsPrefix(dk, "_hoppla_" + base, dl, "_hoppla_" + base);
      DecimalRoundTrip(k);
      DecimalRoundTrip(l);
    }
    if NormalSegment(base) {
      assert '/' !in a by {
        assert a == dk + "_hoppla_" + base;
        assert forall i :: 0 <= i < |dk| ==> IsDigit(dk[i]);
      }
    }
  }

  /** Two strings that start with digits followed by a non-digit split at
      the same place. */
  lemma DigitsPrefix(a: string, x: string, b: string, y: string)
    requires AllDigits(a) && AllDigits(b) && x != [] && y != [] && !IsDigit(x[0]) && !IsDigit(y[0])
    requires a + x == b + y
    ensures a == b
  {
    if |a| < |b| {
      ConcatIndex(a, x, |a|);
      ConcatIndex(b, y, |a|);
      assert false;
    } else if |b| < |a| {
      ConcatIndex(a, x, |b|);
      ConcatIndex(b, y, |b|);
      assert false;
    } else {
      assert a == (a + x)[..|a|] == (b + y)[..|b|] == b;
    }
  }

  lemma ConcatIndex(a: string, x: string, i: int)
    ensures 0 <= i < |a| ==> (a + x)[i] == a[i]
    ensures |a| <= i < |a| + |x| ==> (a + x)[i] == x[i - |a|]
  {
  }
}
