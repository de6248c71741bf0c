/** lib/config: the configuration record of one run, created once by
    `create` and then read (and partly rewritten) by the engine. */
module ConfigStore {
  import opened Wrappers
  import opened Errors
  import opened JsValues
  import opened NodePath
  import opened FileTree
  import opened Util

  /** The module-level EJS defaults of lib/config/ejs.js. */
  const EjsBaseDefaults: JsValue := Obj(map["delimiter" := Str("%"), "compileDebug" := Bool(true)])

  /** What `getDefaults` returns for a template: the EJS defaults with
      `root` set to the template path. */
  function EjsDefaults(template: Path): JsValue {
    Obj(EjsBaseDefaults.props["root" := Str(PathString(template))])
  }

  /** `globs.setWithDefaults` */
  const GlobsDefault: JsValue := Obj(map["raw" := Arr([]), "ignore" := Arr([])])

  /** `getDefaults`: a deep copy of the module defaults (so they are never
      written), with `root` added. */
  method GetDefaults(template: Path) returns (r: JsValue)
    ensures r.Obj? && r.props.Keys == {"delimiter", "compileDebug", "root"}
    ensures r.props["root"] == Str(PathString(template))
    ensures forall k :: k in EjsBaseDefaults.props ==> r.props[k] == EjsBaseDefaults.props[k]
  {
    MergeIntoEmptyCopies(EjsBaseDefaults);
    var copy := MergeDeep(Obj(map[]), EjsBaseDefaults);
    var withRoot := SetProp(copy.value, "root", Str(PathString(template)));
    r := withRoot.value;
  }

  /** The configuration record. `rawDirectories` is `cache.rawDirectories`:
      the working-copy paths registered as raw directories. */
  class Config {
    var destination: Path
    var template: Path
    var root: Path
    var input: JsValue
    var ejs: JsValue
    var globs: JsValue
    var rawGlobs: JsValue
    var excludeGlobs: JsValue
    var rawDirectories: set<Path>

    /** The empty object `create` starts from. */
    constructor ()
      ensures input == Undefined && ejs == Undefined && rawDirectories == {}
    {
      destination := [];
      template := [];
      root := [];
      input := Undefined;
      ejs := Undefined;
      globs := Undefined;
      rawGlobs := Undefined;
      excludeGlobs := Undefined;
      rawDirectories := {};
    }

    /** `create`: makes the destination directory, checks the template,
        stores the input (or `{}`), the root, the glob defaults and the EJS
        options merged over their defaults. */
    static method Create(fs: FileSystem, destination: Path, template: Path, input: JsValue, ejs: JsValue)
      returns (r: Result<Config, Failure>)
      modifies fs
      ensures fs.root == Mkdirp(old(fs.root), destination)
      ensures Get(fs.root, template).None? ==> r == Failure(TemplateMissing(template))
      ensures IsFile(fs.root, template) ==> r == Failure(TemplateNotDirectory(template))
      ensures IsDir(fs.root, template) && IsNullish(ejs) ==> r == Failure(TypeError)
      ensures IsDir(fs.root, template) && !IsNullish(ejs) ==> r.Success?
      ensures r.Success? ==>
        var c := r.value;
        && fresh(c)
        && c.destination == destination && c.template == template && c.root == template
        && c.input == (if Truthy(input) then input else Obj(map[]))
        && c.globs == GlobsDefault && c.rawGlobs == Arr([]) && c.excludeGlobs == Arr([])
        && c.rawDirectories == {}
        && Success(c.ejs) == Merged(EjsDefaults(template), ejs)
    {
      fs.MakeDirs(destination);
      var found := Get(fs.root, template);
      if found.None? {
        return Failure(TemplateMissing(template));
      }
      if found.value.File? {
        return Failure(TemplateNotDirectory(template));
      }
      var c := new Config();
      c.destination := destination;
      c.template := template;
      c.SetInput(input);
      c.root := template;
      c.globs := GlobsDefault;
      c.rawGlobs := Arr([]);
      c.excludeGlobs := Arr([]);
      var ok := c.SetEjsWithDefaults(ejs);
      if !ok {
        return Failure(TypeError);
      }
      return Success(c);
    }

    /** `input.set`: a falsy input is stored as `{}`. */
    method SetInput(x: JsValue)
      modifies this`input
      ensures Truthy(input)
      ensures input == if Truthy(x) then x else Obj(map[])
    {
      input := if Truthy(x) then x else Obj(map[]);
    }

    /** `ejs.setWithDefaults`: the caller's options merged over the
        defaults; `mergeDeep` throws when the options are null or undefined,
        and then nothing is stored. */
    method SetEjsWithDefaults(options: JsValue) returns (ok: bool)
      modifies this`ejs
      ensures ok <==> !IsNullish(options)
      ensures ok ==> Success(ejs) == Merged(EjsDefaults(template), options)
      ensures !ok ==> ejs == old(ejs)
    {
      var defaults := GetDefaults(template);
      assert defaults == EjsDefaults(template);
      var merged := MergeDeep(defaults, options);
      EjsMergeFailsOnlyWithoutOptions(template, options);
      if merged.Failure? {
        return false;
      }
      SetEjs(merged.value);
      return true;
    }

    /** `ejs.get` */
    function GetEjs(): JsValue
      reads this`ejs
    {
      ejs
    }

    /** `ejs.set`: only the `ejs` field changes. */
    method SetEjs(x: JsValue)
      modifies this`ejs
      ensures GetEjs() == x
    {
      ejs := x;
    }

    /** `mergeDeep({}, config)`: a new record with equal fields. Merging a
        plain object into `{}` rebuilds it equal (`Util.MergeIntoEmptyCopies`),
        so the copy holds the same values, and writes to the copy do not
        reach the original. */
    method Clone() returns (c: Config)
      ensures fresh(c)
      ensures c.destination == destination && c.template == template && c.root == root
      ensures c.input == input && c.ejs == ejs && c.globs == globs
      ensures c.rawGlobs == rawGlobs && c.excludeGlobs == excludeGlobs
      ensures c.rawDirectories == rawDirectories
    {
      c := new Config();
      c.destination, c.template, c.root := destination, template, root;
      c.input, c.ejs, c.globs := input, ejs, globs;
      c.rawGlobs, c.excludeGlobs, c.rawDirectories := rawGlobs, excludeGlobs, rawDirectories;
    }
  }

  // ----- what the merged EJS options hold -----

  lemma DefaultsNullFree(template: Path)
    ensures NullFree(EjsDefaults(template))
  {
  }

  /** Merging options over the defaults fails exactly when there are no
      options (`null` or `undefined`). */
  lemma EjsMergeFailsOnlyWithoutOptions(template: Path, options: JsValue)
    ensures Merged(EjsDefaults(template), options).Failure? <==> IsNullish(options)
  {
    if !IsNullish(options) {
      DefaultsNullFree(template);
      MergeSucceedsWithoutNull(EjsDefaults(template), options);
    }
  }

  /** An option the caller gives that is not a plain object replaces the
      default. */
  lemma EjsCallerWins(template: Path, options: JsValue, k: string)
    requires k in OwnKeys(options) && !IsObject(OwnProp(options, k))
    ensures Merged(EjsDefaults(template), options).Success?
    ensures Merged(EjsDefaults(template), options).value.Obj? && k in Merged(EjsDefaults(template), options).value.props
    ensures Merged(EjsDefaults(template), options).value.props[k] == OwnProp(options, k)
  {
    EjsMergeFailsOnlyWithoutOptions(template, options);
    MergedSourceKey(EjsDefaults(template), options, k);
  }

  /** A default the caller does not mention survives, `root` (the template
      path) included. */
  lemma EjsDefaultsSurvive(template: Path, options: JsValue, k: string)
    requires !IsNullish(options) && k in EjsDefaults(template).props && k !in OwnKeys(options)
    ensures Merged(EjsDefaults(template), options).Success?
    ensures Merged(EjsDefaults(template), options).value.Obj? && k in Merged(EjsDefaults(template), options).value.props
    ensures Merged(EjsDefaults(template), options).value.props[k] == EjsDefaults(template).props[k]
    ensures k == "root" ==> Merged(EjsDefaults(template), options).value.props[k] == Str(PathString(template))
  {
    EjsMergeFailsOnlyWithoutOptions(template, options);
    MergedKeys(EjsDefaults(template), options, k);
  }
}
