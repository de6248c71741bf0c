/** The root directive (lib/hoppla.js, in `hoppla`): the file `hopplaconfig`
    at the top of the template may set the input, the raw globs and the
    exclude globs before anything is copied. Its input is only a base: the
    caller's input is merged over it. */
module HopplaRoot {
  import opened Wrappers
  import opened Errors
  import opened NodePath
  import opened JsValues
  import opened FileTree
  import opened Externals
  import opened Util
  import opened ConfigStore
  import opened HopplaRules

  /** `path.resolve(template, "hopplaconfig")`, which is also the path shown
      in messages. */
  function RootConfigFile(template: Path): DirectiveFile {
    var p := Resolve(template, RootConfigName);
    DirectiveFile(p, p)
  }

  /** The input, raw globs and exclude globs once the root directive `file` is
      applied to the configuration's `input`, `rawGlobs` and `excludeGlobs`,
      or the error reading it raises. */
  ghost function RootApplied(n: Node, or: Oracles, file: DirectiveFile, input: JsValue, ejs: JsValue,
                             rawGlobs: JsValue, excludeGlobs: JsValue)
    : Result<(JsValue, JsValue, JsValue), Failure>
  {
    var root :- ReadDirective(n, or, input, ejs, Some(file));
    var rootInput :- Prop(root, "input");
    var merged :- if Truthy(rootInput) then Merged(rootInput, input) else Success(input);
    var input' := if !Truthy(rootInput) then input else if Truthy(merged) then merged else Obj(map[]);
    var rootRawGlobs :- Prop(root, "rawGlobs");
    var rootExcludeGlobs :- Prop(root, "excludeGlobs");
    Success((input',
             if Truthy(rootRawGlobs) then rootRawGlobs else rawGlobs,
             if Truthy(rootExcludeGlobs) then rootExcludeGlobs else excludeGlobs))
  }

  /** Reads the root directive and applies it: a truthy `input` becomes the
      base the configuration's input is merged over, truthy `rawGlobs` and
      `excludeGlobs` replace the configuration's. A failure (a directive
      that is a directory, does not parse, is null, or an input merge that
      throws) changes nothing. */
  method ApplyRootHopplaConfig(fs: FileSystem, config: Config, or: Oracles) returns (r: Result<(), Failure>)
    modifies config`input, config`rawGlobs, config`excludeGlobs
    ensures
      var a := RootApplied(fs.root, or, RootConfigFile(config.template), old(config.input), config.ejs,
                           old(config.rawGlobs), old(config.excludeGlobs));
      && (r.Success? <==> a.Success?)
      && (r.Success? ==> (config.input, config.rawGlobs, config.excludeGlobs) == a.value)
      && (r.Failure? ==> r.error == a.error)
    ensures r.Failure? ==> && config.input == old(config.input) && config.rawGlobs == old(config.rawGlobs)
                           && config.excludeGlobs == old(config.excludeGlobs)
  {
    var rootHopplaConfigPath := RootConfigFile(config.template);
    var rootHopplaConfig :- ReadDirective(fs.root, or, config.input, config.ejs, Some(rootHopplaConfigPath));
    var rootInput :- Prop(rootHopplaConfig, "input");
    if Truthy(rootInput) {
      var merged :- MergeDeep(rootInput, config.input);
      config.SetInput(merged);
    }
    var rootRawGlobs := Prop(rootHopplaConfig, "rawGlobs").value;
    if Truthy(rootRawGlobs) {
      config.rawGlobs := rootRawGlobs;
    }
    var rootExcludeGlobs := Prop(rootHopplaConfig, "excludeGlobs").value;
    if Truthy(rootExcludeGlobs) {
      config.excludeGlobs := rootExcludeGlobs;
    }
    return Success(());
  }

  /** Without a root directive the configuration stays as it is. */
  lemma NoRootConfig(n: Node, or: Oracles, file: DirectiveFile, input: JsValue, ejs: JsValue,
                     rawGlobs: JsValue, excludeGlobs: JsValue)
    requires Get(n, file.path).None?
    ensures RootApplied(n, or, file, input, ejs, rawGlobs, excludeGlobs) == Success((input, rawGlobs, excludeGlobs))
  {
  }

  /** The caller's input wins over the root directive's: every key the
      caller gives keeps the caller's value (merged, when both are plain
      objects), and the root directive's other keys fill in. */
  lemma CallerInputWins(n: Node, or: Oracles, file: DirectiveFile, input: JsValue, ejs: JsValue,
                        rawGlobs: JsValue, excludeGlobs: JsValue, k: string)
    requires RootApplied(n, or, file, input, ejs, rawGlobs, excludeGlobs).Success?
    ensures
      var root := ReadDirective(n, or, input, ejs, Some(file));
      var input' := RootApplied(n, or, file, input, ejs, rawGlobs, excludeGlobs).value.0;
      && root.Success? && Prop(root.value, "input").Success?
      && (var rootInput := Prop(root.value, "input").value;
          && (!Truthy(rootInput) ==> input' == input)
          && (rootInput.Obj? ==>
                && input'.Obj?
                && input'.props.Keys == rootInput.props.Keys + OwnKeys(input)
                && (k in OwnKeys(input) && !IsObject(OwnProp(input, k)) ==> input'.props[k] == OwnProp(input, k))
                && (k in rootInput.props && k !in OwnKeys(input) ==> input'.props[k] == rootInput.props[k])))
  {
    var root := ReadDirective(n, or, input, ejs, Some(file)).value;
    var rootInput := Prop(root, "input").value;
    if rootInput.Obj? {
      MergedKeys(rootInput, input, k);
      if k in OwnKeys(input) {
        MergedSourceKey(rootInput, input, k);
      }
    }
  }

  /** The globs of the root directive replace the configuration's exactly
      when they are truthy. */
  lemma RootGlobs(n: Node, or: Oracles, file: DirectiveFile, input: JsValue, ejs: JsValue,
                  rawGlobs: JsValue, excludeGlobs: JsValue)
    requires RootApplied(n, or, file, input, ejs, rawGlobs, excludeGlobs).Success?
    ensures
      var root := ReadDirective(n, or, input, ejs, Some(file)).value;
      var a := RootApplied(n, or, file, input, ejs, rawGlobs, excludeGlobs).value;
      && !IsNullish(root)
      && (Truthy(Prop(root, "rawGlobs").value) ==> a.1 == OwnProp(root, "rawGlobs"))
      && (!Truthy(Prop(root, "rawGlobs").value) ==> a.1 == rawGlobs)
      && (Truthy(Prop(root, "excludeGlobs").value) ==> a.2 == OwnProp(root, "excludeGlobs"))
      && (!Truthy(Prop(root, "excludeGlobs").value) ==> a.2 == excludeGlobs)
  {
  }
}
