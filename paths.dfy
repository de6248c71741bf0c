/** lib/paths.js: where the working copy of the template lives, inside the
    destination. */
module Paths {
  import opened NodePath
  import opened ConfigStore

  const TmpDirName: string := "tmp-hoppla"

  /** `getTmpDir`: `<destination>/tmp-hoppla`. */
  function GetTmpDir(config: Config): (r: Path)
    reads config`destination
    ensures r == config.destination + [TmpDirName]
    ensures Parent(r) == config.destination && BaseName(r) == TmpDirName
  {
    ResolveChild(config.destination, TmpDirName);
    Resolve(config.destination, TmpDirName)
  }

  /** `getTemplateTmpDir`: the tmp dir joined with the template's base name. */
  function GetTemplateTmpDir(config: Config): (r: Path)
    reads config`destination, config`template
    ensures NormalPath(config.template) && config.template != []
      ==> r == config.destination + [TmpDirName, BaseName(config.template)]
          && Parent(r) == GetTmpDir(config) && BaseName(r) == BaseName(config.template)
  {
    var tmp := GetTmpDir(config);
    var name := BaseName(config.template);
    if NormalPath(config.template) && config.template != [] then
      ResolveChild(tmp, name);
      Resolve(tmp, name)
    else Resolve(tmp, name)
  }
}
