/** The ways an operation of the engine can fail: the exceptions its code
    throws (or rejects its promise with), each with the path it names. */
module Errors {
  import opened NodePath

  datatype Failure =
    /** a JavaScript TypeError: a property read or write on null or undefined,
        or a non-string handed to `path.resolve` */
    | TypeError
    /** ENOENT from `fs.statSync` */
    | NoSuchEntry(path: Path)
    /** EISDIR from `fs.readFileSync` on a directory */
    | IsADirectory(path: Path)
    /** ENOTDIR / ENOENT from `fs.readdirSync` on something that is not a directory */
    | NotADirectory(path: Path)
    /** "Hopplaconfig invalid in <pathOrig>": Hjson rejected a directive or a header */
    | InvalidHopplaconfig(pathOrig: Path)
    /** the user's `generate` code threw */
    | GenerateFailed(pathOrig: Path)
    /** the template path does not exist */
    | TemplateMissing(template: Path)
    /** the template path is not a directory */
    | TemplateNotDirectory(template: Path)
    /** the model's recursion bound was reached (see the walker) */
    | DepthExceeded(path: Path)
}
