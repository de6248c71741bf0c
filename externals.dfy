/** The libraries and user code the engine calls but that are not part of
    this model: micromatch, the EJS renderer, the Hjson parser and the
    `generate` code of a directive. Each is a given function; the engine's
    behaviour is proved for every choice of them. */
module Externals {
  import opened Wrappers
  import opened JsValues

  datatype Oracles = Oracles(
    /** `micromatch([path], patterns).length > 0` */
    matches: (string, JsValue) -> bool,
    /** `ejs.render(content, {input}, options)`; `None` when it throws */
    render: (string, JsValue, JsValue) -> Option<string>,
    /** `Hjson.parse(text)`; `None` when it throws */
    parse: string -> Option<JsValue>,
    /** Running a directive's `generate` code with the given input: the
        arguments of its `generate(...)` calls, in the order it makes them,
        or `None` when the code throws before making any */
    generate: (JsValue, JsValue) -> Option<seq<JsValue>>
  )
}
