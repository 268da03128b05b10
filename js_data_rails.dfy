/** Gem-wide constants (lib/js_data_rails.rb). */
module JsDataRails {

  /** `SUPPORTED_OPERATORS`: the only operators a filter operation may use. */
  const SUPPORTED_OPERATORS: seq<string> := ["==", "in"]
}
