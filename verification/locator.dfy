/**
 * The engine locator chain (`EngineChain` over the Ink and Twine detectors)
 * is not part of this model; callers receive its answer for a slug as a
 * `Located` value.
 */
module Locator {
  import opened Text

  /** Whether the slug names a game, the engine that claims it and the layout it was found in. */
  datatype Located = Located(found: bool, engine: String, shape: String)
}
