/** The exceptions the modelled code raises, as values. */
module Errors {
  import opened Values

  datatype Error =
    /** A sequence index out of range, such as `parts[1]` on a one-piece split. */
    | IndexError
    /** An attribute looked up on an object that lacks it (`None.split`, `None.__module__`). */
    | AttributeError(attr: string)
    /** A subscript on a dict that lacks the key. */
    | KeyError(key: string)
    /** A subscript or call on a value of the wrong type. */
    | TypeError
    /** `jsons.exceptions.UnknownClassError(message, source, target_name)`. */
    | UnknownClassError(message: string, source: Value, target: string)
}
