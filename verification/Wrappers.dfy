/** Optional values, used for the absent `string | null` / `string | undefined`
    inputs of the bot and for computations that throw in JavaScript. */
module Wrappers {

  datatype Option<+T> = None | Some(value: T)
}
