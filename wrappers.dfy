/** Optional values: stands for JavaScript's null/undefined where the bot's code returns or reads one. */
module Wrappers {

  datatype Option<+T> = None | Some(value: T)
}
