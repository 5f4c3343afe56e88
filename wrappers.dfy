/** Optional results: the model of std::optional and of the parser's 0/1 failure codes. */
module Wrappers {

  datatype Option<+T> = None | Some(value: T)
}
