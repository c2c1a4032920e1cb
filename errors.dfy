/** Error codes of the library's public header, shared by the map and the key skip list. */
module NghttpErr {
  const ERR_INVALID_ARGUMENT: int := -101
  const ERR_NOMEM: int := -901
}
