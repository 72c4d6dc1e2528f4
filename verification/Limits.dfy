/** Limits of the implementation, from llimits.h and luaconf.h. */
module Limits {

  /** The largest int, less 2 "for safety". */
  const MAX_INT := 0x7FFF_FFFD

  /** How deep C calls, and with them parsing and loading, may nest. */
  const MAXCCALLS := 200
}
