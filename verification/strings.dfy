/** String helpers shared by the modules that inspect text. */
module Strings {

  /** True when `p` is a prefix of `s` (`String.prototype.startsWith`). */
  predicate StartsWith(s: string, p: string)
  {
    |p| <= |s| && s[..|p|] == p
  }
}
