/** Python's `re` module as the hooks use it. Regular-expression syntax and
    matching are not modelled: an `Engine` is any assignment of meaning to
    pattern strings, passed to every checker as a parameter, so every result
    proved here holds for whatever `re` actually does. */
module Regex {

  datatype Engine = Engine(
    /** `re.compile(p)` returns instead of raising `re.error`. */
    compiles: string -> bool,
    /** `re.compile(p).match(s)` is not `None`: a match starting at position 0. */
    matchAt: (string, string) -> bool,
    /** `re.search(p, s)` is not `None`: a match starting anywhere. */
    search: (string, string) -> bool,
    /** The text of the `re.error` raised when `p` does not compile. */
    errorText: string -> string,
    /** Compiling `p` raises an exception that is not an `re.error`, such as
        the `OverflowError` of a repeat count of 2**32 - 1 or more, or the
        `RecursionError` of very deeply nested groups. When this holds it
        takes precedence over `compiles`. */
    raises: string -> bool,
    /** The text of that exception. */
    raisedText: string -> string)

  /** The pattern the branch and commit checkers use when no accept pattern
      is supplied. */
  const DotStar: string := ".*"

  /** What Python's `re` guarantees about `DotStar`: it compiles, and it
      matches (the empty prefix of) every string. */
  ghost predicate DotStarMatchesEverything(re: Engine)
  {
    re.compiles(DotStar) && forall s: string :: re.matchAt(DotStar, s)
  }
}
