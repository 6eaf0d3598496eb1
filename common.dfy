/** Vocabulary shared by the three hook checkers: what a checker returns,
    the diagnostic lines a hook prints, and the "first element that..." search
    that every early-returning pattern loop performs. */
module Common {

  datatype Option<+T> = None | Some(value: T)

  /** The `(exit code, message)` pair every checker returns; the message is
      empty on success. */
  datatype Verdict = Verdict(code: int, msg: string)

  /** The coloured tag in front of a diagnostic: `[ERR]` normally, `[WARN]`
      when the hook runs with `--exit-zero`. */
  datatype Prefix = Err | Warn

  /** One diagnostic line written to standard output. */
  datatype Line = Line(prefix: Prefix, text: string)

  function PrefixFor(exitZero: bool): Prefix
  {
    if exitZero then Warn else Err
  }

  /** Python's `xs or default`: an absent (`None`) list and an empty list are
      both falsy and fall back to `default`. */
  function OrElse<T>(xs: Option<seq<T>>, default: seq<T>): (r: seq<T>)
    ensures r == [] ==> default == []
    ensures r == default || (xs.Some? && r == xs.value)
    ensures xs.Some? && xs.value != [] ==> r == xs.value
  {
    if xs.Some? && xs.value != [] then xs.value else default
  }

  /** The index at which a left-to-right loop over `xs` that stops at the
      first element satisfying `P` stops; `|xs|` when it runs to the end. */
  function FirstWhere<T>(xs: seq<T>, P: T -> bool): (r: nat)
    ensures r <= |xs|
    ensures forall j :: 0 <= j < r ==> !P(xs[j])
    ensures r < |xs| ==> P(xs[r])
  {
    if xs == [] then 0
    else if P(xs[0]) then 0
    else 1 + FirstWhere(xs[1..], P)
  }

  /** A loop that has passed `i` elements without a hit, and hits at `i` or
      runs out there, has found exactly `FirstWhere`. */
  lemma FirstWhereAt<T>(xs: seq<T>, P: T -> bool, i: nat)
    requires i <= |xs|
    requires forall j :: 0 <= j < i ==> !P(xs[j])
    requires i < |xs| ==> P(xs[i])
    ensures FirstWhere(xs, P) == i
  {
  }

  /** Nothing in `xs` satisfies `P` exactly when the search runs to the end. */
  lemma FirstWhereNone<T>(xs: seq<T>, P: T -> bool)
    ensures FirstWhere(xs, P) == |xs| <==> forall j :: 0 <= j < |xs| ==> !P(xs[j])
  {
  }
}
