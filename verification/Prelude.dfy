// Shared vocabulary: optional values, durations in nanoseconds, powers of two.
module Prelude {

  datatype Option<+T> = None | Some(value: T)

  // What a check answers; the reasons are the library's own.
  datatype Verdict = Pass | Deny(reason: string)

  // Instants and durations are integers counting nanoseconds.
  const SECOND: int := 1_000_000_000
  const MINUTE: int := 60 * SECOND
  const HOUR: int := 60 * MINUTE

  // The whole second an instant falls in; what is left of a time written at
  // whole-second precision.
  function WholeSeconds(t: int): int {
    t / SECOND
  }

  function Pow2(n: nat): (p: int)
    ensures p > 0
  {
    if n == 0 then 1 else 2 * Pow2(n - 1)
  }

  function Last<T>(s: seq<T>): T
    requires s != []
  {
    s[|s| - 1]
  }

  function Front<T>(s: seq<T>): seq<T>
    requires s != []
  {
    s[..|s| - 1]
  }

  lemma FrontOfSnoc<T>(s: seq<T>, x: T)
    ensures Front(s + [x]) == s && Last(s + [x]) == x
  {
  }
}
