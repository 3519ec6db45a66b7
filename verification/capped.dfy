/**
 * The two bounded-sequence idioms of the code base: `unshift` followed by
 * `slice(0, cap)` (newest first, oldest dropped at the back) and `push`
 * followed by `slice(-cap)` (newest last, oldest dropped at the front).
 */
module Capped {

  function Min(a: int, b: int): int {
    if a < b then a else b
  }

  /** `xs.unshift(x); xs = xs.slice(0, cap)`. */
  function PrependCapped<T>(x: T, xs: seq<T>, cap: nat): (r: seq<T>)
    requires cap >= 1
    ensures |r| == Min(cap, |xs| + 1)
    ensures r[0] == x
    ensures r[1..] == xs[..|r| - 1]
  {
    ([x] + xs)[..Min(cap, |xs| + 1)]
  }

  /** `xs.push(x); xs = xs.slice(-cap)`. */
  function AppendCapped<T>(xs: seq<T>, x: T, cap: nat): (r: seq<T>)
    requires cap >= 1
    ensures |r| == Min(cap, |xs| + 1)
    ensures r[|r| - 1] == x
    ensures r[..|r| - 1] == xs[|xs| + 1 - |r|..]
  {
    var pushed := xs + [x];
    if |pushed| > cap then pushed[|pushed| - cap..] else pushed
  }
}
