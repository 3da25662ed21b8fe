/** Generic operations on sequences. */
module Sequences {
  /** `slice(0, n)` / `LIMIT n`: the first n elements, or all of them when
      there are fewer. */
  function Take<T>(s: seq<T>, n: nat): (r: seq<T>)
    ensures |r| == if |s| <= n then |s| else n
    ensures r <= s
  {
    if |s| <= n then s else s[..n]
  }
}
