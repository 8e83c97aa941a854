/** Integer minimum and maximum, and Python's `s[:l]` on a sequence. */
module Slices {
  function Min(a: int, b: int): (r: int)
    ensures r <= a && r <= b && (r == a || r == b)
  {
    if a < b then a else b
  }

  function Max(a: int, b: int): (r: int)
    ensures r >= a && r >= b && (r == a || r == b)
  {
    if a < b then b else a
  }

  /** Python's `s[:l]`: the first `l` elements, or all of them when there are fewer; a
      negative `l` counts from the end, dropping the last `-l` elements. */
  function PySliceTo<T>(s: seq<T>, l: int): (r: seq<T>)
    ensures r <= s
    ensures l >= 0 ==> |r| == Min(l, |s|)
    ensures l < 0 ==> |r| == Max(0, |s| + l)
  {
    if l >= 0 then s[..Min(l, |s|)] else s[..Max(0, |s| + l)]
  }
}
