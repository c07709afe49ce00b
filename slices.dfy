/** Python's list slicing, as `recommend` (`[1:6]`) and the sidebar (`[-10:]`) use it. */
module Slices {

  function Min(a: int, b: int): (m: int) { if a <= b then a else b }

  function Max(a: int, b: int): (m: int) { if a <= b then b else a }

  /** `s[lo:hi]` for non-negative bounds: both bounds are clamped to the length,
      so the slice never fails, and it is empty once `lo` reaches `hi` or the end. */
  function Slice<T>(s: seq<T>, lo: nat, hi: nat): (r: seq<T>)
    ensures |r| == Max(0, Min(hi, |s|) - lo)
    ensures forall k :: 0 <= k < |r| ==> lo + k < |s| && r[k] == s[lo + k]
  {
    var end := Min(hi, |s|);
    if end <= lo then [] else s[lo..end]
  }

  /** `s[-n:]`: the last `n` elements in their original order, the whole list when it is shorter.
      Python reads `s[-0:]` as `s[0:]`, the whole list. */
  function LastN<T>(s: seq<T>, n: nat): (r: seq<T>)
    ensures n > 0 ==> |r| == Min(n, |s|)
    ensures n == 0 ==> r == s
    ensures r == s[|s| - |r|..]
  {
    if n == 0 || |s| <= n then s else s[|s| - n..]
  }

  /** Appending one element slides the window: the newest element comes last and,
      once the window is full, the oldest one falls out. */
  lemma LastNAppend<T>(s: seq<T>, x: T, n: nat)
    requires n > 0
    ensures LastN(s + [x], n) == (if |s| < n then LastN(s, n) else LastN(s, n)[1..]) + [x]
  {
  }
}
