/** JavaScript typed-array operations on Dafny arrays and sequences. */
module TypedArray {

  /** `out.set(src, off)` */
  method Set<T>(out: array<T>, src: seq<T>, off: nat)
    requires off + |src| <= out.Length
    modifies out
    ensures out[..] == old(out[..off]) + src + old(out[off + |src|..])
  {
    for k := 0 to |src|
      invariant forall i :: 0 <= i < out.Length ==> out[i] == if off <= i < off + k then src[i - off] else old(out[i])
    {
      out[off + k] := src[k];
    }
  }

  /** `a.subarray(from, to)`: both ends are clamped to the length. */
  function Subarray<T>(a: seq<T>, from: nat, to: nat): seq<T>
    requires from <= to
  {
    if from >= |a| then [] else a[from..if to <= |a| then to else |a|]
  }
}
