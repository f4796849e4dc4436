/** `ArrayExtension.Slice` of Extensions/ArrayExtension.cs: a JavaScript-style
    slice that copies `arr[start..end)` into a fresh array, clamping both
    bounds first. */
module ArrayExtension {

  /** C#'s `int`. */
  newtype int32 = x: int | -0x8000_0000 <= x <= 0x7fff_ffff

  /** `int.MaxValue`, the default end index. */
  const IntMax: int32 := 0x7fff_ffff

  function Min(a: int, b: int): int { if a <= b then a else b }
  function Max(a: int, b: int): int { if a >= b then a else b }

  /** The elements that `Slice(arr, startIndex, endIndex)` copies, as a sequence. */
  function SliceOf<T>(s: seq<T>, startIndex: int, endIndex: int): (r: seq<T>)
    ensures |r| == Max(0, Min(endIndex, |s|) - Max(startIndex, 0))
    ensures forall k :: 0 <= k < |r| ==> r[k] == s[Max(startIndex, 0) + k]
  {
    var hi := Min(endIndex, |s|);
    var lo := Max(startIndex, 0);
    if lo >= hi then [] else s[lo..hi]
  }

  /** The slice is empty exactly when the clamped start is not below the
      clamped end; in particular for a negative end or a start at or past
      the length. */
  lemma SliceEmpty<T>(s: seq<T>, startIndex: int, endIndex: int)
    ensures SliceOf(s, startIndex, endIndex) == [] <==> Max(startIndex, 0) >= Min(endIndex, |s|)
    ensures endIndex <= 0 ==> SliceOf(s, startIndex, endIndex) == []
    ensures startIndex >= |s| ==> SliceOf(s, startIndex, endIndex) == []
  {
  }

  /** With the default end, the slice is the suffix from the clamped start,
      and slicing from 0 copies everything. */
  lemma SliceDefaultEnd<T>(s: seq<T>, startIndex: int)
    requires |s| <= IntMax as int
    ensures SliceOf(s, startIndex, IntMax as int) == s[Min(Max(startIndex, 0), |s|)..]
    ensures SliceOf(s, 0, IntMax as int) == s
  {
  }

  /** The slice lies inside the original: it is the segment between the
      clamped bounds. */
  lemma SliceIsSegment<T>(s: seq<T>, startIndex: int, endIndex: int)
    requires Max(startIndex, 0) < Min(endIndex, |s|)
    ensures SliceOf(s, startIndex, endIndex) == s[Max(startIndex, 0)..Min(endIndex, |s|)]
  {
  }

  /** Copies the clamped range of `arr` into a new array. `arr` itself is not
      modified (there is no `modifies` clause) and every index the loop uses
      is in bounds for any `startIndex` and `endIndex`. */
  method Slice<T(0)>(arr: array<T>, startIndex: int32, endIndex: int32 := IntMax) returns (result: array<T>)
    requires arr.Length <= IntMax as int  // a C# array's Length is an int
    ensures fresh(result)
    ensures result[..] == SliceOf(arr[..], startIndex as int, endIndex as int)
  {
    var hi := if endIndex <= arr.Length as int32 then endIndex else arr.Length as int32;
    var lo := if startIndex >= 0 then startIndex else 0;
    if lo >= hi {
      return new T[0];
    }
    result := new T[hi - lo];
    var i, cursor := lo, 0 as int32;
    while i < hi
      invariant lo <= i <= hi
      invariant cursor as int == i as int - lo as int
      invariant forall k :: 0 <= k < cursor ==> result[k] == arr[lo as int + k as int]
    {
      result[cursor] := arr[i];
      i, cursor := i + 1, cursor + 1;
    }
  }
}
