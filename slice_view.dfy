/** The length-checked fixed-size view of a slice (`impl_slice_as_array!`).
    The source hands back a reference to the same storage; here the view is the
    sequence of the slice's elements, which is all a caller can observe. */
module SliceView {

  datatype Option<T> = None | Some(value: T)

  /** The slice as an array of exactly `n` elements, or `None` when its length
      is different. */
  function SliceAsArray<T>(slice: seq<T>, n: nat): (r: Option<seq<T>>)
    ensures r.None? <==> |slice| != n
    ensures r.Some? ==> |r.value| == n && forall i :: 0 <= i < n ==> r.value[i] == slice[i]
  {
    if |slice| != n then None else Some(slice)
  }

  /** `slice4_as_array4`. */
  function Slice4AsArray4<T>(slice: seq<T>): (r: Option<seq<T>>)
    ensures r.None? <==> |slice| != 4
    ensures r.Some? ==> |r.value| == 4 && r.value == slice
  {
    SliceAsArray(slice, 4)
  }

  /** `slice8_as_array8`. */
  function Slice8AsArray8<T>(slice: seq<T>): (r: Option<seq<T>>)
    ensures r.None? <==> |slice| != 8
    ensures r.Some? ==> |r.value| == 8 && r.value == slice
  {
    SliceAsArray(slice, 8)
  }

  /** The view vectors of the unit tests: lengths 0, 3 and 5 are refused,
      length 4 is viewed as is. */
  lemma {:induction false} SliceAsArrayVectors()
    ensures Slice4AsArray4<int>([]) == None
    ensures Slice4AsArray4([1, 2, 3, 4, 5]) == None
    ensures Slice4AsArray4([1, 2, 3, 4]) == Some([1, 2, 3, 4])
    ensures Slice4AsArray4([1, 2, 3]) == None
  {
  }
}
