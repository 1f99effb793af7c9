/** `getEvenParam` of the higher-order utilities: every other argument, from the first. */
module Hoffy {

  /** A slot of a JavaScript array: `new Array(n)` makes `n` holes. */
  datatype Slot<T> = Hole | Filled(value: T)

  /**
   * `arr[index] = v` on a JavaScript array: inside the array the slot is
   * overwritten; past the end the array grows to `index + 1`, any gap
   * becoming holes.
   */
  function Store<T>(arr: seq<Slot<T>>, index: nat, v: T): (r: seq<Slot<T>>)
    ensures |r| == if index < |arr| then |arr| else index + 1
    ensures r[index] == Filled(v)
    ensures forall k :: 0 <= k < |r| && k != index ==> r[k] == if k < |arr| then arr[k] else Hole
  {
    if index < |arr| then arr[index := Filled(v)]
    else arr + seq(index - |arr|, _ => Hole) + [Filled(v)]
  }

  /**
   * The arguments at even positions, in their order. The array allocated with
   * `trunc(n / 2)` holes grows by one slot for an odd count, so the result has
   * `ceil(n / 2)` slots and no hole is left.
   */
  method GetEvenParam<T>(args: seq<T>) returns (result: seq<Slot<T>>)
    ensures |result| == (|args| + 1) / 2
    ensures forall j :: 0 <= j < |result| ==> result[j] == Filled(args[2 * j])
    ensures |args| > 0 ==> result[0] == Filled(args[0])
  {
    var i, j := 0, 0;
    result := seq(|args| / 2, _ => Hole);
    while i < |args|
      invariant i == 2 * j && i <= |args| + 1
      invariant |result| == if j <= |args| / 2 then |args| / 2 else j
      invariant forall k :: 0 <= k < j ==> result[k] == Filled(args[2 * k])
      invariant forall k :: j <= k < |result| ==> result[k] == Hole
    {
      result := Store(result, j, args[i]);
      i := i + 2;
      j := j + 1;
    }
  }
}
