/** Small value helpers shared by the game script's model and the block template's model. */
module Util {

  /** A value that may be absent: JavaScript's `null` result, PHP's `false`/`null` field value. */
  datatype Option<T> = None | Some(value: T)

  /** The sequence read back to front, as `Array.prototype.reverse` leaves it. */
  function Reversed<T>(s: seq<T>): (r: seq<T>)
    ensures |r| == |s|
    ensures forall i :: 0 <= i < |s| ==> r[i] == s[|s| - 1 - i]
  {
    if s == [] then [] else [s[|s| - 1]] + Reversed(s[..|s| - 1])
  }

  /** Reading a reversed sequence backwards gives the original back. */
  lemma ReversedTwice<T>(s: seq<T>)
    ensures Reversed(Reversed(s)) == s
  {
    assert forall i :: 0 <= i < |s| ==> Reversed(Reversed(s))[i] == s[i];
  }
}
