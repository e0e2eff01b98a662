/** Small shared vocabulary: an optional value and JavaScript's Array.prototype.indexOf. */
module Basics {

  datatype Option<+T> = None | Some(value: T)

  /** Position of the first occurrence of x in s, or -1 when there is none
      (the result of JavaScript's indexOf on an array or a string). */
  function IndexOf<T(==)>(s: seq<T>, x: T): (k: int)
    ensures -1 <= k < |s|
    ensures k == -1 <==> x !in s
    ensures 0 <= k ==> s[k] == x && x !in s[..k]
    decreases |s|
  {
    if s == [] then -1
    else if s[0] == x then 0
    else
      var k := IndexOf(s[1..], x);
      if k == -1 then -1
      else
        assert s[..k + 1] == [s[0]] + s[1..][..k];
        k + 1
  }
}
