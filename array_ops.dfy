// The two array operations the remove handler relies on:
// Array.prototype.indexOf (first index by strict equality, -1 when absent)
// and splice(index, 1) (delete one element, shifting the rest down).

module ArrayOps {

  /** The index of the first element equal to x, or -1 when there is none. */
  function FirstIndexOf<T(==)>(s: seq<T>, x: T): (r: int)
    ensures -1 <= r < |s|
    ensures r == -1 <==> x !in s
    ensures 0 <= r ==> s[r] == x
    ensures forall k :: 0 <= k < r ==> s[k] != x
  {
    if s == [] then -1
    else if s[0] == x then 0
    else
      var r := FirstIndexOf(s[1..], x);
      if r == -1 then -1 else r + 1
  }

  /** s without its element at index i; the others keep their order. */
  function RemoveAt<T>(s: seq<T>, i: nat): (r: seq<T>)
    requires i < |s|
    ensures |r| == |s| - 1
    ensures forall k :: 0 <= k < i ==> r[k] == s[k]
    ensures forall k :: i <= k < |r| ==> r[k] == s[k + 1]
    ensures multiset(r) == multiset(s) - multiset{s[i]}
  {
    assert s == s[..i] + [s[i]] + s[i + 1..];
    s[..i] + s[i + 1..]
  }
}
