/**
 * The three JavaScript array operations that the editor uses on the
 * forest and on container children: `indexOf`, `splice(i, 1)` (remove
 * one element) and `splice(i, 0, x)` (insert one element). The index
 * normalisation of `splice` is written out: a negative start counts
 * from the end, a start past the end is clamped to the length.
 */
module JsArray {

  /** `a.indexOf(x)`: the first index holding `x`, or -1. */
  function IndexOf<T(==)>(a: seq<T>, x: T): (r: int)
    ensures -1 <= r < |a|
    ensures r == -1 <==> x !in a
    ensures 0 <= r ==> a[r] == x && forall j :: 0 <= j < r ==> a[j] != x
  {
    if |a| == 0 then -1
    else if a[0] == x then 0
    else
      var k := IndexOf(a[1..], x);
      if k == -1 then -1 else k + 1
  }

  /** The start position `splice` actually uses for a requested start `i`. */
  function SpliceStart(i: int, len: nat): (r: nat)
    ensures r <= len
    ensures 0 <= i <= len ==> r == i
    ensures i < 0 && len + i >= 0 ==> r == len + i
  {
    if i < 0 then (if len + i < 0 then 0 else len + i)
    else if i > len then len
    else i
  }

  /** `a.splice(i, 1)` applied to `a`: the array afterwards. */
  function RemoveAt<T>(a: seq<T>, i: int): (r: seq<T>)
    ensures SpliceStart(i, |a|) < |a| ==>
      var k := SpliceStart(i, |a|);
      |r| == |a| - 1 &&
      (forall j :: 0 <= j < k ==> r[j] == a[j]) &&
      (forall j :: k <= j < |r| ==> r[j] == a[j + 1])
    ensures SpliceStart(i, |a|) == |a| ==> r == a
  {
    var k := SpliceStart(i, |a|);
    if k < |a| then a[..k] + a[k + 1..] else a
  }

  /** `a.splice(i, 0, x)` applied to `a`: the array afterwards. */
  function InsertAt<T>(a: seq<T>, i: int, x: T): (r: seq<T>)
    ensures |r| == |a| + 1
    ensures var k := SpliceStart(i, |a|);
      r[k] == x &&
      (forall j :: 0 <= j < k ==> r[j] == a[j]) &&
      (forall j :: k < j < |r| ==> r[j] == a[j - 1])
  {
    var k := SpliceStart(i, |a|);
    a[..k] + [x] + a[k..]
  }

  /** Removing again what was just inserted gives back the array. */
  lemma RemoveInserted<T>(a: seq<T>, i: int, x: T)
    requires 0 <= i <= |a|
    ensures RemoveAt(InsertAt(a, i, x), i) == a
  {
    var b := InsertAt(a, i, x);
    var r := RemoveAt(b, i);
    assert |r| == |a|;
    forall j | 0 <= j < |a| ensures r[j] == a[j] {
      if j < i { assert r[j] == b[j]; } else { assert r[j] == b[j + 1]; }
    }
  }

  /** Re-inserting a removed element at its old index gives back the array. */
  lemma InsertRemoved<T>(a: seq<T>, i: int)
    requires 0 <= i < |a|
    ensures InsertAt(RemoveAt(a, i), i, a[i]) == a
  {
    var b := RemoveAt(a, i);
    var r := InsertAt(b, i, a[i]);
    assert |r| == |a|;
    forall j | 0 <= j < |a| ensures r[j] == a[j] {
      if j < i { assert r[j] == b[j]; }
      else if j > i { assert r[j] == b[j - 1]; }
    }
  }

  /** An index that is not found (-1) makes `splice` drop the LAST element. */
  lemma RemoveNotFoundDropsLast<T>(a: seq<T>)
    requires |a| > 0
    ensures RemoveAt(a, -1) == a[..|a| - 1]
  {
  }

  /** Membership after inserting. */
  lemma InInsertAt<T>(a: seq<T>, i: int, x: T, y: T)
    ensures y in InsertAt(a, i, x) <==> y == x || y in a
  {
    var k := SpliceStart(i, |a|);
    assert InsertAt(a, i, x) == a[..k] + [x] + a[k..];
    assert a == a[..k] + a[k..];
  }

  /** Membership after removing the element at `i`. */
  lemma InRemoveAt<T>(a: seq<T>, i: int, y: T)
    requires 0 <= i < |a|
    ensures y in RemoveAt(a, i) ==> y in a
    ensures y in a && y != a[i] ==> y in RemoveAt(a, i)
  {
    assert RemoveAt(a, i) == a[..i] + a[i + 1..];
    assert a == a[..i] + [a[i]] + a[i + 1..];
  }

  /** `a.reverse()`: the array afterwards. */
  function Reverse<T>(a: seq<T>): (r: seq<T>)
    ensures |r| == |a|
    ensures forall i :: 0 <= i < |a| ==> r[i] == a[|a| - 1 - i]
  {
    if |a| == 0 then [] else [a[|a| - 1]] + Reverse(a[..|a| - 1])
  }

  /** Reversing a longer array puts its first element last. */
  lemma ReverseCons<T>(x: T, a: seq<T>)
    ensures Reverse([x] + a) == Reverse(a) + [x]
  {
    var l := Reverse([x] + a);
    var m := Reverse(a) + [x];
    assert |l| == |m|;
    forall i | 0 <= i < |l| ensures l[i] == m[i] {
    }
  }
}
