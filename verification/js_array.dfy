/**
 * A JavaScript array as the drag handler uses it: a copy made with
 * `Array.from`, then changed in place by `splice`. The elements live in
 * `data[..len]`; `data` may be larger than `len` and is replaced by a bigger
 * array when an insertion needs room, as a growable JavaScript array does.
 */
module JsArrays {
  import opened Splice

  class JsArray<T(0)> {
    var data: array<T>
    var len: nat

    ghost predicate Valid()
      reads this
    {
      len <= data.Length
    }

    /** The array's elements, in order. */
    function Elements(): seq<T>
      reads this, data
      requires Valid()
    {
      data[..len]
    }

    /** `Array.from(s)`: a fresh array holding the elements of `s`. */
    constructor From(s: seq<T>)
      ensures Valid() && fresh(data)
      ensures Elements() == s
    {
      var a := new T[|s|];
      var i := 0;
      while i < |s|
        invariant 0 <= i <= |s|
        invariant a[..i] == s[..i]
      {
        a[i] := s[i];
        i := i + 1;
      }
      data := a;
      len := |s|;
    }

    /** `const [removed] = a.splice(i, 1)`: takes out the element at `i`, shifting the rest down. */
    method RemoveAt(i: nat) returns (removed: T)
      requires Valid() && i < len
      modifies this, data
      ensures Valid() && data == old(data)
      ensures removed == old(Elements())[i]
      ensures Elements() == Removed(old(Elements()), i)
    {
      ghost var before := data[..len];
      removed := data[i];
      var k := i;
      while k + 1 < len
        invariant data == old(data) && len == |before| <= data.Length
        invariant i <= k < len
        invariant forall m :: 0 <= m < i ==> data[m] == before[m]
        invariant forall m :: i <= m < k ==> data[m] == before[m + 1]
        invariant forall m :: k < m < len ==> data[m] == before[m]
      {
        data[k] := data[k + 1];
        k := k + 1;
      }
      len := len - 1;
      assert Elements() == Removed(before, i);
    }

    /** `a.splice(j, 0, x)`: puts `x` at index `j`, shifting the elements from `j` on up by one. */
    method InsertAt(j: nat, x: T)
      requires Valid() && j <= len
      modifies this, data
      ensures Valid() && (data == old(data) || fresh(data))
      ensures Elements() == Inserted(old(Elements()), j, x)
    {
      ghost var before := data[..len];
      if len == data.Length {
        Grow();
      }
      var k := len;
      while k > j
        invariant len == |before| < data.Length
        invariant data == old(data) || fresh(data)
        invariant j <= k <= len
        invariant forall m :: 0 <= m < k ==> data[m] == before[m]
        invariant forall m :: k < m <= len ==> data[m] == before[m - 1]
      {
        data[k] := data[k - 1];
        k := k - 1;
      }
      data[j] := x;
      len := len + 1;
      assert Elements() == Inserted(before, j, x);
    }

    /** Moves the elements into a fresh, larger array. */
    method Grow()
      requires Valid()
      modifies this
      ensures Valid() && fresh(data) && len < data.Length
      ensures len == old(len) && Elements() == old(Elements())
    {
      var a := new T[2 * data.Length + 1];
      var i := 0;
      while i < len
        invariant data == old(data) && len == old(len) <= data.Length < a.Length
        invariant 0 <= i <= len
        invariant a[..i] == data[..i]
      {
        a[i] := data[i];
        i := i + 1;
      }
      data := a;
    }
  }
}
