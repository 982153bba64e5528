/**
 * The two uses of JavaScript's `Array.prototype.splice` that the task board
 * makes, as functions on sequences: `a.splice(i, 1)` removes the element at
 * `i`, and `a.splice(j, 0, x)` inserts `x` so that it ends up at index `j`.
 * Only in-range indices are modelled.
 */
module Splice {

  /** What `a.splice(i, 1)` leaves in `a`. */
  function Removed<T>(s: seq<T>, i: nat): (r: seq<T>)
    requires i < |s|
    ensures |r| == |s| - 1
    ensures forall k :: 0 <= k < i ==> r[k] == s[k]
    ensures forall k :: i <= k < |r| ==> r[k] == s[k + 1]
  {
    s[..i] + s[i + 1..]
  }

  /** What `a.splice(j, 0, x)` leaves in `a`. */
  function Inserted<T>(s: seq<T>, j: nat, x: T): (r: seq<T>)
    requires j <= |s|
    ensures |r| == |s| + 1 && r[j] == x
    ensures forall k :: 0 <= k < j ==> r[k] == s[k]
    ensures forall k :: j < k < |r| ==> r[k] == s[k - 1]
  {
    s[..j] + [x] + s[j..]
  }

  /** Inserting at `j` and then removing at `j` gives back the original. */
  lemma RemovedInserted<T>(s: seq<T>, j: nat, x: T)
    requires j <= |s|
    ensures Removed(Inserted(s, j, x), j) == s
  {
    var r := Removed(Inserted(s, j, x), j);
    assert |r| == |s|;
    forall k | 0 <= k < |s| ensures r[k] == s[k] {
    }
  }

  /** Removing at `i` and putting the element back at `i` gives back the original. */
  lemma InsertedRemoved<T>(s: seq<T>, i: nat)
    requires i < |s|
    ensures Inserted(Removed(s, i), i, s[i]) == s
  {
    var r := Inserted(Removed(s, i), i, s[i]);
    assert |r| == |s|;
    forall k | 0 <= k < |s| ensures r[k] == s[k] {
    }
  }

  /** Removal takes exactly one occurrence of the removed element out of the multiset. */
  lemma RemovedMultiset<T>(s: seq<T>, i: nat)
    requires i < |s|
    ensures multiset(Removed(s, i)) + multiset{s[i]} == multiset(s)
  {
    assert s == s[..i] + [s[i]] + s[i + 1..];
  }

  /** Insertion adds exactly one occurrence of the inserted element to the multiset. */
  lemma InsertedMultiset<T>(s: seq<T>, j: nat, x: T)
    requires j <= |s|
    ensures multiset(Inserted(s, j, x)) == multiset(s) + multiset{x}
  {
    assert s == s[..j] + s[j..];
  }

  /** An element found at two different positions occurs at least twice in the multiset. */
  lemma RepeatCounted<T>(s: seq<T>, i: nat, j: nat)
    requires i < j < |s|
    ensures s[i] == s[j] ==> multiset(s)[s[i]] >= 2
  {
    assert s == s[..j] + s[j..];
    assert s[..j][i] == s[i] && s[j..][0] == s[j];
    assert s[i] in multiset(s[..j]) && s[j] in multiset(s[j..]);
  }
}
