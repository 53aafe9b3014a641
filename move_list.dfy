/**
 * The sequence semantics of the move-list editing operations
 * (sd_rec_delete_action and sd_rec_insert_action in src/rec.c): remove the
 * element at an index, or splice an element in at an index clamped to the
 * end.
 */
module MoveList {

  /** The list without its element at index n, the others kept in order. */
  function RemoveAt<T>(s: seq<T>, n: nat): (r: seq<T>)
    requires n < |s|
    ensures |r| == |s| - 1
    ensures forall j :: 0 <= j < n ==> r[j] == s[j]
    ensures forall j :: n <= j < |r| ==> r[j] == s[j + 1]
    ensures multiset(r) + multiset{s[n]} == multiset(s)
  {
    assert s == s[..n] + [s[n]] + s[n + 1..];
    s[..n] + s[n + 1..]
  }

  /** The index an insertion lands at: n, or the end of the list when n is past it. */
  function Clamp<T>(s: seq<T>, n: nat): (k: nat)
    ensures k <= |s| && (n <= |s| ==> k == n)
  {
    if n >= |s| then |s| else n
  }

  /** The list with x at index Clamp(s, n): earlier elements stay, later ones move one place on. */
  function InsertAt<T>(s: seq<T>, n: nat, x: T): (r: seq<T>)
    ensures |r| == |s| + 1
    ensures r[Clamp(s, n)] == x
    ensures forall j :: 0 <= j < Clamp(s, n) ==> r[j] == s[j]
    ensures forall j :: Clamp(s, n) <= j < |s| ==> r[j + 1] == s[j]
    ensures multiset(r) == multiset(s) + multiset{x}
  {
    var k := Clamp(s, n);
    assert s == s[..k] + s[k..];
    s[..k] + [x] + s[k..]
  }

  /** An insertion at or past the end is an append. */
  lemma {:induction false} InsertPastEndAppends<T>(s: seq<T>, n: nat, x: T)
    requires n >= |s|
    ensures InsertAt(s, n, x) == s + [x]
  {
    var r := InsertAt(s, n, x);
    assert forall j :: 0 <= j < |s| ==> r[j] == s[j];
  }

  /** Deleting index n and inserting the deleted element at n gives the list back. */
  lemma {:induction false} InsertUndoesRemove<T>(s: seq<T>, n: nat)
    requires n < |s|
    ensures InsertAt(RemoveAt(s, n), n, s[n]) == s
  {
    var d := RemoveAt(s, n);
    var r := InsertAt(d, n, s[n]);
    assert Clamp(d, n) == n;
    forall j | 0 <= j < |s|
      ensures r[j] == s[j]
    {
      if n < j {
        assert r[j] == d[j - 1];
      }
    }
  }

  /** Inserting x and deleting it again gives the list back. */
  lemma {:induction false} RemoveUndoesInsert<T>(s: seq<T>, n: nat, x: T)
    ensures RemoveAt(InsertAt(s, n, x), Clamp(s, n)) == s
  {
    var k := Clamp(s, n);
    var r := RemoveAt(InsertAt(s, n, x), k);
    forall j | 0 <= j < |s|
      ensures r[j] == s[j]
    {
      if k <= j {
        assert r[j] == InsertAt(s, n, x)[j + 1];
      }
    }
  }
}
