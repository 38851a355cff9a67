/** Insertion into and removal from a sequence, with the element at every index of the result. */
module SeqEdits {

  predicate Apart<T(==)>(s: seq<T>, i: nat, j: nat)
    requires i < |s| && j < |s|
  {
    s[i] != s[j]
  }

  /** No element occurs twice. */
  ghost predicate Distinct<T>(s: seq<T>) {
    forall i: nat, j: nat {:trigger Apart(s, i, j)} :: i < |s| && j < |s| && i != j ==> Apart(s, i, j)
  }

  lemma ApartFrom<T>(s: seq<T>, k: nat)
    requires Distinct(s) && k < |s|
    ensures forall i {:trigger s[i]} :: 0 <= i < |s| && i != k ==> s[i] != s[k]
  {
    forall i | 0 <= i < |s| && i != k ensures s[i] != s[k] {
      assert Apart(s, i, k);
    }
  }

  function InsertAt<T>(s: seq<T>, k: nat, x: T): (r: seq<T>)
    requires k <= |s|
    ensures |r| == |s| + 1
    ensures forall i {:trigger r[i]} :: 0 <= i < |r| ==> r[i] == if i < k then s[i] else if i == k then x else s[i - 1]
  {
    s[..k] + [x] + s[k..]
  }

  function RemoveAt<T>(s: seq<T>, k: nat): (r: seq<T>)
    requires k < |s|
    ensures |r| == |s| - 1
    ensures forall i {:trigger r[i]} :: 0 <= i < |r| ==> r[i] == if i < k then s[i] else s[i + 1]
  {
    s[..k] + s[k + 1..]
  }

  lemma InsertedMembers<T>(s: seq<T>, k: nat, x: T)
    requires k <= |s|
    ensures forall y :: y in InsertAt(s, k, x) <==> y in s || y == x
  {
    assert s == s[..k] + s[k..];
  }

  lemma InsertedMultiset<T>(s: seq<T>, k: nat, x: T)
    requires k <= |s|
    ensures multiset(InsertAt(s, k, x)) == multiset(s) + multiset{x}
  {
    assert s == s[..k] + s[k..];
  }

  lemma InsertedDistinct<T>(s: seq<T>, k: nat, x: T)
    requires k <= |s| && Distinct(s) && x !in s
    ensures Distinct(InsertAt(s, k, x))
  {
    var r := InsertAt(s, k, x);
    forall i: nat, j: nat | i < |r| && j < |r| && i != j ensures Apart(r, i, j) {
      var i', j' := if i < k then i else i - 1, if j < k then j else j - 1;
      if i != k && j != k { assert Apart(s, i', j'); }
    }
  }

  lemma RemovedMembers<T>(s: seq<T>, k: nat)
    requires k < |s|
    ensures Distinct(s) ==> forall y :: y in RemoveAt(s, k) <==> y in s && y != s[k]
  {
    assert s == s[..k] + [s[k]] + s[k + 1..];
    if Distinct(s) {
      ApartFrom(s, k);
      forall y | y in s && y != s[k] ensures y in RemoveAt(s, k) {
        var i :| 0 <= i < |s| && s[i] == y;
        assert RemoveAt(s, k)[if i < k then i else i - 1] == y;
      }
    }
  }

  lemma RemovedMultiset<T>(s: seq<T>, k: nat)
    requires k < |s|
    ensures multiset(RemoveAt(s, k)) == multiset(s) - multiset{s[k]}
  {
    assert s == s[..k] + [s[k]] + s[k + 1..];
  }

  lemma RemovedDistinct<T>(s: seq<T>, k: nat)
    requires k < |s| && Distinct(s)
    ensures Distinct(RemoveAt(s, k))
  {
    var r := RemoveAt(s, k);
    forall i: nat, j: nat | i < |r| && j < |r| && i != j ensures Apart(r, i, j) {
      assert Apart(s, if i < k then i else i + 1, if j < k then j else j + 1);
    }
  }
}
