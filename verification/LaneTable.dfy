/**
 The table of outstanding requests kept by the load/store units, and the lanes its entries still
 wait for, counted as (owner, lane) tokens.
 */
module LaneTable {

  /** An outstanding request: who asked, and the lanes not answered yet. */
  datatype Pending<T> = Pending(owner: T, mask: set<nat>)

  datatype Slot<T> = Free | Used(value: Pending<T>)

  // ---- Tokens ----

  ghost function Tokens<T>(owner: T, mask: set<nat>): multiset<(T, nat)> {
    multiset(set i | i in mask :: (owner, i))
  }

  lemma TokensAt<T>(owner: T, mask: set<nat>, o: T, i: nat)
    ensures Tokens(owner, mask)[(o, i)] == if o == owner && i in mask then 1 else 0
  {
  }

  /** Lane sets that share no lane add up. */
  lemma TokensSplit<T>(owner: T, a: set<nat>, b: set<nat>)
    requires a !! b
    ensures Tokens(owner, a + b) == Tokens(owner, a) + Tokens(owner, b)
  {
    forall t ensures Tokens(owner, a + b)[t] == (Tokens(owner, a) + Tokens(owner, b))[t] {
      TokensAt(owner, a + b, t.0, t.1);
      TokensAt(owner, a, t.0, t.1);
      TokensAt(owner, b, t.0, t.1);
    }
  }

  lemma TokensNone<T>(owner: T)
    ensures Tokens(owner, {}) == multiset{}
  {
  }

  ghost function SlotTokens<T>(s: Slot<T>): multiset<(T, nat)> {
    if s.Used? then Tokens(s.value.owner, s.value.mask) else multiset{}
  }

  /** The tokens of all entries. */
  ghost function TableTokens<T>(e: seq<Slot<T>>): multiset<(T, nat)> {
    if e == [] then multiset{} else SlotTokens(e[0]) + TableTokens(e[1..])
  }

  /** Replacing an entry replaces its tokens. */
  lemma {:induction false} TableTokensUpdate<T>(e: seq<Slot<T>>, i: nat, s: Slot<T>)
    requires i < |e|
    ensures TableTokens(e[i := s]) + SlotTokens(e[i]) == TableTokens(e) + SlotTokens(s)
  {
    hide SlotTokens;
    if i == 0 {
      assert e[0 := s][1..] == e[1..];
    } else {
      assert e[i := s][1..] == e[1..][i - 1 := s];
      TableTokensUpdate(e[1..], i - 1, s);
      AddFront(TableTokens(e[1..][i - 1 := s]), SlotTokens(e[i]), TableTokens(e[1..]), SlotTokens(s), SlotTokens(e[0]));
    }
  }

  lemma AddFront<X>(a: multiset<X>, b: multiset<X>, c: multiset<X>, d: multiset<X>, f: multiset<X>)
    requires a + b == c + d
    ensures f + a + b == f + c + d
  {
    assert f + a + b == f + (a + b) && f + c + d == f + (c + d);
  }

  /** Who the entries belong to. */
  ghost function Owners<T>(e: seq<Slot<T>>): multiset<T> {
    if e == [] then multiset{} else SlotOwner(e[0]) + Owners(e[1..])
  }

  ghost function SlotOwner<T>(s: Slot<T>): multiset<T> {
    if s.Used? then multiset{s.value.owner} else multiset{}
  }

  lemma {:induction false} OwnersUpdate<T>(e: seq<Slot<T>>, i: nat, s: Slot<T>)
    requires i < |e|
    ensures Owners(e[i := s]) + SlotOwner(e[i]) == Owners(e) + SlotOwner(s)
  {
    hide SlotOwner;
    if i == 0 {
      assert e[0 := s][1..] == e[1..];
    } else {
      assert e[i := s][1..] == e[1..][i - 1 := s];
      OwnersUpdate(e[1..], i - 1, s);
      AddFront(Owners(e[1..][i - 1 := s]), SlotOwner(e[i]), Owners(e[1..]), SlotOwner(s), SlotOwner(e[0]));
    }
  }

  lemma {:induction false} NoOwners<T>(e: seq<Slot<T>>)
    requires UsedCount(e) == 0
    ensures Owners(e) == multiset{}
  {
    if e != [] { NoOwners(e[1..]); }
  }

  function UsedCount<T>(e: seq<Slot<T>>): nat {
    if e == [] then 0 else (if e[0].Used? then 1 else 0) + UsedCount(e[1..])
  }

  lemma {:induction false} UsedCountBounds<T>(e: seq<Slot<T>>)
    ensures UsedCount(e) <= |e|
    ensures UsedCount(e) == |e| <==> forall i :: 0 <= i < |e| ==> e[i].Used?
    ensures UsedCount(e) == 0 <==> forall i :: 0 <= i < |e| ==> e[i].Free?
  {
    if e != [] {
      UsedCountBounds(e[1..]);
      assert forall i :: 0 < i < |e| ==> e[i] == e[1..][i - 1];
      assert forall i :: 0 <= i < |e| - 1 ==> e[1..][i] == e[i + 1];
    }
  }

  lemma {:induction false} UsedCountUpdate<T>(e: seq<Slot<T>>, i: nat, s: Slot<T>)
    requires i < |e|
    ensures UsedCount(e[i := s])
         == UsedCount(e) - (if e[i].Used? then 1 else 0) + (if s.Used? then 1 else 0)
  {
    if i == 0 {
      assert e[0 := s][1..] == e[1..];
    } else {
      assert e[i := s][1..] == e[1..][i - 1 := s];
      UsedCountUpdate(e[1..], i - 1, s);
    }
  }

  lemma {:induction false} NoTokens<T>(e: seq<Slot<T>>)
    requires UsedCount(e) == 0
    ensures TableTokens(e) == multiset{}
  {
    if e != [] { NoTokens(e[1..]); }
  }

  // ---- The table ----

  class HashTable<T> {
    var entries: seq<Slot<T>>
    var size: nat

    ghost predicate Valid()
      reads this
    {
      size == UsedCount(entries)
    }

    constructor (capacity: nat)
      ensures Valid() && |entries| == capacity && size == 0
      ensures forall i :: 0 <= i < capacity ==> entries[i].Free?
    {
      entries := seq(capacity, _ => Free);
      size := 0;
      new;
      UsedCountBounds(entries);
    }

    predicate Empty()
      reads this
    {
      size == 0
    }

    predicate Full()
      reads this
    {
      size == |entries|
    }

    /** Takes the first free slot; with room left there always is one. */
    method Allocate(v: Pending<T>) returns (index: nat)
      requires Valid() && !Full()
      modifies this
      ensures Valid() && index < |old(entries)| && old(entries)[index].Free?
      ensures forall i :: 0 <= i < index ==> old(entries)[i].Used?
      ensures entries == old(entries)[index := Used(v)]
      ensures TableTokens(entries) == TableTokens(old(entries)) + Tokens(v.owner, v.mask)
    {
      UsedCountBounds(entries);
      index := 0;
      while entries[index].Used?
        invariant index < |entries|
        invariant forall i :: 0 <= i < index ==> entries[i].Used?
        decreases |entries| - index
      {
        assert index + 1 == |entries| ==> forall i :: 0 <= i < |entries| ==> entries[i].Used?;
        index := index + 1;
      }
      UsedCountUpdate(entries, index, Used(v));
      TableTokensUpdate(entries, index, Used(v));
      entries := entries[index := Used(v)];
      size := size + 1;
    }

    method Release(index: nat)
      requires Valid() && index < |entries| && entries[index].Used?
      modifies this
      ensures Valid() && entries == old(entries)[index := Free]
    {
      UsedCountUpdate(entries, index, Free);
      entries := entries[index := Free];
      size := size - 1;
    }

    /**
     Takes answered lanes off an entry and releases it when none is left. The tokens taken off are
     exactly those answered.
     */
    method Answer(index: nat, lanes: set<nat>) returns (done: bool)
      requires Valid() && index < |entries| && entries[index].Used? && lanes <= entries[index].value.mask
      modifies this
      ensures Valid()
      ensures var p := old(entries)[index].value;
              && done == (p.mask == lanes)
              && entries == old(entries)[index := if done then Free else Used(Pending(p.owner, p.mask - lanes))]
              && TableTokens(old(entries)) == TableTokens(entries) + Tokens(p.owner, lanes)
    {
      ghost var e := entries;
      var p := entries[index].value;
      var left := p.mask - lanes;
      UsedCountUpdate(entries, index, Used(Pending(p.owner, left)));
      entries := entries[index := Used(Pending(p.owner, left))];
      done := left == {};
      assert p.mask == left + lanes;
      if done {
        Release(index);
      }
      AnswerTokens(e, index, lanes, entries[index]);
    }
  }

  lemma AnswerTokens<T>(e: seq<Slot<T>>, index: nat, lanes: set<nat>, s: Slot<T>)
    requires index < |e| && e[index].Used? && lanes <= e[index].value.mask
    requires var p := e[index].value;
             s == if p.mask == lanes then Free else Used(Pending(p.owner, p.mask - lanes))
    ensures TableTokens(e) == TableTokens(e[index := s]) + Tokens(e[index].value.owner, lanes)
  {
    var p := e[index].value;
    TableTokensUpdate(e, index, s);
    TokensSplit(p.owner, p.mask - lanes, lanes);
    TokensNone(p.owner);
    assert p.mask - lanes + lanes == p.mask;
    hide Tokens, TableTokens;
    Cancelled(TableTokens(e[index := s]), TableTokens(e), SlotTokens(s), Tokens(p.owner, lanes));
  }

  lemma Cancelled<X>(a: multiset<X>, b: multiset<X>, s: multiset<X>, l: multiset<X>)
    requires a + (s + l) == b + s
    ensures b == a + l
  {
    forall x ensures b[x] == (a + l)[x] {
      assert (a + (s + l))[x] == (b + s)[x];
    }
  }
}
