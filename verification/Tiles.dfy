/**
 The value of one allocator page: the used and free blocks in address order, as tiles.
 Splitting on allocation and coalescing on release are functions on this value.
 */
module Tiles {
  import opened SeqEdits

  datatype Span = Span(addr: nat, size: nat)

  datatype Tile = Tile(addr: nat, size: nat, used: bool) {
    function ToSpan(): Span { Span(addr, size) }
    predicate Covers(x: nat) { addr <= x < addr + size }
  }

  /** The tiles follow each other without gap or overlap from lo to hi. */
  ghost predicate Tiling(t: seq<Tile>, lo: nat, hi: nat) {
    if t == [] then lo == hi
    else t[0].addr == lo && t[0].size > 0 && Tiling(t[1..], lo + t[0].size, hi)
  }

  /** No two neighbours are both free: every free range is coalesced. */
  ghost predicate Coalesced(t: seq<Tile>) {
    forall i {:trigger t[i]} :: 0 <= i < |t| - 1 ==> t[i].used || t[i + 1].used
  }

  function Spans(t: seq<Tile>, used: bool): seq<Span> {
    if t == [] then []
    else (if t[0].used == used then [t[0].ToSpan()] else []) + Spans(t[1..], used)
  }

  function Bytes(t: seq<Tile>, used: bool): nat {
    if t == [] then 0
    else (if t[0].used == used then t[0].size else 0) + Bytes(t[1..], used)
  }

  /** Every size is a multiple of the block alignment, or the page is one single tile. */
  ghost predicate Aligned(t: seq<Tile>, align: nat)
    requires align > 0
  {
    |t| == 1 || forall x :: x in t ==> x.size % align == 0
  }

  // ---- Concatenation ----

  function Total(t: seq<Tile>): nat {
    if t == [] then 0 else t[0].size + Total(t[1..])
  }

  lemma {:induction false} TilingConcat(a: seq<Tile>, b: seq<Tile>, lo: nat, hi: nat)
    ensures Tiling(a + b, lo, hi) <==> Tiling(a, lo, lo + Total(a)) && Tiling(b, lo + Total(a), hi)
  {
    if a == [] {
      assert a + b == b;
    } else {
      assert (a + b)[1..] == a[1..] + b;
      TilingConcat(a[1..], b, lo + a[0].size, hi);
    }
  }

  lemma {:induction false} SpansConcat(a: seq<Tile>, b: seq<Tile>, used: bool)
    ensures Spans(a + b, used) == Spans(a, used) + Spans(b, used)
    ensures Bytes(a + b, used) == Bytes(a, used) + Bytes(b, used)
  {
    if a == [] {
      assert a + b == b;
    } else {
      assert (a + b)[1..] == a[1..] + b;
      SpansConcat(a[1..], b, used);
      assert (a + b)[0] == a[0];
    }
  }

  /** The tiles from l up to r replaced by m. */
  function Splice(t: seq<Tile>, l: nat, r: nat, m: seq<Tile>): seq<Tile>
    requires l <= r <= |t|
  {
    t[..l] + m + t[r..]
  }

  lemma TilingParts(t: seq<Tile>, lo: nat, hi: nat, l: nat, r: nat)
    requires Tiling(t, lo, hi) && l <= r <= |t|
    ensures var x := lo + Total(t[..l]); var y := x + Total(t[l..r]);
            Tiling(t[..l], lo, x) && Tiling(t[l..r], x, y) && Tiling(t[r..], y, hi)
  {
    assert t == t[..l] + t[l..] && t[l..] == t[l..r] + t[r..];
    TilingConcat(t[..l], t[l..], lo, hi);
    TilingConcat(t[l..r], t[r..], lo + Total(t[..l]), hi);
  }

  lemma SpliceTiling(t: seq<Tile>, lo: nat, hi: nat, l: nat, r: nat, m: seq<Tile>)
    requires Tiling(t, lo, hi) && l <= r <= |t|
    requires Tiling(m, lo + Total(t[..l]), lo + Total(t[..l]) + Total(t[l..r]))
    ensures Tiling(Splice(t, l, r, m), lo, hi)
  {
    hide *;
    var x := lo + Total(t[..l]);
    TilingParts(t, lo, hi, l, r);
    TilingWithin(m, x, x + Total(t[l..r]));
    TilingConcat(m, t[r..], x, hi);
    TilingConcat(t[..l], m + t[r..], lo, hi);
    SpliceIs(t, l, r, m);
  }

  lemma SpliceIs(t: seq<Tile>, l: nat, r: nat, m: seq<Tile>)
    requires l <= r <= |t|
    ensures Splice(t, l, r, m) == t[..l] + (m + t[r..])
  {
  }

  lemma SpliceSpans(t: seq<Tile>, l: nat, r: nat, m: seq<Tile>, u: bool)
    requires l <= r <= |t|
    ensures Spans(t, u) == Spans(t[..l], u) + Spans(t[l..r], u) + Spans(t[r..], u)
    ensures Spans(Splice(t, l, r, m), u) == Spans(t[..l], u) + Spans(m, u) + Spans(t[r..], u)
    ensures Bytes(t, u) == Bytes(t[..l], u) + Bytes(t[l..r], u) + Bytes(t[r..], u)
    ensures Bytes(Splice(t, l, r, m), u) == Bytes(t[..l], u) + Bytes(m, u) + Bytes(t[r..], u)
  {
    assert t == t[..l] + t[l..r] + t[r..];
    SpansConcat(t[..l] + t[l..r], t[r..], u);
    SpansConcat(t[..l], t[l..r], u);
    SpansConcat(t[..l] + m, t[r..], u);
    SpansConcat(t[..l], m, u);
  }

  /** One or two tiles: their spans and their tiling, written out. */
  lemma ShortTiles(m: seq<Tile>, lo: nat, hi: nat, u: bool)
    requires 0 < |m| <= 2
    ensures Tiling(m, lo, hi) <==> && m[0].addr == lo && m[0].size > 0
                                   && (|m| == 1 ==> hi == lo + m[0].size)
                                   && (|m| == 2 ==> m[1].addr == lo + m[0].size && m[1].size > 0 && hi == m[1].addr + m[1].size)
    ensures Spans(m, u) == (if m[0].used == u then [m[0].ToSpan()] else [])
                         + (if |m| == 2 && m[1].used == u then [m[1].ToSpan()] else [])
    ensures Bytes(m, u) == (if m[0].used == u then m[0].size else 0) + (if |m| == 2 && m[1].used == u then m[1].size else 0)
    ensures Total(m) == m[0].size + (if |m| == 2 then m[1].size else 0)
  {
    var n := m[1..];
    if |m| == 2 {
      assert n[0] == m[1] && n[1..] == [];
      ShortTiles(n, lo + m[0].size, hi, u);
    } else {
      assert n == [];
    }
  }

  /** Everything a page keeps about the tiles before, at and after index i. */
  lemma TilingAt(t: seq<Tile>, lo: nat, hi: nat, i: nat)
    requires Tiling(t, lo, hi) && i < |t|
    ensures Tiling(t[..i], lo, t[i].addr) && Tiling(t[i + 1..], t[i].addr + t[i].size, hi)
    ensures t[i].size > 0 && t[i].addr == lo + Total(t[..i])
    ensures lo <= t[i].addr && t[i].addr + t[i].size <= hi
  {
    TilingParts(t, lo, hi, i, i + 1);
    assert t[i..i + 1] == [t[i]];
    ShortTiles([t[i]], lo + Total(t[..i]), lo + Total(t[..i]) + t[i].size, true);
    TilingWithin(t, lo, hi);
  }

  lemma {:induction false} TilingWithin(t: seq<Tile>, lo: nat, hi: nat)
    requires Tiling(t, lo, hi)
    ensures lo + Total(t) == hi
    ensures forall x :: x in t ==> lo <= x.addr && x.addr + x.size <= hi && x.size > 0
  {
    if t != [] {
      TilingWithin(t[1..], lo + t[0].size, hi);
      assert forall x :: x in t ==> x == t[0] || x in t[1..];
    }
  }

  lemma {:induction false} SpansMembers(t: seq<Tile>, used: bool)
    ensures forall s :: s in Spans(t, used) <==> Tile(s.addr, s.size, used) in t
  {
    if t != [] {
      SpansMembers(t[1..], used);
      assert t == [t[0]] + t[1..];
    }
  }

  /** The k-th span of a kind and the tile it comes from. */
  lemma {:induction false} NthSpan(t: seq<Tile>, u: bool, k: nat) returns (i: nat)
    requires k < |Spans(t, u)|
    ensures i < |t| && t[i].used == u && |Spans(t[..i], u)| == k && Spans(t, u)[k] == t[i].ToSpan()
  {
    if t[0].used == u && k == 0 {
      i := 0;
    } else {
      i := NthSpan(t[1..], u, if t[0].used == u then k - 1 else k);
      assert t[..i + 1][1..] == t[1..][..i];
      i := i + 1;
    }
  }

  lemma {:induction false} BytesZero(t: seq<Tile>, u: bool)
    requires forall x :: x in t ==> x.size > 0
    ensures Bytes(t, u) == 0 <==> Spans(t, u) == []
  {
    if t != [] {
      BytesZero(t[1..], u);
    }
  }

  /** A tiling covers every address of [lo, hi) by exactly one tile, and no other address. */
  lemma {:induction false} TilingPartitions(t: seq<Tile>, lo: nat, hi: nat, x: nat)
    requires Tiling(t, lo, hi)
    ensures lo <= x < hi <==> exists i :: 0 <= i < |t| && t[i].Covers(x)
    ensures forall i, j :: 0 <= i < |t| && 0 <= j < |t| && t[i].Covers(x) && t[j].Covers(x) ==> i == j
  {
    if t != [] {
      TilingPartitions(t[1..], lo + t[0].size, hi, x);
      TilingWithin(t, lo, hi);
      assert forall i :: 0 < i < |t| ==> t[i] == t[1..][i - 1];
      if lo <= x < hi {
        if x < lo + t[0].size {
          assert t[0].Covers(x);
        } else {
          var i :| 0 <= i < |t[1..]| && t[1..][i].Covers(x);
          assert t[i + 1].Covers(x);
        }
      }
      TilingWithin(t[1..], lo + t[0].size, hi);
    }
  }

  // ---- Allocation ----

  /** Tile i gives its first size bytes; the rest stays free when at least one alignment unit is left. */
  function AllocPieces(x: Tile, size: nat, align: nat): seq<Tile>
    requires size <= x.size
  {
    if x.size - size >= align
    then [Tile(x.addr, size, true), Tile(x.addr + size, x.size - size, false)]
    else [Tile(x.addr, x.size, true)]
  }

  function AllocAt(t: seq<Tile>, i: nat, size: nat, align: nat): seq<Tile>
    requires i < |t| && size <= t[i].size
  {
    Splice(t, i, i + 1, AllocPieces(t[i], size, align))
  }

  lemma AllocTiling(t: seq<Tile>, lo: nat, hi: nat, i: nat, size: nat, align: nat)
    requires Tiling(t, lo, hi) && i < |t| && 0 < size <= t[i].size && align > 0
    ensures Tiling(AllocAt(t, i, size, align), lo, hi)
  {
    var p := AllocPieces(t[i], size, align);
    TilingAt(t, lo, hi, i);
    assert t[i..i + 1] == [t[i]];
    ShortTiles(p, t[i].addr, t[i].addr + t[i].size, true);
    ShortTiles([t[i]], 0, 0, true);
    SpliceTiling(t, lo, hi, i, i + 1, p);
  }

  lemma AllocSpans(t: seq<Tile>, i: nat, size: nat, align: nat)
    requires i < |t| && 0 < size <= t[i].size && align > 0 && !t[i].used
    ensures var x, r, k := t[i], AllocAt(t, i, size, align), |Spans(t[..i], false)|;
            var split := x.size - size >= align;
            && k < |Spans(t, false)| && Spans(t, false)[k] == x.ToSpan()
            && (split ==> Spans(r, false) == InsertAt(RemoveAt(Spans(t, false), k), k, Span(x.addr + size, x.size - size)))
            && (!split ==> Spans(r, false) == RemoveAt(Spans(t, false), k))
  {
    hide Spans, Bytes;
    var x, p := t[i], AllocPieces(t[i], size, align);
    SpliceSpans(t, i, i + 1, p, false);
    assert t[i..i + 1] == [x];
    ShortTiles([x], 0, 0, false);
    ShortTiles(p, 0, 0, false);
  }

  lemma AllocUsed(t: seq<Tile>, i: nat, size: nat, align: nat)
    requires i < |t| && 0 < size <= t[i].size && align > 0 && !t[i].used
    ensures var x, r, k := t[i], AllocAt(t, i, size, align), |Spans(t[..i], true)|;
            var given := if x.size - size >= align then size else x.size;
            && k <= |Spans(t, true)|
            && Spans(r, true) == InsertAt(Spans(t, true), k, Span(x.addr, given))
            && Bytes(r, true) == Bytes(t, true) + given
  {
    hide Spans, Bytes, InsertAt;
    var x, p := t[i], AllocPieces(t[i], size, align);
    var a, b := Spans(t[..i], true), Spans(t[i + 1..], true);
    SpliceSpans(t, i, i + 1, p, true);
    assert t[i..i + 1] == [x];
    ShortTiles([x], 0, 0, true);
    ShortTiles(p, 0, 0, true);
    InsertBetween(a, Span(x.addr, if x.size - size >= align then size else x.size), b);
    assert a + [] + b == a + b;
  }

  lemma AllocUsedMultiset(t: seq<Tile>, i: nat, size: nat, align: nat)
    requires i < |t| && 0 < size <= t[i].size && align > 0 && !t[i].used
    ensures var x := t[i];
            var given := if x.size - size >= align then size else x.size;
            multiset(Spans(AllocAt(t, i, size, align), true)) == multiset(Spans(t, true)) + multiset{Span(x.addr, given)}
  {
    AllocUsed(t, i, size, align);
    var x := t[i];
    InsertedMultiset(Spans(t, true), |Spans(t[..i], true)|, Span(x.addr, if x.size - size >= align then size else x.size));
  }

  lemma AllocCoalesced(t: seq<Tile>, i: nat, size: nat, align: nat)
    requires Coalesced(t) && i < |t| && 0 < size <= t[i].size && !t[i].used
    ensures Coalesced(AllocAt(t, i, size, align))
  {
    var r, d := AllocAt(t, i, size, align), |AllocPieces(t[i], size, align)| - 1;
    forall j | 0 <= j < |r| - 1 ensures r[j].used || r[j + 1].used {
      if j < i - 1 {
        assert r[j] == t[j] && r[j + 1] == t[j + 1];
      } else if j > i + d {
        assert r[j] == t[j - d] && r[j + 1] == t[j - d + 1];
      } else if j == i + d {
        assert r[j + 1] == t[i + 1];
        assert t[i].used || t[i + 1].used;
      }
    }
  }

  // ---- Release ----

  predicate JoinsLeft(t: seq<Tile>, i: nat)
    requires i < |t|
  {
    i > 0 && !t[i - 1].used
  }

  predicate JoinsRight(t: seq<Tile>, i: nat)
    requires i < |t|
  {
    i + 1 < |t| && !t[i + 1].used
  }

  function JoinStart(t: seq<Tile>, i: nat): nat
    requires i < |t|
  {
    if JoinsLeft(t, i) then i - 1 else i
  }

  function JoinEnd(t: seq<Tile>, i: nat): nat
    requires i < |t|
  {
    if JoinsRight(t, i) then i + 2 else i + 1
  }

  /** The free tile that replaces tile i and its free neighbours. */
  function Joined(t: seq<Tile>, i: nat): Tile
    requires i < |t|
  {
    Tile(if JoinsLeft(t, i) then t[i - 1].addr else t[i].addr,
         (if JoinsLeft(t, i) then t[i - 1].size else 0) + t[i].size + (if JoinsRight(t, i) then t[i + 1].size else 0),
         false)
  }

  function FreeAt(t: seq<Tile>, i: nat): seq<Tile>
    requires i < |t|
  {
    Splice(t, JoinStart(t, i), JoinEnd(t, i), [Joined(t, i)])
  }

  lemma FreeTiling(t: seq<Tile>, lo: nat, hi: nat, i: nat)
    requires Tiling(t, lo, hi) && i < |t|
    ensures Tiling(FreeAt(t, i), lo, hi)
  {
    var l, r := JoinStart(t, i), JoinEnd(t, i);
    JoinedTotal(t, i, l, r);
    TilingAt(t, lo, hi, i);
    TilingAt(t, lo, hi, l);
    ShortTiles([Joined(t, i)], lo + Total(t[..l]), lo + Total(t[..l]) + Total(t[l..r]), true);
    SpliceTiling(t, lo, hi, l, r, [Joined(t, i)]);
  }

  lemma JoinedTotal(t: seq<Tile>, i: nat, l: nat, r: nat)
    requires i < |t|
    requires l == JoinStart(t, i) && r == JoinEnd(t, i)
    ensures Total(t[l..r]) == Joined(t, i).size
  {
    hide Total;
    FewTotal(t[l..r]);
  }

  lemma FewTotal(m: seq<Tile>)
    requires 0 < |m| <= 3
    ensures Total(m) == m[0].size + (if |m| >= 2 then m[1].size else 0) + (if |m| == 3 then m[2].size else 0)
  {
    var n := m[1..];
    if |m| >= 2 {
      assert n[0] == m[1] && n[1..] == if |m| == 3 then [m[2]] else [];
      assert Total(n) == m[1].size + Total(n[1..]);
    }
  }

  lemma FreeCoalesced(t: seq<Tile>, i: nat)
    requires Coalesced(t) && i < |t| && t[i].used
    ensures Coalesced(FreeAt(t, i))
  {
    var f := FreeAt(t, i);
    var l := JoinStart(t, i);
    var d := (if JoinsLeft(t, i) then 1 else 0) + (if JoinsRight(t, i) then 1 else 0);
    forall j | 0 <= j < |f| - 1 ensures f[j].used || f[j + 1].used {
      if j < l {
        assert f[j] == t[j];
        assert t[j].used || t[j + 1].used;
        if j + 1 < l { assert f[j + 1] == t[j + 1]; }
      } else {
        assert f[j + 1] == t[j + 1 + d];
        assert t[j + d].used || t[j + d + 1].used;
        if j > l { assert f[j] == t[j + d]; }
      }
    }
  }

  predicate Touch(a: Span, b: Span) { a.addr + a.size == b.addr }

  /** The free neighbours of a used tile are the free spans next to it in address order that touch it. */
  lemma FreeNeighbours(t: seq<Tile>, lo: nat, hi: nat, i: nat)
    requires Tiling(t, lo, hi) && i < |t|
    ensures var (x, a, b) := (t[i].ToSpan(), Spans(t[..i], false), Spans(t[i + 1..], false));
            && (forall s :: s in a ==> s.addr + s.size <= x.addr && s.size > 0)
            && (forall s :: s in b ==> x.addr + x.size <= s.addr)
            && (JoinsLeft(t, i) <==> a != [] && Touch(a[|a| - 1], x))
            && (JoinsRight(t, i) <==> b != [] && Touch(x, b[0]))
            && (JoinsLeft(t, i) ==> a == Spans(t[..i - 1], false) + [t[i - 1].ToSpan()])
            && (JoinsRight(t, i) ==> b == [t[i + 1].ToSpan()] + Spans(t[i + 2..], false))
  {
    hide *;
    TilingAt(t, lo, hi, i);
    LastFree(t[..i], lo, t[i].addr);
    FirstFree(t[i + 1..], t[i].addr + t[i].size, hi);
    JoinsAre(t, i);
    if i > 0 { assert t[..i][..i - 1] == t[..i - 1] && t[..i][i - 1] == t[i - 1]; }
    if i + 1 < |t| { assert t[i + 1..][0] == t[i + 1] && t[i + 1..][1..] == t[i + 2..]; }
  }

  lemma JoinsAre(t: seq<Tile>, i: nat)
    requires i < |t|
    ensures JoinsLeft(t, i) <==> i > 0 && !t[i - 1].used
    ensures JoinsRight(t, i) <==> i + 1 < |t| && !t[i + 1].used
    ensures forall a, b :: Touch(a, b) <==> a.addr + a.size == b.addr
    ensures t[i].ToSpan() == Span(t[i].addr, t[i].size)
  {
  }

  lemma FirstFree(t: seq<Tile>, lo: nat, hi: nat)
    requires Tiling(t, lo, hi)
    ensures var b := Spans(t, false);
            && (forall s :: s in b ==> lo <= s.addr)
            && (t != [] && !t[0].used ==> b == [t[0].ToSpan()] + Spans(t[1..], false))
            && (t != [] && !t[0].used <==> b != [] && b[0].addr == lo)
  {
    hide Spans, Tiling;
    FreeWithin(t, lo, hi);
    if t == [] {
      FewSpans(Tile(0, 1, false), false);
    } else {
      TilingAt(t, lo, hi, 0);
      assert t[..0] == [] && t[0 + 1..] == t[1..];
      FirstSpan(t);
      FreeWithin(t[1..], t[0].addr + t[0].size, hi);
    }
  }

  lemma FirstSpan(t: seq<Tile>)
    requires t != []
    ensures Spans(t, false) == (if t[0].used then [] else [t[0].ToSpan()]) + Spans(t[1..], false) && Total([]) == 0
  {
  }

  /** The free spans before and after a free tile, in the free list. */
  lemma FreeOrder(t: seq<Tile>, lo: nat, hi: nat, i: nat)
    requires Tiling(t, lo, hi) && i < |t| && !t[i].used
    ensures var f, k := Spans(t, false), |Spans(t[..i], false)|;
            && k < |f| && f[k] == t[i].ToSpan()
            && (forall j :: 0 <= j < k ==> f[j].addr < t[i].addr)
            && (forall j :: k < j < |f| ==> t[i].addr + t[i].size <= f[j].addr)
  {
    hide Tiling, Spans, Bytes, JoinsLeft, JoinsRight, Touch;
    var f, a, b := Spans(t, false), Spans(t[..i], false), Spans(t[i + 1..], false);
    SpliceSpans(t, i, i + 1, [], false);
    assert t[i..i + 1] == [t[i]];
    ShortTiles([t[i]], 0, 0, false);
    FreeNeighbours(t, lo, hi, i);
    assert f == a + [t[i].ToSpan()] + b;
    assert forall j :: 0 <= j < |a| ==> f[j] == a[j] && a[j] in a;
    assert forall j :: |a| < j < |f| ==> f[j] == b[j - |a| - 1] && b[j - |a| - 1] in b;
  }

  lemma FreeWithin(t: seq<Tile>, lo: nat, hi: nat)
    requires Tiling(t, lo, hi)
    ensures forall s :: s in Spans(t, false) ==> lo <= s.addr && s.addr + s.size <= hi && s.size > 0
  {
    TilingWithin(t, lo, hi);
    SpansMembers(t, false);
  }

  lemma LastFree(t: seq<Tile>, lo: nat, hi: nat)
    requires Tiling(t, lo, hi)
    ensures var a := Spans(t, false);
            && (forall s :: s in a ==> s.addr + s.size <= hi && s.size > 0)
            && (t != [] && !t[|t| - 1].used ==> a == Spans(t[..|t| - 1], false) + [t[|t| - 1].ToSpan()])
            && (t != [] && !t[|t| - 1].used <==> a != [] && a[|a| - 1].addr + a[|a| - 1].size == hi)
  {
    hide Spans;
    FreeWithin(t, lo, hi);
    if t == [] {
      FewSpans(Tile(0, 1, false), false);
    } else {
      var n := |t| - 1;
      LastSpan(t);
      TilingAt(t, lo, hi, n);
      TilingWithin(t[n + 1..], t[n].addr + t[n].size, hi);
      FreeWithin(t[..n], lo, t[n].addr);
    }
  }

  lemma FewSpans(x: Tile, used: bool)
    ensures Spans([], used) == [] && Spans([x], used) == if x.used == used then [x.ToSpan()] else []
  {
  }

  lemma LastSpan(t: seq<Tile>)
    requires t != []
    ensures Spans(t, false) == Spans(t[..|t| - 1], false) + (if t[|t| - 1].used then [] else [t[|t| - 1].ToSpan()])
  {
    hide Spans;
    var n := |t| - 1;
    assert t == t[..n] + [t[n]];
    SpansConcat(t[..n], [t[n]], false);
    FewSpans(t[n], false);
  }

  /** The joined neighbours are free: they are the last free span before i and the first one after it. */
  lemma JoinedSpans(t: seq<Tile>, i: nat, u: bool)
    requires i < |t|
    ensures var a := Spans(t[..i], u);
            Spans(t[..JoinStart(t, i)], u) == (if JoinsLeft(t, i) && !u && a != [] then a[..|a| - 1] else a)
    ensures Bytes(t[..JoinStart(t, i)], true) == Bytes(t[..i], true)
    ensures var b := Spans(t[i + 1..], u);
            Spans(t[JoinEnd(t, i)..], u) == (if JoinsRight(t, i) && !u && b != [] then b[1..] else b)
    ensures Bytes(t[JoinEnd(t, i)..], true) == Bytes(t[i + 1..], true)
    ensures JoinsLeft(t, i) ==> Spans(t[..i], false) != []
    ensures JoinsRight(t, i) ==> Spans(t[i + 1..], false) != []
  {
    if JoinsLeft(t, i) {
      assert t[..i] == t[..i - 1] + [t[i - 1]];
      SpansConcat(t[..i - 1], [t[i - 1]], false);
      SpansConcat(t[..i - 1], [t[i - 1]], true);
    }
    if JoinsRight(t, i) {
      assert t[i + 1..][0] == t[i + 1] && t[i + 1..][1..] == t[i + 2..];
    }
  }

  lemma UsedGap(t: seq<Tile>, i: nat)
    requires i < |t| && t[i].used
    ensures Spans(t, false) == Spans(t[..i], false) + Spans(t[i + 1..], false)
  {
    SpliceSpans(t, i, i + 1, [], false);
    assert t[i..i + 1] == [t[i]];
    ShortTiles([t[i]], 0, 0, false);
    assert Spans(t[..i], false) + [] == Spans(t[..i], false);
  }

  lemma FreeSpans(t: seq<Tile>, i: nat)
    requires i < |t|
    ensures Spans(FreeAt(t, i), false)
         == Spans(t[..JoinStart(t, i)], false) + [Joined(t, i).ToSpan()] + Spans(t[JoinEnd(t, i)..], false)
  {
    ShortTiles([Joined(t, i)], 0, 0, false);
    SpliceSpans(t, JoinStart(t, i), JoinEnd(t, i), [Joined(t, i)], false);
  }

  lemma FreeUsed(t: seq<Tile>, i: nat)
    requires i < |t| && t[i].used
    ensures var k := |Spans(t[..i], true)|;
            && k < |Spans(t, true)| && Spans(t, true)[k] == t[i].ToSpan()
            && Spans(FreeAt(t, i), true) == RemoveAt(Spans(t, true), k)
            && Bytes(FreeAt(t, i), true) == Bytes(t, true) - t[i].size
  {
    hide Spans, Bytes;
    SpliceSpans(t, i, i + 1, [], true);
    assert t[i..i + 1] == [t[i]];
    ShortTiles([t[i]], 0, 0, true);
    SpliceSpans(t, JoinStart(t, i), JoinEnd(t, i), [Joined(t, i)], true);
    ShortTiles([Joined(t, i)], 0, 0, true);
    JoinedSpans(t, i, true);
  }

  /** Spans k and k + 1 become one. */
  function Merge(v: seq<Span>, k: nat): seq<Span>
    requires k + 1 < |v|
  {
    RemoveAt(v, k + 1)[k := Span(v[k].addr, v[k].size + v[k + 1].size)]
  }

  /** Span k joined with the span before it, where they touch, and its new position. */
  function MergeBefore(v: seq<Span>, k: nat): (seq<Span>, nat)
    requires k < |v|
  {
    if k > 0 && Touch(v[k - 1], v[k]) then (Merge(v, k - 1), k - 1) else (v, k)
  }

  /** Span k joined with the span after it, where they touch. */
  function MergeAfter(v: seq<Span>, k: nat): seq<Span>
    requires k < |v|
  {
    if k + 1 < |v| && Touch(v[k], v[k + 1]) then Merge(v, k) else v
  }

  function Coalesce(v: seq<Span>, k: nat): seq<Span>
    requires k < |v|
  {
    MergeAfter(MergeBefore(v, k).0, MergeBefore(v, k).1)
  }

  lemma CoalesceParts(a: seq<Span>, x: Span, b: seq<Span>)
    ensures var left, right := a != [] && Touch(a[|a| - 1], x), b != [] && Touch(x, b[0]);
            Coalesce(a + [x] + b, |a|) == (if left then a[..|a| - 1] else a)
              + [Span(if left then a[|a| - 1].addr else x.addr,
                      (if left then a[|a| - 1].size else 0) + x.size + (if right then b[0].size else 0))]
              + (if right then b[1..] else b)
  {
    hide Merge, Touch, MergeAfter, MergeBefore;
    CoalesceIs(a + [x] + b, |a|);
    BeforeParts(a, x, b);
    var left := a != [] && Touch(a[|a| - 1], x);
    var a1 := if left then a[..|a| - 1] else a;
    var x1 := Span(if left then a[|a| - 1].addr else x.addr, (if left then a[|a| - 1].size else 0) + x.size);
    AfterParts(a1, x1, b);
    if b != [] { TouchEnd(a, x, b); }
  }

  lemma CoalesceIs(v: seq<Span>, k: nat)
    requires k < |v|
    ensures var (w, j) := MergeBefore(v, k); j < |w| && Coalesce(v, k) == MergeAfter(w, j)
  {
  }

  lemma TouchEnd(a: seq<Span>, x: Span, b: seq<Span>)
    requires b != []
    ensures a != [] && Touch(a[|a| - 1], x) ==>
      (Touch(x, b[0]) <==> Touch(Span(a[|a| - 1].addr, a[|a| - 1].size + x.size), b[0]))
    ensures Touch(x, b[0]) <==> Touch(Span(x.addr, 0 + x.size), b[0])
  {
  }

  lemma BeforeParts(a: seq<Span>, x: Span, b: seq<Span>)
    ensures MergeBefore(a + [x] + b, |a|) ==
      if a != [] && Touch(a[|a| - 1], x)
      then (a[..|a| - 1] + [Span(a[|a| - 1].addr, a[|a| - 1].size + x.size)] + b, |a| - 1) else (a + [x] + b, |a|)
  {
    var v, k := a + [x] + b, |a|;
    assert v[k] == x && (k > 0 ==> v[k - 1] == a[k - 1]);
    if k > 0 && Touch(v[k - 1], v[k]) {
      assert Merge(v, k - 1) == a[..k - 1] + [Span(a[k - 1].addr, a[k - 1].size + x.size)] + b;
    }
  }

  lemma AfterParts(a: seq<Span>, x: Span, b: seq<Span>)
    ensures MergeAfter(a + [x] + b, |a|) ==
      if b != [] && Touch(x, b[0]) then a + [Span(x.addr, x.size + b[0].size)] + b[1..] else a + [x] + b
  {
    var v, k := a + [x] + b, |a|;
    assert v[k] == x && (b != [] ==> v[k + 1] == b[0]);
    if b != [] && Touch(x, b[0]) {
      assert Merge(v, k) == a + [Span(x.addr, x.size + b[0].size)] + b[1..];
    }
  }

  lemma SpanParts(x: Tile)
    ensures x.ToSpan().addr == x.addr && x.ToSpan().size == x.size
  {
  }

  lemma JoinedSpan(t: seq<Tile>, i: nat)
    requires i < |t|
    ensures JoinsLeft(t, i) ==> i > 0
    ensures JoinsRight(t, i) ==> i + 1 < |t|
    ensures Joined(t, i).ToSpan()
         == Span(if JoinsLeft(t, i) then t[i - 1].addr else t[i].addr,
                 (if JoinsLeft(t, i) then t[i - 1].size else 0) + t[i].size + (if JoinsRight(t, i) then t[i + 1].size else 0))
  {
  }

  /** The free spans after a release are what coalescing the inserted span gives. */
  lemma FreeCoalesces(t: seq<Tile>, lo: nat, hi: nat, i: nat)
    requires Tiling(t, lo, hi) && i < |t| && t[i].used
    ensures var f, k := Spans(t, false), |Spans(t[..i], false)|;
            k <= |f| && Spans(FreeAt(t, i), false) == Coalesce(InsertAt(f, k, t[i].ToSpan()), k)
  {
    hide *;
    var a, b := Spans(t[..i], false), Spans(t[i + 1..], false);
    UsedGap(t, i);
    FreeNeighbours(t, lo, hi, i);
    FreeSpans(t, i);
    JoinedSpans(t, i, false);
    JoinedSpan(t, i);
    SpanParts(t[i]);
    if JoinsLeft(t, i) { SpanParts(t[i - 1]); }
    if JoinsRight(t, i) { SpanParts(t[i + 1]); }
    CoalesceParts(a, t[i].ToSpan(), b);
    InsertBetween(a, t[i].ToSpan(), b);
  }

  lemma InsertBetween<T>(a: seq<T>, x: T, b: seq<T>)
    ensures InsertAt(a + b, |a|, x) == a + [x] + b
  {
  }

  /** Without a used tile, a coalesced page is one free tile of the page's full range. */
  lemma EmptyPageIsOneTile(t: seq<Tile>, lo: nat, hi: nat)
    requires Tiling(t, lo, hi) && Coalesced(t) && lo < hi && Spans(t, true) == []
    ensures t == [Tile(lo, hi - lo, false)]
  {
    SpansMembers(t, true);
    assert forall i :: 0 <= i < |t| ==> t[i] in t;
    assert forall i :: 0 <= i < |t| ==> t[i] == Tile(t[i].addr, t[i].size, t[i].used);
    assert |t| <= 1;
    assert t[1..] == [];
  }

  /** Releasing what was just allocated gives the page back as it was. */
  lemma AllocThenFree(t: seq<Tile>, i: nat, size: nat, align: nat)
    requires Coalesced(t) && i < |t| && 0 < size <= t[i].size && !t[i].used && align > 0
    ensures FreeAt(AllocAt(t, i, size, align), i) == t
  {
    var p := AllocPieces(t[i], size, align);
    var r := t[..i] + p + t[i + 1..];
    if i > 0 { assert t[i - 1].used; assert r[i - 1] == t[i - 1]; }
    if i + 1 < |t| { assert t[i].used || t[i + 1].used; assert r[i + |p|] == t[i + 1]; }
    assert r[i] == p[0];
    if |p| == 2 { assert r[i + 1] == p[1]; }
    assert !JoinsLeft(r, i) && (JoinsRight(r, i) <==> |p| == 2);
    assert Joined(r, i) == t[i];
    assert r[..i] == t[..i] && r[i + |p|..] == t[i + 1..];
  }
}
