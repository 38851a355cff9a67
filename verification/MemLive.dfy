/**
 The live allocations: they never overlap, and each operation adds or removes exactly the one it reports.
 */
module MemLive {
  import opened Arith
  import opened SeqEdits
  import opened Tiles
  import opened MemSpec
  import opened Wrappers

  /** Address ranges without a common address. */
  predicate Disjoint(a: Span, b: Span) { a.addr + a.size <= b.addr || b.addr + b.size <= a.addr }

  /** Tiles at different places of the pages do not overlap. */
  lemma TilesDisjoint(c: Config, s: State, p: nat, i: nat, q: nat, j: nat)
    requires c.Valid() && Inv(c, s) && p < |s.pages| && q < |s.pages|
    requires i < |s.pages[p].tiles| && j < |s.pages[q].tiles| && (p, i) != (q, j)
    ensures Disjoint(s.pages[p].tiles[i].ToSpan(), s.pages[q].tiles[j].ToSpan())
    ensures s.pages[p].tiles[i].size > 0 && s.pages[q].tiles[j].size > 0
  {
    var x, y := s.pages[p], s.pages[q];
    assert x in s.pages && y in s.pages;
    TilingAt(x.tiles, x.addr, x.End(), i);
    TilingAt(y.tiles, y.addr, y.End(), j);
    if p == q {
      TilesInOrder(x.tiles, x.addr, x.End(), if i < j then i else j, if i < j then j else i);
    }
  }

  lemma TilesInOrder(t: seq<Tile>, lo: nat, hi: nat, i: nat, j: nat)
    requires Tiling(t, lo, hi) && i < j < |t|
    ensures t[i].addr + t[i].size <= t[j].addr
  {
    TilingAt(t, lo, hi, i);
    TilingWithin(t[i + 1..], t[i].addr + t[i].size, hi);
    assert t[j] == t[i + 1..][j - i - 1];
  }

  lemma LiveAtUnique(c: Config, s: State, p: nat, i: nat, q: nat, j: nat, addr: nat)
    requires c.Valid() && Inv(c, s) && LiveAt(s.pages, p, i, addr) && LiveAt(s.pages, q, j, addr)
    ensures p == q && i == j
  {
    if (p, i) != (q, j) { TilesDisjoint(c, s, p, i, q, j); }
  }

  ghost function LiveSpans(pages: seq<PageView>): set<Span> {
    set p, x | p in pages && x in p.tiles && x.used :: x.ToSpan()
  }

  lemma LiveSpanAt(pages: seq<PageView>, sp: Span)
    ensures sp in LiveSpans(pages)
       <==> exists p: nat, i: nat :: LiveAt(pages, p, i, sp.addr) && pages[p].tiles[i].size == sp.size
  {
    if sp in LiveSpans(pages) {
      var pv, x :| pv in pages && x in pv.tiles && x.used && x.ToSpan() == sp;
      var p :| 0 <= p < |pages| && pages[p] == pv;
      var i :| 0 <= i < |pv.tiles| && pv.tiles[i] == x;
      assert LiveAt(pages, p, i, sp.addr);
    }
    if p: nat, i: nat :| LiveAt(pages, p, i, sp.addr) && pages[p].tiles[i].size == sp.size {
      assert pages[p] in pages && pages[p].tiles[i] in pages[p].tiles;
      assert pages[p].tiles[i].ToSpan() == sp;
    }
  }

  /** Live allocations are pairwise disjoint, and no two start at the same address. */
  lemma LiveDisjoint(c: Config, s: State, a: Span, b: Span)
    requires c.Valid() && Inv(c, s) && a in LiveSpans(s.pages) && b in LiveSpans(s.pages) && a != b
    ensures Disjoint(a, b) && a.addr != b.addr
  {
    LiveSpanAt(s.pages, a);
    LiveSpanAt(s.pages, b);
    var p: nat, i: nat :| LiveAt(s.pages, p, i, a.addr) && s.pages[p].tiles[i].size == a.size;
    var q: nat, j: nat :| LiveAt(s.pages, q, j, b.addr) && s.pages[q].tiles[j].size == b.size;
    TilesDisjoint(c, s, p, i, q, j);
  }

  // ---- Allocation adds one live span ----

  /** The used tiles of a page, as spans. */
  ghost function PageLive(p: PageView): set<Span> { set x | x in p.tiles && x.used :: x.ToSpan() }

  lemma PageLiveSpans(p: PageView, sp: Span)
    ensures sp in PageLive(p) <==> sp in Spans(p.tiles, true)
  {
    SpansMembers(p.tiles, true);
    if sp in Spans(p.tiles, true) {
      assert Tile(sp.addr, sp.size, true) in p.tiles;
      assert Tile(sp.addr, sp.size, true).ToSpan() == sp;
    }
  }

  lemma LiveReplace(pages: seq<PageView>, p: nat, q: PageView)
    requires p < |pages|
    ensures LiveSpans(pages[p := q]) == LiveSpans(RemoveAt(pages, p)) + PageLive(q)
  {
    var r := RemoveAt(pages, p);
    LiveInsert(r, p, q);
    assert InsertAt(r, p, q) == pages[p := q];
  }

  lemma LiveInsert(pages: seq<PageView>, k: nat, q: PageView)
    requires k <= |pages|
    ensures LiveSpans(InsertAt(pages, k, q)) == LiveSpans(pages) + PageLive(q)
  {
    InsertedMembers(pages, k, q);
  }

  lemma AllocPageLive(p: PageView, i: nat, size: nat, align: nat)
    requires i < |p.tiles| && Fits(p.tiles[i], size) && size > 0 && align > 0
    requires p.tiles[i].size - size < align ==> p.tiles[i].size == size
    ensures PageLive(p.(tiles := AllocAt(p.tiles, i, size, align))) == PageLive(p) + {Span(p.tiles[i].addr, size)}
  {
    var q := p.(tiles := AllocAt(p.tiles, i, size, align));
    AllocUsed(p.tiles, i, size, align);
    InsertedMembers(Spans(p.tiles, true), |Spans(p.tiles[..i], true)|, Span(p.tiles[i].addr, size));
    forall sp: Span
      ensures sp in PageLive(q) <==> sp in PageLive(p) + {Span(p.tiles[i].addr, size)}
    {
      PageLiveSpans(p, sp);
      PageLiveSpans(q, sp);
    }
  }

  lemma AllocInLive(c: Config, s: State, p: nat, i: nat, size: nat)
    requires c.Valid() && Inv(c, s) && p < |s.pages| && i < |s.pages[p].tiles| && Fits(s.pages[p].tiles[i], size)
    requires size > 0 && size % c.blockAlign == 0
    ensures var n := Span(s.pages[p].tiles[i].addr, size);
            && LiveSpans(AllocIn(c, s, p, i, size).pages) == LiveSpans(s.pages) + {n}
            && forall a :: a in LiveSpans(s.pages) ==> Disjoint(a, n)
  {
    hide AllocAt;
    var x, n := s.pages[p], Span(s.pages[p].tiles[i].addr, size);
    assert x in s.pages;
    FreeTileAligned(c, x, i);
    AllocAligned(x.tiles, i, size, c.blockAlign);
    AllocPageLive(x, i, size, c.blockAlign);
    LiveReplace(s.pages, p, x.(tiles := AllocAt(x.tiles, i, size, c.blockAlign)));
    LiveReplace(s.pages, p, x);
    assert s.pages[p := x] == s.pages;
    forall a | a in LiveSpans(s.pages) ensures Disjoint(a, n) {
      LiveSpanAt(s.pages, a);
      var q: nat, j: nat :| LiveAt(s.pages, q, j, a.addr) && s.pages[q].tiles[j].size == a.size;
      TilesDisjoint(c, s, p, i, q, j);
    }
  }

  lemma NewPageLive(c: Config, s: State, q: PageView, n: Span)
    requires c.Valid() && Inv(c, s) && PageLive(q) == {n} && q.addr <= n.addr && n.addr + n.size <= q.End()
    requires forall p :: p in s.pages ==> p.End() <= q.addr || q.End() <= p.addr
    ensures LiveSpans(AddPage(s.pages, q)) == LiveSpans(s.pages) + {n}
    ensures forall a :: a in LiveSpans(s.pages) ==> Disjoint(a, n)
  {
    LiveInsert(s.pages, PagesBelow(s.pages, q.addr), q);
    forall a | a in LiveSpans(s.pages) ensures Disjoint(a, n) {
      var p, x :| p in s.pages && x in p.tiles && x.used && x.ToSpan() == a;
      TilingWithin(p.tiles, p.addr, p.End());
    }
  }

  lemma FreshPage(c: Config, addr: nat, size: nat)
    requires c.Valid() && size > 0 && size % c.blockAlign == 0
    ensures PageLive(NewPage(c, addr, size)) == {Span(addr, size)}
    ensures size <= NewPage(c, addr, size).size
  {
    var pageSize := AlignSize(size, c.pageAlign);
    var p := PageView(addr, pageSize, [Tile(addr, pageSize, false)]);
    ModTransitive(pageSize, c.pageAlign, c.blockAlign);
    AllocAligned(p.tiles, 0, size, c.blockAlign);
    AllocPageLive(p, 0, size, c.blockAlign);
    assert PageLive(p) == {};
  }

  /** A successful allocation adds one live span of the rounded size, disjoint from all others. */
  lemma AllocateLive(c: Config, s: State, size: nat, r: Option<nat>, s': State)
    requires c.Valid() && Inv(c, s) && AllocateStep(c, s, size, true, r, s') && r.Some?
    ensures var n := Span(r.value, AlignSize(size, c.blockAlign));
            && n.size >= size && LiveSpans(s'.pages) == LiveSpans(s.pages) + {n}
            && forall a :: a in LiveSpans(s.pages) ==> Disjoint(a, n)
  {
    hide Inv, NewPage, AllocIn, FindNextAddress, AddPage;
    var sz := AlignSize(size, c.blockAlign);
    if exists p :: FirstFit(s.pages, sz, p) {
      var p: nat, i: nat :| FirstFit(s.pages, sz, p) && BestFit(s.pages[p].tiles, sz, i)
        && r == Some(s.pages[p].tiles[i].addr) && s' == AllocIn(c, s, p, i, sz);
      AllocInLive(c, s, p, i, sz);
    } else {
      InvApart(c, s);
      NewPageInOrder(c, s.pages, sz);
      FreshPage(c, r.value, sz);
      NewPageAddr(c, r.value, sz);
      NewPageLive(c, s, NewPage(c, r.value, sz), Span(r.value, sz));
    }
  }

  lemma InvApart(c: Config, s: State)
    requires c.Valid() && Inv(c, s)
    ensures MemSpec.Apart(s.pages)
  {
  }

  lemma NewPageAddr(c: Config, addr: nat, size: nat)
    requires c.Valid()
    ensures NewPage(c, addr, size).addr == addr
  {
  }

  /** A successful reservation adds the whole reserved range as one live span. */
  lemma ReserveLive(c: Config, s: State, addr: nat, size: nat, s': State)
    requires c.Valid() && Inv(c, s) && ReserveStep(c, s, addr, size, true, s')
    ensures var n := Span(addr, AlignSize(size, c.pageAlign));
            && LiveSpans(s'.pages) == LiveSpans(s.pages) + {n}
            && forall a :: a in LiveSpans(s.pages) ==> Disjoint(a, n)
  {
    var sz := AlignSize(size, c.pageAlign);
    var q := PageView(addr, sz, [Tile(addr, sz, true)]);
    assert q.tiles[0] in q.tiles && PageLive(q) == {Span(addr, sz)};
    forall p | p in s.pages ensures p.End() <= q.addr || q.End() <= p.addr {
      var k :| 0 <= k < |s.pages| && s.pages[k] == p;
    }
    NewPageLive(c, s, q, Span(addr, sz));
  }

  // ---- Release removes one live span ----

  lemma FreePageLive(c: Config, s: State, p: nat, i: nat)
    requires c.Valid() && Inv(c, s) && p < |s.pages| && i < |s.pages[p].tiles| && s.pages[p].tiles[i].used
    ensures var x := s.pages[p];
            PageLive(x.(tiles := FreeAt(x.tiles, i))) == PageLive(x) - {x.tiles[i].ToSpan()}
  {
    hide FreeAt, Coalesced;
    var x, t := s.pages[p], FreeAt(s.pages[p].tiles, i);
    assert x in s.pages;
    var u, k := Spans(x.tiles, true), |Spans(x.tiles[..i], true)|;
    FreeUsed(x.tiles, i);
    UsedSpansDistinct(x.tiles, x.addr, x.End());
    RemovedMembers(u, k);
    forall sp: Span ensures sp in PageLive(x.(tiles := t)) <==> sp in PageLive(x) - {x.tiles[i].ToSpan()} {
      PageLiveSpans(x, sp);
      PageLiveSpans(x.(tiles := t), sp);
    }
  }

  lemma {:induction false} UsedSpansDistinct(t: seq<Tile>, lo: nat, hi: nat)
    requires Tiling(t, lo, hi)
    ensures Distinct(Spans(t, true))
  {
    if t != [] {
      UsedSpansDistinct(t[1..], lo + t[0].size, hi);
      if t[0].used {
        var rest := Spans(t[1..], true);
        TilingWithin(t[1..], lo + t[0].size, hi);
        SpansMembers(t[1..], true);
        assert t[0].ToSpan() !in rest;
        InsertedDistinct(rest, 0, t[0].ToSpan());
        assert InsertAt(rest, 0, t[0].ToSpan()) == Spans(t, true);
      } else {
        assert Spans(t, true) == Spans(t[1..], true);
      }
    }
  }

  /** A release succeeds exactly on the start of a live span, and removes that span only. */
  lemma ReleaseLive(c: Config, s: State, addr: nat, r: bool, s': State)
    requires c.Valid() && Inv(c, s) && ReleaseStep(s, addr, r, s')
    ensures r <==> exists n :: n in LiveSpans(s.pages) && n.addr == addr
    ensures r ==> exists n :: n in LiveSpans(s.pages) && n.addr == addr && LiveSpans(s'.pages) == LiveSpans(s.pages) - {n}
    ensures !r ==> s' == s
  {
    hide FreeAt, Inv;
    if r {
      var p: nat, i: nat :| LiveAt(s.pages, p, i, addr) && s.pages[p].tiles[i].size <= s.allocatedBytes
                            && s' == State(FreeIn(s.pages, p, i), s.allocatedBytes - s.pages[p].tiles[i].size);
      var n := s.pages[p].tiles[i].ToSpan();
      LiveSpanAt(s.pages, n);
      FreeInLive(c, s, p, i);
    } else if n :| n in LiveSpans(s.pages) && n.addr == addr {
      LiveSpanAt(s.pages, n);
      assert false;
    }
  }

  lemma FreeInLive(c: Config, s: State, p: nat, i: nat)
    requires c.Valid() && Inv(c, s) && p < |s.pages| && i < |s.pages[p].tiles| && s.pages[p].tiles[i].used
    ensures LiveSpans(FreeIn(s.pages, p, i)) == LiveSpans(s.pages) - {s.pages[p].tiles[i].ToSpan()}
  {
    hide FreeAt, Inv;
    var x, n := s.pages[p], s.pages[p].tiles[i].ToSpan();
    var q := x.(tiles := FreeAt(x.tiles, i));
    FreePageLive(c, s, p, i);
    LiveReplace(s.pages, p, x);
    LiveReplace(s.pages, p, q);
    assert s.pages[p := x] == s.pages;
    OthersElsewhere(c, s, p, i);
    if Bytes(q.tiles, true) == 0 {
      NoBytesNoLive(c, s, p, i);
    }
  }

  lemma OthersElsewhere(c: Config, s: State, p: nat, i: nat)
    requires c.Valid() && Inv(c, s) && p < |s.pages| && i < |s.pages[p].tiles|
    ensures s.pages[p].tiles[i].ToSpan() !in LiveSpans(RemoveAt(s.pages, p))
  {
    var r, n := RemoveAt(s.pages, p), s.pages[p].tiles[i].ToSpan();
    if n in LiveSpans(r) {
      LiveSpanAt(r, n);
      var q: nat, j: nat :| LiveAt(r, q, j, n.addr) && r[q].tiles[j].size == n.size;
      TilesDisjoint(c, s, p, i, if q < p then q else q + 1, j);
      assert false;
    }
  }

  lemma NoBytesNoLive(c: Config, s: State, p: nat, i: nat)
    requires c.Valid() && Inv(c, s) && p < |s.pages| && i < |s.pages[p].tiles|
    requires Bytes(FreeAt(s.pages[p].tiles, i), true) == 0
    ensures PageLive(s.pages[p].(tiles := FreeAt(s.pages[p].tiles, i))) == {}
  {
    hide FreeAt, Coalesced, Aligned;
    var x, t := s.pages[p], FreeAt(s.pages[p].tiles, i);
    assert x in s.pages;
    FreeTiling(x.tiles, x.addr, x.End(), i);
    TilingWithin(t, x.addr, x.End());
    BytesZero(t, true);
    forall sp: Span ensures sp !in PageLive(x.(tiles := t)) {
      PageLiveSpans(x.(tiles := t), sp);
    }
  }

  // ---- Release undoes allocation ----

  /** Releasing an allocation gives back the pages, tiles and byte count from before it. */
  lemma AllocateThenRelease(c: Config, s: State, size: nat, a: nat, s1: State, r: bool, s2: State)
    requires c.Valid() && Inv(c, s)
    requires AllocateStep(c, s, size, true, Some(a), s1) && ReleaseStep(s1, a, r, s2)
    ensures r && s2 == s
  {
    hide Inv, NewPage, AllocIn, FindNextAddress, AddPage;
    AllocateKeeps(c, s, size, true, Some(a), s1);
    var sz := AlignSize(size, c.blockAlign);
    if exists p :: FirstFit(s.pages, sz, p) {
      var p: nat, i: nat :| FirstFit(s.pages, sz, p) && BestFit(s.pages[p].tiles, sz, i)
        && Some(a) == Some(s.pages[p].tiles[i].addr) && s1 == AllocIn(c, s, p, i, sz);
      UndoAllocIn(c, s, p, i, sz);
      ReleaseUndo(c, s1, p, i, a, r, s2);
    } else {
      var k := PagesBelow(s.pages, a);
      UndoNewPage(c, s, a, sz);
      ReleaseUndo(c, s1, k, 0, a, r, s2);
    }
  }

  lemma ReleaseUndo(c: Config, s1: State, p: nat, i: nat, a: nat, r: bool, s2: State)
    requires c.Valid() && Inv(c, s1) && LiveAt(s1.pages, p, i, a) && ReleaseStep(s1, a, r, s2)
    ensures r && s1.pages[p].tiles[i].size <= s1.allocatedBytes
    ensures s2 == State(FreeIn(s1.pages, p, i), s1.allocatedBytes - s1.pages[p].tiles[i].size)
  {
    hide Inv;
    var q: nat, j: nat :| LiveAt(s1.pages, q, j, a) && s1.pages[q].tiles[j].size <= s1.allocatedBytes
                          && s2 == State(FreeIn(s1.pages, q, j), s1.allocatedBytes - s1.pages[q].tiles[j].size);
    LiveAtUnique(c, s1, p, i, q, j, a);
  }

  lemma UndoAllocIn(c: Config, s: State, p: nat, i: nat, size: nat)
    requires c.Valid() && Inv(c, s) && p < |s.pages| && i < |s.pages[p].tiles| && Fits(s.pages[p].tiles[i], size)
    requires size > 0 && size % c.blockAlign == 0
    ensures var s1, a := AllocIn(c, s, p, i, size), s.pages[p].tiles[i].addr;
            && LiveAt(s1.pages, p, i, a) && s1.pages[p].tiles[i].size == size
            && FreeIn(s1.pages, p, i) == s.pages && s1.allocatedBytes == s.allocatedBytes + size
  {
    hide Tiling, Coalesced, Aligned;
    var x := s.pages[p];
    assert x in s.pages;
    FreeTileAligned(c, x, i);
    AllocAligned(x.tiles, i, size, c.blockAlign);
    AllocThenFree(x.tiles, i, size, c.blockAlign);
    assert AllocAt(x.tiles, i, size, c.blockAlign)[i] == Tile(x.tiles[i].addr, size, true);
  }

  lemma UndoNewPage(c: Config, s: State, a: nat, size: nat)
    requires c.Valid() && size > 0 && size % c.blockAlign == 0
    ensures var pages, k := AddPage(s.pages, NewPage(c, a, size)), PagesBelow(s.pages, a);
            && LiveAt(pages, k, 0, a) && pages[k].tiles[0].size == size
            && FreeIn(pages, k, 0) == s.pages
  {
    var pageSize := AlignSize(size, c.pageAlign);
    var t := [Tile(a, pageSize, false)];
    ModTransitive(pageSize, c.pageAlign, c.blockAlign);
    AllocAligned(t, 0, size, c.blockAlign);
    AllocThenFree(t, 0, size, c.blockAlign);
    ShortTiles(t, 0, 0, true);
    assert AllocAt(t, 0, size, c.blockAlign)[0] == Tile(a, size, true);
    var k := PagesBelow(s.pages, a);
    assert RemoveAt(AddPage(s.pages, NewPage(c, a, size)), k) == s.pages;
  }

  // ---- Capacity ----

  ghost predicate InCapacity(c: Config, pages: seq<PageView>) {
    forall p :: p in pages ==> p.End() <= c.capacity
  }

  /**
   An allocation keeps all pages below the capacity exactly when there was a page already or the
   new page fits at the base address: findNextAddress places the first page unchecked.
   */
  lemma CapacityKept(c: Config, s: State, size: nat, r: Option<nat>, s': State)
    requires c.Valid() && Inv(c, s) && InCapacity(c, s.pages)
    requires AllocateStep(c, s, size, true, r, s') && r.Some?
    ensures InCapacity(c, s'.pages)
       <==> s.pages != [] || c.baseAddress + AlignSize(AlignSize(size, c.blockAlign), c.pageAlign) <= c.capacity
  {
    hide Inv, FindNextAddress, InCapacity, AddPage, AlignSize, NewPage, AllocIn;
    var sz := AlignSize(size, c.blockAlign);
    if exists p :: FirstFit(s.pages, sz, p) {
      var p: nat, i: nat :| FirstFit(s.pages, sz, p) && BestFit(s.pages[p].tiles, sz, i)
        && r == Some(s.pages[p].tiles[i].addr) && s' == AllocIn(c, s, p, i, sz);
      TakenInCapacity(c, s, p, i, sz);
    } else {
      AddedInCapacity(c, s.pages, NewPage(c, r.value, sz));
      NextAddressEnd(c, s.pages, AlignSize(sz, c.pageAlign));
      NewPageEnd(c, r.value, sz);
    }
  }

  lemma NewPageEnd(c: Config, addr: nat, size: nat)
    requires c.Valid()
    ensures NewPage(c, addr, size).End() == addr + AlignSize(size, c.pageAlign)
  {
  }

  lemma TakenInCapacity(c: Config, s: State, p: nat, i: nat, size: nat)
    requires InCapacity(c, s.pages) && FirstFit(s.pages, size, p) && BestFit(s.pages[p].tiles, size, i)
    ensures s.pages != [] && InCapacity(c, AllocIn(c, s, p, i, size).pages)
  {
    var after := AllocIn(c, s, p, i, size).pages;
    forall q | q in after ensures q.End() <= c.capacity {
      var j :| 0 <= j < |after| && after[j] == q;
      assert s.pages[j] in s.pages;
    }
  }

  lemma AddedInCapacity(c: Config, pages: seq<PageView>, n: PageView)
    requires InCapacity(c, pages)
    ensures InCapacity(c, AddPage(pages, n)) <==> n.End() <= c.capacity
  {
    InsertedMembers(pages, PagesBelow(pages, n.addr), n);
    assert n in AddPage(pages, n);
  }

  /** In an allocator of one page of 4096 bytes the first allocation, of 5000 bytes, gets a page of 8192. */
  lemma FirstPageTooLarge(r: Option<nat>, s': State)
    requires AllocateStep(Config(0, 0x1000, 0x1000, 64), State([], 0), 5000, true, r, s')
    ensures r == Some(0) && !InCapacity(Config(0, 0x1000, 0x1000, 64), s'.pages)
  {
    var c, s := Config(0, 0x1000, 0x1000, 64), State([], 0);
    assert AlignSize(5000, 64) == 5056 && AlignSize(5056, 0x1000) == 0x2000;
    assert forall p :: !FirstFit(s.pages, 5056, p);
    EmptyInv(c);
    hide Inv, AlignSize;
    CapacityKept(c, s, 5000, r, s');
  }

  lemma EmptyInv(c: Config)
    requires c.Valid()
    ensures Inv(c, State([], 0)) && InCapacity(c, [])
  {
  }

  lemma NextAddressEnd(c: Config, pages: seq<PageView>, size: nat)
    requires InCapacity(c, pages) && FindNextAddress(c, pages, size).Some?
    ensures pages != [] ==> FindNextAddress(c, pages, size).value + size <= c.capacity
    ensures pages == [] ==> FindNextAddress(c, pages, size).value == c.baseAddress
  {
    if pages != [] { GapEnd(c, pages, 0, c.baseAddress, size); }
  }

  lemma {:induction false} GapEnd(c: Config, pages: seq<PageView>, k: nat, end: nat, size: nat)
    requires InCapacity(c, pages) && k <= |pages| && GapFrom(pages, k, end, size, c.capacity).Some?
    ensures GapFrom(pages, k, end, size, c.capacity).value + size <= c.capacity
    decreases |pages| - k
  {
    if k < |pages| {
      assert pages[k] in pages;
      if end + size > pages[k].addr { GapEnd(c, pages, k + 1, pages[k].End(), size); }
    }
  }

  /** The free bytes before page k: from the base address or from the end of the page before it. */
  function GapStart(c: Config, pages: seq<PageView>, k: nat): nat
    requires k <= |pages|
  {
    if k == 0 then c.baseAddress else pages[k - 1].End()
  }

  /** A new page is refused exactly when there are pages and neither a gap nor the space after the last is large enough. */
  lemma NoAddressMeans(c: Config, pages: seq<PageView>, size: nat)
    ensures FindNextAddress(c, pages, size) == None
       <==> && pages != []
            && (forall k :: 0 <= k < |pages| ==> GapStart(c, pages, k) + size > pages[k].addr)
            && GapStart(c, pages, |pages|) + size > c.capacity
  {
    if pages != [] { NoGapFrom(c, pages, 0, size); }
  }

  lemma {:induction false} NoGapFrom(c: Config, pages: seq<PageView>, k: nat, size: nat)
    requires k <= |pages|
    ensures GapFrom(pages, k, GapStart(c, pages, k), size, c.capacity) == None
       <==> && (forall j :: k <= j < |pages| ==> GapStart(c, pages, j) + size > pages[j].addr)
            && GapStart(c, pages, |pages|) + size > c.capacity
    decreases |pages| - k
  {
    if k < |pages| { NoGapFrom(c, pages, k + 1, size); }
  }
}
