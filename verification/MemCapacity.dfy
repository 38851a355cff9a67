/**
 What an allocation is given, and which pages can pass the capacity in a run: only one that was placed
 while there was no page, exactly for the layouts of FitsLayout.
 */
module MemCapacity {
  import opened Arith
  import opened SeqEdits
  import opened Tiles
  import opened MemSpec
  import opened MemLive
  import opened Wrappers

  // ---- What an allocation is given ----

  /** An allocation fails exactly when it asks for nothing, or no free block, gap or end space is large enough. */
  lemma AllocateRefuses(c: Config, s: State, size: nat, hasAddr: bool, r: Option<nat>, s': State)
    requires c.Valid() && AllocateStep(c, s, size, hasAddr, r, s')
    ensures var sz := AlignSize(size, c.blockAlign);
      var pageSize := AlignSize(sz, c.pageAlign);
      r == None <==>
        || size == 0 || !hasAddr
        || (&& (forall p, x :: p in s.pages && x in p.tiles && !x.used ==> x.size < sz)
            && s.pages != []
            && (forall k :: 0 <= k < |s.pages| ==> GapStart(c, s.pages, k) + pageSize > s.pages[k].addr)
            && GapStart(c, s.pages, |s.pages|) + pageSize > c.capacity)
    ensures r == None ==> s' == s
  {
    hide AlignSize, FindNextAddress, GapStart, AllocIn, AddPage, NewPage, FirstFit, HasFit;
    var sz := AlignSize(size, c.blockAlign);
    NoAddressMeans(c, s.pages, AlignSize(sz, c.pageAlign));
    FitMeans(s.pages, sz);
  }

  /** Some page comes first among those with a free block that fits. */
  lemma FitMeans(pages: seq<PageView>, sz: nat)
    ensures (exists p :: FirstFit(pages, sz, p)) <==> exists p, x :: p in pages && x in p.tiles && !x.used && x.size >= sz
  {
    if p, x :| p in pages && x in p.tiles && !x.used && x.size >= sz {
      var k :| 0 <= k < |pages| && pages[k] == p;
      assert Fits(x, sz) && HasFit(pages[k].tiles, sz);
      var q := FirstOne(pages, sz, k);
    }
    if p: nat :| FirstFit(pages, sz, p) {
      var x :| x in pages[p].tiles && Fits(x, sz);
      assert pages[p] in pages;
    }
  }

  lemma {:induction false} FirstOne(pages: seq<PageView>, sz: nat, k: nat) returns (p: nat)
    requires k < |pages| && HasFit(pages[k].tiles, sz)
    ensures FirstFit(pages, sz, p)
    decreases k
  {
    if q: nat :| q < k && HasFit(pages[q].tiles, sz) {
      p := FirstOne(pages, sz, q);
    } else {
      p := k;
    }
  }

  /** While a free block fits, the allocation gets a smallest one of the first page that has one. */
  lemma AllocateTakes(c: Config, s: State, size: nat, a: nat, s': State) returns (p: nat, i: nat)
    requires c.Valid() && AllocateStep(c, s, size, true, Some(a), s')
    requires exists q, x :: q in s.pages && x in q.tiles && !x.used && x.size >= AlignSize(size, c.blockAlign)
    ensures var sz := AlignSize(size, c.blockAlign);
      && p < |s.pages| && i < |s.pages[p].tiles| && !s.pages[p].tiles[i].used && s.pages[p].tiles[i].size >= sz
      && a == s.pages[p].tiles[i].addr
      && (forall q, x :: 0 <= q < p && x in s.pages[q].tiles && !x.used ==> x.size < sz)
      && (forall x :: x in s.pages[p].tiles && !x.used && x.size >= sz ==> s.pages[p].tiles[i].size <= x.size)
  {
    hide AlignSize, FindNextAddress, AddPage, NewPage;
    var sz := AlignSize(size, c.blockAlign);
    FitMeans(s.pages, sz);
    p, i :| FirstFit(s.pages, sz, p) && BestFit(s.pages[p].tiles, sz, i)
            && Some(a) == Some(s.pages[p].tiles[i].addr) && s' == AllocIn(c, s, p, i, sz);
    forall q, x | 0 <= q < p && x in s.pages[q].tiles && !x.used ensures x.size < sz {
      assert !HasFit(s.pages[q].tiles, sz);
      assert !Fits(x, sz);
    }
    forall x | x in s.pages[p].tiles && !x.used && x.size >= sz ensures s.pages[p].tiles[i].size <= x.size {
      assert Fits(x, sz);
    }
  }

  /** Otherwise a new page goes into the first gap that is large enough, or behind the last page. */
  lemma AllocatePlaces(c: Config, s: State, size: nat, a: nat, s': State) returns (k: nat)
    requires c.Valid() && AllocateStep(c, s, size, true, Some(a), s')
    requires forall q, x :: q in s.pages && x in q.tiles && !x.used ==> x.size < AlignSize(size, c.blockAlign)
    ensures var pageSize := AlignSize(AlignSize(size, c.blockAlign), c.pageAlign);
      && k <= |s.pages| && a == (if k == 0 then c.baseAddress else s.pages[k - 1].addr + s.pages[k - 1].size)
      && (if k < |s.pages| then a + pageSize <= s.pages[k].addr else s.pages == [] || a + pageSize <= c.capacity)
      && (forall j :: 0 <= j < k ==> GapStart(c, s.pages, j) + pageSize > s.pages[j].addr)
      && |s'.pages| == |s.pages| + 1 && exists n :: n in s'.pages && n.addr == a && n.size == pageSize
  {
    hide AlignSize, AllocIn, FirstFit, FindNextAddress;
    var sz := AlignSize(size, c.blockAlign);
    FitMeans(s.pages, sz);
    var n := NewPage(c, a, sz);
    InsertedMembers(s.pages, PagesBelow(s.pages, a), n);
    assert n in s'.pages;
    k := FirstGap(c, s.pages, AlignSize(sz, c.pageAlign));
  }

  lemma FirstGap(c: Config, pages: seq<PageView>, size: nat) returns (k: nat)
    requires FindNextAddress(c, pages, size).Some?
    ensures var a := FindNextAddress(c, pages, size).value;
      && k <= |pages| && a == GapStart(c, pages, k)
      && (if k < |pages| then a + size <= pages[k].addr else pages == [] || a + size <= c.capacity)
      && forall j :: 0 <= j < k ==> GapStart(c, pages, j) + size > pages[j].addr
  {
    if pages == [] { k := 0; } else { k := GapAt(c, pages, 0, size); }
  }

  lemma {:induction false} GapAt(c: Config, pages: seq<PageView>, k: nat, size: nat) returns (m: nat)
    requires k <= |pages| && GapFrom(pages, k, GapStart(c, pages, k), size, c.capacity).Some?
    ensures var a := GapFrom(pages, k, GapStart(c, pages, k), size, c.capacity).value;
      && k <= m <= |pages| && a == GapStart(c, pages, m)
      && (if m < |pages| then a + size <= pages[m].addr else a + size <= c.capacity)
      && forall j :: k <= j < m ==> GapStart(c, pages, j) + size > pages[j].addr
    decreases |pages| - k
  {
    if k < |pages| && GapStart(c, pages, k) + size > pages[k].addr {
      m := GapAt(c, pages, k + 1, size);
    } else {
      m := k;
    }
  }

  // ---- Pages past the capacity ----

  /** The step placed a page of this place and size: a reservation within the capacity, or an allocation. */
  ghost predicate Placed(c: Config, s: State, op: Op, q: PageView) {
    match op
    case Reserve(_, _) => q.End() <= c.capacity && q.size >= c.pageAlign
    case Allocate(_, _) =>
      && q.size >= c.pageAlign
      && if s.pages == [] then q.addr == c.baseAddress else exists k: nat :: InGap(c, s.pages, k, q)
    case Release(_) => false
  }

  /** A page in the gap before page k, or behind the last page. */
  ghost predicate InGap(c: Config, pages: seq<PageView>, k: nat, q: PageView) {
    && k <= |pages| && q.addr == GapStart(c, pages, k)
    && q.End() <= if k < |pages| then pages[k].addr else c.capacity
  }

  lemma AlignedPositive(size: nat, a: nat)
    requires size > 0 && a > 0
    ensures AlignSize(size, a) >= a
  {
    var r := AlignSize(size, a);
    if r < a { DivModUnique(r, a, 0, r); }
  }

  lemma AddedOrigin(pages: seq<PageView>, n: PageView, q: PageView)
    requires q in AddPage(pages, n)
    ensures q in pages || q == n
    ensures pages == [] ==> AddPage(pages, n) == [q]
  {
    InsertedMembers(pages, PagesBelow(pages, n.addr), n);
  }

  /** A page after a step was there before it, with the same place and size, or the step placed it. */
  lemma PageOrigin(c: Config, s: State, op: Op, s': State, q: PageView) returns (p: Option<PageView>)
    requires c.Valid() && Step(c, s, op, s') && q in s'.pages
    ensures match p case Some(b) => b in s.pages && b.addr == q.addr && b.size == q.size case None => Placed(c, s, op, q)
    ensures op.Allocate? && s.pages == [] ==> s'.pages == [q]
  {
    hide AlignSize, ReserveStep, AllocateStep, ReleaseStep, GapStart, InGap;
    match op
    case Reserve(addr, size) =>
      var r :| ReserveStep(c, s, addr, size, r, s');
      p := ReserveOrigin(c, s, addr, size, r, s', q);
    case Allocate(size, hasAddr) =>
      var r :| AllocateStep(c, s, size, hasAddr, r, s');
      p := AllocateOrigin(c, s, size, hasAddr, r, s', q);
    case Release(addr) =>
      var r :| ReleaseStep(s, addr, r, s');
      var b := ReleaseOrigin(s, addr, r, s', q);
      p := Some(b);
  }

  lemma ReserveOrigin(c: Config, s: State, addr: nat, size: nat, r: bool, s': State, q: PageView) returns (p: Option<PageView>)
    requires c.Valid() && ReserveStep(c, s, addr, size, r, s') && q in s'.pages
    ensures match p case Some(b) => b in s.pages && b.addr == q.addr && b.size == q.size
                    case None => q.End() <= c.capacity && q.size >= c.pageAlign
  {
    hide AlignSize, AddPage;
    p := Some(q);
    if r && q !in s.pages {
      var sz := AlignSize(size, c.pageAlign);
      AddedOrigin(s.pages, PageView(addr, sz, [Tile(addr, sz, true)]), q);
      AlignedPositive(size, c.pageAlign);
      p := None;
    }
  }

  lemma AllocateOrigin(c: Config, s: State, size: nat, hasAddr: bool, r: Option<nat>, s': State, q: PageView)
      returns (p: Option<PageView>)
    requires c.Valid() && AllocateStep(c, s, size, hasAddr, r, s') && q in s'.pages
    ensures match p case Some(b) => b in s.pages && b.addr == q.addr && b.size == q.size
                    case None => && q.size >= c.pageAlign
                                 && if s.pages == [] then q.addr == c.baseAddress else exists k: nat :: InGap(c, s.pages, k, q)
    ensures s.pages == [] ==> s'.pages == [q]
  {
    hide AlignSize, AddPage, FindNextAddress, FirstFit, BestFit, GapStart, AllocAt;
    p := Some(q);
    if r.Some? && q !in s.pages {
      var sz := AlignSize(size, c.blockAlign);
      if exists m :: FirstFit(s.pages, sz, m) {
        var b := TakenOrigin(c, s, sz, r.value, s', q);
        p := Some(b);
      } else {
        var pageSize := AlignSize(sz, c.pageAlign);
        AddedOrigin(s.pages, NewPage(c, r.value, sz), q);
        AlignedPositive(sz, c.pageAlign);
        var k := FirstGap(c, s.pages, pageSize);
        GapFirst(c, s.pages);
        assert s.pages != [] ==> InGap(c, s.pages, k, q);
        p := None;
      }
    }
  }

  lemma GapFirst(c: Config, pages: seq<PageView>)
    ensures GapStart(c, pages, 0) == c.baseAddress
  {
  }

  lemma TakenOrigin(c: Config, s: State, sz: nat, a: nat, s': State, q: PageView) returns (b: PageView)
    requires exists p: nat, i: nat {:trigger AllocIn(c, s, p, i, sz)} ::
      FirstFit(s.pages, sz, p) && BestFit(s.pages[p].tiles, sz, i)
      && Some(a) == Some(s.pages[p].tiles[i].addr) && s' == AllocIn(c, s, p, i, sz)
    requires q in s'.pages
    ensures b in s.pages && b.addr == q.addr && b.size == q.size
  {
    var j :| 0 <= j < |s'.pages| && s'.pages[j] == q;
    b := s.pages[j];
  }

  lemma ReleaseOrigin(s: State, addr: nat, r: bool, s': State, q: PageView) returns (b: PageView)
    requires ReleaseStep(s, addr, r, s') && q in s'.pages
    ensures b in s.pages && b.addr == q.addr && b.size == q.size
  {
    hide FreeAt;
    b := q;
    if r {
      var p: nat, i: nat :| LiveAt(s.pages, p, i, addr) && s.pages[p].tiles[i].size <= s.allocatedBytes
                            && s' == State(FreeIn(s.pages, p, i), s.allocatedBytes - s.pages[p].tiles[i].size);
      var j :| 0 <= j < |s'.pages| && s'.pages[j] == q;
      b := s.pages[if |s'.pages| < |s.pages| && j >= p then j + 1 else j];
    }
  }

  /** Reservations and releases keep all pages below the capacity, and so does an allocation while there is a page. */
  lemma CapacityStays(c: Config, s: State, op: Op, s': State)
    requires c.Valid() && InCapacity(c, s.pages) && Step(c, s, op, s') && (op.Allocate? ==> s.pages != [])
    ensures InCapacity(c, s'.pages)
  {
    hide Step;
    forall q | q in s'.pages ensures q.End() <= c.capacity {
      var p := PageOrigin(c, s, op, s', q);
      if p.None? && op.Allocate? {
        var k: nat :| InGap(c, s.pages, k, q);
        assert k < |s.pages| ==> s.pages[k] in s.pages;
      }
    }
  }

  /** Where pages can lie: at the base address, or within the capacity. */
  ghost predicate Settled(c: Config, pages: seq<PageView>) {
    forall p :: p in pages ==> p.size >= c.pageAlign && (p.addr == c.baseAddress || p.End() <= c.capacity)
  }

  /**
   Of these layouts: the base address lies within the capacity, or there is no room for a page below the
   capacity, or none for two below the base address.
   */
  predicate FitsLayout(c: Config) {
    c.baseAddress <= c.capacity || c.capacity < c.pageAlign || c.baseAddress < 2 * c.pageAlign
  }

  /** A gap that ends where a page starts ends within the capacity. */
  lemma GapWithin(c: Config, pages: seq<PageView>, k: nat, q: PageView)
    requires c.Valid() && FitsLayout(c) && MemSpec.Apart(pages) && Settled(c, pages) && pages != []
    requires InGap(c, pages, k, q) && q.size >= c.pageAlign
    ensures q.End() <= c.capacity
  {
    assert k < |pages| ==> pages[k] in pages;
    assert k > 0 ==> pages[k - 1] in pages;
  }

  /** A page that passes the capacity was there before the step, or the step placed it as the only page. */
  lemma PassingOrigin(c: Config, s: State, op: Op, s': State, q: PageView) returns (b: PageView)
    requires c.Valid() && FitsLayout(c) && MemSpec.Apart(s.pages) && Settled(c, s.pages) && Step(c, s, op, s')
    requires q in s'.pages && q.End() > c.capacity
    ensures b.addr == q.addr && b.size == q.size
    ensures b in s.pages || (op.Allocate? && s.pages == [] && s'.pages == [b] && b.addr == c.baseAddress)
  {
    hide Step, FitsLayout, InGap, MemSpec.Apart, Settled;
    var p := PageOrigin(c, s, op, s', q);
    b := q;
    if p.Some? {
      b := p.value;
    } else if op.Allocate? && s.pages != [] {
      var k: nat :| InGap(c, s.pages, k, q);
      GapWithin(c, s.pages, k, q);
      assert false;
    }
  }

  lemma SettledStep(c: Config, s: State, op: Op, s': State)
    requires c.Valid() && FitsLayout(c) && MemSpec.Apart(s.pages) && Settled(c, s.pages) && Step(c, s, op, s')
    ensures Settled(c, s'.pages)
  {
    hide Step, FitsLayout, InGap, MemSpec.Apart;
    forall q | q in s'.pages ensures q.size >= c.pageAlign && (q.addr == c.baseAddress || q.End() <= c.capacity) {
      var p := PageOrigin(c, s, op, s', q);
      if p.None? && op.Allocate? && s.pages != [] {
        var k: nat :| InGap(c, s.pages, k, q);
        GapWithin(c, s.pages, k, q);
      }
    }
  }

  /** Step j placed a page of the place and size of q while there was no page. */
  ghost predicate FirstPlaced(c: Config, run: seq<State>, ops: seq<Op>, j: nat, q: PageView) {
    && j < |ops| && j + 1 < |run| && ops[j].Allocate? && run[j].pages == []
    && |run[j + 1].pages| == 1 && run[j + 1].pages[0].addr == q.addr == c.baseAddress && run[j + 1].pages[0].size == q.size
  }

  /** In every run a page that passes the capacity was placed by an allocation while there was no page. */
  ghost predicate OnlyFirstPasses(c: Config)
    requires c.Valid()
  {
    forall run: seq<State>, ops, k: nat, q {:trigger IsRun(c, run, ops), q in run[k].pages} ::
      IsRun(c, run, ops) && k < |run| && q in run[k].pages && q.End() > c.capacity
      ==> exists j: nat :: j < k && FirstPlaced(c, run, ops, j, q)
  }

  lemma {:induction false} PassingPage(c: Config, run: seq<State>, ops: seq<Op>, k: nat, q: PageView) returns (j: nat)
    requires c.Valid() && FitsLayout(c) && IsRun(c, run, ops) && k < |run| && q in run[k].pages && q.End() > c.capacity
    ensures j < k && FirstPlaced(c, run, ops, j, q)
  {
    hide FitsLayout, Settled, Inv, Step;
    SettledRun(c, run, ops, k - 1);
    RunKeeps(c, run, ops, k - 1);
    InvApart(c, run[k - 1]);
    assert Step(c, run[k - 1], ops[k - 1], run[k]);
    var b := PassingOrigin(c, run[k - 1], ops[k - 1], run[k], q);
    if b in run[k - 1].pages {
      j := PassingPage(c, run, ops, k - 1, b);
    } else {
      j := k - 1;
    }
  }

  lemma {:induction false} SettledRun(c: Config, run: seq<State>, ops: seq<Op>, k: nat)
    requires c.Valid() && FitsLayout(c) && IsRun(c, run, ops) && k < |run|
    ensures Settled(c, run[k].pages)
  {
    hide FitsLayout, Inv, Step;
    if k > 0 {
      SettledRun(c, run, ops, k - 1);
      RunKeeps(c, run, ops, k - 1);
      InvApart(c, run[k - 1]);
      assert Step(c, run[k - 1], ops[k - 1], run[k]);
      SettledStep(c, run[k - 1], ops[k - 1], run[k]);
    }
  }

  // ---- The layouts where it fails ----

  function FullPage(c: Config, a: nat): PageView { PageView(a, c.pageAlign, [Tile(a, c.pageAlign, true)]) }

  lemma WholePage(c: Config, a: nat)
    requires c.Valid()
    ensures AlignSize(c.pageAlign, c.blockAlign) == c.pageAlign == AlignSize(c.pageAlign, c.pageAlign)
    ensures NewPage(c, a, c.pageAlign) == FullPage(c, a)
  {
    AlignExact(c.pageAlign, c.blockAlign);
    AlignExact(c.pageAlign, c.pageAlign);
    assert AllocAt([Tile(a, c.pageAlign, false)], 0, c.pageAlign, c.blockAlign) == [Tile(a, c.pageAlign, true)];
  }

  lemma AlignExact(size: nat, a: nat)
    requires a > 0 && size % a == 0
    ensures AlignSize(size, a) == size
  {
    var r := AlignSize(size, a);
    ModDifference(r, size, a);
    if r > size { DivModUnique(r - size, a, 0, r - size); }
  }

  lemma ModDifference(x: nat, y: nat, a: nat)
    requires a > 0 && y <= x && x % a == 0 && y % a == 0
    ensures (x - y) % a == 0
  {
    assert x == x / a * a && y == y / a * a;
    DivModUnique(x - y, a, x / a - y / a, 0);
  }

  /** With room for a page below the capacity and for two below the base, three operations place a second page past the capacity. */
  lemma SecondPasses(c: Config) returns (run: seq<State>, ops: seq<Op>, q: PageView)
    requires c.Valid() && !FitsLayout(c)
    ensures IsRun(c, run, ops) && |run| == 4 && q in run[3].pages && q.End() > c.capacity
    ensures forall j: nat :: j < 3 ==> !FirstPlaced(c, run, ops, j, q)
  {
    hide Step, IsRun, FirstPlaced;
    var w, base := c.pageAlign, c.baseAddress;
    var top := if 2 * w >= c.capacity + 1 then 2 * w else c.capacity + 1;
    var low, mid := top - 2 * w, top - w;
    var s0, s1 := State([], 0), State([FullPage(c, base)], w);
    var s2 := State([FullPage(c, low), FullPage(c, base)], w + w);
    var s3 := State([FullPage(c, low), FullPage(c, mid), FullPage(c, base)], w + w + w);
    run, ops, q := [s0, s1, s2, s3], [Allocate(w, true), Reserve(low, w), Allocate(w, true)], FullPage(c, mid);
    FirstStep(c, s0, s1);
    ReservedBelow(c, low, s1, s2);
    PlacedBetween(c, low, mid, s2, s3);
    RunOfThree(c, run, ops);
    assert run[3].pages[1] == q;
    NotPlaced(c, run, ops, q);
  }

  lemma RunOfThree(c: Config, run: seq<State>, ops: seq<Op>)
    requires c.Valid() && |run| == 4 && |ops| == 3 && run[0] == State([], 0)
    requires Step(c, run[0], ops[0], run[1]) && Step(c, run[1], ops[1], run[2]) && Step(c, run[2], ops[2], run[3])
    ensures IsRun(c, run, ops)
  {
    hide Step;
  }

  lemma NotPlaced(c: Config, run: seq<State>, ops: seq<Op>, q: PageView)
    requires |run| == 4 && |ops| == 3 && q.addr != c.baseAddress
    ensures forall j: nat :: j < 3 ==> !FirstPlaced(c, run, ops, j, q)
  {
  }

  lemma FirstStep(c: Config, s: State, s': State)
    requires c.Valid() && s == State([], 0) && s' == State([FullPage(c, c.baseAddress)], c.pageAlign)
    ensures Step(c, s, Allocate(c.pageAlign, true), s')
  {
    WholePage(c, c.baseAddress);
    hide AlignSize, FullPage, NewPage;
    assert forall p :: !FirstFit(s.pages, c.pageAlign, p);
    assert AllocateStep(c, s, c.pageAlign, true, Some(c.baseAddress), s');
  }

  lemma ReservedBelow(c: Config, low: nat, s: State, s': State)
    requires c.Valid() && low + c.pageAlign <= c.capacity && low + c.pageAlign < c.baseAddress
    requires s == State([FullPage(c, c.baseAddress)], c.pageAlign)
    requires s' == State([FullPage(c, low), FullPage(c, c.baseAddress)], c.pageAlign + c.pageAlign)
    ensures Step(c, s, Reserve(low, c.pageAlign), s')
  {
    WholePage(c, low);
    hide AlignSize;
    assert ReserveStep(c, s, low, c.pageAlign, true, s');
  }

  lemma PlacedBetween(c: Config, low: nat, mid: nat, s: State, s': State)
    requires c.Valid() && mid == low + c.pageAlign && mid + c.pageAlign <= c.baseAddress
    requires s == State([FullPage(c, low), FullPage(c, c.baseAddress)], c.pageAlign + c.pageAlign)
    requires s' == State([FullPage(c, low), FullPage(c, mid), FullPage(c, c.baseAddress)], c.pageAlign + c.pageAlign + c.pageAlign)
    ensures Step(c, s, Allocate(c.pageAlign, true), s')
  {
    WholePage(c, mid);
    NoneFits(c, s.pages, low);
    hide AlignSize, NewPage;
    assert GapFrom(s.pages, 1, low + c.pageAlign, c.pageAlign, c.capacity) == Some(mid);
    assert FindNextAddress(c, s.pages, c.pageAlign) == Some(mid);
    assert PagesBelow(s.pages, mid) == 1 by { assert PagesBelow(s.pages[1..], mid) == 0; }
    assert AllocateStep(c, s, c.pageAlign, true, Some(mid), s');
  }

  lemma NoneFits(c: Config, pages: seq<PageView>, low: nat)
    requires pages == [FullPage(c, low), FullPage(c, c.baseAddress)]
    ensures forall p :: !FirstFit(pages, c.pageAlign, p)
  {
  }

  /**
   Exactly in these layouts can no page pass the capacity but one that an allocation placed at the base
   address while there was no page.
   */
  lemma PassesExactly(c: Config)
    requires c.Valid()
    ensures OnlyFirstPasses(c)
       <==> c.baseAddress <= c.capacity || c.capacity < c.pageAlign || c.baseAddress < 2 * c.pageAlign
  {
    hide IsRun, FirstPlaced;
    if FitsLayout(c) {
      forall run: seq<State>, ops, k: nat, q | IsRun(c, run, ops) && k < |run| && q in run[k].pages && q.End() > c.capacity
        ensures exists j: nat :: j < k && FirstPlaced(c, run, ops, j, q)
      {
        var j := PassingPage(c, run, ops, k, q);
      }
    } else {
      var run, ops, q := SecondPasses(c);
      assert q in run[3].pages;
    }
  }
}
