/**
 The device memory allocator on values: what reserve, allocate and release do to the pages and
 their tiles, what every run of them keeps, and what a release undoes.
 */
module MemSpec {
  import opened Arith
  import opened SeqEdits
  import opened Tiles
  import opened Wrappers

  datatype Config = Config(baseAddress: nat, capacity: nat, pageAlign: nat, blockAlign: nat) {
    predicate Valid() { blockAlign > 0 && pageAlign > 0 && pageAlign % blockAlign == 0 }
  }

  datatype PageView = PageView(addr: nat, size: nat, tiles: seq<Tile>) {
    function End(): nat { addr + size }
  }

  datatype State = State(pages: seq<PageView>, allocatedBytes: nat)

  /** The next multiple of the alignment. */
  function AlignSize(size: nat, alignment: nat): (r: nat)
    requires alignment > 0
    ensures r % alignment == 0 && size <= r < size + alignment
  {
    var x := size + alignment - 1;
    MulMod(x / alignment, alignment);
    assert x == x / alignment * alignment + x % alignment;
    x / alignment * alignment
  }

  // ---- Free block search ----

  predicate Fits(x: Tile, size: nat) { !x.used && x.size >= size }

  ghost predicate HasFit(t: seq<Tile>, size: nat) { exists x :: x in t && Fits(x, size) }

  /** The first page in address order with a free block that is large enough. */
  ghost predicate FirstFit(pages: seq<PageView>, size: nat, p: nat) {
    p < |pages| && HasFit(pages[p].tiles, size) && forall q :: 0 <= q < p ==> !HasFit(pages[q].tiles, size)
  }

  /** A smallest free block of the page that is large enough. */
  ghost predicate BestFit(t: seq<Tile>, size: nat, i: nat) {
    i < |t| && Fits(t[i], size) && forall x :: x in t && Fits(x, size) ==> t[i].size <= x.size
  }

  // ---- Page placement ----

  /** The first gap of the given size from page k on, with the end of the page before it. */
  function GapFrom(pages: seq<PageView>, k: nat, end: nat, size: nat, capacity: nat): Option<nat>
    requires k <= |pages|
    decreases |pages| - k
  {
    if k == |pages| then (if end + size <= capacity then Some(end) else None)
    else if end + size <= pages[k].addr then Some(end)
    else GapFrom(pages, k + 1, pages[k].End(), size, capacity)
  }

  function FindNextAddress(c: Config, pages: seq<PageView>, size: nat): Option<nat> {
    if pages == [] then Some(c.baseAddress) else GapFrom(pages, 0, c.baseAddress, size, c.capacity)
  }

  ghost predicate HasPageOverlap(pages: seq<PageView>, start: nat, size: nat) {
    exists k :: 0 <= k < |pages| && start <= pages[k].End() && start + size >= pages[k].addr
  }

  /** How many pages start below an address. */
  function PagesBelow(pages: seq<PageView>, addr: nat): (k: nat)
    ensures k <= |pages|
    ensures forall i :: 0 <= i < k ==> pages[i].addr < addr
    ensures k < |pages| ==> pages[k].addr >= addr
  {
    if pages == [] || pages[0].addr >= addr then 0 else 1 + PagesBelow(pages[1..], addr)
  }

  function AddPage(pages: seq<PageView>, p: PageView): seq<PageView> {
    InsertAt(pages, PagesBelow(pages, p.addr), p)
  }

  // ---- The three operations ----

  datatype Op = Reserve(addr: nat, size: nat) | Allocate(size: nat, hasAddr: bool) | Release(addr: nat)

  ghost predicate ReserveStep(c: Config, s: State, addr: nat, size: nat, r: bool, s': State)
    requires c.Valid()
  {
    var sz := AlignSize(size, c.pageAlign);
    if size == 0 || addr + sz > c.capacity || HasPageOverlap(s.pages, addr, sz) then
      !r && s' == s
    else
      r && s' == State(AddPage(s.pages, PageView(addr, sz, [Tile(addr, sz, true)])), s.allocatedBytes + sz)
  }

  /** A block of the given size from tile i of page p. */
  function AllocIn(c: Config, s: State, p: nat, i: nat, size: nat): State
    requires p < |s.pages| && i < |s.pages[p].tiles| && size <= s.pages[p].tiles[i].size
  {
    State(s.pages[p := s.pages[p].(tiles := AllocAt(s.pages[p].tiles, i, size, c.blockAlign))], s.allocatedBytes + size)
  }

  function NewPage(c: Config, addr: nat, size: nat): PageView
    requires c.Valid()
  {
    var pageSize := AlignSize(size, c.pageAlign);
    PageView(addr, pageSize, AllocAt([Tile(addr, pageSize, false)], 0, size, c.blockAlign))
  }

  ghost predicate AllocateStep(c: Config, s: State, size: nat, hasAddr: bool, r: Option<nat>, s': State)
    requires c.Valid()
  {
    if size == 0 || !hasAddr then r == None && s' == s
    else
      var sz := AlignSize(size, c.blockAlign);
      if exists p :: FirstFit(s.pages, sz, p) then
        exists p: nat, i: nat {:trigger AllocIn(c, s, p, i, sz)} ::
          FirstFit(s.pages, sz, p) && BestFit(s.pages[p].tiles, sz, i)
          && r == Some(s.pages[p].tiles[i].addr) && s' == AllocIn(c, s, p, i, sz)
      else
        match FindNextAddress(c, s.pages, AlignSize(sz, c.pageAlign))
        case None => r == None && s' == s
        case Some(a) => r == Some(a) && s' == State(AddPage(s.pages, NewPage(c, a, sz)), s.allocatedBytes + sz)
  }

  /** Tile i of page p is an allocation that starts at addr. */
  predicate LiveAt(pages: seq<PageView>, p: nat, i: nat, addr: nat) {
    p < |pages| && i < |pages[p].tiles| && pages[p].tiles[i].used && pages[p].tiles[i].addr == addr
  }

  ghost predicate Live(pages: seq<PageView>, addr: nat) {
    exists p: nat, i: nat :: LiveAt(pages, p, i, addr)
  }

  /** The pages after tile i of page p is released; a page without used tiles goes away. */
  function FreeIn(pages: seq<PageView>, p: nat, i: nat): seq<PageView>
    requires p < |pages| && i < |pages[p].tiles|
  {
    var t := FreeAt(pages[p].tiles, i);
    if Bytes(t, true) == 0 then RemoveAt(pages, p) else pages[p := pages[p].(tiles := t)]
  }

  ghost predicate ReleaseStep(s: State, addr: nat, r: bool, s': State) {
    if !Live(s.pages, addr) then !r && s' == s
    else
      && r
      && exists p: nat, i: nat ::
           && LiveAt(s.pages, p, i, addr) && s.pages[p].tiles[i].size <= s.allocatedBytes
           && s' == State(FreeIn(s.pages, p, i), s.allocatedBytes - s.pages[p].tiles[i].size)
  }

  ghost predicate Step(c: Config, s: State, op: Op, s': State)
    requires c.Valid()
  {
    match op
    case Reserve(addr, size) => exists r :: ReserveStep(c, s, addr, size, r, s')
    case Allocate(size, hasAddr) => exists r :: AllocateStep(c, s, size, hasAddr, r, s')
    case Release(addr) => exists r :: ReleaseStep(s, addr, r, s')
  }

  /** A reservation is accepted exactly for a range that is not empty, ends within the capacity and touches no page. */
  lemma ReserveAccepts(c: Config, s: State, addr: nat, size: nat, r: bool, s': State)
    requires c.Valid() && ReserveStep(c, s, addr, size, r, s')
    ensures var sz := AlignSize(size, c.pageAlign);
      r <==> && size > 0 && addr + sz <= c.capacity
             && forall p :: p in s.pages ==> p.addr + p.size < addr || addr + sz < p.addr
    ensures !r ==> s' == s
  {
    OverlapMeans(s.pages, addr, AlignSize(size, c.pageAlign));
  }

  lemma OverlapMeans(pages: seq<PageView>, start: nat, size: nat)
    ensures !HasPageOverlap(pages, start, size) <==> forall p :: p in pages ==> p.addr + p.size < start || start + size < p.addr
  {
    if !HasPageOverlap(pages, start, size) {
      forall p | p in pages ensures p.addr + p.size < start || start + size < p.addr {
        var k :| 0 <= k < |pages| && pages[k] == p;
      }
    }
  }

  // ---- What every run keeps ----

  ghost predicate PageInv(c: Config, p: PageView)
    requires c.Valid()
  {
    && p.size > 0 && Tiling(p.tiles, p.addr, p.End()) && Coalesced(p.tiles)
    && Aligned(p.tiles, c.blockAlign) && Bytes(p.tiles, true) > 0
  }

  /** Pages are in address order and apart. */
  ghost predicate Apart(pages: seq<PageView>) {
    forall i, j :: 0 <= i < j < |pages| ==> pages[i].End() <= pages[j].addr
  }

  function UsedBytes(pages: seq<PageView>): nat {
    if pages == [] then 0 else Bytes(pages[0].tiles, true) + UsedBytes(pages[1..])
  }

  ghost predicate Inv(c: Config, s: State)
    requires c.Valid()
  {
    && (forall p :: p in s.pages ==> PageInv(c, p))
    && Apart(s.pages)
    && s.allocatedBytes == UsedBytes(s.pages)
  }

  lemma {:induction false} UsedBytesConcat(a: seq<PageView>, b: seq<PageView>)
    ensures UsedBytes(a + b) == UsedBytes(a) + UsedBytes(b)
  {
    if a == [] {
      assert a + b == b;
    } else {
      assert (a + b)[1..] == a[1..] + b;
      UsedBytesConcat(a[1..], b);
    }
  }

  lemma UsedBytesInsert(pages: seq<PageView>, k: nat, p: PageView)
    requires k <= |pages|
    ensures UsedBytes(InsertAt(pages, k, p)) == UsedBytes(pages) + Bytes(p.tiles, true)
  {
    assert pages == pages[..k] + pages[k..];
    UsedBytesConcat(pages[..k], pages[k..]);
    UsedBytesConcat(pages[..k] + [p], pages[k..]);
    UsedBytesConcat(pages[..k], [p]);
    assert [p][1..] == [];
  }

  lemma UsedBytesReplace(pages: seq<PageView>, k: nat, p: PageView)
    requires k < |pages|
    ensures UsedBytes(pages[k := p]) == UsedBytes(pages) - Bytes(pages[k].tiles, true) + Bytes(p.tiles, true)
    ensures UsedBytes(RemoveAt(pages, k)) == UsedBytes(pages) - Bytes(pages[k].tiles, true)
  {
    var r := RemoveAt(pages, k);
    UsedBytesInsert(r, k, p);
    UsedBytesInsert(r, k, pages[k]);
    assert InsertAt(r, k, p) == pages[k := p];
    assert InsertAt(r, k, pages[k]) == pages;
  }

  /** A page placed in a gap keeps the pages in order and apart. */
  lemma AddPageKeeps(c: Config, pages: seq<PageView>, p: PageView)
    requires c.Valid() && Apart(pages) && (forall q :: q in pages ==> PageInv(c, q)) && PageInv(c, p)
    requires forall q :: q in pages ==> q.End() <= p.addr || p.End() <= q.addr
    ensures var r := AddPage(pages, p);
            Apart(r) && (forall q :: q in r ==> PageInv(c, q)) && UsedBytes(r) == UsedBytes(pages) + Bytes(p.tiles, true)
  {
    hide *;
    var k := PagesBelow(pages, p.addr);
    UsedBytesInsert(pages, k, p);
    InsertedMembers(pages, k, p);
    PageSize(c, p);
    forall q | q in pages ensures q.size > 0 { PageSize(c, q); }
    AddPageApart(pages, p);
    AddPageIs(pages, p);
  }

  lemma PageSize(c: Config, p: PageView)
    requires c.Valid() && PageInv(c, p)
    ensures p.size > 0
  {
  }

  lemma AddPageIs(pages: seq<PageView>, p: PageView)
    ensures AddPage(pages, p) == InsertAt(pages, PagesBelow(pages, p.addr), p)
  {
    hide PagesBelow, InsertAt;
  }

  lemma AddPageApart(pages: seq<PageView>, p: PageView)
    requires Apart(pages) && forall q :: q in pages ==> q.End() <= p.addr || p.End() <= q.addr
    requires p.size > 0 && forall q :: q in pages ==> q.size > 0
    ensures Apart(AddPage(pages, p))
  {
    var k, r := PagesBelow(pages, p.addr), AddPage(pages, p);
    assert forall i :: 0 <= i < |pages| ==> pages[i] in pages;
    forall i, j | 0 <= i < j < |r| ensures r[i].End() <= r[j].addr {
      if j == k { assert r[i] == pages[i]; }
      if i == k { assert r[j] == pages[j - 1]; }
    }
  }

  lemma OneTilePage(c: Config, addr: nat, size: nat, used: bool)
    requires c.Valid() && size > 0
    ensures Tiling([Tile(addr, size, used)], addr, addr + size) && Coalesced([Tile(addr, size, used)])
    ensures Aligned([Tile(addr, size, used)], c.blockAlign) && Bytes([Tile(addr, size, used)], true) == if used then size else 0
  {
    ShortTiles([Tile(addr, size, used)], addr, addr + size, true);
  }

  lemma ReserveKeeps(c: Config, s: State, addr: nat, size: nat, r: bool, s': State)
    requires c.Valid() && Inv(c, s) && ReserveStep(c, s, addr, size, r, s')
    ensures Inv(c, s')
  {
    if r {
      var sz := AlignSize(size, c.pageAlign);
      OneTilePage(c, addr, sz, true);
      AddPageKeeps(c, s.pages, PageView(addr, sz, [Tile(addr, sz, true)]));
    }
  }

  /** Splitting a tile keeps the alignment, and the allocation gets exactly what it asked for. */
  lemma AllocAligned(t: seq<Tile>, i: nat, size: nat, align: nat)
    requires i < |t| && !t[i].used && 0 < size <= t[i].size && align > 0 && size % align == 0
    requires forall x :: x in t ==> x.size % align == 0
    ensures forall x :: x in AllocAt(t, i, size, align) ==> x.size % align == 0
    ensures t[i].size - size < align ==> t[i].size == size
  {
    assert t[i] in t;
    ModSum(t[i].size, size, align);
    if 0 <= t[i].size - size < align {
      DivModUnique(t[i].size - size, align, 0, t[i].size - size);
    }
  }

  lemma AllocPageKeeps(c: Config, p: PageView, i: nat, size: nat)
    requires c.Valid() && p.size > 0 && Tiling(p.tiles, p.addr, p.End()) && Coalesced(p.tiles)
    requires i < |p.tiles| && Fits(p.tiles[i], size) && size > 0 && size % c.blockAlign == 0
    requires forall x :: x in p.tiles ==> x.size % c.blockAlign == 0
    ensures PageInv(c, p.(tiles := AllocAt(p.tiles, i, size, c.blockAlign)))
    ensures Bytes(AllocAt(p.tiles, i, size, c.blockAlign), true) == Bytes(p.tiles, true) + size
  {
    hide Tiling, Coalesced, AllocAt;
    AllocTiling(p.tiles, p.addr, p.End(), i, size, c.blockAlign);
    AllocCoalesced(p.tiles, i, size, c.blockAlign);
    AllocUsed(p.tiles, i, size, c.blockAlign);
    AllocAligned(p.tiles, i, size, c.blockAlign);
  }

  /** A page with a used and a free tile has more than one tile, so its sizes are aligned. */
  lemma FreeTileAligned(c: Config, p: PageView, i: nat)
    requires c.Valid() && PageInv(c, p) && i < |p.tiles| && !p.tiles[i].used
    ensures forall x :: x in p.tiles ==> x.size % c.blockAlign == 0
  {
    if |p.tiles| == 1 {
      assert p.tiles == [p.tiles[0]];
      ShortTiles(p.tiles, p.addr, p.End(), true);
    }
  }

  lemma AllocInKeeps(c: Config, s: State, p: nat, i: nat, size: nat)
    requires c.Valid() && Inv(c, s) && p < |s.pages| && i < |s.pages[p].tiles| && Fits(s.pages[p].tiles[i], size)
    requires size > 0 && size % c.blockAlign == 0
    ensures Inv(c, AllocIn(c, s, p, i, size))
  {
    hide PageInv, AllocAt, UsedBytes;
    assert s.pages[p] in s.pages;
    var q := s.pages[p].(tiles := AllocAt(s.pages[p].tiles, i, size, c.blockAlign));
    AllocInPage(c, s.pages[p], i, size);
    UsedBytesReplace(s.pages, p, q);
    ReplacePage(c, s.pages, p, q);
  }

  lemma AllocInPage(c: Config, p: PageView, i: nat, size: nat)
    requires c.Valid() && PageInv(c, p) && i < |p.tiles| && Fits(p.tiles[i], size)
    requires size > 0 && size % c.blockAlign == 0
    ensures PageInv(c, p.(tiles := AllocAt(p.tiles, i, size, c.blockAlign)))
    ensures Bytes(AllocAt(p.tiles, i, size, c.blockAlign), true) == Bytes(p.tiles, true) + size
  {
    FreeTileAligned(c, p, i);
    AllocPageKeeps(c, p, i, size);
  }

  lemma ReplacePage(c: Config, pages: seq<PageView>, p: nat, q: PageView)
    requires c.Valid() && p < |pages| && Apart(pages) && (forall x :: x in pages ==> PageInv(c, x)) && PageInv(c, q)
    requires q.addr == pages[p].addr && q.size == pages[p].size
    ensures Apart(pages[p := q]) && (forall x :: x in pages[p := q] ==> PageInv(c, x))
  {
    hide PageInv;
    var r := pages[p := q];
    forall x | x in r ensures PageInv(c, x) {
      var i :| 0 <= i < |r| && r[i] == x;
      if i != p { assert pages[i] in pages; }
    }
  }

  /** The gap found for a new page overlaps no page. */
  lemma {:induction false} GapIsFree(pages: seq<PageView>, k: nat, end: nat, size: nat, capacity: nat, q: nat)
    requires k <= |pages| && Apart(pages) && q < |pages|
    requires forall i :: 0 <= i < k ==> pages[i].End() <= end
    requires GapFrom(pages, k, end, size, capacity).Some?
    ensures var a := GapFrom(pages, k, end, size, capacity).value;
            pages[q].End() <= a || a + size <= pages[q].addr
    decreases |pages| - k
  {
    if k < |pages| && end + size > pages[k].addr {
      GapIsFree(pages, k + 1, pages[k].End(), size, capacity, q);
    } else if k < |pages| && q > k {
      assert pages[k].End() <= pages[q].addr;
    }
  }

  lemma NextAddressIsFree(c: Config, pages: seq<PageView>, size: nat)
    requires Apart(pages) && FindNextAddress(c, pages, size).Some?
    ensures var a := FindNextAddress(c, pages, size).value;
            forall q :: q in pages ==> q.End() <= a || a + size <= q.addr
  {
    var a := FindNextAddress(c, pages, size).value;
    forall q | q in pages ensures q.End() <= a || a + size <= q.addr {
      var i :| 0 <= i < |pages| && pages[i] == q;
      GapIsFree(pages, 0, c.baseAddress, size, c.capacity, i);
    }
  }

  lemma NewPageKeeps(c: Config, addr: nat, size: nat)
    requires c.Valid() && size > 0 && size % c.blockAlign == 0
    ensures PageInv(c, NewPage(c, addr, size)) && Bytes(NewPage(c, addr, size).tiles, true) == size
  {
    var pageSize := AlignSize(size, c.pageAlign);
    var p := PageView(addr, pageSize, [Tile(addr, pageSize, false)]);
    OneTilePage(c, addr, pageSize, false);
    ModTransitive(pageSize, c.pageAlign, c.blockAlign);
    AllocPageKeeps(c, p, 0, size);
  }

  lemma AllocateKeeps(c: Config, s: State, size: nat, hasAddr: bool, r: Option<nat>, s': State)
    requires c.Valid() && Inv(c, s) && AllocateStep(c, s, size, hasAddr, r, s')
    ensures Inv(c, s')
  {
    hide PageInv, NewPage, AddPage, AllocIn, FindNextAddress;
    if r.Some? {
      var sz := AlignSize(size, c.blockAlign);
      if exists p :: FirstFit(s.pages, sz, p) {
        var p: nat, i: nat :| FirstFit(s.pages, sz, p) && BestFit(s.pages[p].tiles, sz, i)
          && r == Some(s.pages[p].tiles[i].addr) && s' == AllocIn(c, s, p, i, sz);
        AllocInKeeps(c, s, p, i, sz);
      } else {
        NewPageInOrder(c, s.pages, sz);
        NewPageKeeps(c, r.value, sz);
        AddPageKeeps(c, s.pages, NewPage(c, r.value, sz));
      }
    }
  }

  lemma NewPageInOrder(c: Config, pages: seq<PageView>, size: nat)
    requires c.Valid() && Apart(pages) && FindNextAddress(c, pages, AlignSize(size, c.pageAlign)).Some?
    ensures var n := NewPage(c, FindNextAddress(c, pages, AlignSize(size, c.pageAlign)).value, size);
            forall q :: q in pages ==> q.End() <= n.addr || n.End() <= q.addr
  {
    NextAddressIsFree(c, pages, AlignSize(size, c.pageAlign));
  }

  lemma FreeAligned(t: seq<Tile>, i: nat, align: nat)
    requires i < |t| && align > 0 && Aligned(t, align)
    ensures Aligned(FreeAt(t, i), align)
  {
    if |t| > 1 {
      var f, l, r := FreeAt(t, i), JoinStart(t, i), JoinEnd(t, i);
      assert t[i] in t;
      if JoinsLeft(t, i) { assert t[i - 1] in t; ModSum(t[i - 1].size, t[i].size, align); }
      if JoinsRight(t, i) {
        assert t[i + 1] in t;
        ModSum((if JoinsLeft(t, i) then t[i - 1].size else 0) + t[i].size, t[i + 1].size, align);
      }
      assert Joined(t, i).size % align == 0;
      assert forall x :: x in f ==> x in t[..l] || x == Joined(t, i) || x in t[r..];
    }
  }

  lemma FreeInKeeps(c: Config, s: State, p: nat, i: nat)
    requires c.Valid() && Inv(c, s) && p < |s.pages| && i < |s.pages[p].tiles| && s.pages[p].tiles[i].used
    ensures s.pages[p].tiles[i].size <= s.allocatedBytes
    ensures Inv(c, State(FreeIn(s.pages, p, i), s.allocatedBytes - s.pages[p].tiles[i].size))
  {
    hide Tiling, Coalesced, FreeAt, Aligned, Bytes, UsedBytes, RemoveAt;
    var x, t := s.pages[p], FreeAt(s.pages[p].tiles, i);
    assert x in s.pages;
    FreeTiling(x.tiles, x.addr, x.End(), i);
    FreeCoalesced(x.tiles, i);
    FreeUsed(x.tiles, i);
    FreeAligned(x.tiles, i, c.blockAlign);
    UsedBytesReplace(s.pages, p, x.(tiles := t));
    if Bytes(t, true) == 0 {
      RemovedPages(c, s.pages, p);
    } else {
      ReplacePage(c, s.pages, p, x.(tiles := t));
    }
  }

  lemma RemovedPages(c: Config, pages: seq<PageView>, p: nat)
    requires c.Valid() && p < |pages| && Apart(pages) && (forall x :: x in pages ==> PageInv(c, x))
    ensures Apart(RemoveAt(pages, p)) && (forall x :: x in RemoveAt(pages, p) ==> PageInv(c, x))
  {
  }

  lemma ReleaseKeeps(c: Config, s: State, addr: nat, r: bool, s': State)
    requires c.Valid() && Inv(c, s) && ReleaseStep(s, addr, r, s')
    ensures Inv(c, s')
  {
    hide Inv, FreeIn;
    if r {
      var p: nat, i: nat :| LiveAt(s.pages, p, i, addr) && s.pages[p].tiles[i].size <= s.allocatedBytes
                            && s' == State(FreeIn(s.pages, p, i), s.allocatedBytes - s.pages[p].tiles[i].size);
      FreeInKeeps(c, s, p, i);
    }
  }

  /** The states of a run, each reached from the one before by one operation. */
  ghost predicate IsRun(c: Config, run: seq<State>, ops: seq<Op>)
    requires c.Valid()
  {
    && |run| == |ops| + 1 && run[0] == State([], 0)
    && forall k :: 0 <= k < |ops| ==> Step(c, run[k], ops[k], run[k + 1])
  }

  /**
   In every reachable state pages are sorted and apart, every page is tiled by coalesced blocks
   with a used one among them, and the byte count is the sum of the used sizes.
   */
  lemma {:induction false} RunKeeps(c: Config, run: seq<State>, ops: seq<Op>, k: nat)
    requires c.Valid() && IsRun(c, run, ops) && k < |run|
    ensures Inv(c, run[k])
  {
    if k > 0 {
      RunKeeps(c, run, ops, k - 1);
      assert Step(c, run[k - 1], ops[k - 1], run[k]);
      StepKeeps(c, run[k - 1], ops[k - 1], run[k]);
    }
  }

  lemma StepKeeps(c: Config, s: State, op: Op, s': State)
    requires c.Valid() && Inv(c, s) && Step(c, s, op, s')
    ensures Inv(c, s')
  {
    hide Inv, ReserveStep, AllocateStep, ReleaseStep;
    match op
    case Reserve(addr, size) =>
      var r :| ReserveStep(c, s, addr, size, r, s');
      ReserveKeeps(c, s, addr, size, r, s');
    case Allocate(size, hasAddr) =>
      var r :| AllocateStep(c, s, size, hasAddr, r, s');
      AllocateKeeps(c, s, size, hasAddr, r, s');
    case Release(addr) =>
      var r :| ReleaseStep(s, addr, r, s');
      ReleaseKeeps(c, s, addr, r, s');
  }
}
