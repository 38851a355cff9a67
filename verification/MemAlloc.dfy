/**
 The device memory allocator as a linked list of pages. Every operation takes the pages from one
 value to the next as MemSpec describes, so what MemSpec and MemLive prove holds of the list.
 */
module MemAlloc {
  import opened SeqEdits
  import opened Tiles
  import opened MemBlocks
  import opened MemSpec
  import opened Wrappers

  // ---- The list of pages ----

  ghost predicate PageChain(head: Page?, s: seq<Page>)
    reads s`next
  {
    && Distinct(s)
    && head == (if s == [] then null else s[0])
    && forall i {:trigger s[i].next} :: 0 <= i < |s| ==> s[i].next == if i + 1 < |s| then s[i + 1] else null
  }

  lemma ChainInserted(head: Page?, s: seq<Page>, k: nat, page: Page)
    requires Distinct(s) && page !in s && k <= |s|
    requires head == if k == 0 then page else if s == [] then null else s[0]
    requires page.next == if k < |s| then s[k] else null
    requires 0 < k ==> s[k - 1].next == page
    requires forall i {:trigger s[i]} :: 0 <= i < |s| && i != k - 1 ==> s[i].next == if i + 1 < |s| then s[i + 1] else null
    ensures PageChain(head, InsertAt(s, k, page))
  {
    InsertedDistinct(s, k, page);
  }

  lemma ChainRemoved(head: Page?, s: seq<Page>, k: nat)
    requires Distinct(s) && k < |s|
    requires head == if k > 0 then s[0] else if 1 < |s| then s[1] else null
    requires 0 < k ==> s[k - 1].next == if k + 1 < |s| then s[k + 1] else null
    requires forall i {:trigger s[i]} :: 0 <= i < |s| && i != k - 1 && i != k ==> s[i].next == if i + 1 < |s| then s[i + 1] else null
    ensures PageChain(head, RemoveAt(s, k))
  {
    RemovedDistinct(s, k);
  }

  /** The pages share no block. */
  ghost predicate Separate(s: seq<Page>)
    reads s`M, s`U, s`S
  {
    forall i, j {:trigger s[i], s[j]} :: 0 <= i < |s| && 0 <= j < |s| && i != j ==> NoShared(s[i], s[j])
  }

  ghost predicate NoShared(p: Page, q: Page)
    reads p`M, p`U, p`S, q`M, q`U, q`S
  {
    p.Blocks() !! q.Blocks()
  }

  /** The pages are valid and lie with their blocks in foot. */
  ghost predicate PagesValid(s: seq<Page>, foot: set<object>, align: nat)
    reads foot
  {
    forall p :: p in s ==> p in foot && p.Blocks() <= foot && p.Valid() && p.blockAlign == align
  }

  /** The pages other than page k are valid, share no block and lie with their blocks in foot. */
  ghost predicate Others(s: seq<Page>, k: nat, foot: set<object>, align: nat)
    requires k < |s|
    reads foot
  {
    && (forall p :: p in s && p != s[k] ==> p in foot && p.Blocks() <= foot && p.Valid() && p.blockAlign == align)
    && (forall i, j {:trigger s[i], s[j]} ::
          0 <= i < |s| && 0 <= j < |s| && i != j && s[i] != s[k] && s[j] != s[k] ==> NoShared(s[i], s[j]))
  }

  lemma SetApart(s: seq<Page>, k: nat, repr: set<object>, align: nat) returns (foot: set<object>)
    requires Separate(s) && k < |s| && PagesValid(s, repr, align)
    ensures Others(s, k, foot, align) && s[k] !in foot && s[k].Blocks() !! foot && foot <= repr
    ensures s[k].Valid() && s[k].blockAlign == align && s[k] in repr && s[k].Blocks() <= repr
  {
    hide Page.Valid;
    foot := (set p | p in s && p != s[k]) + (set p, b | p in s && p != s[k] && b in p.Blocks() :: b);
    forall p | p in s && p != s[k] ensures p.Blocks() !! s[k].Blocks() {
      var i :| 0 <= i < |s| && s[i] == p;
      assert NoShared(s[i], s[k]);
    }
    assert s[k] in s;
  }

  lemma PutTogether(s: seq<Page>, k: nat, foot: set<object>, repr: set<object>, align: nat)
    requires k < |s| && Distinct(s) && Others(s, k, foot, align) && s[k].Blocks() !! foot && foot <= repr
    requires s[k].Valid() && s[k].blockAlign == align && s[k] in repr && s[k].Blocks() <= repr
    ensures Separate(s) && PagesValid(s, repr, align)
  {
    ApartFrom(s, k);
  }

  lemma PagesInserted(s: seq<Page>, k: nat, page: Page, repr: set<object>, align: nat)
    requires PagesValid(s, repr, align) && Separate(s) && k <= |s|
    requires page !in repr && page.Blocks() !! repr && page.Valid() && page.blockAlign == align
    ensures PagesValid(InsertAt(s, k, page), repr + {page} + page.Blocks(), align)
    ensures Separate(InsertAt(s, k, page))
  {
    hide Page.Valid;
    InsertedMembers(s, k, page);
    var r := InsertAt(s, k, page);
    forall i, j | 0 <= i < |r| && 0 <= j < |r| && i != j ensures NoShared(r[i], r[j]) {
      if i == k {
        assert r[j] in s;
      } else if j == k {
        assert r[i] in s;
      } else {
        assert NoShared(s[if i < k then i else i - 1], s[if j < k then j else j - 1]);
      }
    }
  }

  lemma PagesRemoved(s: seq<Page>, v: seq<PageView>, k: nat, repr: set<object>, align: nat)
    requires PagesValid(s, repr, align) && Separate(s) && Viewed(s, v) && k < |s|
    ensures PagesValid(RemoveAt(s, k), repr, align) && Separate(RemoveAt(s, k)) && Viewed(RemoveAt(s, k), RemoveAt(v, k))
  {
    hide Page.Valid;
    var r := RemoveAt(s, k);
    forall i, j | 0 <= i < |r| && 0 <= j < |r| && i != j ensures NoShared(r[i], r[j]) {
      assert NoShared(s[if i < k then i else i + 1], s[if j < k then j else j + 1]);
    }
  }

  /** The position of a new page is the only one that keeps the order. */
  lemma {:induction false} PagesBelowIs(v: seq<PageView>, addr: nat, k: nat)
    requires k <= |v| && (forall i :: 0 <= i < k ==> v[i].addr < addr) && (k < |v| ==> v[k].addr >= addr)
    ensures PagesBelow(v, addr) == k
  {
    if v != [] && v[0].addr < addr {
      PagesBelowIs(v[1..], addr, k - 1);
    }
  }

  ghost predicate Viewed(s: seq<Page>, v: seq<PageView>)
    reads s`addr, s`size, s`tiles
  {
    |v| == |s| && forall i {:trigger v[i]} {:trigger s[i]} :: 0 <= i < |s| ==> v[i] == PageView(s[i].addr, s[i].size, s[i].tiles)
  }

  /** The view of the pages other than page k, with the place and size of that page. */
  ghost predicate ViewedBut(s: seq<Page>, v: seq<PageView>, k: nat)
    requires k < |s|
    reads s`addr, s`size, (set p | p in s && p != s[k])`tiles
  {
    && |v| == |s| && v[k].addr == s[k].addr && v[k].size == s[k].size
    && forall i {:trigger v[i]} {:trigger s[i]} ::
         0 <= i < |s| && s[i] != s[k] ==> v[i] == PageView(s[i].addr, s[i].size, s[i].tiles)
  }

  lemma ViewApart(s: seq<Page>, v: seq<PageView>, k: nat)
    requires Viewed(s, v) && k < |s|
    ensures ViewedBut(s, v, k) && v[k].tiles == s[k].tiles
  {
  }

  lemma ViewTogether(s: seq<Page>, v: seq<PageView>, k: nat)
    requires k < |s| && Distinct(s) && ViewedBut(s, v, k)
    ensures Viewed(s, v[k := v[k].(tiles := s[k].tiles)])
  {
    ApartFrom(s, k);
  }

  lemma ViewedInserted(s: seq<Page>, v: seq<PageView>, k: nat, page: Page)
    requires Viewed(s, v) && k <= |s|
    ensures k <= |v| && Viewed(InsertAt(s, k, page), InsertAt(v, k, PageView(page.addr, page.size, page.tiles)))
  {
  }

  class MemoryAllocator {
    const baseAddress: nat
    const capacity: nat
    const pageAlign: nat
    const blockAlign: nat
    var pages: Page?
    var allocatedBytes: nat

    ghost var Pages: seq<Page>
    ghost var view: seq<PageView>
    ghost var Repr: set<object>

    ghost function Cfg(): Config { Config(baseAddress, capacity, pageAlign, blockAlign) }

    /** The value of the allocator. */
    ghost function Now(): State
      reads this
    {
      State(view, allocatedBytes)
    }

    ghost predicate Linked()
      reads this`pages, this`Pages, this`view, this`Repr, Repr
    {
      && this !in Repr && PagesValid(Pages, Repr, blockAlign)
      && PageChain(pages, Pages) && Separate(Pages) && Viewed(Pages, view)
    }

    lemma Parts()
      requires Linked()
      ensures this !in Repr && PagesValid(Pages, Repr, blockAlign) && Distinct(Pages)
      ensures PageChain(pages, Pages) && Separate(Pages) && Viewed(Pages, view) && |view| == |Pages|
    {
    }

    lemma Whole()
      requires this !in Repr && PagesValid(Pages, Repr, blockAlign)
      requires PageChain(pages, Pages) && Separate(Pages) && Viewed(Pages, view)
      ensures Linked()
    {
    }

    ghost predicate Valid()
      reads this, Repr
    {
      Linked() && Cfg().Valid() && Inv(Cfg(), Now())
    }

    constructor (baseAddress: nat, capacity: nat, pageAlign: nat, blockAlign: nat)
      requires blockAlign > 0 && pageAlign > 0 && pageAlign % blockAlign == 0
      ensures Valid() && fresh(Repr) && Now() == State([], 0)
      ensures Cfg() == Config(baseAddress, capacity, pageAlign, blockAlign)
    {
      this.baseAddress, this.capacity, this.pageAlign, this.blockAlign := baseAddress, capacity, pageAlign, blockAlign;
      pages, allocatedBytes := null, 0;
      Pages, view, Repr := [], [], {};
    }

    method HasPageOverlap(start: nat, size: nat) returns (r: bool)
      requires Linked()
      ensures r <==> MemSpec.HasPageOverlap(view, start, size)
    {
      hide Separate, PagesValid;
      var current := pages;
      ghost var k: nat := 0;
      while current != null
        invariant k <= |Pages| && current == if k < |Pages| then Pages[k] else null
        invariant forall j :: 0 <= j < k ==> !(start <= view[j].End() && start + size >= view[j].addr)
        decreases |Pages| - k
      {
        var pageStart := current.addr;
        var pageEnd := pageStart + current.size;
        var end := start + size;
        if start <= pageEnd && end >= pageStart {
          assert view[k].End() == pageEnd;
          return true;
        }
        current := current.next;
        k := k + 1;
      }
      r := false;
    }

    method FindNextAddress(size: nat) returns (r: Option<nat>)
      requires Linked()
      ensures r == MemSpec.FindNextAddress(Cfg(), view, size)
    {
      hide Separate, PagesValid;
      if pages == null {
        return Some(baseAddress);
      }
      var current := pages;
      var endOfLastPage: nat := baseAddress;
      ghost var k: nat := 0;
      while current != null
        invariant k <= |Pages| && current == if k < |Pages| then Pages[k] else null
        invariant GapFrom(view, k, endOfLastPage, size, capacity) == MemSpec.FindNextAddress(Cfg(), view, size)
        decreases |Pages| - k
      {
        var startOfCurrentPage := current.addr;
        if endOfLastPage + size <= startOfCurrentPage {
          return Some(endOfLastPage);
        }
        endOfLastPage := current.addr + current.size;
        current := current.next;
        k := k + 1;
      }
      if endOfLastPage + size <= capacity {
        return Some(endOfLastPage);
      }
      return None;
    }

    /** Allocation in one page, in terms of the blocks the page owns. */
    static method AllocateIn(page: Page, size: nat, freeBlock: Block) returns (ghost i: nat)
      requires page.Valid() && freeBlock in page.M && 0 < size <= freeBlock.size
      modifies page`freeMList, page`M, page`free, page`freeSList, page`S, page`usedList, page`U, page`used, page`tiles
      modifies page.Blocks()
      ensures page.Valid() && fresh(page.Blocks() - old(page.Blocks())) && freeBlock.addr == old(freeBlock.addr)
      ensures i < |old(page.tiles)| && old(page.tiles)[i] == Tile(freeBlock.addr, old(freeBlock.size), false)
      ensures page.tiles == AllocAt(old(page.tiles), i, size, page.blockAlign)
    {
      hide Page.Valid;
      i := page.Allocate(size, freeBlock);
    }

    method PageAllocate(page: Page, size: nat, freeBlock: Block, ghost k: nat) returns (ghost i: nat)
      requires Linked() && k < |Pages| && Pages[k] == page && freeBlock in page.M && 0 < size <= freeBlock.size
      modifies this`view, this`Repr, page, page.Blocks()
      ensures Linked() && fresh(Repr - old(Repr))
      ensures freeBlock.addr == old(freeBlock.addr)
      ensures i < |old(view)[k].tiles| && old(view)[k].tiles[i] == Tile(freeBlock.addr, old(freeBlock.size), false)
      ensures view == old(view)[k := old(view)[k].(tiles := AllocAt(old(view)[k].tiles, i, size, blockAlign))]
    {
      hide *;
      Parts();
      ghost var foot := SetApart(Pages, k, Repr, blockAlign);
      ViewApart(Pages, view, k);
      i := AllocateIn(page, size, freeBlock);
      Repr := Repr + page.Blocks();
      PutTogether(Pages, k, foot, Repr, blockAlign);
      ViewTogether(Pages, view, k);
      view := view[k := view[k].(tiles := page.tiles)];
      Whole();
    }

    /** Release in one page, in terms of the blocks the page owns. */
    static method ReleaseIn(page: Page, usedBlock: Block) returns (ghost i: nat)
      requires page.Valid() && usedBlock in page.U
      modifies page`freeMList, page`M, page`free, page`freeSList, page`S, page`usedList, page`U, page`used, page`tiles
      modifies page.Blocks()
      ensures page.Valid() && page.Blocks() <= old(page.Blocks()) && usedBlock.addr == old(usedBlock.addr)
      ensures i < |old(page.tiles)| && old(page.tiles)[i] == Tile(usedBlock.addr, old(usedBlock.size), true)
      ensures page.tiles == FreeAt(old(page.tiles), i)
    {
      hide Page.Valid;
      i := page.Release(usedBlock);
    }

    /** A release in page k leaves the other pages as they are. */
    method ReleaseOwned(page: Page, usedBlock: Block, ghost k: nat) returns (ghost i: nat)
      requires PagesValid(Pages, Repr, blockAlign) && Separate(Pages) && Distinct(Pages) && Viewed(Pages, view)
      requires k < |Pages| && k < |view| && Pages[k] == page && usedBlock in page.U
      modifies page`freeMList, page`M, page`free, page`freeSList, page`S, page`usedList, page`U, page`used, page`tiles
      modifies page.Blocks()
      ensures PagesValid(Pages, Repr, blockAlign) && Separate(Pages) && usedBlock.addr == old(usedBlock.addr)
      ensures i < |view[k].tiles| && view[k].tiles[i] == Tile(usedBlock.addr, old(usedBlock.size), true)
      ensures Viewed(Pages, view[k := view[k].(tiles := FreeAt(view[k].tiles, i))])
    {
      hide *;
      ghost var foot := SetApart(Pages, k, Repr, blockAlign);
      ViewApart(Pages, view, k);
      i := ReleaseIn(page, usedBlock);
      StillApart(page.Blocks(), old(page.Blocks()), foot, Repr);
      PutTogether(Pages, k, foot, Repr, blockAlign);
      ViewTogether(Pages, view, k);
    }

    method PageRelease(page: Page, usedBlock: Block, ghost k: nat) returns (ghost i: nat)
      requires Linked() && k < |Pages| && Pages[k] == page && usedBlock in page.U
      modifies this`view, page, page.Blocks()
      ensures Linked() && Repr == old(Repr) && usedBlock.addr == old(usedBlock.addr)
      ensures i < |old(view)[k].tiles| && old(view)[k].tiles[i] == Tile(usedBlock.addr, old(usedBlock.size), true)
      ensures view == old(view)[k := old(view)[k].(tiles := FreeAt(old(view)[k].tiles, i))]
    {
      hide *;
      Parts();
      i := ReleaseOwned(page, usedBlock, k);
      view := view[k := view[k].(tiles := FreeAt(view[k].tiles, i))];
      Whole();
    }

    /** The walk of createPage past the pages that start below an address. */
    method SeekPage(addr: nat) returns (current: Page, ghost k: nat)
      requires PageChain(pages, Pages) && pages != null && pages.addr < addr
      ensures 0 < k <= |Pages| && current == Pages[k - 1] && current.next == if k < |Pages| then Pages[k] else null
      ensures forall j :: 0 <= j < k ==> Pages[j].addr < addr
      ensures k < |Pages| ==> Pages[k].addr >= addr
    {
      current, k := pages, 1;
      while current.next != null && current.next.addr < addr
        invariant 0 < k <= |Pages| && current == Pages[k - 1]
        invariant forall j :: 0 <= j < k ==> Pages[j].addr < addr
        decreases |Pages| - k
      {
        current := current.next;
        k := k + 1;
      }
    }

    method CreatePage(addr: nat, size: nat) returns (newPage: Page, ghost k: nat)
      requires Linked() && blockAlign > 0 && size > 0
      requires forall q :: q in view ==> q.addr != addr
      modifies this`pages, this`Pages, this`view, this`Repr, Pages`next
      ensures Linked() && fresh(Repr - old(Repr))
      ensures k == PagesBelow(old(view), addr) && k < |Pages| && Pages[k] == newPage
      ensures view == AddPage(old(view), PageView(addr, size, [Tile(addr, size, false)]))
    {
      hide Separate, Page.Valid, PagesValid;
      newPage := new Page(addr, size, blockAlign);
      k := PlacePage(newPage);
    }

    /** Links a new page into the list in address order. */
    method LinkPage(newPage: Page) returns (ghost k: nat)
      requires PageChain(pages, Pages) && newPage !in Pages
      requires forall p :: p in Pages ==> p.addr != newPage.addr
      modifies this`pages, Pages`next, newPage`next
      ensures k <= |Pages| && PageChain(pages, InsertAt(Pages, k, newPage))
      ensures forall j :: 0 <= j < k ==> Pages[j].addr < newPage.addr
      ensures k < |Pages| ==> Pages[k].addr >= newPage.addr
    {
      hide InsertAt;
      if pages == null || pages.addr > newPage.addr {
        newPage.next := pages;
        pages := newPage;
        k := 0;
      } else {
        assert pages in Pages;
        var current;
        current, k := SeekPage(newPage.addr);
        ApartFrom(Pages, k - 1);
        newPage.next := current.next;
        current.next := newPage;
      }
      ChainInserted(pages, Pages, k, newPage);
    }

    /** LinkPage leaves the pages valid, as it changes nothing but their links. */
    method LinkValid(newPage: Page) returns (ghost k: nat)
      requires PageChain(pages, Pages) && newPage !in Pages && PagesValid(Pages, Repr, blockAlign)
      requires forall p :: p in Pages ==> p.addr != newPage.addr
      modifies this`pages, Pages`next, newPage`next
      ensures PagesValid(Pages, Repr, blockAlign)
      ensures k <= |Pages| && PageChain(pages, InsertAt(Pages, k, newPage))
      ensures forall j :: 0 <= j < k ==> Pages[j].addr < newPage.addr
      ensures k < |Pages| ==> Pages[k].addr >= newPage.addr
    {
      hide PageChain, Page.Valid, InsertAt;
      k := LinkPage(newPage);
    }

    method PlacePage(newPage: Page) returns (ghost k: nat)
      requires Linked() && newPage !in Repr && newPage.Blocks() !! Repr
      requires newPage.Valid() && newPage.blockAlign == blockAlign
      requires forall q :: q in view ==> q.addr != newPage.addr
      modifies this`pages, this`Pages, this`view, this`Repr, Pages`next, newPage`next
      ensures Linked() && Repr == old(Repr) + {newPage} + newPage.Blocks()
      ensures k == PagesBelow(old(view), newPage.addr) && k < |Pages| && Pages[k] == newPage
      ensures view == AddPage(old(view), PageView(newPage.addr, newPage.size, newPage.tiles))
    {
      hide *;
      Parts();
      PagesOwned();
      ViewAddresses(newPage.addr);
      k := LinkValid(newPage);
      PlaceInView(k, newPage.addr);
      ViewedInserted(Pages, view, k, newPage);
      PagesInserted(Pages, k, newPage, Repr, blockAlign);
      AddPageAt(view, PageView(newPage.addr, newPage.size, newPage.tiles));
      view := InsertAt(view, k, PageView(newPage.addr, newPage.size, newPage.tiles));
      Repr := Repr + {newPage} + newPage.Blocks();
      Pages := InsertAt(Pages, k, newPage);
      Whole();
    }

    lemma PlaceInView(k: nat, addr: nat)
      requires Viewed(Pages, view) && k <= |Pages|
      requires (forall j :: 0 <= j < k ==> Pages[j].addr < addr) && (k < |Pages| ==> Pages[k].addr >= addr)
      ensures PagesBelow(view, addr) == k
    {
      PagesBelowIs(view, addr, k);
    }

    lemma ViewAddresses(addr: nat)
      requires Viewed(Pages, view)
      ensures (forall q :: q in view ==> q.addr != addr) ==> forall p :: p in Pages ==> p.addr != addr
    {
      forall p | p in Pages && p.addr == addr ensures exists q :: q in view && q.addr == addr {
        var i :| 0 <= i < |Pages| && Pages[i] == p;
        assert view[i] in view;
      }
    }

    /** Unlinks a page from the list. */
    method UnlinkPage(page: Page, ghost k: nat)
      requires PageChain(pages, Pages) && k < |Pages| && Pages[k] == page && PagesValid(Pages, Repr, blockAlign)
      modifies this`pages, Pages`next
      ensures PageChain(pages, RemoveAt(Pages, k)) && PagesValid(Pages, Repr, blockAlign)
    {
      hide Page.Valid;
      var prevPage: Page? := null;
      var currPage := pages;
      ghost var i: nat := 0;
      ApartFrom(Pages, k);
      while currPage != null && currPage != page
        invariant i <= k && currPage == Pages[i] && prevPage == if i > 0 then Pages[i - 1] else null
        decreases k - i
      {
        prevPage := currPage;
        currPage := currPage.next;
        i := i + 1;
      }
      if i > 0 { ApartFrom(Pages, i - 1); }
      if prevPage != null {
        prevPage.next := currPage.next;
      } else {
        pages := currPage.next;
      }
      ChainRemoved(pages, Pages, k);
    }

    /** The destructor of a page without used blocks. */
    static method Discard(page: Page)
      requires page.Valid() && Bytes(page.tiles, true) == 0
    {
      hide Page.Valid;
      page.UsedBytes();
      page.Destroy();
    }

    method DeletePage(page: Page, ghost k: nat)
      requires Linked() && k < |Pages| && Pages[k] == page && Bytes(view[k].tiles, true) == 0
      modifies this`pages, this`Pages, this`view, Pages`next
      ensures Linked() && Repr == old(Repr) && view == RemoveAt(old(view), k)
    {
      hide *;
      Parts();
      PageOf(k);
      UnlinkPage(page, k);
      Discard(page);
      PagesRemoved(Pages, view, k, Repr, blockAlign);
      view := RemoveAt(view, k);
      Pages := RemoveAt(Pages, k);
      Whole();
    }

    /** Page k of the list and of the view. */
    lemma PageOf(k: nat)
      requires Linked() && k < |Pages|
      ensures Pages[k].Valid() && Pages[k].blockAlign == blockAlign && Pages[k] in Repr && Pages[k].Blocks() <= Repr
      ensures k < |view| && view[k] == PageView(Pages[k].addr, Pages[k].size, Pages[k].tiles)
    {
      assert Pages[k] in Pages;
    }

    method Reserve(addr: nat, size: nat) returns (r: int)
      requires Valid()
      modifies this`pages, this`Pages, this`view, this`Repr, this`allocatedBytes, Repr
      ensures Valid() && fresh(Repr - old(Repr)) && (r == 0 || r == -1)
      ensures ReserveStep(Cfg(), old(Now()), addr, size, r == 0, Now())
      ensures pageAlign > 0
      ensures var sz := AlignSize(size, pageAlign);
        r == 0 <==> && size > 0 && addr + sz <= capacity
                    && forall p :: p in old(view) ==> p.addr + p.size < addr || addr + sz < p.addr
    {
      hide Linked, Inv;
      if size == 0 {
        return -1;
      }
      var sz := AlignSize(size, pageAlign);
      if addr + sz > capacity {
        return -1;
      }
      var overlap := HasPageOverlap(addr, sz);
      OverlapMeans(view, addr, sz);
      if overlap {
        return -1;
      }
      NoSameAddress(addr, sz);
      NotOwned();
      ghost var s := Now();
      var freeBlock := NewAllocation(addr, sz, sz);
      allocatedBytes := allocatedBytes + sz;
      FreshlyReserved(Cfg(), s, addr, size, Now());
      r := 0;
    }

    lemma NotOwned()
      requires Linked()
      ensures this !in Repr
    {
    }

    lemma NoSameAddress(addr: nat, size: nat)
      requires !MemSpec.HasPageOverlap(view, addr, size)
      ensures forall q :: q in view ==> q.addr != addr
    {
      forall q | q in view ensures q.addr != addr {
        var k :| 0 <= k < |view| && view[k] == q;
      }
    }

    /** Creates a page and takes a block of the given size from its start. */
    method NewAllocation(addr: nat, pageSize: nat, size: nat) returns (freeBlock: Block)
      requires Linked() && blockAlign > 0 && 0 < size <= pageSize
      requires forall q :: q in view ==> q.addr != addr
      modifies this`pages, this`Pages, this`view, this`Repr, Repr
      ensures Linked() && fresh(Repr - old(Repr)) && freeBlock.addr == addr
      ensures view == AddPage(old(view), PageView(addr, pageSize, AllocAt([Tile(addr, pageSize, false)], 0, size, blockAlign)))
    {
      hide *;
      var newPage;
      ghost var k;
      ghost var v := view;
      PagesOwned();
      newPage, k := CreatePage(addr, pageSize);
      AddPageAt(v, PageView(addr, pageSize, [Tile(addr, pageSize, false)]));
      PageOf(k);
      assert newPage.tiles == [Tile(addr, pageSize, false)];
      assert newPage.tiles[0] in newPage.tiles;
      freeBlock := newPage.FindFreeBlock(size);
      ghost var i := PageAllocate(newPage, size, freeBlock, k);
      ReplaceAdded(v, PageView(addr, pageSize, [Tile(addr, pageSize, false)]), AllocAt([Tile(addr, pageSize, false)], 0, size, blockAlign));
    }

    /** The walk over the pages for a free block: the first page that has one, and its smallest that fits. */
    method FindFree(size: nat) returns (currPage: Page?, freeBlock: Block?, ghost k: nat)
      requires Linked()
      ensures freeBlock == null ==> forall p :: !FirstFit(view, size, p)
      ensures freeBlock != null ==> k < |Pages| && Pages[k] == currPage && FirstFit(view, size, k)
      ensures freeBlock != null ==> freeBlock in currPage.M && freeBlock.size >= size
      ensures freeBlock != null ==> forall t :: t in view[k].tiles && Fits(t, size) ==> freeBlock.size <= t.size
    {
      hide Separate, Page.Valid, PagesValid;
      freeBlock := null;
      currPage := pages;
      k := 0;
      while currPage != null
        invariant k <= |Pages| && currPage == if k < |Pages| then Pages[k] else null
        invariant freeBlock == null && forall q :: 0 <= q < k ==> !HasFit(view[q].tiles, size)
        decreases |Pages| - k
      {
        PageOf(k);
        freeBlock := currPage.FindFreeBlock(size);
        if freeBlock != null {
          return;
        }
        currPage := currPage.next;
        k := k + 1;
      }
    }

    method Allocate(size: nat, hasAddr: bool) returns (r: int, addr: nat)
      requires Valid()
      modifies this`pages, this`Pages, this`view, this`Repr, this`allocatedBytes, Repr
      ensures Valid() && fresh(Repr - old(Repr)) && (r == 0 || r == -1)
      ensures AllocateStep(Cfg(), old(Now()), size, hasAddr, if r == 0 then Some(addr) else None, Now())
    {
      hide *;
      Opened();
      Refused(Cfg(), Now(), size, hasAddr);
      if size == 0 || !hasAddr {
        return -1, 0;
      }
      NotOwned();
      var sz := AlignSize(size, blockAlign);
      ghost var s := Now();
      var currPage, freeBlock;
      ghost var k;
      currPage, freeBlock, k := FindFree(sz);
      if freeBlock == null {
        var pageSize := AlignSize(sz, pageAlign);
        var pageAddr := FindNextAddress(pageSize);
        if pageAddr == None {
          return -1, 0;
        }
        NoPageThere(pageAddr.value, pageSize);
        freeBlock := NewAllocation(pageAddr.value, pageSize, sz);
        FreshlyAllocated(Cfg(), s, size, pageAddr.value, State(view, allocatedBytes + sz));
      } else {
        PageOf(k);
        ghost var i := PageAllocate(currPage, sz, freeBlock, k);
        TakenFrom(Cfg(), s, size, k, i, State(view, allocatedBytes + sz));
      }
      addr := freeBlock.addr;
      allocatedBytes := allocatedBytes + sz;
      r := 0;
      Closed();
    }

    lemma Opened()
      ensures Valid() ==> Linked() && Cfg().Valid() && Inv(Cfg(), Now()) && blockAlign > 0 && pageAlign > 0
      ensures Now() == State(view, allocatedBytes) && Cfg() == Config(baseAddress, capacity, pageAlign, blockAlign)
    {
    }

    lemma Closed()
      requires Linked() && Cfg().Valid() && Inv(Cfg(), State(view, allocatedBytes))
      ensures Valid() && Now() == State(view, allocatedBytes)
    {
    }

    lemma NoPageThere(addr: nat, size: nat)
      requires Cfg().Valid() && Inv(Cfg(), Now()) && size > 0 && MemSpec.FindNextAddress(Cfg(), view, size) == Some(addr)
      ensures forall q :: q in view ==> q.addr != addr
    {
      NextAddressIsFree(Cfg(), view, size);
    }

    /** The walk over the pages for a used block at an address. */
    method FindUsed(addr: nat) returns (currPage: Page?, usedBlock: Block?, ghost k: nat)
      requires Linked()
      ensures usedBlock == null <==> !Live(view, addr)
      ensures usedBlock != null ==> k < |Pages| && Pages[k] == currPage && usedBlock in currPage.U && usedBlock.addr == addr
    {
      hide Separate, Page.Valid, PagesValid;
      usedBlock := null;
      currPage := pages;
      k := 0;
      while currPage != null
        invariant k <= |Pages| && currPage == if k < |Pages| then Pages[k] else null
        invariant usedBlock == null
        invariant forall q: nat, i: nat :: q < k ==> !LiveAt(view, q, i, addr)
        decreases |Pages| - k
      {
        PageOf(k);
        usedBlock := currPage.FindUsedBlock(addr);
        if usedBlock != null {
          ghost var t :| t in view[k].tiles && t.used && t.addr == addr;
          ghost var i :| 0 <= i < |view[k].tiles| && view[k].tiles[i] == t;
          assert LiveAt(view, k, i, addr);
          return;
        }
        currPage := currPage.next;
        k := k + 1;
      }
    }

    /** Releases a block of page k; the page goes away when it was the last one in use. */
    method DropBlock(currPage: Page, usedBlock: Block, ghost k: nat) returns (ghost i: nat)
      requires Linked() && k < |Pages| && Pages[k] == currPage && usedBlock in currPage.U
      modifies this`pages, this`Pages, this`view, Repr
      ensures Linked() && Repr == old(Repr)
      ensures LiveAt(old(view), k, i, old(usedBlock.addr)) && old(view)[k].tiles[i].size == old(usedBlock.size)
      ensures view == FreeIn(old(view), k, i)
    {
      hide Linked, FreeAt;
      PageOf(k);
      NotOwned();
      i := PageRelease(currPage, usedBlock, k);
      PageOf(k);
      NotOwned();
      var empty := currPage.Empty();
      if empty {
        PagesOwned();
        ghost var v := view;
        DeletePage(currPage, k);
        RemoveReplaced(old(view), k, v[k]);
      }
    }

    lemma PagesOwned()
      requires Linked()
      ensures forall p :: p in Pages ==> p in Repr
    {
    }

    method Release(addr: nat) returns (r: int)
      requires Valid()
      modifies this`pages, this`Pages, this`view, this`Repr, this`allocatedBytes, Repr
      ensures Valid() && Repr == old(Repr) && (r == 0 || r == -1)
      ensures ReleaseStep(old(Now()), addr, r == 0, Now())
    {
      hide Linked, Inv, FreeIn;
      NotOwned();
      ghost var s := Now();
      var currPage, usedBlock;
      ghost var k;
      currPage, usedBlock, k := FindUsed(addr);
      if usedBlock == null {
        return -1;
      }
      var size := usedBlock.size;
      ghost var i := DropBlock(currPage, usedBlock, k);
      FreeInKeeps(Cfg(), s, k, i);
      allocatedBytes := allocatedBytes - size;
      r := 0;
    }
  }

  lemma StillApart(fewer: set<Block>, owned: set<Block>, foot: set<object>, repr: set<object>)
    requires fewer <= owned && owned !! foot && owned <= repr
    ensures fewer !! foot && fewer <= repr
  {
  }

  lemma AddPageAt(v: seq<PageView>, p: PageView)
    ensures PagesBelow(v, p.addr) <= |v| && AddPage(v, p) == InsertAt(v, PagesBelow(v, p.addr), p)
  {
  }

  lemma RemoveReplaced(v: seq<PageView>, k: nat, p: PageView)
    requires k < |v|
    ensures RemoveAt(v[k := p], k) == RemoveAt(v, k)
  {
  }

  lemma ReplaceAdded(v: seq<PageView>, p: PageView, t: seq<Tile>)
    ensures var k := PagesBelow(v, p.addr);
            AddPage(v, p)[k := p.(tiles := t)] == AddPage(v, p.(tiles := t))
  {
  }

  lemma Refused(c: Config, s: State, size: nat, hasAddr: bool)
    ensures c.Valid() && (size == 0 || !hasAddr) ==> AllocateStep(c, s, size, hasAddr, None, s)
    ensures c.Valid() && size > 0 ==>
              var sz := AlignSize(size, c.blockAlign);
              sz > 0 && ((forall p :: !FirstFit(s.pages, sz, p)) && FindNextAddress(c, s.pages, AlignSize(sz, c.pageAlign)) == None
                         ==> AllocateStep(c, s, size, hasAddr, None, s))
  {
  }

  lemma FreshlyAllocated(c: Config, s: State, size: nat, addr: nat, s': State)
    requires c.Valid() && Inv(c, s) && size > 0
    requires var sz := AlignSize(size, c.blockAlign);
             var pageSize := AlignSize(sz, c.pageAlign);
             && (forall p :: !FirstFit(s.pages, sz, p)) && FindNextAddress(c, s.pages, pageSize) == Some(addr) && sz <= pageSize
             && s'.pages == AddPage(s.pages, PageView(addr, pageSize, AllocAt([Tile(addr, pageSize, false)], 0, sz, c.blockAlign)))
             && s'.allocatedBytes == s.allocatedBytes + sz
    ensures AllocateStep(c, s, size, true, Some(addr), s') && Inv(c, s')
  {
    hide FirstFit, Inv, FindNextAddress, AlignSize, AddPage, AllocAt;
    AllocateKeeps(c, s, size, true, Some(addr), s');
  }

  lemma TakenFrom(c: Config, s: State, size: nat, k: nat, i: nat, s': State)
    requires c.Valid() && Inv(c, s) && size > 0
    requires var sz := AlignSize(size, c.blockAlign);
             && FirstFit(s.pages, sz, k) && k < |s.pages| && i < |s.pages[k].tiles|
             && !s.pages[k].tiles[i].used && sz <= s.pages[k].tiles[i].size
             && (forall t :: t in s.pages[k].tiles && Fits(t, sz) ==> s.pages[k].tiles[i].size <= t.size)
             && s'.pages == s.pages[k := s.pages[k].(tiles := AllocAt(s.pages[k].tiles, i, sz, c.blockAlign))]
             && s'.allocatedBytes == s.allocatedBytes + sz
    ensures AllocateStep(c, s, size, true, Some(s.pages[k].tiles[i].addr), s') && Inv(c, s')
  {
    hide FirstFit, Inv, FindNextAddress, AlignSize, AllocAt;
    var sz := AlignSize(size, c.blockAlign);
    assert BestFit(s.pages[k].tiles, sz, i);
    assert s' == AllocIn(c, s, k, i, sz);
    AllocateKeeps(c, s, size, true, Some(s.pages[k].tiles[i].addr), s');
  }

  lemma FreshlyReserved(c: Config, s: State, addr: nat, size: nat, s': State)
    requires c.Valid() && Inv(c, s) && size > 0
    requires var sz := AlignSize(size, c.pageAlign);
             && addr + sz <= c.capacity && !HasPageOverlap(s.pages, addr, sz)
             && s' == State(AddPage(s.pages, PageView(addr, sz, AllocAt([Tile(addr, sz, false)], 0, sz, c.blockAlign))), s.allocatedBytes + sz)
    ensures ReserveStep(c, s, addr, size, true, s') && Inv(c, s')
  {
    var sz := AlignSize(size, c.pageAlign);
    assert AllocAt([Tile(addr, sz, false)], 0, sz, c.blockAlign) == [Tile(addr, sz, true)];
    ReserveKeeps(c, s, addr, size, true, s');
  }
}
