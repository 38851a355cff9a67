/**
 One page of the allocator: blocks on a used list, a free list by address (M) and one by decreasing size (S).
 */
module MemBlocks {
  import opened SeqEdits
  import opened Tiles

  class Block {
    var nextFreeS: Block?
    var prevFreeS: Block?
    var nextFreeM: Block?
    var prevFreeM: Block?
    var nextUsed: Block?
    var prevUsed: Block?
    var addr: nat
    var size: nat

    constructor (addr: nat, size: nat)
      ensures this.addr == addr && this.size == size
      ensures nextFreeS == null && prevFreeS == null && nextFreeM == null && prevFreeM == null
      ensures nextUsed == null && prevUsed == null
    {
      this.addr, this.size := addr, size;
      nextFreeS, prevFreeS, nextFreeM, prevFreeM, nextUsed, prevUsed := null, null, null, null, null, null;
    }
  }

  /** v gives the address and size of every block of s. */
  ghost predicate Shows(s: seq<Block>, v: seq<Span>)
    reads s`addr, s`size
  {
    |v| == |s| && forall i {:trigger v[i]} {:trigger s[i]} :: 0 <= i < |s| ==> v[i] == Span(s[i].addr, s[i].size)
  }

  lemma ShowsInserted(s: seq<Block>, v: seq<Span>, k: nat, block: Block)
    requires Shows(s, v) && k <= |s|
    ensures k <= |v| && Shows(InsertAt(s, k, block), InsertAt(v, k, Span(block.addr, block.size)))
  {
  }

  lemma ShowsRemoved(s: seq<Block>, v: seq<Span>, k: nat)
    requires Shows(s, v) && k < |s|
    ensures k < |v| && Shows(RemoveAt(s, k), RemoveAt(v, k))
  {
  }

  /** A place in the list of blocks is the same place in the list of their spans. */
  lemma PlacedIn(s: seq<Block>, v: seq<Span>, k: nat, addr: nat)
    requires Shows(s, v) && k <= |s|
    requires (forall j :: 0 <= j < k ==> s[j].addr < addr) && (k < |s| ==> addr <= s[k].addr)
    ensures PlacedAt(k, v, addr)
  {
  }

  ghost predicate BySize(s: seq<Block>)
    reads s`size
  {
    forall i, j :: 0 <= i < j < |s| ==> s[i].size >= s[j].size
  }

  /** The nodes next to position k are different from all others. */
  lemma Around(s: seq<Block>, k: nat)
    requires Distinct(s) && k <= |s|
    ensures 0 < k ==> forall i {:trigger s[i]} :: 0 <= i < |s| && i != k - 1 ==> s[i] != s[k - 1]
    ensures k < |s| ==> forall i {:trigger s[i]} :: 0 <= i < |s| && i != k ==> s[i] != s[k]
    ensures k + 1 < |s| ==> forall i {:trigger s[i]} :: 0 <= i < |s| && i != k + 1 ==> s[i] != s[k + 1]
  {
    if 0 < k { ApartFrom(s, k - 1); }
    if k < |s| { ApartFrom(s, k); }
    if k + 1 < |s| { ApartFrom(s, k + 1); }
  }

  // ---- The free-by-address list ----

  ghost predicate NextsM(s: seq<Block>)
    reads s`nextFreeM
  {
    forall i {:trigger s[i].nextFreeM} :: 0 <= i < |s| ==> s[i].nextFreeM == if i + 1 < |s| then s[i + 1] else null
  }

  ghost predicate PrevsM(s: seq<Block>)
    reads s`prevFreeM
  {
    forall i {:trigger s[i].prevFreeM} :: 0 <= i < |s| ==> s[i].prevFreeM == if 0 < i then s[i - 1] else null
  }

  ghost predicate LinkedM(head: Block?, s: seq<Block>)
    reads s`nextFreeM, s`prevFreeM
  {
    && Distinct(s)
    && head == (if s == [] then null else s[0])
    && NextsM(s) && PrevsM(s)
  }

  lemma PartsM(head: Block?, s: seq<Block>)
    requires LinkedM(head, s)
    ensures Distinct(s) && head == (if s == [] then null else s[0]) && NextsM(s) && PrevsM(s)
  {
  }

  lemma WholeM(head: Block?, s: seq<Block>)
    requires Distinct(s) && head == (if s == [] then null else s[0]) && NextsM(s) && PrevsM(s)
    ensures LinkedM(head, s)
  {
  }

  lemma InsertedM(s: seq<Block>, k: nat, block: Block)
    requires k <= |s|
    requires 0 < k ==> s[k - 1].nextFreeM == block
    requires block.nextFreeM == if k < |s| then s[k] else null
    requires forall i {:trigger s[i]} :: 0 <= i < |s| && i != k - 1 ==> s[i].nextFreeM == if i + 1 < |s| then s[i + 1] else null
    requires k < |s| ==> s[k].prevFreeM == block
    requires block.prevFreeM == if 0 < k then s[k - 1] else null
    requires forall i {:trigger s[i]} :: 0 <= i < |s| && i != k ==> s[i].prevFreeM == if 0 < i then s[i - 1] else null
    ensures NextsM(InsertAt(s, k, block)) && PrevsM(InsertAt(s, k, block))
  {
  }

  lemma RemovedM(s: seq<Block>, k: nat)
    requires k < |s|
    requires 0 < k ==> s[k - 1].nextFreeM == if k + 1 < |s| then s[k + 1] else null
    requires forall i {:trigger s[i]} :: 0 <= i < |s| && i != k - 1 && i != k ==> s[i].nextFreeM == if i + 1 < |s| then s[i + 1] else null
    requires k + 1 < |s| ==> s[k + 1].prevFreeM == if 0 < k then s[k - 1] else null
    requires forall i {:trigger s[i]} :: 0 <= i < |s| && i != k + 1 && i != k ==> s[i].prevFreeM == if 0 < i then s[i - 1] else null
    ensures NextsM(RemoveAt(s, k)) && PrevsM(RemoveAt(s, k))
  {
  }

  // ---- The free-by-size list ----

  ghost predicate NextsS(s: seq<Block>)
    reads s`nextFreeS
  {
    forall i {:trigger s[i].nextFreeS} :: 0 <= i < |s| ==> s[i].nextFreeS == if i + 1 < |s| then s[i + 1] else null
  }

  ghost predicate PrevsS(s: seq<Block>)
    reads s`prevFreeS
  {
    forall i {:trigger s[i].prevFreeS} :: 0 <= i < |s| ==> s[i].prevFreeS == if 0 < i then s[i - 1] else null
  }

  ghost predicate LinkedS(head: Block?, s: seq<Block>)
    reads s`nextFreeS, s`prevFreeS
  {
    && Distinct(s)
    && head == (if s == [] then null else s[0])
    && NextsS(s) && PrevsS(s)
  }

  lemma PartsS(head: Block?, s: seq<Block>)
    requires LinkedS(head, s)
    ensures Distinct(s) && head == (if s == [] then null else s[0]) && NextsS(s) && PrevsS(s)
  {
  }

  lemma WholeS(head: Block?, s: seq<Block>)
    requires Distinct(s) && head == (if s == [] then null else s[0]) && NextsS(s) && PrevsS(s)
    ensures LinkedS(head, s)
  {
  }

  lemma InsertedS(s: seq<Block>, k: nat, block: Block)
    requires k <= |s|
    requires 0 < k ==> s[k - 1].nextFreeS == block
    requires block.nextFreeS == if k < |s| then s[k] else null
    requires forall i {:trigger s[i]} :: 0 <= i < |s| && i != k - 1 ==> s[i].nextFreeS == if i + 1 < |s| then s[i + 1] else null
    requires k < |s| ==> s[k].prevFreeS == block
    requires block.prevFreeS == if 0 < k then s[k - 1] else null
    requires forall i {:trigger s[i]} :: 0 <= i < |s| && i != k ==> s[i].prevFreeS == if 0 < i then s[i - 1] else null
    ensures NextsS(InsertAt(s, k, block)) && PrevsS(InsertAt(s, k, block))
  {
  }

  lemma RemovedS(s: seq<Block>, k: nat)
    requires k < |s|
    requires 0 < k ==> s[k - 1].nextFreeS == if k + 1 < |s| then s[k + 1] else null
    requires forall i {:trigger s[i]} :: 0 <= i < |s| && i != k - 1 && i != k ==> s[i].nextFreeS == if i + 1 < |s| then s[i + 1] else null
    requires k + 1 < |s| ==> s[k + 1].prevFreeS == if 0 < k then s[k - 1] else null
    requires forall i {:trigger s[i]} :: 0 <= i < |s| && i != k + 1 && i != k ==> s[i].prevFreeS == if 0 < i then s[i - 1] else null
    ensures NextsS(RemoveAt(s, k)) && PrevsS(RemoveAt(s, k))
  {
  }

  // ---- The used list ----

  ghost predicate NextsU(s: seq<Block>)
    reads s`nextUsed
  {
    forall i {:trigger s[i].nextUsed} :: 0 <= i < |s| ==> s[i].nextUsed == if i + 1 < |s| then s[i + 1] else null
  }

  ghost predicate PrevsU(s: seq<Block>)
    reads s`prevUsed
  {
    forall i {:trigger s[i].prevUsed} :: 0 <= i < |s| ==> s[i].prevUsed == if 0 < i then s[i - 1] else null
  }

  ghost predicate LinkedU(head: Block?, s: seq<Block>)
    reads s`nextUsed, s`prevUsed
  {
    && Distinct(s)
    && head == (if s == [] then null else s[0])
    && NextsU(s) && PrevsU(s)
  }

  lemma PartsU(head: Block?, s: seq<Block>)
    requires LinkedU(head, s)
    ensures Distinct(s) && head == (if s == [] then null else s[0]) && NextsU(s) && PrevsU(s)
  {
  }

  lemma WholeU(head: Block?, s: seq<Block>)
    requires Distinct(s) && head == (if s == [] then null else s[0]) && NextsU(s) && PrevsU(s)
    ensures LinkedU(head, s)
  {
  }

  lemma InsertedU(s: seq<Block>, k: nat, block: Block)
    requires k <= |s|
    requires 0 < k ==> s[k - 1].nextUsed == block
    requires block.nextUsed == if k < |s| then s[k] else null
    requires forall i {:trigger s[i]} :: 0 <= i < |s| && i != k - 1 ==> s[i].nextUsed == if i + 1 < |s| then s[i + 1] else null
    requires k < |s| ==> s[k].prevUsed == block
    requires block.prevUsed == if 0 < k then s[k - 1] else null
    requires forall i {:trigger s[i]} :: 0 <= i < |s| && i != k ==> s[i].prevUsed == if 0 < i then s[i - 1] else null
    ensures NextsU(InsertAt(s, k, block)) && PrevsU(InsertAt(s, k, block))
  {
  }

  lemma RemovedU(s: seq<Block>, k: nat)
    requires k < |s|
    requires 0 < k ==> s[k - 1].nextUsed == if k + 1 < |s| then s[k + 1] else null
    requires forall i {:trigger s[i]} :: 0 <= i < |s| && i != k - 1 && i != k ==> s[i].nextUsed == if i + 1 < |s| then s[i + 1] else null
    requires k + 1 < |s| ==> s[k + 1].prevUsed == if 0 < k then s[k - 1] else null
    requires forall i {:trigger s[i]} :: 0 <= i < |s| && i != k + 1 && i != k ==> s[i].prevUsed == if 0 < i then s[i - 1] else null
    ensures NextsU(RemoveAt(s, k)) && PrevsU(RemoveAt(s, k))
  {
  }

  // ---- Membership ----

  /** Free and used blocks are apart; the S-list holds the blocks of the M-list other than hole. */
  ghost predicate Members(M: seq<Block>, S: seq<Block>, U: seq<Block>, hole: Block?) {
    && (forall b :: b in S ==> b in M && b != hole)
    && (forall b :: b in M && b != hole ==> b in S)
    && (forall b :: b in M ==> b !in U)
  }

  /** A free block has no predecessor in the used list. */
  ghost predicate NotUsed(M: seq<Block>)
    reads M`prevUsed
  {
    forall b :: b in M ==> b.prevUsed == null
  }

  lemma IndexIn(M: seq<Block>, S: seq<Block>, U: seq<Block>, k: nat) returns (j: nat)
    requires Members(M, S, U, null) && k < |M|
    ensures j < |S| && S[j] == M[k]
  {
    assert M[k] in M;
    j :| j < |S| && S[j] == M[k];
  }

  lemma MembersTaken(M: seq<Block>, S: seq<Block>, U: seq<Block>, k: nat, j: nat)
    requires Members(M, S, U, null) && Distinct(M) && Distinct(S)
    requires k < |M| && j < |S| && S[j] == M[k]
    ensures Members(RemoveAt(M, k), RemoveAt(S, j), U, null) && M[k] !in RemoveAt(M, k)
    ensures forall b :: b in RemoveAt(M, k) ==> b in M
  {
    RemovedMembers(M, k);
    RemovedMembers(S, j);
  }

  lemma MembersAdded(M: seq<Block>, S: seq<Block>, U: seq<Block>, k: nat, block: Block)
    requires Members(M, S, U, null) && k <= |M| && block !in M && block !in U
    ensures Members(InsertAt(M, k, block), S, U, block)
  {
    InsertedMembers(M, k, block);
  }

  /** The block before position k takes over the hole when the block at k is merged into it. */
  lemma MembersMergedLeft(M: seq<Block>, S: seq<Block>, U: seq<Block>, k: nat, j: nat)
    requires 0 < k < |M| && Members(M, S, U, M[k]) && Distinct(M) && Distinct(S)
    requires j < |S| && S[j] == M[k - 1]
    ensures Members(RemoveAt(M, k), RemoveAt(S, j), U, M[k - 1]) && M[k - 1] !in RemoveAt(S, j)
  {
    RemovedMembers(M, k);
    RemovedMembers(S, j);
  }

  lemma MembersMergedRight(M: seq<Block>, S: seq<Block>, U: seq<Block>, k: nat, j: nat)
    requires k + 1 < |M| && Members(M, S, U, M[k]) && Distinct(M) && Distinct(S)
    requires j < |S| && S[j] == M[k + 1]
    ensures Members(RemoveAt(M, k + 1), RemoveAt(S, j), U, M[k]) && M[k] !in RemoveAt(S, j)
  {
    RemovedMembers(M, k + 1);
    RemovedMembers(S, j);
    ApartFrom(M, k);
  }

  lemma RemovedBySize(s: seq<Block>, k: nat)
    requires BySize(s) && Distinct(s) && k < |s|
    ensures BySize(RemoveAt(s, k)) && s[k] !in RemoveAt(s, k)
  {
    RemovedMembers(s, k);
  }

  lemma InsertedBySize(s: seq<Block>, k: nat, block: Block)
    requires BySize(s) && k <= |s|
    requires forall j :: 0 <= j < k ==> s[j].size >= block.size
    requires k < |s| ==> s[k].size <= block.size
    ensures BySize(InsertAt(s, k, block))
  {
  }

  /** Position k of a list sorted by address is where an address belongs. */
  ghost predicate PlacedAt(k: nat, v: seq<Span>, addr: nat) {
    && k <= |v|
    && (forall j :: 0 <= j < k ==> v[j].addr < addr)
    && (k < |v| ==> addr <= v[k].addr)
  }

  /** Span k reaches from lo to hi; the spans before it start before lo, those after it from hi on. */
  ghost predicate Between(v: seq<Span>, k: nat, lo: nat, hi: nat) {
    && k < |v| && v[k].addr == lo && hi == lo + v[k].size
    && (forall j :: 0 <= j < k ==> v[j].addr < lo)
    && (forall j :: k < j < |v| ==> hi <= v[j].addr)
  }

  /** The size a block keeps when newSize bytes are asked of it. */
  function Given(size: nat, newSize: nat, align: nat): nat
    requires newSize <= size
  {
    if size - newSize >= align then newSize else size
  }

  /** The free spans after newSize bytes are taken from the k-th. */
  function Carved(v: seq<Span>, k: nat, newSize: nat, align: nat): seq<Span>
    requires k < |v| && newSize <= v[k].size
  {
    if v[k].size - newSize >= align
    then InsertAt(RemoveAt(v, k), k, Span(v[k].addr + newSize, v[k].size - newSize))
    else RemoveAt(v, k)
  }

  /** What is given out and what stays free, by whether enough is left over. */
  lemma CarvedIs(v: seq<Span>, k: nat, lo: nat, hi: nat, newSize: nat, align: nat)
    requires Between(v, k, lo, hi) && lo + newSize <= hi
    ensures v[k] == Span(lo, hi - lo) && Given(hi - lo, newSize, align) == if hi - lo - newSize >= align then newSize else hi - lo
    ensures hi - lo - newSize >= align ==>
              Carved(v, k, newSize, align) == InsertAt(RemoveAt(v, k), k, Span(lo + newSize, hi - lo - newSize))
    ensures hi - lo - newSize < align ==> Carved(v, k, newSize, align) == RemoveAt(v, k)
  {
    hide InsertAt, RemoveAt;
  }

  lemma PlaceAfterRemoval(v: seq<Span>, k: nat, k': nat, lo: nat, hi: nat, addr: nat)
    requires Between(v, k, lo, hi) && lo <= addr < hi
    requires PlacedAt(k', RemoveAt(v, k), addr)
    ensures k' == k
  {
    var r := RemoveAt(v, k);
    assert forall j :: 0 <= j < k ==> r[j] == v[j];
    assert k < |r| ==> r[k] == v[k + 1];
  }

  lemma AllocFree(t: seq<Tile>, lo: nat, hi: nat, i: nat, newSize: nat, align: nat)
    requires Tiling(t, lo, hi) && i < |t| && !t[i].used && 0 < newSize <= t[i].size && align > 0
    ensures var v, k := Spans(t, false), |Spans(t[..i], false)|;
            && Between(v, k, t[i].addr, t[i].addr + t[i].size)
            && Spans(AllocAt(t, i, newSize, align), false) == Carved(v, k, newSize, align)
  {
    hide *;
    FreeOrder(t, lo, hi, i);
    AllocSpans(t, i, newSize, align);
    SpanOf(t[i]);
    BetweenIs(Spans(t, false), |Spans(t[..i], false)|, t[i].addr, t[i].addr + t[i].size);
    CarvedIs(Spans(t, false), |Spans(t[..i], false)|, t[i].addr, t[i].addr + t[i].size, newSize, align);
  }

  lemma BetweenIs(v: seq<Span>, k: nat, lo: nat, hi: nat)
    requires k < |v| && v[k].addr == lo && hi == lo + v[k].size
    requires (forall j :: 0 <= j < k ==> v[j].addr < lo) && (forall j :: k < j < |v| ==> hi <= v[j].addr)
    ensures Between(v, k, lo, hi)
  {
  }

  /** The tile of a used block, and what a page needs to know about its tiles after its release. */
  lemma FreeKeeps(t: seq<Tile>, lo: nat, hi: nat, used: seq<Span>, ku: nat) returns (i: nat)
    requires Tiling(t, lo, hi) && Coalesced(t) && multiset(used) == multiset(Spans(t, true)) && ku < |used|
    ensures i < |t| && t[i] == Tile(used[ku].addr, used[ku].size, true)
    ensures Tiling(FreeAt(t, i), lo, hi) && Coalesced(FreeAt(t, i))
    ensures multiset(RemoveAt(used, ku)) == multiset(Spans(FreeAt(t, i), true))
  {
    hide FreeAt, Spans;
    assert used[ku] in multiset(used);
    SpansMembers(t, true);
    i :| 0 <= i < |t| && t[i] == Tile(used[ku].addr, used[ku].size, true);
    FreeTiling(t, lo, hi, i);
    FreeCoalesced(t, i);
    FreeUsed(t, i);
    RemovedMultiset(used, ku);
    RemovedMultiset(Spans(t, true), |Spans(t[..i], true)|);
  }

  lemma SpanOf(t: Tile)
    ensures t.ToSpan() == Span(t.addr, t.size)
  {
  }

  /** The place of a span that lies behind the spans of a and before those of b. */
  lemma PlaceBetween(a: seq<Span>, x: Span, b: seq<Span>, k: nat)
    requires (forall s :: s in a ==> s.addr + s.size <= x.addr && s.size > 0) && x.size > 0
    requires (forall s :: s in b ==> x.addr + x.size <= s.addr) && PlacedAt(k, a + b, x.addr)
    ensures k == |a|
  {
    assert forall j :: 0 <= j < |a| ==> (a + b)[j] == a[j] && a[j] in a;
    assert |a| < |a + b| ==> (a + b)[|a|] == b[0] && b[0] in b;
  }

  /** Where a released block goes in the M-list, and the free spans that coalescing leaves. */
  lemma FreePlace(t: seq<Tile>, lo: nat, hi: nat, i: nat, k: nat)
    requires Tiling(t, lo, hi) && i < |t| && t[i].used && PlacedAt(k, Spans(t, false), t[i].addr)
    ensures Spans(FreeAt(t, i), false) == Coalesce(InsertAt(Spans(t, false), k, Span(t[i].addr, t[i].size)), k)
  {
    hide *;
    FreeCoalesces(t, lo, hi, i);
    FreeNeighbours(t, lo, hi, i);
    UsedGap(t, i);
    SpanOf(t[i]);
    TilingWithin(t, lo, hi);
    PlaceBetween(Spans(t[..i], false), t[i].ToSpan(), Spans(t[i + 1..], false), k);
  }

  /** What a page needs to know about its tiles after an allocation. */
  lemma AllocKeeps(t: seq<Tile>, lo: nat, hi: nat, i: nat, newSize: nat, align: nat, used: seq<Span>)
    requires Tiling(t, lo, hi) && Coalesced(t) && i < |t| && !t[i].used && 0 < newSize <= t[i].size && align > 0
    requires multiset(used) == multiset(Spans(t, true))
    ensures Tiling(AllocAt(t, i, newSize, align), lo, hi) && Coalesced(AllocAt(t, i, newSize, align))
    ensures var given := InsertAt(used, 0, Span(t[i].addr, Given(t[i].size, newSize, align)));
            multiset(given) == multiset(Spans(AllocAt(t, i, newSize, align), true))
  {
    hide AllocAt, Spans;
    AllocTiling(t, lo, hi, i, newSize, align);
    AllocCoalesced(t, i, newSize, align);
    AllocUsedMultiset(t, i, newSize, align);
    InsertedMultiset(used, 0, Span(t[i].addr, Given(t[i].size, newSize, align)));
  }

  lemma FirstTile(addr: nat, size: nat)
    requires size > 0
    ensures var t := [Tile(addr, size, false)];
            && Tiling(t, addr, addr + size) && Coalesced(t)
            && Spans(t, false) == [Span(addr, size)] && Spans(t, true) == []
  {
    ShortTiles([Tile(addr, size, false)], addr, addr + size, true);
    ShortTiles([Tile(addr, size, false)], addr, addr + size, false);
  }

  class Page {
    var next: Page?
    var addr: nat
    var size: nat
    var blockAlign: nat
    var usedList: Block?
    var freeSList: Block?
    var freeMList: Block?

    /** The nodes of the used list, the free list by size and the free list by address, in order. */
    ghost var U: seq<Block>
    ghost var S: seq<Block>
    ghost var M: seq<Block>
    ghost var free: seq<Span>
    ghost var used: seq<Span>
    ghost var tiles: seq<Tile>

    /** Unlinks block k. */
    method LinkOutM(block: Block, ghost k: nat)
      requires Distinct(M) && NextsM(M) && PrevsM(M) && k < |M| && M[k] == block && freeMList == M[0]
      modifies this`freeMList, M`nextFreeM, M`prevFreeM
      ensures NextsM(RemoveAt(M, k)) && PrevsM(RemoveAt(M, k))
      ensures freeMList == (var r := RemoveAt(M, k); if r == [] then null else r[0])
      ensures block.nextFreeM == null && block.prevFreeM == null
    {
      hide RemoveAt, Distinct;
      Around(M, k);
      if block.prevFreeM != null {
        block.prevFreeM.nextFreeM := block.nextFreeM;
      } else {
        freeMList := block.nextFreeM;
      }
      if block.nextFreeM != null {
        block.nextFreeM.prevFreeM := block.prevFreeM;
      }
      block.nextFreeM := null;
      block.prevFreeM := null;
      RemovedM(M, k);
    }

    method RemoveFreeMList(block: Block, ghost k: nat)
      requires LinkedM(freeMList, M)
      requires k < |M| && M[k] == block
      modifies this`freeMList, this`M, M`nextFreeM, M`prevFreeM
      ensures LinkedM(freeMList, M)
      ensures M == RemoveAt(old(M), k)
      ensures block.nextFreeM == null && block.prevFreeM == null
    {
      hide *;
      PartsM(freeMList, M);
      LinkOutM(block, k);
      RemovedDistinct(M, k);
      M := RemoveAt(M, k);
      WholeM(freeMList, M);
    }

    /** The walk of InsertFreeMList: where a block with this addr goes. */
    method SeekFreeMList(limit: nat) returns (prevBlock: Block?, currBlock: Block?, ghost k: nat)
      requires LinkedM(freeMList, M)
      ensures k <= |M|
      ensures currBlock == if k < |M| then M[k] else null
      ensures prevBlock == if 0 < k then M[k - 1] else null
      ensures forall j :: 0 <= j < k ==> M[j].addr < limit
      ensures k < |M| ==> !(M[k].addr < limit)
    {
      currBlock := freeMList;
      prevBlock := null;
      k := 0;
      while currBlock != null && currBlock.addr < limit
        invariant 0 <= k <= |M|
        invariant currBlock == if k < |M| then M[k] else null
        invariant prevBlock == if 0 < k then M[k - 1] else null
        invariant forall j :: 0 <= j < k ==> M[j].addr < limit
        decreases |M| - k
      {
        prevBlock := currBlock;
        currBlock := currBlock.nextFreeM;
        k := k + 1;
      }
    }

    /** Links a block in before currBlock. */
    method LinkInM(prevBlock: Block?, currBlock: Block?, block: Block, ghost k: nat)
      requires Distinct(M) && NextsM(M) && PrevsM(M) && block !in M && k <= |M|
      requires freeMList == if M == [] then null else M[0]
      requires currBlock == if k < |M| then M[k] else null
      requires prevBlock == if 0 < k then M[k - 1] else null
      modifies this`freeMList, M`nextFreeM, M`prevFreeM, block`nextFreeM, block`prevFreeM
      ensures NextsM(InsertAt(M, k, block)) && PrevsM(InsertAt(M, k, block))
      ensures freeMList == InsertAt(M, k, block)[0]
    {
      hide InsertAt, Distinct;
      Around(M, k);
      block.nextFreeM := currBlock;
      block.prevFreeM := prevBlock;
      if prevBlock != null {
        prevBlock.nextFreeM := block;
      } else {
        freeMList := block;
      }
      if currBlock != null {
        currBlock.prevFreeM := block;
      }
      InsertedM(M, k, block);
    }

    method InsertFreeMList(block: Block) returns (ghost k: nat)
      requires LinkedM(freeMList, M)
      requires block !in M
      modifies this`freeMList, this`M, M`nextFreeM, M`prevFreeM, block`nextFreeM, block`prevFreeM
      ensures LinkedM(freeMList, M)
      ensures k <= |old(M)| && M == InsertAt(old(M), k, block)
      ensures forall j :: 0 <= j < k ==> old(M)[j].addr < block.addr
      ensures k < |old(M)| ==> !(old(M)[k].addr < block.addr)
    {
      hide *;
      PartsM(freeMList, M);
      var prevBlock, currBlock;
      prevBlock, currBlock, k := SeekFreeMList(block.addr);
      LinkInM(prevBlock, currBlock, block, k);
      InsertedDistinct(M, k, block);
      M := InsertAt(M, k, block);
      WholeM(freeMList, M);
    }

    /** Unlinks block k. */
    method LinkOutS(block: Block, ghost k: nat)
      requires Distinct(S) && NextsS(S) && PrevsS(S) && k < |S| && S[k] == block && freeSList == S[0]
      modifies this`freeSList, S`nextFreeS, S`prevFreeS
      ensures NextsS(RemoveAt(S, k)) && PrevsS(RemoveAt(S, k))
      ensures freeSList == (var r := RemoveAt(S, k); if r == [] then null else r[0])
      ensures block.nextFreeS == null && block.prevFreeS == null
    {
      hide RemoveAt, Distinct;
      Around(S, k);
      if block.prevFreeS != null {
        block.prevFreeS.nextFreeS := block.nextFreeS;
      } else {
        freeSList := block.nextFreeS;
      }
      if block.nextFreeS != null {
        block.nextFreeS.prevFreeS := block.prevFreeS;
      }
      block.nextFreeS := null;
      block.prevFreeS := null;
      RemovedS(S, k);
    }

    method RemoveFreeSList(block: Block, ghost k: nat)
      requires LinkedS(freeSList, S)
      requires k < |S| && S[k] == block
      modifies this`freeSList, this`S, S`nextFreeS, S`prevFreeS
      ensures LinkedS(freeSList, S)
      ensures S == RemoveAt(old(S), k)
      ensures block.nextFreeS == null && block.prevFreeS == null
    {
      hide *;
      PartsS(freeSList, S);
      LinkOutS(block, k);
      RemovedDistinct(S, k);
      S := RemoveAt(S, k);
      WholeS(freeSList, S);
    }

    /** The walk of InsertFreeSList: where a block with this size goes. */
    method SeekFreeSList(limit: nat) returns (prevBlock: Block?, currBlock: Block?, ghost k: nat)
      requires LinkedS(freeSList, S)
      ensures k <= |S|
      ensures currBlock == if k < |S| then S[k] else null
      ensures prevBlock == if 0 < k then S[k - 1] else null
      ensures forall j :: 0 <= j < k ==> S[j].size > limit
      ensures k < |S| ==> !(S[k].size > limit)
    {
      currBlock := freeSList;
      prevBlock := null;
      k := 0;
      while currBlock != null && currBlock.size > limit
        invariant 0 <= k <= |S|
        invariant currBlock == if k < |S| then S[k] else null
        invariant prevBlock == if 0 < k then S[k - 1] else null
        invariant forall j :: 0 <= j < k ==> S[j].size > limit
        decreases |S| - k
      {
        prevBlock := currBlock;
        currBlock := currBlock.nextFreeS;
        k := k + 1;
      }
    }

    /** Links a block in before currBlock. */
    method LinkInS(prevBlock: Block?, currBlock: Block?, block: Block, ghost k: nat)
      requires Distinct(S) && NextsS(S) && PrevsS(S) && block !in S && k <= |S|
      requires freeSList == if S == [] then null else S[0]
      requires currBlock == if k < |S| then S[k] else null
      requires prevBlock == if 0 < k then S[k - 1] else null
      modifies this`freeSList, S`nextFreeS, S`prevFreeS, block`nextFreeS, block`prevFreeS
      ensures NextsS(InsertAt(S, k, block)) && PrevsS(InsertAt(S, k, block))
      ensures freeSList == InsertAt(S, k, block)[0]
    {
      hide InsertAt, Distinct;
      Around(S, k);
      block.nextFreeS := currBlock;
      block.prevFreeS := prevBlock;
      if prevBlock != null {
        prevBlock.nextFreeS := block;
      } else {
        freeSList := block;
      }
      if currBlock != null {
        currBlock.prevFreeS := block;
      }
      InsertedS(S, k, block);
    }

    method InsertFreeSList(block: Block) returns (ghost k: nat)
      requires LinkedS(freeSList, S)
      requires block !in S
      modifies this`freeSList, this`S, S`nextFreeS, S`prevFreeS, block`nextFreeS, block`prevFreeS
      ensures LinkedS(freeSList, S)
      ensures k <= |old(S)| && S == InsertAt(old(S), k, block)
      ensures forall j :: 0 <= j < k ==> old(S)[j].size > block.size
      ensures k < |old(S)| ==> !(old(S)[k].size > block.size)
    {
      hide *;
      PartsS(freeSList, S);
      var prevBlock, currBlock;
      prevBlock, currBlock, k := SeekFreeSList(block.size);
      LinkInS(prevBlock, currBlock, block, k);
      InsertedDistinct(S, k, block);
      S := InsertAt(S, k, block);
      WholeS(freeSList, S);
    }

    /** Unlinks block k. */
    method LinkOutU(block: Block, ghost k: nat)
      requires Distinct(U) && NextsU(U) && PrevsU(U) && k < |U| && U[k] == block && usedList == U[0]
      modifies this`usedList, U`nextUsed, U`prevUsed
      ensures NextsU(RemoveAt(U, k)) && PrevsU(RemoveAt(U, k))
      ensures usedList == (var r := RemoveAt(U, k); if r == [] then null else r[0])
      ensures block.nextUsed == null && block.prevUsed == null
    {
      hide RemoveAt, Distinct;
      Around(U, k);
      if block.prevUsed != null {
        block.prevUsed.nextUsed := block.nextUsed;
      } else {
        usedList := block.nextUsed;
      }
      if block.nextUsed != null {
        block.nextUsed.prevUsed := block.prevUsed;
      }
      block.nextUsed := null;
      block.prevUsed := null;
      RemovedU(U, k);
    }

    method RemoveUsedList(block: Block, ghost k: nat)
      requires LinkedU(usedList, U)
      requires k < |U| && U[k] == block
      modifies this`usedList, this`U, U`nextUsed, U`prevUsed
      ensures LinkedU(usedList, U)
      ensures U == RemoveAt(old(U), k)
      ensures block.nextUsed == null && block.prevUsed == null
    {
      hide *;
      PartsU(usedList, U);
      LinkOutU(block, k);
      RemovedDistinct(U, k);
      U := RemoveAt(U, k);
      WholeU(usedList, U);
    }

    method InsertUsedList(block: Block)
      requires LinkedU(usedList, U)
      requires block !in U && block.prevUsed == null
      modifies this`usedList, this`U, U`prevUsed, block`nextUsed
      ensures LinkedU(usedList, U)
      ensures U == InsertAt(old(U), 0, block)
    {
      Around(U, 0);
      block.nextUsed := usedList;
      if usedList != null {
        usedList.prevUsed := block;
      }
      usedList := block;
      InsertedU(U, 0, block);
      InsertedDistinct(U, 0, block);
      U := InsertAt(U, 0, block);
    }

    // ---- The three lists together ----

    /** The lists are well linked; the S-list holds the blocks of the M-list other than hole. */
    ghost predicate Linked(hole: Block?)
      reads this`freeMList, this`M, this`freeSList, this`S, this`usedList, this`U, M, S, U
    {
      && Members(M, S, U, hole)
      && LinkedM(freeMList, M) && LinkedS(freeSList, S) && LinkedU(usedList, U)
      && NotUsed(M) && BySize(S)
    }

    lemma Parts(hole: Block?)
      requires Linked(hole)
      ensures Members(M, S, U, hole) && LinkedM(freeMList, M) && LinkedS(freeSList, S) && LinkedU(usedList, U)
      ensures NotUsed(M) && BySize(S) && Distinct(M) && Distinct(S) && Distinct(U)
    {
    }

    lemma Whole(hole: Block?)
      requires Members(M, S, U, hole) && LinkedM(freeMList, M) && LinkedS(freeSList, S) && LinkedU(usedList, U)
      requires NotUsed(M) && BySize(S)
      ensures Linked(hole)
    {
    }

    /** What block k of the M-list leaves behind in the lists. */
    lemma WithoutFree(k: nat) returns (j: nat)
      requires Linked(null) && k < |M|
      ensures j < |S| && S[j] == M[k] && Members(RemoveAt(M, k), RemoveAt(S, j), U, null)
      ensures NotUsed(RemoveAt(M, k)) && BySize(RemoveAt(S, j))
      ensures M[k] !in RemoveAt(M, k) && M[k] !in RemoveAt(S, j) && M[k] !in U && M[k].prevUsed == null
    {
      hide LinkedM, LinkedS, LinkedU;
      Parts(null);
      j := IndexIn(M, S, U, k);
      MembersTaken(M, S, U, k, j);
      RemovedBySize(S, j);
      assert M[k] in M;
    }

    /** The ghost spans are those of the blocks. */
    ghost predicate Shown()
      reads this`M, this`free, this`U, this`used, M`addr, M`size, U`addr, U`size
    {
      Shows(M, free) && Shows(U, used)
    }

    lemma ShownBoth()
      requires Shown()
      ensures Shows(M, free) && Shows(U, used)
    {
    }

    lemma ShownTogether()
      requires Shows(M, free) && Shows(U, used)
      ensures Shown()
    {
    }

    lemma SizedInM()
      requires Linked(null)
      ensures forall b :: b in S ==> b in M
    {
    }

    lemma ShownAt(k: nat)
      requires Shown() && k < |M|
      ensures k < |free| && free[k] == Span(M[k].addr, M[k].size)
    {
    }

    /** The tile of block k of the M-list. */
    lemma FreeTileAt(k: nat) returns (i: nat)
      requires Shown() && k < |M| && free == Spans(tiles, false)
      ensures i < |tiles| && tiles[i] == Tile(M[k].addr, M[k].size, false) && |Spans(tiles[..i], false)| == k
    {
      ShownAt(k);
      i := NthSpan(tiles, false, k);
    }

    /** Unlinks a free block from both free lists. */
    method TakeFree(block: Block, ghost k: nat) returns (ghost j: nat)
      requires Linked(null) && k < |M| && M[k] == block
      modifies this`freeMList, this`M, M`nextFreeM, M`prevFreeM
      modifies this`freeSList, this`S, S`nextFreeS, S`prevFreeS
      ensures Linked(null) && M == RemoveAt(old(M), k) && block !in M
      ensures block !in S && block !in U && block.prevUsed == null
      ensures j < |old(S)| && S == RemoveAt(old(S), j)
    {
      hide *;
      Parts(null);
      j := WithoutFree(k);
      RemoveFreeMList(block, k);
      RemoveFreeSList(block, j);
      Whole(null);
    }

    /** Links a block into both free lists. */
    method AddFree(block: Block) returns (ghost k: nat)
      requires Linked(null) && block !in M && block !in U && block.prevUsed == null
      modifies this`freeMList, this`M, M`nextFreeM, M`prevFreeM, block`nextFreeM, block`prevFreeM
      modifies this`freeSList, this`S, S`nextFreeS, S`prevFreeS, block`nextFreeS, block`prevFreeS
      ensures Linked(null) && k <= |old(M)| && M == InsertAt(old(M), k, block)
      ensures forall j :: 0 <= j < k ==> old(M)[j].addr < block.addr
      ensures k < |old(M)| ==> block.addr <= old(M)[k].addr
    {
      k := AddToM(block);
      AddSized(block);
    }

    /** Adds to the S-list the one block of the M-list that is missing there. */
    method AddSized(block: Block)
      requires Linked(block) && block in M
      modifies this`freeSList, this`S, S`nextFreeS, S`prevFreeS, block`nextFreeS, block`prevFreeS
      ensures Linked(null)
    {
      ghost var s := S;
      ghost var j := InsertFreeSList(block);
      InsertedMembers(s, j, block);
      InsertedBySize(s, j, block);
    }

    /** Links a detached block into the used list. */
    method AddUsed(block: Block)
      requires Linked(null) && block !in M && block !in U && block.prevUsed == null
      modifies this`usedList, this`U, U`prevUsed, block`nextUsed
      ensures Linked(null) && U == InsertAt(old(U), 0, block)
    {
      InsertedMembers(U, 0, block);
      InsertUsedList(block);
    }

    ghost function Blocks(): set<Block>
      reads this`M, this`S, this`U
    {
      (set b | b in M) + (set b | b in S) + (set b | b in U)
    }

    // ---- Allocation ----

    /** Links the lists to the tiles of the page. */
    ghost predicate Valid()
      reads this`freeMList, this`M, this`free, this`freeSList, this`S, this`usedList, this`U, this`used, this`tiles
      reads this`addr, this`size, this`blockAlign, M, S, U
    {
      && Linked(null) && Shown()
      && size > 0 && blockAlign > 0
      && Tiling(tiles, addr, addr + size) && Coalesced(tiles)
      && free == Spans(tiles, false)
      && multiset(used) == multiset(Spans(tiles, true))
    }

    lemma Opened()
      requires Valid()
      ensures Linked(null) && Shown() && size > 0 && blockAlign > 0 && Tiling(tiles, addr, addr + size) && Coalesced(tiles)
      ensures free == Spans(tiles, false) && multiset(used) == multiset(Spans(tiles, true))
    {
    }

    lemma Closed()
      requires Linked(null) && Shown() && size > 0 && blockAlign > 0 && Tiling(tiles, addr, addr + size) && Coalesced(tiles)
      requires free == Spans(tiles, false) && multiset(used) == multiset(Spans(tiles, true))
      ensures Valid()
    {
    }

    /** Cuts a detached block down to size and gives the rest back to the free lists. */
    method SplitBlock(freeBlock: Block, newSize: nat) returns (newBlock: Block, ghost k: nat)
      requires Linked(null) && Shown() && freeBlock !in M && freeBlock !in S && freeBlock !in U && 0 < newSize < freeBlock.size
      modifies this`freeMList, this`M, M`nextFreeM, M`prevFreeM, this`free
      modifies this`freeSList, this`S, S`nextFreeS, S`prevFreeS, freeBlock`size
      ensures Linked(null) && Shown() && fresh(newBlock)
      ensures newBlock.addr == freeBlock.addr + newSize && newBlock.size == old(freeBlock.size) - newSize
      ensures freeBlock.size == newSize
      ensures PlacedAt(k, old(free), newBlock.addr)
      ensures free == InsertAt(old(free), k, Span(newBlock.addr, newBlock.size))
      ensures M == InsertAt(old(M), k, newBlock)
    {
      hide *;
      ShownBoth();
      var extraBytes := freeBlock.size - newSize;
      freeBlock.size := newSize;
      var nextAddr := freeBlock.addr + newSize;
      newBlock := new Block(nextAddr, extraBytes);
      k := AddFree(newBlock);
      PlacedIn(old(M), free, k, newBlock.addr);
      ShowsInserted(old(M), free, k, newBlock);
      free := InsertAt(free, k, Span(newBlock.addr, newBlock.size));
      ShownTogether();
    }

    /** Takes a block off the free lists, cut down to the requested size when enough is left over. */
    method Carve(newSize: nat, freeBlock: Block, ghost k: nat)
      requires Linked(null) && Shown() && k < |M| && M[k] == freeBlock && 0 < newSize <= freeBlock.size && blockAlign > 0
      requires Between(free, k, freeBlock.addr, freeBlock.addr + freeBlock.size)
      modifies this`freeMList, this`M, M`nextFreeM, M`prevFreeM, this`free
      modifies this`freeSList, this`S, S`nextFreeS, S`prevFreeS, freeBlock`size
      ensures Linked(null) && Shown() && freeBlock !in M && freeBlock !in U && freeBlock.prevUsed == null
      ensures freeBlock.size == Given(old(freeBlock.size), newSize, blockAlign)
      ensures free == Carved(old(free), k, newSize, blockAlign)
      ensures forall b :: b in M ==> b in old(M) || fresh(b)
    {
      hide *;
      ghost var v := free;
      ShownBoth();
      ShowsRemoved(M, free, k);
      CarvedIs(free, k, freeBlock.addr, freeBlock.addr + freeBlock.size, newSize, blockAlign);
      ghost var j := TakeFree(freeBlock, k);
      free := RemoveAt(free, k);
      ShownTogether();
      var extraBytes := freeBlock.size - newSize;
      if extraBytes >= blockAlign {
        var newBlock;
        ghost var k';
        newBlock, k' := SplitBlock(freeBlock, newSize);
        PlaceAfterRemoval(v, k, k', freeBlock.addr, freeBlock.addr + extraBytes + newSize, newBlock.addr);
      }
    }

    /** Moves a block, cut down to size, from the free lists to the used list. */
    method GiveOut(newSize: nat, freeBlock: Block, ghost k: nat)
      requires Linked(null) && Shown() && k < |M| && M[k] == freeBlock && 0 < newSize <= freeBlock.size && blockAlign > 0
      requires Between(free, k, freeBlock.addr, freeBlock.addr + freeBlock.size)
      modifies this`freeMList, this`M, M`nextFreeM, M`prevFreeM, this`free
      modifies this`freeSList, this`S, S`nextFreeS, S`prevFreeS
      modifies this`usedList, this`U, U`prevUsed, freeBlock`nextUsed, freeBlock`size, this`used
      ensures Linked(null) && Shown() && U == InsertAt(old(U), 0, freeBlock)
      ensures used == InsertAt(old(used), 0, Span(freeBlock.addr, Given(old(freeBlock.size), newSize, blockAlign)))
      ensures free == Carved(old(free), k, newSize, blockAlign)
      ensures forall b :: b in M ==> b in old(M) || fresh(b)
    {
      hide *;
      Carve(newSize, freeBlock, k);
      ShownBoth();
      AddUsed(freeBlock);
      ShowsInserted(old(U), used, 0, freeBlock);
      used := InsertAt(used, 0, Span(freeBlock.addr, freeBlock.size));
      ShownTogether();
    }

    method Allocate(newSize: nat, freeBlock: Block) returns (ghost i: nat)
      requires Valid() && freeBlock in M && 0 < newSize <= freeBlock.size
      modifies this`freeMList, this`M, M`nextFreeM, M`prevFreeM, this`free
      modifies this`freeSList, this`S, S`nextFreeS, S`prevFreeS
      modifies this`usedList, this`U, U`prevUsed, freeBlock`nextUsed, freeBlock`size, this`used, this`tiles
      ensures Valid() && U == InsertAt(old(U), 0, freeBlock) && freeBlock.addr == old(freeBlock.addr)
      ensures i < |old(tiles)| && old(tiles)[i] == Tile(freeBlock.addr, old(freeBlock.size), false)
      ensures tiles == AllocAt(old(tiles), i, newSize, blockAlign)
      ensures forall b :: b in M ==> b in old(M) || fresh(b)
      ensures forall b :: b in S ==> b in M
    {
      hide *;
      Opened();
      ghost var k :| 0 <= k < |M| && M[k] == freeBlock;
      i := FreeTileAt(k);
      AllocFree(tiles, addr, addr + size, i, newSize, blockAlign);
      AllocKeeps(tiles, addr, addr + size, i, newSize, blockAlign, used);
      GiveOut(newSize, freeBlock, k);
      SizedInM();
      tiles := AllocAt(tiles, i, newSize, blockAlign);
      Closed();
    }

    // ---- Release ----

    /** Unlinks a block from the used list. */
    method TakeUsed(block: Block, ghost k: nat)
      requires Linked(null) && k < |U| && U[k] == block
      modifies this`usedList, this`U, U`prevUsed, U`nextUsed
      ensures Linked(null) && U == RemoveAt(old(U), k)
      ensures block !in M && block !in S && block !in U && block.prevUsed == null
    {
      RemovedMembers(U, k);
      RemoveUsedList(block, k);
    }

    /** Takes the block at position k of the M-list out of it; the block itself is given up. */
    method UnlinkM(prevBlock: Block, block: Block, ghost k: nat)
      requires LinkedM(freeMList, M) && 0 < k < |M| && M[k - 1] == prevBlock && M[k] == block
      modifies this`M, M`nextFreeM, M`prevFreeM
      ensures LinkedM(freeMList, M) && M == RemoveAt(old(M), k)
    {
      Around(M, k);
      prevBlock.nextFreeM := block.nextFreeM;
      if prevBlock.nextFreeM != null {
        prevBlock.nextFreeM.prevFreeM := prevBlock;
      }
      RemovedM(M, k);
      RemovedDistinct(M, k);
      M := RemoveAt(M, k);
    }

    /** What a merge leaves, once the M-list loses the block at g and the S-list the block at j. */
    ghost predicate Merging(g: nat, j: nat, hole: Block)
      requires g < |M| && j < |S|
      reads this`M, this`S, this`U, M`prevUsed, S`size
    {
      && Members(RemoveAt(M, g), RemoveAt(S, j), U, hole) && hole !in RemoveAt(S, j)
      && NotUsed(RemoveAt(M, g)) && BySize(RemoveAt(S, j))
    }

    lemma MergingLeft(k: nat) returns (j: nat)
      requires 0 < k < |M| && Linked(M[k])
      ensures j < |S| && S[j] == M[k - 1] && Merging(k, j, M[k - 1]) && M[k - 1] != M[k]
    {
      ApartFrom(M, k);
      assert M[k - 1] in M;
      j :| 0 <= j < |S| && S[j] == M[k - 1];
      MembersMergedLeft(M, S, U, k, j);
      RemovedMembers(M, k);
      RemovedBySize(S, j);
    }

    lemma MergingRight(k: nat) returns (j: nat)
      requires k + 1 < |M| && Linked(M[k])
      ensures j < |S| && S[j] == M[k + 1] && Merging(k + 1, j, M[k]) && M[k + 1] != M[k]
    {
      ApartFrom(M, k);
      assert M[k + 1] in M;
      j :| 0 <= j < |S| && S[j] == M[k + 1];
      MembersMergedRight(M, S, U, k, j);
      RemovedMembers(M, k + 1);
      RemovedBySize(S, j);
    }

    /** Merges a block that is not in the S-list into the block before it, which leaves the S-list. */
    method MergeLeft(prevBlock: Block, block: Block, ghost k: nat)
      requires 0 < k < |M| && M[k - 1] == prevBlock && M[k] == block && Linked(block)
      modifies this`M, M`nextFreeM, M`prevFreeM, prevBlock`size
      modifies this`freeSList, this`S, S`nextFreeS, S`prevFreeS
      ensures Linked(prevBlock) && M == RemoveAt(old(M), k)
      ensures prevBlock.size == old(prevBlock.size) + block.size
      ensures exists j :: 0 <= j < |old(S)| && S == RemoveAt(old(S), j)
    {
      hide LinkedM, LinkedS, LinkedU, Members, NotUsed, BySize, RemoveAt;
      ghost var j := MergingLeft(k);
      prevBlock.size := prevBlock.size + block.size;
      UnlinkM(prevBlock, block, k);
      RemoveFreeSList(prevBlock, j);
    }

    /** Merges the block after it into a block that is not in the S-list. */
    method MergeRight(block: Block, nextBlock: Block, ghost k: nat)
      requires k + 1 < |M| && M[k] == block && M[k + 1] == nextBlock && Linked(block)
      modifies this`M, M`nextFreeM, M`prevFreeM, block`size
      modifies this`freeSList, this`S, S`nextFreeS, S`prevFreeS
      ensures Linked(block) && M == RemoveAt(old(M), k + 1)
      ensures block.size == old(block.size) + nextBlock.size
      ensures exists j :: 0 <= j < |old(S)| && S == RemoveAt(old(S), j)
    {
      hide LinkedM, LinkedS, LinkedU, Members, NotUsed, BySize, RemoveAt;
      ghost var j := MergingRight(k);
      block.size := block.size + nextBlock.size;
      UnlinkM(block, nextBlock, k + 1);
      RemoveFreeSList(nextBlock, j);
    }

    lemma NeighboursM(k: nat, hole: Block?)
      requires Linked(hole) && k < |M|
      ensures M[k].prevFreeM == if 0 < k then M[k - 1] else null
      ensures M[k].nextFreeM == if k + 1 < |M| then M[k + 1] else null
    {
    }

    /** Block k of the M-list is at no other place. */
    lemma AloneM(k: nat, hole: Block?)
      requires Linked(hole) && k < |M|
      ensures M[k] !in U
      ensures forall i {:trigger M[i]} :: 0 <= i < |M| && i != k ==> M[i] != M[k]
    {
      ApartFrom(M, k);
      assert M[k] in M;
    }

    /** The spans of the M-list after its block k grew by block k + 1, which is gone. */
    lemma ShownMerged(m: seq<Block>, v: seq<Span>, k: nat)
      requires |v| == |m| && k + 1 < |m|
      requires m[k].addr == v[k].addr && m[k].size == v[k].size + v[k + 1].size
      requires forall i {:trigger m[i]} :: 0 <= i < |m| && i != k ==> v[i] == Span(m[i].addr, m[i].size)
      ensures Shows(RemoveAt(m, k + 1), Merge(v, k))
    {
    }

    method JoinLeft(prevBlock: Block, block: Block, ghost k: nat)
      requires Linked(block) && Shown() && 0 < k < |M| && M[k - 1] == prevBlock && M[k] == block
      modifies this`M, M`nextFreeM, M`prevFreeM, prevBlock`size, this`free
      modifies this`freeSList, this`S, S`nextFreeS, S`prevFreeS
      ensures Linked(prevBlock) && Shown() && M == RemoveAt(old(M), k) && free == Merge(old(free), k - 1)
      ensures exists j :: 0 <= j < |old(S)| && S == RemoveAt(old(S), j)
    {
      hide Linked;
      ghost var m := M;
      AloneM(k - 1, block);
      MergeLeft(prevBlock, block, k);
      ShownMerged(m, free, k - 1);
      free := Merge(free, k - 1);
    }

    method JoinRight(block: Block, nextBlock: Block, ghost k: nat)
      requires Linked(block) && Shown() && k + 1 < |M| && M[k] == block && M[k + 1] == nextBlock
      modifies this`M, M`nextFreeM, M`prevFreeM, block`size, this`free
      modifies this`freeSList, this`S, S`nextFreeS, S`prevFreeS
      ensures Linked(block) && Shown() && M == RemoveAt(old(M), k + 1) && free == Merge(old(free), k)
      ensures exists j :: 0 <= j < |old(S)| && S == RemoveAt(old(S), j)
    {
      hide Linked;
      ghost var m := M;
      AloneM(k, block);
      MergeRight(block, nextBlock, k);
      ShownMerged(m, free, k);
      free := Merge(free, k);
    }

    /** Merges a free block with the one before it when the two touch. */
    method CoalesceLeft(block: Block, ghost k: nat) returns (usedBlock: Block, ghost k1: nat)
      requires Linked(block) && Shown() && k < |M| && M[k] == block
      modifies this`M, M`nextFreeM, M`prevFreeM, this`free, M`size
      modifies this`freeSList, this`S, S`nextFreeS, S`prevFreeS
      ensures k1 < |M| && M[k1] == usedBlock && Linked(usedBlock) && Shown()
      ensures (free, k1) == MergeBefore(old(free), k)
      ensures M == old(M) || M == RemoveAt(old(M), k)
      ensures S == old(S) || exists j :: 0 <= j < |old(S)| && S == RemoveAt(old(S), j)
    {
      hide Linked, Merge;
      usedBlock, k1 := block, k;
      NeighboursM(k, block);
      if usedBlock.prevFreeM != null {
        var prevAddr := usedBlock.prevFreeM.addr + usedBlock.prevFreeM.size;
        if usedBlock.addr == prevAddr {
          var prevBlock := usedBlock.prevFreeM;
          JoinLeft(prevBlock, usedBlock, k);
          k1 := k - 1;
          usedBlock := prevBlock;
        }
      }
    }

    /** Merges a free block with the one after it when the two touch. */
    method CoalesceRight(usedBlock: Block, ghost k: nat)
      requires Linked(usedBlock) && Shown() && k < |M| && M[k] == usedBlock
      modifies this`M, M`nextFreeM, M`prevFreeM, this`free, M`size
      modifies this`freeSList, this`S, S`nextFreeS, S`prevFreeS
      ensures k < |M| && M[k] == usedBlock && Linked(usedBlock) && Shown() && free == MergeAfter(old(free), k)
      ensures M == old(M) || (k + 1 < |old(M)| && M == RemoveAt(old(M), k + 1))
      ensures S == old(S) || exists j :: 0 <= j < |old(S)| && S == RemoveAt(old(S), j)
    {
      hide Linked, Merge;
      NeighboursM(k, usedBlock);
      if usedBlock.nextFreeM != null {
        var nextAddr := usedBlock.addr + usedBlock.size;
        if usedBlock.nextFreeM.addr == nextAddr {
          var nextBlock := usedBlock.nextFreeM;
          JoinRight(usedBlock, nextBlock, k);
        }
      }
    }

    /** Unlinks a used block and links it into the M-list, where it joins its free neighbours. */
    method TakeBack(block: Block, ghost ku: nat) returns (ghost k: nat)
      requires Linked(null) && Shown() && ku < |U| && U[ku] == block
      modifies this`usedList, this`U, U`prevUsed, U`nextUsed, this`used
      modifies this`freeMList, this`M, M`nextFreeM, M`prevFreeM, block`nextFreeM, block`prevFreeM, this`free
      ensures Linked(block) && Shown() && k < |M| && M[k] == block && k <= |old(M)| && M == InsertAt(old(M), k, block)
      ensures U == RemoveAt(old(U), ku) && used == RemoveAt(old(used), ku)
      ensures PlacedAt(k, old(free), block.addr) && free == InsertAt(old(free), k, Span(block.addr, block.size))
    {
      hide *;
      ShownBoth();
      ShowsRemoved(U, used, ku);
      TakeUsed(block, ku);
      used := RemoveAt(used, ku);
      k := AddToM(block);
      PlacedIn(old(M), free, k, block.addr);
      ShowsInserted(old(M), free, k, block);
      free := InsertAt(free, k, Span(block.addr, block.size));
      ShownTogether();
    }

    method AddToM(block: Block) returns (ghost k: nat)
      requires Linked(null) && block !in M && block !in U && block.prevUsed == null
      modifies this`freeMList, this`M, M`nextFreeM, M`prevFreeM, block`nextFreeM, block`prevFreeM
      ensures Linked(block) && k <= |old(M)| && M == InsertAt(old(M), k, block)
      ensures forall j :: 0 <= j < k ==> old(M)[j].addr < block.addr
      ensures k < |old(M)| ==> block.addr <= old(M)[k].addr
    {
      k := InsertFreeMList(block);
      MembersAdded(old(M), S, U, k, block);
    }

    /** Joins a block that is only in the M-list with its free neighbours and puts it in the S-list. */
    method Rejoin(usedBlock: Block, ghost k: nat)
      requires Linked(usedBlock) && Shown() && k < |M| && M[k] == usedBlock
      modifies this`M, M`nextFreeM, M`prevFreeM, this`free, M`size
      modifies this`freeSList, this`S, S`nextFreeS, S`prevFreeS, M`nextFreeS, M`prevFreeS
      ensures Linked(null) && Shown() && free == Coalesce(old(free), k)
      ensures forall b :: b in M ==> b in old(M)
    {
      hide *;
      ghost var k1;
      var block;
      ShownAt(k);
      CoalesceIs(free, k);
      block, k1 := CoalesceLeft(usedBlock, k);
      RemovedWithin(old(M), k);
      if k1 + 1 < |M| { RemovedWithin(M, k1 + 1); }
      CoalesceRight(block, k1);
      AddSized(block);
    }

    /** Moves a block from the used list back to the free lists, joined with its free neighbours. */
    method GiveBack(usedBlock: Block, ghost ku: nat) returns (ghost k: nat)
      requires Linked(null) && Shown() && ku < |U| && U[ku] == usedBlock
      modifies this`usedList, this`U, U`prevUsed, U`nextUsed, this`used
      modifies this`freeMList, this`M, M`nextFreeM, M`prevFreeM, usedBlock`nextFreeM, usedBlock`prevFreeM, this`free
      modifies this`freeSList, this`S, S`nextFreeS, S`prevFreeS, usedBlock`nextFreeS, usedBlock`prevFreeS
      modifies M`size, usedBlock`size, M`nextFreeS, M`prevFreeS
      ensures Linked(null) && Shown() && U == RemoveAt(old(U), ku) && used == RemoveAt(old(used), ku)
      ensures PlacedAt(k, old(free), usedBlock.addr)
      ensures free == Coalesce(InsertAt(old(free), k, Span(usedBlock.addr, old(usedBlock.size))), k)
      ensures forall b :: b in M ==> b in old(M) || b == usedBlock
    {
      hide *;
      k := TakeBack(usedBlock, ku);
      InsertedMembers(old(M), k, usedBlock);
      Rejoin(usedBlock, k);
    }

    method Release(usedBlock: Block) returns (ghost i: nat)
      requires Valid() && usedBlock in U
      modifies this`usedList, this`U, U`prevUsed, U`nextUsed, this`used
      modifies this`freeMList, this`M, M`nextFreeM, M`prevFreeM, usedBlock`nextFreeM, usedBlock`prevFreeM, this`free
      modifies this`freeSList, this`S, S`nextFreeS, S`prevFreeS, usedBlock`nextFreeS, usedBlock`prevFreeS
      modifies M`size, usedBlock`size, M`nextFreeS, M`prevFreeS, this`tiles
      ensures Valid() && i < |old(tiles)| && old(tiles)[i] == Tile(usedBlock.addr, old(usedBlock.size), true)
      ensures tiles == FreeAt(old(tiles), i)
      ensures forall b :: b in M ==> b in old(M) || b == usedBlock
      ensures forall b :: b in U ==> b in old(U)
      ensures forall b :: b in S ==> b in M
    {
      hide *;
      Opened();
      ghost var ku :| 0 <= ku < |U| && U[ku] == usedBlock;
      UsedShownAt(ku);
      i := FreeKeeps(tiles, addr, addr + size, used, ku);
      ghost var k := GiveBack(usedBlock, ku);
      FreePlace(tiles, addr, addr + size, i, k);
      RemovedWithin(old(U), ku);
      SizedInM();
      tiles := FreeAt(tiles, i);
      Closed();
    }

    lemma RemovedWithin(s: seq<Block>, k: nat)
      requires k < |s|
      ensures forall b :: b in RemoveAt(s, k) ==> b in s
    {
    }

    lemma UsedShownAt(k: nat)
      requires Shown() && k < |U|
      ensures k < |used| && used[k] == Span(U[k].addr, U[k].size)
    {
    }

    // ---- Construction, lookup and destruction ----

    constructor (addr: nat, size: nat, blockAlign: nat)
      requires size > 0 && blockAlign > 0
      ensures Valid() && fresh(Blocks()) && next == null
      ensures this.addr == addr && this.size == size && this.blockAlign == blockAlign
      ensures tiles == [Tile(addr, size, false)]
    {
      hide *;
      var block := new Block(addr, size);
      next, this.addr, this.size, this.blockAlign := null, addr, size, blockAlign;
      usedList, freeSList, freeMList := null, block, block;
      U, S, M := [], [block], [block];
      free, used, tiles := [Span(addr, size)], [], [Tile(addr, size, false)];
      new;
      OneFree(block);
      FirstTile(addr, size);
      Closed();
    }

    lemma OneFree(block: Block)
      requires M == [block] && S == [block] && U == [] && usedList == null && freeSList == block && freeMList == block
      requires block.nextFreeS == null && block.prevFreeS == null && block.nextFreeM == null && block.prevFreeM == null
      requires block.prevUsed == null && free == [Span(block.addr, block.size)] && used == []
      ensures Linked(null) && Shown() && Blocks() == {block}
    {
    }

    method Empty() returns (r: bool)
      requires Valid()
      ensures r <==> Bytes(tiles, true) == 0
      ensures r <==> U == []
    {
      r := usedList == null;
      UsedBytes();
    }

    lemma UsedBytes()
      requires Valid()
      ensures U == [] <==> Bytes(tiles, true) == 0
    {
      TilingWithin(tiles, addr, addr + size);
      BytesZero(tiles, true);
      assert |multiset(used)| == |multiset(Spans(tiles, true))|;
    }

    /** The smallest free block that fits: the last of the S-list that is large enough. */
    method FindFreeBlock(newSize: nat) returns (freeBlock: Block?)
      requires Valid()
      ensures freeBlock == null <==> forall t :: t in tiles && !t.used ==> t.size < newSize
      ensures freeBlock != null ==> freeBlock in M && freeBlock.size >= newSize
      ensures freeBlock != null ==> forall t :: t in tiles && !t.used && t.size >= newSize ==> freeBlock.size <= t.size
    {
      hide LinkedM, LinkedU, Tiling, Coalesced, NotUsed;
      freeBlock := freeSList;
      if freeBlock != null {
        if freeBlock.size >= newSize {
          ghost var k: nat := 0;
          while freeBlock.nextFreeS != null && freeBlock.nextFreeS.size >= newSize
            invariant k < |S| && freeBlock == S[k] && freeBlock.size >= newSize
            decreases |S| - k
          {
            freeBlock := freeBlock.nextFreeS;
            k := k + 1;
          }
          FreeSizes(newSize, k);
          return;
        }
      }
      FreeTooSmall(newSize);
      freeBlock := null;
    }

    lemma FreeTileBlock(t: Tile) returns (j: nat)
      requires Valid() && t in tiles && !t.used
      ensures j < |S| && S[j].size == t.size && S[j].addr == t.addr
    {
      SpansMembers(tiles, false);
      assert t.ToSpan() in free;
      var i :| 0 <= i < |free| && free[i] == t.ToSpan();
      j := IndexIn(M, S, U, i);
    }

    lemma FreeSizes(newSize: nat, k: nat)
      requires Valid() && k < |S| && S[k].size >= newSize && (k + 1 < |S| ==> S[k + 1].size < newSize)
      ensures S[k] in M
      ensures forall t :: t in tiles && !t.used && t.size >= newSize ==> S[k].size <= t.size
      ensures exists t :: t in tiles && !t.used && t.size >= newSize
    {
      assert S[k] in M;
      var i :| 0 <= i < |M| && M[i] == S[k];
      SpansMembers(tiles, false);
      assert free[i] in free;
      assert Tile(M[i].addr, M[i].size, false) in tiles;
      forall t | t in tiles && !t.used && t.size >= newSize ensures S[k].size <= t.size {
        var j := FreeTileBlock(t);
      }
    }

    lemma FreeTooSmall(newSize: nat)
      requires Valid() && (freeSList != null ==> freeSList.size < newSize)
      ensures forall t :: t in tiles && !t.used ==> t.size < newSize
    {
      forall t | t in tiles && !t.used ensures t.size < newSize {
        var j := FreeTileBlock(t);
      }
    }

    method FindUsedBlock(a: nat) returns (useBlock: Block?)
      requires Valid()
      ensures useBlock == null <==> forall t :: t in tiles && t.used ==> t.addr != a
      ensures useBlock != null ==> useBlock in U && useBlock.addr == a
    {
      hide Valid, LinkedU;
      UsedTiles(a);
      useBlock := null;
      if a >= addr && a < addr + size {
        ghost var k;
        useBlock, k := WalkUsed(a);
      }
    }

    /** The walk of FindUsedBlock. */
    method WalkUsed(a: nat) returns (useBlock: Block?, ghost k: nat)
      requires LinkedU(usedList, U)
      ensures useBlock == null <==> forall j :: 0 <= j < |U| ==> U[j].addr != a
      ensures useBlock != null ==> k < |U| && useBlock == U[k] && useBlock.addr == a
    {
      useBlock := usedList;
      k := 0;
      while useBlock != null
        invariant k <= |U| && useBlock == if k < |U| then U[k] else null
        invariant forall j :: 0 <= j < k ==> U[j].addr != a
        decreases |U| - k
      {
        if useBlock.addr == a {
          return;
        }
        useBlock := useBlock.nextUsed;
        k := k + 1;
      }
    }

    /** A used tile at a is a block of the used list at a, and lies in the page. */
    lemma UsedTiles(a: nat)
      requires Valid()
      ensures LinkedU(usedList, U)
      ensures (forall k :: 0 <= k < |U| ==> U[k].addr != a) <==> (forall t :: t in tiles && t.used ==> t.addr != a)
      ensures !(addr <= a < addr + size) ==> forall t :: t in tiles && t.used ==> t.addr != a
    {
      hide LinkedM, LinkedS, LinkedU, Coalesced, NotUsed, BySize;
      TilingWithin(tiles, addr, addr + size);
      SpansMembers(tiles, true);
      forall k | 0 <= k < |U| ensures Tile(U[k].addr, U[k].size, true) in tiles {
        assert used[k] in multiset(used);
      }
      forall t | t in tiles && t.used ensures exists k :: 0 <= k < |U| && U[k].addr == t.addr {
        assert t.ToSpan() in multiset(Spans(tiles, true));
        assert t.ToSpan() in used;
      }
    }

    /** The page destructor: a page without used blocks is one free block that spans the whole page. */
    method Destroy()
      requires Valid() && U == []
      ensures freeMList != null && freeMList.nextFreeM == null && freeMList.prevFreeM == null
      ensures freeMList.addr == addr && freeMList.size == size && freeSList == freeMList
    {
      assert usedList == null;
      assert |multiset(used)| == |multiset(Spans(tiles, true))|;
      EmptyPageIsOneTile(tiles, addr, addr + size);
      ShortTiles(tiles, addr, addr + size, false);
      ghost var j := IndexIn(M, S, U, 0);
      assert S[0] in S && S[0] in M;
      assert freeMList != null && freeMList.nextFreeM == null && freeMList.prevFreeM == null;
    }
  }
}
