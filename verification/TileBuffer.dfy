/**
 The tile buffer: primitives are sorted into screen tiles, the tiles written out as words, and
 read back by the raster units, each taking every so many tiles.
 */
module TileBuffer {
  import opened Arith

  /** The bounding box of a primitive in pixels, right and bottom exclusive. */
  datatype Box = Box(left: nat, right: nat, top: nat, bottom: nat) {
    predicate Empty() { right <= left || bottom <= top }
  }

  /** A tile with the primitives that touch it. */
  datatype Tile = Tile(x: nat, y: nat, pids: seq<nat>) {
    /** The order of the keys: x first. */
    predicate Before(tx: nat, ty: nat) { x < tx || (x == tx && y < ty) }
    predicate Is(tx: nat, ty: nat) { x == tx && y == ty }
  }

  ghost predicate Sorted(tiles: seq<Tile>) {
    forall i, j :: 0 <= i < j < |tiles| ==> tiles[i].Before(tiles[j].x, tiles[j].y)
  }

  /** The primitives listed for a tile. */
  function PidsAt(tiles: seq<Tile>, x: nat, y: nat): seq<nat> {
    if tiles == [] then [] else if tiles[0].Is(x, y) then tiles[0].pids else PidsAt(tiles[1..], x, y)
  }

  lemma {:induction false} PidsConcat(a: seq<Tile>, b: seq<Tile>, x: nat, y: nat)
    requires forall i :: 0 <= i < |a| ==> !a[i].Is(x, y)
    ensures PidsAt(a + b, x, y) == PidsAt(b, x, y)
  {
    if a == [] {
      assert a + b == b;
    } else {
      assert (a + b)[1..] == a[1..] + b;
      PidsConcat(a[1..], b, x, y);
    }
  }

  lemma {:induction false} PidsAbsent(a: seq<Tile>, x: nat, y: nat)
    requires forall i :: 0 <= i < |a| ==> !a[i].Is(x, y)
    ensures PidsAt(a, x, y) == []
  {
    if a != [] { PidsAbsent(a[1..], x, y); }
  }

  lemma {:induction false} PidsPrefix(a: seq<Tile>, b: seq<Tile>, x: nat, y: nat)
    requires exists i :: 0 <= i < |a| && a[i].Is(x, y)
    ensures PidsAt(a + b, x, y) == PidsAt(a, x, y)
  {
    assert (a + b)[0] == a[0];
    if !a[0].Is(x, y) {
      assert (a + b)[1..] == a[1..] + b;
      var i :| 0 <= i < |a| && a[i].Is(x, y);
      assert a[1..][i - 1].Is(x, y);
      PidsPrefix(a[1..], b, x, y);
    }
  }

  /** Replacing, or putting in, the entry of one tile changes that tile only. */
  lemma PidsReplaced(a: seq<Tile>, old_: seq<Tile>, t: Tile, b: seq<Tile>, x: nat, y: nat)
    requires (forall i :: 0 <= i < |a| ==> !a[i].Is(t.x, t.y)) && (forall i :: 0 <= i < |b| ==> !b[i].Is(t.x, t.y))
    requires forall i :: 0 <= i < |old_| ==> old_[i].Is(t.x, t.y)
    requires |old_| <= 1
    ensures PidsAt(a + [t] + b, x, y) == if t.Is(x, y) then t.pids else PidsAt(a + old_ + b, x, y)
    ensures t.Is(x, y) ==> PidsAt(a + old_ + b, x, y) == if old_ == [] then [] else old_[0].pids
  {
    assert a + [t] + b == a + ([t] + b) && a + old_ + b == a + (old_ + b);
    assert ([t] + b)[1..] == b;
    if t.Is(x, y) {
      PidsConcat(a, [t] + b, x, y);
      PidsConcat(a, old_ + b, x, y);
      if old_ == [] {
        assert old_ + b == b;
        PidsAbsent(b, x, y);
      }
    } else if i :| 0 <= i < |a| && a[i].Is(x, y) {
      PidsPrefix(a, [t] + b, x, y);
      PidsPrefix(a, old_ + b, x, y);
    } else {
      PidsConcat(a, [t] + b, x, y);
      PidsConcat(a, old_ + b, x, y);
      if old_ == [] { assert old_ + b == b; } else { assert (old_ + b)[1..] == b; }
    }
  }

  // ---- Binning ----

  /** Some pixel of the box lies in tile tx, ty of 2^logSize pixels a side. */
  predicate Touches(b: Box, logSize: nat, tx: nat, ty: nat) {
    var s := Pow2(logSize);
    b.left < tx * s + s && tx * s < b.right && b.top < ty * s + s && ty * s < b.bottom
  }

  /** How many of the boxes are not empty: they are numbered in order. */
  function Accepted(boxes: seq<Box>): nat {
    if boxes == [] then 0 else Accepted(boxes[..|boxes| - 1]) + (if boxes[|boxes| - 1].Empty() then 0 else 1)
  }

  /** The primitives that touch a tile, in order. */
  function PidsFor(boxes: seq<Box>, logSize: nat, tx: nat, ty: nat): seq<nat> {
    if boxes == [] then []
    else
      var init, b := boxes[..|boxes| - 1], boxes[|boxes| - 1];
      PidsFor(init, logSize, tx, ty) + (if !b.Empty() && Touches(b, logSize, tx, ty) then [Accepted(init)] else [])
  }

  /** Some pixel of the box lies in the tile. */
  ghost predicate HasPixel(b: Box, logSize: nat, tx: nat, ty: nat) {
    exists x: nat, y: nat ::
      b.left <= x < b.right && b.top <= y < b.bottom && x / Pow2(logSize) == tx && y / Pow2(logSize) == ty
  }

  lemma PixelTouches(b: Box, logSize: nat, tx: nat, ty: nat)
    ensures HasPixel(b, logSize, tx, ty) <==> !b.Empty() && Touches(b, logSize, tx, ty)
  {
    hide Pow2;
    var s := Pow2(logSize);
    forall x: nat, y: nat | b.left <= x < b.right && b.top <= y < b.bottom && x / s == tx && y / s == ty
      ensures !b.Empty() && Touches(b, logSize, tx, ty)
    {
      InTile(x, s, tx);
      InTile(y, s, ty);
    }
    if !b.Empty() && Touches(b, logSize, tx, ty) {
      var x, y := if b.left < tx * s then tx * s else b.left, if b.top < ty * s then ty * s else b.top;
      InTile(x, s, tx);
      InTile(y, s, ty);
      assert b.left <= x < b.right && b.top <= y < b.bottom && x / s == tx && y / s == ty;
    }
  }

  lemma InTile(x: nat, s: nat, t: nat)
    requires s > 0
    ensures x / s == t <==> t * s <= x < t * s + s
  {
    if t * s <= x < t * s + s { DivModUnique(x, s, t, x - t * s); }
  }

  /** The boxes before box n that have a pixel. */
  ghost function Before(boxes: seq<Box>, n: nat): set<nat>
    requires n <= |boxes|
  {
    set k: nat | 0 <= k < n && boxes[k].left < boxes[k].right && boxes[k].top < boxes[k].bottom
  }

  lemma {:induction false} AcceptedCounts(boxes: seq<Box>, n: nat)
    requires n <= |boxes|
    ensures Accepted(boxes[..n]) == |Before(boxes, n)|
  {
    if n > 0 {
      AcceptedCounts(boxes, n - 1);
      assert boxes[..n][..n - 1] == boxes[..n - 1];
      assert Before(boxes, n) == if boxes[n - 1].Empty() then Before(boxes, n - 1) else Before(boxes, n - 1) + {n - 1};
    }
  }

  /** p is the number of some box that has a pixel in the tile: how many boxes before it have a pixel at all. */
  ghost predicate Numbers(boxes: seq<Box>, logSize: nat, tx: nat, ty: nat, p: nat) {
    exists k :: 0 <= k < |boxes| && HasPixel(boxes[k], logSize, tx, ty) && p == |Before(boxes, k)|
  }

  /** The primitives listed for a tile, in ascending order, are just the boxes with a pixel in it. */
  lemma {:induction false} PidsMean(boxes: seq<Box>, logSize: nat, tx: nat, ty: nat)
    ensures var pids := PidsFor(boxes, logSize, tx, ty);
      && (forall i, j :: 0 <= i < j < |pids| ==> pids[i] < pids[j])
      && (forall p: nat :: p in pids <==> Numbers(boxes, logSize, tx, ty, p))
      && forall p: nat :: p in pids ==> p < Accepted(boxes)
  {
    hide *;
    PidsStep(boxes, logSize, tx, ty);
    if boxes == [] {
      NoNumbers(logSize, tx, ty);
    } else {
      var n := |boxes| - 1;
      PidsMean(boxes[..n], logSize, tx, ty);
      var init := PidsFor(boxes[..n], logSize, tx, ty);
      assert forall i :: 0 <= i < |init| ==> init[i] in init;
      AcceptedCounts(boxes, n);
      PixelTouches(boxes[n], logSize, tx, ty);
      forall p: nat ensures Numbers(boxes, logSize, tx, ty, p)
          <==> Numbers(boxes[..n], logSize, tx, ty, p) || (HasPixel(boxes[n], logSize, tx, ty) && p == |Before(boxes, n)|) {
        NumbersStep(boxes, logSize, tx, ty, p);
      }
    }
  }

  lemma NoNumbers(logSize: nat, tx: nat, ty: nat)
    ensures forall p: nat :: !Numbers([], logSize, tx, ty, p)
  {
  }

  lemma PidsStep(boxes: seq<Box>, logSize: nat, tx: nat, ty: nat)
    ensures boxes == [] ==> PidsFor(boxes, logSize, tx, ty) == []
    ensures boxes != [] ==>
      var n := |boxes| - 1;
      var b := boxes[n];
      && Accepted(boxes) == Accepted(boxes[..n]) + (if b.Empty() then 0 else 1)
      && PidsFor(boxes, logSize, tx, ty)
           == PidsFor(boxes[..n], logSize, tx, ty) + (if !b.Empty() && Touches(b, logSize, tx, ty) then [Accepted(boxes[..n])] else [])
  {
    hide Touches;
  }

  lemma NumbersStep(boxes: seq<Box>, logSize: nat, tx: nat, ty: nat, p: nat)
    requires boxes != []
    ensures var n := |boxes| - 1;
      Numbers(boxes, logSize, tx, ty, p)
      <==> Numbers(boxes[..n], logSize, tx, ty, p) || (HasPixel(boxes[n], logSize, tx, ty) && p == |Before(boxes, n)|)
  {
    hide HasPixel;
    var n := |boxes| - 1;
    forall k | 0 <= k < n ensures Before(boxes[..n], k) == Before(boxes, k) && boxes[..n][k] == boxes[k] {
    }
    if Numbers(boxes[..n], logSize, tx, ty, p) {
      var k :| 0 <= k < n && HasPixel(boxes[..n][k], logSize, tx, ty) && p == |Before(boxes[..n], k)|;
      assert HasPixel(boxes[k], logSize, tx, ty) && p == |Before(boxes, k)|;
    }
    if Numbers(boxes, logSize, tx, ty, p) {
      var k :| 0 <= k < |boxes| && HasPixel(boxes[k], logSize, tx, ty) && p == |Before(boxes, k)|;
      if k < n { assert HasPixel(boxes[..n][k], logSize, tx, ty) && p == |Before(boxes[..n], k)|; }
    }
  }

  /** Every tile listed has primitives. */
  ghost predicate Filled(tiles: seq<Tile>) { forall i :: 0 <= i < |tiles| ==> tiles[i].pids != [] }

  method AddPid(tiles: seq<Tile>, x: nat, y: nat, p: nat) returns (tiles': seq<Tile>)
    requires Sorted(tiles) && Filled(tiles)
    ensures Sorted(tiles') && Filled(tiles')
    ensures forall u: nat, v: nat :: PidsAt(tiles', u, v) == PidsAt(tiles, u, v) + (if u == x && v == y then [p] else [])
  {
    hide PidsAt;
    var i := 0;
    while i < |tiles| && tiles[i].Before(x, y)
      invariant i <= |tiles| && forall j :: 0 <= j < i ==> tiles[j].Before(x, y)
    {
      i := i + 1;
    }
    var found := i < |tiles| && tiles[i].Is(x, y);
    var rest := if found then i + 1 else i;
    var t := Tile(x, y, if found then tiles[i].pids + [p] else [p]);
    tiles' := tiles[..i] + [t] + tiles[rest..];
    ghost var a, o, b := tiles[..i], tiles[i..rest], tiles[rest..];
    assert tiles == a + o + b;
    Placed(tiles, i, rest, t);
    hide Sorted;
    forall u: nat, v: nat ensures PidsAt(tiles', u, v) == PidsAt(tiles, u, v) + (if u == x && v == y then [p] else []) {
      PidsReplaced(a, o, t, b, u, v);
    }
  }

  /** An entry put in its place keeps the order. */
  lemma Placed(tiles: seq<Tile>, i: nat, rest: nat, t: Tile)
    requires Sorted(tiles) && Filled(tiles) && i <= rest <= |tiles| && t.pids != []
    requires forall j :: 0 <= j < i ==> tiles[j].Before(t.x, t.y)
    requires i < |tiles| ==> !tiles[i].Before(t.x, t.y)
    requires rest == if i < |tiles| && tiles[i].Is(t.x, t.y) then i + 1 else i
    ensures Sorted(tiles[..i] + [t] + tiles[rest..]) && Filled(tiles[..i] + [t] + tiles[rest..])
    ensures forall j :: rest <= j < |tiles| ==> !tiles[j].Is(t.x, t.y)
  {
    PlacedFilled(tiles, i, rest, t);
    Behind(tiles, i, rest, t);
    PlacedSorted(tiles, i, rest, t);
  }

  /** The entries from rest on come after the new one. */
  lemma Behind(tiles: seq<Tile>, i: nat, rest: nat, t: Tile)
    requires Sorted(tiles) && i <= rest <= |tiles|
    requires i < |tiles| ==> !tiles[i].Before(t.x, t.y)
    requires rest == if i < |tiles| && tiles[i].Is(t.x, t.y) then i + 1 else i
    ensures forall j :: rest <= j < |tiles| ==> t.Before(tiles[j].x, tiles[j].y)
  {
    forall j | rest <= j < |tiles| ensures t.Before(tiles[j].x, tiles[j].y) {
      if i < j { assert tiles[i].Before(tiles[j].x, tiles[j].y); }
    }
  }

  lemma PlacedSorted(tiles: seq<Tile>, i: nat, rest: nat, t: Tile)
    requires Sorted(tiles) && i <= rest <= |tiles|
    requires forall j :: 0 <= j < i ==> tiles[j].Before(t.x, t.y)
    requires forall j :: rest <= j < |tiles| ==> t.Before(tiles[j].x, tiles[j].y)
    ensures Sorted(tiles[..i] + [t] + tiles[rest..])
  {
    var m := tiles[..i] + [t] + tiles[rest..];
    assert forall j :: 0 <= j < i ==> m[j] == tiles[j];
    assert forall j :: i < j < |m| ==> m[j] == tiles[j - i - 1 + rest];
    forall p, q | 0 <= p < q < |m| ensures m[p].Before(m[q].x, m[q].y) {
      if p != i && q != i {
        assert tiles[if p < i then p else p - i - 1 + rest].Before(m[q].x, m[q].y) by {
          var q' := if q < i then q else q - i - 1 + rest;
          assert m[q] == tiles[q'];
        }
      }
    }
  }

  lemma PlacedFilled(tiles: seq<Tile>, i: nat, rest: nat, t: Tile)
    requires Filled(tiles) && i <= rest <= |tiles| && t.pids != []
    ensures Filled(tiles[..i] + [t] + tiles[rest..])
  {
    var m := tiles[..i] + [t] + tiles[rest..];
    assert forall j :: i < j < |m| ==> m[j] == tiles[j - i - 1 + rest];
  }

  /** Whole tiles up to a pixel, and the tiles that reach past one. */
  lemma TileRange(left: nat, right: nat, s: nat, t: nat)
    requires s > 0
    ensures left / s <= t <==> left < t * s + s
    ensures t < (right + s - 1) / s <==> t * s < right
  {
    var q, r := (right + s - 1) / s, (right + s - 1) % s;
    assert right + s - 1 == q * s + r && left == left / s * s + left % s;
    assert (t + 1) * s == t * s + s;
    RowBound(left / s, t + 1, s, left % s);
    RowCompare(t, q, s - 1, r, s);
  }

  lemma TileRanges(b: Box, logSize: nat, tx: nat, ty: nat)
    ensures var s := Pow2(logSize);
      Touches(b, logSize, tx, ty) <==>
        b.left / s <= tx < (b.right + s - 1) / s && b.top / s <= ty < (b.bottom + s - 1) / s
  {
    hide Pow2;
    TileRange(b.left, b.right, Pow2(logSize), tx);
    TileRange(b.top, b.bottom, Pow2(logSize), ty);
  }

  method AddRow(tiles: seq<Tile>, p: nat, minX: nat, maxX: nat, ty: nat) returns (tiles': seq<Tile>)
    requires Sorted(tiles) && Filled(tiles)
    ensures Sorted(tiles') && Filled(tiles')
    ensures forall u: nat, v: nat ::
      PidsAt(tiles', u, v) == PidsAt(tiles, u, v) + (if minX <= u < maxX && v == ty then [p] else [])
  {
    hide *;
    tiles' := tiles;
    var tx := minX;
    while tx < maxX
      invariant minX <= tx && Sorted(tiles') && Filled(tiles')
      invariant forall u: nat, v: nat ::
        PidsAt(tiles', u, v) == PidsAt(tiles, u, v) + (if minX <= u < maxX && u < tx && v == ty then [p] else [])
    {
      tiles' := AddPid(tiles', tx, ty, p);
      tx := tx + 1;
    }
  }

  /** Lists a primitive with every tile its box touches. */
  method AddBox(tiles: seq<Tile>, p: nat, b: Box, logSize: nat) returns (tiles': seq<Tile>)
    requires Sorted(tiles) && Filled(tiles)
    ensures Sorted(tiles') && Filled(tiles')
    ensures forall u: nat, v: nat ::
      PidsAt(tiles', u, v) == PidsAt(tiles, u, v) + (if Touches(b, logSize, u, v) then [p] else [])
  {
    hide *;
    var s := Pow2(logSize);
    var minX, maxX, minY, maxY := b.left / s, (b.right + s - 1) / s, b.top / s, (b.bottom + s - 1) / s;
    tiles' := tiles;
    var ty := minY;
    while ty < maxY
      invariant minY <= ty && Sorted(tiles') && Filled(tiles')
      invariant forall u: nat, v: nat ::
        PidsAt(tiles', u, v) == PidsAt(tiles, u, v) + (if minX <= u < maxX && minY <= v < maxY && v < ty then [p] else [])
    {
      tiles' := AddRow(tiles', p, minX, maxX, ty);
      ty := ty + 1;
    }
    forall u: nat, v: nat ensures Touches(b, logSize, u, v) <==> minX <= u < maxX && minY <= v < maxY {
      TileRanges(b, logSize, u, v);
    }
  }

  /** Every tile lists exactly the primitives that touch it, each once and in order. */
  method Bin(boxes: seq<Box>, logSize: nat) returns (tiles: seq<Tile>)
    ensures Sorted(tiles) && Filled(tiles)
    ensures forall u: nat, v: nat :: PidsAt(tiles, u, v) == PidsFor(boxes, logSize, u, v)
  {
    hide PidsAt, Sorted, Filled, Touches;
    tiles := [];
    EmptyTiles();
    var p, n := 0, 0;
    assert boxes[..0] == [];
    while n < |boxes|
      invariant n <= |boxes| && p == Accepted(boxes[..n]) && Sorted(tiles) && Filled(tiles)
      invariant forall u: nat, v: nat :: PidsAt(tiles, u, v) == PidsFor(boxes[..n], logSize, u, v)
    {
      var b := boxes[n];
      assert boxes[..n + 1][..n] == boxes[..n];
      if !b.Empty() {
        tiles := AddBox(tiles, p, b, logSize);
        p := p + 1;
      }
      n := n + 1;
    }
    assert boxes[..n] == boxes;
  }

  lemma EmptyTiles()
    ensures Sorted([]) && Filled([]) && forall u: nat, v: nat :: PidsAt([], u, v) == []
  {
  }

  // ---- Words ----

  function Listed(tiles: seq<Tile>): nat {
    if tiles == [] then 0 else Listed(tiles[..|tiles| - 1]) + |tiles[|tiles| - 1].pids|
  }

  /** Where the list of tile k starts. */
  function Start(tiles: seq<Tile>, k: nat): nat
    requires k <= |tiles|
  {
    2 * |tiles| + Listed(tiles[..k])
  }

  /** Words from the end of header k to the list of tile k. */
  function PidsOffset(tiles: seq<Tile>, k: nat): int
    requires k < |tiles|
  {
    Start(tiles, k) - (2 * k + 2)
  }

  /** Two 16-bit halves in a little-endian word. */
  function Halves(low: int, high: int): nat { low % 0x1_0000 + high % 0x1_0000 * 0x1_0000 }

  /** Header and list of tile k are in place. */
  ghost predicate LaidTile(words: seq<nat>, tiles: seq<Tile>, k: nat)
    requires k < |tiles|
  {
    var at := Start(tiles, k);
    && at + |tiles[k].pids| <= |words|
    && words[2 * k] == Halves(tiles[k].x, tiles[k].y)
    && words[2 * k + 1] == Halves(PidsOffset(tiles, k), |tiles[k].pids|)
    && forall j :: 0 <= j < |tiles[k].pids| ==> words[at + j] == tiles[k].pids[j]
  }

  /** Headers first, then the lists of the tiles in order. */
  ghost predicate Laid(words: seq<nat>, tiles: seq<Tile>, n: nat)
    requires n <= |tiles|
  {
    |words| == 2 * |tiles| + Listed(tiles) && forall k :: 0 <= k < n ==> LaidTile(words, tiles, k)
  }

  lemma StartNext(tiles: seq<Tile>, k: nat)
    requires k < |tiles|
    ensures Start(tiles, k + 1) == Start(tiles, k) + |tiles[k].pids|
    ensures Start(tiles, 0) == 2 * |tiles| <= Start(tiles, k) && Start(tiles, |tiles|) == 2 * |tiles| + Listed(tiles)
  {
    assert tiles[..k + 1][..k] == tiles[..k] && tiles[..|tiles|] == tiles && tiles[..0] == [];
  }

  lemma {:induction false} StartMonotone(tiles: seq<Tile>, k: nat, n: nat)
    requires k < n <= |tiles|
    ensures Start(tiles, k) + |tiles[k].pids| <= Start(tiles, n)
  {
    StartNext(tiles, n - 1);
    if k < n - 1 { StartMonotone(tiles, k, n - 1); }
  }

  /** Copies a list into the buffer. */
  method CopyPids(words: array<nat>, at: nat, pids: seq<nat>)
    requires at + |pids| <= words.Length
    modifies words
    ensures forall j :: 0 <= j < |pids| ==> words[at + j] == pids[j]
    ensures forall m :: 0 <= m < at || at + |pids| <= m < words.Length ==> words[m] == old(words[m])
  {
    var j := 0;
    while j < |pids|
      invariant j <= |pids|
      invariant forall m :: 0 <= m < j ==> words[at + m] == pids[m]
      invariant forall m :: 0 <= m < at || at + |pids| <= m < words.Length ==> words[m] == old(words[m])
    {
      words[at + j] := pids[j];
      j := j + 1;
    }
  }

  /** Writes the tile buffer: a header for every tile, then all lists. */
  method WriteTiles(tiles: seq<Tile>) returns (words: array<nat>)
    ensures fresh(words) && Laid(words[..], tiles, |tiles|)
  {
    hide Start, Listed, LaidTile, Halves;
    var total := CountPids(tiles);
    words := new nat[2 * |tiles| + total](_ => 0);
    var k, at := 0, 2 * |tiles|;
    StartEnds(tiles);
    while k < |tiles|
      invariant k <= |tiles| && at == Start(tiles, k) && Laid(words[..], tiles, k) && fresh(words)
    {
      ghost var before := words[..];
      StartNext(tiles, k);
      StartMonotone(tiles, k, |tiles|);
      words[2 * k] := Halves(tiles[k].x, tiles[k].y);
      words[2 * k + 1] := Halves(at - (2 * k + 2), |tiles[k].pids|);
      CopyPids(words, at, tiles[k].pids);
      LaidMore(before, words[..], tiles, k);
      at := at + |tiles[k].pids|;
      k := k + 1;
    }
  }

  method CountPids(tiles: seq<Tile>) returns (total: nat)
    ensures total == Listed(tiles)
  {
    total := 0;
    var i := 0;
    assert tiles[..0] == [];
    while i < |tiles|
      invariant i <= |tiles| && total == Listed(tiles[..i])
    {
      assert tiles[..i + 1][..i] == tiles[..i];
      total := total + |tiles[i].pids|;
      i := i + 1;
    }
    assert tiles[..i] == tiles;
  }

  lemma StartEnds(tiles: seq<Tile>)
    ensures Start(tiles, 0) == 2 * |tiles| && Start(tiles, |tiles|) == 2 * |tiles| + Listed(tiles)
  {
    assert tiles[..|tiles|] == tiles && tiles[..0] == [];
  }

  lemma LaidMore(before: seq<nat>, words: seq<nat>, tiles: seq<Tile>, k: nat)
    requires k < |tiles| && Laid(before, tiles, k) && |words| == |before|
    requires 2 * |tiles| <= Start(tiles, k) && Start(tiles, k) + |tiles[k].pids| <= |words|
    requires words[2 * k] == Halves(tiles[k].x, tiles[k].y)
    requires words[2 * k + 1] == Halves(PidsOffset(tiles, k), |tiles[k].pids|)
    requires forall m :: 0 <= m < |tiles[k].pids| ==> words[Start(tiles, k) + m] == tiles[k].pids[m]
    requires forall m :: 0 <= m < Start(tiles, k) && m != 2 * k && m != 2 * k + 1 ==> words[m] == before[m]
    ensures Laid(words, tiles, k + 1)
  {
    hide Start, Listed, Halves;
    forall i | 0 <= i < k ensures LaidTile(words, tiles, i) {
      assert LaidTile(before, tiles, i);
      StartNext(tiles, i);
      StartMonotone(tiles, i, k);
    }
  }

  // ---- Reading back ----

  /** A primitive handed to the rasterizer: the pixel origin of its tile, and its number. */
  datatype Job = Job(x: nat, y: nat, pid: nat)

  function Jobs(t: Tile, logSize: nat): seq<Job> {
    seq(|t.pids|, j requires 0 <= j < |t.pids| => Job(t.x * Pow2(logSize), t.y * Pow2(logSize), t.pids[j]))
  }

  function AllJobs(tiles: seq<Tile>, logSize: nat): seq<Job> {
    if tiles == [] then [] else AllJobs(tiles[..|tiles| - 1], logSize) + Jobs(tiles[|tiles| - 1], logSize)
  }

  /** The jobs of unit r out of count: the tiles whose number leaves r. */
  function UnitJobs(tiles: seq<Tile>, r: nat, count: nat, logSize: nat): seq<Job>
    requires count > 0
  {
    if tiles == [] then []
    else
      UnitJobs(tiles[..|tiles| - 1], r, count, logSize)
      + (if (|tiles| - 1) % count == r then Jobs(tiles[|tiles| - 1], logSize) else [])
  }

  /** Coordinates, offsets and counts fit their 16 bits. */
  ghost predicate FitsHeaders(tiles: seq<Tile>) {
    forall k :: 0 <= k < |tiles| ==>
      tiles[k].x < 0x1_0000 && tiles[k].y < 0x1_0000
      && 0 < |tiles[k].pids| < 0x1_0000 && 0 <= PidsOffset(tiles, k) < 0x1_0000
  }

  /** Between two tiles of a unit lie only tiles of others. */
  lemma {:induction false} SkipTiles(tiles: seq<Tile>, k: nat, m: nat, r: nat, count: nat, logSize: nat)
    requires count > 0 && k < m <= |tiles| && m <= k + count && k % count == r
    ensures UnitJobs(tiles[..m], r, count, logSize) == UnitJobs(tiles[..k], r, count, logSize) + Jobs(tiles[k], logSize)
  {
    assert tiles[..m][..m - 1] == tiles[..m - 1];
    if k < m - 1 {
      SkipTiles(tiles, k, m - 1, r, count, logSize);
      NotSame(k, m - 1, count);
    }
  }

  lemma NotSame(a: nat, b: nat, n: nat)
    requires n > 0 && a < b < a + n
    ensures a % n != b % n
  {
    var q, r := a / n, a % n;
    assert a == q * n + r;
    if b - a < n - r {
      DivModUnique(b, n, q, r + (b - a));
    } else {
      assert (q + 1) * n == q * n + n;
      DivModUnique(b, n, q + 1, r + (b - a) - n);
    }
  }

  lemma {:induction false} NoJobsBefore(tiles: seq<Tile>, m: nat, r: nat, count: nat, logSize: nat)
    requires count > 0 && m <= |tiles| && m <= r < count
    ensures UnitJobs(tiles[..m], r, count, logSize) == []
  {
    if m > 0 {
      assert tiles[..m][..m - 1] == tiles[..m - 1];
      SmallMod(m - 1, count);
      NoJobsBefore(tiles, m - 1, r, count, logSize);
    }
  }

  lemma SmallMod(a: nat, n: nat)
    requires a < n
    ensures a % n == a
  {
    DivModUnique(a, n, 0, a);
  }

  class RasterUnit {
    const index: nat
    const count: nat
    const logSize: nat
    const base: nat
    const memory: seq<nat>
    const numTiles: nat
    var curTile: nat
    var tbufAddr: nat
    var tileX: nat
    var tileY: nat
    var pidsOffset: nat
    var pidsCount: nat
    var curPrim: nat
    var done: bool
    /** Everything handed to the rasterizer. */
    var jobs: seq<Job>
    /** What the tile buffer holds. */
    ghost const tiles: seq<Tile>

    ghost predicate Valid()
      reads this
    {
      && count > 0 && index < count && numTiles == |tiles|
      && Laid(memory, tiles, |tiles|) && FitsHeaders(tiles)
      && curTile % count == index && done == (curTile >= numTiles)
      && (if pidsCount == 0 then
            && tbufAddr == base + 8 * curTile
            && jobs == UnitJobs(tiles[..if done then |tiles| else curTile], index, count, logSize)
          else
            && !done && tbufAddr == base + 8 * curTile + 8
            && InTile(tiles[curTile]))
    }

    ghost predicate InTile(t: Tile)
      requires count > 0 && curTile < |tiles|
      reads this
    {
      && pidsCount == |t.pids| && curPrim < pidsCount && pidsOffset == PidsOffset(tiles, curTile) + curPrim
      && tileX == t.x * Pow2(logSize) && tileY == t.y * Pow2(logSize)
      && jobs == UnitJobs(tiles[..curTile], index, count, logSize) + Jobs(t, logSize)[..curPrim]
    }

    constructor (index: nat, count: nat, logSize: nat, base: nat, memory: seq<nat>, numTiles: nat, ghost tiles: seq<Tile>)
      requires index < count && numTiles == |tiles| && Laid(memory, tiles, |tiles|) && FitsHeaders(tiles)
      ensures Valid() && jobs == [] && this.tiles == tiles && this.index == index && this.count == count && this.logSize == logSize
    {
      this.index, this.count, this.logSize, this.base, this.memory := index, count, logSize, base, memory;
      this.tiles, this.numTiles := tiles, numTiles;
      curTile, tbufAddr, tileX, tileY, pidsOffset, pidsCount, curPrim := index, base + 8 * index, 0, 0, 0, 0, 0;
      done, jobs := index >= numTiles, [];
      new;
      NoJobsBefore(tiles, if index >= |tiles| then |tiles| else index, index, count, logSize);
      SmallMod(index, count);
    }

    /** The word at a byte address. */
    function Word(addr: nat): nat
      requires base <= addr && (addr - base) / 4 < |memory|
    {
      memory[(addr - base) / 4]
    }

    method ReadHeader()
      requires Valid() && !done && pidsCount == 0
      modifies `tbufAddr, `tileX, `tileY, `pidsOffset, `pidsCount, `curPrim
      ensures Valid() && pidsCount > 0 && curPrim == 0
    {
      hide Start, Jobs, UnitJobs, Laid, FitsHeaders;
      HeaderAt(memory, tiles, curTile);
      var tileXy := Word(tbufAddr);
      tileX := tileXy % 0x1_0000 * Pow2(logSize);
      tileY := tileXy / 0x1_0000 * Pow2(logSize);
      tbufAddr := tbufAddr + 4;
      var primHeader := Word(tbufAddr);
      pidsOffset := primHeader % 0x1_0000;
      pidsCount := primHeader / 0x1_0000;
      tbufAddr := tbufAddr + 4;
      assert pidsCount > 0;
      curPrim := 0;
    }

    /** The next primitive of the unit's tiles, if any is left. */
    method RenderNextPrimitive()
      requires Valid()
      modifies `curTile, `tbufAddr, `tileX, `tileY, `pidsOffset, `pidsCount, `curPrim, `done, `jobs
      ensures Valid()
      ensures if old(done) then jobs == old(jobs) else |jobs| == |old(jobs)| + 1 && jobs[..|old(jobs)|] == old(jobs)
      ensures curTile >= old(curTile)
      ensures !old(done) && curTile == old(curTile) ==>
        pidsCount > 0 && (old(pidsCount) > 0 ==> pidsCount - curPrim < old(pidsCount - curPrim))
    {
      if done {
        return;
      }
      if pidsCount == 0 {
        ReadHeader();
      }
      TakePrimitive();
    }

    method TakePrimitive()
      requires Valid() && pidsCount > 0
      modifies `curTile, `tbufAddr, `pidsOffset, `pidsCount, `curPrim, `done, `jobs
      ensures Valid() && |jobs| == |old(jobs)| + 1 && jobs[..|old(jobs)|] == old(jobs)
      ensures curTile >= old(curTile)
      ensures curTile == old(curTile) ==> pidsCount > 0 && pidsCount - curPrim < old(pidsCount - curPrim)
    {
      hide Start, Listed, UnitJobs, Laid, LaidTile, FitsHeaders, Jobs;
      ghost var t, k := tiles[curTile], curTile;
      PidAt(memory, tiles, k, curPrim);
      var primAddr := tbufAddr + pidsOffset * 4;
      assert (primAddr - base) / 4 == Start(tiles, k) + curPrim;
      var pid := Word(primAddr);
      pidsOffset := pidsOffset + 1;
      jobs := jobs + [Job(tileX, tileY, pid)];
      JobsNext(t, logSize, curPrim);
      curPrim := curPrim + 1;
      if curPrim == pidsCount {
        curTile := curTile + count;
        tbufAddr := tbufAddr + (count - 1) * 8;
        pidsCount := 0;
        done := curTile >= numTiles;
        SkipTiles(tiles, k, if done then |tiles| else curTile, index, count, logSize);
        StepMod(k, count);
      }
    }

    /** A unit hands over exactly the jobs of its tiles, in order. */
    method Run()
      requires Valid()
      modifies `curTile, `tbufAddr, `tileX, `tileY, `pidsOffset, `pidsCount, `curPrim, `done, `jobs
      ensures Valid() && done && jobs == UnitJobs(tiles, index, count, logSize)
    {
      while !done
        invariant Valid()
        decreases numTiles - curTile, if pidsCount == 0 then 0x1_0000 else pidsCount - curPrim
      {
        RenderNextPrimitive();
      }
      assert tiles[..|tiles|] == tiles;
    }
  }

  /** The header of a tile reads back what was written. */
  lemma HeaderAt(words: seq<nat>, tiles: seq<Tile>, k: nat)
    requires Laid(words, tiles, |tiles|) && FitsHeaders(tiles) && k < |tiles|
    ensures 2 * k + 1 < |words| && |tiles[k].pids| > 0
    ensures words[2 * k] % 0x1_0000 == tiles[k].x && words[2 * k] / 0x1_0000 == tiles[k].y
    ensures words[2 * k + 1] % 0x1_0000 == PidsOffset(tiles, k) && words[2 * k + 1] / 0x1_0000 == |tiles[k].pids|
  {
    hide Start, Halves, Listed;
    StartEnds(tiles);
    assert LaidTile(words, tiles, k);
    HalvesBack(tiles[k].x, tiles[k].y);
    HalvesBack(PidsOffset(tiles, k), |tiles[k].pids|);
  }

  lemma PidAt(words: seq<nat>, tiles: seq<Tile>, k: nat, j: nat)
    requires Laid(words, tiles, |tiles|) && k < |tiles| && j < |tiles[k].pids|
    ensures Start(tiles, k) + j < |words| && words[Start(tiles, k) + j] == tiles[k].pids[j]
  {
    assert LaidTile(words, tiles, k);
    hide Start;
  }

  lemma JobsNext(t: Tile, logSize: nat, j: nat)
    requires j < |t.pids|
    ensures |Jobs(t, logSize)| == |t.pids|
    ensures Jobs(t, logSize)[..j + 1] == Jobs(t, logSize)[..j] + [Job(t.x * Pow2(logSize), t.y * Pow2(logSize), t.pids[j])]
    ensures Jobs(t, logSize)[..|t.pids|] == Jobs(t, logSize)
  {
  }

  lemma HalvesBack(low: nat, high: nat)
    requires low < 0x1_0000 && high < 0x1_0000
    ensures Halves(low, high) % 0x1_0000 == low && Halves(low, high) / 0x1_0000 == high
  {
  }

  lemma StepMod(k: nat, n: nat)
    requires n > 0
    ensures (k + n) % n == k % n
  {
    var q := k / n;
    assert k == q * n + k % n && (q + 1) * n == q * n + n;
    DivModUnique(k + n, n, q + 1, k % n);
  }

  // ---- All units together ----

  /** What the first c units hand over. */
  ghost function UnitsTogether(tiles: seq<Tile>, c: nat, count: nat, logSize: nat): multiset<Job>
    requires count > 0
  {
    if c == 0 then multiset{}
    else UnitsTogether(tiles, c - 1, count, logSize) + multiset(UnitJobs(tiles, c - 1, count, logSize))
  }

  lemma {:induction false} LastTileOnce(tiles: seq<Tile>, c: nat, count: nat, logSize: nat)
    requires count > 0 && tiles != []
    ensures var n := |tiles| - 1;
      UnitsTogether(tiles, c, count, logSize)
      == UnitsTogether(tiles[..n], c, count, logSize)
         + (if n % count < c then multiset(Jobs(tiles[n], logSize)) else multiset{})
  {
    hide Jobs, UnitJobs;
    if c > 0 {
      var init, n := tiles[..|tiles| - 1], |tiles| - 1;
      var m := n % count;
      LastTileOnce(tiles, c - 1, count, logSize);
      UnitLast(tiles, c - 1, count, logSize);
      Shuffle(UnitsTogether(init, c - 1, count, logSize), multiset(Jobs(tiles[n], logSize)),
              multiset(UnitJobs(init, c - 1, count, logSize)));
    }
  }

  lemma UnitLast(tiles: seq<Tile>, r: nat, count: nat, logSize: nat)
    requires count > 0 && tiles != []
    ensures var n := |tiles| - 1;
      multiset(UnitJobs(tiles, r, count, logSize))
      == multiset(UnitJobs(tiles[..n], r, count, logSize))
         + (if n % count == r then multiset(Jobs(tiles[n], logSize)) else multiset{})
  {
    hide Jobs;
  }

  lemma Shuffle<X>(u: multiset<X>, x: multiset<X>, v: multiset<X>)
    ensures (u + x) + v == (u + v) + x && u + (v + x) == (u + v) + x && u + multiset{} == u
  {
  }

  /** Together the units hand over every job once: none is lost, none done twice. */
  lemma {:induction false} UnitsShareJobs(tiles: seq<Tile>, count: nat, logSize: nat)
    requires count > 0
    ensures UnitsTogether(tiles, count, count, logSize) == multiset(AllJobs(tiles, logSize))
  {
    hide Jobs;
    if tiles == [] {
      NoTilesNoJobs(count, count, logSize);
    } else {
      LastTileOnce(tiles, count, count, logSize);
      UnitsShareJobs(tiles[..|tiles| - 1], count, logSize);
    }
  }

  lemma {:induction false} NoTilesNoJobs(c: nat, count: nat, logSize: nat)
    requires count > 0
    ensures UnitsTogether([], c, count, logSize) == multiset{}
  {
    if c > 0 { NoTilesNoJobs(c - 1, count, logSize); }
  }
}
