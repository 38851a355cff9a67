/**
 The rasterizer of the graphics model: a quad-tree descent over a tile
 that reports the covered pixels in groups of two by two.
 Edge values are integers; the fixed-point format only scales them.
 */
module Raster {
  import opened Arith

  datatype Vec3 = Vec3(x: int, y: int, z: int)

  /** The three edge equations of a triangle, each a.x * x + a.y * y + a.z in raw fixed point. */
  datatype Edges = Edges(a: Vec3, b: Vec3, c: Vec3)

  /** Per-edge increments along x and y, and how much an edge can grow over one pixel. */
  datatype Delta = Delta(dx: Vec3, dy: Vec3, extents: Vec3)

  datatype Scissor = Scissor(left: nat, right: nat, top: nat, bottom: nat) {
    predicate Has(x: int, y: int) { left <= x < right && top <= y < bottom }
  }

  /** What one call of the shader callback is about, before the position is packed. */
  datatype Stamp = Stamp(x: nat, y: nat, mask: nat, bcoords: seq<Vec3>, pid: nat)

  // ---- Edge equations ----

  function EvalEdge(e: Vec3, x: int, y: int): int { e.x * x + e.y * y + e.z }

  /** The three edge values at a pixel. */
  function Eval(e: Edges, x: int, y: int): Vec3 {
    Vec3(EvalEdge(e.a, x, y), EvalEdge(e.b, x, y), EvalEdge(e.c, x, y))
  }

  function Extents(e: Vec3): int {
    if e.y >= 0 then (if e.x >= 0 then e.x + e.y else e.y) else (if e.x >= 0 then e.x else 0)
  }

  function DeltaOf(e: Edges): Delta {
    Delta(Vec3(e.a.x, e.b.x, e.c.x), Vec3(e.a.y, e.b.y, e.c.y), Vec3(Extents(e.a), Extents(e.b), Extents(e.c)))
  }

  function ShiftAdd(v: Vec3, d: Vec3, n: nat): Vec3 {
    Vec3(v.x + d.x * Pow2(n), v.y + d.y * Pow2(n), v.z + d.z * Pow2(n))
  }

  predicate Inside(v: Vec3) { v.x >= 0 && v.y >= 0 && v.z >= 0 }

  /** Some edge stays negative over the whole tile of the given size. */
  predicate Rejected(v: Vec3, d: Delta, tileLogSize: nat) {
    var most := ShiftAdd(v, d.extents, tileLogSize);
    most.x < 0 || most.y < 0 || most.z < 0
  }

  // ---- The descent ----

  function RenderTile(tileLogSize: nat, x: nat, y: nat, pid: nat, v: Vec3, d: Delta, sc: Scissor): seq<Stamp> {
    if Rejected(v, d, tileLogSize) then []
    else if tileLogSize > 1 then
      var n := tileLogSize - 1;
      var sx, sy := x + Pow2(n), y + Pow2(n);
      RenderTile(n, x, y, pid, v, d, sc)
      + RenderTile(n, sx, y, pid, ShiftAdd(v, d.dx, n), d, sc)
      + RenderTile(n, x, sy, pid, ShiftAdd(v, d.dy, n), d, sc)
      + RenderTile(n, sx, sy, pid, ShiftAdd(ShiftAdd(v, d.dx, n), d.dy, n), d, sc)
    else RenderQuad(x, y, pid, v, d, sc)
  }

  /** The edge values of the pixel i right of and j below the quad's origin. */
  function QuadValue(v: Vec3, d: Delta, i: int, j: int): Vec3 {
    Vec3(v.x + d.dx.x * i + d.dy.x * j, v.y + d.dx.y * i + d.dy.y * j, v.z + d.dx.z * i + d.dy.z * j)
  }

  /** The mask bit of a pixel, in place. */
  function Coverage(x: nat, y: nat, v: Vec3, d: Delta, sc: Scissor, i: nat, j: nat): nat {
    if Inside(QuadValue(v, d, i, j)) && sc.Has(x + i, y + j) then Pow2(j * 2 + i) else 0
  }

  function RenderQuad(x: nat, y: nat, pid: nat, v: Vec3, d: Delta, sc: Scissor): seq<Stamp> {
    if Rejected(v, d, 1) then []
    else
      var mask := Coverage(x, y, v, d, sc, 0, 0) + Coverage(x, y, v, d, sc, 1, 0)
                  + Coverage(x, y, v, d, sc, 0, 1) + Coverage(x, y, v, d, sc, 1, 1);
      var bcoords := [QuadValue(v, d, 0, 0), QuadValue(v, d, 1, 0), QuadValue(v, d, 0, 1), QuadValue(v, d, 1, 1)];
      if mask != 0 then [Stamp(x, y, mask, bcoords, pid)] else []
  }

  function RenderPrimitive(tileLogSize: nat, x: nat, y: nat, pid: nat, e: Edges, sc: Scissor): seq<Stamp> {
    RenderTile(tileLogSize, x, y, pid, Eval(e, x, y), DeltaOf(e), sc)
  }

  // ---- What is reported ----

  predicate Bit(mask: nat, p: nat) { mask / Pow2(p) % 2 == 1 }

  /** The stamp reports pixel px, py. */
  predicate Reports(s: Stamp, px: int, py: int) {
    && s.x <= px < s.x + 2
    && s.y <= py < s.y + 2
    && Bit(s.mask, (py - s.y) * 2 + (px - s.x))
  }

  /** How often a pixel is reported. */
  function Count(out: seq<Stamp>, px: int, py: int): nat {
    if out == [] then 0 else (if Reports(out[0], px, py) then 1 else 0) + Count(out[1..], px, py)
  }

  lemma {:induction false} CountConcat(a: seq<Stamp>, b: seq<Stamp>, px: int, py: int)
    ensures Count(a + b, px, py) == Count(a, px, py) + Count(b, px, py)
  {
    if a == [] {
      assert a + b == b;
    } else {
      assert (a + b)[1..] == a[1..] + b;
      CountConcat(a[1..], b, px, py);
    }
  }

  predicate InTile(n: nat, x: nat, y: nat, px: int, py: int) {
    x <= px < x + Pow2(n) && y <= py < y + Pow2(n)
  }

  /** Brute force: the pixel passes all edges and the scissor. */
  predicate Covered(e: Edges, sc: Scissor, px: int, py: int) {
    Inside(Eval(e, px, py)) && sc.Has(px, py)
  }

  // ---- Stepping and rejecting ----

  lemma StepEdge(e: Vec3, x: int, y: int, i: int, j: int)
    ensures EvalEdge(e, x + i, y + j) == EvalEdge(e, x, y) + e.x * i + e.y * j
  {
    assert e.x * (x + i) == e.x * x + e.x * i && e.y * (y + j) == e.y * y + e.y * j;
  }

  /** Adding increments is evaluating the edges further on. */
  lemma StepEval(e: Edges, x: int, y: int, i: int, j: int)
    ensures Eval(e, x + i, y + j) == QuadValue(Eval(e, x, y), DeltaOf(e), i, j)
  {
    StepEdge(e.a, x, y, i, j);
    StepEdge(e.b, x, y, i, j);
    StepEdge(e.c, x, y, i, j);
  }

  lemma StepTile(e: Edges, x: int, y: int, n: nat)
    ensures ShiftAdd(Eval(e, x, y), DeltaOf(e).dx, n) == Eval(e, x + Pow2(n), y)
    ensures ShiftAdd(Eval(e, x, y), DeltaOf(e).dy, n) == Eval(e, x, y + Pow2(n))
    ensures ShiftAdd(ShiftAdd(Eval(e, x, y), DeltaOf(e).dx, n), DeltaOf(e).dy, n)
         == Eval(e, x + Pow2(n), y + Pow2(n))
  {
    StepEval(e, x, y, Pow2(n), 0);
    StepEval(e, x, y, 0, Pow2(n));
    StepEval(e, x, y, Pow2(n), Pow2(n));
  }

  /** Over a tile of size s an edge grows by at most s times its extent. */
  lemma ExtentBounds(e: Vec3, s: nat, i: int, j: int)
    requires 0 <= i < s && 0 <= j < s
    ensures e.x * i + e.y * j <= Extents(e) * s
  {
    var a, b := if e.x >= 0 then e.x else 0, if e.y >= 0 then e.y else 0;
    assert Extents(e) * s == a * s + b * s by { assert Extents(e) == a + b; }
    assert e.x * i <= a * s && e.y * j <= b * s by { Grow(e.x, a, i, s); Grow(e.y, b, j, s); }
  }

  lemma Grow(c: int, m: int, i: int, s: int)
    requires c <= m && 0 <= m && 0 <= i <= s
    ensures c * i <= m * s
  {
    assert c * i <= m * i && m * i <= m * s;
  }

  /** A rejected tile has no covered pixel. */
  lemma RejectSound(e: Edges, sc: Scissor, n: nat, x: nat, y: nat, px: int, py: int)
    requires Rejected(Eval(e, x, y), DeltaOf(e), n) && InTile(n, x, y, px, py)
    ensures !Covered(e, sc, px, py)
  {
    StepEdge(e.a, x, y, px - x, py - y);
    StepEdge(e.b, x, y, px - x, py - y);
    StepEdge(e.c, x, y, px - x, py - y);
    ExtentBounds(e.a, Pow2(n), px - x, py - y);
    ExtentBounds(e.b, Pow2(n), px - x, py - y);
    ExtentBounds(e.c, Pow2(n), px - x, py - y);
  }

  /** The polynomial of an edge is negative on a whole square, far sides included. */
  ghost predicate NegativeOn(e: Vec3, x: int, y: int, s: int) {
    forall i: int, j: int :: 0 <= i <= s && 0 <= j <= s ==> AtOffset(e, x, y, i, j) < 0
  }

  function AtOffset(e: Vec3, x: int, y: int, i: int, j: int): int { e.x * (x + i) + e.y * (y + j) + e.z }

  lemma OffsetMeans(e: Vec3, x: int, y: int, i: int, j: int)
    ensures AtOffset(e, x, y, i, j) == EvalEdge(e, x, y) + e.x * i + e.y * j
  {
  }

  lemma EdgeReject(e: Vec3, x: int, y: int, s: nat)
    ensures EvalEdge(e, x, y) + Extents(e) * s < 0 <==> NegativeOn(e, x, y, s)
  {
    hide EvalEdge, AtOffset;
    var a, b := if e.x >= 0 then e.x else 0, if e.y >= 0 then e.y else 0;
    assert Extents(e) * s == a * s + b * s by { assert Extents(e) == a + b; }
    forall i: int, j: int | 0 <= i <= s && 0 <= j <= s ensures AtOffset(e, x, y, i, j) <= EvalEdge(e, x, y) + Extents(e) * s {
      OffsetMeans(e, x, y, i, j);
      Grow(e.x, a, i, s);
      Grow(e.y, b, j, s);
    }
    var i, j := if e.x >= 0 then s else 0, if e.y >= 0 then s else 0;
    OffsetMeans(e, x, y, i, j);
    assert e.x * i == a * s && e.y * j == b * s;
  }

  /** A tile is rejected exactly when one of its edges is negative on the whole square of the tile. */
  lemma RejectExact(e: Edges, n: nat, x: nat, y: nat)
    ensures Rejected(Eval(e, x, y), DeltaOf(e), n)
       <==> NegativeOn(e.a, x, y, Pow2(n)) || NegativeOn(e.b, x, y, Pow2(n)) || NegativeOn(e.c, x, y, Pow2(n))
  {
    hide EvalEdge, Extents, NegativeOn;
    EdgeReject(e.a, x, y, Pow2(n));
    EdgeReject(e.b, x, y, Pow2(n));
    EdgeReject(e.c, x, y, Pow2(n));
  }

  // ---- The quad ----

  /** The mask of four coverage bits has exactly those bits. */
  lemma MaskBits(c0: bool, c1: bool, c2: bool, c3: bool, mask: nat)
    requires mask == (if c0 then 1 else 0) + (if c1 then 2 else 0) + (if c2 then 4 else 0) + (if c3 then 8 else 0)
    ensures Bit(mask, 0) == c0 && Bit(mask, 1) == c1 && Bit(mask, 2) == c2 && Bit(mask, 3) == c3
    ensures mask < 16
  {
    SmallPowers();
  }

  lemma SmallPowers()
    ensures Pow2(0) == 1 && Pow2(1) == 2 && Pow2(2) == 4 && Pow2(3) == 8 && Pow2(4) == 16
  {
    assert Pow2(2) == 2 * Pow2(1) && Pow2(3) == 2 * Pow2(2) && Pow2(4) == 2 * Pow2(3);
  }

  lemma QuadPixels(x: nat, y: nat, pid: nat, e: Edges, sc: Scissor, px: int, py: int)
    ensures Count(RenderQuad(x, y, pid, Eval(e, x, y), DeltaOf(e), sc), px, py)
         == if InTile(1, x, y, px, py) && Covered(e, sc, px, py) then 1 else 0
  {
    var v, d := Eval(e, x, y), DeltaOf(e);
    SmallPowers();
    if Rejected(v, d, 1) {
      if InTile(1, x, y, px, py) { RejectSound(e, sc, 1, x, y, px, py); }
    } else {
      StepEval(e, x, y, 0, 0);
      StepEval(e, x, y, 1, 0);
      StepEval(e, x, y, 0, 1);
      StepEval(e, x, y, 1, 1);
      var c0, c1, c2, c3 := Covered(e, sc, x, y), Covered(e, sc, x + 1, y), Covered(e, sc, x, y + 1), Covered(e, sc, x + 1, y + 1);
      var out := RenderQuad(x, y, pid, v, d, sc);
      hide Eval, DeltaOf, QuadValue, Pow2;
      var mask := Coverage(x, y, v, d, sc, 0, 0) + Coverage(x, y, v, d, sc, 1, 0)
                  + Coverage(x, y, v, d, sc, 0, 1) + Coverage(x, y, v, d, sc, 1, 1);
      MaskBits(c0, c1, c2, c3, mask);
      hide Bit, Covered, Coverage;
      if mask != 0 { assert |out| == 1 && out[1..] == []; }
    }
  }

  // ---- The tile ----

  /** The four subtiles share out the pixels of their parent. */
  lemma SubtilePixels(n: nat, x: nat, y: nat, px: int, py: int)
    requires n >= 1
    ensures var h := Pow2(n - 1);
      && (InTile(n, x, y, px, py)
          <==> InTile(n - 1, x, y, px, py) || InTile(n - 1, x + h, y, px, py)
               || InTile(n - 1, x, y + h, px, py) || InTile(n - 1, x + h, y + h, px, py))
      && !(InTile(n - 1, x, y, px, py) && (InTile(n - 1, x + h, y, px, py) || InTile(n - 1, x, y + h, px, py)))
      && !(InTile(n - 1, x + h, y + h, px, py) && (InTile(n - 1, x + h, y, px, py) || InTile(n - 1, x, y + h, px, py)))
      && !(InTile(n - 1, x, y, px, py) && InTile(n - 1, x + h, y + h, px, py))
      && !(InTile(n - 1, x + h, y, px, py) && InTile(n - 1, x, y + h, px, py))
  {
  }

  /** The descent reports each covered pixel of the tile once and nothing else. */
  lemma {:induction false} TilePixels(n: nat, x: nat, y: nat, pid: nat, e: Edges, sc: Scissor, px: int, py: int)
    requires n >= 1
    ensures Count(RenderTile(n, x, y, pid, Eval(e, x, y), DeltaOf(e), sc), px, py)
         == if InTile(n, x, y, px, py) && Covered(e, sc, px, py) then 1 else 0
  {
    hide *;
    if Rejected(Eval(e, x, y), DeltaOf(e), n) {
      RejectedTile(n, x, y, pid, e, sc, px, py);
      if InTile(n, x, y, px, py) { RejectSound(e, sc, n, x, y, px, py); }
    } else if n == 1 {
      LastTile(x, y, pid, e, sc);
      QuadPixels(x, y, pid, e, sc, px, py);
    } else {
      var h := Pow2(n - 1);
      TilePixels(n - 1, x, y, pid, e, sc, px, py);
      TilePixels(n - 1, x + h, y, pid, e, sc, px, py);
      TilePixels(n - 1, x, y + h, pid, e, sc, px, py);
      TilePixels(n - 1, x + h, y + h, pid, e, sc, px, py);
      SubtilePixels(n, x, y, px, py);
      TileParts(n, x, y, pid, e, sc, px, py);
    }
  }

  lemma RejectedTile(n: nat, x: nat, y: nat, pid: nat, e: Edges, sc: Scissor, px: int, py: int)
    requires Rejected(Eval(e, x, y), DeltaOf(e), n)
    ensures Count(RenderTile(n, x, y, pid, Eval(e, x, y), DeltaOf(e), sc), px, py) == 0
  {
  }

  lemma LastTile(x: nat, y: nat, pid: nat, e: Edges, sc: Scissor)
    ensures var v, d := Eval(e, x, y), DeltaOf(e);
      RenderTile(1, x, y, pid, v, d, sc) == RenderQuad(x, y, pid, v, d, sc)
  {
  }

  lemma TileParts(n: nat, x: nat, y: nat, pid: nat, e: Edges, sc: Scissor, px: int, py: int)
    requires n > 1 && !Rejected(Eval(e, x, y), DeltaOf(e), n)
    ensures var h, d := Pow2(n - 1), DeltaOf(e);
      Count(RenderTile(n, x, y, pid, Eval(e, x, y), d, sc), px, py)
      == Count(RenderTile(n - 1, x, y, pid, Eval(e, x, y), d, sc), px, py)
         + Count(RenderTile(n - 1, x + h, y, pid, Eval(e, x + h, y), d, sc), px, py)
         + Count(RenderTile(n - 1, x, y + h, pid, Eval(e, x, y + h), d, sc), px, py)
         + Count(RenderTile(n - 1, x + h, y + h, pid, Eval(e, x + h, y + h), d, sc), px, py)
  {
    var h, d := Pow2(n - 1), DeltaOf(e);
    StepTile(e, x, y, n - 1);
    var a, b := RenderTile(n - 1, x, y, pid, Eval(e, x, y), d, sc), RenderTile(n - 1, x + h, y, pid, Eval(e, x + h, y), d, sc);
    var a', b' := RenderTile(n - 1, x, y + h, pid, Eval(e, x, y + h), d, sc),
                  RenderTile(n - 1, x + h, y + h, pid, Eval(e, x + h, y + h), d, sc);
    assert RenderTile(n, x, y, pid, Eval(e, x, y), d, sc) == a + b + a' + b';
    hide RenderTile, Eval, DeltaOf, Count;
    CountConcat(a + b + a', b', px, py);
    CountConcat(a + b, a', px, py);
    CountConcat(a, b, px, py);
  }

  predicate Even(a: int) { a % 2 == 0 }

  lemma EvenSum(a: int, b: int)
    requires Even(a) && Even(b)
    ensures Even(a + b)
  {
  }

  /** What every stamp of a tile carries: its place, its primitive and the true edge values of its pixels. */
  ghost predicate StampOf(s: Stamp, n: nat, x: nat, y: nat, pid: nat, e: Edges, sc: Scissor) {
    && s.pid == pid && 0 < s.mask < 16
    && Even(s.x - x) && Even(s.y - y)
    && x <= s.x && s.x + 2 <= x + Pow2(n) && y <= s.y && s.y + 2 <= y + Pow2(n)
    && |s.bcoords| == 4
    && (forall p :: 0 <= p < 4 ==> s.bcoords[p] == Eval(e, s.x + p % 2, s.y + p / 2))
    && (forall p :: 0 <= p < 4 ==> (Bit(s.mask, p) <==> Covered(e, sc, s.x + p % 2, s.y + p / 2)))
  }

  lemma QuadStamps(x: nat, y: nat, pid: nat, e: Edges, sc: Scissor)
    ensures forall s :: s in RenderQuad(x, y, pid, Eval(e, x, y), DeltaOf(e), sc) ==> StampOf(s, 1, x, y, pid, e, sc)
  {
    SmallPowers();
    StepEval(e, x, y, 0, 0);
    StepEval(e, x, y, 1, 0);
    StepEval(e, x, y, 0, 1);
    StepEval(e, x, y, 1, 1);
    QuadBits(x, y, e, sc);
    hide Eval, DeltaOf, QuadValue, Pow2, Coverage, Covered, Bit, Rejected;
  }

  /** The mask of a quad has a bit for each covered pixel. */
  lemma QuadBits(x: nat, y: nat, e: Edges, sc: Scissor)
    ensures var v, d := Eval(e, x, y), DeltaOf(e);
      var mask := Coverage(x, y, v, d, sc, 0, 0) + Coverage(x, y, v, d, sc, 1, 0)
                  + Coverage(x, y, v, d, sc, 0, 1) + Coverage(x, y, v, d, sc, 1, 1);
      && (forall p :: 0 <= p < 4 ==> (Bit(mask, p) <==> Covered(e, sc, x + p % 2, y + p / 2)))
      && mask < 16
  {
    var v, d := Eval(e, x, y), DeltaOf(e);
    SmallPowers();
    StepEval(e, x, y, 0, 0);
    StepEval(e, x, y, 1, 0);
    StepEval(e, x, y, 0, 1);
    StepEval(e, x, y, 1, 1);
    hide Eval, DeltaOf, QuadValue, Pow2, Bit;
    MaskBits(Covered(e, sc, x, y), Covered(e, sc, x + 1, y), Covered(e, sc, x, y + 1), Covered(e, sc, x + 1, y + 1),
             Coverage(x, y, v, d, sc, 0, 0) + Coverage(x, y, v, d, sc, 1, 0)
             + Coverage(x, y, v, d, sc, 0, 1) + Coverage(x, y, v, d, sc, 1, 1));
  }

  lemma WidenStamp(s: Stamp, n: nat, x: nat, y: nat, dx: nat, dy: nat, pid: nat, e: Edges, sc: Scissor)
    requires StampOf(s, n, x + dx, y + dy, pid, e, sc) && Even(dx) && Even(dy)
    requires dx <= Pow2(n) && dy <= Pow2(n)
    ensures StampOf(s, n + 1, x, y, pid, e, sc)
  {
    hide Eval, Even;
    EvenSum(s.x - (x + dx), dx);
    EvenSum(s.y - (y + dy), dy);
  }

  lemma TileMember(n: nat, x: nat, y: nat, pid: nat, e: Edges, sc: Scissor, s: Stamp)
    requires n > 1 && s in RenderTile(n, x, y, pid, Eval(e, x, y), DeltaOf(e), sc)
    ensures var m, h, d := n - 1, Pow2(n - 1), DeltaOf(e);
      || s in RenderTile(m, x, y, pid, Eval(e, x, y), d, sc)
      || s in RenderTile(m, x + h, y, pid, Eval(e, x + h, y), d, sc)
      || s in RenderTile(m, x, y + h, pid, Eval(e, x, y + h), d, sc)
      || s in RenderTile(m, x + h, y + h, pid, Eval(e, x + h, y + h), d, sc)
  {
    StepTile(e, x, y, n - 1);
    hide Eval, DeltaOf, ShiftAdd, Pow2;
  }

  /** The edge values passed down are those of direct evaluation, and every stamp lies in the tile. */
  lemma {:induction false} TileStamps(n: nat, x: nat, y: nat, pid: nat, e: Edges, sc: Scissor, s: Stamp)
    requires n >= 1 && s in RenderTile(n, x, y, pid, Eval(e, x, y), DeltaOf(e), sc)
    ensures StampOf(s, n, x, y, pid, e, sc)
  {
    hide *;
    if n == 1 {
      LastTile(x, y, pid, e, sc);
      QuadStamps(x, y, pid, e, sc);
    } else {
      var m, h := n - 1, Pow2(n - 1);
      var d := DeltaOf(e);
      TileMember(n, x, y, pid, e, sc, s);
      EvenPow(m);
      if s in RenderTile(m, x, y, pid, Eval(e, x, y), d, sc) {
        TileStamps(m, x, y, pid, e, sc, s);
        WidenStamp(s, m, x, y, 0, 0, pid, e, sc);
      } else if s in RenderTile(m, x + h, y, pid, Eval(e, x + h, y), d, sc) {
        TileStamps(m, x + h, y, pid, e, sc, s);
        WidenStamp(s, m, x, y, h, 0, pid, e, sc);
      } else if s in RenderTile(m, x, y + h, pid, Eval(e, x, y + h), d, sc) {
        TileStamps(m, x, y + h, pid, e, sc, s);
        WidenStamp(s, m, x, y, 0, h, pid, e, sc);
      } else {
        TileStamps(m, x + h, y + h, pid, e, sc, s);
        WidenStamp(s, m, x, y, h, h, pid, e, sc);
      }
    }
  }

  lemma EvenPow(n: nat)
    requires n >= 1
    ensures Even(Pow2(n)) && Even(0)
  {
  }

  /** Pixel px, py lies on the inner side of one edge. */
  lemma EdgeMeans(e: Vec3, px: int, py: int)
    ensures EvalEdge(e, px, py) == e.x * px + e.y * py + e.z
  {
  }

  lemma CoveredMeans(e: Edges, sc: Scissor, px: int, py: int)
    ensures Covered(e, sc, px, py)
       <==> && sc.left <= px < sc.right && sc.top <= py < sc.bottom
            && e.a.x * px + e.a.y * py + e.a.z >= 0
            && e.b.x * px + e.b.y * py + e.b.z >= 0
            && e.c.x * px + e.c.y * py + e.c.z >= 0
  {
    EdgeMeans(e.a, px, py);
    EdgeMeans(e.b, px, py);
    EdgeMeans(e.c, px, py);
    hide EvalEdge;
  }

  /**
   Rasterising is brute force: a pixel is reported once when it lies in the tile and in the scissor
   and none of the three edge polynomials is negative there, and never otherwise.
   */
  lemma PrimitiveMeansPixels(n: nat, x: nat, y: nat, pid: nat, e: Edges, sc: Scissor, px: int, py: int)
    requires n >= 1
    ensures Count(RenderPrimitive(n, x, y, pid, e, sc), px, py)
         == if && x <= px < x + Pow2(n) && y <= py < y + Pow2(n)
               && sc.left <= px < sc.right && sc.top <= py < sc.bottom
               && e.a.x * px + e.a.y * py + e.a.z >= 0
               && e.b.x * px + e.b.y * py + e.b.z >= 0
               && e.c.x * px + e.c.y * py + e.c.z >= 0
            then 1 else 0
  {
    hide *;
    PrimitiveIs(n, x, y, pid, e, sc);
    TilePixels(n, x, y, pid, e, sc, px, py);
    InTileMeans(n, x, y, px, py);
    CoveredMeans(e, sc, px, py);
  }

  lemma PrimitiveIs(n: nat, x: nat, y: nat, pid: nat, e: Edges, sc: Scissor)
    ensures RenderPrimitive(n, x, y, pid, e, sc) == RenderTile(n, x, y, pid, Eval(e, x, y), DeltaOf(e), sc)
  {
  }

  lemma InTileMeans(n: nat, x: nat, y: nat, px: int, py: int)
    ensures InTile(n, x, y, px, py) <==> x <= px < x + Pow2(n) && y <= py < y + Pow2(n)
  {
  }

  /**
   Every report carries the primitive and, for each of its four pixels, at the same place, the values of
   the three edge polynomials and a mask bit that is set exactly when the pixel is to be drawn.
   */
  lemma PrimitiveMeansValues(n: nat, x: nat, y: nat, pid: nat, e: Edges, sc: Scissor, s: Stamp, px: int, py: int)
    requires n >= 1 && s in RenderPrimitive(n, x, y, pid, e, sc)
    requires s.x <= px < s.x + 2 && s.y <= py < s.y + 2
    ensures s.pid == pid && |s.bcoords| == 4
    ensures x <= px < x + Pow2(n) && y <= py < y + Pow2(n)
    ensures var v := s.bcoords[(py - s.y) * 2 + (px - s.x)];
      && v.x == e.a.x * px + e.a.y * py + e.a.z
      && v.y == e.b.x * px + e.b.y * py + e.b.z
      && v.z == e.c.x * px + e.c.y * py + e.c.z
      && (s.mask / Pow2((py - s.y) * 2 + (px - s.x)) % 2 == 1
          <==> v.x >= 0 && v.y >= 0 && v.z >= 0 && sc.left <= px < sc.right && sc.top <= py < sc.bottom)
  {
    hide *;
    PrimitiveIs(n, x, y, pid, e, sc);
    TileStamps(n, x, y, pid, e, sc, s);
    BitIs(s.mask, (py - s.y) * 2 + (px - s.x));
    CoveredMeans(e, sc, px, py);
    StampPixel(s, n, x, y, pid, e, sc, px - s.x, py - s.y);
    EvalMeans(e, px, py);
  }

  lemma BitIs(mask: nat, p: nat)
    ensures Bit(mask, p) <==> mask / Pow2(p) % 2 == 1
  {
  }

  lemma StampPixel(s: Stamp, n: nat, x: nat, y: nat, pid: nat, e: Edges, sc: Scissor, i: nat, j: nat)
    requires StampOf(s, n, x, y, pid, e, sc) && i < 2 && j < 2
    ensures s.pid == pid && |s.bcoords| == 4 && s.bcoords[j * 2 + i] == Eval(e, s.x + i, s.y + j)
    ensures x <= s.x + i < x + Pow2(n) && y <= s.y + j < y + Pow2(n)
    ensures Bit(s.mask, j * 2 + i) <==> Covered(e, sc, s.x + i, s.y + j)
  {
    hide Eval, Even, Bit, Covered, Pow2;
    var p := j * 2 + i;
    assert s.bcoords[p] == Eval(e, s.x + p % 2, s.y + p / 2);
    assert Bit(s.mask, p) <==> Covered(e, sc, s.x + p % 2, s.y + p / 2);
  }

  lemma EvalMeans(e: Edges, px: int, py: int)
    ensures var v := Eval(e, px, py);
      && v.x == e.a.x * px + e.a.y * py + e.a.z
      && v.y == e.b.x * px + e.b.y * py + e.b.z
      && v.z == e.c.x * px + e.c.y * py + e.c.z
  {
    EdgeMeans(e.a, px, py);
    EdgeMeans(e.b, px, py);
    EdgeMeans(e.c, px, py);
    hide EvalEdge;
  }

  // ---- The packed position ----

  const DIM_BITS: nat := 15

  /** The 32-bit word handed to the shader. */
  function PosMask(x: nat, y: nat, mask: nat): nat {
    Or((y / 2 * Pow2(4 + DIM_BITS - 1)) % Pow2(32), Or((x / 2 * Pow2(4)) % Pow2(32), mask))
  }

  /** What the shader reads out of the word. */
  function WordMask(w: nat): nat { w % Pow2(4) }

  function WordX(w: nat): nat { w / Pow2(4) % Pow2(DIM_BITS - 1) }

  function WordY(w: nat): nat { w / Pow2(4 + DIM_BITS - 1) % Pow2(DIM_BITS - 1) }

  /** The pixels the shader takes the word to name. */
  predicate WordReports(w: nat, px: int, py: int) {
    && px / 2 == WordX(w) && py / 2 == WordY(w)
    && Bit(WordMask(w), (py % 2) * 2 + px % 2)
  }

  lemma Powers()
    ensures Pow2(4) == 16 && Pow2(14) == 0x4000 && Pow2(15) == 0x8000 && Pow2(18) == 0x40000 && Pow2(32) == 0x1_0000_0000
    ensures Pow2(DIM_BITS) == 0x8000
  {
    SmallPowers();
    Pow2Add(4, 4);
    Pow2Add(8, 4);
    Pow2Add(12, 2);
    Pow2Add(14, 1);
    Pow2Add(14, 4);
    Pow2Add(14, 18);
  }

  /** Coordinates that fit are laid side by side. */
  lemma Packed(x: nat, y: nat, mask: nat)
    requires mask < 16 && x / 2 < Pow2(14) && y / 2 < Pow2(14)
    ensures PosMask(x, y, mask) == y / 2 * Pow2(18) + (x / 2 * Pow2(4) + mask)
  {
    hide Pow2, Or;
    Powers();
    var qx, qy := x / 2, y / 2;
    OrDisjoint(qx, mask, 4);
    OrDisjoint(qy, qx * 16 + mask, 18);
    assert (qx * 16) % 0x1_0000_0000 == qx * 16;
    assert (qy * 0x40000) % 0x1_0000_0000 == qy * 0x40000;
  }

  lemma Unpacked(qx: nat, qy: nat, mask: nat)
    requires mask < Pow2(4) && qx < Pow2(14) && qy < Pow2(14)
    ensures var w := qy * Pow2(18) + (qx * Pow2(4) + mask);
      WordX(w) == qx && WordY(w) == qy && WordMask(w) == mask
  {
    hide Pow2;
    Powers();
  }

  lemma WordRange(w: nat)
    ensures 2 * WordX(w) < Pow2(DIM_BITS) && 2 * WordY(w) < Pow2(DIM_BITS)
  {
    Powers();
    hide Pow2;
  }

  /** A coordinate the word can hold. */
  predicate Fits(x: nat) { Even(x) && x < Pow2(DIM_BITS) }

  /** The word names its quad exactly for even origins below 2^15. */
  lemma PosMaskExact(x: nat, y: nat, mask: nat)
    requires mask < 16
    ensures var w := PosMask(x, y, mask);
      2 * WordX(w) == x && 2 * WordY(w) == y && WordMask(w) == mask
      <==> Fits(x) && Fits(y)
  {
    Powers();
    WordRange(PosMask(x, y, mask));
    hide PosMask, WordX, WordY, WordMask, Pow2;
    if x / 2 < 0x4000 && y / 2 < 0x4000 {
      Packed(x, y, mask);
      Unpacked(x / 2, y / 2, mask);
    }
  }

  // ---- What the shader sees ----

  /** How often the packed words of the reports name a pixel. */
  function WordCount(out: seq<Stamp>, px: int, py: int): nat {
    if out == [] then 0
    else (if WordReports(PosMask(out[0].x, out[0].y, out[0].mask), px, py) then 1 else 0) + WordCount(out[1..], px, py)
  }

  lemma WordMeansStamp(s: Stamp, px: int, py: int)
    requires Fits(s.x) && Fits(s.y) && s.mask < 16
    ensures WordReports(PosMask(s.x, s.y, s.mask), px, py) <==> Reports(s, px, py)
  {
    hide PosMask, WordX, WordY, WordMask, Pow2, Bit, Fits;
    PosMaskExact(s.x, s.y, s.mask);
    SamePair(px, WordX(PosMask(s.x, s.y, s.mask)));
    SamePair(py, WordY(PosMask(s.x, s.y, s.mask)));
  }

  /** The two pixels of a pair, by the number of the pair. */
  lemma SamePair(p: int, q: nat)
    ensures p / 2 == q <==> 2 * q <= p < 2 * q + 2
    ensures p / 2 == q ==> p % 2 == p - 2 * q
  {
  }

  lemma {:induction false} WordCountMeans(out: seq<Stamp>, px: int, py: int)
    requires forall s :: s in out ==> Fits(s.x) && Fits(s.y) && s.mask < 16
    ensures WordCount(out, px, py) == Count(out, px, py)
  {
    if out != [] {
      hide Fits, PosMask, WordReports, Reports;
      WordMeansStamp(out[0], px, py);
      WordCountMeans(out[1..], px, py);
    }
  }

  /**
   From an even tile origin the shader is told of each pixel of the tile that is in the scissor and on
   the inner side of the three edges once, and of no other.
   */
  lemma ShaderSeesPixels(n: nat, x: nat, y: nat, pid: nat, e: Edges, sc: Scissor, px: int, py: int)
    requires n >= 1 && x % 2 == 0 && y % 2 == 0
    requires x + Pow2(n) <= 0x8000 && y + Pow2(n) <= 0x8000
    ensures WordCount(RenderPrimitive(n, x, y, pid, e, sc), px, py)
         == if && x <= px < x + Pow2(n) && y <= py < y + Pow2(n)
               && sc.left <= px < sc.right && sc.top <= py < sc.bottom
               && e.a.x * px + e.a.y * py + e.a.z >= 0
               && e.b.x * px + e.b.y * py + e.b.z >= 0
               && e.c.x * px + e.c.y * py + e.c.z >= 0
            then 1 else 0
  {
    hide *;
    var out := RenderPrimitive(n, x, y, pid, e, sc);
    PrimitiveMeansPixels(n, x, y, pid, e, sc, px, py);
    PrimitiveIs(n, x, y, pid, e, sc);
    Powers();
    EvenIs(x);
    EvenIs(y);
    forall s | s in out ensures Fits(s.x) && Fits(s.y) && s.mask < 16 {
      TileStamps(n, x, y, pid, e, sc, s);
      StampFits(s, n, x, y, pid, e, sc);
    }
    WordCountMeans(out, px, py);
  }

  lemma EvenIs(a: int)
    ensures Even(a) <==> a % 2 == 0
  {
  }

  /**
   From the odd origin (1, 0), with a scissor that leaves only that pixel: the pixel drawn is (1, 0), the
   pixel the shader is told of is (0, 0).
   */
  lemma OddOriginIsMisplaced(pid: nat)
    ensures var e, sc := Edges(Vec3(0, 0, 0), Vec3(0, 0, 0), Vec3(0, 0, 0)), Scissor(1, 2, 0, 1);
            var out := RenderPrimitive(1, 1, 0, pid, e, sc);
            && Covered(e, sc, 1, 0) && !Covered(e, sc, 0, 0)
            && WordCount(out, 1, 0) == 0 && WordCount(out, 0, 0) == 1
  {
    hide *;
    var z := Vec3(0, 0, 0);
    FlatEdges(z, Scissor(1, 2, 0, 1), 1, 0);
    FlatEdges(z, Scissor(1, 2, 0, 1), 0, 0);
    OnePixel();
    OddStamp(pid);
    OddWord();
    OneWord(Stamp(1, 0, 1, [z, z, z, z], pid), 1, 0);
    OneWord(Stamp(1, 0, 1, [z, z, z, z], pid), 0, 0);
  }

  lemma OneWord(s: Stamp, px: int, py: int)
    ensures WordCount([s], px, py) == if WordReports(PosMask(s.x, s.y, s.mask), px, py) then 1 else 0
  {
    hide WordReports, PosMask;
    assert [s][1..] == [];
  }

  lemma NoTimes(a: int, x: int)
    requires a == 0
    ensures a * x == 0
  {
  }

  lemma FlatEdges(z: Vec3, sc: Scissor, x: int, y: int)
    requires z == Vec3(0, 0, 0)
    ensures Eval(Edges(z, z, z), x, y) == z && DeltaOf(Edges(z, z, z)) == Delta(z, z, z)
    ensures Covered(Edges(z, z, z), sc, x, y) <==> sc.Has(x, y)
  {
    hide EvalEdge;
    FlatEdge(z, x, y);
  }

  lemma OnePixel()
    ensures Scissor(1, 2, 0, 1).Has(1, 0) && !Scissor(1, 2, 0, 1).Has(0, 0)
  {
  }

  lemma FlatEdge(e: Vec3, x: int, y: int)
    requires e == Vec3(0, 0, 0)
    ensures EvalEdge(e, x, y) == 0
  {
    NoTimes(e.x, x);
    NoTimes(e.y, y);
  }

  lemma FlatQuad(z: Vec3, sc: Scissor, n: nat, i: nat, j: nat)
    requires z == Vec3(0, 0, 0) && sc == Scissor(1, 2, 0, 1) && n == 1 && i < 2 && j < 2
    ensures QuadValue(z, Delta(z, z, z), i, j) == z && !Rejected(z, Delta(z, z, z), n)
    ensures Coverage(1, 0, z, Delta(z, z, z), sc, i, j) == if i == 0 && j == 0 then 1 else 0
  {
    hide QuadValue, Rejected, Pow2;
    FlatValue(z, i, j);
    FlatKept(z, n);
    SmallPowers();
  }

  lemma FlatValue(z: Vec3, i: int, j: int)
    requires z == Vec3(0, 0, 0)
    ensures QuadValue(z, Delta(z, z, z), i, j) == z
  {
    NoTimes(z.x, i);
    NoTimes(z.y, i);
    NoTimes(z.z, i);
    NoTimes(z.x, j);
    NoTimes(z.y, j);
    NoTimes(z.z, j);
  }

  lemma FlatKept(z: Vec3, n: nat)
    requires z == Vec3(0, 0, 0)
    ensures !Rejected(z, Delta(z, z, z), n)
  {
    hide Pow2;
    NoTimes(z.x, Pow2(n));
    NoTimes(z.y, Pow2(n));
    NoTimes(z.z, Pow2(n));
  }

  lemma QuadStamp(x: nat, y: nat, pid: nat, v: Vec3, d: Delta, sc: Scissor)
    requires !Rejected(v, d, 1)
    requires Coverage(x, y, v, d, sc, 0, 0) == 1 && Coverage(x, y, v, d, sc, 1, 0) == 0
    requires Coverage(x, y, v, d, sc, 0, 1) == 0 && Coverage(x, y, v, d, sc, 1, 1) == 0
    requires QuadValue(v, d, 0, 0) == QuadValue(v, d, 1, 0) == QuadValue(v, d, 0, 1) == QuadValue(v, d, 1, 1) == v
    ensures RenderTile(1, x, y, pid, v, d, sc) == [Stamp(x, y, 1, [v, v, v, v], pid)]
  {
    hide Rejected, Coverage, QuadValue, ShiftAdd, Pow2;
  }

  lemma OddStamp(pid: nat)
    ensures var z := Vec3(0, 0, 0);
            RenderPrimitive(1, 1, 0, pid, Edges(z, z, z), Scissor(1, 2, 0, 1)) == [Stamp(1, 0, 1, [z, z, z, z], pid)]
  {
    hide RenderTile, QuadValue, Coverage, Rejected, Eval, DeltaOf;
    var z := Vec3(0, 0, 0);
    FlatEdges(z, Scissor(1, 2, 0, 1), 1, 0);
    FlatQuad(z, Scissor(1, 2, 0, 1), 1, 0, 0);
    FlatQuad(z, Scissor(1, 2, 0, 1), 1, 1, 0);
    FlatQuad(z, Scissor(1, 2, 0, 1), 1, 0, 1);
    FlatQuad(z, Scissor(1, 2, 0, 1), 1, 1, 1);
    QuadStamp(1, 0, pid, z, Delta(z, z, z), Scissor(1, 2, 0, 1));
  }

  lemma OddWord()
    ensures var w := PosMask(1, 0, 1); WordReports(w, 0, 0) && !WordReports(w, 1, 0)
  {
    Powers();
    SmallPowers();
    hide PosMask, WordX, WordY, WordMask, Pow2;
    Packed(1, 0, 1);
    Unpacked(0, 0, 1);
  }

  lemma StampFits(s: Stamp, n: nat, x: nat, y: nat, pid: nat, e: Edges, sc: Scissor)
    requires StampOf(s, n, x, y, pid, e, sc) && Even(x) && Even(y)
    requires x + Pow2(n) <= Pow2(DIM_BITS) && y + Pow2(n) <= Pow2(DIM_BITS)
    ensures Fits(s.x) && Fits(s.y) && s.mask < 16
  {
    hide Eval, Even, Pow2;
    EvenSum(s.x - x, x);
    EvenSum(s.y - y, y);
  }
}
