/**
 How vx_spawn_threads shares a grid of blocks out over cores, warps
 and threads. Arithmetic is on unbounded integers; the kernel library
 uses 32-bit words.
 */
module Spawn {
  import opened Arith

  datatype Dim3 = Dim3(x: nat, y: nat, z: nat) {
    function Size(): nat { x * y * z }
    predicate Has(v: Dim3) { v.x < x && v.y < y && v.z < z }
  }

  /** Cores, warps per core and threads per warp. */
  datatype Device = Device(cores: nat, warps: nat, threads: nat) {
    predicate Valid() { cores > 0 && warps > 0 && threads > 0 }
  }

  // ---- Linear ids and coordinates ----

  function Decode(id: nat, d: Dim3): Dim3
    requires d.x > 0 && d.y > 0
  {
    Dim3(id % d.x, (id / d.x) % d.y, id / (d.x * d.y))
  }

  function Encode(v: Dim3, d: Dim3): nat { v.z * (d.x * d.y) + (v.y * d.x + v.x) }

  /** Every id below the size of the box names one of its points. */
  lemma EncodeDecode(id: nat, d: Dim3)
    requires id < d.Size()
    ensures d.x > 0 && d.y > 0 && d.Has(Decode(id, d)) && Encode(Decode(id, d), d) == id
  {
    assert d.x == 0 || d.y == 0 ==> d.x * d.y == 0;
    assert d.Size() == d.z * (d.x * d.y);
    DivDiv(id, d.x, d.y);
    RowBound(id / (d.x * d.y), d.z, d.x * d.y, id % (d.x * d.y));
  }

  /** Every point of the box is named by its id. */
  lemma DecodeEncode(v: Dim3, d: Dim3)
    requires d.Has(v)
    ensures Encode(v, d) < d.Size() && Decode(Encode(v, d), d) == v
  {
    var a, low := d.x * d.y, v.y * d.x + v.x;
    assert a == d.y * d.x && d.Size() == d.z * a;
    RowBound(v.y, d.y, d.x, v.x);
    RowBound(v.z, d.z, a, low);
    Rows(v.x, v.y, v.z, d.x, d.y);
  }

  lemma Rows(x: nat, y: nat, z: nat, a: nat, b: nat)
    requires x < a && y < b && y * a + x < a * b
    ensures var id := z * (a * b) + (y * a + x);
            a > 0 && b > 0 && a * b > 0 && id % a == x && (id / a) % b == y && id / (a * b) == z
  {
    var id := z * (a * b) + (y * a + x);
    DivModUnique(id, a * b, z, y * a + x);
    assert z * (a * b) == (z * b) * a;
    assert (z * b) * a + y * a == (z * b + y) * a;
    DivModUnique(id, a, z * b + y, x);
    DivModUnique(z * b + y, b, z, y);
  }

  // ---- Shares of the cores ----

  /** What core c of n active cores gets of total items. */
  function Share(total: nat, n: nat, c: nat): nat
    requires n > 0
  {
    total / n + (if c < total % n then 1 else 0)
  }

  /** Where the share of core c starts, as the library computes it. */
  function Offset(total: nat, n: nat, c: nat): nat
    requires n > 0
  {
    c * Share(total, n, c) + (if c < total % n then c else total % n)
  }

  function SharesBelow(total: nat, n: nat, c: nat): nat
    requires n > 0
  {
    if c == 0 then 0 else SharesBelow(total, n, c - 1) + Share(total, n, c - 1)
  }

  lemma {:induction false} SharesBelowMeans(total: nat, n: nat, c: nat)
    requires n > 0 && c <= n
    ensures SharesBelow(total, n, c) == c * (total / n) + (if c < total % n then c else total % n)
  {
    if c > 0 { SharesBelowMeans(total, n, c - 1); }
  }

  /** The shares of all active cores add up to the total. */
  lemma SharesAddUp(total: nat, n: nat)
    requires n > 0
    ensures SharesBelow(total, n, n) == total
  {
    SharesBelowMeans(total, n, n);
  }

  /**
   The shares lie end to end exactly when at most one item is left over: a core that got an extra
   item counts it once too often in its own offset.
   */
  lemma SharesTile(total: nat, n: nat)
    requires n > 0
    ensures (forall c :: 0 <= c < n ==> Offset(total, n, c) == SharesBelow(total, n, c)) <==> total % n <= 1
  {
    forall c | 0 <= c < n
      ensures Offset(total, n, c) == SharesBelow(total, n, c) <==> c == 0 || c >= total % n
    {
      SharesBelowMeans(total, n, c);
      if c < total % n { assert c * (total / n + 1) == c * (total / n) + c; }
    }
    if total % n > 1 { assert Offset(total, n, 1) != SharesBelow(total, n, 1); }
  }

  ghost predicate OnCore(total: nat, n: nat, c: nat, item: nat)
    requires n > 0
  {
    c < n && Offset(total, n, c) <= item < Offset(total, n, c) + Share(total, n, c)
  }

  /** The core whose share has the item, when shares lie end to end. */
  lemma {:induction false} CoreBelow(total: nat, n: nat, m: nat, item: nat) returns (c: nat)
    requires n > 0 && m <= n && item < SharesBelow(total, n, m)
    ensures c < m && SharesBelow(total, n, c) <= item < SharesBelow(total, n, c) + Share(total, n, c)
  {
    if SharesBelow(total, n, m - 1) <= item { c := m - 1; } else { c := CoreBelow(total, n, m - 1, item); }
  }

  lemma {:induction false} SharesBelowMonotone(total: nat, n: nat, c: nat, d: nat)
    requires n > 0 && c < d
    ensures SharesBelow(total, n, c) + Share(total, n, c) <= SharesBelow(total, n, d)
  {
    if c < d - 1 { SharesBelowMonotone(total, n, c, d - 1); }
  }

  /** With at most one item left over, every item belongs to exactly one core. */
  lemma ItemHasOneCore(total: nat, n: nat, item: nat) returns (c: nat)
    requires n > 0 && total % n <= 1 && item < total
    ensures c < n && OnCore(total, n, c, item) && forall d: nat :: OnCore(total, n, d, item) ==> d == c
  {
    hide Share, Offset;
    SharesTile(total, n);
    SharesAddUp(total, n);
    c := CoreBelow(total, n, n, item);
    forall d: nat | OnCore(total, n, d, item) ensures d == c {
      if c < d { SharesBelowMonotone(total, n, c, d); }
      if d < c { SharesBelowMonotone(total, n, d, c); }
    }
  }

  /** With more left over, the item after the first core's share belongs to no core. */
  lemma ItemIsLost(total: nat, n: nat, c: nat)
    requires n > 0 && total % n > 1
    ensures total / n + 1 < total && !OnCore(total, n, c, total / n + 1)
  {
    var q, r := total / n, total % n;
    assert total == q * n + r;
    Scaled(n, 2, q);
    if 1 <= c < r {
      Scaled(c, 1, q + 1);
      assert Offset(total, n, c) >= q + 1 + c;
    }
    if r <= c {
      Scaled(c, 2, q);
      assert Offset(total, n, c) >= 2 * q + r;
    }
  }

  // ---- Thread groups on a core ----

  /**
   The work of a core: total groups from offset on, in warps of threads; a group takes
   warpsPerGroup warps, the last of them with lastLanes threads.
   */
  datatype Groups = Groups(offset: nat, total: nat, batches: nat, remaining: nat,
                           warpsPerGroup: nat, groupsPerCore: nat, lastLanes: nat, active: nat)

  ghost predicate GroupsFor(dev: Device, size: nat, p: Groups) {
    && 1 <= p.warpsPerGroup && 1 <= p.lastLanes <= dev.threads
    && size == (p.warpsPerGroup - 1) * dev.threads + p.lastLanes
    && 1 <= p.groupsPerCore && p.groupsPerCore * p.warpsPerGroup <= dev.warps < (p.groupsPerCore + 1) * p.warpsPerGroup
    && if p.total <= p.groupsPerCore
       then p.active == p.total * p.warpsPerGroup && p.batches == 1 && p.remaining == 0
       else p.active == p.groupsPerCore * p.warpsPerGroup
            && p.batches == p.total / p.groupsPerCore && p.remaining == p.total % p.groupsPerCore * p.warpsPerGroup
  }

  function Iterations(batches: nat, remaining: nat, w: nat): nat { batches + (if w < remaining then 1 else 0) }

  /** Thread t of warp w is switched on and makes its k-th pass. */
  predicate RunsGroup(dev: Device, p: Groups, w: nat, t: nat, k: nat)
    requires p.warpsPerGroup > 0
  {
    && w < p.active && k < Iterations(p.batches, p.remaining, w)
    && t < (if w % p.warpsPerGroup == p.warpsPerGroup - 1 then p.lastLanes else dev.threads)
  }

  function GroupId(p: Groups, w: nat, k: nat): nat
    requires p.warpsPerGroup > 0
  {
    p.offset + w / p.warpsPerGroup + k * p.groupsPerCore
  }

  /** The place of thread t of warp w in its group. */
  function LocalTask(dev: Device, p: Groups, w: nat, t: nat): nat
    requires p.warpsPerGroup > 0
  {
    w % p.warpsPerGroup * dev.threads + t
  }

  /** Local group j passes over groups j, j + c, j + 2c, ... below n. */
  lemma PassesOf(n: nat, c: nat, j: nat, k: nat)
    requires c > 0
    ensures j < (if n <= c then n else c) && k < (if n <= c then 1 else n / c + (if j < n % c then 1 else 0))
       <==> j < c && j + k * c < n
  {
    var q, r := n / c, n % c;
    assert n == q * c + r;
    if j < c { RowCompare(k, q, j, r, c); }
    if n < c { DivModUnique(n, c, 0, n); }
    if n == c { DivModUnique(n, c, 1, 0); }
  }

  /** Comparing warps is comparing local groups. */
  lemma WarpSlot(w: nat, m: nat, g: nat)
    requires g > 0
    ensures w < m * g <==> w / g < m
  {
    assert w == w / g * g + w % g;
    if w / g < m { assert (w / g + 1) * g <= m * g; } else { assert w / g * g >= m * g; }
  }

  /** A pass is made exactly for the groups of the core's share. */
  lemma RunsGroupMeans(dev: Device, size: nat, p: Groups, w: nat, t: nat, k: nat)
    requires dev.Valid() && GroupsFor(dev, size, p)
    ensures RunsGroup(dev, p, w, t, k) <==>
      && w / p.warpsPerGroup < p.groupsPerCore && GroupId(p, w, k) < p.offset + p.total
      && t < dev.threads && LocalTask(dev, p, w, t) < size
  {
    var g := p.warpsPerGroup;
    var j := w / g;
    PassesOf(p.total, p.groupsPerCore, j, k);
    WarpSlot(w, p.total, g);
    WarpSlot(w, p.groupsPerCore, g);
    WarpSlot(w, p.total % p.groupsPerCore, g);
    LanesOfGroup(w % g, g, t, dev.threads, p.lastLanes, size);
  }

  lemma LanesOfGroup(i: nat, g: nat, t: nat, threads: nat, last: nat, size: nat)
    requires i < g && 1 <= last <= threads && size == (g - 1) * threads + last
    ensures t < (if i == g - 1 then last else threads) <==> t < threads && i * threads + t < size
  {
    if i < g - 1 { assert (i + 1) * threads <= (g - 1) * threads; }
  }

  /** The warp, lane and pass that have a given thread of a given group. */
  lemma GroupPlace(dev: Device, size: nat, p: Groups, group: nat, task: nat) returns (w: nat, t: nat, k: nat)
    requires dev.Valid() && GroupsFor(dev, size, p)
    requires p.offset <= group < p.offset + p.total && task < size
    ensures RunsGroup(dev, p, w, t, k) && GroupId(p, w, k) == group && LocalTask(dev, p, w, t) == task
  {
    var r := group - p.offset;
    assert 0 < p.warpsPerGroup && 0 < p.groupsPerCore && task < (p.warpsPerGroup - 1) * dev.threads + p.lastLanes;
    w, t, k := Place(r, p.groupsPerCore, task, dev.threads, p.warpsPerGroup, p.lastLanes);
    PlaceId(dev, p, w, t, k, r, task);
    hide *;
    RunsGroupMeans(dev, size, p, w, t, k);
  }

  lemma Place(r: nat, c: nat, task: nat, m: nat, g: nat, last: nat) returns (w: nat, t: nat, k: nat)
    requires c > 0 && g > 0 && 1 <= last <= m && task < (g - 1) * m + last
    ensures w / g == r % c && w % g == task / m && t == task % m && k == r / c
  {
    k, t := r / c, task % m;
    w := r % c * g + task / m;
    TaskRow(task, m, g, last);
    DivModUnique(w, g, r % c, task / m);
  }

  lemma PlaceId(dev: Device, p: Groups, w: nat, t: nat, k: nat, r: nat, task: nat)
    requires p.warpsPerGroup > 0 && p.groupsPerCore > 0 && dev.threads > 0
    requires w / p.warpsPerGroup == r % p.groupsPerCore && w % p.warpsPerGroup == task / dev.threads
    requires k == r / p.groupsPerCore && t == task % dev.threads
    ensures GroupId(p, w, k) == p.offset + r && LocalTask(dev, p, w, t) == task
  {
  }

  lemma TaskRow(task: nat, m: nat, g: nat, last: nat)
    requires 1 <= last <= m && g > 0 && task < (g - 1) * m + last
    ensures task / m < g
  {
    assert g * m == (g - 1) * m + m;
    RowBound(task / m, g, m, task % m);
  }

  lemma GroupPlaceUnique(dev: Device, size: nat, p: Groups, w: nat, t: nat, k: nat)
    requires dev.Valid() && GroupsFor(dev, size, p) && RunsGroup(dev, p, w, t, k)
    ensures var r, task := GroupId(p, w, k) - p.offset, LocalTask(dev, p, w, t);
            && w == r % p.groupsPerCore * p.warpsPerGroup + task / dev.threads
            && t == task % dev.threads && k == r / p.groupsPerCore
            && r < p.total && task < size
  {
    var g, c, m := p.warpsPerGroup, p.groupsPerCore, dev.threads;
    RunsGroupMeans(dev, size, p, w, t, k);
    hide GroupsFor, RunsGroup;
    Unplace(w, t, k, g, c, m);
  }

  lemma Unplace(w: nat, t: nat, k: nat, g: nat, c: nat, m: nat)
    requires g > 0 && w / g < c && t < m
    ensures (w / g + k * c) / c == k && (w / g + k * c) % c == w / g
    ensures (w % g * m + t) / m == w % g && (w % g * m + t) % m == t
    ensures w == w / g * g + w % g
  {
    DivModUnique(w / g + k * c, c, k, w / g);
    DivModUnique(w % g * m + t, m, w % g, t);
  }

  /**
   On one core every block of its share and every thread of the block runs exactly once: one warp,
   lane and pass has them.
   */
  lemma GroupsRunOnce(dev: Device, p: Groups, grid: Dim3, block: Dim3, b: Dim3, th: Dim3) returns (w: nat, t: nat, k: nat)
    requires dev.Valid() && GroupsFor(dev, block.Size(), p)
    requires grid.Has(b) && block.Has(th) && p.offset <= Encode(b, grid) < p.offset + p.total
    ensures RunsGroup(dev, p, w, t, k)
    ensures Decode(GroupId(p, w, k), grid) == b && Decode(LocalTask(dev, p, w, t), block) == th
    ensures forall w', t', k' ::
      RunsGroup(dev, p, w', t', k') && Decode(GroupId(p, w', k'), grid) == b && Decode(LocalTask(dev, p, w', t'), block) == th
      ==> w' == w && t' == t && k' == k
  {
    hide RunsGroup, GroupId, LocalTask, Decode, Encode, Dim3.Size;
    var group, task := Encode(b, grid), Encode(th, block);
    DecodeEncode(b, grid);
    DecodeEncode(th, block);
    w, t, k := GroupPlace(dev, block.Size(), p, group, task);
    GroupPlaceUnique(dev, block.Size(), p, w, t, k);
    forall w', t', k' | RunsGroup(dev, p, w', t', k') && Decode(GroupId(p, w', k'), grid) == b
                        && Decode(LocalTask(dev, p, w', t'), block) == th
      ensures w' == w && t' == t && k' == k
    {
      GroupPlaceUnique(dev, block.Size(), p, w', t', k');
      EncodeBack(GroupId(p, w', k'), grid, b);
      EncodeBack(LocalTask(dev, p, w', t'), block, th);
    }
  }

  /** Different ids never decode to the same point. */
  lemma EncodeBack(id: nat, d: Dim3, v: Dim3)
    requires d.Has(v)
    ensures d.x > 0 && d.y > 0 && (Decode(id, d) == v ==> Encode(v, d) == id)
  {
    DivDiv(id, d.x, d.y);
  }

  /**
   A launch whose groups leave at most one over: over all active cores, every block and every thread
   of the block runs exactly once.
   */
  lemma GridRunsOnce(dev: Device, plans: seq<Groups>, grid: Dim3, block: Dim3, b: Dim3, th: Dim3)
      returns (c: nat, w: nat, t: nat, k: nat)
    requires dev.Valid() && plans != [] && grid.Size() % |plans| <= 1 && grid.Has(b) && block.Has(th)
    requires forall d :: 0 <= d < |plans| ==> PlanFor(dev, plans, grid, block, d)
    ensures c < |plans| && plans[c].warpsPerGroup > 0 && Runs(dev, plans[c], grid, block, b, th, w, t, k)
    ensures forall c', w', t', k' ::
      0 <= c' < |plans| && plans[c'].warpsPerGroup > 0 && Runs(dev, plans[c'], grid, block, b, th, w', t', k')
      ==> c' == c && w' == w && t' == t && k' == k
  {
    hide *;
    var group := Encode(b, grid);
    DecodeEncode(b, grid);
    c := ItemHasOneCore(grid.Size(), |plans|, group);
    PlanIs(dev, plans, grid, block, c, group);
    w, t, k := GroupsRunOnce(dev, plans[c], grid, block, b, th);
    HasSides(grid, b);
    HasSides(block, th);
    RunsIs(dev, plans[c], grid, block, b, th);
    forall c', w', t', k' | 0 <= c' < |plans| && plans[c'].warpsPerGroup > 0 && Runs(dev, plans[c'], grid, block, b, th, w', t', k')
      ensures c' == c && w' == w && t' == t && k' == k
    {
      PlanIs(dev, plans, grid, block, c', group);
      RunsIs(dev, plans[c'], grid, block, b, th);
      RunsGroupMeans(dev, block.Size(), plans[c'], w', t', k');
      EncodeBack(GroupId(plans[c'], w', k'), grid, b);
      FromOffset(plans[c'], w', k');
    }
  }

  /** Core c has the plan the library makes for it when |plans| cores are active. */
  ghost predicate PlanFor(dev: Device, plans: seq<Groups>, grid: Dim3, block: Dim3, c: nat)
    requires c < |plans|
  {
    && GroupsFor(dev, block.Size(), plans[c])
    && plans[c].total == Share(grid.Size(), |plans|, c) && plans[c].offset == Offset(grid.Size(), |plans|, c)
  }

  /** Thread t of warp w runs thread th of block b in its k-th pass. */
  ghost predicate Runs(dev: Device, p: Groups, grid: Dim3, block: Dim3, b: Dim3, th: Dim3, w: nat, t: nat, k: nat)
    requires p.warpsPerGroup > 0
  {
    && grid.x > 0 && grid.y > 0 && block.x > 0 && block.y > 0
    && RunsGroup(dev, p, w, t, k) && Decode(GroupId(p, w, k), grid) == b && Decode(LocalTask(dev, p, w, t), block) == th
  }

  lemma RunsIs(dev: Device, p: Groups, grid: Dim3, block: Dim3, b: Dim3, th: Dim3)
    requires p.warpsPerGroup > 0 && grid.x > 0 && grid.y > 0 && block.x > 0 && block.y > 0
    ensures forall w, t, k :: Runs(dev, p, grid, block, b, th, w, t, k) <==>
      RunsGroup(dev, p, w, t, k) && Decode(GroupId(p, w, k), grid) == b && Decode(LocalTask(dev, p, w, t), block) == th
  {
    hide RunsGroup, GroupId, LocalTask, Decode;
  }

  lemma HasSides(d: Dim3, v: Dim3)
    requires d.Has(v)
    ensures d.x > 0 && d.y > 0
  {
  }

  lemma FromOffset(p: Groups, w: nat, k: nat)
    requires p.warpsPerGroup > 0
    ensures GroupId(p, w, k) >= p.offset
  {
  }

  lemma PlanIs(dev: Device, plans: seq<Groups>, grid: Dim3, block: Dim3, c: nat, group: nat)
    requires c < |plans| && PlanFor(dev, plans, grid, block, c)
    ensures GroupsFor(dev, block.Size(), plans[c]) && plans[c].warpsPerGroup > 0
    ensures OnCore(grid.Size(), |plans|, c, group) <==> plans[c].offset <= group < plans[c].offset + plans[c].total
  {
    hide Share, Offset, Dim3.Size;
  }

  // ---- Single tasks on a core ----

  /** The work of a core without thread groups: full warps of tasks, and the rest. */
  datatype Tasks = Tasks(offset: nat, total: nat, batches: nat, remaining: nat, active: nat,
                         restOffset: nat, rest: nat)

  ghost predicate TasksFor(dev: Device, p: Tasks)
    requires dev.Valid()
  {
    var full := p.total / dev.threads;
    && p.rest == p.total % dev.threads && p.restOffset == p.offset + full * dev.threads
    && if full <= dev.warps then p.active == full && p.batches == 1 && p.remaining == 0
       else p.active == dev.warps && p.batches == full / dev.warps && p.remaining == full % dev.warps
  }

  function StartWarp(p: Tasks, w: nat): nat { w * p.batches + (if w < p.remaining then w else p.remaining) }

  predicate RunsTask(dev: Device, p: Tasks, w: nat, t: nat, k: nat) {
    w < p.active && t < dev.threads && k < Iterations(p.batches, p.remaining, w)
  }

  function TaskId(dev: Device, p: Tasks, w: nat, t: nat, k: nat): nat {
    p.offset + StartWarp(p, w) * dev.threads + t + k * dev.threads
  }

  lemma StartWarpStep(p: Tasks, w: nat)
    ensures StartWarp(p, w + 1) == StartWarp(p, w) + Iterations(p.batches, p.remaining, w)
  {
  }

  lemma {:induction false} StartWarpMonotone(p: Tasks, v: nat, w: nat)
    requires v < w
    ensures StartWarp(p, v) + Iterations(p.batches, p.remaining, v) <= StartWarp(p, w)
  {
    StartWarpStep(p, w - 1);
    if v < w - 1 { StartWarpMonotone(p, v, w - 1); }
  }

  /** The warps' passes lie end to end and make up the full warps of tasks. */
  lemma StartWarpEnds(dev: Device, p: Tasks)
    requires dev.Valid() && TasksFor(dev, p)
    ensures StartWarp(p, p.active) == p.total / dev.threads
  {
  }

  /** The warp whose passes include pass u of the core. */
  lemma {:induction false} WarpOfPass(p: Tasks, u: nat, n: nat) returns (w: nat, k: nat)
    requires u < StartWarp(p, n)
    ensures w < n && k < Iterations(p.batches, p.remaining, w) && StartWarp(p, w) + k == u
  {
    StartWarpStep(p, n - 1);
    if StartWarp(p, n - 1) <= u {
      w, k := n - 1, u - StartWarp(p, n - 1);
    } else {
      w, k := WarpOfPass(p, u, n - 1);
    }
  }

  lemma TaskPass(dev: Device, p: Tasks, w: nat, t: nat, k: nat)
    requires t < dev.threads
    ensures (TaskId(dev, p, w, t, k) - p.offset) / dev.threads == StartWarp(p, w) + k
    ensures (TaskId(dev, p, w, t, k) - p.offset) % dev.threads == t
  {
    hide *;
    var u := StartWarp(p, w) + k;
    TaskIdOf(dev, p, w, t, k);
    DivModUnique(u * dev.threads + t, dev.threads, u, t);
  }

  lemma TaskIdOf(dev: Device, p: Tasks, w: nat, t: nat, k: nat)
    ensures TaskId(dev, p, w, t, k) == p.offset + (StartWarp(p, w) + k) * dev.threads + t
  {
    hide StartWarp;
    RowSum(StartWarp(p, w), k, dev.threads);
  }

  lemma RowSum(a: int, b: int, n: int)
    ensures (a + b) * n == a * n + b * n
  {
  }

  /** Nothing outside the full warps of the core's share is run as a full-warp task. */
  lemma TasksInRange(dev: Device, p: Tasks, w: nat, t: nat, k: nat)
    requires dev.Valid() && TasksFor(dev, p) && RunsTask(dev, p, w, t, k)
    ensures p.offset <= TaskId(dev, p, w, t, k) < p.restOffset
  {
    StartWarpEnds(dev, p);
    StartWarpMonotone(p, w, p.active);
    TaskPass(dev, p, w, t, k);
    RowBound(StartWarp(p, w) + k, p.total / dev.threads, dev.threads, t);
    assert StartWarp(p, w) * dev.threads + k * dev.threads == (StartWarp(p, w) + k) * dev.threads;
  }

  lemma TaskUnique(dev: Device, p: Tasks, w: nat, t: nat, k: nat, w': nat, t': nat, k': nat)
    requires RunsTask(dev, p, w, t, k) && RunsTask(dev, p, w', t', k') && TaskId(dev, p, w, t, k) == TaskId(dev, p, w', t', k')
    ensures w' == w && t' == t && k' == k
  {
    hide StartWarp, TaskId;
    TaskPass(dev, p, w, t, k);
    TaskPass(dev, p, w', t', k');
    if w' < w { StartWarpMonotone(p, w', w); }
    if w < w' { StartWarpMonotone(p, w, w'); }
  }

  lemma TaskPlace(dev: Device, p: Tasks, task: nat) returns (w: nat, t: nat, k: nat)
    requires dev.Valid() && TasksFor(dev, p) && p.offset <= task < p.restOffset
    ensures RunsTask(dev, p, w, t, k) && TaskId(dev, p, w, t, k) == task
  {
    var x, m := task - p.offset, dev.threads;
    var u := x / m;
    t := x % m;
    assert x == u * m + t;
    StartWarpEnds(dev, p);
    RowBound(u, p.total / m, m, t);
    w, k := PassPlace(dev, p, u, t);
  }

  lemma PassPlace(dev: Device, p: Tasks, u: nat, t: nat) returns (w: nat, k: nat)
    requires u < StartWarp(p, p.active) && t < dev.threads
    ensures RunsTask(dev, p, w, t, k) && TaskId(dev, p, w, t, k) == p.offset + u * dev.threads + t
  {
    hide StartWarp, TaskId;
    w, k := WarpOfPass(p, u, p.active);
    TaskIdOf(dev, p, w, t, k);
  }

  /** Every full-warp task of the core's share is run exactly once: by one warp, lane and pass. */
  lemma TasksRunOnce(dev: Device, p: Tasks, task: nat) returns (w: nat, t: nat, k: nat)
    requires dev.Valid() && TasksFor(dev, p) && p.offset <= task < p.restOffset
    ensures RunsTask(dev, p, w, t, k) && TaskId(dev, p, w, t, k) == task
    ensures forall w': nat, t': nat, k': nat :: RunsTask(dev, p, w', t', k') && TaskId(dev, p, w', t', k') == task
                                           ==> w' == w && t' == t && k' == k
  {
    hide *;
    w, t, k := TaskPlace(dev, p, task);
    forall w': nat, t': nat, k': nat | RunsTask(dev, p, w', t', k') && TaskId(dev, p, w', t', k') == task
      ensures w' == w && t' == t && k' == k
    {
      TaskUnique(dev, p, w, t, k, w', t', k');
    }
  }

  // ---- The library ----

  /** One call of the kernel function. */
  datatype Call = Call(blockIdx: Dim3, threadIdx: Dim3)

  /** The passes of one thread over the groups of its core. */
  method ProcessThreadGroups(dev: Device, p: Groups, grid: Dim3, block: Dim3, warpId: nat, threadId: nat)
    returns (calls: seq<Call>)
    requires p.warpsPerGroup > 0 && p.groupsPerCore > 0 && grid.x > 0 && grid.y > 0 && block.x > 0 && block.y > 0
    ensures |calls| == Iterations(p.batches, p.remaining, warpId)
    ensures forall k :: 0 <= k < |calls| ==>
      calls[k] == Call(Decode(GroupId(p, warpId, k), grid), Decode(LocalTask(dev, p, warpId, threadId), block))
  {
    hide Decode, GroupId, LocalTask;
    GroupIds(p, warpId);
    LocalTaskIs(dev, p, warpId, threadId);
    var iterations := p.batches + if warpId < p.remaining then 1 else 0;
    var localGroupId := warpId / p.warpsPerGroup;
    var groupWarpId := warpId - localGroupId * p.warpsPerGroup;
    var localTaskId := groupWarpId * dev.threads + threadId;
    var startGroup := p.offset + localGroupId;
    var endGroup := startGroup + iterations * p.groupsPerCore;
    var threadIdx := Decode(localTaskId, block);
    calls := [];
    var groupId := startGroup;
    while groupId < endGroup
      invariant groupId == startGroup + |calls| * p.groupsPerCore && |calls| <= iterations
      invariant forall k :: 0 <= k < |calls| ==>
        calls[k] == Call(Decode(GroupId(p, warpId, k), grid), threadIdx)
      decreases endGroup - groupId
    {
      PassLeft(|calls|, iterations, p.groupsPerCore);
      calls := calls + [Call(Decode(groupId, grid), threadIdx)];
      groupId := groupId + p.groupsPerCore;
    }
    PassLeft(|calls|, iterations, p.groupsPerCore);
  }

  lemma GroupIds(p: Groups, w: nat)
    requires p.warpsPerGroup > 0
    ensures forall k: nat :: GroupId(p, w, k) == p.offset + w / p.warpsPerGroup + k * p.groupsPerCore
  {
  }

  lemma TaskIds(dev: Device, p: Tasks, w: nat, t: nat)
    ensures forall k: nat :: TaskId(dev, p, w, t, k) == p.offset + StartWarp(p, w) * dev.threads + t + k * dev.threads
  {
  }

  lemma LocalTaskIs(dev: Device, p: Groups, w: nat, t: nat)
    requires p.warpsPerGroup > 0
    ensures LocalTask(dev, p, w, t) == (w - w / p.warpsPerGroup * p.warpsPerGroup) * dev.threads + t
  {
    Remainder(w, p.warpsPerGroup);
  }

  lemma PassLeft(n: nat, iterations: nat, step: nat)
    requires step > 0
    ensures n < iterations <==> n * step < iterations * step
    ensures (n + 1) * step == n * step + step
  {
    if n < iterations { assert (n + 1) * step <= iterations * step; } else { assert n * step >= iterations * step; }
  }

  /** The passes of one thread over the tasks of its core. */
  method ProcessThreads(dev: Device, p: Tasks, grid: Dim3, warpId: nat, threadId: nat) returns (calls: seq<Call>)
    requires dev.Valid() && grid.x > 0 && grid.y > 0
    ensures |calls| == Iterations(p.batches, p.remaining, warpId)
    ensures forall k :: 0 <= k < |calls| ==>
      calls[k] == Call(Decode(TaskId(dev, p, warpId, threadId, k), grid), Dim3(0, 0, 0))
  {
    hide Decode, TaskId, StartWarp;
    TaskIds(dev, p, warpId, threadId);
    var startWarp := StartWarp(p, warpId);
    var iterations := p.batches + if warpId < p.remaining then 1 else 0;
    var startTaskId := p.offset + startWarp * dev.threads + threadId;
    var endTaskId := startTaskId + iterations * dev.threads;
    calls := [];
    var taskId := startTaskId;
    while taskId < endTaskId
      invariant taskId == startTaskId + |calls| * dev.threads && |calls| <= iterations
      invariant forall k :: 0 <= k < |calls| ==>
        calls[k] == Call(Decode(TaskId(dev, p, warpId, threadId, k), grid), Dim3(0, 0, 0))
      decreases endTaskId - taskId
    {
      PassLeft(|calls|, iterations, dev.threads);
      calls := calls + [Call(Decode(taskId, grid), Dim3(0, 0, 0))];
      taskId := taskId + dev.threads;
    }
    PassLeft(|calls|, iterations, dev.threads);
  }

  datatype Outcome =
    | TooLarge
    | NoWork
    | GroupWork(groups: Groups)
    | TaskWork(tasks: Tasks)

  /** dims[i], or 1 where the caller gave none; an empty sequence is a null pointer. */
  function DimAt(dims: seq<nat>, dimension: nat, i: nat): nat
    requires dims == [] || dimension <= |dims|
  {
    if dims != [] && i < dimension then dims[i] else 1
  }

  lemma DimsAre(dimension: nat, dims: seq<nat>)
    requires dims == [] || dimension <= |dims|
    ensures DimAt(dims, dimension, 0) == if dims != [] && dimension > 0 then dims[0] else 1
    ensures DimAt(dims, dimension, 1) == if dims != [] && dimension > 1 then dims[1] else 1
    ensures DimAt(dims, dimension, 2) == if dims != [] && dimension > 2 then dims[2] else 1
  {
  }

  function CeilDiv(a: nat, b: nat): nat
    requires b > 0
  {
    (a + b - 1) / b
  }

  function Min(a: nat, b: nat): nat { if a < b then a else b }

  function Product(dims: seq<nat>): nat
    requires |dims| == 3
  {
    Dim3(dims[0], dims[1], dims[2]).Size()
  }

  lemma ProductStep(dims: seq<nat>, i: nat, d: nat)
    requires |dims| == 3 && i < 3 && forall j :: i <= j < 3 ==> dims[j] == 1
    ensures Product(dims[i := d]) == Product(dims) * d
  {
  }

  /** A launch: its dimension, and grid and block where the caller gives them. */
  datatype Launch = Launch(dimension: nat, gridDims: seq<nat>, blockDims: seq<nat>) {
    predicate Ok() { (gridDims == [] || dimension <= |gridDims|) && (blockDims == [] || dimension <= |blockDims|) }
  }

  /** The cores that take part: as many as there is work for at once, if there are so many. */
  function ActiveCores(dev: Device, n: nat, size: nat): nat
    requires dev.Valid() && dev.warps * dev.threads > 0
  {
    if size > 1 then Min(CeilDiv(n * CeilDiv(size, dev.threads), dev.warps), dev.cores)
    else Min(CeilDiv(n, dev.warps * dev.threads), dev.cores)
  }

  /** All cores, or the fewest whose warps have room for all groups, or whose threads have room for all tasks. */
  lemma ActiveCoresMean(dev: Device, n: nat, size: nat)
    requires dev.Valid() && dev.warps * dev.threads > 0 && n > 0
    ensures var active := ActiveCores(dev, n, size);
      var perGroup := if size % dev.threads == 0 then size / dev.threads else size / dev.threads + 1;
      var need, room := if size > 1 then n * perGroup else n, if size > 1 then dev.warps else dev.warps * dev.threads;
      && 1 <= active <= dev.cores && (active < dev.cores ==> need <= active * room) && (active - 1) * room < need
  {
    hide *;
    DeviceIs(dev);
    CeilDivMeans(size, dev.threads);
    ActiveIs(dev, n, size);
    if size > 1 {
      var perGroup := if size % dev.threads == 0 then size / dev.threads else size / dev.threads + 1;
      WarpsNeeded(size, dev.threads);
      MulMonotone(n, perGroup);
      FewestCores(n * perGroup, dev.warps, dev.cores);
    } else {
      FewestCores(n, dev.warps * dev.threads, dev.cores);
    }
  }

  lemma WarpsNeeded(size: nat, threads: nat)
    requires threads > 0 && size > 0
    ensures (if size % threads == 0 then size / threads else size / threads + 1) >= 1
  {
    Remainder(size, threads);
  }

  lemma ActiveIs(dev: Device, n: nat, size: nat)
    requires dev.Valid() && dev.warps * dev.threads > 0
    ensures ActiveCores(dev, n, size)
         == if size > 1 then Min(CeilDiv(n * CeilDiv(size, dev.threads), dev.warps), dev.cores)
            else Min(CeilDiv(n, dev.warps * dev.threads), dev.cores)
  {
    hide CeilDiv, Min;
  }

  lemma FewestCores(need: nat, room: nat, cores: nat)
    requires need > 0 && room > 0 && cores > 0
    ensures var active := Min(CeilDiv(need, room), cores);
      1 <= active <= cores && (active < cores ==> need <= active * room) && (active - 1) * room < need
  {
    CeilDivLeast(need, room);
    hide CeilDiv;
    var q := CeilDiv(need, room);
    if cores < q { assert (cores - 1) * room <= (q - 1) * room; }
  }

  lemma CeilDivMeans(a: nat, b: nat)
    requires b > 0
    ensures CeilDiv(a, b) == if a % b == 0 then a / b else a / b + 1
  {
    var q, r := a / b, a % b;
    assert a == q * b + r;
    if r == 0 {
      DivModUnique(a + b - 1, b, q, b - 1);
    } else {
      assert (q + 1) * b == q * b + b;
      DivModUnique(a + b - 1, b, q + 1, r - 1);
    }
  }

  lemma CeilDivLeast(a: nat, b: nat)
    requires b > 0 && a > 0
    ensures var q := CeilDiv(a, b); q >= 1 && a <= q * b && (q - 1) * b < a
  {
    CeilDivMeans(a, b);
    assert a == a / b * b + a % b;
    assert (a / b + 1) * b == a / b * b + b && (a / b - 1) * b == a / b * b - b;
    assert a / b == 0 ==> a / b * b == 0;
  }

  /** What core c does about a launch: nothing when it is not active, otherwise its share of groups or tasks. */
  ghost predicate Spawned(dev: Device, c: nat, grid: Dim3, block: Dim3, outcome: Outcome) {
    && dev.Valid() && dev.warps * dev.threads > 0
    && (outcome.TooLarge? <==> block.Size() > dev.warps * dev.threads)
    && (!outcome.TooLarge? ==>
          var n, active := grid.Size(), ActiveCores(dev, grid.Size(), block.Size());
          if c >= active then outcome.NoWork?
          else if block.Size() > 1 then
            && outcome.GroupWork? && GroupsFor(dev, block.Size(), outcome.groups)
            && outcome.groups.total == Share(n, active, c) && outcome.groups.offset == Offset(n, active, c)
          else
            && outcome.TaskWork? && TasksFor(dev, outcome.tasks)
            && outcome.tasks.total == Share(n, active, c) && outcome.tasks.offset == Offset(n, active, c))
  }

  /**
   What a core does about a launch. The sides of grid and block are the numbers given, and 1 from the
   dimension on or where none are given.
   */
  method VxSpawnThreads(dev: Device, coreId: nat, dimension: nat, gridDims: seq<nat>, blockDims: seq<nat>)
    returns (grid: Dim3, block: Dim3, outcome: Outcome)
    requires dev.Valid() && coreId < dev.cores && Launch(dimension, gridDims, blockDims).Ok()
    ensures grid.x == if gridDims != [] && dimension > 0 then gridDims[0] else 1
    ensures grid.y == if gridDims != [] && dimension > 1 then gridDims[1] else 1
    ensures grid.z == if gridDims != [] && dimension > 2 then gridDims[2] else 1
    ensures block.x == if blockDims != [] && dimension > 0 then blockDims[0] else 1
    ensures block.y == if blockDims != [] && dimension > 1 then blockDims[1] else 1
    ensures block.z == if blockDims != [] && dimension > 2 then blockDims[2] else 1
    ensures Spawned(dev, coreId, grid, block, outcome)
  {
    hide CeilDiv, Share, Offset, Min, GroupsFor, TasksFor, DimAt;
    var numGroups, groupSize, i := 1, 1, 0;
    var gs, bs := [1, 1, 1], [1, 1, 1];
    while i < 3
      invariant i <= 3 && |gs| == |bs| == 3
      invariant forall j :: 0 <= j < 3 ==> gs[j] == (if j < i then DimAt(gridDims, dimension, j) else 1)
      invariant forall j :: 0 <= j < 3 ==> bs[j] == (if j < i then DimAt(blockDims, dimension, j) else 1)
      invariant numGroups == Product(gs) && groupSize == Product(bs)
    {
      var gd := DimAt(gridDims, dimension, i);
      var bd := DimAt(blockDims, dimension, i);
      ProductStep(gs, i, gd);
      ProductStep(bs, i, bd);
      numGroups := numGroups * gd;
      groupSize := groupSize * bd;
      gs := gs[i := gd];
      bs := bs[i := bd];
      i := i + 1;
    }
    grid, block := Dim3(gs[0], gs[1], gs[2]), Dim3(bs[0], bs[1], bs[2]);
    DimsAre(dimension, gridDims);
    DimsAre(dimension, blockDims);
    MulMonotone(dev.warps, dev.threads);
    hide Dim3.Size;
    if dev.warps * dev.threads < groupSize {
      outcome := TooLarge;
    } else if groupSize > 1 {
      outcome := SpawnGroups(dev, coreId, numGroups, groupSize);
    } else {
      outcome := SpawnTasks(dev, coreId, numGroups);
    }
  }

  method SpawnGroups(dev: Device, coreId: nat, numGroups: nat, groupSize: nat) returns (outcome: Outcome)
    requires dev.Valid() && coreId < dev.cores && 1 < groupSize <= dev.warps * dev.threads
    ensures var active := Min(CeilDiv(numGroups * CeilDiv(groupSize, dev.threads), dev.warps), dev.cores);
      if coreId >= active then outcome.NoWork?
      else
        && outcome.GroupWork? && GroupsFor(dev, groupSize, outcome.groups)
        && outcome.groups.total == Share(numGroups, active, coreId)
        && outcome.groups.offset == Offset(numGroups, active, coreId)
  {
    hide CeilDiv, Share, Offset;
    var warpsPerGroup := groupSize / dev.threads;
    var remainingThreads := groupSize - warpsPerGroup * dev.threads;
    var lastLanes := dev.threads;
    Remainder(groupSize, dev.threads);
    if remainingThreads != 0 {
      lastLanes := remainingThreads;
      warpsPerGroup := warpsPerGroup + 1;
    }
    GroupWarps(groupSize, dev.threads, dev.warps, warpsPerGroup, lastLanes);
    var activeCores := Min(CeilDiv(numGroups * warpsPerGroup, dev.warps), dev.cores);
    if coreId >= activeCores {
      return NoWork;
    }
    var total, offset := ShareOut(numGroups, activeCores, coreId);
    var groupsPerCore := dev.warps / warpsPerGroup;
    var totalWarps := total * warpsPerGroup;
    var active, batches, remaining := totalWarps, 1, 0;
    GroupBatches(dev.warps, warpsPerGroup, total);
    if active > dev.warps {
      active := groupsPerCore * warpsPerGroup;
      batches := totalWarps / active;
      remaining := totalWarps - batches * active;
    }
    outcome := GroupWork(Groups(offset, total, batches, remaining, warpsPerGroup, groupsPerCore, lastLanes, active));
  }

  /** The share of a core and where it starts. */
  method ShareOut(items: nat, activeCores: nat, coreId: nat) returns (total: nat, offset: nat)
    requires coreId < activeCores
    ensures total == Share(items, activeCores, coreId) && offset == Offset(items, activeCores, coreId)
  {
    total := items / activeCores;
    Remainder(items, activeCores);
    var remaining := items - activeCores * total;
    if coreId < remaining {
      total := total + 1;
    }
    offset := coreId * total + Min(coreId, remaining);
  }

  /** Rounding the group up to whole warps. */
  lemma GroupWarps(size: nat, threads: nat, warps: nat, perGroup: nat, last: nat)
    requires threads > 0 && 1 < size <= warps * threads
    requires if size % threads == 0 then perGroup == size / threads && last == threads
             else perGroup == size / threads + 1 && last == size % threads
    ensures perGroup == CeilDiv(size, threads) && 1 <= perGroup <= warps && 1 <= last <= threads
    ensures size == (perGroup - 1) * threads + last
  {
    var q, r := size / threads, size % threads;
    assert size == q * threads + r;
    if r == 0 {
      DivModUnique(size + threads - 1, threads, q, threads - 1);
      assert q == 0 ==> q * threads == 0;
      assert (q - 1) * threads + threads == q * threads;
    } else {
      assert (q + 1) * threads == q * threads + threads;
      DivModUnique(size + threads - 1, threads, q + 1, r - 1);
    }
    RowBound(perGroup - 1, warps, threads, last - 1);
  }

  /** Which batches a core makes of its groups. */
  lemma GroupBatches(warps: nat, perGroup: nat, total: nat)
    requires 1 <= perGroup <= warps
    ensures var c := warps / perGroup;
      && 1 <= c && c * perGroup <= warps < (c + 1) * perGroup
      && (total * perGroup > warps <==> total > c)
      && c * perGroup > 0 && total * perGroup / (c * perGroup) == total / c
      && total * perGroup - total / c * (c * perGroup) == total % c * perGroup
  {
    hide *;
    var c := warps / perGroup;
    GroupsFit(warps, perGroup, total);
    GroupsLeft(c, perGroup, total);
  }

  lemma GroupsFit(warps: nat, perGroup: nat, total: nat)
    requires 1 <= perGroup <= warps
    ensures var c := warps / perGroup;
      && 1 <= c && c * perGroup <= warps < (c + 1) * perGroup && (total * perGroup > warps <==> total > c)
  {
    var c, r := warps / perGroup, warps % perGroup;
    assert warps == c * perGroup + r;
    RowBound(c, total, perGroup, r);
    assert (c + 1) * perGroup == c * perGroup + perGroup;
    if total <= c { Scaled(c, total, perGroup); } else { Scaled(total, c + 1, perGroup); }
  }

  lemma GroupsLeft(c: nat, perGroup: nat, total: nat)
    requires c >= 1 && perGroup >= 1
    ensures c * perGroup > 0 && total * perGroup / (c * perGroup) == total / c
    ensures total * perGroup - total / c * (c * perGroup) == total % c * perGroup
  {
    DivScale(total, perGroup, c);
    ModScale(total, perGroup, c);
    hide *;
    Remainder(total * perGroup, c * perGroup);
  }

  method SpawnTasks(dev: Device, coreId: nat, numTasks: nat) returns (outcome: Outcome)
    requires dev.Valid() && coreId < dev.cores
    ensures dev.warps * dev.threads > 0
    ensures var active := Min(CeilDiv(numTasks, dev.warps * dev.threads), dev.cores);
      if coreId >= active then outcome.NoWork?
      else
        && outcome.TaskWork? && TasksFor(dev, outcome.tasks)
        && outcome.tasks.total == Share(numTasks, active, coreId)
        && outcome.tasks.offset == Offset(numTasks, active, coreId)
  {
    hide CeilDiv, Share, Offset;
    MulMonotone(dev.warps, dev.threads);
    var activeCores := Min(CeilDiv(numTasks, dev.warps * dev.threads), dev.cores);
    if coreId >= activeCores {
      return NoWork;
    }
    var tasksPerCore, offset := ShareOut(numTasks, activeCores, coreId);
    var p := TaskBatches(dev, tasksPerCore, offset);
    outcome := TaskWork(p);
  }

  method TaskBatches(dev: Device, tasksPerCore: nat, offset: nat) returns (p: Tasks)
    requires dev.Valid()
    ensures TasksFor(dev, p) && p.total == tasksPerCore && p.offset == offset
  {
    hide *;
    DeviceIs(dev);
    var totalWarps, remainingTasks := WholeAndRest(tasksPerCore, dev.threads);
    var active, batches, remaining := totalWarps, 1, 0;
    if active > dev.warps {
      active := dev.warps;
      batches, remaining := WholeAndRest(totalWarps, active);
    }
    var restOffset := offset + (tasksPerCore - remainingTasks);
    p := Tasks(offset, tasksPerCore, batches, remaining, active, restOffset, remainingTasks);
    TasksForIs(dev, p);
  }

  /** How often a goes into x whole, and what is left. */
  method WholeAndRest(x: nat, a: nat) returns (whole: nat, rest: nat)
    requires a > 0
    ensures whole == x / a && rest == x % a && x - rest == x / a * a
  {
    Remainder(x, a);
    whole := x / a;
    rest := x - whole * a;
  }

  lemma DeviceIs(dev: Device)
    requires dev.Valid()
    ensures dev.threads > 0 && dev.warps > 0 && dev.cores > 0
  {
  }

  lemma TasksForIs(dev: Device, p: Tasks)
    requires dev.Valid()
    ensures TasksFor(dev, p) <==>
      (var full := p.total / dev.threads;
       && p.rest == p.total % dev.threads && p.restOffset == p.offset + full * dev.threads
       && if full <= dev.warps then p.active == full && p.batches == 1 && p.remaining == 0
          else p.active == dev.warps && p.batches == full / dev.warps && p.remaining == full % dev.warps)
  {
  }

  // ---- A launch over all cores ----

  /** A core of a group launch makes this call in pass k of thread t of warp w. */
  ghost predicate Calls(dev: Device, grid: Dim3, block: Dim3, outcome: Outcome, w: nat, t: nat, k: nat, call: Call) {
    && outcome.GroupWork? && outcome.groups.warpsPerGroup > 0
    && Runs(dev, outcome.groups, grid, block, call.blockIdx, call.threadIdx, w, t, k)
  }

  /**
   A launch of groups that leaves at most one over: every block below the given grid dimensions, and every
   thread below the given block dimensions, runs exactly once over all cores together.
   */
  lemma LaunchRunsOnce(dev: Device, l: Launch, grid: Dim3, block: Dim3, outcomes: seq<Outcome>, b: Dim3, th: Dim3)
      returns (c: nat, w: nat, t: nat, k: nat)
    requires dev.Valid() && l.Ok() && |outcomes| == dev.cores && dev.warps * dev.threads > 0
    requires forall d :: 0 <= d < dev.cores ==> Spawned(dev, d, grid, block, outcomes[d])
    requires grid.x == if l.gridDims != [] && l.dimension > 0 then l.gridDims[0] else 1
    requires grid.y == if l.gridDims != [] && l.dimension > 1 then l.gridDims[1] else 1
    requires grid.z == if l.gridDims != [] && l.dimension > 2 then l.gridDims[2] else 1
    requires block.x == if l.blockDims != [] && l.dimension > 0 then l.blockDims[0] else 1
    requires block.y == if l.blockDims != [] && l.dimension > 1 then l.blockDims[1] else 1
    requires block.z == if l.blockDims != [] && l.dimension > 2 then l.blockDims[2] else 1
    requires b.x < grid.x && b.y < grid.y && b.z < grid.z && th.x < block.x && th.y < block.y && th.z < block.z
    requires 1 < block.x * block.y * block.z <= dev.warps * dev.threads
    requires ActiveCores(dev, grid.Size(), block.Size()) > 0 ==> grid.Size() % ActiveCores(dev, grid.Size(), block.Size()) <= 1
    ensures c < dev.cores && Calls(dev, grid, block, outcomes[c], w, t, k, Call(b, th))
    ensures forall c', w', t', k' ::
      0 <= c' < dev.cores && Calls(dev, grid, block, outcomes[c'], w', t', k', Call(b, th))
      ==> c' == c && w' == w && t' == t && k' == k
  {
    hide *;
    HasMeans(grid, b);
    HasMeans(block, th);
    DecodeEncode(b, grid);
    var n, active := grid.Size(), ActiveCores(dev, grid.Size(), block.Size());
    ActiveCoresMean(dev, n, block.Size());
    forall d | 0 <= d < dev.cores
      ensures d < active ==>
        && outcomes[d].GroupWork? && GroupsFor(dev, block.Size(), outcomes[d].groups)
        && outcomes[d].groups.total == Share(n, active, d) && outcomes[d].groups.offset == Offset(n, active, d)
      ensures d >= active ==> outcomes[d].NoWork?
    {
      SpawnedGroups(dev, d, grid, block, outcomes[d]);
    }
    var plans := seq(active, d requires 0 <= d < active => outcomes[d].groups);
    forall d | 0 <= d < |plans| ensures PlanFor(dev, plans, grid, block, d) { PlanForIs(dev, plans, grid, block, d); }
    c, w, t, k := GridRunsOnce(dev, plans, grid, block, b, th);
    CallsIs(dev, grid, block, outcomes[c], w, t, k, Call(b, th));
    forall c', w', t', k' | 0 <= c' < dev.cores && Calls(dev, grid, block, outcomes[c'], w', t', k', Call(b, th))
      ensures c' == c && w' == w && t' == t && k' == k
    {
      CallsIs(dev, grid, block, outcomes[c'], w', t', k', Call(b, th));
      assert c' < active && plans[c'] == outcomes[c'].groups;
    }
  }

  lemma HasMeans(d: Dim3, v: Dim3)
    ensures d.Has(v) <==> v.x < d.x && v.y < d.y && v.z < d.z
    ensures d.Size() == d.x * d.y * d.z
  {
  }

  lemma SpawnedGroups(dev: Device, d: nat, grid: Dim3, block: Dim3, outcome: Outcome)
    requires dev.Valid() && Spawned(dev, d, grid, block, outcome) && 1 < block.Size() <= dev.warps * dev.threads
    ensures dev.warps * dev.threads > 0
    ensures var n, active := grid.Size(), ActiveCores(dev, grid.Size(), block.Size());
      if d >= active then outcome.NoWork?
      else && outcome.GroupWork? && GroupsFor(dev, block.Size(), outcome.groups)
           && outcome.groups.total == Share(n, active, d) && outcome.groups.offset == Offset(n, active, d)
  {
    hide ActiveCores, Share, Offset, GroupsFor, TasksFor, Dim3.Size;
  }

  lemma PlanForIs(dev: Device, plans: seq<Groups>, grid: Dim3, block: Dim3, c: nat)
    requires c < |plans|
    ensures PlanFor(dev, plans, grid, block, c) <==>
      && GroupsFor(dev, block.Size(), plans[c])
      && plans[c].total == Share(grid.Size(), |plans|, c) && plans[c].offset == Offset(grid.Size(), |plans|, c)
  {
    hide Share, Offset, GroupsFor, Dim3.Size;
  }

  lemma CallsIs(dev: Device, grid: Dim3, block: Dim3, outcome: Outcome, w: nat, t: nat, k: nat, call: Call)
    ensures Calls(dev, grid, block, outcome, w, t, k, call) <==>
      && outcome.GroupWork? && outcome.groups.warpsPerGroup > 0
      && Runs(dev, outcome.groups, grid, block, call.blockIdx, call.threadIdx, w, t, k)
  {
    hide Runs;
  }

  /** A core of a launch of single tasks runs block b in pass k of thread t of warp w, with a full warp. */
  ghost predicate CallsTask(dev: Device, grid: Dim3, outcome: Outcome, w: nat, t: nat, k: nat, b: Dim3) {
    && outcome.TaskWork? && RunsTask(dev, outcome.tasks, w, t, k)
    && grid.x > 0 && grid.y > 0 && Decode(TaskId(dev, outcome.tasks, w, t, k), grid) == b
  }

  /**
   A launch of single tasks that leaves at most one over: every block below the given grid dimensions
   belongs to one core, and runs there exactly once when it is among the core's full warps of tasks;
   otherwise no warp of any core runs it with its block index.
   */
  lemma LaunchTasksOnce(dev: Device, grid: Dim3, block: Dim3, outcomes: seq<Outcome>, b: Dim3)
      returns (c: nat, w: nat, t: nat, k: nat)
    requires dev.Valid() && |outcomes| == dev.cores && dev.warps * dev.threads > 0
    requires forall d :: 0 <= d < dev.cores ==> Spawned(dev, d, grid, block, outcomes[d])
    requires b.x < grid.x && b.y < grid.y && b.z < grid.z && block.x * block.y * block.z <= 1
    requires ActiveCores(dev, grid.Size(), block.Size()) > 0 ==> grid.Size() % ActiveCores(dev, grid.Size(), block.Size()) <= 1
    ensures c < dev.cores && outcomes[c].TaskWork?
    ensures outcomes[c].tasks.offset <= Encode(b, grid) < outcomes[c].tasks.offset + outcomes[c].tasks.total
    ensures forall c', w', t', k' :: 0 <= c' < dev.cores ==>
      (CallsTask(dev, grid, outcomes[c'], w', t', k', b)
       <==> Encode(b, grid) < outcomes[c].tasks.restOffset && c' == c && w' == w && t' == t && k' == k)
  {
    hide *;
    HasMeans(grid, b);
    HasMeans(block, b);
    DecodeEncode(b, grid);
    HasSides(grid, b);
    var id, n, active := Encode(b, grid), grid.Size(), ActiveCores(dev, grid.Size(), block.Size());
    ActiveCoresMean(dev, n, block.Size());
    forall d | 0 <= d < dev.cores
      ensures d < active ==>
        && outcomes[d].TaskWork? && TasksFor(dev, outcomes[d].tasks)
        && (OnCore(n, active, d, id) <==> outcomes[d].tasks.offset <= id < outcomes[d].tasks.offset + outcomes[d].tasks.total)
      ensures d >= active ==> outcomes[d].NoWork?
    {
      SpawnedTasks(dev, d, grid, block, outcomes[d], id);
    }
    c := ItemHasOneCore(n, active, id);
    OnCoreIs(n, active, c, id);
    w, t, k := 0, 0, 0;
    if id < outcomes[c].tasks.restOffset {
      w, t, k := TasksRunOnce(dev, outcomes[c].tasks, id);
      CallsTaskIs(dev, grid, outcomes[c], w, t, k, b);
    }
    forall c', w', t', k' | 0 <= c' < dev.cores
      ensures CallsTask(dev, grid, outcomes[c'], w', t', k', b)
         <==> id < outcomes[c].tasks.restOffset && c' == c && w' == w && t' == t && k' == k
    {
      CallsTaskIs(dev, grid, outcomes[c'], w', t', k', b);
      if CallsTask(dev, grid, outcomes[c'], w', t', k', b) {
        EncodeBack(TaskId(dev, outcomes[c'].tasks, w', t', k'), grid, b);
        TasksInRange(dev, outcomes[c'].tasks, w', t', k');
        RestWithin(dev, outcomes[c'].tasks);
      }
    }
  }

  lemma OnCoreIs(total: nat, n: nat, c: nat, item: nat)
    requires n > 0 && OnCore(total, n, c, item)
    ensures c < n
  {
  }

  lemma RestWithin(dev: Device, p: Tasks)
    requires dev.Valid() && TasksFor(dev, p)
    ensures p.restOffset <= p.offset + p.total
  {
    Remainder(p.total, dev.threads);
  }

  lemma SpawnedTasks(dev: Device, d: nat, grid: Dim3, block: Dim3, outcome: Outcome, id: nat)
    requires dev.Valid() && Spawned(dev, d, grid, block, outcome) && block.Size() <= 1
    ensures dev.warps * dev.threads > 0
    ensures var n, active := grid.Size(), ActiveCores(dev, grid.Size(), block.Size());
      if d >= active then outcome.NoWork?
      else && outcome.TaskWork? && TasksFor(dev, outcome.tasks)
           && (OnCore(n, active, d, id) <==> outcome.tasks.offset <= id < outcome.tasks.offset + outcome.tasks.total)
  {
    hide ActiveCores, Share, Offset, GroupsFor, TasksFor, Dim3.Size;
  }

  lemma CallsTaskIs(dev: Device, grid: Dim3, outcome: Outcome, w: nat, t: nat, k: nat, b: Dim3)
    requires grid.x > 0 && grid.y > 0
    ensures CallsTask(dev, grid, outcome, w, t, k, b) <==>
      outcome.TaskWork? && RunsTask(dev, outcome.tasks, w, t, k) && Decode(TaskId(dev, outcome.tasks, w, t, k), grid) == b
  {
    hide RunsTask, Decode, TaskId;
  }
}
