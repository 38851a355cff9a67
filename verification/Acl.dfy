/**
 The access control map of the simulated memory: an ordered map of address ranges that stands for
 a function from addresses to flags.
 */
module Acl {
  type Flags = bv32

  /** An entry of the map: its key is the start. */
  datatype Range = Range(start: nat, end: nat, flags: Flags) {
    predicate Has(x: nat) { start <= x < end }
    predicate Sound() { start < end && flags != 0 }
  }

  /** The flags of an address; 0 where nothing is mapped. */
  function At(m: seq<Range>, x: nat): Flags {
    if m == [] then 0 else if m[0].Has(x) then m[0].flags else At(m[1..], x)
  }

  /** r may stand anywhere before s. */
  predicate Before(r: Range, s: Range) { r.end <= s.start }

  /** r and s could not be one range. */
  predicate Split(r: Range, s: Range) { r.end == s.start ==> r.flags != s.flags }

  /** Ranges are not empty, carry flags and lie apart in address order. */
  ghost predicate Ordered(m: seq<Range>) {
    && (forall i :: 0 <= i < |m| ==> m[i].Sound())
    && (forall i, j :: 0 <= i < j < |m| ==> Before(m[i], m[j]))
  }

  /** Touching ranges have different flags. */
  ghost predicate Merged(m: seq<Range>) {
    forall i, j :: 0 <= i < j < |m| ==> Split(m[i], m[j])
  }

  ghost predicate Valid(m: seq<Range>) { Ordered(m) && Merged(m) }

  // ---- Reading the map ----

  lemma {:induction false} AtConcat(a: seq<Range>, b: seq<Range>, x: nat)
    requires Ordered(a)
    ensures At(a + b, x) == if At(a, x) != 0 then At(a, x) else At(b, x)
  {
    if a == [] {
      assert a + b == b;
    } else {
      assert (a + b)[1..] == a[1..] + b;
      AtConcat(a[1..], b, x);
    }
  }

  lemma OneAt(r: Range, x: nat)
    ensures At([r], x) == if r.Has(x) then r.flags else 0
  {
    assert At([r][1..], x) == 0;
  }

  /** The flags of an address are those of the one range that has it. */
  lemma {:induction false} AtIndex(m: seq<Range>, x: nat)
    requires Ordered(m)
    ensures forall i :: 0 <= i < |m| && m[i].Has(x) ==> At(m, x) == m[i].flags
    ensures (forall i :: 0 <= i < |m| ==> !m[i].Has(x)) <==> At(m, x) == 0
  {
    if m != [] {
      AtIndex(m[1..], x);
      assert forall i :: 0 < i < |m| ==> m[i] == m[1..][i - 1];
      assert forall i :: 0 <= i < |m| - 1 ==> m[1..][i] == m[i + 1];
      assert forall i :: 0 < i < |m| ==> Before(m[0], m[i]);
    }
  }

  /** The two maps stand for the same function. */
  ghost predicate Same(a: seq<Range>, b: seq<Range>) { forall x: nat :: At(a, x) == At(b, x) }

  /**
   Maps that stand for the same function are the same map: the ordered, merged form is unique.
   */
  lemma {:induction false} Canonical(a: seq<Range>, b: seq<Range>)
    requires Valid(a) && Valid(b) && Same(a, b)
    ensures a == b
    decreases |a|
  {
    if a == [] || b == [] {
      EmptyOnly(a, b);
      EmptyOnly(b, a);
    } else {
      FirstRange(a, b);
      TailValid(a);
      TailValid(b);
      assert Same(a[1..], b[1..]) by {
        hide Valid, Ordered, Merged;
        forall x: nat ensures At(a[1..], x) == At(b[1..], x) {
          TailAt(a, x);
          TailAt(b, x);
        }
      }
      Canonical(a[1..], b[1..]);
      assert a == [a[0]] + a[1..] && b == [b[0]] + b[1..];
    }
  }

  lemma EmptyOnly(a: seq<Range>, b: seq<Range>)
    requires Ordered(a) && Same(a, b)
    ensures b == [] ==> a == []
  {
    if a != [] { assert At(a, a[0].start) == At(b, a[0].start); }
  }

  lemma FirstRange(a: seq<Range>, b: seq<Range>)
    requires Valid(a) && Valid(b) && a != [] && b != [] && Same(a, b)
    ensures a[0] == b[0]
  {
    hide Valid, Ordered, Merged;
    assert Same(b, a);
    FirstStart(a, b);
    FirstStart(b, a);
    FirstEnd(a, b);
    FirstEnd(b, a);
  }

  lemma FirstStart(a: seq<Range>, b: seq<Range>)
    requires Valid(a) && Valid(b) && a != [] && b != [] && Same(a, b)
    ensures b[0].start <= a[0].start
    ensures a[0].start == b[0].start ==> a[0].flags == b[0].flags
  {
    AtIndex(a, a[0].start);
    AtIndex(b, a[0].start);
    assert At(a, a[0].start) == At(b, a[0].start);
    assert forall i :: 0 < i < |b| ==> Before(b[0], b[i]);
  }

  lemma FirstEnd(a: seq<Range>, b: seq<Range>)
    requires Valid(a) && Valid(b) && a != [] && b != [] && Same(a, b)
    requires a[0].start == b[0].start && a[0].flags == b[0].flags
    ensures a[0].end <= b[0].end
  {
    var x := b[0].end;
    AtIndex(a, x);
    AtIndex(b, x);
    assert At(a, x) == At(b, x);
    assert forall i :: 0 < i < |b| ==> Before(b[0], b[i]) && Split(b[0], b[i]);
  }

  lemma ValidOrdered(m: seq<Range>)
    requires Valid(m)
    ensures Ordered(m)
  {
  }

  lemma TailValid(m: seq<Range>)
    requires Valid(m) && m != []
    ensures Valid(m[1..])
  {
  }

  lemma TailAt(m: seq<Range>, x: nat)
    requires Valid(m) && m != []
    ensures At(m[1..], x) == if m[0].Has(x) then 0 else At(m, x)
  {
    AtIndex(m[1..], x);
    assert forall i :: 0 < i < |m| ==> Before(m[0], m[i]);
  }

  // ---- Maps made of parts ----

  ghost predicate AllBefore(a: seq<Range>, b: seq<Range>) {
    forall i, j :: 0 <= i < |a| && 0 <= j < |b| ==> Before(a[i], b[j])
  }

  ghost predicate AllSplit(a: seq<Range>, b: seq<Range>) {
    forall i, j :: 0 <= i < |a| && 0 <= j < |b| ==> Split(a[i], b[j])
  }

  lemma OrderedConcat(a: seq<Range>, b: seq<Range>)
    ensures Ordered(a + b) <==> Ordered(a) && Ordered(b) && AllBefore(a, b)
  {
    var c := a + b;
    assert forall i :: 0 <= i < |a| ==> a[i] == c[i];
    assert forall j :: 0 <= j < |b| ==> b[j] == c[|a| + j];
  }

  lemma MergedConcat(a: seq<Range>, b: seq<Range>)
    ensures Merged(a + b) <==> Merged(a) && Merged(b) && AllSplit(a, b)
  {
    var c := a + b;
    assert forall i :: 0 <= i < |a| ==> a[i] == c[i];
    assert forall j :: 0 <= j < |b| ==> b[j] == c[|a| + j];
  }

  // ---- Cutting a range out of the map ----

  /** What is left of a range when addr up to end is cut out of it. */
  function Pieces(r: Range, addr: nat, end: nat): seq<Range> {
    (if r.start < addr then [Range(r.start, addr, r.flags)] else [])
    + (if r.end > end then [Range(end, r.end, r.flags)] else [])
  }

  /** Every piece lies within r and has its flags. */
  ghost predicate Within(p: seq<Range>, r: Range) {
    forall i :: 0 <= i < |p| ==> r.start <= p[i].start && p[i].end <= r.end && p[i].flags == r.flags
  }

  lemma WithinValid(a: seq<Range>, r: Range, b: seq<Range>, p: seq<Range>)
    requires Valid(a + [r] + b) && Valid(p) && Within(p, r)
    ensures Valid(a + p + b)
  {
    OrderedConcat(a + [r], b);
    OrderedConcat(a, [r]);
    MergedConcat(a + [r], b);
    MergedConcat(a, [r]);
    OrderedConcat(a + p, b);
    OrderedConcat(a, p);
    MergedConcat(a + p, b);
    MergedConcat(a, p);
    hide Ordered, Merged;
    var ar := a + [r];
    assert forall i :: 0 <= i < |a| ==> a[i] == ar[i] && Before(a[i], [r][0]) && Split(a[i], [r][0]);
    assert forall j :: 0 <= j < |b| ==> Before(ar[|a|], b[j]) && Split(ar[|a|], b[j]);
    var ap := a + p;
    forall i, j | 0 <= i < |ap| && 0 <= j < |b| ensures Before(ap[i], b[j]) && Split(ap[i], b[j]) {
      if i < |a| { assert ap[i] == ar[i]; } else { assert ap[i] == p[i - |a|]; }
    }
  }

  lemma PiecesValid(r: Range, addr: nat, end: nat)
    requires r.Sound() && addr < end && addr < r.end && r.start < end
    ensures Valid(Pieces(r, addr, end)) && Within(Pieces(r, addr, end), r)
  {
  }

  /** Replacing a range by its pieces takes exactly addr up to end out of it. */
  lemma CutAt(a: seq<Range>, r: Range, b: seq<Range>, addr: nat, end: nat, x: nat)
    requires Ordered(a + [r] + b) && addr < end && addr < r.end && r.start < end
    ensures At(a + Pieces(r, addr, end) + b, x)
         == if r.Has(x) && addr <= x < end then 0 else At(a + [r] + b, x)
  {
    hide *;
    var p := Pieces(r, addr, end);
    OrderedConcat(a + [r], b);
    OrderedConcat(a, [r]);
    OneRange(r, x);
    PiecesAt(r, addr, end, x);
    assert a + p + b == a + (p + b) && a + [r] + b == a + ([r] + b);
    AtConcat(a, p + b, x);
    AtConcat(a, [r] + b, x);
    AtConcat(p, b, x);
    AtConcat([r], b, x);
    if r.Has(x) { AloneAt(a, r, b, x); }
  }

  lemma OneRange(r: Range, x: nat)
    ensures Ordered([r]) ==> r.Sound()
    ensures At([r], x) == if r.Has(x) then r.flags else 0
  {
    assert [r][0].Sound() == r.Sound();
  }

  lemma PiecesAt(r: Range, addr: nat, end: nat, x: nat)
    requires r.Sound() && addr < end && addr < r.end && r.start < end
    ensures Ordered(Pieces(r, addr, end))
    ensures At(Pieces(r, addr, end), x) == if r.Has(x) && !(addr <= x < end) then r.flags else 0
  {
    PiecesValid(r, addr, end);
    AtIndex(Pieces(r, addr, end), x);
  }

  /** An address of a range belongs to no other range. */
  lemma AloneAt(a: seq<Range>, r: Range, b: seq<Range>, x: nat)
    requires Ordered(a) && Ordered(b) && r.Sound() && r.Has(x)
    requires AllBefore(a, [r]) && AllBefore(a + [r], b)
    ensures At(a, x) == 0 && At(b, x) == 0
  {
    AtIndex(a, x);
    AtIndex(b, x);
    assert forall i :: 0 <= i < |a| ==> Before(a[i], [r][0]);
    assert forall j :: 0 <= j < |b| ==> Before((a + [r])[|a|], b[j]);
  }

  // ---- Adding a range ----

  /** No range of m has an address from addr up to end. */
  ghost predicate Clear(m: seq<Range>, addr: nat, end: nat) {
    forall i :: 0 <= i < |m| ==> m[i].end <= addr || end <= m[i].start
  }

  /** A range put in the gap at k stands for itself; everything else is as before. */
  lemma AddAt(m: seq<Range>, k: nat, n: Range, x: nat)
    requires Ordered(m) && k <= |m| && n.Sound() && Clear(m, n.start, n.end)
    requires forall i :: 0 <= i < k ==> m[i].start < n.start
    requires forall i :: k <= i < |m| ==> n.start <= m[i].start
    ensures Ordered(m[..k] + [n] + m[k..])
    ensures At(m[..k] + [n] + m[k..], x) == if n.Has(x) then n.flags else At(m, x)
  {
    var a, b := m[..k], m[k..];
    assert m == a + b;
    OrderedConcat(a, b);
    AddOrdered(m, k, n);
    OrderedConcat(a + [n], b);
    OrderedConcat(a, [n]);
    AtConcat(a, b, x);
    AtConcat(a + [n], b, x);
    AtConcat(a, [n], x);
    if n.Has(x) { AloneAt(a, n, b, x); }
  }

  lemma AddOrdered(m: seq<Range>, k: nat, n: Range)
    requires Ordered(m) && k <= |m| && n.Sound() && Clear(m, n.start, n.end)
    requires forall i :: 0 <= i < k ==> m[i].start < n.start
    requires forall i :: k <= i < |m| ==> n.start <= m[i].start
    ensures Ordered(m[..k] + [n] + m[k..])
  {
    var a, b := m[..k], m[k..];
    assert m == a + b;
    OrderedConcat(a, b);
    OrderedConcat(a, [n]);
    OrderedConcat(a + [n], b);
    assert Ordered([n]);
    assert forall i :: 0 <= i < |m| ==> m[i].Sound();
    hide Ordered;
    GapBefore(m, k, n);
  }

  lemma GapBefore(m: seq<Range>, k: nat, n: Range)
    requires k <= |m| && n.start < n.end && Clear(m, n.start, n.end) && AllBefore(m[..k], m[k..])
    requires forall i :: 0 <= i < |m| ==> m[i].Sound()
    requires forall i :: 0 <= i < k ==> m[i].start < n.start
    requires forall i :: k <= i < |m| ==> n.start <= m[i].start
    ensures AllBefore(m[..k], [n]) && AllBefore(m[..k] + [n], m[k..])
  {
    var a, b := m[..k], m[k..];
    assert forall i :: 0 <= i < |a| ==> a[i] == m[i] && a[i].Sound();
    assert forall j :: 0 <= j < |b| ==> b[j] == m[k + j] && b[j].Sound();
    var an := a + [n];
    assert forall i :: 0 <= i < |a| ==> an[i] == a[i];
  }

  // ---- Joining two ranges ----

  function Join(r: Range, s: Range): Range { Range(r.start, s.end, s.flags) }

  lemma JoinLast(a: seq<Range>, r: Range, s: Range, x: nat)
    requires Ordered(a + [r]) && s.Sound() && r.end == s.start && r.flags == s.flags
    ensures At(a + [r] + [s], x) == At(a + [Join(r, s)], x)
  {
    OrderedConcat(a, [r]);
    assert [r][0].Sound();
    OneAt(r, x);
    OneAt(s, x);
    OneAt(Join(r, s), x);
    hide Ordered, AllBefore, At;
    AtConcat(a + [r], [s], x);
    AtConcat(a, [r], x);
    AtConcat(a, [Join(r, s)], x);
  }

  /** Two touching ranges with the same flags may be written as one. */
  lemma JoinAt(a: seq<Range>, r: Range, s: Range, b: seq<Range>, x: nat)
    requires Ordered(a + [r] + [s] + b) && r.end == s.start && r.flags == s.flags
    ensures At(a + [Join(r, s)] + b, x) == At(a + [r] + [s] + b, x)
  {
    JoinOrdered(a, r, s, b);
    OrderedConcat(a + [r] + [s], b);
    OrderedConcat(a + [r], [s]);
    OrderedConcat(a + [Join(r, s)], b);
    assert [s][0].Sound();
    hide Ordered, AllBefore, At;
    AtConcat(a + [r] + [s], b, x);
    AtConcat(a + [Join(r, s)], b, x);
    JoinLast(a, r, s, x);
  }

  lemma JoinOrdered(a: seq<Range>, r: Range, s: Range, b: seq<Range>)
    requires Ordered(a + [r] + [s] + b) && r.end == s.start
    ensures Ordered(a + [Join(r, s)] + b)
  {
    var m, n := a + [r] + [s] + b, a + [Join(r, s)] + b;
    assert forall i :: 0 <= i < |a| ==> m[i] == a[i] && n[i] == a[i];
    assert m[|a|] == r && m[|a| + 1] == s && n[|a|] == Join(r, s);
    assert forall j :: |a| < j < |n| ==> n[j] == m[j + 1];
  }

  /** With both neighbours of n split from it, the map is merged again. */
  lemma AddedValid(a: seq<Range>, n: Range, b: seq<Range>)
    requires Ordered(a + [n] + b) && Merged(a + b)
    requires a != [] ==> Split(a[|a| - 1], n)
    requires b != [] ==> Split(n, b[0])
    ensures Valid(a + [n] + b)
  {
    MergedConcat(a, b);
    MergedConcat(a + [n], b);
    MergedConcat(a, [n]);
    AddedSplit(a, n, b);
    hide Merged;
    var an := a + [n];
    assert forall i :: 0 <= i < |a| ==> an[i] == a[i];
  }

  /** Only neighbours can touch. */
  lemma AddedSplit(a: seq<Range>, n: Range, b: seq<Range>)
    requires Ordered(a + [n] + b)
    requires a != [] ==> Split(a[|a| - 1], n)
    requires b != [] ==> Split(n, b[0])
    ensures AllSplit(a, [n]) && AllSplit([n], b)
  {
    var m := a + [n] + b;
    assert forall i :: 0 <= i < |a| ==> a[i] == m[i];
    assert forall j :: 0 <= j < |b| ==> b[j] == m[|a| + 1 + j];
    assert forall i :: 0 <= i < |a| - 1 ==> Before(a[i], m[|a| - 1]) && Before(m[|a| - 1], m[|a|]);
    assert forall j :: 0 < j < |b| ==> Before(m[|a| + 1], b[j]) && Before(m[|a|], m[|a| + 1]);
  }

  /** The edits of the map that leave the pieces of range i in its place. */
  lemma CutParts(m: seq<Range>, i: nat, addr: nat, end: nat)
    requires i < |m|
    ensures m == m[..i] + [m[i]] + m[i + 1..]
    ensures var right := m[..i + 1] + [Range(end, m[i].end, m[i].flags)] + m[i + 1..];
            var whole := m[..i] + Pieces(m[i], addr, end) + m[i + 1..];
            if m[i].start < addr
            then whole == if m[i].end > end then right[i := m[i].(end := addr)] else m[i := m[i].(end := addr)]
            else whole == if m[i].end > end then right[..i] + right[i + 1..] else m[..i] + m[i + 1..]
  {
  }

  lemma ClearConcat(a: seq<Range>, b: seq<Range>, addr: nat, end: nat)
    requires Clear(a, addr, end) && Clear(b, addr, end)
    ensures Clear(a + b, addr, end)
  {
  }

  lemma Replaced(a: seq<Range>, r: Range, b: seq<Range>, addr: nat, end: nat)
    requires Valid(a + [r] + b) && addr < end && addr < r.end && r.start < end
    ensures Valid(a + Pieces(r, addr, end) + b)
    ensures forall x: nat :: !(addr <= x < end) ==> At(a + Pieces(r, addr, end) + b, x) == At(a + [r] + b, x)
    ensures Clear(Pieces(r, addr, end), addr, end)
  {
    OrderedConcat(a + [r], b);
    OrderedConcat(a, [r]);
    assert [r][0].Sound();
    PiecesValid(r, addr, end);
    WithinValid(a, r, b, Pieces(r, addr, end));
    hide Valid, Ordered, Merged, Pieces;
    forall x: nat | !(addr <= x < end)
      ensures At(a + Pieces(r, addr, end) + b, x) == At(a + [r] + b, x)
    {
      CutAt(a, r, b, addr, end, x);
    }
  }

  lemma Emptied(m: seq<Range>, it: nat, addr: nat, end: nat)
    requires Ordered(m) && it <= |m| && Clear(m[..it], addr, end)
    requires it < |m| ==> end <= m[it].start
    ensures Clear(m, addr, end)
    ensures forall x: nat :: addr <= x < end ==> At(m, x) == 0
  {
    assert forall i :: 0 <= i < it ==> m[i] == m[..it][i];
    assert forall i :: it < i < |m| ==> Before(m[it], m[i]);
    forall x: nat | addr <= x < end ensures At(m, x) == 0 { AtIndex(m, x); }
  }

  lemma NeighbourParts(a: seq<Range>, r: Range, b: seq<Range>)
    ensures a != [] ==> a + [r] + b == a[..|a| - 1] + [a[|a| - 1]] + [r] + b && a == a[..|a| - 1] + [a[|a| - 1]]
    ensures b != [] ==> a + [r] + b == a + [r] + [b[0]] + b[1..] && b == [b[0]] + b[1..]
  {
  }

  lemma JoinedParts(m: seq<Range>, i: nat, a: seq<Range>, b: seq<Range>)
    requires i + 1 < |m| && |a| == i && m[i].flags == m[i + 1].flags
    requires m == a + [m[i]] + [m[i + 1]] + b
    ensures m[i := m[i].(end := m[i + 1].end)][..i + 1] + m[i := m[i].(end := m[i + 1].end)][i + 2..]
         == a + [Join(m[i], m[i + 1])] + b
  {
  }

  /** Joining the new range n to its left neighbour p leaves the rest merged. */
  lemma MergedPrev(a: seq<Range>, p: Range, n: Range, b: seq<Range>)
    requires Ordered(a + [p] + [n] + b) && Merged(a + [p] + b) && p.end == n.start && p.flags == n.flags
    ensures Ordered(a + [Join(p, n)] + b) && Same(a + [Join(p, n)] + b, a + [p] + [n] + b)
    ensures Merged(a + b) && (a != [] ==> Split(a[|a| - 1], Join(p, n)))
  {
    JoinOrdered(a, p, n, b);
    MergedConcat(a + [p], b);
    MergedConcat(a, [p]);
    MergedConcat(a, b);
    assert forall i :: 0 <= i < |a| ==> (a + [p])[i] == a[i] && Split(a[i], [p][0]);
    forall x: nat ensures At(a + [Join(p, n)] + b, x) == At(a + [p] + [n] + b, x) { JoinAt(a, p, n, b, x); }
  }

  /** Joining the new range n to its right neighbour s completes the merge. */
  lemma MergedNext(a: seq<Range>, n: Range, s: Range, b: seq<Range>)
    requires Ordered(a + [n] + [s] + b) && Merged(a + ([s] + b)) && n.end == s.start && n.flags == s.flags
    requires a != [] ==> Split(a[|a| - 1], n)
    ensures Valid(a + [Join(n, s)] + b) && Same(a + [Join(n, s)] + b, a + [n] + [s] + b)
  {
    JoinOrdered(a, n, s, b);
    MergedConcat(a, [s] + b);
    MergedConcat([s], b);
    MergedConcat(a, b);
    assert b != [] ==> Split([s][0], b[0]);
    assert forall j :: 0 <= j < |b| ==> ([s] + b)[j + 1] == b[j];
    AddedValid(a, Join(n, s), b);
    forall x: nat ensures At(a + [Join(n, s)] + b, x) == At(a + [n] + [s] + b, x) { JoinAt(a, n, s, b, x); }
  }

  // ---- Asking for rights ----

  /** Every required flag is among those held. */
  predicate Carries(held: Flags, required: Flags) { held & required == required }

  /** The flags asked for add nothing to those held. */
  lemma CarriesMeans(held: Flags, required: Flags)
    ensures Carries(held, required) <==> held | required == held
  {
    if Carries(held, required) { assert held | required == held; }
    if held | required == held { assert held & required == required; }
  }

  /** m grants flags on every address it maps from addr up to end. */
  ghost predicate Grants(m: seq<Range>, addr: nat, end: nat, flags: Flags) {
    forall x: nat :: addr <= x < end && At(m, x) != 0 ==> Carries(At(m, x), flags)
  }

  /** What the scan looks at: entries that start below end and reach past addr. */
  ghost predicate NoDenial(m: seq<Range>, addr: nat, end: nat, flags: Flags) {
    forall i :: 0 <= i < |m| && m[i].start < end && addr < m[i].end ==> Carries(m[i].flags, flags)
  }

  lemma NoDenialBefore(m: seq<Range>, it: nat, addr: nat, end: nat, flags: Flags)
    requires it <= |m| && forall i :: 0 <= i < it ==> m[i].end < addr
    ensures NoDenial(m[..it], addr, end, flags)
  {
  }

  lemma NoDenialNext(m: seq<Range>, it: nat, addr: nat, end: nat, flags: Flags)
    requires Ordered(m) && it < |m| && NoDenial(m[..it], addr, end, flags) && m[it].start < end
    ensures NoDenial(m[..it + 1], addr, end, flags) <==> addr < m[it].end ==> Carries(m[it].flags, flags)
    ensures NoDenial(m, addr, end, flags) ==> addr < m[it].end ==> Carries(m[it].flags, flags)
    ensures it + 1 < |m| ==> m[it].end <= m[it + 1].start < m[it + 1].end
  {
    hide Carries;
    assert m[..it + 1] == m[..it] + [m[it]];
    assert m[..it + 1][it] == m[it];
    if it + 1 < |m| { assert Before(m[it], m[it + 1]) && m[it + 1].Sound(); }
  }

  lemma NoDenialAfter(m: seq<Range>, it: nat, addr: nat, end: nat, flags: Flags)
    requires Ordered(m) && it <= |m| && NoDenial(m[..it], addr, end, flags)
    requires it < |m| ==> end <= m[it].start
    ensures NoDenial(m, addr, end, flags)
  {
    hide Carries;
    assert forall i :: 0 <= i < it ==> m[i] == m[..it][i];
    assert forall i :: it < i < |m| ==> Before(m[it], m[i]) && m[it].Sound();
  }

  /** For a range of at least one address the scan decides exactly the grant. */
  lemma NoDenialMeans(m: seq<Range>, addr: nat, end: nat, flags: Flags)
    requires Ordered(m) && addr < end
    ensures NoDenial(m, addr, end, flags) <==> Grants(m, addr, end, flags)
  {
    hide Carries;
    forall x: nat | NoDenial(m, addr, end, flags) && addr <= x < end && At(m, x) != 0
      ensures Carries(At(m, x), flags)
    {
      AtIndex(m, x);
    }
    forall i | Grants(m, addr, end, flags) && 0 <= i < |m| && m[i].start < end && addr < m[i].end
      ensures Carries(m[i].flags, flags)
    {
      var x := if m[i].start < addr then addr else m[i].start;
      AtIndex(m, x);
      assert m[i].Has(x);
    }
  }

  /**
   With size 0 no address is in range, yet the scan still refuses when addr lies strictly inside a
   mapped range that lacks a flag: it agrees with the empty grant exactly when it does not.
   */
  lemma NoDenialOfNothing(m: seq<Range>, addr: nat, flags: Flags)
    requires Ordered(m)
    ensures Grants(m, addr, addr, flags)
    ensures NoDenial(m, addr, addr, flags)
       <==> At(m, addr) == 0 || Carries(At(m, addr), flags) || exists i :: 0 <= i < |m| && m[i].start == addr
  {
    hide Carries;
    AtIndex(m, addr);
    forall i, j | 0 <= i < |m| && m[i].Has(addr) && 0 <= j < |m| && m[j].Has(addr) ensures i == j {
      assert i < j ==> Before(m[i], m[j]);
      assert j < i ==> Before(m[j], m[i]);
    }
  }

  /** Asking for flag 2 on no address at 1, inside a range that has flag 1 only, is refused. */
  lemma EmptyRangeRefused()
    ensures var m := [Range(0, 4, 1)]; Ordered(m) && Grants(m, 1, 1, 2) && !NoDenial(m, 1, 1, 2)
  {
    var m := [Range(0, 4, 1)];
    var held: Flags, required: Flags := 1, 2;
    assert held & required != required;
    assert m[0].start < 1 && 1 < m[0].end && !Carries(m[0].flags, 2);
  }

  // ---- The manager ----

  class AclManager {
    var aclMap: seq<Range>

    constructor ()
      ensures aclMap == []
    {
      aclMap := [];
    }

    /** The index of the first range that does not start before addr. */
    method LowerBound(addr: nat) returns (it: nat)
      requires Ordered(aclMap)
      ensures it <= |aclMap|
      ensures forall i :: 0 <= i < it ==> aclMap[i].start < addr
      ensures forall i :: it <= i < |aclMap| ==> addr <= aclMap[i].start
    {
      it := 0;
      while it < |aclMap| && aclMap[it].start < addr
        invariant it <= |aclMap|
        invariant forall i :: 0 <= i < it ==> aclMap[i].start < addr
      {
        it := it + 1;
      }
      assert forall i :: it < i < |aclMap| ==> Before(aclMap[it], aclMap[i]);
    }

    /** The first range that may touch addr; all before it end below addr. */
    method FirstCandidate(addr: nat) returns (it: nat)
      requires Ordered(aclMap)
      ensures it <= |aclMap|
      ensures forall i :: 0 <= i < it ==> aclMap[i].end < addr
    {
      it := LowerBound(addr);
      if it != 0 {
        it := it - 1;
        assert forall i :: 0 <= i < it ==> Before(aclMap[i], aclMap[it]);
        if aclMap[it].end < addr {
          it := it + 1;
        }
      }
    }

    /** Takes addr up to end out of every range. */
    method Cut(addr: nat, end: nat)
      requires Valid(aclMap) && addr < end
      modifies this
      ensures Valid(aclMap) && Clear(aclMap, addr, end)
      ensures forall x: nat :: At(aclMap, x) == if addr <= x < end then 0 else At(old(aclMap), x)
    {
      hide Ordered, Merged, At;
      assert Ordered(aclMap);
      hide Valid;
      var it: nat := FirstCandidate(addr);
      while it < |aclMap| && aclMap[it].start < end
        invariant it <= |aclMap| && Valid(aclMap) && Clear(aclMap[..it], addr, end)
        invariant forall x: nat :: !(addr <= x < end) ==> At(aclMap, x) == At(old(aclMap), x)
        decreases |aclMap| - it
      {
        var current := it;
        it := it + 1;
        var currentEnd := aclMap[current].end;
        if currentEnd <= addr {
          assert aclMap[..it] == aclMap[..current] + [aclMap[current]];
          continue;
        }
        ghost var m := aclMap;
        ghost var a, r, b := m[..current], m[current], m[it..];
        if aclMap[current].start < addr {
          if currentEnd > end {
            aclMap := aclMap[..it] + [Range(end, currentEnd, aclMap[current].flags)] + aclMap[it..];
            it := it + 1;
          }
          aclMap := aclMap[current := aclMap[current].(end := addr)];
        } else {
          if currentEnd > end {
            aclMap := aclMap[..it] + [Range(end, currentEnd, aclMap[current].flags)] + aclMap[it..];
            it := it + 1;
          }
          aclMap := aclMap[..current] + aclMap[current + 1..];
          it := it - 1;
        }
        CutParts(m, current, addr, end);
        hide Pieces;
        Replaced(a, r, b, addr, end);
        ClearConcat(a, Pieces(r, addr, end), addr, end);
        assert aclMap[..it] == a + Pieces(r, addr, end);
      }
      assert Ordered(aclMap) by { ValidOrdered(aclMap); }
      Emptied(aclMap, it, addr, end);
    }
  
    /** Merges the range at k with its neighbours where they touch and agree. */
    method MergeAround(k: nat, ghost a: seq<Range>, ghost b: seq<Range>)
      requires k < |aclMap| && Ordered(aclMap)
      requires aclMap == a + [aclMap[k]] + b && |a| == k && Merged(a + b)
      modifies this
      ensures Valid(aclMap)
      ensures Same(aclMap, old(aclMap))
    {
      hide Ordered, Merged, At;
      ghost var m0 := aclMap;
      var it: nat := k;
      ghost var left := a;
      if it != 0 && aclMap[it - 1].end == aclMap[it].start && aclMap[it - 1].flags == aclMap[it].flags {
        aclMap := aclMap[it - 1 := aclMap[it - 1].(end := aclMap[it].end)];
        aclMap := aclMap[..it] + aclMap[it + 1..];
        it := it - 1;
        left := a[..it];
        NeighbourParts(a, m0[k], b);
        assert a[it] == m0[it];
        JoinedParts(m0, it, left, b);
        MergedPrev(left, m0[it], m0[k], b);
      }
      assert aclMap == left + [aclMap[it]] + b;
      if it + 1 < |aclMap| && aclMap[it].end == aclMap[it + 1].start && aclMap[it].flags == aclMap[it + 1].flags {
        ghost var m1 := aclMap;
        aclMap := aclMap[it := aclMap[it].(end := aclMap[it + 1].end)];
        aclMap := aclMap[..it + 1] + aclMap[it + 2..];
        NeighbourParts(left, m1[it], b);
        assert b[0] == m1[it + 1];
        JoinedParts(m1, it, left, b[1..]);
        MergedNext(left, m1[it], b[0], b[1..]);
      } else {
        AddedValid(left, aclMap[it], b);
      }
    }

    /** Gives flags to the size addresses from addr on, whatever they had; flags 0 unmaps them. */
    method Set(addr: nat, size: nat, flags: Flags)
      requires Valid(aclMap)
      modifies this
      ensures Valid(aclMap)
      ensures forall x: nat :: At(aclMap, x) == if addr <= x < addr + size then flags else At(old(aclMap), x)
    {
      if size == 0 {
        return;
      }
      var end := addr + size;
      Cut(addr, end);
      if flags != 0 {
        var it := LowerBound(addr);
        ghost var m := aclMap;
        var n := Range(addr, end, flags);
        aclMap := aclMap[..it] + [n] + aclMap[it..];
        assert m == m[..it] + m[it..];
        forall x: nat ensures At(aclMap, x) == if n.Has(x) then flags else At(m, x) { AddAt(m, it, n, x); }
        AddOrdered(m, it, n);
        MergeAround(it, m[..it], m[it..]);
      }
    }

    /** Whether every mapped address of the range carries all of flags. */
    method Check(addr: nat, size: nat, flags: Flags) returns (ok: bool)
      requires Valid(aclMap)
      ensures ok <==> NoDenial(aclMap, addr, addr + size, flags)
      ensures size > 0 ==> (ok <==> Grants(aclMap, addr, addr + size, flags))
    {
      hide Carries;
      var end := addr + size;
      if size > 0 { NoDenialMeans(aclMap, addr, end, flags); }
      hide Ordered, Merged, Grants, NoDenial;
      var from := addr;
      var it: nat := FirstCandidate(addr);
      NoDenialBefore(aclMap, it, addr, end, flags);
      while it < |aclMap| && aclMap[it].start < end
        invariant it <= |aclMap| && addr <= from
        invariant NoDenial(aclMap[..it], addr, end, flags)
        invariant from == addr || (it < |aclMap| ==> from <= aclMap[it].start < aclMap[it].end)
      {
        NoDenialNext(aclMap, it, addr, end, flags);
        if aclMap[it].end > from {
          if !Carries(aclMap[it].flags, flags) {
            return false;
          }
          from := aclMap[it].end;
        }
        it := it + 1;
      }
      NoDenialAfter(aclMap, it, addr, end, flags);
      return true;
    }
  }
}
