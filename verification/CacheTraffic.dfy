/**
 What a bank sends to memory and keeps in its MSHR for a core request, told by the address of the request.
 */
module CacheTraffic {
  import opened Arith
  import opened CacheAddr
  import opened CacheBank

  /** A request of a core, at an address that is not bypassed. */
  datatype CoreReq = CoreReq(addr: nat, write: bool, tag: nat)

  datatype MemReq = MemReq(addr: int, write: bool, tag: nat)

  function BankOf(g: Geometry, r: CoreReq): nat
    requires g.Valid()
  {
    BankId(g, r.addr)
  }

  function ToBank(g: Geometry, port: nat, r: CoreReq): BankReq
    requires g.Valid()
  {
    BankReq(port, r.tag, SetId(g, r.addr), Tag(g, r.addr), r.write)
  }

  function ToMemory(g: Geometry, bank: nat, r: LineReq): MemReq
    requires g.Valid()
  {
    MemReq(MemAddr(g, bank, r.setId, r.tag), r.write, r.id)
  }

  function AllToMemory(g: Geometry, bank: nat, rs: seq<LineReq>): (m: seq<MemReq>)
    requires g.Valid()
    ensures |m| == |rs| && forall i :: 0 <= i < |rs| ==> m[i] == ToMemory(g, bank, rs[i])
  {
    seq(|rs|, i requires 0 <= i < |rs| => ToMemory(g, bank, rs[i]))
  }

  // ---- Tags fit the address ----

  function TagBound(g: Geometry): nat
    requires g.Valid()
  {
    Pow2(g.addrWidth - g.TagStart())
  }

  ghost predicate LinesBelow(t: nat, s: seq<Line>) { forall l :: 0 <= l < |s| ==> s[l].tag < t }

  /** All tags in the bank are below t. */
  ghost predicate TagsBelow(t: nat, b: Bank) {
    && (forall k :: 0 <= k < |b.sets| ==> LinesBelow(t, b.sets[k]))
    && (forall i {:trigger b.mshr[i]} :: 0 <= i < |b.mshr| && b.mshr[i].kind != Free ==> b.mshr[i].req.tag < t)
  }

  lemma ReplayTags(t: nat, c: Config, b: Bank)
    requires TagsBelow(t, b) && FirstOf(b.mshr, Replay) < |b.mshr|
    ensures TagsBelow(t, StepReplay(c, b).bank)
  {
  }

  lemma FillTags(t: nat, b: Bank, id: nat)
    requires TagsBelow(t, b) && id < |b.mshr| && b.mshr[id].kind != Free
    requires b.mshr[id].req.setId < |b.sets| && b.mshr[id].line < |b.sets[b.mshr[id].req.setId]|
    ensures TagsBelow(t, StepFill(b, id).bank)
  {
  }

  lemma CoreTags(t: nat, c: Config, b: Bank, r: BankReq)
    requires TagsBelow(t, b) && r.tag < t && r.setId < |b.sets| && b.sets[r.setId] != []
    requires (r.write && !c.writeBack) || FirstOf(b.mshr, Free) < |b.mshr|
    ensures TagsBelow(t, StepCore(c, b, r).bank)
  {
  }

  // ---- A core request, by its address ----

  /** Some valid line of a set holds the tag. */
  predicate Holds(s: seq<Line>, tag: int) { exists i :: 0 <= i < |s| && s[i].valid && s[i].tag == tag }

  /** Some entry of the MSHR, waiting or to be replayed, is for a line. */
  predicate WaitedFor(m: seq<Slot>, set_: nat, tag: nat) {
    exists i :: 0 <= i < |m| && m[i].kind != Free && m[i].req.setId == set_ && m[i].req.tag == tag
  }

  /** The lines of the set keep their tags; a write that hits makes its line dirty in a write-back cache. */
  ghost predicate Touched(c: Config, s: seq<Line>, s': seq<Line>, tag: int, write: bool) {
    |s'| == |s| && forall i {:trigger s'[i]} :: 0 <= i < |s| ==>
      && s'[i].valid == s[i].valid && s'[i].tag == s[i].tag
      && s'[i].dirty == (s[i].dirty || (write && c.writeBack && s[i].valid && s[i].tag == tag))
  }

  /**
   What bank b does with request q of a port, which it takes: its line is the address without the line
   bits, and
   - a write of a write-through cache is sent to its line, once, and nothing else is;
   - a hit sends nothing else;
   - any other miss waits in a free entry, for a line of the set that is not valid, or else one that was
     used least recently. The line to be replaced is written back to its own address if it is valid and
     dirty and the cache is write-back, and the missing line is read unless some entry waits for it.
   */
  ghost predicate Serves(g: Geometry, c: Config, b: nat, bank: Bank, port: nat, q: CoreReq, bank': Bank, sent: seq<MemReq>)
    requires g.Valid()
  {
    var a, below := q.addr % Pow2(g.addrWidth), Pow2(g.L + g.B);
    && a / Pow2(g.L) % Pow2(g.B) == b
    && ServesLine(g, c, b, bank, port, q, bank', sent,
                  a - a % Pow2(g.L), a / below % Pow2(g.IndexBits()), a / Pow2(g.L + g.B + g.IndexBits()))
  }

  ghost predicate ServesLine(g: Geometry, c: Config, b: nat, bank: Bank, port: nat, q: CoreReq, bank': Bank, sent: seq<MemReq>,
                             line: int, set_: int, tag: int)
    requires g.Valid()
  {
    && 0 <= set_ < |bank.sets| == |bank'.sets| && 0 <= tag
    && (forall k :: 0 <= k < |bank.sets| && k != set_ ==> bank'.sets[k] == bank.sets[k])
    && Touched(c, bank.sets[set_], bank'.sets[set_], tag, q.write)
    && if q.write && !c.writeBack then
         sent == [MemReq(line, true, 0)] && bank'.mshr == bank.mshr
       else if Holds(bank.sets[set_], tag) then
         sent == [] && bank'.mshr == bank.mshr
       else
         exists id: nat, l: nat :: Missed(g, c, b, bank, port, q, bank', sent, line, set_, tag, id, l)
  }

  ghost predicate Missed(g: Geometry, c: Config, b: nat, bank: Bank, port: nat, q: CoreReq, bank': Bank, sent: seq<MemReq>,
                         line: int, set_: nat, tag: nat, id: nat, l: nat)
    requires g.Valid() && set_ < |bank.sets|
  {
    var s := bank.sets[set_];
    && id < |bank.mshr| && bank.mshr[id].kind == Free
    && bank'.mshr == bank.mshr[id := Slot(Core, BankReq(port, q.tag, set_, tag, q.write), l)]
    && l < |s| && (if s[l].valid then forall i :: 0 <= i < |s| ==> s[i].valid && s[i].lru <= s[l].lru else true)
    && sent == (if s[l].valid && s[l].dirty && c.writeBack
                then [MemReq(b * Pow2(g.L) + set_ * Pow2(g.L + g.B) + s[l].tag * Pow2(g.L + g.B + g.IndexBits()), true, 0)] else [])
             + (if WaitedFor(bank.mshr, set_, tag) then [] else [MemReq(line, false, id)])
  }

  /** The fields of an address, and the address of its line. */
  lemma FieldsByAddress(g: Geometry, x: nat)
    requires g.Valid()
    ensures var a := x % Pow2(g.addrWidth);
      && BankId(g, x) == a / Pow2(g.L) % Pow2(g.B)
      && SetId(g, x) == a / Pow2(g.L + g.B) % Pow2(g.IndexBits())
      && Tag(g, x) == a / Pow2(g.L + g.B + g.IndexBits())
      && MemAddr(g, BankId(g, x), SetId(g, x), Tag(g, x)) == a - a % Pow2(g.L)
      && Tag(g, x) < TagBound(g)
  {
    hide Pow2, MemAddr, BankId, SetId, Tag;
    var w := g.addrWidth;
    var a := x % Pow2(w);
    FieldsOf(g, x);
    FieldsOf(g, a);
    FieldOfMod(x, g.L, g.B, w);
    FieldOfMod(x, g.SetStart(), g.IndexBits(), w);
    FieldOfMod(x, g.TagStart(), w - g.TagStart(), w);
    ModBelow(x, Pow2(w));
    AddressRoundTrip(g, a);
    Pow2Add(g.TagStart(), w - g.TagStart());
    TopField(a, Pow2(g.TagStart()), Pow2(w - g.TagStart()));
  }

  lemma ModBelow(x: nat, m: nat)
    requires m > 0
    ensures x % m < m
  {
  }

  /** A field that ends below w is the same field of the number modulo 2^w. */
  lemma FieldOfMod(x: nat, s: nat, n: nat, w: nat)
    requires s + n <= w
    ensures x % Pow2(w) / Pow2(s) % Pow2(n) == x / Pow2(s) % Pow2(n)
  {
    hide Pow2;
    Pow2Add(s, w - s);
    DivOfMod(x, Pow2(s), Pow2(w - s));
    ModMod(x / Pow2(s), n, w - s);
  }

  lemma HitMeans(s: seq<Line>, tag: nat)
    ensures HitLine(s, tag) < |s| <==> Holds(s, tag)
  {
  }

  lemma PendingMeans(m: seq<Slot>, r: BankReq)
    ensures Pending(m, r) <==> WaitedFor(m, r.setId, r.tag)
  {
  }

  lemma AgedTouched(c: Config, s: seq<Line>, tag: nat, write: bool)
    ensures !(write && c.writeBack && Holds(s, tag)) ==> Touched(c, s, Aged(s, tag), tag, write)
  {
  }

  /** The line made dirty by a write hit is the only one with the tag. */
  lemma DirtyTouched(c: Config, s: seq<Line>, tag: nat)
    requires OneCopy(s) && HitLine(s, tag) < |s| && c.writeBack
    ensures var h := HitLine(s, tag); Touched(c, s, Aged(s, tag)[h := Aged(s, tag)[h].(dirty := true)], tag, true)
  {
  }

  lemma VictimMeans(s: seq<Line>)
    requires s != []
    ensures var v := Victim(s);
      && (s[v].valid <==> FreeLine(s) == |s|) && (s[v].valid ==> v == OldestLine(s))
      && (s[v].valid ==> forall i :: 0 <= i < |s| ==> s[i].valid && s[i].lru <= s[v].lru)
  {
  }

  lemma HitServes(g: Geometry, c: Config, b: nat, bank: Bank, port: nat, q: CoreReq)
    requires g.Valid() && BankOf(g, q) == b && ToBank(g, port, q).setId < |bank.sets|
    requires var r := ToBank(g, port, q); OneCopy(bank.sets[r.setId]) && HitLine(bank.sets[r.setId], r.tag) < |bank.sets[r.setId]|
    ensures var r := ToBank(g, port, q);
      var o := StepHit(c, bank, r);
      ServesLine(g, c, b, bank, port, q, o.bank, AllToMemory(g, b, o.reqs), MemAddr(g, b, r.setId, r.tag), r.setId, r.tag)
  {
    hide Pow2, MemAddr, BankId, SetId, Tag, HitLine, Aged, Touched, OneCopy, Missed, Holds;
    var r := ToBank(g, port, q);
    var s, h := bank.sets[r.setId], HitLine(bank.sets[r.setId], r.tag);
    HitMeans(s, r.tag);
    if r.write && c.writeBack {
      DirtyTouched(c, s, r.tag);
    } else {
      AgedTouched(c, s, r.tag, r.write);
    }
  }

  lemma MissServes(g: Geometry, c: Config, b: nat, bank: Bank, port: nat, q: CoreReq)
    requires g.Valid() && BankOf(g, q) == b && ToBank(g, port, q).setId < |bank.sets| && TagsBelow(TagBound(g), bank)
    requires var r := ToBank(g, port, q);
      && bank.sets[r.setId] != [] && HitLine(bank.sets[r.setId], r.tag) == |bank.sets[r.setId]|
      && ((r.write && !c.writeBack) || FirstOf(bank.mshr, Free) < |bank.mshr|)
    ensures var r := ToBank(g, port, q);
      var o := StepMiss(c, bank, r);
      ServesLine(g, c, b, bank, port, q, o.bank, AllToMemory(g, b, o.reqs), MemAddr(g, b, r.setId, r.tag), r.setId, r.tag)
  {
    hide Pow2, MemAddr, BankId, SetId, Tag, HitLine, FreeLine, OldestLine, Victim, Aged, Touched, Missed, Holds, Pending, WaitedFor,
      TagsBelow, FirstOf;
    var r := ToBank(g, port, q);
    var s := bank.sets[r.setId];
    HitMeans(s, r.tag);
    AgedTouched(c, s, r.tag, r.write);
    if !(r.write && !c.writeBack) {
      MissWaits(g, c, b, bank, port, q);
    }
  }

  lemma MissWaits(g: Geometry, c: Config, b: nat, bank: Bank, port: nat, q: CoreReq)
    requires g.Valid() && BankOf(g, q) == b && ToBank(g, port, q).setId < |bank.sets| && TagsBelow(TagBound(g), bank)
    requires var r := ToBank(g, port, q);
      bank.sets[r.setId] != [] && !(r.write && !c.writeBack) && FirstOf(bank.mshr, Free) < |bank.mshr|
    ensures var r, o := ToBank(g, port, q), StepMiss(c, bank, ToBank(g, port, q));
      Missed(g, c, b, bank, port, q, o.bank, AllToMemory(g, b, o.reqs), MemAddr(g, b, r.setId, r.tag), r.setId, r.tag,
             FirstOf(bank.mshr, Free), Victim(bank.sets[r.setId]))
  {
    hide Pow2, MemAddr, BankId, SetId, Tag, HitLine, FreeLine, OldestLine, Victim, Aged, Pending, WaitedFor, FirstOf, TagsBelow, LinesBelow;
    var r, o := ToBank(g, port, q), StepMiss(c, bank, ToBank(g, port, q));
    var s, v := bank.sets[r.setId], Victim(bank.sets[r.setId]);
    PendingMeans(bank.mshr, r);
    VictimMeans(s);
    FirstFree(bank.mshr);
    VictimAddress(g, b, bank, q.addr, r.setId, v);
    var evict := if FreeLine(s) == |s| && c.writeBack && s[OldestLine(s)].dirty then [LineReq(r.setId, s[OldestLine(s)].tag, true, 0)] else [];
    var read := if Pending(bank.mshr, r) then [] else [LineReq(r.setId, r.tag, false, FirstOf(bank.mshr, Free))];
    assert o.reqs == evict + read;
    assert AllToMemory(g, b, evict + read) == AllToMemory(g, b, evict) + AllToMemory(g, b, read);
  }

  lemma FirstFree(m: seq<Slot>)
    ensures FirstOf(m, Free) <= |m| && (FirstOf(m, Free) < |m| ==> m[FirstOf(m, Free)].kind == Free)
  {
  }

  /** A line of a bank, at its own address. */
  lemma VictimAddress(g: Geometry, b: nat, bank: Bank, x: nat, set_: nat, v: nat)
    requires g.Valid() && b == BankId(g, x) && set_ == SetId(g, x) < |bank.sets| && v < |bank.sets[set_]| && TagsBelow(TagBound(g), bank)
    ensures var t := bank.sets[set_][v].tag;
      MemAddr(g, b, set_, t) == b * Pow2(g.L) + set_ * Pow2(g.L + g.B) + t * Pow2(g.L + g.B + g.IndexBits())
  {
    hide Pow2, MemAddr, BankId, SetId, Tag;
    FieldsOf(g, x);
    assert LinesBelow(TagBound(g), bank.sets[set_]);
    MemAddrMeans(g, b, set_, bank.sets[set_][v].tag);
  }

  lemma ServesAddress(g: Geometry, c: Config, b: nat, bank: Bank, port: nat, q: CoreReq, bank': Bank, sent: seq<MemReq>)
    requires g.Valid() && BankOf(g, q) == b
    requires var r := ToBank(g, port, q);
      ServesLine(g, c, b, bank, port, q, bank', sent, MemAddr(g, b, r.setId, r.tag), r.setId, r.tag)
    ensures Serves(g, c, b, bank, port, q, bank', sent)
  {
    hide Pow2, MemAddr, BankId, SetId, Tag, ServesLine;
    FieldsByAddress(g, q.addr);
  }

  /** A request that a bank takes is served as its address says. */
  lemma CoreServes(g: Geometry, c: Config, b: nat, bank: Bank, out: set<nat>, port: nat, q: CoreReq)
    requires g.Valid() && BankOf(g, q) == b && TagsBelow(TagBound(g), bank) && c.numSets == Pow2(g.IndexBits())
    requires Inv(c, bank, out) && Accepts(c, bank, ToBank(g, port, q))
    ensures var r := ToBank(g, port, q);
      && r.setId < |bank.sets| && bank.sets[r.setId] != [] && ((r.write && !c.writeBack) || FirstOf(bank.mshr, Free) < |bank.mshr|)
      && TagsBelow(TagBound(g), StepCore(c, bank, r).bank)
      && Serves(g, c, b, bank, port, q, StepCore(c, bank, r).bank, AllToMemory(g, b, StepCore(c, bank, r).reqs))
  {
    hide Pow2, MemAddr, BankId, SetId, Tag, HitLine, Serves, ServesLine, Fills, Accepts, TagsBelow, StepHit, StepMiss, OneCopy;
    var r := ToBank(g, port, q);
    FieldsByAddress(g, q.addr);
    FieldsOf(g, q.addr);
    SetOf(c, bank, r.setId);
    AcceptedHasSlot(c, bank, out, r);
    CoreTags(TagBound(g), c, bank, r);
    if HitLine(bank.sets[r.setId], r.tag) < |bank.sets[r.setId]| {
      HitServes(g, c, b, bank, port, q);
    } else {
      HitBound(bank.sets[r.setId], r.tag);
      MissServes(g, c, b, bank, port, q);
    }
    var o := StepCore(c, bank, r);
    ServesAddress(g, c, b, bank, port, q, o.bank, AllToMemory(g, b, o.reqs));
  }

  lemma HitBound(s: seq<Line>, tag: nat)
    ensures HitLine(s, tag) <= |s|
  {
  }

  // ---- Without a core request ----

  /**
   What a bank does without a core request: it frees the first entry to be replayed, or else fills the line
   that the entry named by the first answer waits for, which turns all entries for that line into replays,
   or does nothing.
   */
  ghost predicate Settles(bank: Bank, rs: seq<nat>, bank': Bank, rs': seq<nat>) {
    var m := bank.mshr;
    if exists i :: 0 <= i < |m| && m[i].kind == Replay then
      && rs' == rs && exists i :: 0 <= i < |m| && m[i].kind == Replay && (forall j :: 0 <= j < i ==> m[j].kind != Replay)
                                  && bank' == bank.(mshr := m[i := m[i].(kind := Free)], size := bank.size - 1)
    else if rs != [] then
      && rs' == rs[1..] && rs[0] < |m| == |bank'.mshr| && |bank'.sets| == |bank.sets| && bank'.size == bank.size
      && (forall i {:trigger bank'.mshr[i]} :: 0 <= i < |m| ==>
            bank'.mshr[i] == if m[i].kind == Core && m[i].req.setId == m[rs[0]].req.setId && m[i].req.tag == m[rs[0]].req.tag
                             then Slot(Replay, m[i].req, m[i].line) else m[i])
      && m[rs[0]].req.setId < |bank.sets| && m[rs[0]].line < |bank.sets[m[rs[0]].req.setId]|
      && (forall k :: 0 <= k < |bank.sets| && k != m[rs[0]].req.setId ==> bank'.sets[k] == bank.sets[k])
      && var s := bank.sets[m[rs[0]].req.setId];
         bank'.sets[m[rs[0]].req.setId] == s[m[rs[0]].line := Line(m[rs[0]].req.tag, s[m[rs[0]].line].lru, true, s[m[rs[0]].line].dirty)]
    else
      bank' == bank && rs' == rs
  }

  lemma ReplaySettles(c: Config, bank: Bank, rs: seq<nat>)
    requires FirstOf(bank.mshr, Replay) < |bank.mshr|
    ensures Settles(bank, rs, StepReplay(c, bank).bank, rs)
  {
  }

  lemma FillSettles(bank: Bank, rs: seq<nat>)
    requires FirstOf(bank.mshr, Replay) == |bank.mshr| && rs != [] && rs[0] < |bank.mshr|
    requires bank.mshr[rs[0]].req.setId < |bank.sets| && bank.mshr[rs[0]].line < |bank.sets[bank.mshr[rs[0]].req.setId]|
    ensures Settles(bank, rs, StepFill(bank, rs[0]).bank, rs[1..])
  {
  }

  lemma RestSettles(bank: Bank)
    requires FirstOf(bank.mshr, Replay) == |bank.mshr|
    ensures Settles(bank, [], bank, [])
  {
  }

  // ---- What a request asks for ----

  /** A read asks for one response on its own port and with its own tag; a write only where writes are answered. */
  lemma AsksFor(g: Geometry, c: Config, port: nat, q: CoreReq)
    requires g.Valid()
    ensures Answer(c, ToBank(g, port, q)) == if !q.write || c.writeResponse then [Rsp(port, q.tag)] else []
  {
    hide SetId, Tag;
  }
}
