/**
 How the cache cuts an address into bank, set and tag, and puts them
 together again. Fields are read and written by 64-bit shifts and
 masks.
 */
module CacheAddr {
  import opened Arith

  // ---- 64-bit shifts ----

  function Shl(x: nat, n: nat): nat { (x * Pow2(n)) % Pow2(64) }

  function Shr(x: nat, n: nat): nat { Quotient(x, Pow2(n)) }

  /** Bits start to end of a 64-bit word. */
  function GetW(bits: nat, start: nat, end: nat): nat
    requires start <= end <= 63
  {
    Shr(Shl(bits, 63 - end), 63 - end + start)
  }

  /** Ones in bits start to end. */
  function Mask(start: nat, end: nat): nat
    requires start <= end <= 63
  {
    Shr(Shl(Pow2(64) - 1, 63 - end + start), 63 - end)
  }

  function ClrW(bits: nat, start: nat, end: nat): nat
    requires start <= end <= 63
  {
    AndNot(bits, Mask(start, end))
  }

  function SetW(bits: nat, start: nat, end: nat, value: nat): nat
    requires start <= end <= 63
  {
    Or(ClrW(bits, start, end), Shr(Shl(value, 63 - end + start), 63 - end))
  }

  /** Reading a field drops the bits above it and shifts away the bits below. */
  lemma GetWMeans(bits: nat, start: nat, end: nat)
    requires start <= end <= 63
    ensures GetW(bits, start, end) == (bits % Pow2(end + 1)) / Pow2(start)
  {
    hide Pow2;
    var s := 63 - end;
    Pow2Add(end + 1, s);
    ModScale(bits, Pow2(s), Pow2(end + 1));
    Pow2Add(start, s);
    DivScale(bits % Pow2(end + 1), Pow2(s), Pow2(start));
    assert s + start == start + s;
  }

  lemma DivOfProduct(v: nat, a: nat, b: nat)
    requires b > 0
    ensures (v * (a * b)) / b == v * a
  {
    MulMod(v * a, b);
    assert v * (a * b) == (v * a) * b;
  }

  /** Writing a field keeps the low bits of the value, placed at start. */
  lemma PlacedMeans(value: nat, start: nat, end: nat)
    requires start <= end <= 63
    ensures Shr(Shl(value, 63 - end + start), 63 - end) == (value % Pow2(end - start + 1)) * Pow2(start)
  {
    hide Pow2;
    var s, w := 63 - end, end - start + 1;
    Pow2Add(w, s + start);
    ModScale(value, Pow2(s + start), Pow2(w));
    Pow2Add(start, s);
    DivOfProduct(value % Pow2(w), Pow2(start), Pow2(s));
  }

  lemma MaskMeans(start: nat, end: nat)
    requires start <= end <= 63
    ensures Mask(start, end) == (Pow2(end - start + 1) - 1) * Pow2(start)
  {
    hide Pow2;
    var w := end - start + 1;
    PlacedMeans(Pow2(64) - 1, start, end);
    Pow2Add(64 - w, w);
    OnesLow(Pow2(64 - w), Pow2(w));
  }

  lemma OnesLow(a: nat, b: nat)
    requires a > 0 && b > 0
    ensures a * b > 0 && (a * b - 1) % b == b - 1
  {
    assert a * b - 1 == (a - 1) * b + (b - 1);
    DivModUnique(a * b - 1, b, a - 1, b - 1);
  }

  /** Clearing a field takes away exactly the field. */
  lemma ClrWMeans(bits: nat, start: nat, end: nat)
    requires start <= end <= 63
    ensures ClrW(bits, start, end) == bits - bits / Pow2(start) % Pow2(end - start + 1) * Pow2(start)
  {
    hide Pow2;
    MaskMeans(start, end);
    ClearField(bits, start, end - start + 1);
  }

  // ---- Geometry ----

  /** Line, bank, set and way bits of the cache, its total size C in bits, and the address width. */
  datatype Geometry = Geometry(C: nat, L: nat, A: nat, B: nat, addrWidth: nat) {
    /** indexBits is not negative, and fields stay inside 64 bits. */
    ghost predicate Valid() { L + A + B <= C && L + B + IndexBits() <= addrWidth <= 64 }
    function IndexBits(): int { C - (L + A + B) }
    function SetStart(): nat { L + B }
    function TagStart(): int { L + B + IndexBits() }
  }

  function Field(x: nat, start: nat, end: int): nat
    requires end <= 63
  {
    if end >= start then GetW(x, start, end) else 0
  }

  function Put(x: nat, start: nat, end: int, value: nat): nat
    requires end <= 63
  {
    if end >= start then SetW(x, start, end, value) else x
  }

  function BankId(g: Geometry, addr: nat): nat
    requires g.Valid()
  {
    Field(addr, g.L, g.L + g.B - 1)
  }

  function SetId(g: Geometry, addr: nat): nat
    requires g.Valid()
  {
    Field(addr, g.SetStart(), g.TagStart() - 1)
  }

  function Tag(g: Geometry, addr: nat): nat
    requires g.Valid()
  {
    Field(addr, g.TagStart(), g.addrWidth - 1)
  }

  /** A field of width w at start, as division and remainder; an empty field is 0. */
  lemma FieldMeans(x: nat, start: nat, end: int)
    requires start - 1 <= end <= 63
    ensures Field(x, start, end) == (x / Pow2(start)) % Pow2(end - start + 1)
  {
    var w := end - start + 1;
    if w > 0 {
      GetWMeans(x, start, end);
      Pow2Add(start, w);
      DivOfMod(x, Pow2(start), Pow2(w));
    } else {
      assert Pow2(0) == 1;
    }
  }

  /** Writing a field into bits that are clear from start on. */
  lemma PutMeans(x: nat, start: nat, end: int, value: nat)
    requires start - 1 <= end <= 63 && x < Pow2(start) && value < Pow2(end - start + 1)
    ensures Put(x, start, end, value) == x + value * Pow2(start)
    ensures Put(x, start, end, value) < Pow2(end + 1)
  {
    var w := end - start + 1;
    assert Pow2(0) == 1;
    hide Pow2;
    Pow2Add(w, start);
    BelowProduct(x, value, Pow2(start), Pow2(w));
    if w > 0 {
      PlacedMeans(value, start, end);
      ClrWMeans(x, start, end);
      DivModUnique(x, Pow2(start), 0, x);
      DivModUnique(0, Pow2(w), 0, 0);
      DivModUnique(value, Pow2(w), 0, value);
      OrDisjoint(value, x, start);
      OrCommutes(x, value * Pow2(start));
    } else {
      assert value == 0;
    }
  }

  /** A low part below a and a high part below w make a number below w * a. */
  lemma BelowProduct(x: nat, v: nat, a: nat, w: nat)
    requires x < a && v < w
    ensures x < w * a && x + v * a < w * a
  {
    assert (v + 1) * a <= w * a;
    assert 0 <= v * a;
  }

  ghost predicate Fields(g: Geometry, bank: nat, set_: nat, tag: nat)
    requires g.Valid()
  {
    bank < Pow2(g.B) && set_ < Pow2(g.IndexBits()) && tag < Pow2(g.addrWidth - g.TagStart())
  }

  function MemAddr(g: Geometry, bank: nat, set_: nat, tag: nat): nat
    requires g.Valid()
  {
    var a := Put(0, g.L, g.L + g.B - 1, bank);
    var b := Put(a, g.SetStart(), g.TagStart() - 1, set_);
    Put(b, g.TagStart(), g.addrWidth - 1, tag)
  }

  lemma MemAddrMeans(g: Geometry, bank: nat, set_: nat, tag: nat)
    requires g.Valid() && Fields(g, bank, set_, tag)
    ensures MemAddr(g, bank, set_, tag) == bank * Pow2(g.L) + set_ * Pow2(g.SetStart()) + tag * Pow2(g.TagStart())
    ensures MemAddr(g, bank, set_, tag) < Pow2(g.addrWidth)
  {
    hide Put, Pow2;
    PutMeans(0, g.L, g.L + g.B - 1, bank);
    var a := Put(0, g.L, g.L + g.B - 1, bank);
    PutMeans(a, g.SetStart(), g.TagStart() - 1, set_);
    var b := Put(a, g.SetStart(), g.TagStart() - 1, set_);
    PutMeans(b, g.TagStart(), g.addrWidth - 1, tag);
  }

  lemma FieldsOf(g: Geometry, addr: nat)
    requires g.Valid()
    ensures BankId(g, addr) == (addr / Pow2(g.L)) % Pow2(g.B)
    ensures SetId(g, addr) == (addr / Pow2(g.SetStart())) % Pow2(g.IndexBits())
    ensures Tag(g, addr) == (addr / Pow2(g.TagStart())) % Pow2(g.addrWidth - g.TagStart())
    ensures Fields(g, BankId(g, addr), SetId(g, addr), Tag(g, addr))
  {
    hide Pow2, Field;
    FieldMeans(addr, g.L, g.L + g.B - 1);
    FieldMeans(addr, g.SetStart(), g.TagStart() - 1);
    FieldMeans(addr, g.TagStart(), g.addrWidth - 1);
  }

  /** Two adjacent fields are one: x div a is (x div ab) * b plus the field of size b. */
  lemma Adjacent(x: nat, a: nat, b: nat)
    requires a > 0 && b > 0
    ensures a * b > 0 && x / a == (x / (a * b)) * b + (x / a) % b
  {
    DivDiv(x, a, b);
    QuotientModulo(x / a, b);
  }

  /** Putting the fields of an address together gives the address of its line. */
  lemma AddressRoundTrip(g: Geometry, addr: nat)
    requires g.Valid() && addr < Pow2(g.addrWidth)
    ensures MemAddr(g, BankId(g, addr), SetId(g, addr), Tag(g, addr)) == addr - addr % Pow2(g.L)
  {
    hide Pow2, MemAddr, BankId, SetId, Tag;
    FieldsOf(g, addr);
    MemAddrMeans(g, BankId(g, addr), SetId(g, addr), Tag(g, addr));
    Pow2Add(g.L, g.B);
    Pow2Add(g.SetStart(), g.IndexBits());
    Pow2Add(g.TagStart(), g.addrWidth - g.TagStart());
    Recompose(addr, Pow2(g.L), Pow2(g.B), Pow2(g.IndexBits()), Pow2(g.addrWidth - g.TagStart()));
  }

  /** The digits of x in the mixed radix l, b, i, t make up x without its lowest digit. */
  lemma Recompose(x: nat, l: nat, b: nat, i: nat, t: nat)
    requires l > 0 && b > 0 && i > 0 && t > 0 && x < (l * b * i) * t
    ensures l * b > 0 && l * b * i > 0
    ensures ((x / l) % b) * l + ((x / (l * b)) % i) * (l * b) + ((x / (l * b * i)) % t) * (l * b * i) == x - x % l
  {
    Adjacent(x, l, b);
    Adjacent(x, l * b, i);
    TopField(x, l * b * i, t);
    RecombineTo(x / l, x / (l * b), x / (l * b * i), i, (x / (l * b)) % i, b, (x / l) % b, l);
    Remainder(x, l);
  }

  /** A quotient that is already below the bound is its own field. */
  lemma TopField(x: nat, a: nat, t: nat)
    requires a > 0 && t > 0 && x < a * t
    ensures (x / a) % t == x / a
  {
    var q := x / a;
    assert x == q * a + x % a;
    MulMonotone(q - t, a);
    assert (q - t) * a == q * a - t * a;
    DivModUnique(q, t, 0, q);
  }

  lemma RecombineTo(q: nat, q1: nat, top: nat, i: nat, s: nat, b: nat, k: nat, l: nat)
    requires q == q1 * b + k && q1 == top * i + s
    ensures q * l == k * l + s * (l * b) + top * (l * b * i)
  {
    Recombine(top, i, s, b, k, l);
  }

  lemma Recombine(top: nat, i: nat, s: nat, b: nat, k: nat, l: nat)
    ensures ((top * i + s) * b + k) * l == k * l + s * (l * b) + top * (l * b * i)
  {
    assert ((top * i + s) * b + k) * l == (top * i + s) * b * l + k * l;
    assert (top * i + s) * b * l == (top * i + s) * (l * b);
    assert (top * i + s) * (l * b) == top * i * (l * b) + s * (l * b);
    assert top * i * (l * b) == top * (l * b * i);
  }

  /** The fields of an address that was put together are the ones it was put together from. */
  lemma FieldsRoundTrip(g: Geometry, bank: nat, set_: nat, tag: nat)
    requires g.Valid() && Fields(g, bank, set_, tag)
    ensures var a := MemAddr(g, bank, set_, tag);
            BankId(g, a) == bank && SetId(g, a) == set_ && Tag(g, a) == tag
  {
    hide Pow2, MemAddr, BankId, SetId, Tag;
    MemAddrMeans(g, bank, set_, tag);
    FieldsOf(g, MemAddr(g, bank, set_, tag));
    Pow2Add(g.L, g.B);
    Pow2Add(g.SetStart(), g.IndexBits());
    Decompose(bank, set_, tag, Pow2(g.L), Pow2(g.B), Pow2(g.IndexBits()), Pow2(g.addrWidth - g.TagStart()));
  }

  /** The digits of a number made up in the mixed radix l, b, i, t are what it was made up from. */
  lemma Decompose(k: nat, s: nat, top: nat, l: nat, b: nat, i: nat, t: nat)
    requires l > 0 && k < b && s < i && top < t
    ensures var a := k * l + s * (l * b) + top * (l * b * i);
            && l * b > 0 && l * b * i > 0
            && (a / l) % b == k && (a / (l * b)) % i == s && (a / (l * b * i)) % t == top
  {
    var q := (top * i + s) * b + k;
    Recombine(top, i, s, b, k, l);
    var a := k * l + s * (l * b) + top * (l * b * i);
    MulMod(q, l);
    DivModUnique(q, b, top * i + s, k);
    DivDiv(a, l, b);
    DivModUnique(top * i + s, i, top, s);
    DivDiv(a, l * b, i);
    DivModUnique(top, t, 0, top);
  }

  /** Bank, set and tag name one line: addresses agree on them exactly when they are in the same line. */
  lemma LineIdentity(g: Geometry, x: nat, y: nat)
    requires g.Valid() && x < Pow2(g.addrWidth) && y < Pow2(g.addrWidth)
    ensures BankId(g, x) == BankId(g, y) && SetId(g, x) == SetId(g, y) && Tag(g, x) == Tag(g, y)
       <==> x / Pow2(g.L) == y / Pow2(g.L)
  {
    hide Pow2, MemAddr, BankId, SetId, Tag;
    AddressRoundTrip(g, x);
    AddressRoundTrip(g, y);
    LineOf(x, Pow2(g.L));
    LineOf(y, Pow2(g.L));
    FieldsOf(g, x);
    FieldsOf(g, y);
    Pow2Add(g.L, g.B);
    Pow2Add(g.SetStart(), g.IndexBits());
    DivDiv(x, Pow2(g.L), Pow2(g.B));
    DivDiv(y, Pow2(g.L), Pow2(g.B));
    DivDiv(x, Pow2(g.SetStart()), Pow2(g.IndexBits()));
    DivDiv(y, Pow2(g.SetStart()), Pow2(g.IndexBits()));
  }

  lemma LineOf(x: nat, l: nat)
    requires l > 0
    ensures (x - x % l) / l == x / l
  {
    assert x == x / l * l + x % l;
    MulMod(x / l, l);
  }
}
