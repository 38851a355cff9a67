/**
 What directives write, told from the C value of each argument; what stars and prefixes do; and how a format
 goes on behind a directive.
 */
module Directives {
  import opened Arith
  import opened Format
  import opened Layout
  import opened Printf
  import opened Wrappers

  // ---- One directive ----

  /** The text of a format. */
  function TextOf(m: Machine, format: string, args: seq<Arg>, a: nat): Option<string>
    requires m.longBytes > 0
  {
    match Items(m, format, 0, args, a)
    case None => None
    case Some(items) => Some(AllWritten(items))
  }

  /** A directive by itself writes its item. */
  lemma LoneDirective(m: Machine, conv: Conv, args: seq<Arg>, a: nat)
    requires m.longBytes > 0 && Writable(conv)
    ensures Items(m, "%" + Show(conv), 0, args, a)
         == match Bound(m, conv, args, a) case None => None case Some((item, _)) => Some([item])
    ensures TextOf(m, "%" + Show(conv), args, a)
         == match Bound(m, conv, args, a) case None => None case Some((item, _)) => Some(Written(item))
  {
    hide *;
    var ps := [Directive(conv)];
    OnePiece(m, conv, args, a);
    FormatRoundTrip(m, "%" + Show(conv), 0, ps, args, a);
    TextIs(m, "%" + Show(conv), args, a);
    var bound := Bound(m, conv, args, a);
    if bound.Some? { OneWritten(bound.value.0); }
  }

  lemma TextIs(m: Machine, format: string, args: seq<Arg>, a: nat)
    requires m.longBytes > 0
    ensures var items := Items(m, format, 0, args, a);
      TextOf(m, format, args, a) == match items case None => None case Some(its) => Some(AllWritten(its))
  {
    hide Items, AllWritten;
  }

  lemma OnePiece(m: Machine, conv: Conv, args: seq<Arg>, a: nat)
    requires m.longBytes > 0 && Writable(conv)
    ensures var ps := [Directive(conv)];
      && PiecesOk(ps) && ("%" + Show(conv))[0..] == FormatOf(ps)
      && Meaning(m, ps, args, a) == match Bound(m, conv, args, a) case None => None case Some((item, _)) => Some([item])
  {
    hide Show, Bound, Writable;
    assert [Directive(conv)][1..] == [];
    assert ("%" + Show(conv)) + [] == "%" + Show(conv);
    var bound := Bound(m, conv, args, a);
    if bound.Some? {
      assert Meaning(m, [], args, bound.value.1) == Some([]);
      assert [bound.value.0] + [] == [bound.value.0];
    }
  }

  lemma OneWritten(item: Item)
    requires item.Ok()
    ensures AllWritten([item]) == Written(item)
  {
    hide Written;
    assert [item][1..] == [];
  }

  /** The number of a width or precision that is written down. */
  function Amount(x: Field): nat
    requires !x.Star?
  {
    if x.Given? then x.n else 0
  }

  lemma IntegerSpec(c: char)
    requires c in "diuxXob"
    ensures c == 'd' || c == 'i' || c == 'u' || c == 'x' || c == 'X' || c == 'o' || c == 'b'
  {
    var k :| 0 <= k < |"diuxXob"| && "diuxXob"[k] == c;
  }

  /** The flags, width and precision of a directive without stars. */
  lemma NoStars(m: Machine, conv: Conv, args: seq<Arg>, a: nat)
    requires m.longBytes > 0 && !conv.width.Star? && !conv.prec.Star? && !conv.flags.precision
    ensures Bound(m, conv, args, a)
         == ItemOf(m, conv, conv.flags.(precision := conv.prec.Given?), Amount(conv.width), Amount(conv.prec), args, a)
  {
    hide ItemOf;
    assert conv.flags.(precision := false) == conv.flags;
  }

  lemma IntegerItem(m: Machine, conv: Conv, f: Flags, w: nat, p: nat, args: seq<Arg>, a: nat, v: int)
    requires m.longBytes > 0 && conv.spec in "diuxXob" && a < |args| && args[a] == Arg.Number(v)
    ensures var x := Fetched(m, conv.length, IsSigned(conv.spec), v);
      ItemOf(m, conv, f, w, p, args, a)
        == Some((Integer(Abs(x), x < 0, Base(conv.spec), p, w, IntegerFlags(f, conv.spec)), a + 1))
  {
    hide Fetched, IntegerFlags, Base, Abs, IsSigned;
    IntegerSpec(conv.spec);
  }

  /**
   x is what C makes of an argument v of some length: v modulo the width of the length, less that width from
   half of it on if the conversion is signed and so is the type.
   */
  ghost predicate IsValue(m: Machine, length: Length, signed: bool, v: int, x: int)
    requires m.longBytes > 0
  {
    var bits := match length
      case Plain => 32
      case Short => 16
      case Char => 8
      case Long => 8 * m.longBytes
      case LongLong => 64
      case IntMax => 64
      case PtrDiff => 8 * m.longBytes
      case Size => 8 * m.longBytes;
    var u := v % Pow2(bits);
    x == if signed && (length.Char? ==> m.charSigned) && u >= Pow2(bits - 1) then u - Pow2(bits) else u
  }

  lemma FetchedIsValue(m: Machine, length: Length, c: char, v: int)
    requires m.longBytes > 0
    ensures var x := Fetched(m, length, IsSigned(c), v);
      IsValue(m, length, c == 'd' || c == 'i', v, x) && Abs(x) == if x < 0 then -x else x
  {
    hide Pow2;
  }

  lemma OneValue(m: Machine, length: Length, signed: bool, v: int, x: int, y: int)
    requires m.longBytes > 0 && IsValue(m, length, signed, v, x) && IsValue(m, length, signed, v, y)
    ensures x == y && (!signed ==> x >= 0)
  {
    hide Pow2;
  }

  lemma FlagsCount(conv: Conv, negative: bool)
    requires !conv.flags.upper && conv.spec in "diuxXob"
    ensures var f := IntegerFlags(conv.flags.(precision := conv.prec.Given?), conv.spec);
      var signed := conv.spec == 'd' || conv.spec == 'i';
      && Base(conv.spec) == (match conv.spec case 'x' => 16 case 'X' => 16 case 'o' => 8 case 'b' => 2 case _ => 10)
      && Sign(negative, f) == (if negative then "-" else if signed && conv.flags.plus then "+" else if signed && conv.flags.space then " " else "")
      && f.upper == (conv.spec == 'X') && f.hash == (conv.flags.hash && Base(conv.spec) != 10) && f.precision == conv.prec.Given?
      && f.zeroPad == (conv.flags.zeroPad && !conv.prec.Given?) && f.left == conv.flags.left
  {
    IntegerSpec(conv.spec);
  }

  lemma IntegerWritten(value: nat, negative: bool, base: nat, prec: nat, width: nat, flags: Flags)
    requires 2 <= base <= 16
    ensures var item := Integer(value, negative, base, prec, width, flags);
      item.Ok() && Written(item) == Ntoa(value, negative, base, prec, width, flags)
  {
    hide Ntoa;
  }

  /**
   An integer directive writes the C value of its argument in base 16 for x and X, 8 for o, 2 for b and 10
   otherwise, with capitals for X only. A plus sign or space counts for d and i only, a prefix for no decimal,
   and zero padding only without a precision.
   */
  lemma IntegerDirective(m: Machine, conv: Conv, args: seq<Arg>, a: nat, v: int, x: int)
    requires m.longBytes > 0 && Writable(conv) && !conv.width.Star? && !conv.prec.Star?
    requires conv.spec in "diuxXob" && a < |args| && args[a] == Arg.Number(v)
    requires IsValue(m, conv.length, conv.spec == 'd' || conv.spec == 'i', v, x)
    ensures var r := TextOf(m, "%" + Show(conv), args, a);
      var signed := conv.spec == 'd' || conv.spec == 'i';
      var sign := if x < 0 then "-" else if signed && conv.flags.plus then "+" else if signed && conv.flags.space then " " else "";
      var base := match conv.spec case 'x' => 16 case 'X' => 16 case 'o' => 8 case 'b' => 2 case _ => 10;
      r.Some? && Laid(r.value, if x < 0 then -x else x, sign, base, conv.spec == 'X', conv.flags.hash && base != 10,
                      conv.prec.Given?, conv.flags.zeroPad && !conv.prec.Given?, conv.flags.left, Amount(conv.prec), Amount(conv.width))
  {
    hide *;
    var flags := IntegerFlags(conv.flags.(precision := conv.prec.Given?), conv.spec);
    FetchedIsValue(m, conv.length, conv.spec, v);
    OneValue(m, conv.length, conv.spec == 'd' || conv.spec == 'i', v, x, Fetched(m, conv.length, IsSigned(conv.spec), v));
    WritableIs(conv);
    LoneDirective(m, conv, args, a);
    NoStars(m, conv, args, a);
    IntegerItem(m, conv, conv.flags.(precision := conv.prec.Given?), Amount(conv.width), Amount(conv.prec), args, a, v);
    IntegerWritten(Abs(x), x < 0, Base(conv.spec), Amount(conv.prec), Amount(conv.width), flags);
    NtoaLaid(Abs(x), x < 0, Base(conv.spec), Amount(conv.prec), Amount(conv.width), flags);
    FlagsCount(conv, x < 0);
  }

  /** A pointer is written in base 16 with capitals, in as many places as it has digits. */
  lemma PointerDirective(m: Machine, conv: Conv, args: seq<Arg>, a: nat, v: int)
    requires m.longBytes > 0 && Writable(conv) && !conv.width.Star? && !conv.prec.Star?
    requires conv.spec == 'p' && a < |args| && args[a] == Arg.Number(v)
    ensures var r := TextOf(m, "%" + Show(conv), args, a);
      var u, places := v % Pow2(8 * m.longBytes), 2 * m.longBytes;
      var sign := if conv.flags.plus then "+" else if conv.flags.space then " " else "";
      r.Some? && Laid(r.value, u, sign, 16, true, conv.flags.hash, conv.prec.Given?, true, conv.flags.left, Amount(conv.prec), places)
  {
    hide *;
    var u := Unsigned(v, 8 * m.longBytes);
    var flags := conv.flags.(precision := conv.prec.Given?, zeroPad := true, upper := true);
    WritableIs(conv);
    LoneDirective(m, conv, args, a);
    NoStars(m, conv, args, a);
    PointerItem(m, conv, args, a, v);
    IntegerWritten(u, false, 16, Amount(conv.prec), 2 * m.longBytes, flags);
    NtoaLaid(u, false, 16, Amount(conv.prec), 2 * m.longBytes, flags);
    PlainSign(flags);
  }

  lemma PlainSign(flags: Flags)
    ensures Sign(false, flags) == if flags.plus then "+" else if flags.space then " " else ""
  {
  }

  lemma PointerItem(m: Machine, conv: Conv, args: seq<Arg>, a: nat, v: int)
    requires m.longBytes > 0 && !conv.width.Star? && !conv.prec.Star?
    requires conv.spec == 'p' && a < |args| && args[a] == Arg.Number(v)
    ensures var f := conv.flags.(precision := conv.prec.Given?);
      ItemOf(m, conv, f, Amount(conv.width), Amount(conv.prec), args, a)
        == Some((Integer(Unsigned(v, 8 * m.longBytes), false, 16, Amount(conv.prec), 2 * m.longBytes, f.(zeroPad := true, upper := true)), a + 1))
    ensures Unsigned(v, 8 * m.longBytes) == v % Pow2(8 * m.longBytes)
  {
    hide Pow2, Amount;
  }

  /** A character, which is the argument modulo 256, or a text cut to the precision, in a field of the width. */
  lemma TextDirective(m: Machine, conv: Conv, args: seq<Arg>, a: nat)
    requires m.longBytes > 0 && Writable(conv) && !conv.width.Star? && !conv.prec.Star? && a < |args|
    requires (conv.spec == 'c' && args[a].Number?) || (conv.spec == 's' && args[a].String?)
    ensures var r := TextOf(m, "%" + Show(conv), args, a);
      var all := if conv.spec == 'c' then [(args[a].v % 256) as char] else args[a].text;
      var text := if conv.spec == 's' && conv.prec.Given? && conv.prec.n < |all| then all[..conv.prec.n] else all;
      var spaces := Fill(' ', Amount(conv.width) - |text|);
      r.Some? && r.value == if conv.flags.left then text + spaces else spaces + text
  {
    hide *;
    WritableIs(conv);
    LoneDirective(m, conv, args, a);
    NoStars(m, conv, args, a);
    TextItem(m, conv, args, a);
    var f := conv.flags.(precision := conv.prec.Given?);
    if conv.spec == 'c' {
      var c := (args[a].v % 256) as char;
      FieldsAre(c, "", 0, Amount(conv.width), f);
      FieldText([c], Amount(conv.width), f);
    } else {
      FieldsAre(' ', args[a].text, Amount(conv.prec), Amount(conv.width), f);
      FieldText(Cut(args[a].text, Amount(conv.prec), f), Amount(conv.width), f);
    }
  }

  lemma TextItem(m: Machine, conv: Conv, args: seq<Arg>, a: nat)
    requires m.longBytes > 0 && !conv.width.Star? && !conv.prec.Star? && a < |args|
    requires (conv.spec == 'c' && args[a].Number?) || (conv.spec == 's' && args[a].String?)
    ensures var f, w := conv.flags.(precision := conv.prec.Given?), Amount(conv.width);
      var item := ItemOf(m, conv, f, w, Amount(conv.prec), args, a);
      var all := if conv.spec == 'c' then [(args[a].v % 256) as char] else args[a].text;
      var text := if conv.spec == 's' && conv.prec.Given? && conv.prec.n < |all| then all[..conv.prec.n] else all;
      && item.Some? && item.value.0.Ok()
      && Written(item.value.0) == (if conv.spec == 'c' then CharField(all[0], w, f) else TextField(all, Amount(conv.prec), w, f))
      && (if conv.spec == 'c' then text == [all[0]] else text == Cut(all, Amount(conv.prec), f))
  {
    hide Fill, Ntoa, CharField, TextField;
  }

  /** A text in a field. */
  lemma FieldText(text: string, width: nat, flags: Flags)
    ensures var spaces := Fill(' ', width - |text|);
      (if flags.left then [] else spaces) + text + (if flags.left then spaces else []) == if flags.left then text + spaces else spaces + text
  {
    var spaces := Fill(' ', width - |text|);
    assert [] + text == text && spaces + text + [] == spaces + text;
  }

  lemma FieldsAre(c: char, text: string, prec: nat, width: nat, flags: Flags)
    ensures CharField(c, width, flags)
         == (if flags.left then [] else Fill(' ', width - |[c]|)) + [c] + (if flags.left then Fill(' ', width - |[c]|) else [])
    ensures var t := Cut(text, prec, flags);
      TextField(text, prec, width, flags)
        == (if flags.left then [] else Fill(' ', width - |t|)) + t + (if flags.left then Fill(' ', width - |t|) else [])
  {
    hide Fill, Cut;
  }

  /** Any other character behind a percent sign stands for itself, the percent sign too. */
  lemma OtherDirective(m: Machine, conv: Conv, args: seq<Arg>, a: nat)
    requires m.longBytes > 0 && Writable(conv) && !conv.width.Star? && !conv.prec.Star? && conv.spec !in "diuxXobpcsfFeEgG"
    ensures var r := TextOf(m, "%" + Show(conv), args, a); r.Some? && r.value == [conv.spec]
  {
    hide *;
    WritableIs(conv);
    LoneDirective(m, conv, args, a);
    NoStars(m, conv, args, a);
    OtherItem(m, conv, conv.flags.(precision := conv.prec.Given?), Amount(conv.width), Amount(conv.prec), args, a);
  }

  lemma OtherItem(m: Machine, conv: Conv, f: Flags, w: nat, p: nat, args: seq<Arg>, a: nat)
    requires m.longBytes > 0 && conv.spec !in "diuxXobpcsfFeEgG"
    ensures ItemOf(m, conv, f, w, p, args, a) == Some((Literal(conv.spec), a)) && Literal(conv.spec).Ok()
    ensures Written(Literal(conv.spec)) == [conv.spec]
  {
    var all := "diuxXobpcsfFeEgG";
    assert all[0] == 'd' && all[1] == 'i' && all[2] == 'u' && all[3] == 'x' && all[4] == 'X' && all[5] == 'o' && all[6] == 'b';
    assert all[7] == 'p' && all[8] == 'c' && all[9] == 's' && all[10] == 'f' && all[11] == 'F' && all[12] == 'e' && all[13] == 'E';
    assert all[14] == 'g' && all[15] == 'G';
  }

  // ---- Stars ----

  /** A star for the width takes an int from the arguments, which puts the text to the left if it is negative. */
  lemma StarWidth(m: Machine, conv: Conv, args: seq<Arg>, a: nat, v: int)
    requires m.longBytes > 0 && Writable(conv) && conv.width.Star? && a < |args| && args[a] == Arg.Number(v)
    ensures var u := v % 0x1_0000_0000;
      var n := if u >= 0x8000_0000 then u - 0x1_0000_0000 else u;
      var width := if n == 0 then Absent else Given(if n < 0 then -n else n);
      var given := conv.(width := width, flags := conv.flags.(left := conv.flags.left || n < 0));
      Writable(given) && TextOf(m, "%" + Show(conv), args, a) == TextOf(m, "%" + Show(given), args, a + 1)
  {
    hide *;
    var n := Signed(v, 32);
    var given := conv.(width := if n == 0 then Absent else Given(if n < 0 then -n else n), flags := conv.flags.(left := conv.flags.left || n < 0));
    IntBits();
    SignedInt(v);
    WidthWritable(conv, given);
    WidthTaken(m, conv, given, args, a, v);
    LoneDirective(m, conv, args, a);
    LoneDirective(m, given, args, a + 1);
  }

  lemma SignedInt(v: int)
    ensures var u := v % 0x1_0000_0000;
      Signed(v, 32) == (if u >= 0x8000_0000 then u - 0x1_0000_0000 else u) && -0x8000_0000 <= Signed(v, 32) < 0x8000_0000
  {
    IntBits();
    hide Pow2;
  }

  lemma WidthWritable(conv: Conv, given: Conv)
    requires Writable(conv) && !given.width.Star? && (given.width.Given? ==> 0 < given.width.n < 0x1_0000_0000)
    requires given == conv.(width := given.width, flags := conv.flags.(left := given.flags.left))
    ensures Writable(given)
  {
    hide OnlySpec;
  }

  lemma WidthTaken(m: Machine, conv: Conv, given: Conv, args: seq<Arg>, a: nat, v: int)
    requires m.longBytes > 0 && conv.width.Star? && a < |args| && args[a] == Arg.Number(v)
    requires var n := Signed(v, 32);
      given == conv.(width := if n == 0 then Absent else Given(if n < 0 then -n else n), flags := conv.flags.(left := conv.flags.left || n < 0))
    ensures Bound(m, conv, args, a) == Bound(m, given, args, a + 1)
  {
    hide Signed, ItemOf, Precision;
    var n := Signed(v, 32);
    var f := if n < 0 then conv.flags.(left := true) else conv.flags;
    assert given.flags == f;
    SamePrecision(conv, given, f, args, a + 1);
    var p := Precision(conv, f, args, a + 1);
    if p.Some? { SameItem(m, conv, given, p.value.0, if n < 0 then -n else n, p.value.1, args, p.value.2); }
  }

  lemma SamePrecision(conv: Conv, conv': Conv, f: Flags, args: seq<Arg>, a: nat)
    requires conv.prec == conv'.prec
    ensures Precision(conv, f, args, a) == Precision(conv', f, args, a)
  {
  }

  /** An item depends on the length and the specifier only. */
  lemma SameItem(m: Machine, conv: Conv, conv': Conv, f: Flags, w: nat, p: nat, args: seq<Arg>, a: nat)
    requires m.longBytes > 0 && conv.length == conv'.length && conv.spec == conv'.spec
    ensures ItemOf(m, conv, f, w, p, args, a) == ItemOf(m, conv', f, w, p, args, a)
  {
    hide Fetched, Base, IntegerFlags, Unsigned;
  }

  lemma IntBits()
    ensures Pow2(32) == 0x1_0000_0000 && Pow2(31) == 0x8000_0000
  {
    assert Pow2(8) == 256 && Pow2(16) == 256 * Pow2(8) && Pow2(24) == 256 * Pow2(16) && Pow2(31) == 128 * Pow2(24);
  }

  /** A star for the precision takes an int from the arguments, which counts as 0 if it is negative. */
  lemma StarPrecision(m: Machine, conv: Conv, args: seq<Arg>, a: nat, v: int)
    requires m.longBytes > 0 && Writable(conv) && !conv.width.Star? && conv.prec.Star? && a < |args| && args[a] == Arg.Number(v)
    ensures var u := v % 0x1_0000_0000;
      var given := conv.(prec := Given(if u >= 0x8000_0000 then 0 else u));
      Writable(given) && TextOf(m, "%" + Show(conv), args, a) == TextOf(m, "%" + Show(given), args, a + 1)
  {
    hide *;
    var u := v % 0x1_0000_0000;
    var given := conv.(prec := Given(if u >= 0x8000_0000 then 0 else u));
    SignedInt(v);
    PrecisionTaken(m, conv, given, args, a, v);
    LoneDirective(m, conv, args, a);
    LoneDirective(m, given, args, a + 1);
  }

  lemma PrecisionTaken(m: Machine, conv: Conv, given: Conv, args: seq<Arg>, a: nat, v: int)
    requires m.longBytes > 0 && Writable(conv) && !conv.width.Star? && conv.prec.Star? && a < |args| && args[a] == Arg.Number(v)
    requires var n := Signed(v, 32); n < 0x8000_0000 && given == conv.(prec := Given(if n > 0 then n else 0))
    ensures Writable(given) && Bound(m, conv, args, a) == Bound(m, given, args, a + 1)
  {
    hide Signed, ItemOf, OnlySpec;
    forall f, w, p, b ensures ItemOf(m, conv, f, w, p, args, b) == ItemOf(m, given, f, w, p, args, b) {
      SameItem(m, conv, given, f, w, p, args, b);
    }
  }

  /** A dot with nothing behind it is a precision of 0. */
  lemma LoneDot(m: Machine, c: char, args: seq<Arg>, a: nat)
    requires m.longBytes > 0 && OnlySpec(c)
    ensures TextOf(m, "%." + [c], args, a) == TextOf(m, "%.0" + [c], args, a)
  {
    hide *;
    var conv := Conv(NO_FLAGS, Absent, Given(0), Plain, c);
    DotConv(conv);
    DotRead("%." + [c], conv);
    LoneDirective(m, conv, args, a);
    ItemsDirective(m, "%." + [c], 0, [Directive(conv)], 3, args, a);
    NothingLeft(m, "%." + [c], args, if Bound(m, conv, args, a).Some? then Bound(m, conv, args, a).value.1 else 0);
    TextIs(m, "%." + [c], args, a);
    var bound := Bound(m, conv, args, a);
    if bound.Some? {
      BeforeIs(bound.value.0, Some([]));
      OneWritten(bound.value.0);
      assert [bound.value.0] + [] == [bound.value.0];
    }
  }

  lemma DotConv(conv: Conv)
    requires conv == Conv(NO_FLAGS, Absent, Given(0), Plain, conv.spec) && OnlySpec(conv.spec)
    ensures Writable(conv) && "%" + Show(conv) == "%.0" + [conv.spec]
  {
    DivModUnique(0, 10, 0, 0);
    assert Decimals(0) == "0";
    hide Decimals;
    assert ShowFlags(conv.flags) == "" && ShowPrec(conv.prec) == ".0";
  }

  lemma DotRead(s: string, conv: Conv)
    requires OnlySpec(conv.spec) && s == "%." + [conv.spec] && conv == Conv(NO_FLAGS, Absent, Given(0), Plain, conv.spec)
    ensures |s| == 3 && s[0] == '%' && ConvAt(s, 1) == Some((conv, 3))
  {
    assert s[1] == '.' && s[2] == conv.spec;
    assert WidthAt(s, 2) == (Absent, 2);
  }

  // ---- Directives in a format ----

  /** The arguments a directive takes: one for each star and one for its value. */
  function Takes(conv: Conv): nat {
    (if conv.width.Star? then 1 else 0) + (if conv.prec.Star? then 1 else 0) + (if conv.spec in "diuxXobpcsfFeEgG" then 1 else 0)
  }

  /** A format goes on behind a directive with the arguments that the directive leaves. */
  lemma DirectiveThenRest(m: Machine, s: string, i: nat, conv: Conv, args: seq<Arg>, a: nat)
    requires m.longBytes > 0 && Writable(conv) && Has(s, i, "%" + Show(conv))
    ensures var j := i + |"%" + Show(conv)|;
      var one, rest := Items(m, "%" + Show(conv), 0, args, a), Items(m, s, j, args, a + Takes(conv));
      if one.None? || rest.None? then Items(m, s, i, args, a) == None
      else && Items(m, s, i, args, a) == Some(one.value + rest.value)
           && AllWritten(one.value + rest.value) == AllWritten(one.value) + AllWritten(rest.value)
  {
    hide *;
    var bound := Bound(m, conv, args, a);
    HasIs(s, i, "%" + Show(conv));
    HasBoth(s, i, "%", Show(conv));
    ConvRoundTrip(s, i + 1, conv);
    LoneDirective(m, conv, args, a);
    ItemsDirective(m, s, i, [Directive(conv)], i + 1 + |Show(conv)|, args, a);
    BoundTakes(m, conv, args, a);
    if bound.Some? {
      BeforeIs(bound.value.0, Items(m, s, i + 1 + |Show(conv)|, args, a + Takes(conv)));
    }
  }

  lemma BeforeIs(item: Item, rest: Option<seq<Item>>)
    requires item.Ok() && (rest.Some? ==> forall k :: 0 <= k < |rest.value| ==> rest.value[k].Ok())
    ensures if rest.None? then Before(item, rest) == None
      else Before(item, rest) == Some([item] + rest.value) && AllWritten([item] + rest.value) == AllWritten([item]) + AllWritten(rest.value)
  {
    hide Written;
    OneWritten(item);
    if rest.Some? { assert ([item] + rest.value)[1..] == rest.value; }
  }

  lemma BoundTakes(m: Machine, conv: Conv, args: seq<Arg>, a: nat)
    requires m.longBytes > 0
    ensures var bound := Bound(m, conv, args, a); bound.Some? ==> bound.value.1 == a + Takes(conv)
  {
    hide Signed, Unsigned, Fetched, IntegerFlags, Base;
    if conv.spec in "diuxXobpcsfFeEgG" {
      TakingSpec(conv.spec);
    } else {
      OtherItem(m, conv, NO_FLAGS, 0, 0, args, a);
    }
  }

  lemma TakingSpec(c: char)
    requires c in "diuxXobpcsfFeEgG"
    ensures IsInteger(c) || IsFloat(c) || c == 'p' || c == 'c' || c == 's'
  {
    var all := "diuxXobpcsfFeEgG";
    var k :| 0 <= k < |all| && all[k] == c;
  }

  // ---- Prefixes ----

  /**
   An unsigned number with a prefix and no precision: the digits behind the prefix stand for the value exactly
   when the value, written in the base, would not fill the field without the prefix. A zero-padded field counts
   as filled as soon as the prefix finds too few zeros to take the place of.
   */
  lemma PrefixedDirective(m: Machine, conv: Conv, args: seq<Arg>, a: nat, v: int, u: nat)
    requires m.longBytes > 0 && Writable(conv) && !conv.width.Star? && conv.prec.Absent? && conv.flags.hash
    requires conv.spec in "xXob" && a < |args| && args[a] == Arg.Number(v) && IsValue(m, conv.length, false, v, u)
    ensures var r := TextOf(m, "%" + Show(conv), args, a);
      var base := match conv.spec case 'o' => 8 case 'b' => 2 case _ => 16;
      var prefix := match conv.spec case 'o' => "0" case 'b' => "0b" case 'X' => "0X" case _ => "0x";
      r.Some? && (0 < u < Power(base, BUFFER_SIZE) ==> exists digits ::
        && Framed(r.value, digits, prefix, "", conv.flags.zeroPad, conv.flags.left, Amount(conv.width))
        && (Printf.Number(Reversed(digits), base) == u
            <==> !Crowded(u, base, Amount(conv.width), conv.flags.zeroPad && !conv.flags.left)))
  {
    hide *;
    HashSpec(conv.spec);
    IntegerDirective(m, conv, args, a, v, u);
    var r, upper := TextOf(m, "%" + Show(conv), args, a), conv.spec == 'X';
    var base := match conv.spec case 'o' => 8 case 'b' => 2 case _ => 16;
    if 0 < u < Power(base, BUFFER_SIZE) {
      NoPrecision(conv);
      var t := LaidMeans(r.value, u, base, upper, conv.flags.zeroPad, conv.flags.left, Amount(conv.width));
      PrefixCost(t, u, base, upper, conv.flags.zeroPad, conv.flags.left, Amount(conv.width));
    }
  }

  lemma HashSpec(c: char)
    requires c in "xXob"
    ensures (c == 'x' || c == 'X' || c == 'o' || c == 'b') && c in "diuxXob"
    ensures PrefixOf(match c case 'o' => 8 case 'b' => 2 case _ => 16, c == 'X')
         == match c case 'o' => "0" case 'b' => "0b" case 'X' => "0X" case _ => "0x"
  {
    var k :| 0 <= k < |"xXob"| && "xXob"[k] == c;
    assert "diuxXob"[3] == 'x' && "diuxXob"[4] == 'X' && "diuxXob"[5] == 'o' && "diuxXob"[6] == 'b';
  }

  lemma NoPrecision(conv: Conv)
    requires conv.prec.Absent?
    ensures Amount(conv.prec) == 0
  {
  }

  /** "%#4x" of 0x1234 writes only the last two digits behind the prefix. */
  lemma PrefixTakesDigits(m: Machine)
    requires m.longBytes > 0
    ensures TextOf(m, "%#4x", [Arg.Number(0x1234)], 0) == Some("0x34")
  {
    var conv := Conv(Flags(false, false, false, false, true, false, false), Given(4), Absent, Plain, 'x');
    HashFour(conv);
    LoneDirective(m, conv, [Arg.Number(0x1234)], 0);
    HashFourWrites(m, conv);
    HashFourText(conv.flags);
    hide Ntoa, Show, Items;
  }

  lemma HashFour(conv: Conv)
    requires conv == Conv(Flags(false, false, false, false, true, false, false), Given(4), Absent, Plain, 'x')
    ensures Writable(conv) && "%" + Show(conv) == "%#4x"
  {
    DivModUnique(4, 10, 0, 4);
    assert Digits(4, 10, false, BUFFER_SIZE) == "4";
    assert Decimals(4) == "4";
    hide Decimals;
    assert ShowFlags(conv.flags) == "#";
  }

  lemma HashFourWrites(m: Machine, conv: Conv)
    requires m.longBytes > 0 && conv == Conv(Flags(false, false, false, false, true, false, false), Given(4), Absent, Plain, 'x')
    ensures var bound := Bound(m, conv, [Arg.Number(0x1234)], 0);
      && bound.Some? && bound.value.0 == Integer(0x1234, false, 16, 0, 4, conv.flags)
      && Written(bound.value.0) == Ntoa(0x1234, false, 16, 0, 4, conv.flags)
  {
    IntBits();
    DivModUnique(0x1234, 0x1_0000_0000, 0, 0x1234);
    hide Ntoa, Pow2;
  }

  lemma HashFourText(flags: Flags)
    requires flags == Flags(false, false, false, false, true, false, false)
    ensures Ntoa(0x1234, false, 16, 0, 4, flags) == "0x34"
  {
    var digits := Digits(0x1234, 16, false, BUFFER_SIZE);
    assert digits == "4321";
    hide Digits;
  }

  // ---- Plain decimals ----

  lemma PlainConv(conv: Conv)
    requires conv.flags == NO_FLAGS && conv.width.Absent? && conv.prec.Absent? && (conv.spec == 'd' || conv.spec == 'i' || conv.spec == 'u')
    ensures Writable(conv) && conv.spec in "diuxXob" && Amount(conv.prec) == 0 && Amount(conv.width) == 0
    ensures !conv.flags.plus && !conv.flags.space && !conv.flags.hash && !conv.flags.zeroPad && !conv.flags.left
  {
    assert "diuxXob"[0] == 'd' && "diuxXob"[1] == 'i' && "diuxXob"[2] == 'u';
  }

  /**
   %d, %i and %u without flags, width and precision write a minus sign exactly for a negative C value, and
   behind it digits that are read back as the absolute value if that fits a word.
   */
  lemma PlainDecimal(m: Machine, conv: Conv, args: seq<Arg>, a: nat, v: int, x: int)
    requires m.longBytes > 0 && conv.flags == NO_FLAGS && conv.width.Absent? && conv.prec.Absent?
    requires (conv.spec == 'd' || conv.spec == 'i' || conv.spec == 'u') && a < |args| && args[a] == Arg.Number(v)
    requires IsValue(m, conv.length, conv.spec != 'u', v, x) && -0x1_0000_0000 < x < 0x1_0000_0000
    ensures var r, start := TextOf(m, "%" + Show(conv), args, a), if x < 0 then 1 else 0;
      && r.Some? && start < |r.value| && (r.value[0] == '-' <==> x < 0)
      && AtoiFrom(r.value, start, 0) == (if x < 0 then -x else x, |r.value|)
  {
    hide *;
    PlainConv(conv);
    IntegerDirective(m, conv, args, a, v, x);
    DecimalBack(TextOf(m, "%" + Show(conv), args, a).value, if x < 0 then -x else x, if x < 0 then "-" else "");
  }
}
