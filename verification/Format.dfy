/**
 Format strings: reading the directives, fetching their arguments, and the bounded print as a whole.
 */
module Format {
  import opened Arith
  import opened Printf
  import opened Wrappers

  // ---- Directives ----

  /** A width or precision: left out, written down, or taken from the arguments. */
  datatype Field = Absent | Given(n: nat) | Star

  datatype Length = Plain | Short | Char | Long | LongLong | IntMax | PtrDiff | Size

  /** A directive as written. */
  datatype Conv = Conv(flags: Flags, width: Field, prec: Field, length: Length, spec: char)

  const NO_FLAGS := Flags(false, false, false, false, false, false, false)

  predicate IsFlag(c: char) { c == '0' || c == '-' || c == '+' || c == ' ' || c == '#' }

  function WithFlag(f: Flags, c: char): Flags {
    if c == '0' then f.(zeroPad := true)
    else if c == '-' then f.(left := true)
    else if c == '+' then f.(plus := true)
    else if c == ' ' then f.(space := true)
    else if c == '#' then f.(hash := true)
    else f
  }

  /** The flags from position i on, and where they end. */
  function FlagsAt(s: string, i: nat, f: Flags): (r: (Flags, nat))
    requires i <= |s|
    ensures i <= r.1 <= |s|
    decreases |s| - i
  {
    if i < |s| && IsFlag(s[i]) then FlagsAt(s, i + 1, WithFlag(f, s[i])) else (f, i)
  }

  lemma {:induction false} AtoiEnds(s: string, i: nat, acc: nat)
    requires i <= |s|
    ensures i <= AtoiFrom(s, i, acc).1 <= |s|
    decreases |s| - i
  {
    if i < |s| && IsDigit(s[i]) { AtoiEnds(s, i + 1, (acc * 10 + (s[i] as int - '0' as int)) % WORD); }
  }

  function WidthAt(s: string, i: nat): (r: (Field, nat))
    requires i <= |s|
    ensures i <= r.1 <= |s|
  {
    if i < |s| && IsDigit(s[i]) then
      AtoiEnds(s, i, 0);
      (Given(AtoiFrom(s, i, 0).0), AtoiFrom(s, i, 0).1)
    else if i < |s| && s[i] == '*' then (Star, i + 1)
    else (Absent, i)
  }

  /** A dot alone is a precision of 0. */
  function PrecAt(s: string, i: nat): (r: (Field, nat))
    requires i <= |s|
    ensures i <= r.1 <= |s|
  {
    if i < |s| && s[i] == '.' then
      var (p, j) := WidthAt(s, i + 1);
      if p.Absent? then (Given(0), i + 1) else (p, j)
    else (Absent, i)
  }

  function LengthAt(s: string, i: nat): (r: (Length, nat))
    requires i <= |s|
    ensures i <= r.1 <= |s|
  {
    if i == |s| then (Plain, i)
    else if s[i] == 'l' then if i + 1 < |s| && s[i + 1] == 'l' then (LongLong, i + 2) else (Long, i + 1)
    else if s[i] == 'h' then if i + 1 < |s| && s[i + 1] == 'h' then (Char, i + 2) else (Short, i + 1)
    else if s[i] == 't' then (PtrDiff, i + 1)
    else if s[i] == 'z' then (Size, i + 1)
    else if s[i] == 'j' then (IntMax, i + 1)
    else (Plain, i)
  }

  /** The directive that starts behind a percent sign; none when the format ends inside it. */
  function ConvAt(s: string, i: nat): (r: Option<(Conv, nat)>)
    requires i <= |s|
    ensures r.Some? ==> i < r.value.1 <= |s|
  {
    var (f, a) := FlagsAt(s, i, NO_FLAGS);
    var (w, b) := WidthAt(s, a);
    var (p, c) := PrecAt(s, b);
    var (l, d) := LengthAt(s, c);
    if d < |s| then Some((Conv(f, w, p, l, s[d]), d + 1)) else None
  }

  // ---- Arguments ----

  /** Arguments as they are passed; the text of a floating-point conversion stands for its value. */
  datatype Arg = Number(v: int) | String(text: string) | Real(text: string)

  /** The widths of the C types; int has 32 bits. */
  datatype Machine = Machine(longBytes: nat, charSigned: bool)

  function Unsigned(v: int, bits: nat): nat { v % Pow2(bits) }

  function Signed(v: int, bits: nat): int
    requires bits > 0
  {
    if Unsigned(v, bits) < Pow2(bits - 1) then Unsigned(v, bits) else Unsigned(v, bits) - Pow2(bits)
  }

  function Bits(m: Machine, l: Length): nat {
    match l
    case Plain => 32
    case Short => 16
    case Char => 8
    case Long => 8 * m.longBytes
    case LongLong => 64
    case IntMax => 64
    case PtrDiff => 8 * m.longBytes
    case Size => 8 * m.longBytes
  }

  function Fetched(m: Machine, l: Length, signed: bool, v: int): int
    requires m.longBytes > 0
  {
    if signed && (l != Char || m.charSigned) then Signed(v, Bits(m, l)) else Unsigned(v, Bits(m, l))
  }

  function NumberAt(args: seq<Arg>, a: nat): Option<int> {
    if a < |args| && args[a].Number? then Some(args[a].v) else None
  }

  /** Flags and width once a star is filled in, and the next argument. */
  function Width(conv: Conv, args: seq<Arg>, a: nat): Option<(Flags, nat, nat)> {
    match conv.width
    case Absent => Some((conv.flags, 0, a))
    case Given(n) => Some((conv.flags, n, a))
    case Star =>
      match NumberAt(args, a)
      case None => None
      case Some(v) =>
        var w := Signed(v, 32);
        Some(if w < 0 then (conv.flags.(left := true), -w, a + 1) else (conv.flags, w, a + 1))
  }

  function Precision(conv: Conv, f: Flags, args: seq<Arg>, a: nat): Option<(Flags, nat, nat)> {
    match conv.prec
    case Absent => Some((f, 0, a))
    case Given(n) => Some((f.(precision := true), n, a))
    case Star =>
      match NumberAt(args, a)
      case None => None
      case Some(v) => Some((f.(precision := true), if Signed(v, 32) > 0 then Signed(v, 32) else 0, a + 1))
  }

  /** What a directive writes. */
  datatype Item =
    | Literal(c: char)
    | Integer(value: nat, negative: bool, base: nat, prec: nat, width: nat, flags: Flags)
    | Character(c: char, width: nat, flags: Flags)
    | Text(text: string, prec: nat, width: nat, flags: Flags)
    | Floating(text: string)
  {
    predicate Ok() { Integer? ==> 2 <= base <= 16 }
  }

  predicate IsInteger(c: char) { c == 'd' || c == 'i' || c == 'u' || c == 'x' || c == 'X' || c == 'o' || c == 'b' }

  predicate IsFloat(c: char) { c == 'f' || c == 'F' || c == 'e' || c == 'E' || c == 'g' || c == 'G' }

  predicate IsSigned(c: char) { c == 'd' || c == 'i' }

  function Base(c: char): (b: nat)
    ensures 2 <= b <= 16
  {
    if c == 'x' || c == 'X' then 16 else if c == 'o' then 8 else if c == 'b' then 2 else 10
  }

  /** The flags that count for an integer. */
  function IntegerFlags(f: Flags, c: char): Flags {
    var f1 := if Base(c) == 10 then f.(hash := false) else f;
    var f2 := if c == 'X' then f1.(upper := true) else f1;
    var f3 := if IsSigned(c) then f2 else f2.(plus := false, space := false);
    if f.precision then f3.(zeroPad := false) else f3
  }

  function Abs(v: int): nat { if v < 0 then -v else v }

  /** The item of a directive, given its flags, width and precision, and the next argument. */
  function ItemOf(m: Machine, conv: Conv, f: Flags, w: nat, p: nat, args: seq<Arg>, a: nat): (r: Option<(Item, nat)>)
    requires m.longBytes > 0
    ensures r.Some? ==> r.value.0.Ok()
  {
    if IsInteger(conv.spec) then
      match NumberAt(args, a)
      case None => None
      case Some(v) =>
        var x := Fetched(m, conv.length, IsSigned(conv.spec), v);
        Some((Integer(Abs(x), x < 0, Base(conv.spec), p, w, IntegerFlags(f, conv.spec)), a + 1))
    else if conv.spec == 'p' then
      match NumberAt(args, a)
      case None => None
      case Some(v) =>
        Some((Integer(Unsigned(v, 8 * m.longBytes), false, 16, p, 2 * m.longBytes, f.(zeroPad := true, upper := true)), a + 1))
    else if conv.spec == 'c' then
      match NumberAt(args, a)
      case None => None
      case Some(v) => Some((Character(Byte(v), w, f), a + 1))
    else if conv.spec == 's' then
      if a < |args| && args[a].String? then Some((Text(args[a].text, p, w, f), a + 1)) else None
    else if IsFloat(conv.spec) then
      if a < |args| && args[a].Real? then Some((Floating(args[a].text), a + 1)) else None
    else Some((Literal(conv.spec), a))
  }

  /** The character of an int argument. */
  function Byte(v: int): char {
    (v % 256) as char
  }

  /** A directive with its arguments fetched: width, precision, then the value. */
  function Bound(m: Machine, conv: Conv, args: seq<Arg>, a: nat): (r: Option<(Item, nat)>)
    requires m.longBytes > 0
    ensures r.Some? ==> r.value.0.Ok()
  {
    match Width(conv, args, a)
    case None => None
    case Some((f, w, b)) =>
      match Precision(conv, f, args, b)
      case None => None
      case Some((g, p, c)) => ItemOf(m, conv, g, w, p, args, c)
  }

  /**
   What a format writes with these arguments; none when it ends inside a directive or the arguments do
   not match.
   */
  function Items(m: Machine, s: string, i: nat, args: seq<Arg>, a: nat): (r: Option<seq<Item>>)
    requires i <= |s| && m.longBytes > 0
    ensures r.Some? ==> forall k :: 0 <= k < |r.value| ==> r.value[k].Ok()
    decreases |s| - i
  {
    if i == |s| then Some([])
    else if s[i] != '%' then Before(Literal(s[i]), Items(m, s, i + 1, args, a))
    else
      match ConvAt(s, i + 1)
      case None => None
      case Some((conv, j)) =>
        match Bound(m, conv, args, a)
        case None => None
        case Some((item, b)) => Before(item, Items(m, s, j, args, b))
  }

  function Before(item: Item, rest: Option<seq<Item>>): Option<seq<Item>> {
    if rest.Some? then Some([item] + rest.value) else None
  }

  // ---- Writing formats down ----

  function ShowFlags(f: Flags): string {
    (if f.zeroPad then "0" else "") + (if f.left then "-" else "") + (if f.plus then "+" else "")
    + (if f.space then " " else "") + (if f.hash then "#" else "")
  }

  function Decimals(n: nat): string { Reversed(Digits(n, 10, false, BUFFER_SIZE)) }

  function ShowField(x: Field): string {
    match x
    case Absent => ""
    case Given(n) => Decimals(n)
    case Star => "*"
  }

  function ShowPrec(x: Field): string { if x.Absent? then "" else "." + ShowField(x) }

  function ShowLength(l: Length): string {
    match l
    case Plain => ""
    case Short => "h"
    case Char => "hh"
    case Long => "l"
    case LongLong => "ll"
    case IntMax => "j"
    case PtrDiff => "t"
    case Size => "z"
  }

  function Show(conv: Conv): string {
    ShowFlags(conv.flags) + (ShowField(conv.width) + (ShowPrec(conv.prec) + (ShowLength(conv.length) + [conv.spec])))
  }

  /** A character that can only be a specifier. */
  predicate OnlySpec(c: char) {
    !IsFlag(c) && !IsDigit(c) && c != '*' && c != '.' && c != 'l' && c != 'h' && c != 't' && c != 'j' && c != 'z'
  }

  /** A directive that can be written down: a width of 0 is left out, and numbers fit a word. */
  ghost predicate Writable(conv: Conv) {
    && !conv.flags.upper && !conv.flags.precision && OnlySpec(conv.spec)
    && (conv.width.Given? ==> 0 < conv.width.n < WORD) && (conv.prec.Given? ==> conv.prec.n < WORD)
  }

  /** s has t at position i. */
  ghost predicate Has(s: string, i: nat, t: string) { i + |t| <= |s| && s[i..i + |t|] == t }

  lemma HasBoth(s: string, i: nat, t: string, u: string)
    requires Has(s, i, t + u)
    ensures Has(s, i, t) && Has(s, i + |t|, u) && i + |t + u| == i + |t| + |u|
    ensures u != [] ==> i + |t| < |s| && s[i + |t|] == u[0]
  {
    assert s[i..i + |t|] == (t + u)[..|t|];
    assert s[i + |t|..i + |t| + |u|] == (t + u)[|t|..];
    if u != [] { assert s[i + |t|..i + |t| + |u|][0] == u[0]; }
  }

  function FoldFlags(f: Flags, t: string): Flags
    decreases |t|
  {
    if t == [] then f else FoldFlags(WithFlag(f, t[0]), t[1..])
  }

  lemma {:induction false} FoldBoth(f: Flags, t: string, u: string)
    ensures FoldFlags(f, t + u) == FoldFlags(FoldFlags(f, t), u)
    decreases |t|
  {
    if t == [] {
      assert t + u == u;
    } else {
      assert (t + u)[1..] == t[1..] + u;
      FoldBoth(WithFlag(f, t[0]), t[1..], u);
    }
  }

  lemma FoldOne(f: Flags, c: char)
    ensures FoldFlags(f, [c]) == WithFlag(f, c) && FoldFlags(f, []) == f
  {
  }

  lemma {:induction false} FlagsRead(s: string, i: nat, t: string, f: Flags)
    requires Has(s, i, t) && (forall k :: 0 <= k < |t| ==> IsFlag(t[k])) && (i + |t| < |s| ==> !IsFlag(s[i + |t|]))
    ensures FlagsAt(s, i, f) == (FoldFlags(f, t), i + |t|)
    decreases |t|
  {
    hide WithFlag;
    if t != [] {
      assert s[i] == s[i..i + |t|][0] == t[0];
      assert s[i + 1..i + |t|] == t[1..];
      FlagsRead(s, i + 1, t[1..], WithFlag(f, t[0]));
    }
  }

  lemma ShownFlags(f: Flags)
    requires !f.upper && !f.precision
    ensures FoldFlags(NO_FLAGS, ShowFlags(f)) == f && forall k :: 0 <= k < |ShowFlags(f)| ==> IsFlag(ShowFlags(f)[k])
  {
    var a, b, c := if f.zeroPad then "0" else "", if f.left then "-" else "", if f.plus then "+" else "";
    var d, e := if f.space then " " else "", if f.hash then "#" else "";
    FoldBoth(NO_FLAGS, a + b + c + d, e);
    FoldBoth(NO_FLAGS, a + b + c, d);
    FoldBoth(NO_FLAGS, a + b, c);
    FoldBoth(NO_FLAGS, a, b);
    FoldOne(NO_FLAGS, '0');
    var f1 := NO_FLAGS.(zeroPad := f.zeroPad);
    FoldOne(f1, '-');
    var f2 := f1.(left := f.left);
    FoldOne(f2, '+');
    var f3 := f2.(plus := f.plus);
    FoldOne(f3, ' ');
    var f4 := f3.(space := f.space);
    FoldOne(f4, '#');
    hide FoldFlags;
  }

  /** The number a digit text stands for is read back, and its first digit is 0 for 0 only. */
  lemma DecimalsRead(s: string, i: nat, n: nat)
    requires n < WORD && Has(s, i, Decimals(n)) && (i + |Decimals(n)| < |s| ==> !IsDigit(s[i + |Decimals(n)|]))
    ensures AtoiFrom(s, i, 0) == (n, i + |Decimals(n)|)
  {
    hide *;
    DecimalsAre(n);
    HasIs(s, i, Decimals(n));
    AtoiWhole(s, i, Digits(n, 10, false, BUFFER_SIZE));
  }

  lemma HasIs(s: string, i: nat, t: string)
    requires Has(s, i, t)
    ensures i + |t| <= |s| && s[i..i + |t|] == t
  {
  }

  lemma DecimalsAre(n: nat)
    requires n < WORD
    ensures var ds := Digits(n, 10, false, BUFFER_SIZE);
            && Decimals(n) == Reversed(ds) && |Decimals(n)| == |ds| > 0 && Decimal(ds) && Printf.Number(ds, 10) == n
            && IsDigit(Decimals(n)[0]) && (n > 0 ==> Decimals(n)[0] != '0')
  {
    var ds := Digits(n, 10, false, BUFFER_SIZE);
    WordFits();
    DigitsDenote(n, 10, false, BUFFER_SIZE);
    DigitsDecimal(n, false, BUFFER_SIZE);
    DivModUnique(n, Power(10, BUFFER_SIZE), 0, n);
    if n > 0 { TopFigure(n, 10, false, BUFFER_SIZE); }
    hide Digits, Power, Printf.Number;
    assert Decimals(n)[0] == ds[|ds| - 1];
  }

  lemma WidthRead(s: string, i: nat, w: Field)
    requires Has(s, i, ShowField(w)) && (w.Given? ==> w.n < WORD)
    requires var j := i + |ShowField(w)|; j < |s| && !IsDigit(s[j]) && s[j] != '*'
    ensures WidthAt(s, i) == (w, i + |ShowField(w)|)
  {
    hide *;
    ShowFieldIs(w);
    WidthIs(s, i);
    if w.Given? {
      DecimalsAre(w.n);
      HasFirst(s, i, Decimals(w.n));
      DecimalsRead(s, i, w.n);
    } else if w.Star? {
      HasFirst(s, i, "*");
      StarIs('*');
    }
  }

  lemma StarIs(c: char)
    ensures c == '*' ==> !IsDigit(c)
  {
  }

  lemma ShowFieldIs(w: Field)
    ensures ShowField(w) == match w case Absent => "" case Given(n) => Decimals(n) case Star => "*"
  {
    hide Decimals;
  }

  lemma WidthIs(s: string, i: nat)
    requires i <= |s|
    ensures WidthAt(s, i) ==
      if i < |s| && IsDigit(s[i]) then (Given(AtoiFrom(s, i, 0).0), AtoiFrom(s, i, 0).1)
      else if i < |s| && s[i] == '*' then (Star, i + 1)
      else (Absent, i)
  {
    hide AtoiFrom;
  }

  lemma HasFirst(s: string, i: nat, t: string)
    requires Has(s, i, t) && t != []
    ensures i < |s| && s[i] == t[0]
  {
    assert s[i] == s[i..i + |t|][0];
  }

  lemma PrecRead(s: string, i: nat, p: Field)
    requires Has(s, i, ShowPrec(p)) && (p.Given? ==> p.n < WORD)
    requires var j := i + |ShowPrec(p)|; j < |s| && !IsDigit(s[j]) && s[j] != '*' && s[j] != '.'
    ensures PrecAt(s, i) == (p, i + |ShowPrec(p)|)
  {
    hide ShowField, WidthAt;
    if !p.Absent? {
      HasBoth(s, i, ".", ShowField(p));
      assert s[i] == s[i..i + 1][0];
      WidthRead(s, i + 1, p);
    }
  }

  lemma LengthRead(s: string, i: nat, l: Length)
    requires Has(s, i, ShowLength(l)) && var j := i + |ShowLength(l)|; j < |s| && OnlySpec(s[j])
    ensures LengthAt(s, i) == (l, i + |ShowLength(l)|)
  {
    var t := ShowLength(l);
    if |t| >= 1 { assert s[i] == s[i..i + |t|][0] == t[0]; }
    if |t| == 2 { assert s[i + 1] == s[i..i + |t|][1] == t[1]; }
  }

  /** What follows each part cannot be taken for more of it. */
  lemma PartsEnd(conv: Conv)
    requires Writable(conv)
    ensures var c3 := ShowLength(conv.length) + [conv.spec]; var c2 := ShowPrec(conv.prec) + c3; var c1 := ShowField(conv.width) + c2;
            && |c1| > 0 && |c2| > 0 && |c3| > 0 && !IsFlag(c1[0])
            && !IsDigit(c2[0]) && c2[0] != '*' && !IsDigit(c3[0]) && c3[0] != '*' && c3[0] != '.'
  {
    hide Decimals;
    if conv.width.Given? { DecimalsAre(conv.width.n); }
    var c3 := ShowLength(conv.length) + [conv.spec];
    assert c3[0] == if conv.length.Plain? then conv.spec else ShowLength(conv.length)[0];
    var c2 := ShowPrec(conv.prec) + c3;
    assert c2[0] == if conv.prec.Absent? then c3[0] else '.';
    var c1 := ShowField(conv.width) + c2;
    assert c1[0] == if conv.width.Absent? then c2[0] else ShowField(conv.width)[0];
  }

  /** Reading a directive that was written down gives it back. */
  lemma ConvRoundTrip(s: string, i: nat, conv: Conv)
    requires Writable(conv) && Has(s, i, Show(conv))
    ensures i <= |s| && ConvAt(s, i) == Some((conv, i + |Show(conv)|))
  {
    hide *;
    WritableIs(conv);
    ShowIs(conv);
    var c3 := ShowLength(conv.length) + [conv.spec];
    var c2 := ShowPrec(conv.prec) + c3;
    var c1 := ShowField(conv.width) + c2;
    PartsEnd(conv);
    var a := i + |ShowFlags(conv.flags)|;
    var b := a + |ShowField(conv.width)|;
    var c := b + |ShowPrec(conv.prec)|;
    var d := c + |ShowLength(conv.length)|;
    HasBoth(s, i, ShowFlags(conv.flags), c1);
    HasBoth(s, a, ShowField(conv.width), c2);
    HasBoth(s, b, ShowPrec(conv.prec), c3);
    HasBoth(s, c, ShowLength(conv.length), [conv.spec]);
    ShownFlags(conv.flags);
    FlagsRead(s, i, ShowFlags(conv.flags), NO_FLAGS);
    WidthRead(s, a, conv.width);
    PrecRead(s, b, conv.prec);
    LengthRead(s, c, conv.length);
    ConvFrom(s, i, conv, a, b, c, d);
  }

  lemma WritableIs(conv: Conv)
    requires Writable(conv)
    ensures !conv.flags.upper && !conv.flags.precision && OnlySpec(conv.spec)
    ensures (conv.width.Given? ==> conv.width.n < WORD) && (conv.prec.Given? ==> conv.prec.n < WORD)
  {
  }

  lemma ShowIs(conv: Conv)
    ensures Show(conv) == ShowFlags(conv.flags) + (ShowField(conv.width) + (ShowPrec(conv.prec) + (ShowLength(conv.length) + [conv.spec])))
    ensures |Show(conv)| == |ShowFlags(conv.flags)| + |ShowField(conv.width)| + |ShowPrec(conv.prec)| + |ShowLength(conv.length)| + 1
  {
    hide ShowFlags, ShowField, ShowPrec, ShowLength;
  }

  lemma ConvFrom(s: string, i: nat, conv: Conv, a: nat, b: nat, c: nat, d: nat)
    requires i <= a <= b <= c <= d < |s| && s[d] == conv.spec
    requires FlagsAt(s, i, NO_FLAGS) == (conv.flags, a) && WidthAt(s, a) == (conv.width, b)
    requires PrecAt(s, b) == (conv.prec, c) && LengthAt(s, c) == (conv.length, d)
    ensures ConvAt(s, i) == Some((conv, d + 1))
  {
    hide FlagsAt, WidthAt, PrecAt, LengthAt;
  }

  /** A format in its parts. */
  datatype Piece = Verbatim(c: char) | Directive(conv: Conv)

  ghost predicate PiecesOk(ps: seq<Piece>) {
    forall k :: 0 <= k < |ps| ==> if ps[k].Directive? then Writable(ps[k].conv) else ps[k].c != '%'
  }

  function Shown(p: Piece): string { if p.Directive? then "%" + Show(p.conv) else [p.c] }

  function FormatOf(ps: seq<Piece>): string { if ps == [] then "" else Shown(ps[0]) + FormatOf(ps[1..]) }

  /** What the parts of a format ask for, one after the other. */
  function Meaning(m: Machine, ps: seq<Piece>, args: seq<Arg>, a: nat): Option<seq<Item>>
    requires m.longBytes > 0
  {
    if ps == [] then Some([])
    else if ps[0].Verbatim? then Before(Literal(ps[0].c), Meaning(m, ps[1..], args, a))
    else
      match Bound(m, ps[0].conv, args, a)
      case None => None
      case Some((item, b)) => Before(item, Meaning(m, ps[1..], args, b))
  }

  /** A format written down from its parts means just these parts, whatever the arguments. */
  lemma {:induction false} FormatRoundTrip(m: Machine, s: string, i: nat, ps: seq<Piece>, args: seq<Arg>, a: nat)
    requires m.longBytes > 0 && PiecesOk(ps) && i <= |s| && s[i..] == FormatOf(ps)
    ensures Items(m, s, i, args, a) == Meaning(m, ps, args, a)
    decreases |ps|
  {
    hide *;
    if ps == [] {
      NoPieces(m, s, args, a);
    } else {
      var p, rest := ps[0], ps[1..];
      FirstPiece(ps);
      SuffixSplit(s, i, Shown(p), FormatOf(rest));
      if p.Verbatim? {
        ItemsVerbatim(m, s, i, ps, args, a);
        FormatRoundTrip(m, s, i + 1, rest, args, a);
      } else {
        HasBoth(s, i, "%", Show(p.conv));
        ConvRoundTrip(s, i + 1, p.conv);
        var j := i + 1 + |Show(p.conv)|;
        ItemsDirective(m, s, i, ps, j, args, a);
        var bound := Bound(m, p.conv, args, a);
        if bound.Some? { FormatRoundTrip(m, s, j, rest, args, bound.value.1); }
      }
    }
  }

  lemma NoPieces(m: Machine, s: string, args: seq<Arg>, a: nat)
    requires m.longBytes > 0
    ensures FormatOf([]) == [] && Items(m, s, |s|, args, a) == Some([]) && Meaning(m, [], args, a) == Some([])
  {
  }

  lemma FirstPiece(ps: seq<Piece>)
    requires PiecesOk(ps) && ps != []
    ensures PiecesOk(ps[1..]) && FormatOf(ps) == Shown(ps[0]) + FormatOf(ps[1..])
    ensures if ps[0].Directive? then Writable(ps[0].conv) && Shown(ps[0]) == "%" + Show(ps[0].conv)
            else ps[0].c != '%' && Shown(ps[0]) == [ps[0].c]
  {
    hide Show, Writable;
  }

  lemma ItemsVerbatim(m: Machine, s: string, i: nat, ps: seq<Piece>, args: seq<Arg>, a: nat)
    requires m.longBytes > 0 && i < |s| && s[i] != '%' && ps != [] && ps[0] == Verbatim(s[i])
    ensures Items(m, s, i, args, a) == Before(Literal(s[i]), Items(m, s, i + 1, args, a))
    ensures Meaning(m, ps, args, a) == Before(Literal(s[i]), Meaning(m, ps[1..], args, a))
  {
  }

  lemma ItemsDirective(m: Machine, s: string, i: nat, ps: seq<Piece>, j: nat, args: seq<Arg>, a: nat)
    requires m.longBytes > 0 && i < j <= |s| && s[i] == '%' && ps != [] && ps[0].Directive?
    requires ConvAt(s, i + 1) == Some((ps[0].conv, j))
    ensures var bound := Bound(m, ps[0].conv, args, a);
            if bound.None? then Items(m, s, i, args, a) == None == Meaning(m, ps, args, a)
            else && Items(m, s, i, args, a) == Before(bound.value.0, Items(m, s, j, args, bound.value.1))
                 && Meaning(m, ps, args, a) == Before(bound.value.0, Meaning(m, ps[1..], args, bound.value.1))
  {
    hide Bound, ConvAt;
  }

  lemma SuffixSplit(s: string, i: nat, t: string, u: string)
    requires i <= |s| && s[i..] == t + u
    ensures i + |t| <= |s| && Has(s, i, t) && s[i + |t|..] == u && (t != [] ==> s[i] == t[0])
  {
    assert |s[i..]| == |t| + |u|;
    assert s[i..i + |t|] == s[i..][..|t|] == t;
    assert s[i + |t|..] == s[i..][|t|..] == u;
    if t != [] { assert s[i] == s[i..][0]; }
  }

  // ---- Printing ----

  function Written(item: Item): string
    requires item.Ok()
  {
    match item
    case Literal(c) => [c]
    case Integer(value, negative, base, prec, width, flags) => Ntoa(value, negative, base, prec, width, flags)
    case Character(c, width, flags) => CharField(c, width, flags)
    case Text(text, prec, width, flags) => TextField(text, prec, width, flags)
    case Floating(text) => text
  }

  function AllWritten(items: seq<Item>): string
    requires forall k :: 0 <= k < |items| ==> items[k].Ok()
  {
    if items == [] then [] else Written(items[0]) + AllWritten(items[1..])
  }

  method ReadFlags(s: string, i: nat) returns (f: Flags, j: nat)
    requires i <= |s|
    ensures (f, j) == FlagsAt(s, i, NO_FLAGS)
  {
    f, j := NO_FLAGS, i;
    while j < |s| && IsFlag(s[j])
      invariant i <= j <= |s| && FlagsAt(s, i, NO_FLAGS) == FlagsAt(s, j, f)
    {
      f := WithFlag(f, s[j]);
      j := j + 1;
    }
  }

  method ReadWidth(s: string, i: nat) returns (w: Field, j: nat)
    requires i <= |s|
    ensures (w, j) == WidthAt(s, i)
  {
    if i < |s| && IsDigit(s[i]) {
      var n, k := Atoi(s, i);
      return Given(n), k;
    }
    if i < |s| && s[i] == '*' {
      return Star, i + 1;
    }
    return Absent, i;
  }

  method ReadPrecision(s: string, i: nat) returns (p: Field, j: nat)
    requires i <= |s|
    ensures (p, j) == PrecAt(s, i)
  {
    if i == |s| || s[i] != '.' {
      return Absent, i;
    }
    p, j := ReadWidth(s, i + 1);
    if p.Absent? {
      p := Given(0);
    }
  }

  method ReadLength(s: string, i: nat) returns (l: Length, j: nat)
    requires i <= |s|
    ensures (l, j) == LengthAt(s, i)
  {
    l, j := Plain, i;
    if i == |s| {
      return;
    }
    if s[i] == 'l' {
      l, j := Long, j + 1;
      if j < |s| && s[j] == 'l' {
        l, j := LongLong, j + 1;
      }
    } else if s[i] == 'h' {
      l, j := Short, j + 1;
      if j < |s| && s[j] == 'h' {
        l, j := Char, j + 1;
      }
    } else if s[i] == 't' {
      l, j := PtrDiff, j + 1;
    } else if s[i] == 'z' {
      l, j := Size, j + 1;
    } else if s[i] == 'j' {
      l, j := IntMax, j + 1;
    }
  }

  /** The directive behind a percent sign. */
  method ReadConv(s: string, i: nat) returns (conv: Conv, j: nat)
    requires i <= |s| && ConvAt(s, i).Some?
    ensures ConvAt(s, i) == Some((conv, j))
  {
    hide FlagsAt, WidthAt, PrecAt, LengthAt;
    var f, w, p, l;
    f, j := ReadFlags(s, i);
    w, j := ReadWidth(s, j);
    p, j := ReadPrecision(s, j);
    l, j := ReadLength(s, j);
    conv, j := Conv(f, w, p, l, s[j]), j + 1;
  }

  /**
   A bounded print: the buffer holds the first min(total, n - 1) characters of what an unbounded
   print would write and a zero after them, nothing past the bound is touched, and the result is
   the full length.
   */
  method Snprintf(m: Machine, buffer: array<char>, n: nat, format: string, args: seq<Arg>) returns (total: nat)
    requires n <= buffer.Length && m.longBytes > 0 && Items(m, format, 0, args, 0).Some?
    modifies buffer
    ensures var text := AllWritten(Items(m, format, 0, args, 0).value);
            && total == |text|
            && (n > 0 ==> var k := Min(total, n - 1); buffer[..k] == text[..k] && buffer[k] == '\0')
    ensures forall k :: n <= k < buffer.Length ==> buffer[k] == old(buffer[k])
  {
    hide *;
    var out := new Output(buffer, n);
    var pos, arg := 0, 0;
    ghost var text := AllWritten(Items(m, format, 0, args, 0).value);
    ghost var before := buffer[..];
    BeyondNone(out);
    EmptyFirst(text);
    while pos < |format|
      invariant pos <= |format| && out.Valid() && fresh(out) && out.buffer == buffer && out.maxlen == n
      invariant Items(m, format, pos, args, arg).Some?
      invariant text == out.stream + AllWritten(Items(m, format, pos, args, arg).value)
      invariant out.Beyond(before)
      decreases |format| - pos
    {
      ghost var now := buffer[..];
      BeyondMeans(out, before);
      pos, arg := PutNext(m, out, format, pos, args, arg);
      BeyondBoth(out, before, now);
    }
    NothingLeft(m, format, args, arg);
    EmptyLast(out.stream);
    BeyondMeans(out, before);
    ghost var now := buffer[..];
    total := out.Terminate();
    BeyondBoth(out, before, now);
    BeyondMeans(out, before);
  }

  lemma EmptyFirst(s: string)
    ensures [] + s == s
  {
  }

  lemma EmptyLast(s: string)
    ensures s + [] == s
  {
  }

  lemma NothingLeft(m: Machine, s: string, args: seq<Arg>, a: nat)
    requires m.longBytes > 0
    ensures Items(m, s, |s|, args, a) == Some([]) && AllWritten([]) == []
  {
  }

  lemma BeyondNone(out: Output)
    ensures out.Beyond(out.buffer[..])
  {
  }

  lemma BeyondBoth(out: Output, first: string, before: string)
    requires out.Beyond(before)
    requires |first| == |before| && forall k :: out.maxlen <= k < |before| ==> before[k] == first[k]
    ensures out.Beyond(first)
  {
  }

  lemma BeyondMeans(out: Output, before: string)
    requires out.Beyond(before)
    ensures |before| == out.buffer.Length && forall k :: out.maxlen <= k < out.buffer.Length ==> out.buffer[k] == before[k]
  {
  }

  /** Puts out what is next in the format: a character or the item of a directive. */
  method PutNext(m: Machine, out: Output, s: string, pos: nat, args: seq<Arg>, arg: nat) returns (pos': nat, arg': nat)
    requires out.Valid() && pos < |s| && m.longBytes > 0 && Items(m, s, pos, args, arg).Some?
    modifies out, out.buffer
    ensures out.Valid() && out.Beyond(old(out.buffer[..])) && pos < pos' <= |s| && Items(m, s, pos', args, arg').Some?
    ensures out.stream + AllWritten(Items(m, s, pos', args, arg').value)
         == old(out.stream) + AllWritten(Items(m, s, pos, args, arg).value)
  {
    hide Written, ConvAt, Bound, AllWritten;
    ghost var left := Items(m, s, pos, args, arg).value;
    var item;
    if s[pos] != '%' {
      item, pos', arg' := Literal(s[pos]), pos + 1, arg;
    } else {
      var conv;
      conv, pos' := ReadConv(s, pos + 1);
      var bound := Bound(m, conv, args, arg);
      item, arg' := bound.value.0, bound.value.1;
    }
    PutItem(out, item);
    FirstWritten(left, item, Items(m, s, pos', args, arg').value, old(out.stream));
  }

  lemma FirstWritten(left: seq<Item>, item: Item, rest: seq<Item>, stream: string)
    requires left == [item] + rest && forall k :: 0 <= k < |left| ==> left[k].Ok()
    requires forall k :: 0 <= k < |rest| ==> rest[k].Ok()
    ensures item.Ok() && stream + AllWritten(left) == stream + Written(item) + AllWritten(rest)
  {
    hide Written;
    assert left[0] == item && left[1..] == rest;
  }

  method PutItem(out: Output, item: Item)
    requires out.Valid() && item.Ok()
    modifies out, out.buffer
    ensures out.Valid() && out.stream == old(out.stream) + Written(item) && out.Beyond(old(out.buffer[..]))
  {
    hide Ntoa, CharField, TextField;
    PlainText(item);
    match item
    case Literal(c) => out.Put(c);
    case Integer(value, negative, base, prec, width, flags) => NtoaLong(out, value, negative, base, prec, width, flags);
    case Character(c, width, flags) => PutChar(out, c, width, flags);
    case Text(text, prec, width, flags) => PutText(out, text, prec, width, flags);
    case Floating(text) => PutText(out, text, 0, 0, NO_FLAGS);
  }

  lemma PlainText(item: Item)
    ensures item.Floating? ==> TextField(item.text, 0, 0, NO_FLAGS) == item.text
  {
  }
}
