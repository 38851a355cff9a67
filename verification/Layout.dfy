/**
 How a conversion of an integer is laid out as text: its numeral, and the zeros, prefix, sign and spaces
 around it.
 */
module Layout {
  import opened Arith
  import opened Printf

  // ---- Numerals ----

  /** A digit of a base, letters in the case asked for. */
  predicate IsFigure(c: char, base: nat, upper: bool) {
    || ('0' <= c <= '9' && c as int - '0' as int < base)
    || (upper && 'A' <= c <= 'Z' && c as int - 'A' as int + 10 < base)
    || (!upper && 'a' <= c <= 'z' && c as int - 'a' as int + 10 < base)
  }

  /** A value written down, first digit first and without a needless zero, or its last 32 digits. */
  ghost predicate Numeral(t: string, value: nat, base: nat, upper: bool)
    requires 2 <= base <= 16
  {
    && 0 < |t| <= BUFFER_SIZE && (forall k :: 0 <= k < |t| ==> IsFigure(t[k], base, upper))
    && (PowerPositive(base, BUFFER_SIZE); Number(Reversed(t), base) == value % Power(base, BUFFER_SIZE))
    && (if value < Power(base, BUFFER_SIZE) then |t| == 1 || t[0] != '0' else |t| == BUFFER_SIZE)
  }

  lemma {:induction false} DigitsFigured(v: nat, base: nat, upper: bool, n: nat)
    requires 2 <= base <= 16
    ensures var ds := Digits(v, base, upper, n); forall k :: 0 <= k < |ds| ==> IsFigure(ds[k], base, upper)
    decreases n
  {
    hide *;
    if n == 0 {
      NoDigits(v, base, upper);
    } else {
      FirstDigit(v, base, upper, n);
      CharFigure(Modulo(v, base), base, upper);
      if Quotient(v, base) != 0 { DigitsFigured(Quotient(v, base), base, upper, n - 1); }
    }
  }

  lemma CharFigure(d: nat, base: nat, upper: bool)
    requires d < base <= 16
    ensures IsFigure(DigitChar(d, upper), base, upper)
  {
  }

  /** A value too large for n digits has n of them. */
  lemma {:induction false} DigitsFull(v: nat, base: nat, upper: bool, n: nat)
    requires 2 <= base <= 16 && Power(base, n) <= v
    ensures |Digits(v, base, upper, n)| == n
    decreases n
  {
    hide *;
    if n == 0 {
      NoDigits(v, base, upper);
    } else {
      FirstDigit(v, base, upper, n);
      PowerPositive(base, n - 1);
      QuotientBelow(v, base, Power(base, n - 1));
      DigitsFull(Quotient(v, base), base, upper, n - 1);
    }
  }

  lemma Twice(s: string)
    ensures Reversed(Reversed(s)) == s
  {
  }

  /** The digits produced for a value are its numeral. */
  lemma DigitsNumeral(v: nat, base: nat, upper: bool)
    requires 2 <= base <= 16
    ensures Numeral(Reversed(Digits(v, base, upper, BUFFER_SIZE)), v, base, upper)
  {
    hide Digits, Power, Number, IsFigure;
    var ds := Digits(v, base, upper, BUFFER_SIZE);
    DigitsDenote(v, base, upper, BUFFER_SIZE);
    DigitsFigured(v, base, upper, BUFFER_SIZE);
    Twice(ds);
    if v >= Power(base, BUFFER_SIZE) {
      DigitsFull(v, base, upper, BUFFER_SIZE);
    } else if v > 0 {
      TopFigure(v, base, upper, BUFFER_SIZE);
    } else {
      ZeroDigit(base, upper);
    }
  }

  lemma ZeroDigit(base: nat, upper: bool)
    requires 2 <= base <= 16
    ensures |Digits(0, base, upper, BUFFER_SIZE)| == 1
  {
    DivModUnique(0, base, 0, 0);
    hide DigitChar;
  }

  // ---- The text around the digits ----

  /** The end of s that fits. */
  function Fit(s: string, room: int): string { if |s| <= room then s else if room <= 0 then "" else s[|s| - room..] }

  function PrefixOf(base: nat, upper: bool): string {
    if base == 16 then if upper then "0X" else "0x" else if base == 2 then "0b" else "0"
  }

  /** Digits with what fits of a prefix and a sign before them, in a field of a width. */
  ghost predicate Framed(text: string, digits: string, prefix: string, sign: string, zeroPad: bool, left: bool, width: nat) {
    var prefixed := Fit(prefix, BUFFER_SIZE - |digits|) + digits;
    var number := Fit(sign, BUFFER_SIZE - |prefixed|) + prefixed;
    text == if left then number + Fill(' ', width - |number|)
            else if zeroPad then number
            else Fill(' ', width - |number|) + number
  }

  /** The places of a zero-padded field that a sign leaves. */
  function Places(sign: string, zeroPad: bool, left: bool, width: nat): nat {
    if zeroPad && !left && width > 0 && sign != "" then width - 1 else width
  }

  /** Zeros before the digits: up to the precision, and to the width of a zero-padded field. */
  function Zeroed(t: string, zeroPad: bool, left: bool, prec: nat, places: nat): string {
    var n := if left then 0 else if zeroPad && places > prec then places else prec;
    Fill('0', Min(n, BUFFER_SIZE) - |t|) + t
  }

  /** The first digits, which the prefix takes the place of when there are as many as the field has places. */
  function Taken(digits: string, base: nat, precision: bool, prec: nat, places: nat): (n: nat)
    ensures n <= |digits|
  {
    if !precision && digits != "" && (|digits| == prec || |digits| == places) then (if base == 16 && |digits| > 1 then 2 else 1) else 0
  }

  /** A conversion of an integer: the text is made of the numeral of the value, which no value but 0 lacks. */
  ghost predicate Laid(text: string, value: nat, sign: string, base: nat, upper: bool, hash: bool, precision: bool,
                       zeroPad: bool, left: bool, prec: nat, width: nat)
    requires 2 <= base <= 16
  {
    exists t: string :: LaidOut(text, t, value, sign, base, upper, hash, precision, zeroPad, left, prec, width)
  }

  ghost predicate LaidOut(text: string, t: string, value: nat, sign: string, base: nat, upper: bool, hash: bool, precision: bool,
                          zeroPad: bool, left: bool, prec: nat, width: nat)
    requires 2 <= base <= 16
  {
    var places := Places(sign, zeroPad, left, width);
    var digits := Zeroed(t, zeroPad, left, prec, places);
    && (if precision && value == 0 then t == "" else Numeral(t, value, base, upper))
    && if hash && value > 0 then
         Framed(text, digits[Taken(digits, base, precision, prec, places)..], PrefixOf(base, upper), sign, zeroPad, left, width)
       else Framed(text, digits, "", sign, zeroPad, left, width)
  }

  // ---- From the last digit to the first ----

  lemma ReversedBoth(s: string, t: string)
    ensures Reversed(s + t) == Reversed(t) + Reversed(s)
  {
  }

  lemma ReversedFill(c: char, n: int)
    ensures Reversed(Fill(c, n)) == Fill(c, n)
  {
  }

  lemma ReversedOne(c: char)
    ensures Reversed([c]) == [c]
  {
  }

  lemma RoomFits(ds: string, c: char)
    requires |ds| <= BUFFER_SIZE
    ensures Reversed(Room(ds, c)) == Fit([c], BUFFER_SIZE - |ds|) + Reversed(ds) && |Room(ds, c)| <= BUFFER_SIZE
  {
    ReversedBoth(ds, [c]);
    ReversedOne(c);
    hide Reversed;
    assert Fit([c], 0) == "" && "" + Reversed(ds) == Reversed(ds);
  }

  lemma ZerosForward(ds: string, n: nat)
    requires |ds| <= BUFFER_SIZE
    ensures |Zeros(ds, n)| <= BUFFER_SIZE && Reversed(Zeros(ds, n)) == Fill('0', Min(n, BUFFER_SIZE) - |ds|) + Reversed(ds)
  {
    ReversedBoth(ds, Fill('0', Min(n, BUFFER_SIZE) - |ds|));
    ReversedFill('0', Min(n, BUFFER_SIZE) - |ds|);
  }

  lemma PadForward(ds: string, prec: nat, places: nat, flags: Flags)
    requires |ds| <= BUFFER_SIZE
    ensures var p := PadDigits(ds, prec, places, flags);
      |p| <= BUFFER_SIZE && Reversed(p) == Zeroed(Reversed(ds), flags.zeroPad, flags.left, prec, places)
  {
    hide Reversed;
    ReversedLength(ds);
    if flags.left {
      assert Fill('0', 0 - |ds|) + Reversed(ds) == Reversed(ds);
    } else {
      ZerosForward(ds, prec);
      ZerosTwice(ds, prec, places);
      ZerosForward(ds, if places > prec then places else prec);
    }
  }

  lemma ReversedLength(ds: string)
    ensures |Reversed(ds)| == |ds|
  {
  }

  lemma ZerosTwice(ds: string, m: nat, n: nat)
    ensures Zeros(Zeros(ds, m), n) == Zeros(ds, if n > m then n else m)
  {
  }

  lemma ReversedCut(ds: string, n: nat)
    requires n <= |ds|
    ensures Reversed(ds[..|ds| - n]) == Reversed(ds)[n..]
  {
  }

  lemma PrefixFits(d: string, base: nat, upper: bool)
    requires |d| <= BUFFER_SIZE
    ensures var e := if base == 16 then Room(d, if upper then 'X' else 'x') else if base == 2 then Room(d, 'b') else d;
      Reversed(Room(e, '0')) == Fit(PrefixOf(base, upper), BUFFER_SIZE - |d|) + Reversed(d) && |Room(e, '0')| <= BUFFER_SIZE
  {
    var e := if base == 16 then Room(d, if upper then 'X' else 'x') else if base == 2 then Room(d, 'b') else d;
    RoomFits(e, '0');
    if base == 16 || base == 2 {
      RoomFits(d, if base == 2 then 'b' else if upper then 'X' else 'x');
    }
    hide Reversed;
    FitBoth(if base == 2 then 'b' else if upper then 'X' else 'x', BUFFER_SIZE - |d|, Reversed(d));
  }

  lemma FitBoth(c: char, room: nat, t: string)
    ensures Fit(['0'], room - (if room > 0 then 1 else 0)) + (Fit([c], room) + t) == Fit(['0', c], room) + t
  {
    if room == 0 {
      assert "" + ("" + t) == "" + t;
    } else if room == 1 {
      assert ['0', c][1..] == [c];
      assert "" + ([c] + t) == [c] + t;
    } else {
      assert ['0'] + ([c] + t) == ['0', c] + t;
    }
  }

  lemma HashForward(p: string, base: nat, prec: nat, places: nat, flags: Flags)
    requires |p| <= BUFFER_SIZE && flags.hash
    ensures var q, r := WithHash(p, base, prec, places, flags), Reversed(p);
      && |q| <= BUFFER_SIZE
      && var kept := r[Taken(r, base, flags.precision, prec, places)..];
         Reversed(q) == Fit(PrefixOf(base, flags.upper), BUFFER_SIZE - |kept|) + kept
  {
    hide Reversed, Room, Fit, PrefixOf;
    ReversedLength(p);
    var n := Taken(Reversed(p), base, flags.precision, prec, places);
    ReversedCut(p, n);
    PrefixFits(p[..|p| - n], base, flags.upper);
  }

  lemma SignForward(q: string, negative: bool, flags: Flags)
    requires |q| <= BUFFER_SIZE
    ensures Reversed(WithSign(q, negative, flags)) == Fit(Sign(negative, flags), BUFFER_SIZE - |q|) + Reversed(q)
  {
    hide Reversed, Room;
    RoomFits(q, if negative then '-' else if flags.plus then '+' else ' ');
    assert Fit("", BUFFER_SIZE - |q|) + Reversed(q) == Reversed(q);
  }

  /** Padding, prefix and sign, seen from the first character on. */
  lemma FrameForward(ds: string, value: nat, negative: bool, base: nat, prec: nat, width: nat, flags: Flags)
    requires 2 <= base <= 16 && |ds| <= BUFFER_SIZE
    ensures var w, sign := FieldWidth(width, negative, flags), Sign(negative, flags);
      var digits := Zeroed(Reversed(ds), flags.zeroPad, flags.left, prec, w);
      var text := Reverse(WithSign(WithHash(PadDigits(ds, prec, w, flags), base, prec, w, flags), negative, flags), w, flags);
      && w == Places(sign, flags.zeroPad, flags.left, width)
      && if flags.hash then
           Framed(text, digits[Taken(digits, base, flags.precision, prec, w)..], PrefixOf(base, flags.upper), sign,
                  flags.zeroPad, flags.left, width)
         else Framed(text, digits, "", sign, flags.zeroPad, flags.left, width)
  {
    hide *;
    var w := FieldWidth(width, negative, flags);
    var p := PadDigits(ds, prec, w, flags);
    PlacesLeft(negative, flags, width);
    PadForward(ds, prec, w, flags);
    if flags.hash {
      HashForward(p, base, prec, w, flags);
    } else {
      NoHash(p, base, prec, w, flags);
    }
    var q := WithHash(p, base, prec, w, flags);
    SignForward(q, negative, flags);
    ReverseForward(WithSign(q, negative, flags), w, flags);
    ReversedLength(q);
    ReversedLength(WithSign(q, negative, flags));
    var digits := Reversed(p);
    FramedIs(Reverse(WithSign(q, negative, flags), w, flags),
             if flags.hash then digits[Taken(digits, base, flags.precision, prec, w)..] else digits,
             if flags.hash then PrefixOf(base, flags.upper) else "", Sign(negative, flags), flags.zeroPad, flags.left, width, Reversed(q));
  }

  lemma PlacesLeft(negative: bool, flags: Flags, width: nat)
    ensures FieldWidth(width, negative, flags) == Places(Sign(negative, flags), flags.zeroPad, flags.left, width)
    ensures flags.left || !flags.zeroPad ==> FieldWidth(width, negative, flags) == width
  {
  }

  lemma NoHash(p: string, base: nat, prec: nat, w: nat, flags: Flags)
    requires !flags.hash
    ensures WithHash(p, base, prec, w, flags) == p && Fit("", BUFFER_SIZE - |p|) + Reversed(p) == Reversed(p)
  {
    hide Reversed;
  }

  lemma ReverseForward(ds: string, w: nat, flags: Flags)
    ensures var n := Reversed(ds);
      Reverse(ds, w, flags) == if flags.left then n + Fill(' ', w - |ds|) else if flags.zeroPad then n else Fill(' ', w - |ds|) + n
  {
    hide Reversed;
  }

  lemma FramedIs(text: string, digits: string, prefix: string, sign: string, zeroPad: bool, left: bool, width: nat, prefixed: string)
    requires prefixed == Fit(prefix, BUFFER_SIZE - |digits|) + digits
    requires var number := Fit(sign, BUFFER_SIZE - |prefixed|) + prefixed;
      text == if left then number + Fill(' ', width - |number|)
              else if zeroPad then number
              else Fill(' ', width - |number|) + number
    ensures Framed(text, digits, prefix, sign, zeroPad, left, width)
  {
    hide Fit;
  }

  /** A conversion of an integer writes its numeral with zeros, prefix, sign and spaces. */
  lemma NtoaLaid(value: nat, negative: bool, base: nat, prec: nat, width: nat, flags: Flags)
    requires 2 <= base <= 16
    ensures Laid(Ntoa(value, negative, base, prec, width, flags), value, Sign(negative, flags), base, flags.upper,
                 flags.hash, flags.precision, flags.zeroPad, flags.left, prec, width)
  {
    hide *;
    var f := if value == 0 then flags.(hash := false) else flags;
    var ds := Bare(value, base, flags);
    NtoaBare(value, negative, base, prec, width, flags, f);
    BareDenotes(value, base, flags);
    FrameForward(ds, value, negative, base, prec, width, f);
    BareNumeral(value, base, flags);
    SameSign(negative, flags, f);
    LaidIs(Ntoa(value, negative, base, prec, width, flags), Reversed(ds), value, Sign(negative, flags), base, flags.upper,
           flags.hash, flags.precision, flags.zeroPad, flags.left, prec, width);
  }

  lemma NtoaBare(value: nat, negative: bool, base: nat, prec: nat, width: nat, flags: Flags, f: Flags)
    requires 2 <= base <= 16 && f == if value == 0 then flags.(hash := false) else flags
    ensures var w := FieldWidth(width, negative, f);
      Ntoa(value, negative, base, prec, width, flags)
        == Reverse(WithSign(WithHash(PadDigits(Bare(value, base, flags), prec, w, f), base, prec, w, f), negative, f), w, f)
  {
    hide Digits, Reverse, WithSign, WithHash, PadDigits, FieldWidth;
  }

  lemma SameSign(negative: bool, flags: Flags, f: Flags)
    requires f == flags || f == flags.(hash := false)
    ensures Sign(negative, f) == Sign(negative, flags)
  {
  }

  lemma BareNumeral(value: nat, base: nat, flags: Flags)
    requires 2 <= base <= 16
    ensures var t := Reversed(Bare(value, base, flags));
      if flags.precision && value == 0 then t == "" else Numeral(t, value, base, flags.upper)
  {
    hide Numeral, Digits;
    DigitsNumeral(value, base, flags.upper);
  }

  lemma LaidIs(text: string, t: string, value: nat, sign: string, base: nat, upper: bool, hash: bool, precision: bool,
               zeroPad: bool, left: bool, prec: nat, width: nat)
    requires 2 <= base <= 16
    requires if precision && value == 0 then t == "" else Numeral(t, value, base, upper)
    requires var places := Places(sign, zeroPad, left, width);
      var digits := Zeroed(t, zeroPad, left, prec, places);
      if hash && value > 0 then
        Framed(text, digits[Taken(digits, base, precision, prec, places)..], PrefixOf(base, upper), sign, zeroPad, left, width)
      else Framed(text, digits, "", sign, zeroPad, left, width)
    ensures Laid(text, value, sign, base, upper, hash, precision, zeroPad, left, prec, width)
  {
    hide Numeral, Framed, Zeroed, Taken, Places, PrefixOf;
    assert LaidOut(text, t, value, sign, base, upper, hash, precision, zeroPad, left, prec, width);
  }

  // ---- How many digits a value has ----

  lemma {:induction false} NumberBound(ds: string, base: nat, upper: bool)
    requires 2 <= base <= 16 && forall k :: 0 <= k < |ds| ==> IsFigure(ds[k], base, upper)
    ensures 0 <= Number(ds, base) < Power(base, |ds|)
  {
    hide *;
    NumberIs(ds, base);
    if ds != [] {
      NumberBound(ds[1..], base, upper);
      FigureValue(ds[0], base, upper);
      RowBound(Number(ds[1..], base), Power(base, |ds| - 1), base, DigitValue(ds[0]));
    }
  }

  lemma NumberIs(ds: string, base: nat)
    ensures ds == [] ==> Number(ds, base) == 0 && Power(base, |ds|) == 1
    ensures ds != [] ==> Number(ds, base) == DigitValue(ds[0]) + base * Number(ds[1..], base)
    ensures ds != [] ==> Power(base, |ds|) == base * Power(base, |ds| - 1)
  {
    hide DigitValue;
  }

  lemma FigureValue(c: char, base: nat, upper: bool)
    requires base <= 16 && IsFigure(c, base, upper)
    ensures 0 <= DigitValue(c) < base && (c != '0' ==> DigitValue(c) >= 1)
  {
  }

  lemma NumeralMeans(t: string, value: nat, base: nat, upper: bool)
    requires 2 <= base <= 16 && Numeral(t, value, base, upper) && value < Power(base, BUFFER_SIZE)
    ensures 0 < |t| <= BUFFER_SIZE && (|t| == 1 || t[0] != '0') && Number(Reversed(t), base) == value
    ensures forall k :: 0 <= k < |t| ==> IsFigure(t[k], base, upper)
  {
    hide Power, Number, Reversed, IsFigure;
    DivModUnique(value, Power(base, BUFFER_SIZE), 0, value);
  }

  /** The digits from position j on stand for less than the power of the base they are below. */
  lemma TailBelow(t: string, j: nat, base: nat, upper: bool)
    requires 2 <= base <= 16 && j <= |t| && forall k :: 0 <= k < |t| ==> IsFigure(t[k], base, upper)
    ensures Number(Reversed(t[j..]), base) < Power(base, |t| - j)
  {
    hide IsFigure, Power, Number;
    NumberBound(Reversed(t[j..]), base, upper);
  }

  lemma LeadingCounts(t: string, base: nat, upper: bool)
    requires 2 <= base <= 16 && t != "" && t[0] != '0' && forall k :: 0 <= k < |t| ==> IsFigure(t[k], base, upper)
    ensures Number(Reversed(t), base) >= Power(base, |t| - 1)
  {
    hide IsFigure, Power, Number, DigitValue;
    var ds, n := Reversed(t), |t| - 1;
    NumberLast(ds, base);
    NumberBound(ds[..n], base, upper);
    FigureValue(t[0], base, upper);
    Scaled(DigitValue(t[0]), 1, Power(base, n));
  }

  /** A numeral has at most k digits exactly when its value is below the k-th power of the base. */
  lemma DigitCount(t: string, value: nat, base: nat, upper: bool, k: nat)
    requires 2 <= base <= 16 && Numeral(t, value, base, upper) && 0 < value < Power(base, BUFFER_SIZE)
    ensures |t| <= k <==> value < Power(base, k)
  {
    hide *;
    NumeralMeans(t, value, base, upper);
    WholeTail(t);
    TailBelow(t, 0, base, upper);
    if t[0] == '0' {
      ZeroNumeral(t, base);
    } else {
      LeadingCounts(t, base, upper);
    }
    if |t| <= k {
      PowerGrows(base, |t|, k);
    } else {
      PowerGrows(base, k, |t| - 1);
    }
  }

  lemma WholeTail(t: string)
    ensures t[0..] == t
  {
  }

  lemma ZeroNumeral(t: string, base: nat)
    requires |t| == 1 && t[0] == '0'
    ensures Number(Reversed(t), base) == 0
  {
    assert Reversed(t)[1..] == [];
  }

  // ---- What a prefix costs ----

  /** The first places of a zero-padded numeral: with the zeros gone, each digit less makes a smaller number. */
  lemma WithoutFirst(t: string, zeros: nat, n: nat, value: nat, base: nat, upper: bool)
    requires 2 <= base <= 16 && Numeral(t, value, base, upper) && 0 < value < Power(base, BUFFER_SIZE) && n <= zeros + |t|
    ensures Number(Reversed((Fill('0', zeros) + t)[n..]), base) == value <==> n <= zeros
  {
    hide *;
    NumeralMeans(t, value, base, upper);
    if n <= zeros {
      DropZeros(t, zeros, n);
      ReversedBoth(Fill('0', zeros - n), t);
      ReversedFill('0', zeros - n);
      ZerosDenote(Reversed(t), zeros - n, base);
    } else {
      DropDigits(t, zeros, n);
      TailBelow(t, n - zeros, base, upper);
      DigitCount(t, value, base, upper, |t| - (n - zeros));
    }
  }

  lemma DropZeros(t: string, zeros: nat, n: nat)
    requires n <= zeros
    ensures (Fill('0', zeros) + t)[n..] == Fill('0', zeros - n) + t
  {
  }

  lemma DropDigits(t: string, zeros: nat, n: nat)
    requires zeros <= n <= zeros + |t|
    ensures (Fill('0', zeros) + t)[n..] == t[n - zeros..]
  {
  }

  /**
   A value whose digits leave no place for a prefix in a field: they fill it, or, in a zero-padded field, there
   are fewer zeros before them than the prefix takes the place of.
   */
  predicate Crowded(value: nat, base: nat, places: nat, zeros: bool) {
    && 0 < places <= BUFFER_SIZE && value < Power(base, places)
    && Power(base, places - (if zeros && base == 16 && places > 1 then 2 else 1)) <= value
  }

  lemma CrowdedMeans(value: nat, base: nat, places: nat, zeros: bool)
    ensures var cut := if base == 16 && places > 1 then 2 else 1;
      Crowded(value, base, places, zeros)
      <==> 0 < places <= BUFFER_SIZE && value < Power(base, places) && Power(base, places - (if zeros then cut else 1)) <= value
  {
    hide Power;
  }

  /**
   The digits behind the prefix of a number stand for its value, unless it would fill its field without the
   prefix: then the prefix takes the place of digits.
   */
  lemma PrefixCost(t: string, value: nat, base: nat, upper: bool, zeroPad: bool, left: bool, places: nat)
    requires 2 <= base <= 16 && Numeral(t, value, base, upper) && 0 < value < Power(base, BUFFER_SIZE)
    ensures var digits := Zeroed(t, zeroPad, left, 0, places);
      Number(Reversed(digits[Taken(digits, base, false, 0, places)..]), base) == value
      <==> !Crowded(value, base, places, zeroPad && !left)
  {
    hide *;
    CrowdedMeans(value, base, places, zeroPad && !left);
    var digits, cut := Zeroed(t, zeroPad, left, 0, places), if base == 16 && places > 1 then 2 else 1;
    var n, zeros := Taken(digits, base, false, 0, places), |digits| - |t|;
    NumeralMeans(t, value, base, upper);
    ZeroedIs(t, zeroPad, left, places);
    TakenIs(digits, base, places);
    WithoutFirst(t, zeros, n, value, base, upper);
    if 0 < places {
      DigitCount(t, value, base, upper, places);
      DigitCount(t, value, base, upper, places - 1);
      DigitCount(t, value, base, upper, places - cut);
    }
  }

  lemma ZeroedIs(t: string, zeroPad: bool, left: bool, places: nat)
    requires 0 < |t| <= BUFFER_SIZE
    ensures var digits := Zeroed(t, zeroPad, left, 0, places);
      var n := if zeroPad && !left then (if places < BUFFER_SIZE then places else BUFFER_SIZE) else 0;
      |digits| == (if n > |t| then n else |t|) && digits == Fill('0', |digits| - |t|) + t
  {
    assert Fill('0', 0) == "";
  }

  lemma TakenIs(digits: string, base: nat, places: nat)
    requires digits != ""
    ensures Taken(digits, base, false, 0, places) == if |digits| == places then (if base == 16 && places > 1 then 2 else 1) else 0
  {
  }

  lemma LaidMeans(text: string, value: nat, base: nat, upper: bool, zeroPad: bool, left: bool, width: nat) returns (t: string)
    requires 2 <= base <= 16 && value > 0 && Laid(text, value, "", base, upper, true, false, zeroPad, left, 0, width)
    ensures Numeral(t, value, base, upper)
    ensures var digits := Zeroed(t, zeroPad, left, 0, width);
      Framed(text, digits[Taken(digits, base, false, 0, width)..], PrefixOf(base, upper), "", zeroPad, left, width)
  {
    hide Numeral, Framed, Zeroed, Taken, PrefixOf;
    t :| LaidOut(text, t, value, "", base, upper, true, false, zeroPad, left, 0, width);
  }

  // ---- Decimals ----

  /** A decimal numeral below a word leaves room for a sign. */
  lemma ShortDecimal(t: string, value: nat)
    requires Numeral(t, value, 10, false) && value < 0x1_0000_0000
    ensures |t| < BUFFER_SIZE && Number(Reversed(t), 10) == value && t != "" && Decimal(t) && Decimal(Reversed(t))
  {
    hide *;
    TenFits();
    NumeralMeans(t, value, 10, false);
    FiguresDecimals(t);
    if t[0] != '0' { LeadingCounts(t, 10, false); }
  }

  lemma TenFits()
    ensures 1 < BUFFER_SIZE && WORD == 0x1_0000_0000 && WORD <= Power(10, BUFFER_SIZE - 1) && WORD <= Power(10, BUFFER_SIZE)
  {
    var p2, p4, p6, p8 := Power(10, 2), Power(10, 4), Power(10, 6), Power(10, 8);
    assert p2 == 100 && p4 == 100 * p2 && p6 == 100 * p4 && p8 == 100 * p6 && Power(10, 10) == 100 * p8;
    PowerGrows(10, 10, BUFFER_SIZE - 1);
    PowerGrows(10, 10, BUFFER_SIZE);
  }

  lemma FiguresDecimals(t: string)
    requires forall k :: 0 <= k < |t| ==> IsFigure(t[k], 10, false)
    ensures Decimal(t) && Decimal(Reversed(t))
  {
  }

  lemma DecimalBack(text: string, value: nat, sign: string)
    requires value < 0x1_0000_0000 && (sign == "" || sign == "-")
    requires Laid(text, value, sign, 10, false, false, false, false, false, 0, 0)
    ensures |sign| < |text| && (text[0] == '-' <==> sign == "-") && AtoiFrom(text, |sign|, 0) == (value, |text|)
  {
    hide *;
    var t := PlainLaid(text, value, sign);
    TenFits();
    ShortDecimal(t, value);
    Twice(t);
    SignedText(sign, t);
    AtoiWhole(sign + t, |sign|, Reversed(t));
  }

  lemma SignedText(sign: string, t: string)
    requires t != "" && Decimal(t) && (sign == "" || sign == "-")
    ensures (sign + t)[|sign|..|sign| + |t|] == t && ((sign + t)[0] == '-' <==> sign == "-") && |Reversed(t)| == |t|
  {
  }

  lemma PlainLaid(text: string, value: nat, sign: string) returns (t: string)
    requires value < 0x1_0000_0000 && (sign == "" || sign == "-")
    requires Laid(text, value, sign, 10, false, false, false, false, false, 0, 0)
    ensures Numeral(t, value, 10, false) && text == sign + t
  {
    hide Numeral;
    t :| LaidOut(text, t, value, sign, 10, false, false, false, false, false, 0, 0);
    ShortDecimal(t, value);
    assert Zeroed(t, false, false, 0, 0) == t && "" + t == t;
  }
}
