/**
 Integer and text conversions of the kernel's printf: digits are produced last first into a small
 buffer, padded, signed, and written out in reverse to a bounded output.
 */
module Printf {
  import opened Arith

  const BUFFER_SIZE: nat := 32

  const WORD: nat := 0x1_0000_0000

  /** The flags of a conversion. */
  datatype Flags = Flags(zeroPad: bool, left: bool, plus: bool, space: bool, hash: bool, upper: bool, precision: bool)

  function Min(a: nat, b: nat): nat { if a < b then a else b }

  function Fill(c: char, n: int): (s: string)
    ensures |s| == if n > 0 then n else 0
    ensures forall i :: 0 <= i < |s| ==> s[i] == c
  {
    if n > 0 then seq(n, _ => c) else []
  }

  function Reversed(s: string): (r: string)
    ensures |r| == |s| && forall i :: 0 <= i < |s| ==> r[i] == s[|s| - 1 - i]
  {
    seq(|s|, i requires 0 <= i < |s| => s[|s| - 1 - i])
  }

  lemma ReversedMore(s: string, n: nat)
    requires n < |s|
    ensures Reversed(s[n..]) == Reversed(s[n + 1..]) + [s[n]]
  {
  }

  // ---- The bounded output ----

  /** Writes to a buffer of at most maxlen characters; stream is all that was put. */
  class Output {
    const buffer: array<char>
    const maxlen: nat
    var idx: nat
    ghost var stream: string

    ghost predicate Valid()
      reads this, buffer
    {
      && maxlen <= buffer.Length && |stream| == idx
      && forall k :: 0 <= k < Min(idx, maxlen) ==> buffer[k] == stream[k]
    }

    /** Nothing past the bound was written. */
    ghost predicate Beyond(before: string)
      reads buffer
    {
      |before| == buffer.Length && forall k :: maxlen <= k < buffer.Length ==> buffer[k] == before[k]
    }

    constructor (buffer: array<char>, maxlen: nat)
      requires maxlen <= buffer.Length
      ensures Valid() && this.buffer == buffer && this.maxlen == maxlen && stream == []
    {
      this.buffer, this.maxlen, idx, stream := buffer, maxlen, 0, [];
    }

    method Put(c: char)
      requires Valid()
      modifies this, buffer
      ensures Valid() && stream == old(stream) + [c] && Beyond(old(buffer[..]))
    {
      if idx < maxlen {
        buffer[idx] := c;
      }
      idx := idx + 1;
      stream := stream + [c];
    }

    /** Puts c until n characters were put since start. */
    method PutUntil(c: char, start: nat, n: nat)
      requires Valid() && start <= idx
      modifies this, buffer
      ensures Valid() && stream == old(stream) + Fill(c, n - (old(idx) - start)) && Beyond(old(buffer[..]))
    {
      ghost var before := stream;
      while idx - start < n
        invariant Valid() && start <= idx && |before| <= idx && Beyond(old(buffer[..]))
        invariant stream == before + Fill(c, idx - |before|)
        invariant idx - |before| == 0 || idx - start <= n
      {
        Put(c);
        assert Fill(c, idx - |before|) == Fill(c, idx - 1 - |before|) + [c];
      }
    }

    /** The end: what fits is in the buffer, closed by a zero; the result counts everything. */
    method Terminate() returns (total: nat)
      requires Valid()
      modifies buffer
      ensures total == |stream| && unchanged(this)
      ensures maxlen > 0 ==>
        var n := Min(|stream|, maxlen - 1);
        buffer[..n] == stream[..n] && buffer[n] == '\0'
      ensures maxlen == 0 ==> buffer[..] == old(buffer[..])
      ensures Beyond(old(buffer[..]))
    {
      if idx < maxlen {
        buffer[idx] := '\0';
      } else if maxlen > 0 {
        buffer[maxlen - 1] := '\0';
      }
      return idx;
    }

    method PutReversed(buf: array<char>, len: nat)
      requires Valid() && buf != buffer && len <= buf.Length
      modifies this, buffer
      ensures Valid() && stream == old(stream) + Reversed(buf[..len]) && Beyond(old(buffer[..]))
      ensures buf[..] == old(buf[..])
    {
      ghost var before, digits := stream, buf[..len];
      var n := len;
      while n > 0
        invariant n <= len && Valid() && |before| <= idx && buf[..] == old(buf[..]) && Beyond(old(buffer[..]))
        invariant stream == before + Reversed(digits[n..])
      {
        n := n - 1;
        Put(buf[n]);
        ReversedMore(digits, n);
      }
      assert digits[0..] == digits;
    }

    /** Writes the first len characters of buf, last first, padded with spaces to width. */
    method OutRev(buf: array<char>, len: nat, width: nat, flags: Flags)
      requires Valid() && buf != buffer && len <= buf.Length
      modifies this, buffer
      ensures Valid() && stream == old(stream) + Reverse(buf[..len], width, flags) && Beyond(old(buffer[..]))
      ensures buf[..] == old(buf[..])
    {
      var startIdx := idx;
      if !flags.left && !flags.zeroPad {
        PutUntil(' ', startIdx, width - Min(len, width));
      }
      PutReversed(buf, len);
      hide Reversed;
      if flags.left {
        PutUntil(' ', startIdx, width);
      }
    }
  }

  /** What is written for a reversed number. */
  function Reverse(digits: string, width: nat, flags: Flags): string {
    (if !flags.left && !flags.zeroPad then Fill(' ', width - |digits|) else [])
    + Reversed(digits)
    + (if flags.left then Fill(' ', width - |digits|) else [])
  }

  // ---- Digits ----

  function DigitChar(d: nat, upper: bool): char
    requires d < 16
  {
    if d < 10 then '0' + d as char else (if upper then 'A' else 'a') + (d - 10) as char
  }

  /** The value of a digit in either case. */
  function DigitValue(c: char): int {
    if '0' <= c <= '9' then c as int - '0' as int
    else if 'a' <= c <= 'f' then c as int - 'a' as int + 10
    else if 'A' <= c <= 'F' then c as int - 'A' as int + 10
    else -1
  }

  lemma DigitBack(d: nat, upper: bool)
    requires d < 16
    ensures DigitValue(DigitChar(d, upper)) == d
  {
  }

  /** The digits of a value, last first, at most n of them and at least one. */
  function Digits(v: nat, base: nat, upper: bool, n: nat): string
    requires 2 <= base <= 16
    decreases n
  {
    if n == 0 then []
    else [DigitChar(Modulo(v, base), upper)] + (if Quotient(v, base) == 0 then [] else Digits(Quotient(v, base), base, upper, n - 1))
  }

  /** The number that digits written last first stand for. */
  function Number(ds: string, base: nat): int {
    if ds == [] then 0 else DigitValue(ds[0]) + base * Number(ds[1..], base)
  }

  function Power(base: nat, n: nat): nat { if n == 0 then 1 else base * Power(base, n - 1) }

  lemma {:induction false} PowerPositive(base: nat, n: nat)
    requires base > 0
    ensures Power(base, n) >= 1
  {
    if n > 0 { PowerPositive(base, n - 1); }
  }

  /** n digits hold a value up to base^n. */
  lemma {:induction false} DigitsDenote(v: nat, base: nat, upper: bool, n: nat)
    requires 2 <= base <= 16
    ensures Power(base, n) > 0 && Number(Digits(v, base, upper, n), base) == v % Power(base, n)
    ensures |Digits(v, base, upper, n)| <= n && (n > 0 ==> Digits(v, base, upper, n) != [])
    decreases n
  {
    hide *;
    if n == 0 {
      NoDigits(v, base, upper);
    } else {
      var q := Quotient(v, base);
      PowerPositive(base, n - 1);
      DigitsDenote(q, base, upper, n - 1);
      FirstDigit(v, base, upper, n);
      HighDigits(v, base, Power(base, n - 1));
    }
  }

  lemma NoDigits(v: nat, base: nat, upper: bool)
    requires 2 <= base <= 16
    ensures Digits(v, base, upper, 0) == [] && Number([], base) == 0 && Power(base, 0) == 1
  {
  }

  lemma FirstDigit(v: nat, base: nat, upper: bool, n: nat)
    requires 2 <= base <= 16 && n > 0
    ensures var rest := if Quotient(v, base) == 0 then [] else Digits(Quotient(v, base), base, upper, n - 1);
      Digits(v, base, upper, n) == [DigitChar(Modulo(v, base), upper)] + rest
      && Number(Digits(v, base, upper, n), base) == Modulo(v, base) + base * Number(rest, base)
      && Number([], base) == 0
    ensures Power(base, n - 1) > 0 && 0 % Power(base, n - 1) == 0 && Power(base, n) == base * Power(base, n - 1)
  {
    DigitBack(Modulo(v, base), upper);
    var rest := if Quotient(v, base) == 0 then [] else Digits(Quotient(v, base), base, upper, n - 1);
    assert Digits(v, base, upper, n)[1..] == rest;
    PowerPositive(base, n - 1);
    DivModUnique(0, Power(base, n - 1), 0, 0);
  }

  /** Reducing the high digits reduces the number. */
  lemma HighDigits(v: nat, base: nat, p: nat)
    requires base > 0 && p > 0
    ensures base * p > 0 && v % (base * p) == Modulo(v, base) + base * (Quotient(v, base) % p)
  {
    DivDiv(v, base, p);
    var low := Quotient(v, base) % p * base + Modulo(v, base);
    DivModUnique(v, base * p, Quotient(v, base) / p, low);
  }

  /** No zero comes first in a number that fits. */
  lemma {:induction false} TopFigure(v: nat, base: nat, upper: bool, n: nat)
    requires 2 <= base <= 16 && 0 < v < Power(base, n)
    ensures var ds := Digits(v, base, upper, n); ds != [] && ds[|ds| - 1] != '0'
    decreases n
  {
    hide *;
    NoDigits(v, base, upper);
    if n > 0 {
      var q := Quotient(v, base);
      FirstDigit(v, base, upper, n);
      PowerPositive(base, n - 1);
      QuotientBelow(v, base, Power(base, n - 1));
      if q > 0 {
        TopFigure(q, base, upper, n - 1);
      } else {
        OnlyDigit(v, base, upper);
      }
    }
  }

  lemma OnlyDigit(v: nat, base: nat, upper: bool)
    requires 2 <= base <= 16 && v > 0 && Quotient(v, base) == 0
    ensures DigitChar(Modulo(v, base), upper) != '0'
  {
    QuotientModulo(v, base);
  }

  lemma QuotientBelow(v: nat, base: nat, p: nat)
    requires base > 0 && p > 0
    ensures v < base * p <==> Quotient(v, base) < p
  {
    QuotientModulo(v, base);
    RowBound(Quotient(v, base), p, base, Modulo(v, base));
  }

  /** Leading zeros do not change a number. */
  lemma {:induction false} ZerosDenote(ds: string, n: int, base: nat)
    ensures Number(ds + Fill('0', n), base) == Number(ds, base)
  {
    if ds == [] {
      OnlyZeros(n, base);
    } else {
      assert (ds + Fill('0', n))[1..] == ds[1..] + Fill('0', n);
      ZerosDenote(ds[1..], n, base);
    }
  }

  lemma {:induction false} OnlyZeros(n: int, base: nat)
    ensures Number([] + Fill('0', n), base) == 0
  {
    assert [] + Fill('0', n) == Fill('0', n);
    if n > 0 {
      assert Fill('0', n)[1..] == Fill('0', n - 1);
      OnlyZeros(n - 1, base);
      assert [] + Fill('0', n - 1) == Fill('0', n - 1);
    }
  }

  // ---- A whole conversion ----

  /** Zeros up to n digits, as far as the buffer goes. */
  function Zeros(ds: string, n: nat): string { ds + Fill('0', Min(n, BUFFER_SIZE) - |ds|) }

  /** A sign takes one place of a zero-padded field. */
  function FieldWidth(width: nat, negative: bool, flags: Flags): nat {
    if !flags.left && width > 0 && flags.zeroPad && (negative || flags.plus || flags.space) then width - 1 else width
  }

  function PadDigits(ds: string, prec: nat, width: nat, flags: Flags): string {
    if flags.left then ds
    else if flags.zeroPad then Zeros(Zeros(ds, prec), width)
    else Zeros(ds, prec)
  }

  function Room(ds: string, c: char): string { if |ds| < BUFFER_SIZE then ds + [c] else ds }

  /** The prefix of a hexadecimal, octal or binary number; it may take the place of padding. */
  function WithHash(ds: string, base: nat, prec: nat, width: nat, flags: Flags): string {
    if !flags.hash then ds
    else
      var cut := if !flags.precision && ds != [] && (|ds| == prec || |ds| == width)
                 then (if |ds| > 1 && base == 16 then 2 else 1) else 0;
      var d := ds[..|ds| - cut];
      var e := if base == 16 then Room(d, if flags.upper then 'X' else 'x') else if base == 2 then Room(d, 'b') else d;
      Room(e, '0')
  }

  function WithSign(ds: string, negative: bool, flags: Flags): string {
    if negative then Room(ds, '-') else if flags.plus then Room(ds, '+') else if flags.space then Room(ds, ' ') else ds
  }

  /** What a conversion of an integer writes. */
  function Ntoa(value: nat, negative: bool, base: nat, prec: nat, width: nat, flags: Flags): string
    requires 2 <= base <= 16
  {
    var f := if value == 0 then flags.(hash := false) else flags;
    var ds := if !f.precision || value != 0 then Digits(value, base, f.upper, BUFFER_SIZE) else [];
    var w := FieldWidth(width, negative, f);
    Reverse(WithSign(WithHash(PadDigits(ds, prec, w, f), base, prec, w, f), negative, f), w, f)
  }

  /** The digits of a value in a buffer, last first. */
  method PutDigits(buf: array<char>, value: nat, base: nat, upper: bool) returns (len: nat)
    requires buf.Length == BUFFER_SIZE && 2 <= base <= 16
    modifies buf
    ensures len <= BUFFER_SIZE && buf[..len] == Digits(value, base, upper, BUFFER_SIZE)
  {
    hide DigitChar, Digits, Rest, Quotient, Modulo;
    var v: nat := value;
    RestStep(v, base, upper, BUFFER_SIZE);
    buf[0] := DigitChar(Modulo(v, base), upper);
    len := 1;
    v := Quotient(v, base);
    while v != 0 && len < BUFFER_SIZE
      invariant 1 <= len <= BUFFER_SIZE
      invariant Digits(value, base, upper, BUFFER_SIZE) == buf[..len] + Rest(v, base, upper, BUFFER_SIZE - len)
      decreases v
    {
      RestStep(v, base, upper, BUFFER_SIZE - len);
      Smaller(v, base);
      ghost var before := buf[..len];
      var c := DigitChar(Modulo(v, base), upper);
      buf[len] := c;
      assert buf[..len + 1] == before + [c];
      v := Quotient(v, base);
      Attach(before, c, Rest(v, base, upper, BUFFER_SIZE - len - 1));
      len := len + 1;
    }
    NoRest(v, base, upper, BUFFER_SIZE - len);
  }

  lemma Attach(a: string, c: char, r: string)
    ensures a + ([c] + r) == a + [c] + r
  {
  }

  /** The digits after the ones written. */
  function Rest(v: nat, base: nat, upper: bool, n: nat): string
    requires 2 <= base <= 16
  {
    if v == 0 then [] else Digits(v, base, upper, n)
  }

  lemma RestStep(v: nat, base: nat, upper: bool, n: nat)
    requires 2 <= base <= 16 && n > 0
    ensures Digits(v, base, upper, n) == [DigitChar(Modulo(v, base), upper)] + Rest(Quotient(v, base), base, upper, n - 1)
    ensures v != 0 ==> Rest(v, base, upper, n) == [DigitChar(Modulo(v, base), upper)] + Rest(Quotient(v, base), base, upper, n - 1)
  {
    hide DigitChar;
  }

  lemma NoRest(v: nat, base: nat, upper: bool, n: nat)
    requires 2 <= base <= 16 && (v == 0 || n == 0)
    ensures Rest(v, base, upper, n) == []
  {
  }

  lemma Smaller(v: nat, base: nat)
    requires v > 0 && base >= 2
    ensures Quotient(v, base) < v
  {
    QuotientModulo(v, base);
    Scaled(base, 2, Quotient(v, base));
  }

  /** Zeros up to n digits, as far as the buffer goes. */
  method PutZeros(buf: array<char>, len: nat, n: nat) returns (len': nat)
    requires buf.Length == BUFFER_SIZE && len <= BUFFER_SIZE
    modifies buf
    ensures len' <= BUFFER_SIZE && buf[..len'] == Zeros(old(buf[..len]), n)
  {
    len' := len;
    ghost var before := buf[..len];
    while len' < n && len' < BUFFER_SIZE
      invariant len <= len' <= BUFFER_SIZE && (len' == len || len' <= n)
      invariant buf[..len'] == before + Fill('0', len' - len)
    {
      buf[len'] := '0';
      assert Fill('0', len' + 1 - len) == Fill('0', len' - len) + ['0'];
      assert buf[..len' + 1] == buf[..len'] + ['0'];
      len' := len' + 1;
    }
  }

  method PutRoom(buf: array<char>, len: nat, c: char) returns (len': nat)
    requires buf.Length == BUFFER_SIZE && len <= BUFFER_SIZE
    modifies buf
    ensures len' <= BUFFER_SIZE && buf[..len'] == Room(old(buf[..len]), c)
  {
    len' := len;
    if len' < BUFFER_SIZE {
      buf[len'] := c;
      len' := len' + 1;
      assert buf[..len'] == old(buf[..len]) + [c];
    }
  }

  method PutHash(buf: array<char>, digits: nat, base: nat, prec: nat, width: nat, flags: Flags) returns (len: nat)
    requires buf.Length == BUFFER_SIZE && digits <= BUFFER_SIZE
    modifies buf
    ensures len <= BUFFER_SIZE && buf[..len] == WithHash(old(buf[..digits]), base, prec, width, flags)
  {
    hide Room;
    len := digits;
    if flags.hash {
      ghost var padded := buf[..len];
      if !flags.precision && len > 0 && (len == prec || len == width) {
        len := len - 1;
        if len > 0 && base == 16 {
          len := len - 1;
        }
      }
      assert buf[..len] == padded[..len];
      if base == 16 && !flags.upper {
        len := PutRoom(buf, len, 'x');
      } else if base == 16 && flags.upper {
        len := PutRoom(buf, len, 'X');
      } else if base == 2 {
        len := PutRoom(buf, len, 'b');
      }
      len := PutRoom(buf, len, '0');
    }
  }

  /** Pads, prefixes and signs the digits in the buffer, and writes them out. */
  method NtoaFormat(out: Output, buf: array<char>, digits: nat, negative: bool, base: nat, prec: nat, fieldWidth: nat, flags: Flags)
    requires out.Valid() && buf != out.buffer && buf.Length == BUFFER_SIZE && digits <= BUFFER_SIZE
    modifies out, out.buffer, buf
    ensures out.Valid() && out.Beyond(old(out.buffer[..]))
    ensures var w := FieldWidth(fieldWidth, negative, flags);
      out.stream == old(out.stream)
        + Reverse(WithSign(WithHash(PadDigits(old(buf[..digits]), prec, w, flags), base, prec, w, flags), negative, flags), w, flags)
  {
    hide Reverse, Zeros, Room, WithHash;
    var len, width := digits, fieldWidth;
    if !flags.left {
      if width > 0 && flags.zeroPad && (negative || flags.plus || flags.space) {
        width := width - 1;
      }
      len := PutZeros(buf, len, prec);
      if flags.zeroPad {
        len := PutZeros(buf, len, width);
      }
    }
    assert buf[..len] == PadDigits(old(buf[..digits]), prec, width, flags);
    ghost var padded := buf[..len];
    len := PutHash(buf, len, base, prec, width, flags);
    assert buf[..len] == WithHash(padded, base, prec, width, flags);
    if negative {
      len := PutRoom(buf, len, '-');
    } else if flags.plus {
      len := PutRoom(buf, len, '+');
    } else if flags.space {
      len := PutRoom(buf, len, ' ');
    }
    out.OutRev(buf, len, width, flags);
  }

  method NtoaLong(out: Output, value: nat, negative: bool, base: nat, prec: nat, width: nat, flags: Flags)
    requires out.Valid() && 2 <= base <= 16
    modifies out, out.buffer
    ensures out.Valid() && out.stream == old(out.stream) + Ntoa(value, negative, base, prec, width, flags)
    ensures out.Beyond(old(out.buffer[..]))
  {
    var buf := new char[BUFFER_SIZE](_ => ' ');
    var len := 0;
    var f := if value == 0 then flags.(hash := false) else flags;
    if !f.precision || value != 0 {
      len := PutDigits(buf, value, base, f.upper);
    }
    NtoaFormat(out, buf, len, negative, base, prec, width, f);
  }

  // ---- Reading numbers back ----

  predicate IsDigit(c: char) { '0' <= c <= '9' }

  /** The number from position i on, in 32-bit arithmetic, and where it ends. */
  function AtoiFrom(s: string, i: nat, acc: nat): (nat, nat)
    requires i <= |s|
    decreases |s| - i
  {
    if i < |s| && IsDigit(s[i]) then AtoiFrom(s, i + 1, (acc * 10 + (s[i] as int - '0' as int)) % WORD) else (acc, i)
  }

  method Atoi(s: string, start: nat) returns (value: nat, pos: nat)
    requires start <= |s|
    ensures (value, pos) == AtoiFrom(s, start, 0)
  {
    value, pos := 0, start;
    while pos < |s| && IsDigit(s[pos])
      invariant start <= pos <= |s| && AtoiFrom(s, start, 0) == AtoiFrom(s, pos, value)
    {
      value := (value * 10 + (s[pos] as int - '0' as int)) % WORD;
      pos := pos + 1;
    }
  }

  ghost predicate Decimal(ds: string) { forall i :: 0 <= i < |ds| ==> IsDigit(ds[i]) }

  lemma {:induction false} DigitsDecimal(v: nat, upper: bool, n: nat)
    ensures Decimal(Digits(v, 10, upper, n))
  {
    if n > 0 && v / 10 != 0 { DigitsDecimal(v / 10, upper, n - 1); }
  }

  /** The most significant digit counts for its power. */
  lemma {:induction false} NumberLast(ds: string, base: nat)
    requires ds != []
    ensures var n := |ds| - 1; Number(ds, base) == Number(ds[..n], base) + DigitValue(ds[n]) * Power(base, n)
  {
    var n := |ds| - 1;
    hide DigitValue;
    if n > 0 {
      NumberLast(ds[1..], base);
      assert ds[1..][..n - 1] == ds[..n][1..];
      Distribute(base, Number(ds[..n][1..], base), DigitValue(ds[n]), Power(base, n - 1));
    } else {
      assert ds[..0] == [] && ds[1..] == [] && Power(base, 0) == 1;
    }
  }

  lemma Distribute(b: int, a: int, d: int, p: int)
    ensures b * (a + d * p) == b * a + d * (b * p)
  {
    assert b * (d * p) == d * (b * p);
  }

  lemma Horner(acc: nat, d: nat, p: nat, q: nat, m: int)
    requires p >= 1 && q == 10 * p
    ensures (acc * 10 + d) * p + m == acc * q + (m + d * p) && (acc * 10 + d) * p >= acc * 10 + d
  {
    assert (acc * 10 + d) * p == (acc * 10) * p + d * p;
    assert (acc * 10) * p == acc * (10 * p);
    Scaled(p, 1, acc * 10 + d);
  }

  lemma {:induction false} DecimalNumber(ds: string)
    requires Decimal(ds)
    ensures Number(ds, 10) >= 0
  {
    if ds != [] { DecimalNumber(ds[1..]); }
  }

  lemma ReversedRest(s: string, i: nat, ds: string)
    requires ds != [] && i + |ds| <= |s| && s[i..i + |ds|] == Reversed(ds)
    ensures var n := |ds| - 1; s[i + 1..i + 1 + n] == Reversed(ds[..n])
  {
    var n := |ds| - 1;
    forall k | 0 <= k < n ensures s[i + 1..i + 1 + n][k] == Reversed(ds[..n])[k] {
      assert s[i + 1 + k] == s[i..i + |ds|][k + 1];
    }
  }

  /** Reading digits written in reverse, followed by something that is no digit, gives their number. */
  lemma {:induction false} AtoiReads(s: string, i: nat, acc: nat, ds: string)
    requires Decimal(ds) && i + |ds| <= |s| && s[i..i + |ds|] == Reversed(ds)
    requires i + |ds| < |s| ==> !IsDigit(s[i + |ds|])
    requires acc * Power(10, |ds|) + Number(ds, 10) < WORD
    ensures AtoiFrom(s, i, acc) == (acc * Power(10, |ds|) + Number(ds, 10), i + |ds|)
    decreases |ds|
  {
    hide *;
    AtoiStep(s, i, acc, ds);
    if ds != [] {
      var n := |ds| - 1;
      DecimalParts(ds);
      AtoiReads(s, i + 1, acc * 10 + DigitValue(ds[n]), ds[..n]);
      AtoiDigit(s, i, acc);
    } else {
      AtoiEnds(s, i, acc);
    }
  }

  lemma AtoiEnds(s: string, i: nat, acc: nat)
    requires i <= |s| && (i < |s| ==> !IsDigit(s[i]))
    ensures AtoiFrom(s, i, acc) == (acc, i)
  {
  }

  lemma AtoiDigit(s: string, i: nat, acc: nat)
    requires i < |s| && IsDigit(s[i]) && 0 <= acc * 10 + DigitValue(s[i]) < WORD
    ensures AtoiFrom(s, i, acc) == AtoiFrom(s, i + 1, acc * 10 + DigitValue(s[i]))
  {
  }

  /** One digit read: the number to come is unchanged. */
  lemma AtoiStep(s: string, i: nat, acc: nat, ds: string)
    requires Decimal(ds) && i + |ds| <= |s| && s[i..i + |ds|] == Reversed(ds)
    requires acc * Power(10, |ds|) + Number(ds, 10) < WORD
    ensures ds == [] ==> acc * Power(10, |ds|) + Number(ds, 10) == acc
    ensures ds != [] ==>
      var n := |ds| - 1;
      var acc' := acc * 10 + DigitValue(ds[n]);
      && 0 <= acc' < WORD && s[i] == ds[n] && s[i + 1..i + 1 + n] == Reversed(ds[..n])
      && acc' * Power(10, n) + Number(ds[..n], 10) == acc * Power(10, |ds|) + Number(ds, 10)
  {
    hide Number, Power;
    if ds == [] {
      AtoiEmpty(acc, ds);
    } else {
      var n := |ds| - 1;
      assert s[i] == s[i..i + |ds|][0] == ds[n];
      assert DigitValue(ds[n]) >= 0;
      ReversedRest(s, i, ds);
      AtoiNumber(acc, ds);
    }
  }

  lemma AtoiNumber(acc: nat, ds: string)
    requires Decimal(ds) && ds != []
    ensures var n := |ds| - 1;
      var acc' := acc * 10 + DigitValue(ds[n]);
      && 0 <= acc' <= acc' * Power(10, n) + Number(ds[..n], 10)
      && acc' * Power(10, n) + Number(ds[..n], 10) == acc * Power(10, |ds|) + Number(ds, 10)
  {
    hide *;
    var n := |ds| - 1;
    DecimalParts(ds);
    PowerStep(10, n);
    NumberLast(ds, 10);
    DecimalNumber(ds[..n]);
    PowerPositive(10, n);
    Horner(acc, DigitValue(ds[n]), Power(10, n), Power(10, |ds|), Number(ds[..n], 10));
  }

  lemma DecimalParts(ds: string)
    requires Decimal(ds) && ds != []
    ensures Decimal(ds[..|ds| - 1]) && IsDigit(ds[|ds| - 1]) && DigitValue(ds[|ds| - 1]) >= 0
  {
  }

  lemma PowerStep(base: nat, n: nat)
    ensures Power(base, n + 1) == base * Power(base, n)
  {
  }

  lemma AtoiEmpty(acc: nat, ds: string)
    requires ds == []
    ensures acc * Power(10, |ds|) + Number(ds, 10) == acc
  {
  }

  // ---- What a printed number means ----

  /** The digits a value has; with a precision, 0 has none. */
  function Bare(value: nat, base: nat, flags: Flags): string
    requires 2 <= base <= 16
  {
    if flags.precision && value == 0 then [] else Digits(value, base, flags.upper, BUFFER_SIZE)
  }

  /** The digits of a conversion without prefix, zero padding included. */
  function Figures(value: nat, negative: bool, base: nat, prec: nat, width: nat, flags: Flags): string
    requires 2 <= base <= 16
  {
    PadDigits(Bare(value, base, flags), prec, FieldWidth(width, negative, flags), flags)
  }

  /** The sign that belongs before a number. */
  function Sign(negative: bool, flags: Flags): string {
    if negative then ['-'] else if flags.plus then ['+'] else if flags.space then [' '] else []
  }

  /** No prefix is written. */
  predicate Unprefixed(value: nat, flags: Flags) { flags.hash ==> value == 0 }

  /**
   A number without prefix is written as spaces, sign, digits and spaces, and the digits stand for the
   value when it fits the digit buffer. The sign is lost exactly when the digits fill the buffer.
   */
  lemma PrintedNumber(value: nat, negative: bool, base: nat, prec: nat, width: nat, flags: Flags)
    requires 2 <= base <= 16 && Unprefixed(value, flags)
    ensures var w, ds := FieldWidth(width, negative, flags), Figures(value, negative, base, prec, width, flags);
      var sign := if |ds| < BUFFER_SIZE then Sign(negative, flags) else [];
      var before := if !flags.left && !flags.zeroPad then w - (|ds| + |sign|) else 0;
      var after := if flags.left then w - (|ds| + |sign|) else 0;
      && Ntoa(value, negative, base, prec, width, flags) == Fill(' ', before) + sign + Reversed(ds) + Fill(' ', after)
      && |ds| <= BUFFER_SIZE && (value < Power(base, BUFFER_SIZE) ==> Number(ds, base) == value)
      && AllFigures(ds)
  {
    hide *;
    var w, ds := FieldWidth(width, negative, flags), Figures(value, negative, base, prec, width, flags);
    FiguresDenote(value, negative, base, prec, width, flags);
    PlainNtoa(value, negative, base, prec, width, flags);
    SignFirst(ds, negative, flags);
    ReverseParts(WithSign(ds, negative, flags), w, flags);
  }

  lemma PlainNtoa(value: nat, negative: bool, base: nat, prec: nat, width: nat, flags: Flags)
    requires 2 <= base <= 16 && Unprefixed(value, flags)
    ensures Ntoa(value, negative, base, prec, width, flags)
         == Reverse(WithSign(Figures(value, negative, base, prec, width, flags), negative, flags), FieldWidth(width, negative, flags), flags)
  {
    hide *;
    var f := if value == 0 then flags.(hash := false) else flags;
    var w, ds := FieldWidth(width, negative, f), Figures(value, negative, base, prec, width, f);
    FiguresIgnore(value, negative, base, prec, width, flags, f);
    NtoaIs(value, negative, base, prec, width, flags, f);
    ReverseIgnores(WithSign(ds, negative, flags), w, flags, f);
    SignIgnores(ds, negative, flags, f);
  }

  lemma NtoaIs(value: nat, negative: bool, base: nat, prec: nat, width: nat, flags: Flags, f: Flags)
    requires 2 <= base <= 16 && Unprefixed(value, flags) && f == if value == 0 then flags.(hash := false) else flags
    ensures Ntoa(value, negative, base, prec, width, flags)
         == Reverse(WithSign(Figures(value, negative, base, prec, width, f), negative, f), FieldWidth(width, negative, f), f)
    ensures f == flags.(hash := false)
  {
    hide Digits, Reverse, WithSign, PadDigits, FieldWidth;
  }

  lemma FiguresIgnore(value: nat, negative: bool, base: nat, prec: nat, width: nat, flags: Flags, f: Flags)
    requires 2 <= base <= 16 && f == if value == 0 then flags.(hash := false) else flags
    ensures Figures(value, negative, base, prec, width, f) == Figures(value, negative, base, prec, width, flags)
    ensures FieldWidth(width, negative, f) == FieldWidth(width, negative, flags)
  {
    hide Digits, Zeros;
  }

  lemma SignIgnores(ds: string, negative: bool, flags: Flags, f: Flags)
    requires f == flags.(hash := false)
    ensures WithSign(ds, negative, f) == WithSign(ds, negative, flags)
  {
    hide Room;
  }

  lemma ReverseIgnores(ds: string, w: nat, flags: Flags, f: Flags)
    requires f == flags.(hash := false)
    ensures Reverse(ds, w, f) == Reverse(ds, w, flags)
  {
    hide Fill, Reversed;
  }

  lemma ReverseParts(ds: string, width: nat, flags: Flags)
    ensures Reverse(ds, width, flags)
         == Fill(' ', if !flags.left && !flags.zeroPad then width - |ds| else 0) + Reversed(ds)
            + Fill(' ', if flags.left then width - |ds| else 0)
  {
  }

  ghost predicate AllFigures(ds: string) { forall i :: 0 <= i < |ds| ==> DigitValue(ds[i]) >= 0 }

  lemma FiguresDenote(value: nat, negative: bool, base: nat, prec: nat, width: nat, flags: Flags)
    requires 2 <= base <= 16
    ensures var ds := Figures(value, negative, base, prec, width, flags);
            |ds| <= BUFFER_SIZE && AllFigures(ds) && (value < Power(base, BUFFER_SIZE) ==> Number(ds, base) == value)
  {
    hide *;
    var d := Bare(value, base, flags);
    var w := FieldWidth(width, negative, flags);
    BareDenotes(value, base, flags);
    ZerosMean(d, prec, base);
    ZerosMean(Zeros(d, prec), w, base);
    FiguresAre(value, negative, base, prec, width, flags);
  }

  lemma FiguresAre(value: nat, negative: bool, base: nat, prec: nat, width: nat, flags: Flags)
    requires 2 <= base <= 16
    ensures var d, ds := Bare(value, base, flags), Figures(value, negative, base, prec, width, flags);
            ds == d || ds == Zeros(d, prec) || ds == Zeros(Zeros(d, prec), FieldWidth(width, negative, flags))
  {
    hide Bare, FieldWidth, Zeros;
  }

  lemma ZerosMean(ds: string, n: nat, base: nat)
    requires |ds| <= BUFFER_SIZE && AllFigures(ds)
    ensures |Zeros(ds, n)| <= BUFFER_SIZE && AllFigures(Zeros(ds, n)) && Number(Zeros(ds, n), base) == Number(ds, base)
  {
    ZerosDenote(ds, Min(n, BUFFER_SIZE) - |ds|, base);
    hide Number;
  }

  lemma BareDenotes(value: nat, base: nat, flags: Flags)
    requires 2 <= base <= 16
    ensures var d := Bare(value, base, flags);
            |d| <= BUFFER_SIZE && AllFigures(d) && (value < Power(base, BUFFER_SIZE) ==> Number(d, base) == value)
  {
    hide Digits, Power;
    DigitsDenote(value, base, flags.upper, BUFFER_SIZE);
    DigitsFigures(value, base, flags.upper, BUFFER_SIZE);
    if value < Power(base, BUFFER_SIZE) { DivModUnique(value, Power(base, BUFFER_SIZE), 0, value); }
  }

  lemma {:induction false} DigitsFigures(v: nat, base: nat, upper: bool, n: nat)
    requires 2 <= base <= 16
    ensures AllFigures(Digits(v, base, upper, n))
    decreases n
  {
    if n > 0 {
      DigitBack(Modulo(v, base), upper);
      if Quotient(v, base) != 0 { DigitsFigures(Quotient(v, base), base, upper, n - 1); }
    }
  }

  lemma SignFirst(ds: string, negative: bool, flags: Flags)
    requires |ds| <= BUFFER_SIZE
    ensures |WithSign(ds, negative, flags)| == |ds| + (if |ds| < BUFFER_SIZE then |Sign(negative, flags)| else 0)
    ensures Reversed(WithSign(ds, negative, flags))
         == (if |ds| < BUFFER_SIZE then Sign(negative, flags) else []) + Reversed(ds)
  {
    ReversedLast(ds, if negative then '-' else if flags.plus then '+' else ' ');
    hide Reversed;
    assert [] + Reversed(ds) == Reversed(ds);
  }

  lemma ReversedLast(ds: string, c: char)
    ensures Reversed(ds + [c]) == [c] + Reversed(ds)
  {
  }

  lemma {:induction false} PowerGrows(base: nat, m: nat, n: nat)
    requires base > 0 && m <= n
    ensures Power(base, m) <= Power(base, n)
  {
    PowerPositive(base, m);
    if m < n {
      PowerGrows(base, m, n - 1);
      PowerPositive(base, n - 1);
      Scaled(base, 1, Power(base, n - 1));
    }
  }

  lemma WordFits()
    ensures WORD <= Power(10, BUFFER_SIZE)
  {
    var p0, p2, p4, p6, p8 := Power(10, 0), Power(10, 2), Power(10, 4), Power(10, 6), Power(10, 8);
    assert p2 == 100 && p4 == 100 * p2 && p6 == 100 * p4 && p8 == 100 * p6 && Power(10, 10) == 100 * p8;
    PowerGrows(10, 10, BUFFER_SIZE);
  }

  lemma FiguresDecimal(value: nat, prec: nat, width: nat, flags: Flags)
    ensures Decimal(Figures(value, false, 10, prec, width, flags))
  {
    DigitsDecimal(value, flags.upper, BUFFER_SIZE);
    hide Digits;
  }

  /**
   Printing a 32-bit number in decimal and reading it back, past the spaces in front, gives the
   number again, whatever the padding and the precision.
   */
  lemma PrintThenRead(value: nat, prec: nat, width: nat, flags: Flags)
    requires value < WORD && Unprefixed(value, flags) && !flags.plus && !flags.space
    ensures var s, ds := Ntoa(value, false, 10, prec, width, flags), Figures(value, false, 10, prec, width, flags);
      var before := if !flags.left && !flags.zeroPad && width > |ds| then width - |ds| else 0;
      before + |ds| <= |s| && (forall i :: 0 <= i < before ==> s[i] == ' ')
      && AtoiFrom(s, before, 0) == (value, before + |ds|)
  {
    hide *;
    var s, ds := Ntoa(value, false, 10, prec, width, flags), Figures(value, false, 10, prec, width, flags);
    var before := if !flags.left && !flags.zeroPad && width > |ds| then width - |ds| else 0;
    var after := if flags.left && width > |ds| then width - |ds| else 0;
    DecimalForm(value, prec, width, flags);
    Middle(s, before, ds, after);
    AtoiWhole(s, before, ds);
  }

  lemma DecimalForm(value: nat, prec: nat, width: nat, flags: Flags)
    requires value < WORD && Unprefixed(value, flags) && !flags.plus && !flags.space
    ensures var ds := Figures(value, false, 10, prec, width, flags);
      var before := if !flags.left && !flags.zeroPad && width > |ds| then width - |ds| else 0;
      var after := if flags.left && width > |ds| then width - |ds| else 0;
      && Ntoa(value, false, 10, prec, width, flags) == Fill(' ', before) + Reversed(ds) + Fill(' ', after)
      && Decimal(ds) && Number(ds, 10) == value
  {
    hide Ntoa, Figures, Power, Number, AllFigures;
    assert FieldWidth(width, false, flags) == width && Sign(false, flags) == [];
    WordFits();
    PrintedNumber(value, false, 10, prec, width, flags);
    FiguresDecimal(value, prec, width, flags);
  }

  lemma Middle(s: string, before: nat, ds: string, after: nat)
    requires s == Fill(' ', before) + Reversed(ds) + Fill(' ', after)
    ensures before + |ds| <= |s| && s[before..before + |ds|] == Reversed(ds)
    ensures (forall i :: 0 <= i < before ==> s[i] == ' ') && (before + |ds| < |s| ==> !IsDigit(s[before + |ds|]))
  {
  }

  lemma AtoiWhole(s: string, i: nat, ds: string)
    requires Decimal(ds) && i + |ds| <= |s| && s[i..i + |ds|] == Reversed(ds)
    requires i + |ds| < |s| ==> !IsDigit(s[i + |ds|])
    requires 0 <= Number(ds, 10) < WORD
    ensures AtoiFrom(s, i, 0) == (Number(ds, 10), i + |ds|)
  {
    hide *;
    NoTimes(Power(10, |ds|), Number(ds, 10));
    AtoiReads(s, i, 0, ds);
  }

  lemma NoTimes(p: nat, n: int)
    ensures 0 * p + n == n
  {
  }

  /** The digits and the zeros before them leave room for a sign. */
  predicate RoomForSign(value: nat, negative: bool, base: nat, prec: nat, width: nat, flags: Flags)
    requires 2 <= base <= 16
  {
    && |Bare(value, base, flags)| < BUFFER_SIZE
    && (flags.left || (prec < BUFFER_SIZE && (flags.zeroPad ==> FieldWidth(width, negative, flags) < BUFFER_SIZE)))
  }

  lemma RoomIs(value: nat, negative: bool, base: nat, prec: nat, width: nat, flags: Flags)
    requires 2 <= base <= 16
    ensures |Figures(value, negative, base, prec, width, flags)| < BUFFER_SIZE <==> RoomForSign(value, negative, base, prec, width, flags)
  {
    hide Digits, FieldWidth;
    BareDenotes(value, base, flags);
  }

  /**
   Whatever the precision, width and flags: a minus or plus sign is written exactly when there are
   fewer than 32 digits and, unless left-aligned, the precision and a zero-padded field stay below 32.
   */
  lemma SignKept(value: nat, negative: bool, base: nat, prec: nat, width: nat, flags: Flags)
    requires 2 <= base <= 16 && Unprefixed(value, flags)
    ensures '-' in Ntoa(value, negative, base, prec, width, flags)
       <==> negative && RoomForSign(value, negative, base, prec, width, flags)
    ensures '+' in Ntoa(value, negative, base, prec, width, flags)
       <==> !negative && flags.plus && RoomForSign(value, negative, base, prec, width, flags)
  {
    hide *;
    var ds := Figures(value, negative, base, prec, width, flags);
    var w := FieldWidth(width, negative, flags);
    var sign := if |ds| < BUFFER_SIZE then Sign(negative, flags) else [];
    PrintedNumber(value, negative, base, prec, width, flags);
    RoomIs(value, negative, base, prec, width, flags);
    SignIs(negative, flags);
    NoSigns(ds, if !flags.left && !flags.zeroPad then w - (|ds| + |sign|) else 0);
    NoSigns(ds, if flags.left then w - (|ds| + |sign|) else 0);
  }

  lemma SignIs(negative: bool, flags: Flags)
    ensures '-' in Sign(negative, flags) <==> negative
    ensures '+' in Sign(negative, flags) <==> !negative && flags.plus
  {
  }

  lemma NoSigns(ds: string, n: int)
    requires AllFigures(ds)
    ensures '-' !in Reversed(ds) && '+' !in Reversed(ds) && '-' !in Fill(' ', n) && '+' !in Fill(' ', n)
  {
    forall c | c in Reversed(ds) ensures DigitValue(c) >= 0 {
      var i :| 0 <= i < |ds| && Reversed(ds)[i] == c;
      assert c == ds[|ds| - 1 - i];
    }
  }

  /** A negative number loses its sign in a zero-padded field of 33 places, and with a precision of 32. */
  lemma SignLost()
    ensures '-' !in Ntoa(5, true, 10, 0, 33, Flags(true, false, false, false, false, false, false))
    ensures '-' !in Ntoa(5, true, 10, 32, 0, Flags(false, false, false, false, false, false, true))
  {
    SignKept(5, true, 10, 0, 33, Flags(true, false, false, false, false, false, false));
    SignKept(5, true, 10, 32, 0, Flags(false, false, false, false, false, false, true));
    hide Ntoa, Digits;
  }

  // ---- Characters, text, and whole outputs ----

  function CharField(c: char, width: nat, flags: Flags): string {
    (if flags.left then [] else Fill(' ', width - 1)) + [c] + (if flags.left then Fill(' ', width - 1) else [])
  }

  /** The part of a text that a precision lets through. */
  function Cut(text: string, prec: nat, flags: Flags): string {
    if flags.precision && prec < |text| then text[..prec] else text
  }

  function TextField(text: string, prec: nat, width: nat, flags: Flags): string {
    var t := Cut(text, prec, flags);
    (if flags.left then [] else Fill(' ', width - |t|)) + t + (if flags.left then Fill(' ', width - |t|) else [])
  }

  method PutChar(out: Output, c: char, width: nat, flags: Flags)
    requires out.Valid()
    modifies out, out.buffer
    ensures out.Valid() && out.stream == old(out.stream) + CharField(c, width, flags) && out.Beyond(old(out.buffer[..]))
  {
    var start := out.idx;
    if !flags.left && width > 1 {
      out.PutUntil(' ', start, width - 1);
    }
    out.Put(c);
    if flags.left {
      out.PutUntil(' ', start, width);
    }
  }

  lemma CutLength(text: string, prec: nat, flags: Flags)
    ensures |Cut(text, prec, flags)| == if flags.precision && prec < |text| then prec else |text|
  {
  }

  /** The characters of the text, up to the precision. */
  method PutCut(out: Output, text: string, prec: nat, flags: Flags)
    requires out.Valid()
    modifies out, out.buffer
    ensures out.Valid() && out.stream == old(out.stream) + Cut(text, prec, flags) && out.Beyond(old(out.buffer[..]))
    ensures old(out.idx) <= out.idx
  {
    var p := 0;
    while p < |text| && (!flags.precision || p < prec)
      invariant p <= |Cut(text, prec, flags)| && out.Valid() && old(out.idx) <= out.idx
      invariant out.stream == old(out.stream) + text[..p] && out.Beyond(old(out.buffer[..]))
    {
      out.Put(text[p]);
      p := p + 1;
    }
    assert text[..p] == Cut(text, prec, flags);
  }

  method PutText(out: Output, text: string, prec: nat, width: nat, flags: Flags)
    requires out.Valid()
    modifies out, out.buffer
    ensures out.Valid() && out.stream == old(out.stream) + TextField(text, prec, width, flags) && out.Beyond(old(out.buffer[..]))
  {
    CutLength(text, prec, flags);
    var start := out.idx;
    var l := |text|;
    if flags.precision && prec < l {
      l := prec;
    }
    if !flags.left && l < width {
      out.PutUntil(' ', start, width - l);
    }
    hide Fill, Cut;
    PutCut(out, text, prec, flags);
    if flags.left {
      out.PutUntil(' ', start, width);
    }
  }
}
