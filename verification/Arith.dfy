/** Division facts for variable divisors, and powers of two. */
module Arith {

  lemma MulMonotone(d: int, a: int)
    requires a > 0
    ensures d >= 1 ==> d * a >= a
    ensures d <= -1 ==> d * a <= -a
  {
  }

  lemma DivModUnique(x: int, a: int, q: int, r: int)
    requires a > 0 && x == q * a + r && 0 <= r < a
    ensures x / a == q && x % a == r
  {
    var q', r' := x / a, x % a;
    assert x == q' * a + r';
    assert (q - q') * a == r' - r;
    MulMonotone(q - q', a);
  }

  lemma MulMod(q: int, a: int)
    requires a > 0
    ensures (q * a) % a == 0 && (q * a) / a == q
  {
    DivModUnique(q * a, a, q, 0);
  }

  /** Sums and differences of multiples are multiples. */
  lemma ModSum(x: int, y: int, a: int)
    requires a > 0 && x % a == 0 && y % a == 0
    ensures (x + y) % a == 0 && (x - y) % a == 0
  {
    var p, q := x / a, y / a;
    assert x == p * a && y == q * a;
    assert x + y == (p + q) * a && x - y == (p - q) * a;
    MulMod(p + q, a);
    MulMod(p - q, a);
  }

  /** A multiple of a multiple. */
  lemma ModTransitive(x: int, b: int, a: int)
    requires a > 0 && b > 0 && x % b == 0 && b % a == 0
    ensures x % a == 0
  {
    var p, q := x / b, b / a;
    assert x == p * b && b == q * a;
    assert x == (p * q) * a;
    MulMod(p * q, a);
  }

  function Pow2(n: nat): (r: nat)
    ensures r >= 1
  {
    if n == 0 then 1 else 2 * Pow2(n - 1)
  }

  lemma {:induction false} Pow2Add(a: nat, b: nat)
    ensures Pow2(a + b) == Pow2(a) * Pow2(b)
  {
    if a > 0 {
      Pow2Add(a - 1, b);
      assert Pow2(a + b) == 2 * (Pow2(a - 1) * Pow2(b)) == (2 * Pow2(a - 1)) * Pow2(b);
    }
  }

  /** The multiple of a at or below x. */
  function AlignDown(x: nat, a: nat): (r: nat)
    requires a > 0
    ensures r <= x < r + a
  {
    x - x % a
  }

  /** Position r of row i of n rows of a. */
  lemma RowBound(i: nat, n: nat, a: nat, r: nat)
    requires r < a
    ensures i < n <==> i * a + r < n * a
  {
    if i < n { assert (i + 1) * a <= n * a; } else { assert i * a >= n * a; }
  }

  lemma Remainder(x: nat, a: nat)
    requires a > 0
    ensures x - a * (x / a) == x % a && x - x / a * a == x % a
  {
  }

  /** Scaling both sides of a remainder. */
  lemma ModScale(x: nat, a: nat, b: nat)
    requires a > 0 && b > 0
    ensures b * a > 0 && (x * a) % (b * a) == (x % b) * a
  {
    var q, r := x / b, x % b;
    assert x == q * b + r;
    assert x * a == q * (b * a) + r * a by { assert (q * b + r) * a == q * b * a + r * a; }
    assert r * a < b * a;
    assert b * a > 0;
    DivModUnique(x * a, b * a, q, r * a);
  }

  lemma DivScale(x: nat, a: nat, b: nat)
    requires a > 0 && b > 0
    ensures b * a > 0 && (x * a) / (b * a) == x / b
  {
    var q, r := x / b, x % b;
    assert x == q * b + r;
    assert x * a == q * (b * a) + r * a by { assert (q * b + r) * a == q * b * a + r * a; }
    assert r * a < b * a;
    DivModUnique(x * a, b * a, q, r * a);
  }

  /** Positions compare row first. */
  lemma RowCompare(k: nat, q: nat, j: nat, r: nat, a: nat)
    requires j < a && r < a
    ensures k * a + j < q * a + r <==> k < q || (k == q && j < r)
  {
    if k < q { assert (k + 1) * a <= q * a; }
    if k > q { assert k * a >= (q + 1) * a; }
  }

  /** Dividing twice, with the remainders put together. */
  lemma DivDiv(id: nat, a: nat, b: nat)
    requires a > 0 && b > 0
    ensures a * b > 0 && id / (a * b) == id / a / b
    ensures id == (id / a / b) * (a * b) + ((id / a % b) * a + id % a)
    ensures (id / a % b) * a + id % a < a * b
  {
    DivParts(id, a, id / a, id % a, b, id / a / b, id / a % b);
  }

  lemma DivParts(id: nat, a: nat, q: nat, r: nat, b: nat, s: nat, t: nat)
    requires a > 0 && b > 0 && id == q * a + r && q == s * b + t && r < a && t < b
    ensures a * b > 0 && id / (a * b) == s && id == s * (a * b) + (t * a + r) && t * a + r < a * b
  {
    RowBound(t, b, a, r);
    Flatten(s, b, t, a);
    DivModUnique(id, a * b, s, t * a + r);
  }

  lemma Flatten(s: nat, b: nat, t: nat, a: nat)
    ensures (s * b + t) * a == s * (a * b) + t * a && b * a == a * b
  {
    assert (s * b + t) * a == (s * b) * a + t * a;
    assert (s * b) * a == s * (b * a);
  }

  function Quotient(x: nat, a: nat): nat
    requires a > 0
  {
    x / a
  }

  /** Bitwise or. */
  function Or(a: nat, b: nat): nat
    decreases a + b
  {
    if a == 0 then b
    else if b == 0 then a
    else 2 * Or(a / 2, b / 2) + (if a % 2 == 1 || b % 2 == 1 then 1 else 0)
  }

  /** Or-ing a value into the free low bits of another adds it. */
  lemma {:induction false} OrDisjoint(a: nat, b: nat, k: nat)
    requires b < Pow2(k)
    ensures Or(a * Pow2(k), b) == a * Pow2(k) + b
  {
    hide *;
    OrZero(a * Pow2(k), b);
    if a == 0 {
      assert a * Pow2(k) == 0;
    } else if b > 0 {
      if k == 0 {
        Pow2Zero();
      } else {
        Pow2Next(k - 1);
        OrDisjoint(a, b / 2, k - 1);
        Doubled(a, Pow2(k - 1));
        OrStep(a * Pow2(k - 1), b);
      }
    }
  }

  lemma Pow2Zero()
    ensures Pow2(0) == 1
  {
  }

  lemma Pow2Next(k: nat)
    ensures Pow2(k + 1) == 2 * Pow2(k) && Pow2(k) >= 1
  {
  }

  lemma OrZero(a: nat, b: nat)
    ensures a == 0 ==> Or(a, b) == b
    ensures b == 0 ==> Or(a, b) == a
  {
  }

  lemma OrStep(c: nat, b: nat)
    ensures Or(2 * c, b) == 2 * Or(c, b / 2) + b % 2
  {
    OrZero(c, b / 2);
    assert 2 * c / 2 == c && (2 * c) % 2 == 0;
    if b == 0 { assert Or(c, 0) == c; }
  }

  lemma {:induction false} OrCommutes(a: nat, b: nat)
    ensures Or(a, b) == Or(b, a)
    decreases a + b
  {
    if a > 0 && b > 0 { OrCommutes(a / 2, b / 2); }
  }

  /** The bits of a that are not set in b. */
  function AndNot(a: nat, b: nat): nat {
    if a == 0 then 0 else 2 * AndNot(a / 2, b / 2) + (if a % 2 == 1 && b % 2 == 0 then 1 else 0)
  }

  /** Clearing the lowest w bits. */
  lemma {:induction false} ClearLow(x: nat, w: nat)
    ensures AndNot(x, Pow2(w) - 1) == x - x % Pow2(w)
  {
    hide *;
    if w == 0 {
      Pow2Zero();
      ClearNone(x);
    } else {
      Pow2Next(w - 1);
      ClearLow(x / 2, w - 1);
      DivOfMod(x, 2, Pow2(w - 1));
      ClearStep(x, Pow2(w) - 1);
      LowStep(x, x % Pow2(w), Pow2(w - 1));
    }
  }

  lemma LowStep(x: nat, y: nat, p: nat)
    requires p > 0 && y % 2 == x % 2 && y / 2 == x / 2 % p
    ensures 2 * (x / 2 - x / 2 % p) == x - y && (2 * p - 1) / 2 == p - 1 && (2 * p - 1) % 2 == 1
  {
  }

  lemma {:induction false} ClearNone(x: nat)
    ensures AndNot(x, 0) == x
  {
    if x > 0 { ClearNone(x / 2); }
  }

  lemma ClearStep(x: nat, m: nat)
    ensures AndNot(x, m) == 2 * AndNot(x / 2, m / 2) + (if x % 2 == 1 && m % 2 == 0 then 1 else 0)
  {
  }

  /** Clearing w bits from bit k on. */
  lemma {:induction false} ClearField(x: nat, k: nat, w: nat)
    ensures AndNot(x, (Pow2(w) - 1) * Pow2(k)) == x - x / Pow2(k) % Pow2(w) * Pow2(k)
  {
    hide *;
    var m := Pow2(w) - 1;
    if k == 0 {
      Pow2Zero();
      ClearLow(x, w);
    } else {
      Pow2Next(k - 1);
      ClearField(x / 2, k - 1, w);
      FieldOfHalf(x, Pow2(k - 1), Pow2(w));
      Doubled(m, Pow2(k - 1));
      ClearStep(x, m * Pow2(k));
      FieldStep(x, x / 2 / Pow2(k - 1) % Pow2(w) * Pow2(k - 1));
    }
  }

  lemma FieldOfHalf(x: nat, p: nat, m: nat)
    requires p > 0 && m > 0
    ensures x / (2 * p) % m * (2 * p) == 2 * (x / 2 / p % m * p)
  {
    DivDiv(x, 2, p);
    Doubled(x / 2 / p % m, p);
  }

  lemma FieldStep(x: nat, f: int)
    ensures 2 * (x / 2 - f) + (if x % 2 == 1 then 1 else 0) == x - 2 * f
  {
  }

  lemma Doubled(m: nat, p: nat)
    ensures m * (2 * p) == 2 * (m * p) && m * (2 * p) / 2 == m * p && m * (2 * p) % 2 == 0
  {
  }

  /** (x mod ab) div a is (x div a) mod b, and both leave the same remainder by a. */
  lemma DivOfMod(x: nat, a: nat, b: nat)
    requires a > 0 && b > 0
    ensures a * b > 0 && (x % (a * b)) / a == (x / a) % b && (x % (a * b)) % a == x % a
  {
    DivDiv(x, a, b);
    var s, r := x / a % b, x % a;
    DivModUnique(x, a * b, x / a / b, s * a + r);
    DivModUnique(s * a + r, a, s, r);
  }

  lemma Scaled(a: nat, b: nat, q: nat)
    ensures a >= b ==> a * q >= b * q
  {
  }

  function Modulo(x: nat, a: nat): (r: nat)
    requires a > 0
    ensures r < a
  {
    x % a
  }

  lemma QuotientModulo(x: nat, a: nat)
    requires a > 0
    ensures x == Quotient(x, a) * a + Modulo(x, a)
  {
  }

  lemma ModMod(x: nat, a: nat, b: nat)
    requires a <= b
    ensures x % Pow2(b) % Pow2(a) == x % Pow2(a)
  {
    hide Pow2;
    Pow2Add(a, b - a);
    DivOfMod(x, Pow2(a), Pow2(b - a));
  }
}
