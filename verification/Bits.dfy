/** Positional arithmetic: one digit at a time, and the bit operations built on it.  */
module Bits {

  function Max(a: int, b: int): int { if a < b then b else a }

  function Abs(a: int): int { if a < 0 then -a else a }

  function Min(a: int, b: int): int { if a < b then a else b }

  // ---------- one digit ----------

  lemma {:induction false} DigitRange(f: int, n: int, x: int, c: int)
    requires 0 <= f < n && 0 <= x < c
    ensures 0 <= f * c + x < n * c
  {
    assert (f + 1) * c <= n * c;
  }

  lemma {:induction false} DigitUnique(f: int, x: int, g: int, y: int, c: int)
    requires 0 <= x < c && 0 <= y < c
    ensures f * c + x == g * c + y <==> f == g && x == y
  {
    assert f < g ==> (f + 1) * c <= g * c;
    assert g < f ==> (g + 1) * c <= f * c;
  }

  lemma {:induction false} DigitDivMod(f: int, x: int, c: int)
    requires 0 <= x < c
    ensures (f * c + x) / c == f && (f * c + x) % c == x
  {
    var n := f * c + x;
    assert n == (n / c) * c + n % c;
    DigitUnique(f, x, n / c, n % c, c);
  }

  // ---------- powers of two, shifts and masks ----------

  function Pow2(n: nat): (p: nat)
    ensures p >= 1
  {
    if n == 0 then 1 else 2 * Pow2(n - 1)
  }

  lemma {:induction false} Pow2Add(m: nat, n: nat)
    ensures Pow2(m + n) == Pow2(m) * Pow2(n)
  {
    if m > 0 {
      Pow2Add(m - 1, n);
      assert Pow2(m) * Pow2(n) == 2 * (Pow2(m - 1) * Pow2(n));
    }
  }

  function Shl(x: nat, n: nat): nat { x * Pow2(n) }

  function Shr(x: nat, n: nat): nat {
    DivNonNegative(x, Pow2(n));
    x / Pow2(n)
  }

  lemma {:induction false} DivNonNegative(x: nat, p: nat)
    requires p > 0
    ensures x / p >= 0
  {
  }

  /// x & ((1 << n) - 1), for a negative x on its two's complement
  function LowBits(x: int, n: nat): (r: nat)
    ensures r < Pow2(n)
  {
    x % Pow2(n)
  }

  // ---------- bitwise or and exclusive or ----------

  function Or(a: nat, b: nat): nat
    decreases a + b
  {
    if a == 0 && b == 0 then 0
    else 2 * Or(a / 2, b / 2) + (if a % 2 == 1 || b % 2 == 1 then 1 else 0)
  }

  function Xor(a: nat, b: nat): nat
    decreases a + b
  {
    if a == 0 && b == 0 then 0
    else 2 * Xor(a / 2, b / 2) + (if a % 2 != b % 2 then 1 else 0)
  }

  /// Or of bit fields that do not overlap is their sum.
  lemma {:induction false} OrDisjoint(high: nat, low: nat, n: nat)
    requires low < Pow2(n)
    ensures Or(Shl(high, n), low) == Shl(high, n) + low
    ensures Or(low, Shl(high, n)) == Shl(high, n) + low
  {
    if n == 0 {
      OrZero(high);
    } else {
      var h := Shl(high, n - 1);
      OrDisjoint(high, low / 2, n - 1);
      ShlStep(high, n);
      OrEven(h, low);
    }
  }

  /// A field packed above n low bits can be taken out again.
  lemma {:induction false} PackUnpack(high: nat, low: nat, n: nat)
    requires low < Pow2(n)
    ensures Or(low, Shl(high, n)) == Or(Shl(high, n), low)
    ensures Shr(Or(Shl(high, n), low), n) == high && LowBits(Or(Shl(high, n), low), n) == low
  {
    OrDisjoint(high, low, n);
    DigitDivMod(high, low, Pow2(n));
  }

  lemma {:induction false} UnpackPack(v: nat, n: nat)
    ensures Or(Shl(Shr(v, n), n), LowBits(v, n)) == v
  {
    OrDisjoint(Shr(v, n), LowBits(v, n), n);
    DivModSplit(v, Pow2(n));
  }

  lemma {:induction false} DivModSplit(v: int, c: nat)
    requires c > 0
    ensures v == (v / c) * c + v % c
  {
  }

  lemma {:induction false} PackRange(high: nat, low: nat, m: nat, n: nat)
    requires high < Pow2(m) && low < Pow2(n)
    ensures Or(Shl(high, n), low) < Pow2(m + n)
  {
    OrDisjoint(high, low, n);
    DigitRange(high, Pow2(m), low, Pow2(n));
    Pow2Add(m, n);
  }

  lemma {:induction false} ShrRange(v: nat, m: nat, n: nat)
    requires v < Pow2(m + n)
    ensures Shr(v, n) < Pow2(m)
  {
    Pow2Add(m, n);
    DivModSplit(v, Pow2(n));
    if Shr(v, n) >= Pow2(m) {
      MulLe(Pow2(m), Shr(v, n), Pow2(n));
      assert false;
    }
  }

  lemma {:induction false} MulLe(a: int, b: int, c: nat)
    requires a <= b
    ensures a * c <= b * c
  {
    assert (b - a) * c >= 0;
  }

  lemma {:induction false} Cancel(a: int, b: int, c: nat)
    requires c > 0
    ensures a * c <= b * c ==> a <= b
    ensures a * c < b * c ==> a < b
  {
    if a > b {
      MulLe(b + 1, a, c);
    } else {
      MulLe(a, b, c);
    }
  }

  lemma {:induction false} Associate(a: int, b: int, c: int)
    ensures a * b * c == a * (b * c)
  {
  }

  /// A number of two digits, one digit further up.
  lemma {:induction false} Reassociate(a: int, b: int, x: int, c: int)
    ensures (a * b + x) * c == a * (b * c) + x * c
  {
    Associate(a, b, c);
  }

  lemma {:induction false} Distribute(a: int, b: int, c: int)
    ensures (a + b) * c == a * c + b * c
  {
  }

  lemma {:induction false} ShlStep(x: nat, n: nat)
    requires n > 0
    ensures Shl(x, n) == 2 * Shl(x, n - 1)
  {
  }

  lemma {:induction false} OrEven(h: nat, low: nat)
    ensures Or(2 * h, low) == 2 * Or(h, low / 2) + low % 2
    ensures Or(low, 2 * h) == 2 * Or(low / 2, h) + low % 2
  {
    assert (2 * h) / 2 == h && (2 * h) % 2 == 0;
  }

  lemma {:induction false} OrZero(a: nat)
    ensures Or(a, 0) == a && Or(0, a) == a
  {
    if a > 0 { OrZero(a / 2); }
  }

  lemma {:induction false} XorCancels(a: nat, b: nat)
    ensures Xor(Xor(a, b), b) == a
    decreases a + b
  {
    if a != 0 || b != 0 { XorCancels(a / 2, b / 2); }
  }

  lemma {:induction false} XorRange(a: nat, b: nat, n: nat)
    requires a < Pow2(n) && b < Pow2(n)
    ensures Xor(a, b) < Pow2(n)
  {
    if n > 0 { XorRange(a / 2, b / 2, n - 1); }
  }

  // ---------- logarithms ----------

  /// The loop of the source: how often val can be halved before it is zero.
  method CalcLog2(val: nat) returns (n: nat)
    ensures val > 0 ==> Pow2(n) <= val < Pow2(n + 1)
    ensures val == 0 ==> n == 0
  {
    hide Pow2;
    n := 0;
    var v := val / 2;
    ShrStart(val);
    while v != 0
      invariant val == 0 ==> v == 0 && n == 0
      invariant v == Shr(val, n + 1)
      invariant val > 0 ==> Shr(val, n) > 0
      decreases v
    {
      hide Shr;
      ShrStep(val, n + 1);
      v := v / 2;
      n := n + 1;
    }
    if val > 0 {
      AtLeastPower(val, Pow2(n));
      BelowPower(val, Pow2(n + 1));
    }
  }

  lemma {:induction false} ShrStart(val: nat)
    ensures Shr(val, 1) == val / 2 && Shr(val, 0) == val
  {
  }

  lemma {:induction false} AtLeastPower(val: nat, p: nat)
    requires p > 0 && val / p > 0
    ensures p <= val
  {
    DivModSplit(val, p);
    MulLe(1, val / p, p);
  }

  lemma {:induction false} BelowPower(val: nat, p: nat)
    requires p > 0 && val / p == 0
    ensures val < p
  {
    DivModSplit(val, p);
  }

  lemma {:induction false} ShrStep(val: nat, n: nat)
    ensures Shr(val, n) / 2 == Shr(val, n + 1)
  {
    Halve(val, Pow2(n));
  }

  lemma {:induction false} Halve(val: nat, p: nat)
    requires p > 0
    ensures val / p / 2 == val / (2 * p)
  {
    var q, r, two := val / p, val % p, 2 * p;
    var h := q / 2;
    DivModSplit(val, p);
    assert 2 * h * p == h * two;
    if q % 2 == 0 {
      DigitDivMod(h, r, two);
    } else {
      assert (2 * h + 1) * p == 2 * h * p + p;
      DigitDivMod(h, p + r, two);
    }
  }

  lemma {:induction false} Log2OfPow2(k: nat, n: nat)
    requires Pow2(n) <= Pow2(k) < Pow2(n + 1)
    ensures n == k
  {
    if n < k { Pow2Monotone(n + 1, k); } else if k < n { Pow2Monotone(k + 1, n); }
  }

  lemma {:induction false} Pow2Monotone(m: nat, n: nat)
    requires m <= n
    ensures Pow2(m) <= Pow2(n)
  {
    if m < n { Pow2Monotone(m, n - 1); }
  }
}
