/** Conversions between single and half precision (src/golden/fp16.h), on bit patterns.  Magnitudes are integers: a
    half counts units of 2^-24, a float counts units of 2^-149.  */
module Fp16 {
  import opened Bits

  const SIGN16: nat := 0x8000
  const SIGN32: nat := 0x8000_0000
  const HIDDEN32: nat := 0x80_0000
  const INFINITY16: nat := 0x7c00
  const INFINITY32: nat := 0x7f80_0000

  type Float = x: nat | x < 2 * SIGN32

  type Half = v: nat | v < 2 * SIGN16

  // ---------- what the patterns mean ----------

  function Exp32(x: Float): nat { x / HIDDEN32 % 256 }

  function Frac32(x: Float): nat { x % HIDDEN32 }

  predicate IsFinite32(x: Float) { Exp32(x) != 255 }

  predicate IsNaN32(x: Float) { Exp32(x) == 255 && Frac32(x) != 0 }

  predicate IsNegative32(x: Float) { x >= SIGN32 }

  ghost function Magnitude32(x: Float): nat {
    if Exp32(x) == 0 then Frac32(x) else (HIDDEN32 + Frac32(x)) * Pow2(Exp32(x) - 1)
  }

  /// The magnitude of a half without its sign bit.
  ghost function Unsigned16(w: nat): nat {
    if w / 1024 == 0 then w % 1024 else (1024 + w % 1024) * Pow2(w / 1024 - 1)
  }

  ghost function Magnitude16(v: Half): nat { Unsigned16(v % SIGN16) }

  predicate IsFinite16(v: Half) { v % SIGN16 < INFINITY16 }

  predicate IsNaN16(v: Half) { v % SIGN16 > INFINITY16 }

  predicate IsNegative16(v: Half) { v >= SIGN16 }

  /// Each pattern is one unit in the last place above the one before, across exponents too.
  ghost function Ulp(w: nat): nat {
    if w / 1024 == 0 then 1 else Pow2(w / 1024 - 1)
  }

  lemma {:induction false} NextHalf(w: nat)
    ensures Unsigned16(w + 1) == Unsigned16(w) + Ulp(w) && Ulp(w) >= 1
  {
    if w % 1024 == 1023 {
      assert (w + 1) / 1024 == w / 1024 + 1 && (w + 1) % 1024 == 0;
    } else {
      assert (w + 1) / 1024 == w / 1024 && (w + 1) % 1024 == w % 1024 + 1;
    }
  }

  lemma {:induction false} HalvesIncrease(w: nat, w': nat)
    requires w < w'
    ensures Unsigned16(w) < Unsigned16(w')
    decreases w'
  {
    NextHalf(w' - 1);
    if w < w' - 1 {
      HalvesIncrease(w, w' - 1);
    }
  }

  // ---------- float to half ----------

  function ToHalf(x: Float): (v: Half) {
    var sign := x / SIGN32 * SIGN16;
    var exp := Exp32(x) - 127 + 15;
    var frac := Frac32(x);
    if x % SIGN32 == 0 then sign
    else if Exp32(x) == 255 then sign + INFINITY16 + (if frac != 0 then 1 else 0)
    else if exp >= 31 then sign + INFINITY16
    else if exp <= 0 then
      if exp < -10 then sign
      else
        SubnormalFits(frac, 1 - exp);
        sign + Shr(frac + HIDDEN32, 1 - exp) / 8192
    else
      sign + exp * 1024 + frac / 8192
  }

  lemma {:induction false} SubnormalFits(frac: nat, shift: nat)
    requires frac < HIDDEN32 && shift >= 1
    ensures (frac + HIDDEN32) / Pow2(shift) / 8192 < 1024
  {
    Pow2Monotone(1, shift);
    DivideDown(frac + HIDDEN32, Pow2(shift));
  }

  lemma {:induction false} DivideDown(n: nat, p: nat)
    requires p >= 2
    ensures 0 <= n / p <= n / 2
  {
    var q := n / p;
    DivNonNegative(n, p);
    DivModSplit(n, p);
    MulLe(2, p, q);
    assert q * p == p * q;
  }

  /// One unit of a half is 2^125 units of a float.
  ghost function Scaled(m: nat): nat { m * Pow2(125) }

  /// The half w is the float's magnitude, rounded towards zero.
  ghost predicate RoundsDown(m: int, w: nat) {
    Scaled(Unsigned16(w)) <= m < Scaled(Unsigned16(w + 1))
  }

  /// Dividing a significand by a power of two rounds its value down.
  lemma {:induction false} FloorShift(sig: nat, shift: nat, p: nat)
    ensures var d := sig / Pow2(shift);
            d * Pow2(shift + p) <= sig * Pow2(p) < (d + 1) * Pow2(shift + p)
  {
    hide Pow2;
    var d, r := sig / Pow2(shift), sig % Pow2(shift);
    DivModSplit(sig, Pow2(shift));
    Pow2Add(shift, p);
    ScaleSplit(d, Pow2(shift), r, Pow2(p));
  }

  lemma {:induction false} ScaleSplit(d: nat, a: nat, r: nat, b: nat)
    requires r < a && b > 0
    ensures d * (a * b) <= (d * a + r) * b < (d + 1) * (a * b)
  {
    assert (d * a + r) * b == d * (a * b) + r * b;
    MulLe(r + 1, a, b);
    assert (d + 1) * (a * b) == d * (a * b) + a * b;
  }

  lemma {:induction false} DivideTwice(n: nat, a: nat, b: nat)
    requires a > 0 && b > 0
    ensures n / a / b == n / (a * b)
  {
    var q, r := n / a, n % a;
    var q2, r2 := q / b, q % b;
    DivModSplit(n, a);
    DivModSplit(q, b);
    assert (q2 * b + r2) * a == q2 * (a * b) + r2 * a;
    MulLe(r2 + 1, b, a);
    DigitDivMod(q2, r2 * a + r, a * b);
  }

  lemma {:induction false} ScaledPower(m: nat, k: nat)
    ensures Scaled(m * Pow2(k)) == m * Pow2(k + 125)
  {
    hide Pow2;
    Pow2Add(k, 125);
    Associate(m, Pow2(k), Pow2(125));
  }

  /// Up to the first normal one, a half is its own pattern.
  lemma {:induction false} SubnormalHalves(w: nat)
    requires w < 1024
    ensures Unsigned16(w) == w && Unsigned16(w + 1) == w + 1
    ensures Scaled(0) == 0 && Scaled(1) == Pow2(125)
  {
    NextHalf(w);
    hide Pow2;
  }

  lemma {:induction false} PowerValues()
    ensures Pow2(10) == 1024 && Pow2(13) == 8192 && Pow2(23) == HIDDEN32 && Pow2(24) == 2 * HIDDEN32
  {
    Pow2Add(10, 13);
    Pow2Add(10, 14);
    assert Pow2(10) == 1024 && Pow2(13) == 8192 && Pow2(14) == 16384;
  }

  lemma {:induction false} Below(sig: nat, p: nat)
    requires sig < Pow2(24)
    ensures sig * Pow2(p) < Pow2(24 + p)
  {
    Pow2Add(24, p);
    DigitRange(sig, Pow2(24), 0, Pow2(p));
  }

  lemma {:induction false} AtLeast(sig: nat, p: nat)
    requires sig >= Pow2(23)
    ensures sig * Pow2(p) >= Pow2(23 + p)
  {
    Pow2Add(23, p);
    MulLe(Pow2(23), sig, Pow2(p));
  }

  lemma {:induction false} NormalRounds(exp: nat, frac: nat)
    requires 1 <= exp <= 30 && frac < HIDDEN32
    ensures RoundsDown((HIDDEN32 + frac) * Pow2(exp + 111), exp * 1024 + frac / 8192)
  {
    hide Pow2, Scaled;
    var w, d := exp * 1024 + frac / 8192, 1024 + frac / 8192;
    assert w / 1024 == exp && w % 1024 == frac / 8192 && (HIDDEN32 + frac) / 8192 == d;
    NormalValue(w, exp, d);
    PowerValues();
    FloorShift(HIDDEN32 + frac, 13, exp + 111);
  }

  lemma {:induction false} NormalValue(w: nat, exp: nat, d: nat)
    requires w / 1024 == exp >= 1 && 1024 + w % 1024 == d
    ensures Scaled(Unsigned16(w)) == d * Pow2(exp + 124) && Scaled(Unsigned16(w + 1)) == (d + 1) * Pow2(exp + 124)
  {
    NextHalf(w);
    hide Pow2, Scaled;
    ScaledPower(d, exp - 1);
    ScaledPower(d + 1, exp - 1);
    assert (d + 1) * Pow2(exp - 1) == d * Pow2(exp - 1) + Pow2(exp - 1);
  }

  /// Below the smallest normal half; `shift` is one more than what is missing to exponent 1.
  lemma {:induction false} SubnormalRounds(shift: nat, frac: nat)
    requires 1 <= shift <= 11 && frac < HIDDEN32
    ensures RoundsDown((HIDDEN32 + frac) * Pow2(112 - shift), (HIDDEN32 + frac) / Pow2(shift) / 8192)
  {
    hide Pow2, Unsigned16;
    PowerValues();
    SubnormalFits(frac, shift);
    DivideTwice(HIDDEN32 + frac, Pow2(shift), 8192);
    Pow2Add(shift, 13);
    var w := (HIDDEN32 + frac) / Pow2(shift) / 8192;
    SubnormalHalves(w);
    FloorShift(HIDDEN32 + frac, shift + 13, 112 - shift);
  }

  /// Too small for any half but zero.
  lemma {:induction false} TinyRounds(e: nat, frac: nat)
    requires e <= 101 && frac < HIDDEN32
    ensures RoundsDown(if e == 0 then frac else (HIDDEN32 + frac) * Pow2(e - 1), 0)
  {
    hide Pow2, Unsigned16, Scaled;
    SubnormalHalves(0);
    PowerValues();
    if e > 0 {
      Below(HIDDEN32 + frac, e - 1);
      Pow2Monotone(23 + e, 125);
    } else {
      Pow2Monotone(24, 125);
    }
  }

  /// Beyond the largest finite half.
  lemma {:induction false} HugeOverflows(e: nat, frac: nat)
    requires e >= 1 && frac < HIDDEN32
    ensures (HIDDEN32 + frac) * Pow2(e - 1) >= Scaled(Unsigned16(INFINITY16)) <==> e >= 143
  {
    hide Pow2;
    InfinityValue();
    PowerValues();
    Below(HIDDEN32 + frac, e - 1);
    AtLeast(HIDDEN32 + frac, e - 1);
    if e >= 143 { Pow2Monotone(165, 22 + e); } else { Pow2Monotone(23 + e, 165); }
  }

  /// The pattern after the largest finite half stands for 2^16.
  lemma {:induction false} InfinityValue()
    ensures Scaled(Unsigned16(INFINITY16)) == Pow2(165)
  {
    hide Pow2;
    PowerValues();
    assert INFINITY16 / 1024 == 31 && INFINITY16 % 1024 == 0;
    Pow2Add(10, 30);
    Pow2Add(40, 125);
  }

  // ---------- the conversion to half ----------

  /// The half without its sign, from exponent field and fraction.
  ghost function HalfBits(e: nat, frac: nat): nat {
    if e <= 101 then 0
    else if e <= 112 then Shr(frac + HIDDEN32, 113 - e) / 8192
    else if e < 143 then (e - 112) * 1024 + frac / 8192
    else INFINITY16
  }

  lemma {:induction false} HalfIsSignAndBits(x: Float)
    requires IsFinite32(x)
    ensures ToHalf(x) == x / SIGN32 * SIGN16 + HalfBits(Exp32(x), Frac32(x))
    ensures x / SIGN32 == if IsNegative32(x) then 1 else 0
  {
    hide Pow2;
    assert x % SIGN32 == 0 ==> Exp32(x) == 0;
  }

  lemma {:induction false} BitsRound(e: nat, frac: nat)
    requires frac < HIDDEN32 && e < 255
    ensures var m: int := if e == 0 then frac else (HIDDEN32 + frac) * Pow2(e - 1);
            (HalfBits(e, frac) < INFINITY16 <==> m < Scaled(Unsigned16(INFINITY16))) &&
            HalfBits(e, frac) <= INFINITY16 &&
            (HalfBits(e, frac) < INFINITY16 ==> RoundsDown(m, HalfBits(e, frac)))
  {
    hide Pow2, Scaled, Unsigned16, RoundsDown;
    if e >= 1 { HugeOverflows(e, frac); } else { SmallIsFinite(frac); }
    if e <= 101 {
      TinyRounds(e, frac);
    } else if e <= 112 {
      SubnormalRounds(113 - e, frac);
      SubnormalFits(frac, 113 - e);
    } else if e < 143 {
      NormalRounds(e - 112, frac);
    }
  }

  lemma {:induction false} SmallIsFinite(frac: nat)
    requires frac < HIDDEN32
    ensures frac < Scaled(Unsigned16(INFINITY16))
  {
    hide Pow2, Scaled, Unsigned16;
    InfinityValue();
    PowerValues();
    Pow2Monotone(23, 165);
  }

  /// A finite float becomes a finite half exactly if its magnitude is below 2^16; then the half has the same
  /// sign and is the float rounded towards zero.
  lemma {:induction false} HalfRounds(x: Float)
    requires IsFinite32(x)
    ensures IsFinite16(ToHalf(x)) <==> Magnitude32(x) < Scaled(Unsigned16(INFINITY16))
    ensures IsNegative16(ToHalf(x)) <==> IsNegative32(x)
    ensures IsFinite16(ToHalf(x)) ==> RoundsDown(Magnitude32(x), ToHalf(x) % SIGN16)
    ensures !IsFinite16(ToHalf(x)) ==> ToHalf(x) % SIGN16 == INFINITY16
  {
    hide Pow2, Scaled, Unsigned16, RoundsDown, ToHalf, HalfBits;
    HalfIsSignAndBits(x);
    BitsRound(Exp32(x), Frac32(x));
    var s, w := x / SIGN32, HalfBits(Exp32(x), Frac32(x));
    assert (s * SIGN16 + w) % SIGN16 == w;
  }

  /// That is: of all halves whose magnitude does not exceed the float's, it has the largest.
  lemma {:induction false} RoundTowardZero(x: Float, g: Half)
    requires IsFinite32(x) && Magnitude32(x) < Scaled(Unsigned16(INFINITY16)) && IsFinite16(g)
    ensures Scaled(Magnitude16(ToHalf(x))) <= Magnitude32(x)
    ensures Scaled(Magnitude16(g)) <= Magnitude32(x) ==> Magnitude16(g) <= Magnitude16(ToHalf(x))
  {
    hide Pow2, Unsigned16, ToHalf, Magnitude32;
    HalfRounds(x);
    var w, w' := ToHalf(x) % SIGN16, g % SIGN16;
    if w' > w + 1 {
      HalvesIncrease(w + 1, w');
      ScaledMonotone(Unsigned16(w + 1), Unsigned16(w'));
    } else if w' < w {
      HalvesIncrease(w', w);
    }
  }

  lemma {:induction false} ScaledMonotone(m: nat, n: nat)
    requires m <= n
    ensures Scaled(m) <= Scaled(n)
  {
    MulLe(m, n, Pow2(125));
  }

  /// Larger magnitudes become larger magnitudes.
  lemma {:induction false} MagnitudeIsMonotone(x: Float, y: Float)
    requires IsFinite32(x) && IsFinite32(y) && Magnitude32(x) <= Magnitude32(y)
    ensures Magnitude16(ToHalf(x)) <= Magnitude16(ToHalf(y))
  {
    hide Pow2, Unsigned16, ToHalf, Magnitude32;
    HalfRounds(x);
    HalfRounds(y);
    var v, w := ToHalf(x) % SIGN16, ToHalf(y) % SIGN16;
    if w < v {
      if w + 1 < v { HalvesIncrease(w + 1, v); ScaledMonotone(Unsigned16(w + 1), Unsigned16(v)); }
      assert false;
    }
    if v < w { HalvesIncrease(v, w); }
  }

  /// The value of a float, and of a half, with its sign; infinity stands for 2^16.
  ghost function Value32(x: Float): int { if IsNegative32(x) then 0 - Magnitude32(x) else Magnitude32(x) }

  ghost function Value16(v: Half): int { if IsNegative16(v) then 0 - Magnitude16(v) else Magnitude16(v) }

  lemma {:induction false} ZeroToHalf(x: Float)
    requires IsFinite32(x) && Magnitude32(x) == 0
    ensures Magnitude16(ToHalf(x)) == 0
  {
    hide Pow2, Unsigned16, ToHalf, Magnitude32;
    InfinityValue();
    HalfRounds(x);
    var m := Magnitude16(ToHalf(x));
    if m > 0 {
      MulLe(1, m, Pow2(125));
      assert false;
    }
  }

  /// Larger floats become larger halves, negative ones and infinity included.
  lemma {:induction false} ToHalfIsMonotone(x: Float, y: Float)
    requires IsFinite32(x) && IsFinite32(y) && Value32(x) <= Value32(y)
    ensures Value16(ToHalf(x)) <= Value16(ToHalf(y))
  {
    hide Pow2, Unsigned16, ToHalf, Magnitude32, Scaled, Magnitude16;
    HalfRounds(x);
    HalfRounds(y);
    if IsNegative32(x) && IsNegative32(y) {
      MagnitudeIsMonotone(y, x);
    } else if !IsNegative32(x) && !IsNegative32(y) {
      MagnitudeIsMonotone(x, y);
    } else if IsNegative32(y) {
      ZeroToHalf(x);
      ZeroToHalf(y);
    }
  }

  /// Infinities and NaNs.
  lemma {:induction false} SpecialToHalf(x: Float)
    requires !IsFinite32(x)
    ensures (IsNaN16(ToHalf(x)) <==> IsNaN32(x)) && !IsFinite16(ToHalf(x)) &&
            (IsNegative16(ToHalf(x)) <==> IsNegative32(x))
  {
    assert x % SIGN32 >= INFINITY32;
    var s := x / SIGN32;
    assert (s * SIGN16 + INFINITY16) % SIGN16 == INFINITY16 && (s * SIGN16 + INFINITY16 + 1) % SIGN16 == INFINITY16 + 1;
  }

  // ---------- half to float ----------

  /// The float is the half's value, infinities and NaNs included.
  ghost predicate SameValue(v: Half, x: Float) {
    (IsNegative32(x) <==> IsNegative16(v)) &&
    if IsFinite16(v) then IsFinite32(x) && Magnitude32(x) == Scaled(Magnitude16(v))
    else !IsFinite32(x) && (IsNaN32(x) <==> IsNaN16(v))
  }

  /// A normal half, or a subnormal one after its leading bit was moved to the hidden position.
  lemma {:induction false} NormalToFloat(sign: nat, e: nat, frac: nat)
    requires sign <= 1 && 1 <= e < 255 && frac < 1024
    ensures var x := sign * SIGN32 + e * HIDDEN32 + frac * 8192;
            x < 2 * SIGN32 && Exp32(x) == e && Frac32(x) == frac * 8192 && (IsNegative32(x) <==> sign == 1) &&
            Magnitude32(x) == (1024 + frac) * Pow2(e + 12)
  {
    var x := sign * SIGN32 + e * HIDDEN32 + frac * 8192;
    assert SIGN32 == 256 * HIDDEN32;
    assert x == (sign * 256 + e) * HIDDEN32 + frac * 8192;
    assert x / HIDDEN32 == sign * 256 + e && x % HIDDEN32 == frac * 8192;
    Magnify(e, frac);
  }

  lemma {:induction false} Magnify(e: nat, frac: nat)
    requires e >= 1
    ensures (HIDDEN32 + frac * 8192) * Pow2(e - 1) == (1024 + frac) * Pow2(e + 12)
  {
    hide Pow2;
    PowerValues();
    Pow2Add(13, e - 1);
    assert (1024 + frac) * (Pow2(13) * Pow2(e - 1)) == ((1024 + frac) * Pow2(13)) * Pow2(e - 1);
  }

  /// Shifts a subnormal fraction until its leading bit is the hidden one, and keeps its value.
  method Normalize(frac0: nat) returns (frac: nat, e: nat)
    requires 0 < frac0 < 1024
    ensures 1024 <= frac < 2048 && 103 <= e < 113
    ensures frac * Pow2(e + 12) == Scaled(frac0)
  {
    hide Pow2;
    frac, e := frac0, 127 - 14;
    ghost var k := 0;
    assert Pow2(0) == 1 && Pow2(11) == 2048 by { PowersOfNormalize(); }
    while frac / 1024 % 2 == 0
      invariant k <= 10 && e == 113 - k && frac == frac0 * Pow2(k) < 2048
      decreases 10 - k
    {
      Doubled(frac0, k);
      MulLe(1, frac0, Pow2(11));
      frac := frac * 2;
      e := e - 1;
      k := k + 1;
    }
    Pow2Add(k, 125 - k);
    assert frac0 * Pow2(k) * Pow2(125 - k) == frac0 * (Pow2(k) * Pow2(125 - k));
  }

  lemma {:induction false} PowersOfNormalize()
    ensures Pow2(0) == 1 && Pow2(11) == 2048
  {
  }

  lemma {:induction false} Doubled(frac: nat, k: nat)
    ensures frac * Pow2(k + 1) == frac * Pow2(k) * 2
  {
  }

  method ToFloat(v: Half) returns (x: Float)
    ensures SameValue(v, x)
  {
    hide Pow2, Magnitude32, Scaled, SameValue, Unsigned16;
    var sign := v / SIGN16 * SIGN32;
    var exp := v / 1024 % 32;
    var frac := v % 1024;
    if exp == 0 {
      if frac == 0 {
        x := sign;
        ZeroValue(v, x);
      } else {
        var leading, e := Normalize(frac);
        SubnormalValue(v, leading, e);
        x := sign + e * HIDDEN32 + leading % 1024 * 8192;
      }
    } else if exp == 0x1f {
      x := sign + INFINITY32 + (if frac != 0 then 0x0040_0000 else 0);
      SpecialValue(v, x);
    } else {
      x := sign + (exp + 127 - 15) * HIDDEN32 + frac * 8192;
      NormalHalfValue(v);
    }
  }

  lemma {:induction false} SubnormalValue(v: Half, leading: nat, e: nat)
    requires v / 1024 % 32 == 0 && v % 1024 != 0 && 1024 <= leading < 2048 && 103 <= e < 113
    requires leading * Pow2(e + 12) == Scaled(v % 1024)
    ensures var x := v / SIGN16 * SIGN32 + e * HIDDEN32 + leading % 1024 * 8192; x < 2 * SIGN32 && SameValue(v, x)
  {
    hide Pow2, Magnitude32, Scaled, Unsigned16;
    SubnormalHalves(v % 1024);
    assert v % SIGN16 == v % 1024 && v / SIGN16 <= 1 && leading % 1024 == leading - 1024;
    NormalToFloat(v / SIGN16, e, leading - 1024);
  }

  lemma {:induction false} NormalHalfValue(v: Half)
    requires 0 < v / 1024 % 32 < 31
    ensures var x := v / SIGN16 * SIGN32 + (v / 1024 % 32 + 112) * HIDDEN32 + v % 1024 * 8192;
            x < 2 * SIGN32 && SameValue(v, x)
  {
    hide Pow2, Magnitude32, Scaled;
    var exp, frac := v / 1024 % 32, v % 1024;
    assert v % SIGN16 == exp * 1024 + frac && v / SIGN16 <= 1;
    NormalToFloat(v / SIGN16, exp + 112, frac);
    ScaledPower(1024 + frac, exp - 1);
  }

  lemma {:induction false} ZeroValue(v: Half, x: Float)
    requires v % SIGN16 == 0 && x == v / SIGN16 * SIGN32
    ensures SameValue(v, x)
  {
    hide Pow2, Unsigned16, Scaled;
    SubnormalHalves(0);
  }

  lemma {:induction false} SpecialValue(v: Half, x: Float)
    requires v / 1024 % 32 == 31 && x == v / SIGN16 * SIGN32 + INFINITY32 + (if v % 1024 != 0 then 0x0040_0000 else 0)
    ensures SameValue(v, x)
  {
  }

  /// Converting a half to float and back gives the same half, unless it is a NaN.
  lemma {:induction false} RoundTrip(v: Half, x: Float)
    requires SameValue(v, x) && !IsNaN16(v)
    ensures ToHalf(x) == v
  {
    hide Pow2, Unsigned16, ToHalf, Magnitude32;
    if IsFinite16(v) {
      var w, w' := v % SIGN16, ToHalf(x) % SIGN16;
      HalvesIncrease(w, INFINITY16);
      ScaledStrict(Unsigned16(w), Unsigned16(INFINITY16));
      HalfRounds(x);
      if w < w' { HalvesIncrease(w, w'); ScaledStrict(Unsigned16(w), Unsigned16(w')); }
      if w' + 1 < w { HalvesIncrease(w' + 1, w); }
      if w' < w { ScaledMonotone(Unsigned16(w' + 1), Unsigned16(w)); }
    } else {
      SpecialToHalf(x);
    }
  }

  lemma {:induction false} ScaledStrict(m: nat, n: nat)
    requires m < n
    ensures Scaled(m) < Scaled(n)
  {
    MulLe(m + 1, n, Pow2(125));
  }
}
