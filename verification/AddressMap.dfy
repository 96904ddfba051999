/** The linear address mappers (src/addr_mapper/impl/linear_mappers.cpp): each takes a transaction address apart bit
    field by bit field.  */
module AddressMap {
  import opened Bits
  import FlatBanks
  import Rit

  // ---------- fields in the order they are sliced off, the lowest first ----------

  datatype Order = Start | Then(before: Order, level: nat)

  ghost predicate Takes(o: Order, l: nat) {
    o.Then? && (o.level == l || Takes(o.before, l))
  }

  /// The number that the fields make up.
  ghost function Pack(vec: seq<int>, bits: seq<nat>, o: Order): int {
    if o.Start? || o.level >= |vec| then 0
    else Pack(vec, bits, o.before) + Pow2(Width(bits, o.before)) * vec[o.level]
  }

  ghost function Width(bits: seq<nat>, o: Order): nat {
    if o.Start? || o.level >= |bits| then 0 else Width(bits, o.before) + bits[o.level]
  }

  ghost predicate Fits(vec: seq<int>, bits: seq<nat>, o: Order) {
    |vec| == |bits| &&
    (o.Then? ==> o.level < |vec| && 0 <= vec[o.level] < Pow2(bits[o.level]) && Fits(vec, bits, o.before))
  }

  /// Only the fields in the order count.
  lemma {:induction false} PackSame(vec: seq<int>, vec': seq<int>, bits: seq<nat>, o: Order)
    requires Fits(vec, bits, o) && |vec| == |vec'| && forall l: nat :: Takes(o, l) ==> l < |vec| && vec[l] == vec'[l]
    ensures Pack(vec, bits, o) == Pack(vec', bits, o) && Fits(vec', bits, o)
  {
    if o.Then? {
      assert Takes(o, o.level) && forall l: nat :: Takes(o.before, l) ==> Takes(o, l);
      PackSame(vec, vec', bits, o.before);
    }
  }

  lemma {:induction false} PackInRange(vec: seq<int>, bits: seq<nat>, o: Order)
    requires Fits(vec, bits, o)
    ensures 0 <= Pack(vec, bits, o) < Pow2(Width(bits, o))
  {
    hide Pow2;
    if o.Then? {
      var low, w, b := Pack(vec, bits, o.before), Width(bits, o.before), bits[o.level];
      PackInRange(vec, bits, o.before);
      Pow2Add(w, b);
      OnTop(low, vec[o.level], Pow2(w), Pow2(b));
    }
  }

  lemma {:induction false} OnTop(low: int, high: int, p: nat, q: nat)
    requires 0 <= low < p && 0 <= high < q
    ensures 0 <= low + p * high < p * q
  {
    DigitRange(high, q, low, p);
  }

  lemma {:induction false} LowPart(address: int, low: int, p: nat, high: int)
    requires address == low + p * high && 0 <= low < p
    ensures address % p == low
  {
    DigitDivMod(high, low, p);
  }

  /// The number determines the fields.
  lemma {:induction false} PackUnique(v: seq<int>, w: seq<int>, bits: seq<nat>, o: Order)
    requires Fits(v, bits, o) && Fits(w, bits, o) && Pack(v, bits, o) == Pack(w, bits, o)
    ensures forall l: nat :: Takes(o, l) ==> l < |v| && v[l] == w[l]
  {
    if o.Then? {
      PackInRange(v, bits, o.before);
      PackInRange(w, bits, o.before);
      DigitUnique(v[o.level], Pack(v, bits, o.before), w[o.level], Pack(w, bits, o.before),
                  Pow2(Width(bits, o.before)));
      PackUnique(v, w, bits, o.before);
    }
  }

  /// One slice more: what is left of the address, and what has been taken.
  lemma {:induction false} Sliced(vec: seq<int>, bits: seq<nat>, o: Order, l: nat, address: nat, left: nat, low: nat,
                                  rest: nat)
    requires Fits(vec, bits, o) && l < |vec| && !Takes(o, l)
    requires address == Pack(vec, bits, o) + Pow2(Width(bits, o)) * left
    requires low < Pow2(bits[l]) && left == rest * Pow2(bits[l]) + low
    ensures Fits(vec[l := low], bits, Then(o, l))
    ensures address == Pack(vec[l := low], bits, Then(o, l)) + Pow2(Width(bits, Then(o, l))) * rest
  {
    TakesLevels(vec, bits, o);
    PackSame(vec, vec[l := low], bits, o);
    Pow2Add(Width(bits, o), bits[l]);
    TakeLowDigit(Pow2(Width(bits, o)), low, Pow2(bits[l]), rest);
  }

  lemma {:induction false} TakeLowDigit(a: int, x: int, p: int, y: int)
    ensures a * (y * p + x) == a * x + (a * p) * y
  {
    assert a * (y * p) == (a * p) * y;
  }

  lemma {:induction false} TakesLevels(vec: seq<int>, bits: seq<nat>, o: Order)
    requires Fits(vec, bits, o)
    ensures forall l: nat :: Takes(o, l) ==> l < |vec|
  {
    if o.Then? {
      TakesLevels(vec, bits, o.before);
    }
  }

  /// All slices taken: the fields make up the address, up to the capacity.
  lemma {:induction false} AllSliced(vec: seq<int>, bits: seq<nat>, o: Order, address: nat, left: nat)
    requires Fits(vec, bits, o)
    requires address == Pack(vec, bits, o) + Pow2(Width(bits, o)) * left
    ensures Pack(vec, bits, o) == address % Pow2(Width(bits, o))
  {
    hide Pow2, Pack, Fits, Width;
    PackInRange(vec, bits, o);
    LowPart(address, Pack(vec, bits, o), Pow2(Width(bits, o)), left);
  }

  lemma {:induction false} TakesThen(o: Order, k: nat)
    ensures forall l: nat :: Takes(Then(o, k), l) <==> l == k || Takes(o, l)
    ensures forall l: nat :: !Takes(Start, l)
  {
  }

  ghost function Up(o: Order, lo: nat, hi: nat): (o': Order)
    ensures forall l: nat :: Takes(o', l) <==> Takes(o, l) || lo <= l < hi
  {
    if lo >= hi then o else Then(Up(o, lo, hi - 1), hi - 1)
  }

  ghost function Down(o: Order, hi: nat, lo: nat): (o': Order)
    ensures forall l: nat :: Takes(o', l) <==> Takes(o, l) || lo <= l < hi
    decreases hi - lo
  {
    if lo >= hi then o else Then(Down(o, hi, lo + 1), lo)
  }

  // ---------- which bits a level gets ----------

  /// The b bits of the address from bit `offset` on.
  ghost function Slice(address: nat, offset: nat, b: nat): nat {
    LowBits(Shr(address, offset), b)
  }

  /// How many bits were sliced off before the level's.
  ghost function Offset(bits: seq<nat>, o: Order, l: nat): nat {
    if o.Start? || o.level >= |bits| then 0
    else if o.level == l then Width(bits, o.before)
    else Offset(bits, o.before, l)
  }

  lemma {:induction false} OneField(address: nat, low: int, p: nat, x: int, q: nat, left: nat)
    requires p > 0 && q > 0 && 0 <= low < p && 0 <= x < q && address == low + p * x + (p * q) * left
    ensures address / p % q == x
  {
    assert address == (x + q * left) * p + low by { assert (p * q) * left == p * (q * left); }
    DigitDivMod(x + q * left, low, p);
    DigitDivMod(left, x, q);
  }

  lemma {:induction false} OneFieldLess(low: int, p: nat, x: int, q: nat, left: nat)
    ensures low + p * x + (p * q) * left == low + p * (x + q * left)
  {
    assert (p * q) * left == p * (q * left);
  }

  /// Every level holds the bits of the address from its offset on.
  lemma {:induction false} FieldAt(vec: seq<int>, bits: seq<nat>, o: Order, l: nat, address: nat, left: nat)
    requires Fits(vec, bits, o) && address == Pack(vec, bits, o) + Pow2(Width(bits, o)) * left && Takes(o, l)
    ensures l < |vec| && vec[l] == Slice(address, Offset(bits, o, l), bits[l])
  {
    hide Pow2;
    var w, k := Width(bits, o.before), o.level;
    Pow2Add(w, bits[k]);
    PackInRange(vec, bits, o.before);
    if k == l {
      OneField(address, Pack(vec, bits, o.before), Pow2(w), vec[l], Pow2(bits[l]), left);
    } else {
      OneFieldLess(Pack(vec, bits, o.before), Pow2(w), vec[k], Pow2(bits[k]), left);
      FieldAt(vec, bits, o.before, l, address, vec[k] + Pow2(bits[k]) * left);
    }
  }

  /// What is left of the address is what lies above the fields.
  lemma {:induction false} LeftAt(vec: seq<int>, bits: seq<nat>, o: Order, address: nat, left: nat)
    requires Fits(vec, bits, o) && address == Pack(vec, bits, o) + Pow2(Width(bits, o)) * left
    ensures left == Shr(address, Width(bits, o))
  {
    hide Pow2, Pack, Fits, Width;
    PackInRange(vec, bits, o);
    DigitDivMod(left, Pack(vec, bits, o), Pow2(Width(bits, o)));
  }

  /// The bits of the levels from k on.
  ghost function From(bits: seq<nat>, k: nat): nat
    decreases |bits| - k
  {
    if k >= |bits| then 0 else bits[k] + From(bits, k + 1)
  }

  lemma {:induction false} OffsetDown(bits: seq<nat>, lo: nat, l: nat)
    requires lo <= l < |bits|
    ensures Offset(bits, Down(Start, |bits|, lo), l) == From(bits, l + 1)
    ensures Width(bits, Down(Start, |bits|, lo)) == From(bits, lo)
    decreases |bits| - lo
  {
    if lo < l {
      OffsetDown(bits, lo + 1, l);
    } else if l + 1 < |bits| {
      OffsetDown(bits, l + 1, l + 1);
    }
  }

  lemma {:induction false} OffsetUp(bits: seq<nat>, o: Order, lo: nat, hi: nat, l: nat)
    requires lo <= hi <= |bits|
    ensures Offset(bits, Up(o, lo, hi), l) ==
            if lo <= l < hi then Width(bits, o) + Sum(bits, l) - Sum(bits, lo) else Offset(bits, o, l)
  {
    if lo < hi {
      OffsetUp(bits, o, lo, hi - 1, l);
      WidthUp(bits, o, lo, hi - 1);
    }
  }

  /// Each level above the last starts where the levels after it end.
  ghost predicate LastLowest(bits: seq<nat>, address: nat, vec: seq<int>) {
    |vec| == |bits| && forall l :: 0 <= l < |bits| ==> vec[l] == Slice(address, From(bits, l + 1), bits[l])
  }

  lemma {:induction false} FieldsDown(bits: seq<nat>, vec: seq<int>, address: nat, left: nat)
    requires var o := Down(Start, |bits|, 0);
             Fits(vec, bits, o) && address == Pack(vec, bits, o) + Pow2(Width(bits, o)) * left
    ensures LastLowest(bits, address, vec)
  {
    hide Pow2, Pack, Fits, Width, Slice, Offset;
    SameLength(bits, Down(Start, |bits|, 0), vec);
    forall l | 0 <= l < |bits| ensures vec[l] == Slice(address, From(bits, l + 1), bits[l]) {
      FieldAt(vec, bits, Down(Start, |bits|, 0), l, address, left);
      OffsetDown(bits, 0, l);
    }
  }

  /// The first level is lowest, then come the last level and the others in order.
  ghost predicate FirstLastLowest(bits: seq<nat>, address: nat, vec: seq<int>)
    requires |bits| >= 2
  {
    var n := |bits|;
    |vec| == n && vec[0] == Slice(address, 0, bits[0]) && vec[n - 1] == Slice(address, bits[0], bits[n - 1]) &&
    forall l :: 0 < l < n - 1 ==> vec[l] == Slice(address, bits[n - 1] + Sum(bits, l), bits[l])
  }

  lemma {:induction false} FieldsChannelColumn(bits: seq<nat>, vec: seq<int>, address: nat, left: nat)
    requires |bits| >= 2
    requires var o := ChannelColumnOrder(|bits|);
             Fits(vec, bits, o) && address == Pack(vec, bits, o) + Pow2(Width(bits, o)) * left
    ensures FirstLastLowest(bits, address, vec)
  {
    hide Pow2, Pack, Fits, Width, Slice, Sum, Offset, ChannelColumnOrder;
    var n, o := |bits|, ChannelColumnOrder(|bits|);
    SameLength(bits, o, vec);
    forall l | 0 <= l < n
      ensures vec[l] == Slice(address, if l == 0 then 0 else if l == n - 1 then bits[0] else bits[n - 1] + Sum(bits, l),
                              bits[l])
    {
      ChannelColumnOffset(bits, l);
      FieldAt(vec, bits, o, l, address, left);
    }
  }

  lemma {:induction false} ChannelColumnOffset(bits: seq<nat>, l: nat)
    requires |bits| >= 2 && l < |bits|
    ensures var n, o := |bits|, ChannelColumnOrder(|bits|);
            Takes(o, l) &&
            Offset(bits, o, l) == if l == 0 then 0 else if l == n - 1 then bits[0] else bits[n - 1] + Sum(bits, l)
  {
    var n := |bits|;
    var first := Then(Then(Start, 0), n - 1);
    TakesThen(Start, 0);
    TakesThen(Then(Start, 0), n - 1);
    assert Width(bits, Then(Start, 0)) == bits[0] && Width(bits, first) == bits[0] + bits[n - 1];
    assert Sum(bits, 1) == Sum(bits, 0) + bits[0];
    OffsetUp(bits, first, 1, n - 1, l);
  }

  // ---------- a mapping and its inverse ----------

  ghost predicate Covers(o: Order, n: nat) {
    forall l: nat :: Takes(o, l) <==> l < n
  }

  /// The coordinates are in range, and together they are the address within the capacity.
  ghost predicate Maps(bits: seq<nat>, o: Order, address: nat, vec: seq<int>) {
    Fits(vec, bits, o) && Pack(vec, bits, o) == address % Pow2(Width(bits, o))
  }

  /// Below the capacity this is a bijection: different addresses have different coordinates, and the
  /// address of any coordinates in range is the number they make up.
  lemma {:induction false} MapsIsBijection(bits: seq<nat>, o: Order, a: nat, v: seq<int>, b: nat, w: seq<int>)
    requires Covers(o, |bits|) && a < Pow2(Width(bits, o)) && b < Pow2(Width(bits, o))
    requires Maps(bits, o, a, v) && Maps(bits, o, b, w)
    ensures a == b <==> v == w
  {
    hide Pow2, Pack, Fits, Width;
    LowPart(a, a, Pow2(Width(bits, o)), 0);
    LowPart(b, b, Pow2(Width(bits, o)), 0);
    SameLength(bits, o, v);
    SameLength(bits, o, w);
    if a == b {
      PackUnique(v, w, bits, o);
    }
  }

  lemma {:induction false} SameLength(bits: seq<nat>, o: Order, v: seq<int>)
    requires Fits(v, bits, o)
    ensures |v| == |bits|
  {
  }

  lemma {:induction false} MapsIsOnto(bits: seq<nat>, o: Order, v: seq<int>)
    requires Fits(v, bits, o)
    ensures 0 <= Pack(v, bits, o) < Pow2(Width(bits, o)) && Maps(bits, o, Pack(v, bits, o), v)
  {
    hide Pow2, Pack, Fits, Width;
    PackInRange(v, bits, o);
    LowPart(Pack(v, bits, o), Pack(v, bits, o), Pow2(Width(bits, o)), 0);
  }

  // ---------- the exclusive-or of the MOP4CLXOR mapper ----------

  ghost function Sum(bits: seq<nat>, k: nat): nat
    requires k <= |bits|
  {
    if k == 0 then 0 else Sum(bits, k - 1) + bits[k - 1]
  }

  /// The column bits that are mixed into a level.
  ghost function Mask(bits: seq<nat>, column: nat, level: nat): (m: nat)
    requires level < |bits|
    ensures m < Pow2(bits[level])
  {
    LowBits(Shr(column, Sum(bits, level)), bits[level])
  }

  function XorLevel(x: int, mask: nat): int {
    if x < 0 then x else Xor(x, mask)
  }

  /// The first k levels mixed with the column, which is the last.
  ghost function Mixed(bits: seq<nat>, vec: seq<int>, k: nat): (mixed: seq<int>)
    requires |vec| == |bits| && k < |vec| && vec[|vec| - 1] >= 0
    ensures |mixed| == |vec| && mixed[|vec| - 1] == vec[|vec| - 1]
  {
    if k == 0 then vec
    else
      var before := Mixed(bits, vec, k - 1);
      before[k - 1 := XorLevel(vec[k - 1], Mask(bits, vec[|vec| - 1], k - 1))]
  }

  lemma {:induction false} MixedAt(bits: seq<nat>, vec: seq<int>, k: nat)
    requires |vec| == |bits| && k < |vec| && vec[|vec| - 1] >= 0
    ensures forall l :: 0 <= l < |vec| ==>
              Mixed(bits, vec, k)[l] == if l < k then XorLevel(vec[l], Mask(bits, vec[|vec| - 1], l)) else vec[l]
  {
    if k > 0 {
      MixedAt(bits, vec, k - 1);
    }
  }

  lemma {:induction false} XorLevelFacts(x: int, mask: nat, b: nat)
    requires x >= 0 && mask < Pow2(b)
    ensures XorLevel(x, mask) >= 0 && XorLevel(XorLevel(x, mask), mask) == x
    ensures XorLevel(x, mask) < Pow2(b) <==> x < Pow2(b)
  {
    XorCancels(x, mask);
    if x < Pow2(b) { XorRange(x, mask, b); }
    if Xor(x, mask) < Pow2(b) { XorRange(Xor(x, mask), mask, b); }
  }

  /// Not below zero, and within the level's bits exactly if the other one is.
  ghost predicate SameRange(b: nat, x: int, y: int) {
    x >= 0 && (x < Pow2(b) <==> y < Pow2(b))
  }

  /// Mixing twice restores the coordinates: the masks depend on the column alone, which is not mixed.
  lemma {:induction false} MixedTwice(bits: seq<nat>, vec: seq<int>)
    requires |vec| == |bits| > 0 && forall l :: 0 <= l < |vec| ==> vec[l] >= 0
    ensures Mixed(bits, Mixed(bits, vec, |vec| - 1), |vec| - 1) == vec
    ensures forall l :: 0 <= l < |vec| ==> SameRange(bits[l], Mixed(bits, vec, |vec| - 1)[l], vec[l])
  {
    var k := |vec| - 1;
    var once := Mixed(bits, vec, k);
    MixedAt(bits, vec, k);
    MixedAt(bits, once, k);
    forall l | 0 <= l < k
      ensures Mixed(bits, once, k)[l] == vec[l] && SameRange(bits[l], once[l], vec[l])
    {
      XorLevelFacts(vec[l], Mask(bits, vec[k], l), bits[l]);
    }
  }

  lemma {:induction false} XorNothing(x: nat)
    ensures Xor(x, 0) == x
  {
    if x > 0 { XorNothing(x / 2); }
  }

  /// The fields of the mapper: the column in two pieces, its two low bits and, as an extra level, the rest.
  ghost function SplitBits(bits: seq<nat>): seq<nat>
    requires |bits| >= 2 && bits[|bits| - 1] >= 2
  {
    bits[|bits| - 1 := 2] + [bits[|bits| - 1] - 2]
  }

  ghost function SplitColumn(vec: seq<int>): seq<int>
    requires |vec| >= 2 && vec[|vec| - 1] >= 0
  {
    var c: nat := vec[|vec| - 1];
    vec[|vec| - 1 := LowBits(c, 2)] + [Shr(c, 2)]
  }

  ghost function MopOrder(n: nat): Order
    requires n >= 2
  {
    Then(Then(Up(Then(Start, n - 1), 0, n - 2), n), n - 2)
  }

  /// The address that the coordinates stand for.
  ghost function MopAddress(bits: seq<nat>, vec: seq<int>): int
    requires |vec| == |bits| >= 2 && bits[|bits| - 1] >= 2 && vec[|vec| - 1] >= 0
  {
    Pack(SplitColumn(Mixed(bits, vec, |vec| - 1)), SplitBits(bits), MopOrder(|bits|))
  }

  ghost function ChannelColumnOrder(n: nat): Order
    requires n >= 2
  {
    Up(Then(Then(Start, 0), n - 1), 1, n - 1)
  }

  lemma {:induction false} MixStep(bits: seq<nat>, plain: seq<int>, l: nat)
    requires |plain| == |bits| && l + 1 < |plain| && forall i :: 0 <= i < |plain| ==> plain[i] >= 0
    ensures var before := Mixed(bits, plain, l);
            before[|plain| - 1] >= 0 &&
            Mixed(bits, plain, l + 1) ==
              if bits[l] == 0 then before
              else before[l := XorLevel(before[l], LowBits(Shr(before[|plain| - 1], Sum(bits, l)), bits[l]))]
    ensures Mixed(bits, plain, 0) == plain && Sum(bits, l + 1) == Sum(bits, l) + bits[l]
  {
    MixedAt(bits, plain, l);
    XorNothing(plain[l]);
    assert bits[l] == 0 ==> Pow2(bits[l]) == 1;
  }

  lemma {:induction false} Unmixed(bits: seq<nat>, plain: seq<int>, vec: seq<int>)
    requires |plain| == |bits| >= 2 && bits[|bits| - 1] >= 2 && forall l :: 0 <= l < |plain| ==> plain[l] >= 0
    requires vec == Mixed(bits, plain, |plain| - 1)
    ensures |vec| == |bits| && forall l :: 0 <= l < |vec| ==> SameRange(bits[l], vec[l], plain[l])
    ensures MopAddress(bits, vec) == Pack(SplitColumn(plain), SplitBits(bits), MopOrder(|bits|))
  {
    hide Mixed, Pow2, Pack, SplitColumn, SplitBits;
    MixedTwice(bits, plain);
    forall l | 0 <= l < |vec| ensures SameRange(bits[l], vec[l], plain[l]) {
      assert vec[l] == Mixed(bits, plain, |plain| - 1)[l];
    }
  }

  /// Which bits the levels get before they are mixed: two column bits lowest, then the levels above the row in order,
  /// the other column bits, and all that is left as the row.
  ghost function MopSlice(bits: seq<nat>, address: nat, l: nat): nat
    requires |bits| >= 2 && bits[|bits| - 1] >= 2 && l < |bits|
  {
    var n := |bits|;
    if l == n - 1 then Slice(address, 0, 2) + Shl(Slice(address, 2 + Sum(bits, n - 2), bits[n - 1] - 2), 2)
    else if l == n - 2 then Shr(address, Sum(bits, n - 2) + bits[n - 1])
    else Slice(address, 2 + Sum(bits, l), bits[l])
  }

  lemma {:induction false} MopOffset(bits: seq<nat>, l: nat)
    requires |bits| >= 2 && bits[|bits| - 1] >= 2 && l <= |bits| && l != |bits| - 2
    ensures var n, split := |bits|, SplitBits(bits);
            var o := Then(Up(Then(Start, n - 1), 0, n - 2), n);
            Takes(o, l) && Width(split, o) == Sum(bits, n - 2) + bits[n - 1] &&
            Offset(split, o, l) == if l == n - 1 then 0 else if l == n then 2 + Sum(bits, n - 2) else 2 + Sum(bits, l)
  {
    var n, split := |bits|, SplitBits(bits);
    TakesThen(Start, n - 1);
    TakesThen(Up(Then(Start, n - 1), 0, n - 2), n);
    assert Width(split, Then(Start, n - 1)) == 2;
    OffsetUp(split, Then(Start, n - 1), 0, n - 2, l);
    WidthUp(split, Then(Start, n - 1), 0, n - 2);
    SumSame(bits, split, n - 2);
    if l < n - 2 { SumSame(bits, split, l); }
  }

  /// The fields sliced off for the mapper are these bits of the address.
  lemma {:induction false} MopFields(bits: seq<nat>, vec: seq<int>, fields: seq<int>, address: nat, left: nat)
    requires |vec| == |bits| >= 2 && bits[|bits| - 1] >= 2 && |fields| == |vec| + 1
    requires fields[|vec| - 1] >= 0 && fields[|vec|] >= 0
    requires vec[|vec| - 1] == fields[|vec| - 1] + Shl(fields[|vec|], 2) && vec[|vec| - 2] == left
    requires forall i :: 0 <= i < |vec| - 2 ==> vec[i] == fields[i]
    requires var o := Then(Up(Then(Start, |vec| - 1), 0, |vec| - 2), |vec|);
             Fits(fields, SplitBits(bits), o) &&
             address == Pack(fields, SplitBits(bits), o) + Pow2(Width(SplitBits(bits), o)) * left
    ensures forall l :: 0 <= l < |vec| ==> vec[l] == MopSlice(bits, address, l)
  {
    hide Pow2, Pack, Fits, Width, Slice, Sum, Offset, Shr, Shl;
    var n, split := |bits|, SplitBits(bits);
    var o := Then(Up(Then(Start, n - 1), 0, n - 2), n);
    forall l | 0 <= l <= n && l != n - 2 ensures fields[l] == Slice(address, Offset(split, o, l), split[l]) {
      MopOffset(bits, l);
      FieldAt(fields, split, o, l, address, left);
    }
    LeftAt(fields, split, o, address, left);
    forall l | 0 <= l < n ensures vec[l] == MopSlice(bits, address, l) {
      MopOffset(bits, n);
      MopOffset(bits, n - 1);
      if l != n - 2 { MopOffset(bits, l); }
    }
  }

  /// The mapping, level by level: every level but the column has its own column bits mixed in.
  ghost predicate MopMapped(bits: seq<nat>, address: nat, vec: seq<int>)
    requires |bits| >= 2 && bits[|bits| - 1] >= 2
  {
    var column := MopSlice(bits, address, |bits| - 1);
    |vec| == |bits| && vec[|bits| - 1] == column &&
    forall l :: 0 <= l < |bits| - 1 ==>
      vec[l] == Xor(MopSlice(bits, address, l), Slice(column, Sum(bits, l), bits[l]))
  }

  lemma {:induction false} MopMixed(bits: seq<nat>, address: nat, plain: seq<int>)
    requires |plain| == |bits| >= 2 && bits[|bits| - 1] >= 2
    requires forall l :: 0 <= l < |plain| ==> plain[l] == MopSlice(bits, address, l)
    ensures plain[|plain| - 1] >= 0 && MopMapped(bits, address, Mixed(bits, plain, |plain| - 1))
  {
    hide MopSlice, Pow2, Xor, Sum;
    MixedAt(bits, plain, |plain| - 1);
  }

  lemma {:induction false} MopDone(bits: seq<nat>, vec: seq<int>, fields: seq<int>, low: nat, high: nat, whole: nat,
                                   left: nat)
    requires |vec| == |bits| >= 2 && bits[|bits| - 1] >= 2 && |fields| == |vec| + 1 && low < Pow2(2)
    requires high < Pow2(bits[|bits| - 1] - 2) && vec[|vec| - 1] == low + Shl(high, 2) && vec[|vec| - 2] == left
    requires fields[|vec| - 1] == low && fields[|vec|] == high
    requires forall i :: 0 <= i < |vec| - 2 ==> vec[i] == fields[i]
    requires var o := Then(Up(Then(Start, |vec| - 1), 0, |vec| - 2), |vec|);
             Fits(fields, SplitBits(bits), o) &&
             whole == Pack(fields, SplitBits(bits), o) + Pow2(Width(SplitBits(bits), o)) * left
    ensures 0 <= vec[|vec| - 1] < Pow2(bits[|bits| - 1])
    ensures Pack(SplitColumn(vec), SplitBits(bits), MopOrder(|bits|)) == whole
  {
    var n, b := |vec|, bits[|bits| - 1];
    var o := Then(Up(Then(Start, n - 1), 0, n - 2), n);
    DigitDivMod(high, low, Pow2(2));
    Pow2Add(b - 2, 2);
    DigitRange(high, Pow2(b - 2), low, Pow2(2));
    assert SplitColumn(vec) == fields[n - 2 := left];
    TakesThen(Start, n - 1);
    TakesThen(Up(Then(Start, n - 1), 0, n - 2), n);
    assert !Takes(o, n - 2);
    TakesLevels(fields, SplitBits(bits), o);
    PackSame(fields, SplitColumn(vec), SplitBits(bits), o);
  }

  // ---------- the mappers ----------

  class LinearMapper {
    const bits: seq<nat>
    const txOffset: nat

    ghost predicate Valid() { |bits| >= 2 }

    /// Bits per level from the geometry; the column counts whole prefetches.
    constructor (count: seq<nat>, prefetch: nat, channelWidth: nat)
      requires |count| >= 2 && 0 < prefetch <= count[|count| - 1] && prefetch * channelWidth >= 8
      requires forall l :: 0 <= l < |count| ==> count[l] > 0
      ensures Valid() && |bits| == |count|
      ensures forall l :: 0 <= l < |count| - 1 ==> Pow2(bits[l]) <= count[l] < Pow2(bits[l] + 1)
      ensures forall c: nat, p: nat :: count[|count| - 1] == Pow2(c) && prefetch == Pow2(p) ==>
                bits[|count| - 1] == c - p
      ensures Pow2(txOffset) <= prefetch * channelWidth / 8 < Pow2(txOffset + 1)
    {
      var b: seq<nat> := [];
      for l := 0 to |count|
        invariant |b| == l
        invariant forall i :: 0 <= i < l ==> Pow2(b[i]) <= count[i] < Pow2(b[i] + 1)
      {
        var n := CalcLog2(count[l]);
        b := b + [n];
      }
      var last := |count| - 1;
      var fetch := CalcLog2(prefetch);
      LogIsMonotone(prefetch, fetch, count[last], b[last]);
      ghost var columns := b[last];
      b := b[last := b[last] - fetch];
      var tx := CalcLog2(prefetch * channelWidth / 8);
      this.bits, this.txOffset := b, tx;
      new;
      forall c: nat, p: nat | count[last] == Pow2(c) && prefetch == Pow2(p) ensures bits[last] == c - p {
        Log2OfPow2(c, columns);
        Log2OfPow2(p, fetch);
      }
    }

    /// The address splits into its n low bits and what is above them.
    static method SliceLowerBits(address: nat, n: nat) returns (low: nat, rest: nat)
      ensures low < Pow2(n) && address == rest * Pow2(n) + low
    {
      DivModSplit(address, Pow2(n));
      low := LowBits(address, n);
      rest := Shr(address, n);
    }

    /// From the last level to the first.
    method ChRaBaRoCo(byteAddress: nat) returns (vec: seq<int>)
      requires Valid()
      ensures Maps(bits, Down(Start, |bits|, 0), Shr(byteAddress, txOffset), vec)
      ensures LastLowest(bits, Shr(byteAddress, txOffset), vec)
    {
      hide Pow2, Pack, Width, Fits;
      var n := |bits|;
      var address := Shr(byteAddress, txOffset);
      ghost var whole := address;
      vec := seq(n, _ => -1);
      NothingTaken(vec, bits, whole);
      var i := n;
      while i > 0
        invariant 0 <= i <= n && |vec| == n && Fits(vec, bits, Down(Start, n, i))
        invariant whole == Pack(vec, bits, Down(Start, n, i)) + Pow2(Width(bits, Down(Start, n, i))) * address
      {
        i := i - 1;
        var low, rest := SliceLowerBits(address, bits[i]);
        Sliced(vec, bits, Down(Start, n, i + 1), i, whole, address, low, rest);
        vec, address := vec[i := low], rest;
      }
      AllSliced(vec, bits, Down(Start, n, 0), whole, address);
      FieldsDown(bits, vec, whole, address);
    }

    /// Channel first, then the column, then the levels from the rank to the row.
    method RoBaRaCoCh(byteAddress: nat) returns (vec: seq<int>)
      requires Valid()
      ensures Maps(bits, ChannelColumnOrder(|bits|), Shr(byteAddress, txOffset), vec)
      ensures FirstLastLowest(bits, Shr(byteAddress, txOffset), vec)
    {
      hide Pow2, Pack, Width, Fits;
      var n := |bits|;
      var address := Shr(byteAddress, txOffset);
      ghost var whole := address;
      vec := seq(n, _ => -1);
      NothingTaken(vec, bits, whole);
      var low, rest := SliceLowerBits(address, bits[0]);
      Sliced(vec, bits, Start, 0, whole, address, low, rest);
      vec, address := vec[0 := low], rest;
      low, rest := SliceLowerBits(address, bits[n - 1]);
      Sliced(vec, bits, Then(Start, 0), n - 1, whole, address, low, rest);
      vec, address := vec[n - 1 := low], rest;
      ghost var o := Then(Then(Start, 0), n - 1);
      TakesThen(Start, 0);
      TakesThen(Then(Start, 0), n - 1);
      for i := 1 to n - 1
        invariant |vec| == n && Fits(vec, bits, Up(o, 1, i))
        invariant whole == Pack(vec, bits, Up(o, 1, i)) + Pow2(Width(bits, Up(o, 1, i))) * address
      {
        low, rest := SliceLowerBits(address, bits[i]);
        Sliced(vec, bits, Up(o, 1, i), i, whole, address, low, rest);
        vec, address := vec[i := low], rest;
      }
      AllSliced(vec, bits, Up(o, 1, n - 1), whole, address);
      FieldsChannelColumn(bits, vec, whole, address);
    }

    /// Two column bits, the levels above the row, the other column bits, and everything left as the row.
    method SliceMop(address0: nat) returns (vec: seq<int>)
      requires Valid() && bits[|bits| - 1] >= 2
      ensures |vec| == |bits| && forall l :: 0 <= l < |vec| ==> vec[l] >= 0
      ensures forall l :: 0 <= l < |vec| && l != |vec| - 2 ==> vec[l] < Pow2(bits[l])
      ensures Pack(SplitColumn(vec), SplitBits(bits), MopOrder(|bits|)) == address0
      ensures forall l :: 0 <= l < |vec| ==> vec[l] == MopSlice(bits, address0, l)
    {
      hide Pow2, Pack, Width, Fits;
      var n, address := |bits|, address0;
      var column := n - 1;
      ghost var split := SplitBits(bits);
      ghost var fields: seq<int> := seq(n + 1, _ => -1);
      vec := seq(n, _ => -1);
      NothingTaken(fields, split, address0);
      var low, rest := SliceLowerBits(address, 2);
      Sliced(fields, split, Start, column, address0, address, low, rest);
      vec, address := vec[column := low], rest;
      fields := fields[column := low];
      ghost var o := Then(Start, column);
      TakesThen(Start, column);
      for l := 0 to n - 2
        invariant |vec| == n && |fields| == n + 1 && vec[column] == fields[column] == low
        invariant forall i :: 0 <= i < l ==> vec[i] == fields[i] && 0 <= vec[i] < Pow2(bits[i])
        invariant Fits(fields, split, Up(o, 0, l))
        invariant address0 == Pack(fields, split, Up(o, 0, l)) + Pow2(Width(split, Up(o, 0, l))) * address
      {
        var digit;
        digit, rest := SliceLowerBits(address, bits[l]);
        Sliced(fields, split, Up(o, 0, l), l, address0, address, digit, rest);
        vec, address := vec[l := digit], rest;
        fields := fields[l := digit];
      }
      o := Up(o, 0, n - 2);
      var high;
      high, rest := SliceLowerBits(address, bits[column] - 2);
      Sliced(fields, split, o, n, address0, address, high, rest);
      vec, address := vec[column := low + Shl(high, 2)], rest;
      fields := fields[n := high];
      vec := vec[n - 2 := address];
      MopDone(bits, vec, fields, low, high, address0, address);
      MopFields(bits, vec, fields, address0, address);
    }

    /// The MOP4CLXOR mapping: every level but the column is mixed with column bits.
    method Mop4ClXor(byteAddress: nat) returns (vec: seq<int>)
      requires Valid() && bits[|bits| - 1] >= 2
      ensures |vec| == |bits| && forall l :: 0 <= l < |vec| ==> vec[l] >= 0
      ensures forall l :: 0 <= l < |vec| && l != |vec| - 2 ==> vec[l] < Pow2(bits[l])
      ensures MopAddress(bits, vec) == Shr(byteAddress, txOffset)
      ensures MopMapped(bits, Shr(byteAddress, txOffset), vec)
    {
      hide MopSlice, MopMapped, Mixed, Mask, XorLevel, Pack, Pow2, SplitColumn, SplitBits, MopAddress, LowBits, Shr;
      hide Xor;
      var address := Shr(byteAddress, txOffset);
      vec := SliceMop(address);
      ghost var plain := vec;
      var column := |bits| - 1;
      var rowXorIndex := 0;
      MixStep(bits, plain, 0);
      for l := 0 to column
        invariant rowXorIndex == Sum(bits, l) && vec == Mixed(bits, plain, l)
      {
        MixStep(bits, plain, l);
        if bits[l] > 0 {
          var mask := LowBits(Shr(vec[column], rowXorIndex), bits[l]);
          vec := vec[l := XorLevel(vec[l], mask)];
          rowXorIndex := rowXorIndex + bits[l];
        }
      }
      Unmixed(bits, plain, vec);
      MopMixed(bits, address, plain);
    }
  }

  lemma {:induction false} NothingTaken(vec: seq<int>, bits: seq<nat>, address: nat)
    requires |vec| == |bits|
    ensures Fits(vec, bits, Start) && address == Pack(vec, bits, Start) + Pow2(Width(bits, Start)) * address
  {
  }

  lemma {:induction false} LogIsMonotone(a: nat, m: nat, b: nat, n: nat)
    requires a <= b && Pow2(m) <= a && b < Pow2(n + 1)
    ensures m <= n
  {
    if m > n { Pow2Monotone(n + 1, m); }
  }

  // ---------- bijections ----------

  ghost predicate InBits(bits: seq<nat>, vec: seq<int>) {
    |vec| == |bits| && forall l :: 0 <= l < |vec| ==> 0 <= vec[l] < Pow2(bits[l])
  }

  lemma {:induction false} WidthUp(bits: seq<nat>, o: Order, lo: nat, hi: nat)
    requires lo <= hi <= |bits|
    ensures Width(bits, Up(o, lo, hi)) == Width(bits, o) + Sum(bits, hi) - Sum(bits, lo)
  {
    if lo < hi {
      WidthUp(bits, o, lo, hi - 1);
    }
  }

  lemma {:induction false} WidthDown(bits: seq<nat>, hi: nat, lo: nat)
    requires lo <= hi <= |bits|
    ensures Width(bits, Down(Start, hi, lo)) == Sum(bits, hi) - Sum(bits, lo)
    decreases hi - lo
  {
    if lo < hi {
      WidthDown(bits, hi, lo + 1);
    }
  }

  lemma {:induction false} SumSame(a: seq<nat>, b: seq<nat>, k: nat)
    requires k <= |a| && k <= |b| && forall i :: 0 <= i < k ==> a[i] == b[i]
    ensures Sum(a, k) == Sum(b, k)
  {
    if k > 0 {
      SumSame(a, b, k - 1);
    }
  }

  /// All three mappers divide up the same address bits.
  lemma {:induction false} SameCapacity(bits: seq<nat>)
    requires |bits| >= 2
    ensures Width(bits, Down(Start, |bits|, 0)) == Width(bits, ChannelColumnOrder(|bits|)) == Sum(bits, |bits|)
    ensures bits[|bits| - 1] >= 2 ==> Width(SplitBits(bits), MopOrder(|bits|)) == Sum(bits, |bits|)
    ensures Covers(Down(Start, |bits|, 0), |bits|) && Covers(ChannelColumnOrder(|bits|), |bits|)
  {
    var n := |bits|;
    WidthDown(bits, n, 0);
    TakesThen(Start, 0);
    TakesThen(Then(Start, 0), n - 1);
    WidthUp(bits, Then(Then(Start, 0), n - 1), 1, n - 1);
    assert Sum(bits, 1) == Sum(bits, 0) + bits[0];
    assert Width(bits, Then(Start, 0)) == bits[0];
    assert Width(bits, Then(Then(Start, 0), n - 1)) == bits[0] + bits[n - 1];
    if bits[n - 1] >= 2 {
      WidthUp(SplitBits(bits), Then(Start, n - 1), 0, n - 2);
      SumSame(bits, SplitBits(bits), n - 2);
      assert Sum(bits, n - 1) == Sum(bits, n - 2) + bits[n - 2];
    }
  }

  lemma {:induction false} MixedInBits(bits: seq<nat>, v: seq<int>)
    requires |v| == |bits| > 0 && InBits(bits, v)
    ensures InBits(bits, Mixed(bits, v, |v| - 1)) && Mixed(bits, Mixed(bits, v, |v| - 1), |v| - 1) == v
  {
    MixedTwice(bits, v);
    var m := Mixed(bits, v, |v| - 1);
    forall l | 0 <= l < |m| ensures 0 <= m[l] < Pow2(bits[l]) {
      assert v[l] < Pow2(bits[l]);
    }
  }

  lemma {:induction false} MopTakes(n: nat)
    requires n >= 2
    ensures Covers(MopOrder(n), n + 1)
  {
    TakesThen(Start, n - 1);
    TakesThen(Up(Then(Start, n - 1), 0, n - 2), n);
    TakesThen(Then(Up(Then(Start, n - 1), 0, n - 2), n), n - 2);
  }

  lemma {:induction false} SplitFits(bits: seq<nat>, vec: seq<int>)
    requires |bits| >= 2 && bits[|bits| - 1] >= 2 && InBits(bits, vec)
    ensures Fits(SplitColumn(vec), SplitBits(bits), MopOrder(|bits|))
  {
    var n := |bits|;
    MopTakes(n);
    ShrRange(vec[n - 1], bits[n - 1] - 2, 2);
    hide Pow2;
    AllFit(SplitBits(bits), MopOrder(n), SplitColumn(vec));
  }

  lemma {:induction false} SplitUnique(bits: seq<nat>, v: seq<int>, w: seq<int>)
    requires |v| == |w| == |bits| >= 2 && v[|v| - 1] >= 0 && w[|w| - 1] >= 0
    requires forall l: nat :: Takes(MopOrder(|bits|), l) ==>
               l < |SplitColumn(v)| && SplitColumn(v)[l] == SplitColumn(w)[l]
    ensures v == w
  {
    var n := |bits|;
    MopTakes(n);
    assert Takes(MopOrder(n), n - 1) && Takes(MopOrder(n), n);
    DivModSplit(v[n - 1], Pow2(2));
    DivModSplit(w[n - 1], Pow2(2));
    forall l | 0 <= l < n - 1 ensures v[l] == w[l] {
      assert Takes(MopOrder(n), l);
    }
  }

  lemma {:induction false} FitsAll(bits: seq<nat>, o: Order, vec: seq<int>)
    requires Covers(o, |bits|) && Fits(vec, bits, o)
    ensures InBits(bits, vec)
  {
    forall l | 0 <= l < |vec| ensures 0 <= vec[l] < Pow2(bits[l]) {
      assert Takes(o, l);
      FitsAt(bits, o, vec, l);
    }
  }

  lemma {:induction false} FitsAt(bits: seq<nat>, o: Order, vec: seq<int>, l: nat)
    requires Fits(vec, bits, o) && Takes(o, l)
    ensures l < |vec| && 0 <= vec[l] < Pow2(bits[l])
  {
    if o.level != l {
      FitsAt(bits, o.before, vec, l);
    }
  }

  lemma {:induction false} AllFit(bits: seq<nat>, o: Order, vec: seq<int>)
    requires |vec| == |bits| && forall l: nat :: Takes(o, l) ==> l < |vec| && 0 <= vec[l] < Pow2(bits[l])
    ensures Fits(vec, bits, o)
  {
    if o.Then? {
      assert Takes(o, o.level) && forall l: nat :: Takes(o.before, l) ==> Takes(o, l);
      AllFit(bits, o.before, vec);
    }
  }

  /// MOP4CLXOR: within the geometry, coordinates and addresses below the capacity determine each other.
  lemma {:induction false} MopIsBijection(bits: seq<nat>, v: seq<int>, w: seq<int>)
    requires |bits| >= 2 && bits[|bits| - 1] >= 2 && InBits(bits, v) && InBits(bits, w)
    ensures MopAddress(bits, v) == MopAddress(bits, w) <==> v == w
    ensures 0 <= MopAddress(bits, v) < Pow2(Sum(bits, |bits|))
  {
    hide Pow2, Pack, Mixed, Width;
    var k := |bits| - 1;
    MixedInBits(bits, v);
    MixedInBits(bits, w);
    var v1, w1 := Mixed(bits, v, k), Mixed(bits, w, k);
    var o, split := MopOrder(|bits|), SplitBits(bits);
    SplitFits(bits, v1);
    SplitFits(bits, w1);
    PackInRange(SplitColumn(v1), split, o);
    SameCapacity(bits);
    if MopAddress(bits, v) == MopAddress(bits, w) {
      PackUnique(SplitColumn(v1), SplitColumn(w1), split, o);
      SplitUnique(bits, v1, w1);
    }
  }

  /// The row is the only coordinate that can leave the geometry, and does so exactly beyond the capacity.
  lemma {:induction false} MopInRange(bits: seq<nat>, vec: seq<int>)
    requires |vec| == |bits| >= 2 && bits[|bits| - 1] >= 2 && forall l :: 0 <= l < |vec| ==> vec[l] >= 0
    requires forall l :: 0 <= l < |vec| && l != |vec| - 2 ==> vec[l] < Pow2(bits[l])
    ensures InBits(bits, vec) <==> MopAddress(bits, vec) < Pow2(Sum(bits, |bits|))
  {
    hide Pow2, Pack, Mixed, Width, XorLevel, Mask;
    var n := |bits|;
    if vec[n - 2] < Pow2(bits[n - 2]) {
      MopIsBijection(bits, vec, vec);
    } else {
      MixedTwice(bits, vec);
      var plain := Mixed(bits, vec, n - 1);
      assert plain[n - 2] >= 0 && !(plain[n - 2] < Pow2(bits[n - 2]));
      RowBeyond(bits, vec, plain);
    }
  }

  lemma {:induction false} RowBeyond(bits: seq<nat>, vec: seq<int>, plain: seq<int>)
    requires |vec| == |bits| >= 2 && bits[|bits| - 1] >= 2 && forall l :: 0 <= l < |vec| ==> vec[l] >= 0
    requires forall l :: 0 <= l < |vec| && l != |vec| - 2 ==> vec[l] < Pow2(bits[l])
    requires plain == Mixed(bits, vec, |vec| - 1) && plain[|bits| - 2] >= Pow2(bits[|bits| - 2])
    ensures MopAddress(bits, vec) >= Pow2(Sum(bits, |bits|))
  {
    hide Mixed, Mask, XorLevel, Pow2, Pack, Width;
    var n := |bits|;
    var o, split, fields := Then(Up(Then(Start, n - 1), 0, n - 2), n), SplitBits(bits), SplitColumn(plain);
    TakesThen(Start, n - 1);
    TakesThen(Up(Then(Start, n - 1), 0, n - 2), n);
    MixedTwice(bits, vec);
    SplitInRange(plain[n - 1], bits[n - 1]);
    forall l: nat | Takes(o, l) ensures l < |fields| && 0 <= fields[l] < Pow2(split[l]) {
      assert l < n - 2 ==> vec[l] < Pow2(bits[l]) && plain[l] < Pow2(bits[l]);
    }
    AllFit(split, o, fields);
    TopBeyond(fields, split, o, n - 2);
    SameCapacity(bits);
  }

  lemma {:induction false} SplitInRange(c: nat, b: nat)
    requires b >= 2 && c < Pow2(b)
    ensures LowBits(c, 2) < Pow2(2) && Shr(c, 2) < Pow2(b - 2)
  {
    ShrRange(c, b - 2, 2);
  }

  lemma {:induction false} TopBeyond(vec: seq<int>, bits: seq<nat>, o: Order, l: nat)
    requires Fits(vec, bits, o) && l < |vec| && vec[l] >= Pow2(bits[l])
    ensures Pack(vec, bits, Then(o, l)) >= Pow2(Width(bits, Then(o, l)))
  {
    hide Pow2;
    PackInRange(vec, bits, o);
    Pow2Add(Width(bits, o), bits[l]);
    MulLe(Pow2(bits[l]), vec[l], Pow2(Width(bits, o)));
  }

  // ---------- with the row indirection on top ----------

  ghost function Redirected(rit: Rit.RowIndirectionTable, geometry: FlatBanks.Geometry, vec: seq<int>): seq<int>
    requires geometry.Names(vec) && |rit.table| == geometry.NumBanks()
    reads rit
  {
    vec[geometry.rowLevel := Rit.Where(rit.table[geometry.BankOf(vec)], vec[geometry.rowLevel])]
  }

  /// The geometry has room for every coordinate of the mapping.
  ghost predicate Holds(geometry: FlatBanks.Geometry, bits: seq<nat>, rows: int) {
    geometry.Valid() && |geometry.count| == |bits| && geometry.rowLevel < |bits| &&
    Pow2(bits[geometry.rowLevel]) <= rows &&
    forall l :: geometry.rankLevel <= l <= geometry.bankLevel ==> Pow2(bits[l]) <= geometry.count[l]
  }

  lemma {:induction false} InBitsNames(geometry: FlatBanks.Geometry, bits: seq<nat>, rows: int, vec: seq<int>)
    requires Holds(geometry, bits, rows) && InBits(bits, vec)
    ensures geometry.Names(vec) && 0 <= vec[geometry.rowLevel] < rows
  {
    forall l | geometry.rankLevel <= l <= geometry.bankLevel ensures 0 <= vec[l] < geometry.count[l] {
      assert vec[l] < Pow2(bits[l]);
    }
  }

  /// Mapping and redirection together never send two addresses below the capacity to the same place.
  lemma {:induction false} MappedAndRedirected(rit: Rit.RowIndirectionTable, geometry: FlatBanks.Geometry, rows: int,
                                               bits: seq<nat>, o: Order, a: nat, v: seq<int>, b: nat, w: seq<int>)
    requires rit.Valid(rows) && Holds(geometry, bits, rows) && |rit.table| == geometry.NumBanks() && Covers(o, |bits|)
    requires a < Pow2(Width(bits, o)) && b < Pow2(Width(bits, o)) && Maps(bits, o, a, v) && Maps(bits, o, b, w)
    ensures geometry.Names(v) && geometry.Names(w)
    ensures Redirected(rit, geometry, v) == Redirected(rit, geometry, w) <==> a == b
    ensures 0 <= Redirected(rit, geometry, v)[geometry.rowLevel] < rows
  {
    FitsAll(bits, o, v);
    FitsAll(bits, o, w);
    InBitsNames(geometry, bits, rows, v);
    InBitsNames(geometry, bits, rows, w);
    MapsIsBijection(bits, o, a, v, b, w);
    rit.NeverAliases(v, w, geometry, rows);
  }

  lemma {:induction false} MopAndRedirected(rit: Rit.RowIndirectionTable, geometry: FlatBanks.Geometry, rows: int,
                                            bits: seq<nat>, v: seq<int>, w: seq<int>)
    requires rit.Valid(rows) && Holds(geometry, bits, rows) && |rit.table| == geometry.NumBanks()
    requires |bits| >= 2 && bits[|bits| - 1] >= 2 && InBits(bits, v) && InBits(bits, w)
    ensures geometry.Names(v) && geometry.Names(w)
    ensures Redirected(rit, geometry, v) == Redirected(rit, geometry, w) <==> MopAddress(bits, v) == MopAddress(bits, w)
    ensures 0 <= Redirected(rit, geometry, v)[geometry.rowLevel] < rows
  {
    InBitsNames(geometry, bits, rows, v);
    InBitsNames(geometry, bits, rows, w);
    MopIsBijection(bits, v, w);
    rit.NeverAliases(v, w, geometry, rows);
  }
}
