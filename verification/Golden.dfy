/** The flat reference for sparse attention (src/golden/elemax_sdpa.cpp).  Floating-point operations are functions
    about which nothing is known, so every order of evaluation below is the only one.  */
module Golden {
  import opened Bits

  /// Half- and single-precision values, the conversions between them, and the operations on the latter.
  datatype Arith<!H, !F> = Arith(toFloat: H -> F, toHalf: F -> H, mul: (F, F) -> F, add: (F, F) -> F,
                                 relu: F -> F, positive: F -> bool, zero: F)

  datatype Sizes = Sizes(batch: nat, heads: nat, kvHeads: nat, len: nat, dim: nat) {
    /// Rows of queries, one for each batch, head and position; and rows of keys.
    function Rows(): nat { batch * heads * len }
    function KeyRows(): nat { batch * kvHeads * len }
  }

  datatype Tensors<H> = Tensors(q: seq<H>, k: seq<H>, v: seq<H>, we: seq<H>) {
    ghost predicate Fit(z: Sizes) {
      |q| == z.Rows() * z.dim && |we| == z.Rows() && |k| == |v| == z.KeyRows() * z.dim && z.kvHeads > 0
    }
  }

  // ---------- what one output is ----------

  function Zero<H, F>(a: Arith<H, F>): H { a.toHalf(a.zero) }

  ghost function At<H, F>(a: Arith<H, F>, s: seq<H>, i: int): H {
    if 0 <= i < |s| then s[i] else Zero(a)
  }

  /// The running sum of products of n pairs, from first to last.
  ghost function Dot<H, F>(a: Arith<H, F>, q: seq<H>, qi: nat, k: seq<H>, ki: nat, n: nat): F {
    if n == 0 then a.zero
    else a.add(Dot(a, q, qi, k, ki, n - 1), a.mul(a.toFloat(At(a, q, qi + n - 1)), a.toFloat(At(a, k, ki + n - 1))))
  }

  function Relu<H, F>(a: Arith<H, F>, score: H): F { a.relu(a.toFloat(score)) }

  function Weight<H, F>(a: Arith<H, F>, we: H, score: H): H {
    a.toHalf(a.mul(a.toFloat(we), Relu(a, score)))
  }

  /// Rows are numbered batch by batch, head by head, position by position.
  function Row(b: nat, h: nat, x: nat, heads: nat, len: nat): nat { (b * heads + h) * len + x }

  function KvHead(h: nat, heads: nat, kvHeads: nat): nat
    requires heads > 0
  {
    h * kvHeads / heads
  }

  /// The row of keys that query row r starts with: its batch, and the head its query group shares.
  ghost function FirstKey(z: Sizes, r: nat): nat {
    if z.len == 0 || z.heads == 0 then 0
    else Row(r / z.len / z.heads, KvHead(r / z.len % z.heads, z.heads, z.kvHeads), 0, z.kvHeads, z.len)
  }

  ghost function Score<H, F>(a: Arith<H, F>, z: Sizes, t: Tensors<H>, r: nat, sk: nat): H {
    a.toHalf(Dot(a, t.q, r * z.dim, t.k, (FirstKey(z, r) + sk) * z.dim, z.dim))
  }

  /// The running sum over the first n keys, those with a positive score.
  ghost function Pv<H, F>(a: Arith<H, F>, z: Sizes, t: Tensors<H>, r: nat, d: nat, n: nat): F {
    if n == 0 then a.zero
    else
      var before, score := Pv(a, z, t, r, d, n - 1), Score(a, z, t, r, n - 1);
      if a.positive(Relu(a, score)) then
        a.add(before, a.mul(a.toFloat(Weight(a, At(a, t.we, r), score)),
                            a.toFloat(At(a, t.v, (FirstKey(z, r) + n - 1) * z.dim + d))))
      else before
  }

  /// The first n outputs, row after row.
  ghost function Outputs<H, F>(a: Arith<H, F>, z: Sizes, t: Tensors<H>, n: nat): (s: seq<F>)
    ensures |s| == n
  {
    if n == 0 then [] else Outputs(a, z, t, n - 1) + [OutputAt(a, z, t, n - 1)]
  }

  ghost function OutputAt<H, F>(a: Arith<H, F>, z: Sizes, t: Tensors<H>, i: nat): F {
    if z.dim == 0 then a.zero else Pv(a, z, t, i / z.dim, i % z.dim, z.len)
  }

  ghost predicate Done<H, F>(a: Arith<H, F>, z: Sizes, t: Tensors<H>, out: seq<F>, n: nat) {
    |out| == z.Rows() * z.dim && n <= |out| && out[..n] == Outputs(a, z, t, n)
  }

  lemma {:induction false} OneMoreDone<H, F>(a: Arith<H, F>, z: Sizes, t: Tensors<H>, out: seq<F>, r: nat, d: nat, x: F)
    requires d < z.dim && Done(a, z, t, out, r * z.dim + d) && r * z.dim + d < |out| && x == Pv(a, z, t, r, d, z.len)
    ensures Done(a, z, t, out[r * z.dim + d := x], r * z.dim + d + 1)
  {
    hide Pv;
    var i := r * z.dim + d;
    DigitDivMod(r, d, z.dim);
    assert out[i := x][..i + 1] == out[..i] + [x];
  }

  // ---------- indices ----------

  /// The offset of a row, as the loops compute it.
  function Offset(b: nat, h: nat, x: nat, heads: nat, len: nat, w: nat): (i: nat)
    ensures i == Row(b, h, x, heads, len) * w
  {
    RowIndex(b, h, x, heads, len, w);
    b * (heads * len * w) + h * (len * w) + x * w
  }

  lemma {:induction false} RowIndex(b: nat, h: nat, x: nat, heads: nat, len: nat, w: nat)
    ensures b * (heads * len * w) + h * (len * w) + x * w == ((b * heads + h) * len + x) * w
  {
    Reassociate(b * heads + h, len, x, w);
    Reassociate(b, heads, h, len * w);
    assert heads * (len * w) == heads * len * w;
  }

  lemma {:induction false} RowInRange(b: nat, h: nat, x: nat, batch: nat, heads: nat, len: nat)
    requires b < batch && h < heads && x < len
    ensures Row(b, h, x, heads, len) < batch * heads * len
  {
    DigitRange(b, batch, h, heads);
    DigitRange(b * heads + h, batch * heads, x, len);
  }

  lemma {:induction false} KvHeadInRange(h: nat, heads: nat, kvHeads: nat)
    requires h < heads && kvHeads > 0
    ensures KvHead(h, heads, kvHeads) < kvHeads
  {
    var q := KvHead(h, heads, kvHeads);
    DivModSplit(h * kvHeads, heads);
    assert h * kvHeads < heads * kvHeads;
    if q >= kvHeads { MulLe(kvHeads, q, heads); assert false; }
  }

  /// Consecutive heads share a head of keys: head g of the keys serves the heads from g * heads / kvHeads on, up to
  /// where the next one begins; where the heads divide evenly these are groups of heads / kvHeads.
  lemma {:induction false} HeadsAreGrouped(h: nat, heads: nat, kvHeads: nat, g: nat)
    requires heads > 0
    ensures KvHead(h, heads, kvHeads) == g <==> g * heads <= h * kvHeads < (g + 1) * heads
    ensures forall group: nat :: kvHeads > 0 && heads == kvHeads * group ==>
              (KvHead(h, heads, kvHeads) == g <==> g * group <= h < (g + 1) * group)
  {
    DivModSplit(h * kvHeads, heads);
    var q := KvHead(h, heads, kvHeads);
    if g * heads <= h * kvHeads < (g + 1) * heads {
      DigitUnique(g, h * kvHeads - g * heads, q, h * kvHeads % heads, heads);
    } else {
      assert (q + 1) * heads == q * heads + heads;
    }
    forall group: nat | kvHeads > 0 && heads == kvHeads * group
      ensures g * heads <= h * kvHeads < (g + 1) * heads <==> g * group <= h < (g + 1) * group
    {
      Associate(g, group, kvHeads);
      Associate(g + 1, group, kvHeads);
      LessTimes(g * group, h, kvHeads);
      LessTimes(h + 1, (g + 1) * group, kvHeads);
    }
  }

  lemma {:induction false} LessTimes(x: int, y: int, m: nat)
    requires m > 0
    ensures x <= y <==> x * m <= y * m
  {
    if x <= y { MulLe(x, y, m); } else { MulLe(y + 1, x, m); }
  }

  /// The rows as the nested loops count them.
  lemma {:induction false} RowDecoded(z: Sizes, b: nat, h: nat, sq: nat)
    requires b < z.batch && h < z.heads && sq < z.len && z.kvHeads > 0
    ensures Row(b, h, sq, z.heads, z.len) < z.Rows()
    ensures FirstKey(z, Row(b, h, sq, z.heads, z.len)) == Row(b, KvHead(h, z.heads, z.kvHeads), 0, z.kvHeads, z.len)
  {
    hide KvHead;
    RowInRange(b, h, sq, z.batch, z.heads, z.len);
    DigitDivMod(b * z.heads + h, sq, z.len);
    DigitDivMod(b, h, z.heads);
  }

  lemma {:induction false} KeyRowInRange(z: Sizes, b: nat, h: nat, sk: nat)
    requires b < z.batch && h < z.heads && sk < z.len && z.kvHeads > 0
    ensures Row(b, KvHead(h, z.heads, z.kvHeads), sk, z.kvHeads, z.len) < z.KeyRows()
    ensures Row(b, KvHead(h, z.heads, z.kvHeads), sk, z.kvHeads, z.len) ==
            Row(b, KvHead(h, z.heads, z.kvHeads), 0, z.kvHeads, z.len) + sk
  {
    KvHeadInRange(h, z.heads, z.kvHeads);
    hide KvHead;
    RowInRange(b, KvHead(h, z.heads, z.kvHeads), sk, z.batch, z.kvHeads, z.len);
  }

  lemma {:induction false} ElementInRange(row: nat, rows: nat, d: nat, dim: nat)
    requires row < rows && d < dim
    ensures row * dim + d < rows * dim
  {
    DigitRange(row, rows, d, dim);
  }

  /// Where a row of outputs starts, and how many outputs there are.
  ghost function Start(z: Sizes, b: nat, h: nat, x: nat): nat { Row(b, h, x, z.heads, z.len) * z.dim }

  function Size(z: Sizes): nat { z.Rows() * z.dim }

  // ---------- the model ----------

  class ElemaxSdpa<H, F> {
    const a: Arith<H, F>
    const z: Sizes
    var s: seq<H>
    var bitmask: seq<bool>
    var p: seq<H>

    ghost predicate Valid()
      reads this
    {
      |s| == |bitmask| == |p| == z.Rows() * z.len
    }

    constructor (a: Arith<H, F>, z: Sizes)
      ensures Valid() && this.a == a && this.z == z
    {
      this.a, this.z := a, z;
      var n := z.batch * z.heads * z.len * z.len;
      s, bitmask, p := seq(n, _ => Zero(a)), seq(n, _ => false), seq(n, _ => Zero(a));
    }

    /// Query row r has its scores, mask bits and weights for the first n keys, from index `base` on.
    ghost predicate Scored(t: Tensors<H>, r: nat, base: nat, n: nat)
      reads this
    {
      Valid() && n <= z.len && base + z.len <= |s| && forall sk :: 0 <= sk < n ==> ScoredAt(t, r, base, sk)
    }

    ghost predicate ScoredAt(t: Tensors<H>, r: nat, base: nat, sk: nat)
      reads this
    {
      base + sk < |s| && base + sk < |bitmask| && base + sk < |p| &&
      var score := Score(a, z, t, r, sk);
      s[base + sk] == score && bitmask[base + sk] == a.positive(Relu(a, score)) &&
      p[base + sk] == Weight(a, At(a, t.we, r), score)
    }

    method ScoreRow(t: Tensors<H>, b: nat, h: nat, sq: nat)
      requires Valid() && t.Fit(z) && b < z.batch && h < z.heads && sq < z.len
      modifies this
      ensures Scored(t, Row(b, h, sq, z.heads, z.len), Row(b, h, sq, z.heads, z.len) * z.len, z.len)
    {
      hide Score, Row, Sizes.Rows, Sizes.KeyRows, ScoredAt;
      ghost var base := Row(b, h, sq, z.heads, z.len) * z.len;
      RowDecoded(z, b, h, sq);
      RowSpan(Row(b, h, sq, z.heads, z.len), z.Rows(), z.len);
      for sk := 0 to z.len
        invariant Scored(t, Row(b, h, sq, z.heads, z.len), base, sk)
      {
        ScoreOne(t, b, h, sq, sk, base);
      }
    }

    /// One key of the row.
    method ScoreOne(t: Tensors<H>, b: nat, h: nat, sq: nat, sk: nat, ghost base: nat)
      requires t.Fit(z) && b < z.batch && h < z.heads && sq < z.len && sk < z.len
      requires base == Row(b, h, sq, z.heads, z.len) * z.len && Scored(t, Row(b, h, sq, z.heads, z.len), base, sk)
      modifies this
      ensures Scored(t, Row(b, h, sq, z.heads, z.len), base, sk + 1)
    {
      hide Score, FirstKey, Row, Offset, KvHead, Sizes.Rows, Sizes.KeyRows, Relu, Weight, Scored;
      ghost var r := Row(b, h, sq, z.heads, z.len);
      var kvh := KvHead(h, z.heads, z.kvHeads);
      RowDecoded(z, b, h, sq);
      KeyRowInRange(z, b, h, sk);
      var qIdx := Offset(b, h, sq, z.heads, z.len, z.dim);
      var kIdx := Offset(b, kvh, sk, z.kvHeads, z.len, z.dim);
      var score := DotProduct(t, qIdx, kIdx, r, FirstKey(z, r) + sk);
      ScoreIs(a, z, t, r, sk);
      var sIdx := Offset(b, h, sq, z.heads, z.len, z.len) + sk;
      var weIdx := Offset(b, h, sq, z.heads, z.len, 1);
      PutScore(t, r, base, sk, sIdx, a.toHalf(score), t.we[weIdx]);
    }

    method PutScore(t: Tensors<H>, ghost r: nat, ghost base: nat, ghost sk: nat, sIdx: nat, half: H, we: H)
      requires Scored(t, r, base, sk) && sk < z.len && sIdx == base + sk && half == Score(a, z, t, r, sk) &&
               we == At(a, t.we, r)
      modifies this
      ensures Scored(t, r, base, sk + 1)
    {
      hide Score, At;
      var relu := a.relu(a.toFloat(half));
      s := s[sIdx := half];
      bitmask := bitmask[sIdx := a.positive(relu)];
      p := p[sIdx := a.toHalf(a.mul(a.toFloat(we), relu))];
      forall j | 0 <= j < sk + 1 ensures ScoredAt(t, r, base, j) {
        assert j < sk ==> old(ScoredAt(t, r, base, j));
      }
    }

    method DotProduct(t: Tensors<H>, qIdx: nat, kIdx: nat, ghost r: nat, ghost kr: nat) returns (score: F)
      requires t.Fit(z) && r < z.Rows() && kr < z.KeyRows() && qIdx == r * z.dim && kIdx == kr * z.dim
      ensures score == Dot(a, t.q, qIdx, t.k, kIdx, z.dim)
    {
      score := a.zero;
      for d := 0 to z.dim
        invariant score == Dot(a, t.q, qIdx, t.k, kIdx, d)
      {
        ElementInRange(r, z.Rows(), d, z.dim);
        ElementInRange(kr, z.KeyRows(), d, z.dim);
        score := a.add(score, a.mul(a.toFloat(t.q[qIdx + d]), a.toFloat(t.k[kIdx + d])));
      }
    }

    /// The sparse sum for one output of a row.
    method SumPv(t: Tensors<H>, b: nat, h: nat, sq: nat, d: nat) returns (acc: F)
      requires t.Fit(z) && b < z.batch && h < z.heads && sq < z.len && d < z.dim
      requires Scored(t, Row(b, h, sq, z.heads, z.len), Row(b, h, sq, z.heads, z.len) * z.len, z.len)
      ensures acc == Pv(a, z, t, Row(b, h, sq, z.heads, z.len), d, z.len)
    {
      hide Score, FirstKey, Row, Offset, KvHead, Sizes.Rows, Sizes.KeyRows, Relu, Weight;
      ghost var r := Row(b, h, sq, z.heads, z.len);
      var kvh := KvHead(h, z.heads, z.kvHeads);
      RowDecoded(z, b, h, sq);
      acc := a.zero;
      for sk := 0 to z.len
        invariant acc == Pv(a, z, t, r, d, sk)
      {
        var sIdx := Offset(b, h, sq, z.heads, z.len, z.len) + sk;
        assert ScoredAt(t, r, r * z.len, sk);
        if bitmask[sIdx] {
          KeyRowInRange(z, b, h, sk);
          ElementInRange(Row(b, kvh, sk, z.kvHeads, z.len), z.KeyRows(), d, z.dim);
          var vIdx := Offset(b, kvh, sk, z.kvHeads, z.len, z.dim) + d;
          acc := a.add(acc, a.mul(a.toFloat(p[sIdx]), a.toFloat(t.v[vIdx])));
        }
      }
    }

    method ComputeRow(t: Tensors<H>, b: nat, h: nat, sq: nat, out0: seq<F>) returns (out: seq<F>)
      requires Valid() && t.Fit(z) && b < z.batch && h < z.heads && sq < z.len
      requires Done(a, z, t, out0, Start(z, b, h, sq))
      modifies this
      ensures Valid() && Done(a, z, t, out, Start(z, b, h, sq) + z.dim)
    {
      hide Row, Pv, Sizes.Rows, Offset, Outputs;
      ghost var r := Row(b, h, sq, z.heads, z.len);
      ScoreRow(t, b, h, sq);
      RowDecoded(z, b, h, sq);
      RowSpan(r, z.Rows(), z.dim);
      out := out0;
      for d := 0 to z.dim
        invariant Scored(t, r, r * z.len, z.len) && Done(a, z, t, out, r * z.dim + d)
      {
        var acc := SumPv(t, b, h, sq, d);
        var outIdx := Offset(b, h, sq, z.heads, z.len, z.dim) + d;
        OneMoreDone(a, z, t, out, r, d, acc);
        out := out[outIdx := acc];
      }
    }

    method ComputeHead(t: Tensors<H>, b: nat, h: nat, out0: seq<F>) returns (out: seq<F>)
      requires Valid() && t.Fit(z) && b < z.batch && h < z.heads
      requires Done(a, z, t, out0, Start(z, b, h, 0))
      modifies this
      ensures Valid() && Done(a, z, t, out, Start(z, b, h + 1, 0))
    {
      hide Start, Sizes.Rows, Done;
      out := out0;
      for sq := 0 to z.len
        invariant Valid() && Done(a, z, t, out, Start(z, b, h, sq))
      {
        out := ComputeRow(t, b, h, sq, out);
        NextRow(z, b, h, sq);
      }
      NextHead(z, b, h);
    }

    /// The whole reference: every output, in the order of the output tensor.
    method Compute(t: Tensors<H>) returns (out: seq<F>)
      requires Valid() && t.Fit(z)
      modifies this
      ensures Valid() && out == Outputs(a, z, t, Size(z))
    {
      hide Start, Sizes.Rows, Done, Size;
      out := seq(Size(z), _ => a.zero);
      NothingDone(a, z, t, out);
      for b := 0 to z.batch
        invariant Valid() && Done(a, z, t, out, Start(z, b, 0, 0))
      {
        for h := 0 to z.heads
          invariant Valid() && Done(a, z, t, out, Start(z, b, h, 0))
        {
          out := ComputeHead(t, b, h, out);
        }
        NextBatch(z, b);
      }
      AllDone(a, z, t, out);
    }
  }

  lemma {:induction false} RowSpan(r: nat, rows: nat, len: nat)
    requires r < rows
    ensures r * len + len <= rows * len
  {
    MulLe(r + 1, rows, len);
  }

  lemma {:induction false} NothingDone<H, F>(a: Arith<H, F>, z: Sizes, t: Tensors<H>, out: seq<F>)
    requires |out| == Size(z)
    ensures Done(a, z, t, out, Start(z, 0, 0, 0))
  {
    assert out[..0] == [];
  }

  lemma {:induction false} AllDone<H, F>(a: Arith<H, F>, z: Sizes, t: Tensors<H>, out: seq<F>)
    requires Done(a, z, t, out, Start(z, z.batch, 0, 0))
    ensures out == Outputs(a, z, t, Size(z))
  {
    assert out[..|out|] == out;
  }

  lemma {:induction false} NextRow(z: Sizes, b: nat, h: nat, x: nat)
    ensures Start(z, b, h, x + 1) == Start(z, b, h, x) + z.dim
  {
    assert Row(b, h, x + 1, z.heads, z.len) == Row(b, h, x, z.heads, z.len) + 1;
  }

  lemma {:induction false} NextHead(z: Sizes, b: nat, h: nat)
    ensures Start(z, b, h + 1, 0) == Start(z, b, h, z.len)
  {
  }

  lemma {:induction false} NextBatch(z: Sizes, b: nat)
    ensures Start(z, b + 1, 0, 0) == Start(z, b, z.heads, 0)
  {
  }

  lemma {:induction false} ScoreIs<H, F>(a: Arith<H, F>, z: Sizes, t: Tensors<H>, r: nat, sk: nat)
    ensures Score(a, z, t, r, sk) == a.toHalf(Dot(a, t.q, r * z.dim, t.k, (FirstKey(z, r) + sk) * z.dim, z.dim))
  {
  }
}
