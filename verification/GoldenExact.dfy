/** What the attention reference (src/golden/elemax_sdpa.cpp) computes where arithmetic is exact.  */
module GoldenExact {
  import opened Bits
  import opened Golden

  function ReLU(x: real): real { if x > 0.0 then x else 0.0 }

  /// Arithmetic with no rounding: halves and floats are all reals.
  function Exact(): Arith<real, real> {
    Arith((x: real) => x, (x: real) => x, (x: real, y: real) => x * y, (x: real, y: real) => x + y,
          (x: real) => ReLU(x), (x: real) => x > 0.0, 0.0)
  }

  /// The inner product of two vectors of n elements, from qi and from ki on.
  ghost function Inner(q: seq<real>, qi: nat, k: seq<real>, ki: nat, n: nat): real
    requires qi + n <= |q| && ki + n <= |k|
  {
    if n == 0 then 0.0 else Inner(q, qi, k, ki, n - 1) + q[qi + n - 1] * k[ki + n - 1]
  }

  /// Query row qr and the first n keys of a head whose keys start with row kr.
  ghost predicate InTensors(z: Sizes, t: Tensors<real>, qr: nat, kr: nat, n: nat) {
    qr < |t.we| && qr * z.dim + z.dim <= |t.q| && (kr + n) * z.dim <= |t.k| && |t.v| == |t.k|
  }

  /// The sum over the first n keys of weight times rectified score times value.
  ghost function Attention(z: Sizes, t: Tensors<real>, qr: nat, kr: nat, d: nat, n: nat): real
    requires InTensors(z, t, qr, kr, n) && d < z.dim
  {
    if n == 0 then 0.0
    else
      KeyWithin(z, t, qr, kr, n);
      Attention(z, t, qr, kr, d, n - 1) +
      t.we[qr] * ReLU(Inner(t.q, qr * z.dim, t.k, (kr + n - 1) * z.dim, z.dim)) * t.v[(kr + n - 1) * z.dim + d]
  }

  lemma {:induction false} KeyWithin(z: Sizes, t: Tensors<real>, qr: nat, kr: nat, n: nat)
    requires InTensors(z, t, qr, kr, n) && n > 0
    ensures InTensors(z, t, qr, kr, n - 1) && (kr + n - 1) * z.dim + z.dim <= |t.k|
  {
    assert (kr + n - 1) * z.dim + z.dim == (kr + n) * z.dim;
  }

  lemma {:induction false} ExactDot(q: seq<real>, qi: nat, k: seq<real>, ki: nat, n: nat)
    requires qi + n <= |q| && ki + n <= |k|
    ensures Dot(Exact(), q, qi, k, ki, n) == Inner(q, qi, k, ki, n)
  {
    if n > 0 { ExactDot(q, qi, k, ki, n - 1); }
  }

  lemma {:induction false} ExactSum(z: Sizes, t: Tensors<real>, qr: nat, d: nat, n: nat)
    requires InTensors(z, t, qr, FirstKey(z, qr), n) && d < z.dim
    ensures Pv(Exact(), z, t, qr, d, n) == Attention(z, t, qr, FirstKey(z, qr), d, n)
  {
    hide FirstKey, Pv, Attention, InTensors, Dot, Inner, Exact, ReLU;
    var kr := FirstKey(z, qr);
    if n == 0 {
      NoKeys(z, t, qr, kr, d);
    } else {
      var ki := KeyStart(z, t, qr, kr, d, n);
      ExactSum(z, t, qr, d, n - 1);
      ExactDot(t.q, qr * z.dim, t.k, ki, z.dim);
      ExactStep(z, t, qr, d, n, Inner(t.q, qr * z.dim, t.k, ki, z.dim), ki);
    }
  }

  lemma {:induction false} NoKeys(z: Sizes, t: Tensors<real>, qr: nat, kr: nat, d: nat)
    requires InTensors(z, t, qr, kr, 0) && d < z.dim
    ensures Pv(Exact(), z, t, qr, d, 0) == Attention(z, t, qr, kr, d, 0) == 0.0
  {
  }

  /// Where the last of the first n keys starts, and what it adds to the sum.
  lemma {:induction false} KeyStart(z: Sizes, t: Tensors<real>, qr: nat, kr: nat, d: nat, n: nat) returns (ki: nat)
    requires InTensors(z, t, qr, kr, n) && n > 0 && d < z.dim
    ensures ki == (kr + n - 1) * z.dim && qr * z.dim + z.dim <= |t.q| && ki + z.dim <= |t.k| && ki + d < |t.v|
    ensures qr < |t.we| && InTensors(z, t, qr, kr, n - 1)
    ensures Attention(z, t, qr, kr, d, n) ==
            Attention(z, t, qr, kr, d, n - 1) + t.we[qr] * ReLU(Inner(t.q, qr * z.dim, t.k, ki, z.dim)) * t.v[ki + d]
  {
    KeyWithin(z, t, qr, kr, n);
    ki := (kr + n - 1) * z.dim;
    hide Inner, ReLU;
  }

  /// One key more, skipped if its score is not positive.
  lemma {:induction false} ExactStep(z: Sizes, t: Tensors<real>, qr: nat, d: nat, n: nat, score: real, ki: nat)
    requires n > 0 && qr < |t.we| && ki == (FirstKey(z, qr) + n - 1) * z.dim && ki + d < |t.v|
    requires score == Dot(Exact(), t.q, qr * z.dim, t.k, ki, z.dim)
    ensures Pv(Exact(), z, t, qr, d, n) == Pv(Exact(), z, t, qr, d, n - 1) + t.we[qr] * ReLU(score) * t.v[ki + d]
  {
    hide FirstKey, Dot, Pv, At;
    var a := Exact();
    PvMore(a, z, t, qr, d, n, score, ki + d);
    AtIndex(a, t.v, ki + d);
    AtIndex(a, t.we, qr);
  }

  lemma {:induction false} AtIndex(a: Arith<real, real>, s: seq<real>, i: nat)
    requires i < |s|
    ensures At(a, s, i) == s[i]
  {
  }

  lemma {:induction false} PvMore<H, F>(a: Arith<H, F>, z: Sizes, t: Tensors<H>, qr: nat, d: nat, n: nat, score: H,
                                        vi: nat)
    requires n > 0 && vi == (FirstKey(z, qr) + n - 1) * z.dim + d && score == Score(a, z, t, qr, n - 1)
    ensures Pv(a, z, t, qr, d, n) ==
            if a.positive(Relu(a, score)) then
              a.add(Pv(a, z, t, qr, d, n - 1),
                    a.mul(a.toFloat(Weight(a, At(a, t.we, qr), score)), a.toFloat(At(a, t.v, vi))))
            else Pv(a, z, t, qr, d, n - 1)
  {
    hide Score, FirstKey, At, Weight, Relu;
  }

  lemma {:induction false} OutputsAt<H, F>(a: Arith<H, F>, z: Sizes, t: Tensors<H>, n: nat, i: nat)
    requires i < n
    ensures Outputs(a, z, t, n)[i] == OutputAt(a, z, t, i)
  {
    if i < n - 1 { OutputsAt(a, z, t, n - 1, i); }
  }

  lemma {:induction false} RowsInTensors(z: Sizes, t: Tensors<real>, b: nat, h: nat, sq: nat, g: nat)
    requires t.Fit(z) && b < z.batch && h < z.heads && sq < z.len && g < z.kvHeads
    ensures InTensors(z, t, Row(b, h, sq, z.heads, z.len), Row(b, g, 0, z.kvHeads, z.len), z.len)
  {
    hide Row, Sizes.Rows, Sizes.KeyRows;
    RowsOf(z, b, h, sq, g);
    MulLe(Row(b, h, sq, z.heads, z.len) + 1, z.Rows(), z.dim);
    MulLe(Row(b, g, 0, z.kvHeads, z.len) + z.len, z.KeyRows(), z.dim);
  }

  lemma {:induction false} RowsOf(z: Sizes, b: nat, h: nat, sq: nat, g: nat)
    requires b < z.batch && h < z.heads && sq < z.len && g < z.kvHeads
    ensures Row(b, h, sq, z.heads, z.len) < z.Rows()
    ensures Row(b, g, 0, z.kvHeads, z.len) + z.len <= z.KeyRows()
  {
    RowInRange(b, h, sq, z.batch, z.heads, z.len);
    DigitRange(b, z.batch, g, z.kvHeads);
    MulLe(b * z.kvHeads + g + 1, z.batch * z.kvHeads, z.len);
  }

  /// The reference's output for batch b, head h, position sq and element d is the sum over all keys of the head that h
  /// shares with its group: the row's weight, times the rectified inner product of query and key, times the value.
  lemma {:induction false} ExactOutput(z: Sizes, t: Tensors<real>, b: nat, h: nat, sq: nat, d: nat, g: nat)
    requires t.Fit(z) && b < z.batch && h < z.heads && sq < z.len && d < z.dim
    requires g * z.heads <= h * z.kvHeads < (g + 1) * z.heads
    ensures g < z.kvHeads
    ensures var qr, kr := (b * z.heads + h) * z.len + sq, (b * z.kvHeads + g) * z.len;
            0 <= qr * z.dim + d < Size(z) && InTensors(z, t, qr, kr, z.len) &&
            Outputs(Exact(), z, t, Size(z))[qr * z.dim + d] == Attention(z, t, qr, kr, d, z.len)
  {
    HeadsAreGrouped(h, z.heads, z.kvHeads, g);
    KvHeadInRange(h, z.heads, z.kvHeads);
    RowDecoded(z, b, h, sq);
    RowsInTensors(z, t, b, h, sq, g);
    var qr := Row(b, h, sq, z.heads, z.len);
    DigitRange(qr, z.Rows(), d, z.dim);
    DigitDivMod(qr, d, z.dim);
    hide Attention, Pv, Outputs, FirstKey, InTensors, Sizes.Rows, KvHead;
    OutputsAt(Exact(), z, t, Size(z), qr * z.dim + d);
    ExactSum(z, t, qr, d, z.len);
  }
}
