/** The functional data path of the SPARE-PIM controller (src/dram_controller/impl/sparepim_controller.cpp): keys and
    values are laid out column by column in banked storage, and each token computes its row of attention from there. */
module SparePimFunctional {
  import opened Bits
  import opened BankStorage
  import opened Golden
  import Pim = SparePim

  const WIDTH: nat := FP16_PER_COLUMN

  const BASE := Pim.Addr(-1, -1, -1, 0, 0)

  function Columns(dim: nat): nat { (dim + WIDTH - 1) / WIDTH }

  function Count(rows: nat, dim: nat): nat { rows * dim }

  // ---------- the layout ----------

  function KAddr(c: Pim.Config, x: nat): Pim.Addr
    requires c.Valid()
  {
    Pim.EsdmAddr(c, BASE, c.ktRow, c.ktCol + x)
  }

  function VAddr(c: Pim.Config, x: nat): Pim.Addr
    requires c.Valid()
  {
    Pim.EsdmAddr(c, BASE, c.vRow, c.vCol + x)
  }

  ghost function KCell(c: Pim.Config, x: nat): Cell
    requires c.Valid()
  {
    CellOf(KAddr(c, x).row, KAddr(c, x).col)
  }

  ghost function VCell(c: Pim.Config, x: nat): Cell
    requires c.Valid()
  {
    CellOf(VAddr(c, x).row, VAddr(c, x).col)
  }

  /// No two of the first n columns of keys and values share a cell.
  ghost predicate Disjoint(c: Pim.Config, n: nat)
    requires c.Valid()
  {
    (forall x: nat, y: nat :: x < n && y < n && x != y ==> KCell(c, x) != KCell(c, y) && VCell(c, x) != VCell(c, y)) &&
    (forall x: nat, y: nat :: x < n && y < n ==> KCell(c, x) != VCell(c, y))
  }

  /// Row and column of a logical column, counting from the first row of its tensor.
  ghost function RowOf(c: Pim.Config, offset: int, column: int): int
    requires c.Valid()
  {
    offset + column / c.columnsPerRow
  }

  ghost function ColOf(c: Pim.Config, column: int): int
    requires c.Valid()
  {
    column % c.columnsPerRow
  }

  /// The page is no longer than a row, and storage keys can tell rows and columns apart.
  ghost predicate PageFits(c: Pim.Config) {
    c.Valid() && c.esdm && c.columnsPerRow <= c.cols && c.columnsPerRow <= Pow2(16) && c.rows <= Pow2(16)
  }

  /// Columns count through the cells of consecutive rows as long as the rows do not wrap around.
  lemma {:induction false} EsdmCell(c: Pim.Config, offset: int, column: int)
    requires PageFits(c) && 0 <= offset && 0 <= column && RowOf(c, offset, column) < c.rows
    ensures var a := Pim.EsdmAddr(c, BASE, offset, column);
            CellOf(a.row, a.col) == Cell(RowOf(c, offset, column), ColOf(c, column))
  {
    hide Pow2;
    DivModSplit(column, c.columnsPerRow);
    DivNonNegative(column, c.columnsPerRow);
    Small(RowOf(c, offset, column), c.rows);
    Small(RowOf(c, offset, column), Pow2(16));
    Small(ColOf(c, column), c.cols);
    Small(ColOf(c, column), Pow2(16));
  }

  lemma {:induction false} Small(x: int, m: int)
    requires 0 <= x < m
    ensures x % m == x
  {
    DigitDivMod(0, x, m);
  }

  lemma {:induction false} CellsDiffer(x: nat, y: nat, per: nat)
    requires per > 0 && x / per == y / per && x % per == y % per
    ensures x == y
  {
    DivModSplit(x, per);
    DivModSplit(y, per);
  }

  lemma {:induction false} DivMonotone(x: nat, y: nat, per: nat)
    requires per > 0 && x <= y
    ensures x / per <= y / per
  {
    DivModSplit(x, per);
    DivModSplit(y, per);
    if x / per > y / per {
      MulLe(y / per + 1, x / per, per);
      assert false;
    }
  }

  lemma {:induction false} PlacesDiffer(c: Pim.Config, offset: int, x: nat, y: nat)
    requires c.Valid() && RowOf(c, offset, x) == RowOf(c, offset, y) && ColOf(c, x) == ColOf(c, y)
    ensures x == y
  {
    CellsDiffer(x, y, c.columnsPerRow);
  }

  /// The columns of one tensor stay within its rows.
  lemma {:induction false} RowWithin(c: Pim.Config, offset: int, first: nat, x: nat, n: nat)
    requires c.Valid() && x < n
    ensures RowOf(c, offset, first) <= RowOf(c, offset, first + x) <= RowOf(c, offset, first + n - 1)
  {
    DivMonotone(first, first + x, c.columnsPerRow);
    DivMonotone(first + x, first + n - 1, c.columnsPerRow);
  }

  /// What a configuration has to meet: pages within a row, and the rows of keys and of values apart and
  /// below the last row.
  lemma {:induction false} LayoutIsDisjoint(c: Pim.Config, n: nat)
    requires PageFits(c) && n > 0 && c.ktCol >= 0 && c.vCol >= 0 && c.ktRow >= 0 && c.vRow >= 0
    requires RowOf(c, c.ktRow, c.ktCol + n - 1) < c.rows && RowOf(c, c.vRow, c.vCol + n - 1) < c.rows
    requires RowOf(c, c.ktRow, c.ktCol + n - 1) < RowOf(c, c.vRow, c.vCol) ||
             RowOf(c, c.vRow, c.vCol + n - 1) < RowOf(c, c.ktRow, c.ktCol)
    ensures Disjoint(c, n)
  {
    hide Pow2, Pim.EsdmAddr, CellOf, RowOf, ColOf;
    forall x: nat | x < n
      ensures KCell(c, x) == Cell(RowOf(c, c.ktRow, c.ktCol + x), ColOf(c, c.ktCol + x))
      ensures VCell(c, x) == Cell(RowOf(c, c.vRow, c.vCol + x), ColOf(c, c.vCol + x))
      ensures RowOf(c, c.ktRow, c.ktCol) <= KCell(c, x).row <= RowOf(c, c.ktRow, c.ktCol + n - 1)
      ensures RowOf(c, c.vRow, c.vCol) <= VCell(c, x).row <= RowOf(c, c.vRow, c.vCol + n - 1)
    {
      RowWithin(c, c.ktRow, c.ktCol, x, n);
      RowWithin(c, c.vRow, c.vCol, x, n);
      EsdmCell(c, c.ktRow, c.ktCol + x);
      EsdmCell(c, c.vRow, c.vCol + x);
    }
    forall x: nat, y: nat | x < n && y < n && x != y
      ensures KCell(c, x) != KCell(c, y) && VCell(c, x) != VCell(c, y)
    {
      if KCell(c, x) == KCell(c, y) { PlacesDiffer(c, c.ktRow, c.ktCol + x, c.ktCol + y); }
      if VCell(c, x) == VCell(c, y) { PlacesDiffer(c, c.vRow, c.vCol + x, c.vCol + y); }
    }
  }

  // ---------- what setup stores ----------

  /// Sixteen elements of a row, the last block filled up with zeros.
  ghost function Block<H, F>(a: Arith<H, F>, s: seq<H>, dim: nat, sk: nat, j: nat): (b: seq<H>)
    ensures |b| == WIDTH
  {
    seq(WIDTH, i requires 0 <= i < WIDTH => if j * WIDTH + i < dim then At(a, s, sk * dim + j * WIDTH + i) else Zero(a))
  }

  ghost function WithKeys<H, F>(a: Arith<H, F>, c: Pim.Config, m: Image<H>, k: seq<H>, dim: nat, sk: nat,
                                j: nat): Image<H>
    requires c.Valid()
  {
    if j == 0 then m
    else WithKeys(a, c, m, k, dim, sk, j - 1)[KCell(c, sk * Columns(dim) + j - 1) := Block(a, k, dim, sk, j - 1)]
  }

  ghost function WithValues<H, F>(a: Arith<H, F>, c: Pim.Config, m: Image<H>, v: seq<H>, dim: nat, sk: nat,
                                  j: nat): Image<H>
    requires c.Valid()
  {
    if j == 0 then m
    else WithValues(a, c, m, v, dim, sk, j - 1)[VCell(c, sk * Columns(dim) + j - 1) := Block(a, v, dim, sk, j - 1)]
  }

  /// The image after the first n positions were stored, later columns over earlier ones.
  ghost function Stored<H, F>(a: Arith<H, F>, c: Pim.Config, t: Tensors<H>, dim: nat, n: nat): Image<H>
    requires c.Valid()
  {
    if n == 0 then map[]
    else
      WithValues(a, c, WithKeys(a, c, Stored(a, c, t, dim, n - 1), t.k, dim, n - 1, Columns(dim)), t.v, dim, n - 1,
                 Columns(dim))
  }

  /// Every column of the first n positions reads back as it was stored.
  ghost predicate ReadsBack<H, F>(a: Arith<H, F>, c: Pim.Config, m: Image<H>, t: Tensors<H>, dim: nat, n: nat)
    requires c.Valid()
  {
    forall sk: nat, j: nat :: sk < n && j < Columns(dim) ==>
      KeyReadsBack(a, c, m, t, dim, sk, j) && ValueReadsBack(a, c, m, t, dim, sk, j)
  }

  ghost predicate KeyReadsBack<H, F>(a: Arith<H, F>, c: Pim.Config, m: Image<H>, t: Tensors<H>, dim: nat, sk: nat,
                                     j: nat)
    requires c.Valid()
  {
    Read(m, KCell(c, sk * Columns(dim) + j), Zero(a)) == Block(a, t.k, dim, sk, j)
  }

  ghost predicate ValueReadsBack<H, F>(a: Arith<H, F>, c: Pim.Config, m: Image<H>, t: Tensors<H>, dim: nat, sk: nat,
                                       j: nat)
    requires c.Valid()
  {
    Read(m, VCell(c, sk * Columns(dim) + j), Zero(a)) == Block(a, t.v, dim, sk, j)
  }

  /// Storing a position's keys puts each in its cell and leaves every other column alone.
  lemma {:induction false} WithKeysRead<H, F>(a: Arith<H, F>, c: Pim.Config, m: Image<H>, k: seq<H>, dim: nat, sk: nat,
                                              base: nat, j: nat, n: nat)
    requires c.Valid() && Disjoint(c, n) && base == sk * Columns(dim) && base + j <= n
    ensures var m' := WithKeys(a, c, m, k, dim, sk, j);
            && (forall x: nat :: x < n ==>
                  Read(m', KCell(c, x), Zero(a)) ==
                  if base <= x < base + j then Block(a, k, dim, sk, x - base) else Read(m, KCell(c, x), Zero(a)))
            && (forall x: nat :: x < n ==> Read(m', VCell(c, x), Zero(a)) == Read(m, VCell(c, x), Zero(a)))
  {
    hide KCell, VCell, Block;
    if j > 0 {
      WithKeysRead(a, c, m, k, dim, sk, base, j - 1, n);
    }
  }

  lemma {:induction false} WithValuesRead<H, F>(a: Arith<H, F>, c: Pim.Config, m: Image<H>, v: seq<H>, dim: nat,
                                                sk: nat, base: nat, j: nat, n: nat)
    requires c.Valid() && Disjoint(c, n) && base == sk * Columns(dim) && base + j <= n
    ensures var m' := WithValues(a, c, m, v, dim, sk, j);
            && (forall x: nat :: x < n ==>
                  Read(m', VCell(c, x), Zero(a)) ==
                  if base <= x < base + j then Block(a, v, dim, sk, x - base) else Read(m, VCell(c, x), Zero(a)))
            && (forall x: nat :: x < n ==> Read(m', KCell(c, x), Zero(a)) == Read(m, KCell(c, x), Zero(a)))
  {
    hide KCell, VCell, Block;
    if j > 0 {
      WithValuesRead(a, c, m, v, dim, sk, base, j - 1, n);
    }
  }

  /// With disjoint cells everything that was stored can be read back.
  lemma {:induction false} StoredReadsBack<H, F>(a: Arith<H, F>, c: Pim.Config, t: Tensors<H>, dim: nat, n: nat,
                                                 len: nat)
    requires c.Valid() && n <= len && Disjoint(c, Count(len, Columns(dim)))
    ensures ReadsBack(a, c, Stored(a, c, t, dim, n), t, dim, n)
  {
    hide KCell, VCell, Block, Disjoint, Columns, WithKeys, WithValues, Read, KeyReadsBack, ValueReadsBack;
    if n > 0 {
      StoredReadsBack(a, c, t, dim, n - 1, len);
      var cols, m := Columns(dim), Stored(a, c, t, dim, n - 1);
      forall sk: nat, j: nat | sk < n && j < cols
        ensures KeyReadsBack(a, c, Stored(a, c, t, dim, n), t, dim, sk, j)
        ensures ValueReadsBack(a, c, Stored(a, c, t, dim, n), t, dim, sk, j)
      {
        assert sk < n - 1 ==> KeyReadsBack(a, c, m, t, dim, sk, j) && ValueReadsBack(a, c, m, t, dim, sk, j);
        PositionReadsBack(a, c, m, t, dim, n, len, sk, j);
      }
    }
  }

  lemma {:induction false} PositionReadsBack<H, F>(a: Arith<H, F>, c: Pim.Config, m: Image<H>, t: Tensors<H>, dim: nat,
                                                   n: nat, len: nat, sk: nat, j: nat)
    requires c.Valid() && sk < n <= len && j < Columns(dim) && Disjoint(c, Count(len, Columns(dim)))
    requires sk < n - 1 ==> KeyReadsBack(a, c, m, t, dim, sk, j) && ValueReadsBack(a, c, m, t, dim, sk, j)
    ensures var m2 := WithValues(a, c, WithKeys(a, c, m, t.k, dim, n - 1, Columns(dim)), t.v, dim, n - 1, Columns(dim));
            KeyReadsBack(a, c, m2, t, dim, sk, j) && ValueReadsBack(a, c, m2, t, dim, sk, j)
  {
    hide KCell, VCell, Block, Disjoint, Columns, WithKeys, WithValues, Read;
    var cols := Columns(dim);
    Position(sk, j, n, len, cols);
    PlaceRead(a, c, m, t, dim, n - 1, (n - 1) * cols, cols, Count(len, cols), sk * cols + j);
  }

  lemma {:induction false} Position(sk: nat, j: nat, n: nat, len: nat, cols: nat)
    requires sk < n <= len && j < cols
    ensures 0 <= sk * cols + j < Count(len, cols) && 0 <= (n - 1) * cols && (n - 1) * cols + cols <= Count(len, cols)
    ensures sk < n - 1 ==> sk * cols + j < (n - 1) * cols
  {
    MulLe(n, len, cols);
    DigitRange(sk, len, j, cols);
    if sk < n - 1 {
      DigitRange(sk, n - 1, j, cols);
    }
  }

  /// What column x reads once a whole position was stored.
  lemma {:induction false} PlaceRead<H, F>(a: Arith<H, F>, c: Pim.Config, m: Image<H>, t: Tensors<H>, dim: nat, sk: nat,
                                           base: nat, cols: nat, total: nat, x: nat)
    requires c.Valid() && Disjoint(c, total) && base == sk * Columns(dim) && base + cols <= total && x < total
    ensures var m2 := WithValues(a, c, WithKeys(a, c, m, t.k, dim, sk, cols), t.v, dim, sk, cols);
            Read(m2, KCell(c, x), Zero(a)) ==
              (if base <= x < base + cols then Block(a, t.k, dim, sk, x - base) else Read(m, KCell(c, x), Zero(a))) &&
            Read(m2, VCell(c, x), Zero(a)) ==
              (if base <= x < base + cols then Block(a, t.v, dim, sk, x - base) else Read(m, VCell(c, x), Zero(a)))
  {
    hide KCell, VCell, Block, Disjoint, Columns, WithKeys, WithValues, Read;
    WithKeysRead(a, c, m, t.k, dim, sk, base, cols, total);
    WithValuesRead(a, c, WithKeys(a, c, m, t.k, dim, sk, cols), t.v, dim, sk, base, cols, total);
  }

  /// A tensor that is h0 everywhere but in one place.
  function Marked<H>(n: nat, p: int, h0: H, h1: H): seq<H> { seq(n, i => if i == p then h1 else h0) }

  lemma {:induction false} BlockStart<H, F>(a: Arith<H, F>, s: seq<H>, dim: nat, sk: nat, j: nat)
    requires j < Columns(dim)
    ensures j * WIDTH < dim && Block(a, s, dim, sk, j)[0] == At(a, s, sk * dim + j * WIDTH)
  {
  }

  lemma {:induction false} StartInRange(z: Sizes, sk: nat, d: nat)
    requires z.batch > 0 && z.kvHeads > 0 && sk < z.len && d < z.dim
    ensures 0 <= sk * z.dim + d < Count(z.KeyRows(), z.dim)
  {
    EnoughKeys(z);
    DigitRange(sk, z.KeyRows(), d, z.dim);
  }

  /// Data that two columns of the layout cannot both keep, if they share a cell.
  lemma {:induction false} SharedCellLosesData<H, F>(a: Arith<H, F>, c: Pim.Config, z: Sizes, h0: H, h1: H)
    returns (t: Tensors<H>)
    requires c.Valid() && z.batch > 0 && z.kvHeads > 0 && h0 != h1 && !Disjoint(c, Count(z.len, Columns(z.dim)))
    ensures t.Fit(z) && forall m :: !ReadsBack(a, c, m, t, z.dim, z.len)
  {
    hide KCell, VCell, Sizes.KeyRows, Sizes.Rows;
    var cols, n, size := Columns(z.dim), Count(z.len, Columns(z.dim)), Count(z.KeyRows(), z.dim);
    var q, we := seq(Count(z.Rows(), z.dim), _ => h0), seq(z.Rows(), _ => h0);
    if x: nat, y: nat :| x < n && y < n && KCell(c, x) == VCell(c, y) {
      t := Tensors(q, seq(size, _ => h0), seq(size, _ => h1), we);
      var skx, jx := SplitColumn(z, x);
      var sky, jy := SplitColumn(z, y);
      BlockStart(a, t.k, z.dim, skx, jx);
      BlockStart(a, t.v, z.dim, sky, jy);
      forall m ensures !ReadsBack(a, c, m, t, z.dim, z.len) {
        assert !KeyReadsBack(a, c, m, t, z.dim, skx, jx) || !ValueReadsBack(a, c, m, t, z.dim, sky, jy);
      }
    } else {
      var x: nat, y: nat :| x < n && y < n && x != y && (KCell(c, x) == KCell(c, y) || VCell(c, x) == VCell(c, y));
      var skx, jx := SplitColumn(z, x);
      var sky, jy := SplitColumn(z, y);
      var tensor := Marked(size, sky * z.dim + jy * WIDTH, h0, h1);
      t := Tensors(q, tensor, tensor, we);
      BlockStart(a, tensor, z.dim, skx, jx);
      BlockStart(a, tensor, z.dim, sky, jy);
      DigitUnique(skx, jx * WIDTH, sky, jy * WIDTH, z.dim);
      assert Block(a, tensor, z.dim, skx, jx)[0] == h0 && Block(a, tensor, z.dim, sky, jy)[0] == h1;
      forall m ensures !ReadsBack(a, c, m, t, z.dim, z.len) {
        assert !KeyReadsBack(a, c, m, t, z.dim, skx, jx) || !KeyReadsBack(a, c, m, t, z.dim, sky, jy) ||
               !ValueReadsBack(a, c, m, t, z.dim, skx, jx) || !ValueReadsBack(a, c, m, t, z.dim, sky, jy);
      }
    }
  }

  lemma {:induction false} SplitColumn(z: Sizes, x: nat) returns (sk: nat, j: nat)
    requires x < Count(z.len, Columns(z.dim)) && z.batch > 0 && z.kvHeads > 0
    ensures sk < z.len && j < Columns(z.dim) && x == sk * Columns(z.dim) + j
    ensures 0 <= sk * z.dim + j * WIDTH < Count(z.KeyRows(), z.dim)
  {
    var cols := Columns(z.dim);
    sk, j := x / cols, x % cols;
    DivModSplit(x, cols);
    if sk >= z.len { MulLe(z.len, sk, cols); assert false; }
    StartInRange(z, sk, j * WIDTH);
  }

  // ---------- what a token computes ----------

  ghost function KeyElement<H, F>(a: Arith<H, F>, c: Pim.Config, m: Image<H>, dim: nat, sk: nat, d: nat): H
    requires c.Valid()
  {
    At(a, Read(m, KCell(c, sk * Columns(dim) + d / WIDTH), Zero(a)), d % WIDTH)
  }

  ghost function ValueElement<H, F>(a: Arith<H, F>, c: Pim.Config, m: Image<H>, dim: nat, sk: nat, d: nat): H
    requires c.Valid()
  {
    At(a, Read(m, VCell(c, sk * Columns(dim) + d / WIDTH), Zero(a)), d % WIDTH)
  }

  ghost function HwDot<H, F>(a: Arith<H, F>, c: Pim.Config, m: Image<H>, q: seq<H>, dim: nat, sq: nat, sk: nat,
                             n: nat): F
    requires c.Valid()
  {
    if n == 0 then a.zero
    else
      a.add(HwDot(a, c, m, q, dim, sq, sk, n - 1),
            a.mul(a.toFloat(At(a, q, sq * dim + n - 1)), a.toFloat(KeyElement(a, c, m, dim, sk, n - 1))))
  }

  ghost function HwScore<H, F>(a: Arith<H, F>, c: Pim.Config, m: Image<H>, q: seq<H>, dim: nat, sq: nat, sk: nat): H
    requires c.Valid()
  {
    a.toHalf(HwDot(a, c, m, q, dim, sq, sk, dim))
  }

  ghost function HwPv<H, F>(a: Arith<H, F>, c: Pim.Config, m: Image<H>, t: Tensors<H>, dim: nat, sq: nat, d: nat,
                            n: nat): F
    requires c.Valid()
  {
    if n == 0 then a.zero
    else
      var before, score := HwPv(a, c, m, t, dim, sq, d, n - 1), HwScore(a, c, m, t.q, dim, sq, n - 1);
      if a.positive(Relu(a, score)) then
        a.add(before,
              a.mul(a.toFloat(Weight(a, At(a, t.we, sq), score)), a.toFloat(ValueElement(a, c, m, dim, n - 1, d))))
      else before
  }

  lemma {:induction false} ElementReadsBack<H, F>(a: Arith<H, F>, c: Pim.Config, m: Image<H>, t: Tensors<H>, dim: nat,
                                                  len: nat, sk: nat, d: nat)
    requires c.Valid() && ReadsBack(a, c, m, t, dim, len) && sk < len && d < dim
    ensures KeyElement(a, c, m, dim, sk, d) == At(a, t.k, sk * dim + d)
    ensures ValueElement(a, c, m, dim, sk, d) == At(a, t.v, sk * dim + d)
  {
    var j := d / WIDTH;
    assert j < Columns(dim) && d == j * WIDTH + d % WIDTH;
    assert KeyReadsBack(a, c, m, t, dim, sk, j) && ValueReadsBack(a, c, m, t, dim, sk, j);
  }

  lemma {:induction false} SameDot<H, F>(a: Arith<H, F>, c: Pim.Config, m: Image<H>, t: Tensors<H>, dim: nat, len: nat,
                                         sq: nat, sk: nat, n: nat)
    requires c.Valid() && ReadsBack(a, c, m, t, dim, len) && sk < len && n <= dim
    ensures HwDot(a, c, m, t.q, dim, sq, sk, n) == Dot(a, t.q, sq * dim, t.k, sk * dim, n)
  {
    hide ReadsBack, KeyElement, ValueElement, At;
    if n > 0 {
      SameDot(a, c, m, t, dim, len, sq, sk, n - 1);
      ElementReadsBack(a, c, m, t, dim, len, sk, n - 1);
    }
  }

  lemma {:induction false} FirstHead(z: Sizes, sq: nat)
    requires sq < z.len
    ensures FirstKey(z, sq) == 0
  {
    DigitDivMod(0, sq, z.len);
    if z.heads > 0 {
      DigitDivMod(0, 0, z.heads);
    }
  }

  lemma {:induction false} SameScore<H, F>(a: Arith<H, F>, c: Pim.Config, m: Image<H>, z: Sizes, t: Tensors<H>, sq: nat,
                                           sk: nat)
    requires c.Valid() && ReadsBack(a, c, m, t, z.dim, z.len) && sq < z.len && sk < z.len
    ensures HwScore(a, c, m, t.q, z.dim, sq, sk) == Score(a, z, t, sq, sk)
  {
    hide ReadsBack, HwDot, Dot;
    FirstHead(z, sq);
    hide FirstKey;
    SameDot(a, c, m, t, z.dim, z.len, sq, sk, z.dim);
  }

  /// What is read from the banks gives the reference's output, operation by operation.
  lemma {:induction false} SamePv<H, F>(a: Arith<H, F>, c: Pim.Config, m: Image<H>, z: Sizes, t: Tensors<H>, sq: nat,
                                        d: nat, n: nat)
    requires c.Valid() && ReadsBack(a, c, m, t, z.dim, z.len) && sq < z.len && d < z.dim && n <= z.len
    ensures HwPv(a, c, m, t, z.dim, sq, d, n) == Pv(a, z, t, sq, d, n)
  {
    hide ReadsBack, KeyElement, ValueElement, At, HwScore, Score, Relu, Weight, FirstKey;
    if n > 0 {
      SamePv(a, c, m, z, t, sq, d, n - 1);
      FirstHead(z, sq);
      SameScore(a, c, m, z, t, sq, n - 1);
      ElementReadsBack(a, c, m, t, z.dim, z.len, n - 1, d);
    }
  }

  ghost function HwOutputs<H, F>(a: Arith<H, F>, c: Pim.Config, m: Image<H>, t: Tensors<H>, z: Sizes,
                                 n: nat): (s: seq<F>)
    requires c.Valid() && z.dim > 0
    ensures |s| == n
  {
    if n == 0 then []
    else HwOutputs(a, c, m, t, z, n - 1) + [HwPv(a, c, m, t, z.dim, (n - 1) / z.dim, (n - 1) % z.dim, z.len)]
  }

  /// The outputs of whole rows agree with the reference.
  lemma {:induction false} SameOutputs<H, F>(a: Arith<H, F>, c: Pim.Config, m: Image<H>, z: Sizes, t: Tensors<H>,
                                             n: nat)
    requires c.Valid() && z.dim > 0 && ReadsBack(a, c, m, t, z.dim, z.len) && n <= z.len * z.dim
    ensures HwOutputs(a, c, m, t, z, n) == Outputs(a, z, t, n)
  {
    hide ReadsBack, HwPv, Pv;
    if n > 0 {
      SameOutputs(a, c, m, z, t, n - 1);
      DivModSplit(n - 1, z.dim);
      if (n - 1) / z.dim >= z.len { MulLe(z.len, (n - 1) / z.dim, z.dim); assert false; }
      SamePv(a, c, m, z, t, (n - 1) / z.dim, (n - 1) % z.dim, z.len);
    }
  }

  lemma {:induction false} WithKeysStep<H, F>(a: Arith<H, F>, c: Pim.Config, m: Image<H>, tensor: seq<H>, dim: nat,
                                              sk: nat, j: nat, d: nat)
    requires c.Valid() && d == j * WIDTH
    ensures WithKeys(a, c, m, tensor, dim, sk, 0) == m
    ensures var addr := KAddr(c, sk * Columns(dim) + d / WIDTH);
            WithKeys(a, c, m, tensor, dim, sk, j + 1) ==
            WithKeys(a, c, m, tensor, dim, sk, j)[CellOf(addr.row, addr.col) := Block(a, tensor, dim, sk, j)]
    ensures d < dim <==> j < Columns(dim)
  {
    hide KAddr, Block, CellOf;
    assert d / WIDTH == j;
  }

  lemma {:induction false} WithValuesStep<H, F>(a: Arith<H, F>, c: Pim.Config, m: Image<H>, tensor: seq<H>, dim: nat,
                                                sk: nat, j: nat, d: nat)
    requires c.Valid() && d == j * WIDTH
    ensures WithValues(a, c, m, tensor, dim, sk, 0) == m
    ensures var addr := VAddr(c, sk * Columns(dim) + d / WIDTH);
            WithValues(a, c, m, tensor, dim, sk, j + 1) ==
            WithValues(a, c, m, tensor, dim, sk, j)[CellOf(addr.row, addr.col) := Block(a, tensor, dim, sk, j)]
    ensures d < dim <==> j < Columns(dim)
  {
    hide VAddr, Block, CellOf;
    assert d / WIDTH == j;
  }

  lemma {:induction false} HwDotStart<H, F>(a: Arith<H, F>, c: Pim.Config, m: Image<H>, q: seq<H>, dim: nat, sq: nat,
                                            sk: nat)
    requires c.Valid()
    ensures HwDot(a, c, m, q, dim, sq, sk, 0) == a.zero
  {
  }

  lemma {:induction false} HwDotStep<H, F>(a: Arith<H, F>, c: Pim.Config, m: Image<H>, q: seq<H>, dim: nat, sq: nat,
                                           sk: nat, d: nat, i: nat, data: seq<H>, base: nat)
    requires c.Valid() && base == sq * dim && base + dim <= |q| && d % WIDTH == 0 && i < WIDTH && d + i < dim &&
             |data| == WIDTH
    requires data == Read(m, KCell(c, sk * Columns(dim) + d / WIDTH), Zero(a))
    ensures HwDot(a, c, m, q, dim, sq, sk, d + i + 1) ==
            a.add(HwDot(a, c, m, q, dim, sq, sk, d + i), a.mul(a.toFloat(q[base + d + i]), a.toFloat(data[i])))
  {
    hide Read, KCell, Columns;
    assert (d + i) / WIDTH == d / WIDTH && (d + i) % WIDTH == i;
    assert KeyElement(a, c, m, dim, sk, d + i) == data[i];
    assert At(a, q, sq * dim + d + i) == q[base + d + i];
  }

  // ---------- the controller's functional part ----------

  class FunctionalPath<H, F> {
    const a: Arith<H, F>
    const c: Pim.Config
    const channel: int
    const z: Sizes
    const t: Tensors<H>
    const storage: BankStorage<H>

    var golden: seq<F>
    var hw: seq<F>
    var currentSq: nat

    ghost predicate Shape() {
      c.Valid() && t.Fit(z) && z.batch > 0 && z.heads > 0 && z.dim > 0 && storage.zero == Zero(a)
    }

    ghost predicate Valid()
      reads this, storage
    {
      && Shape() && storage.Holds(channel, Stored(a, c, t, z.dim, z.len))
      && golden == Outputs(a, z, t, Count(z.Rows(), z.dim)) && |hw| == |golden|
      && currentSq <= z.len && Count(currentSq, z.dim) <= |hw|
      && hw[..Count(currentSq, z.dim)] == HwOutputs(a, c, Stored(a, c, t, z.dim, z.len), t, z, Count(currentSq, z.dim))
    }

    /// Setup: the reference is computed, and keys and values are stored.
    constructor (a: Arith<H, F>, c: Pim.Config, channel: int, z: Sizes, t: Tensors<H>)
      requires c.Valid() && t.Fit(z) && z.batch > 0 && z.heads > 0 && z.dim > 0
      ensures Valid() && fresh(storage) && currentSq == 0
      ensures this.a == a && this.c == c && this.channel == channel && this.z == z && this.t == t
    {
      var model := new ElemaxSdpa<H, F>(a, z);
      var g := model.Compute(t);
      var banks := new BankStorage<H>(Zero(a));
      this.a, this.c, this.channel, this.z, this.t, this.storage := a, c, channel, z, t, banks;
      this.golden, this.hw, this.currentSq := g, seq(|g|, _ => a.zero), 0;
      new;
      StoreAll();
      assert hw[..0] == [];
    }

    method StoreAll()
      requires Shape() && storage.Holds(channel, map[])
      modifies storage
      ensures storage.Holds(channel, Stored(a, c, t, z.dim, z.len))
    {
      hide IsImage, WithKeys, WithValues, Sizes.Rows, Sizes.KeyRows;
      EnoughKeys(z);
      for sk := 0 to z.len
        invariant storage.Holds(channel, Stored(a, c, t, z.dim, sk))
      {
        RowSpan(sk, z.KeyRows(), z.dim);
        StoreKeys(sk, Stored(a, c, t, z.dim, sk));
        StoreValues(sk, WithKeys(a, c, Stored(a, c, t, z.dim, sk), t.k, z.dim, sk, Columns(z.dim)));
      }
    }

    /// A column goes to every bank of the channel.
    method WriteAllBanks(row: int, col: int, data: seq<H>, ghost m: Image<H>)
      requires Shape() && storage.Holds(channel, m) && |data| == WIDTH
      modifies storage
      ensures storage.Holds(channel, m[CellOf(row, col) := data])
    {
      hide IsImage, Key, Pim.Config.BanksPerPch, CellOf;
      ghost var m' := m[CellOf(row, col) := data];
      for pch := 0 to c.pchs
        invariant storage.Holds(channel, if pch == 0 then m else m')
      {
        for bg := 0 to c.bgs
          invariant storage.Holds(channel, if pch == 0 && bg == 0 then m else m')
        {
          for bank := 0 to c.banks
            invariant storage.Holds(channel, if pch == 0 && bg == 0 && bank == 0 then m else m')
          {
            if pch == 0 && bg == 0 && bank == 0 {
              FirstWrite(storage.storage, channel, m, storage.zero, row, col, data);
            } else {
              LaterWrite(storage.storage, channel, m', storage.zero, pch, bg, bank, row, col, data);
            }
            ghost var before := storage.storage;
            storage.WriteCol(channel, pch, bg, bank, row, col, data);
            assert storage.storage[Key(channel, pch, bg, bank, row, col)] == data;
            assert storage.storage == before[Key(channel, pch, bg, bank, row, col) := data];
          }
        }
      }
    }

    /// The next sixteen elements of a tensor's row, filled up with zeros.
    method CollectColumn(tensor: seq<H>, sk: nat, d: nat, ghost j: nat) returns (data: seq<H>)
      requires d == j * WIDTH && d < z.dim && sk * z.dim + z.dim <= |tensor|
      ensures data == Block(a, tensor, z.dim, sk, j)
    {
      var chunk := if z.dim - d < WIDTH then z.dim - d else WIDTH;
      data := seq(WIDTH, _ => Zero(a));
      for i := 0 to chunk
        invariant |data| == WIDTH
        invariant forall x :: 0 <= x < WIDTH ==> data[x] == if x < i then tensor[sk * z.dim + d + x] else Zero(a)
      {
        data := data[i := tensor[sk * z.dim + d + i]];
      }
      forall x | 0 <= x < WIDTH ensures data[x] == Block(a, tensor, z.dim, sk, j)[x] {
        assert At(a, tensor, sk * z.dim + j * WIDTH + x) ==
               if sk * z.dim + d + x < |tensor| then tensor[sk * z.dim + d + x] else Zero(a);
      }
    }

    method StoreKeys(sk: nat, ghost m: Image<H>)
      requires Shape() && sk < z.len && storage.Holds(channel, m) && sk * z.dim + z.dim <= |t.k|
      modifies storage
      ensures storage.Holds(channel, WithKeys(a, c, m, t.k, z.dim, sk, Columns(z.dim)))
    {
      hide Block, KAddr, IsImage, CellOf, WithKeys, Columns;
      WithKeysStep(a, c, m, t.k, z.dim, sk, 0, 0);
      var colsPerKt := Columns(z.dim);
      var d := 0;
      ghost var j := 0;
      while d < z.dim
        invariant d == j * WIDTH && j <= Columns(z.dim)
        invariant storage.Holds(channel, WithKeys(a, c, m, t.k, z.dim, sk, j))
      {
        var data := CollectColumn(t.k, sk, d, j);
        WithKeysStep(a, c, m, t.k, z.dim, sk, j, d);
        var addr := KAddr(c, sk * colsPerKt + d / WIDTH);
        WriteAllBanks(addr.row, addr.col, data, WithKeys(a, c, m, t.k, z.dim, sk, j));
        d := d + WIDTH;
        j := j + 1;
      }
      WithKeysStep(a, c, m, t.k, z.dim, sk, j, d);
    }

    method StoreValues(sk: nat, ghost m: Image<H>)
      requires Shape() && sk < z.len && storage.Holds(channel, m) && sk * z.dim + z.dim <= |t.v|
      modifies storage
      ensures storage.Holds(channel, WithValues(a, c, m, t.v, z.dim, sk, Columns(z.dim)))
    {
      hide Block, VAddr, IsImage, CellOf, WithValues, Columns;
      WithValuesStep(a, c, m, t.v, z.dim, sk, 0, 0);
      var colsPerKt := Columns(z.dim);
      var d := 0;
      ghost var j := 0;
      while d < z.dim
        invariant d == j * WIDTH && j <= Columns(z.dim)
        invariant storage.Holds(channel, WithValues(a, c, m, t.v, z.dim, sk, j))
      {
        var data := CollectColumn(t.v, sk, d, j);
        WithValuesStep(a, c, m, t.v, z.dim, sk, j, d);
        var addr := VAddr(c, sk * colsPerKt + d / WIDTH);
        WriteAllBanks(addr.row, addr.col, data, WithValues(a, c, m, t.v, z.dim, sk, j));
        d := d + WIDTH;
        j := j + 1;
      }
      WithValuesStep(a, c, m, t.v, z.dim, sk, j, d);
    }

    // ---------- one token ----------

    ghost predicate Holding(m: Image<H>)
      reads this, storage
    {
      Shape() && storage.Holds(channel, m)
    }

    /// The score of one key, column by column.
    method HwScoreOf(sq: nat, sk: nat, ghost m: Image<H>) returns (score: H)
      requires Holding(m) && sq * z.dim + z.dim <= |t.q|
      modifies storage
      ensures Holding(m) && score == HwScore(a, c, m, t.q, z.dim, sq, sk)
    {
      hide IsImage, HwDot, KAddr, CellOf, Read;
      var colsPerKt := Columns(z.dim);
      var sum := a.zero;
      HwDotStart(a, c, m, t.q, z.dim, sq, sk);
      var d := 0;
      while d < z.dim
        invariant 0 <= d && d % WIDTH == 0 && Holding(m)
        invariant sum == HwDot(a, c, m, t.q, z.dim, sq, sk, Min(d, z.dim))
      {
        var addr := KAddr(c, sk * colsPerKt + d / WIDTH);
        var data := storage.ReadCol(channel, addr.row, addr.col, m);
        sum := AddColumn(sq, sk, d, data, sum, m);
        d := d + WIDTH;
      }
      score := a.toHalf(sum);
    }

    /// The products of one column, up to the end of the row.
    method AddColumn(sq: nat, sk: nat, d: nat, data: seq<H>, sum0: F, ghost m: Image<H>) returns (sum: F)
      requires c.Valid() && sq * z.dim + z.dim <= |t.q| && d < z.dim && d % WIDTH == 0
      requires data == Read(m, KCell(c, sk * Columns(z.dim) + d / WIDTH), Zero(a)) && |data| == WIDTH
      requires sum0 == HwDot(a, c, m, t.q, z.dim, sq, sk, d)
      ensures sum == HwDot(a, c, m, t.q, z.dim, sq, sk, Min(d + WIDTH, z.dim))
    {
      hide Read, KCell, Columns, HwDot;
      sum := sum0;
      var chunk := Min(WIDTH, z.dim - d);
      var qIdx := sq * z.dim;
      for i := 0 to chunk
        invariant sum == HwDot(a, c, m, t.q, z.dim, sq, sk, d + i)
      {
        HwDotStep(a, c, m, t.q, z.dim, sq, sk, d, i, data, qIdx);
        sum := a.add(sum, a.mul(a.toFloat(t.q[qIdx + d + i]), a.toFloat(data[i])));
      }
    }

    /// The scores, mask bits and weights of all keys for one query.
    ghost predicate Scored(m: Image<H>, sq: nat, n: nat, scores: seq<H>, bitmask: seq<bool>, weights: seq<H>) {
      Shape() && sq < |t.we| && n <= |scores| && |bitmask| == |weights| == n &&
      (forall sk: nat :: sk < |scores| ==> scores[sk] == HwScore(a, c, m, t.q, z.dim, sq, sk)) &&
      forall sk: nat :: sk < n ==>
        bitmask[sk] == a.positive(Relu(a, scores[sk])) && weights[sk] == Weight(a, t.we[sq], scores[sk])
    }

    method ScoreKeys(sq: nat, ghost m: Image<H>) returns (scores: seq<H>, bitmask: seq<bool>, weights: seq<H>)
      requires Holding(m) && sq * z.dim + z.dim <= |t.q| && sq < |t.we|
      modifies storage
      ensures Holding(m) && |scores| == z.len && Scored(m, sq, z.len, scores, bitmask, weights)
    {
      hide IsImage, HwScore, Relu, Weight;
      scores, bitmask, weights := [], [], [];
      for sk := 0 to z.len
        invariant Holding(m) && |scores| == sk && Scored(m, sq, 0, scores, [], [])
      {
        var score := HwScoreOf(sq, sk, m);
        scores := scores + [score];
      }
      for sk := 0 to z.len
        invariant Holding(m) && Scored(m, sq, sk, scores, bitmask, weights)
      {
        var relu := Relu(a, scores[sk]);
        bitmask := bitmask + [a.positive(relu)];
        weights := weights + [Weight(a, t.we[sq], scores[sk])];
      }
    }

    /// One output: the sparse sum over the keys, values read column by column.
    method HwSum(sq: nat, d: nat, scores: seq<H>, bitmask: seq<bool>, weights: seq<H>, ghost m: Image<H>)
      returns (acc: F)
      requires Holding(m) && d < z.dim && |scores| == z.len && Scored(m, sq, z.len, scores, bitmask, weights)
      modifies storage
      ensures Holding(m) && acc == HwPv(a, c, m, t, z.dim, sq, d, z.len)
    {
      hide IsImage, HwScore, Relu, Weight, VAddr, CellOf, Read;
      acc := a.zero;
      var colsPerKt := Columns(z.dim);
      for sk := 0 to z.len
        invariant Holding(m) && acc == HwPv(a, c, m, t, z.dim, sq, d, sk)
      {
        if bitmask[sk] {
          var addr := VAddr(c, sk * colsPerKt + d / WIDTH);
          var data := storage.ReadCol(channel, addr.row, addr.col, m);
          assert ValueElement(a, c, m, z.dim, sk, d) == data[d % WIDTH];
          acc := a.add(acc, a.mul(a.toFloat(weights[sk]), a.toFloat(data[d % WIDTH])));
        }
      }
    }

    /// The row of one query.
    method ExecuteRow(sq: nat, hw0: seq<F>, ghost m: Image<H>) returns (out: seq<F>)
      requires Holding(m) && sq < |t.we| && Count(sq, z.dim) + z.dim <= |t.q| && Count(sq, z.dim) + z.dim <= |hw0|
      requires hw0[..Count(sq, z.dim)] == HwOutputs(a, c, m, t, z, Count(sq, z.dim))
      modifies storage
      ensures Holding(m) && |out| == |hw0|
      ensures out[..Count(sq, z.dim) + z.dim] == HwOutputs(a, c, m, t, z, Count(sq, z.dim) + z.dim)
    {
      hide Scored, HwPv, IsImage, HwOutputs;
      var scores, bitmask, weights := ScoreKeys(sq, m);
      out := hw0;
      for d := 0 to z.dim
        invariant Holding(m) && |out| == |hw0|
        invariant out[..Count(sq, z.dim) + d] == HwOutputs(a, c, m, t, z, Count(sq, z.dim) + d)
      {
        var acc := HwSum(sq, d, scores, bitmask, weights, m);
        HwOutputsMore(a, c, m, t, z, sq, d, out, acc);
        out := out[Count(sq, z.dim) + d := acc];
      }
    }

    /// The functional side of expanding one token; tokens beyond the sequence do nothing.
    method ExecuteToken()
      requires Valid()
      modifies this`hw, this`currentSq, storage
      ensures Valid() && golden == old(golden)
      ensures currentSq == if old(currentSq) < z.len then old(currentSq) + 1 else old(currentSq)
    {
      hide IsImage, HwOutputs, Outputs, Stored, Sizes.Rows, Sizes.KeyRows;
      if currentSq < z.len {
        EnoughRows(z);
        RowSpan(currentSq, z.Rows(), z.dim);
        hw := ExecuteRow(currentSq, hw, Stored(a, c, t, z.dim, z.len));
        NextCount(currentSq, z.dim);
        currentSq := currentSq + 1;
      }
    }

    /// Layout preserves meaning: the rows computed so far are, exactly, the reference's.
    lemma {:induction false} HardwareEqualsGolden()
      requires Valid() && Disjoint(c, Count(z.len, Columns(z.dim)))
      ensures Count(currentSq, z.dim) <= |golden| && hw[..Count(currentSq, z.dim)] == golden[..Count(currentSq, z.dim)]
    {
      hide IsImage, HwOutputs, Outputs, Stored, ReadsBack, Disjoint, Sizes.Rows;
      StoredReadsBack(a, c, t, z.dim, z.len, z.len);
      MulLe(currentSq, z.len, z.dim);
      SameOutputs(a, c, Stored(a, c, t, z.dim, z.len), z, t, Count(currentSq, z.dim));
      OutputsPrefix(a, z, t, Count(currentSq, z.dim), Count(z.Rows(), z.dim));
    }
  }

  lemma {:induction false} EnoughKeys(z: Sizes)
    requires z.batch > 0 && z.kvHeads > 0
    ensures z.len <= z.KeyRows()
  {
    MulLe(1, z.batch, z.kvHeads);
    MulLe(1, z.batch * z.kvHeads, z.len);
  }

  lemma {:induction false} EnoughRows(z: Sizes)
    requires z.batch > 0 && z.heads > 0
    ensures z.len <= z.Rows()
  {
    MulLe(1, z.batch, z.heads);
    MulLe(1, z.batch * z.heads, z.len);
  }

  lemma {:induction false} NextCount(rows: nat, dim: nat)
    ensures Count(rows + 1, dim) == Count(rows, dim) + dim
  {
  }

  lemma {:induction false} HwOutputsMore<H, F>(a: Arith<H, F>, c: Pim.Config, m: Image<H>, t: Tensors<H>, z: Sizes,
                                               sq: nat, d: nat, out: seq<F>, acc: F)
    requires c.Valid() && d < z.dim && Count(sq, z.dim) + d < |out| && acc == HwPv(a, c, m, t, z.dim, sq, d, z.len)
    requires out[..Count(sq, z.dim) + d] == HwOutputs(a, c, m, t, z, Count(sq, z.dim) + d)
    ensures out[Count(sq, z.dim) + d := acc][..Count(sq, z.dim) + d + 1] ==
              HwOutputs(a, c, m, t, z, Count(sq, z.dim) + d + 1)
  {
    hide HwPv;
    DigitDivMod(sq, d, z.dim);
    var i := Count(sq, z.dim) + d;
    assert out[i := acc][..i + 1] == out[..i] + [acc];
  }

  lemma {:induction false} OutputsPrefix<H, F>(a: Arith<H, F>, z: Sizes, t: Tensors<H>, m: nat, n: nat)
    requires m <= n
    ensures Outputs(a, z, t, n)[..m] == Outputs(a, z, t, m)
  {
    if m == n {
      assert Outputs(a, z, t, n)[..m] == Outputs(a, z, t, n);
    } else {
      OutputsPrefix(a, z, t, m, n - 1);
      assert Outputs(a, z, t, n)[..m] == Outputs(a, z, t, n - 1)[..m];
    }
  }

  /// Setup and then any number of tokens, on a layout with disjoint cells.
  method RunTokens<H, F>(a: Arith<H, F>, c: Pim.Config, channel: int, z: Sizes, t: Tensors<H>, tokens: nat)
    returns (hw: seq<F>, golden: seq<F>, processed: nat)
    requires c.Valid() && t.Fit(z) && z.batch > 0 && z.heads > 0 && z.dim > 0 &&
             Disjoint(c, Count(z.len, Columns(z.dim)))
    ensures golden == Outputs(a, z, t, Count(z.Rows(), z.dim)) && processed == Count(Min(tokens, z.len), z.dim)
    ensures processed <= |hw| == |golden| && hw[..processed] == golden[..processed]
  {
    hide Stored, Outputs, HwOutputs, Disjoint, IsImage, Sizes.Rows;
    var path := new FunctionalPath<H, F>(a, c, channel, z, t);
    for i := 0 to tokens
      invariant path.Valid() && fresh(path.storage) && path.currentSq == Min(i, z.len)
      invariant path.a == a && path.c == c && path.z == z && path.t == t
    {
      path.ExecuteToken();
    }
    path.HardwareEqualsGolden();
    hw, golden, processed := path.hw, path.golden, Count(path.currentSq, z.dim);
  }
}
