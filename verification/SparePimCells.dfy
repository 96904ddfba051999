/** Where the timing program and the functional data path of the SPARE-PIM controller meet
    (src/dram_controller/impl/sparepim_controller.cpp): the cells that a token's MACs and SPMs address against those in
    which keys and values are stored.  */
module SparePimCells {
  import opened Bits
  import opened BankStorage
  import opened SparePim
  import opened SparePimFunctional
  import opened SparePimMacs

  /// The cell of the i-th MAC of a token's program.
  ghost function MacCell(c: Config, base: Addr, macs: int, maxVoc: int, accs: int, bgmuReads: int, req: Request,
                         i: nat): Cell
    requires c.Valid() && i < macs
  {
    MacColumns(c, base, macs, maxVoc, accs, bgmuReads, req, i);
    var target := Targets(TokenProgram(c, base, macs, maxVoc, accs, bgmuReads, req), MAC)[i];
    CellOf(target.row, target.col)
  }

  /// As long as the rows do not wrap around the bank, the i-th MAC goes to the cell of logical column ktCol + i, as
  /// many rows further on as the token's address says.
  lemma {:induction false} MacCellByDivision(c: Config, base: Addr, macs: int, maxVoc: int, accs: int, bgmuReads: int,
                                             req: Request, i: nat)
    requires PageFits(c) && i < macs && c.ktCol >= 0 && c.ktRow >= 0
    requires Max(0, base.row) + RowOf(c, c.ktRow, c.ktCol + i) < c.rows
    ensures MacCell(c, base, macs, maxVoc, accs, bgmuReads, req, i) ==
            Cell(Max(0, base.row) + RowOf(c, c.ktRow, c.ktCol + i), ColOf(c, c.ktCol + i))
  {
    hide Pow2, Targets, TokenProgram;
    MacColumns(c, base, macs, maxVoc, accs, bgmuReads, req, i);
    EsdmCell(c, Max(0, base.row) + c.ktRow, c.ktCol + i);
  }

  /// So no two MACs of a token go to the same cell.
  lemma {:induction false} MacsDiffer(c: Config, base: Addr, macs: int, maxVoc: int, accs: int, bgmuReads: int,
                                      req: Request, i: nat, j: nat)
    requires PageFits(c) && i < macs && j < macs && i != j && c.ktCol >= 0 && c.ktRow >= 0
    requires Max(0, base.row) + RowOf(c, c.ktRow, c.ktCol + macs - 1) < c.rows
    ensures MacCell(c, base, macs, maxVoc, accs, bgmuReads, req, i) !=
            MacCell(c, base, macs, maxVoc, accs, bgmuReads, req, j)
  {
    hide MacCell, RowOf, ColOf, Pow2;
    RowWithin(c, c.ktRow, c.ktCol, i, macs);
    RowWithin(c, c.ktRow, c.ktCol, j, macs);
    MacCellByDivision(c, base, macs, maxVoc, accs, bgmuReads, req, i);
    MacCellByDivision(c, base, macs, maxVoc, accs, bgmuReads, req, j);
    if RowOf(c, c.ktRow, c.ktCol + i) == RowOf(c, c.ktRow, c.ktCol + j) &&
       ColOf(c, c.ktCol + i) == ColOf(c, c.ktCol + j) {
      PlacesDiffer(c, c.ktRow, c.ktCol + i, c.ktCol + j);
    }
  }

  lemma {:induction false} SameRemainder(a: nat, r: nat, m: nat)
    requires m > 0
    ensures (a + r) % m == r % m <==> a % m == 0
  {
    var qa, ra, qr, rr := a / m, a % m, r / m, r % m;
    DivModSplit(a, m);
    DivModSplit(r, m);
    if ra + rr < m {
      assert a + r == (qa + qr) * m + (ra + rr);
      DigitDivMod(qa + qr, ra + rr, m);
    } else {
      assert a + r == (qa + qr + 1) * m + (ra + rr - m);
      DigitDivMod(qa + qr + 1, ra + rr - m, m);
    }
  }

  /// The MACs go to the very cells in which the functional path stores the keys, column by column, if and only if the
  /// row of the token's address is a multiple of the rows of a bank, as it is for row 0: the functional path does not
  /// look at it.
  lemma {:induction false} MacsReadTheKeys(c: Config, base: Addr, macs: int, maxVoc: int, accs: int, bgmuReads: int,
                                           req: Request, i: nat)
    requires c.Valid() && c.esdm && c.rows <= Pow2(16) && i < macs && c.ktRow >= 0
    ensures MacCell(c, base, macs, maxVoc, accs, bgmuReads, req, i) == KCell(c, i) <==> Max(0, base.row) % c.rows == 0
  {
    hide Targets, TokenProgram, Pow2;
    MacColumns(c, base, macs, maxVoc, accs, bgmuReads, req, i);
    var column := Max(0, c.ktCol + i);
    DivNonNegative(column, c.columnsPerRow);
    var r := c.ktRow + column / c.columnsPerRow;
    SameRemainder(Max(0, base.row), r, c.rows);
    Small((Max(0, base.row) + r) % c.rows, Pow2(16));
    Small(r % c.rows, Pow2(16));
  }

  /// On a layout of disjoint cells they then go to pairwise different cells, none of which holds values.
  lemma {:induction false} MacsOnDisjointCells(c: Config, base: Addr, macs: int, maxVoc: int, accs: int, bgmuReads: int,
                                               req: Request, n: nat, i: nat, j: nat)
    requires c.Valid() && c.esdm && c.rows <= Pow2(16) && c.ktRow >= 0 && Disjoint(c, n)
    requires Max(0, base.row) % c.rows == 0 && i < macs <= n && j < macs
    ensures i != j ==> MacCell(c, base, macs, maxVoc, accs, bgmuReads, req, i) !=
                       MacCell(c, base, macs, maxVoc, accs, bgmuReads, req, j)
    ensures forall x: nat :: x < n ==> MacCell(c, base, macs, maxVoc, accs, bgmuReads, req, i) != VCell(c, x)
  {
    hide MacCell, KCell, VCell, Pow2;
    MacsReadTheKeys(c, base, macs, maxVoc, accs, bgmuReads, req, i);
    MacsReadTheKeys(c, base, macs, maxVoc, accs, bgmuReads, req, j);
  }

  /// So do the SPMs with the rows of the values: the column of values number x lies in the row of the SPM whose number
  /// is that of its page, counted from the first.
  lemma {:induction false} SpmsReadTheValues(c: Config, base: Addr, macs: int, maxVoc: int, accs: int, bgmuReads: int,
                                             req: Request, x: nat)
    requires c.Valid() && c.esdm && c.rows <= Pow2(16) && x < maxVoc && c.vCol >= 0 && c.vRow >= 0
    ensures var targets := Targets(TokenProgram(c, base, macs, maxVoc, accs, bgmuReads, req), SPM);
            var j := (c.vCol + x) / c.columnsPerRow - c.vCol / c.columnsPerRow;
            0 <= j < |targets| &&
            (LowBits(targets[j].row, 16) == VCell(c, x).row <==> Max(0, base.row) % c.rows == 0)
  {
    hide Targets, TokenProgram, Pow2;
    var per := c.columnsPerRow;
    var page := c.vCol / per;
    DivMonotone(c.vCol, c.vCol + x, per);
    DivMonotone(c.vCol + x, c.vCol + maxVoc - 1, per);
    DivNonNegative(c.vCol, per);
    var j := (c.vCol + x) / per - page;
    SpmRows(c, base, macs, maxVoc, accs, bgmuReads, req, j);
    var r := c.vRow + (c.vCol + x) / per;
    SameRemainder(Max(0, base.row), r, c.rows);
    Small((Max(0, base.row) + r) % c.rows, Pow2(16));
    Small(r % c.rows, Pow2(16));
  }
}
