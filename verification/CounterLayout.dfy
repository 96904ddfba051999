/** Where Hydra keeps its row counters in DRAM, and the requests that carry them
    (src/dram_controller/impl/plugin/hydra.cpp).  */
module CounterLayout {
  import opened Bits

  /// How the counters are laid out: bits of one counter, and 512-bit cache lines in a row.
  datatype Layout = Layout(counterBits: nat, linesPerRow: nat) {
    /// A row holds at least one counter.
    predicate Usable() { counterBits > 0 && PerRow() > 0 }

    /// A line holds a whole number of counters.
    ghost predicate Valid() { counterBits > 0 && linesPerRow > 0 && 512 % counterBits == 0 }

    function PerLine(): nat requires counterBits > 0 { 512 / counterBits }
    function PerRow(): nat requires counterBits > 0 { linesPerRow * 512 / counterBits }

    /// Row and column (in eighths of a cache line) that hold the counter of a row.
    function RowColumn(row: nat): (nat, nat)
      requires Usable()
    {
      (row / PerRow(), Shl(row % PerRow() * counterBits / 512, 3))
    }
  }

  /// Whatever the width, the named row and line are those that hold the counter's first bit, and the counters
  /// of a row lie side by side within that row.
  lemma {:induction false} CounterLies(l: Layout, row: nat)
    requires l.Usable()
    ensures var (r, c) := l.RowColumn(row);
            var first := (row - r * l.PerRow()) * l.counterBits;
            0 <= row - r * l.PerRow() < l.PerRow() &&
            c % 8 == 0 && c / 8 * 512 <= first < c / 8 * 512 + 512 && first + l.counterBits <= l.linesPerRow * 512
  {
    var per, bits, space := l.PerRow(), l.counterBits, l.linesPerRow * 512;
    var x := row % per;
    DivModSplit(row, per);
    DivModSplit(space, bits);
    MulLe(x + 1, per, bits);
    DivModSplit(x * bits, 512);
    assert Pow2(3) == 8;
    assert (x + 1) * bits == x * bits + bits;
  }

  lemma {:induction false} LineOfCounter(x: nat, bits: nat, perLine: nat)
    requires bits * perLine == 512
    ensures x * bits / 512 == x / perLine
  {
    var q, r := x / perLine, x % perLine;
    assert x == q * perLine + r;
    assert x * bits == q * 512 + r * bits by { assert (q * perLine + r) * bits == q * (bits * perLine) + r * bits; }
    assert 0 <= r * bits < 512 by { assert (perLine - r) * bits > 0; }
    DigitDivMod(q, r * bits, 512);
  }

  /// Where a line holds a whole number of counters they lie one after the other: the row and column of a
  /// counter are the digits of the number of its cache line, so two rows share a line exactly if they are in
  /// the same stretch of that length.
  lemma {:induction false} CountersAreConsecutive(l: Layout, row: nat)
    requires l.Valid()
    ensures l.PerRow() == l.linesPerRow * l.PerLine() > 0
    ensures var (r, c) := l.RowColumn(row);
            c % 8 == 0 && c / 8 < l.linesPerRow && r * l.linesPerRow + c / 8 == row / l.PerLine()
  {
    var per, lines := l.PerLine(), l.linesPerRow;
    assert l.counterBits * per == 512;
    WholeLines(lines, l.counterBits, per);
    var r, x := row / l.PerRow(), row % l.PerRow();
    LineOfCounter(x, l.counterBits, per);
    var c, y := x / per, x % per;
    assert Pow2(3) == 8;
    assert row == (r * lines + c) * per + y by {
      assert row == r * (lines * per) + x;
      assert (r * lines + c) * per == r * (lines * per) + c * per;
    }
    DigitDivMod(r * lines + c, y, per);
    if c >= lines { MulLe(lines, c, per); assert false; }
  }

  lemma {:induction false} WholeLines(lines: nat, bits: nat, perLine: nat)
    requires bits * perLine == 512 && lines > 0
    ensures lines * 512 / bits == lines * perLine > 0
  {
    assert lines * 512 == (lines * perLine) * bits + 0;
    DigitDivMod(lines * perLine, 0, bits);
  }

  lemma {:induction false} SameLine(l: Layout, row0: nat, row1: nat)
    requires l.Valid()
    ensures l.Usable() && (l.RowColumn(row0) == l.RowColumn(row1) <==> row0 / l.PerLine() == row1 / l.PerLine())
  {
    CountersAreConsecutive(l, row0);
    CountersAreConsecutive(l, row1);
    var ((r0, c0), (r1, c1)) := (l.RowColumn(row0), l.RowColumn(row1));
    DigitUnique(r0, c0 / 8, r1, c1 / 8, l.linesPerRow);
  }

  // ---------- the requests ----------

  /// A request for a line of counters of a bank, in that bank.
  datatype Transfer = Write(bank: nat, row: nat, column: nat) | Read(bank: nat, row: nat, column: nat)

  function WriteOf(l: Layout, bank: nat, row: nat): Transfer
    requires l.Usable()
  {
    Write(bank, l.RowColumn(row).0, l.RowColumn(row).1)
  }

  function ReadOf(l: Layout, bank: nat, row: nat): Transfer
    requires l.Usable()
  {
    Read(bank, l.RowColumn(row).0, l.RowColumn(row).1)
  }

  /// The writes that start the counters of `size` rows from `first` on.
  ghost function StartWrites(l: Layout, bank: nat, first: nat, size: nat): seq<Transfer>
    requires l.Usable()
  {
    seq(size * l.counterBits / 512, i requires i >= 0 => WriteOf(l, bank, first + i * l.PerLine()))
  }

  method SendStartWrites(l: Layout, bank: nat, first: nat, size: nat) returns (sent: seq<Transfer>)
    requires l.Usable()
    ensures sent == StartWrites(l, bank, first, size)
  {
    hide Layout.RowColumn;
    sent := [];
    for i := 0 to size * l.counterBits / 512
      invariant sent == StartWrites(l, bank, first, size)[..i]
    {
      sent := sent + [WriteOf(l, bank, first + i * l.PerLine())];
    }
  }

  lemma {:induction false} WholeLine(l: Layout)
    requires l.Valid()
    ensures l.PerLine() > 0 && l.counterBits * l.PerLine() == 512
  {
  }

  lemma {:induction false} LinesOn(first: nat, i: nat, per: nat)
    requires per > 0
    ensures (first + i * per) / per == first / per + i
  {
    DivModSplit(first, per);
    assert first + i * per == (first / per + i) * per + first % per;
    DigitDivMod(first / per + i, first % per, per);
  }

  lemma {:induction false} SameWrite(l: Layout, bank: nat, first: nat, i: nat, row: nat)
    requires l.Valid() && l.Usable()
    ensures WriteOf(l, bank, first + i * l.PerLine()) == WriteOf(l, bank, row) <==>
              row / l.PerLine() == first / l.PerLine() + i
  {
    hide Layout.RowColumn, Layout.PerLine;
    WholeLine(l);
    SameLine(l, first + i * l.PerLine(), row);
    LinesOn(first, i, l.PerLine());
  }

  /// How far the writes reach: they name the lines of the group's first size / perLine stretches.
  lemma {:induction false} LinesWritten(l: Layout, bank: nat, first: nat, size: nat, row: nat)
    requires l.Valid() && l.Usable()
    ensures WriteOf(l, bank, row) in StartWrites(l, bank, first, size) <==>
            first / l.PerLine() <= row / l.PerLine() < first / l.PerLine() + size / l.PerLine()
  {
    hide Layout.RowColumn, Layout.PerLine, WriteOf;
    var per := l.PerLine();
    WholeLine(l);
    LineOfCounter(size, l.counterBits, per);
    var sent, at := StartWrites(l, bank, first, size), row / per - first / per;
    if 0 <= at < size / per {
      SameWrite(l, bank, first, at, row);
      assert sent[at] == WriteOf(l, bank, first + at * per);
    }
    if WriteOf(l, bank, row) in sent {
      var i :| 0 <= i < |sent| && sent[i] == WriteOf(l, bank, row);
      SameWrite(l, bank, first, i, row);
    }
  }

  /// Starting a group writes the line of every counter of the group if and only if the group size is a multiple
  /// of the counters in a line; otherwise no write names the line of the group's last counter.
  lemma {:induction false} StartIsWritten(l: Layout, bank: nat, g: nat, size: nat)
    requires l.Valid() && l.Usable() && size > 0
    ensures (forall row :: g * size <= row < g * size + size ==>
               WriteOf(l, bank, row) in StartWrites(l, bank, g * size, size)) <==>
            size % l.PerLine() == 0
  {
    hide Layout.RowColumn, Layout.Usable, Layout.PerLine, StartWrites, WriteOf;
    var per, first := l.PerLine(), g * size;
    WholeLine(l);
    if size % per == 0 {
      forall row | first <= row < first + size ensures WriteOf(l, bank, row) in StartWrites(l, bank, first, size) {
        LinesWritten(l, bank, first, size, row);
        WholeStretch(g, size, row, per);
      }
    } else {
      LinesWritten(l, bank, first, size, first + size - 1);
      LastLine(first, size, per);
    }
  }

  lemma {:induction false} WholeStretch(g: nat, size: nat, row: nat, per: nat)
    requires per > 0 && size % per == 0 && g * size <= row < g * size + size
    ensures g * size / per <= row / per < g * size / per + size / per
  {
    var q := size / per;
    DivModSplit(size, per);
    assert g * size == g * q * per + 0;
    DigitDivMod(g * q, 0, per);
    assert (g * q + q) * per == g * size + size;
    LineBetween(row, g * q, g * q + q, per);
  }

  lemma {:induction false} LastLine(first: nat, size: nat, per: nat)
    requires per > 0 && size % per != 0
    ensures (first + size - 1) / per >= first / per + size / per
  {
    DivModSplit(first, per);
    DivModSplit(size, per);
    BothDigits(first / per, first % per, size / per, size % per, per);
    AtLeastLine(first + size - 1, first / per + size / per, per);
  }

  lemma {:induction false} BothDigits(a: nat, b: nat, q: nat, r: nat, per: nat)
    requires r >= 1
    ensures (a + q) * per <= (a * per + b) + (q * per + r) - 1
  {
    Distribute(a, q, per);
  }

  lemma {:induction false} AtLeastLine(row: nat, low: nat, per: nat)
    requires per > 0 && low * per <= row
    ensures low <= row / per
  {
    DivModSplit(row, per);
    if row / per < low { MulLe(row / per + 1, low, per); }
  }

  lemma {:induction false} LineBetween(row: nat, low: nat, high: nat, per: nat)
    requires per > 0 && low * per <= row < high * per
    ensures low <= row / per < high
  {
    AtLeastLine(row, low, per);
    DivModSplit(row, per);
    if row / per >= high { MulLe(high, row / per, per); }
  }
}
