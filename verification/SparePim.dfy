/** The program that the SPARE-PIM controller expands one token into
    (src/dram_controller/impl/sparepim_controller.cpp), and what it does to the banks.  */
module SparePim {
  import opened Bits
  import opened Options

  /// Division and remainder as C++ has them: towards zero.
  function Rem(a: int, b: int): int
    requires b > 0
  {
    if a >= 0 then a % b else -((-a) % b)
  }

  /// A level of -1 means all of them.
  datatype Addr = Addr(pch: int, bg: int, bank: int, row: int, col: int)

  datatype Cmd = ACT | PRE | RD | WR | MAC | EMUL | MOV | SPM | ACC

  datatype RequestKind = Token | Direct(cmd: Cmd) | Unsupported

  datatype Request = Request(id: nat, kind: RequestKind, addr: Addr, scratchpad: seq<int>, vocs: seq<int>) {
    /// A request for a single command addresses levels that exist; no request asks for an activate or a precharge.
    ghost predicate Valid(c: Config) {
      |scratchpad| == 4 && (kind.Direct? ==> kind.cmd !in {ACT, PRE} && Reaches(c, addr))
    }
  }

  datatype Op =
    | Command(cmd: Cmd, addr: Addr)
    | Delay(cycles: int)
    | ConfigureSpm(cycles: int)
    | Complete(request: Request)

  datatype Config = Config(
    esdm: bool, qkActPre: bool, spmActPre: bool, readAsDelay: bool,
    macPerToken: int, accPerToken: int, spmPerVoc: int, spmFixed: int,
    ktRow: int, vRow: int, ktCol: int, vCol: int, columnsPerRow: int,
    pchs: int, bgs: int, banks: int, rows: int, cols: int, nCL: int, nCCDS: int, nBL: int)
  {
    /// What setup establishes: level sizes of at least one, and a page of at least one column.
    ghost predicate Valid() {
      pchs >= 1 && bgs >= 1 && banks >= 1 && rows >= 1 && cols >= 1 && columnsPerRow >= 1
    }

    function BanksPerPch(): (n: nat)
      requires Valid()
      ensures n >= 1
    {
      MulLe(1, bgs, banks);
      bgs * banks
    }

    function TotalBanks(): (n: nat)
      requires Valid()
      ensures n >= 1
    {
      MulLe(1, pchs, BanksPerPch());
      pchs * BanksPerPch()
    }
  }

  // ---------- addresses ----------

  function Normalized(a: Addr): Addr {
    a.(row := Max(0, a.row), col := Max(0, a.col))
  }

  function AllBanks(a: Addr): Addr { a.(pch := -1, bg := -1, bank := -1) }

  ghost predicate Reaches(c: Config, a: Addr) {
    -1 <= a.pch < c.pchs && -1 <= a.bg < c.bgs && -1 <= a.bank < c.banks
  }

  /// The column's place in consecutive rows, wrapped around the bank.
  function EsdmAddr(c: Config, a: Addr, rowOffset: int, column: int): Addr
    requires c.Valid()
  {
    if !c.esdm then a
    else
      var logical := Max(0, column);
      a.(row := Rem(Max(0, a.row) + rowOffset + logical / c.columnsPerRow, c.rows),
         col := logical % c.columnsPerRow % c.cols)
  }

  /// Bank number k, counting banks within groups within pseudochannels.
  function AtBank(c: Config, a: Addr, k: nat): Addr
    requires c.Valid()
  {
    var rem := k % c.BanksPerPch();
    a.(pch := k / c.BanksPerPch(), bg := rem / c.banks, bank := rem % c.banks)
  }

  ghost function FlatBank(c: Config, a: Addr): int
    requires c.Valid()
  {
    a.pch * c.BanksPerPch() + a.bg * c.banks + a.bank
  }

  ghost predicate NamesBank(c: Config, a: Addr) {
    0 <= a.pch < c.pchs && 0 <= a.bg < c.bgs && 0 <= a.bank < c.banks
  }

  /// Numbering the banks and naming them by number are inverse to each other.
  lemma {:induction false} BankNumbers(c: Config, a: Addr, k: nat)
    requires c.Valid() && k < c.TotalBanks()
    ensures NamesBank(c, AtBank(c, a, k)) && FlatBank(c, AtBank(c, a, k)) == k
  {
    var per := c.BanksPerPch();
    var rem := k % per;
    DivModSplit(k, per);
    DivModSplit(rem, c.banks);
    if k / per >= c.pchs { MulLe(c.pchs, k / per, per); assert false; }
    if rem / c.banks >= c.bgs { MulLe(c.bgs, rem / c.banks, c.banks); assert false; }
  }

  lemma {:induction false} BankNames(c: Config, a: Addr)
    requires c.Valid() && NamesBank(c, a)
    ensures 0 <= FlatBank(c, a) < c.TotalBanks() && AtBank(c, a, FlatBank(c, a)) == a
  {
    var inner := a.bg * c.banks + a.bank;
    DigitRange(a.bg, c.bgs, a.bank, c.banks);
    DigitRange(a.pch, c.pchs, inner, c.BanksPerPch());
    DigitDivMod(a.pch, inner, c.BanksPerPch());
    DigitDivMod(a.bg, a.bank, c.banks);
  }

  // ---------- chunks: the columns that share a row ----------

  function Chunk(c: Config, start: int, issued: int, n: int): (k: int)
    requires c.Valid() && issued < n
    ensures 1 <= k <= n - issued
  {
    Min(n - issued, c.columnsPerRow - Rem(start + issued, c.columnsPerRow))
  }

  lemma {:induction false} SamePage(s: int, cpr: int, i: int)
    requires cpr > 0 && 0 <= i < cpr - Rem(s, cpr)
    ensures Max(0, s + i) / cpr == Max(0, s) / cpr
  {
    if s >= 0 {
      DivModSplit(s, cpr);
      DigitDivMod(s / cpr, s % cpr + i, cpr);
      DigitDivMod(s / cpr, s % cpr, cpr);
    } else {
      var q, b := (-s) / cpr, (-s) % cpr;
      DivModSplit(-s, cpr);
      MulLe(0, q, cpr);
      hide Rem;
      assert s + i < cpr;
      DigitDivMod(0, Max(0, s + i), cpr);
      DigitDivMod(0, 0, cpr);
    }
  }

  /// The row does not change within a chunk, not even for columns below zero.
  lemma {:induction false} RowIsConstant(c: Config, a: Addr, offset: int, start: int, issued: int, n: int, i: int)
    requires c.Valid() && issued < n && 0 <= i < Chunk(c, start, issued, n)
    ensures EsdmAddr(c, a, offset, start + issued + i).row == EsdmAddr(c, a, offset, start + issued).row
  {
    SamePage(start + issued, c.columnsPerRow, i);
  }

  ghost function Rows(c: Config, start: int, issued: int, n: int): nat
    requires c.Valid()
    decreases n - issued
  {
    if issued >= n then 0 else 1 + Rows(c, start, issued + Chunk(c, start, issued, n), n)
  }

  ghost function CeilDiv(x: int, y: int): int
    requires y > 0
  {
    (x + y - 1) / y
  }

  lemma {:induction false} CeilDivStep(x: int, y: int)
    requires y > 0
    ensures CeilDiv(x + y, y) == CeilDiv(x, y) + 1
    ensures 0 < x <= y ==> CeilDiv(x, y) == 1
    ensures x <= 0 ==> CeilDiv(x, y) <= 0
    ensures x > 0 ==> CeilDiv(x, y) >= 1
  {
    DivideMore(x + y - 1, y);
    DivideNear(x + y - 1, y);
  }

  lemma {:induction false} DivideMore(z: int, y: int)
    requires y > 0
    ensures (z + y) / y == z / y + 1
  {
    var q, r := z / y, z % y;
    DivModSplit(z, y);
    assert (q + 1) * y == q * y + y;
    DigitDivMod(q + 1, r, y);
  }

  lemma {:induction false} DivideNear(z: int, y: int)
    requires y > 0
    ensures y <= z < 2 * y ==> z / y == 1
    ensures z < y ==> z / y <= 0
    ensures z >= y ==> z / y >= 1
  {
    var q := z / y;
    assert q >= 2 ==> q * y >= 2 * y;
    assert q >= 1 ==> q * y >= y;
    assert q <= 0 ==> q * y <= 0;
  }

  /// How many rows a run of n columns takes.
  lemma {:induction false} RowsFormula(c: Config, start: int, issued: int, n: int)
    requires c.Valid() && issued < n
    ensures Rows(c, start, issued, n) ==
              Max(1, CeilDiv(Rem(start + issued, c.columnsPerRow) + n - issued, c.columnsPerRow))
    decreases n - issued
  {
    hide CeilDiv;
    var s, cpr := start + issued, c.columnsPerRow;
    var r, m := Rem(s, cpr), n - issued;
    var k := Chunk(c, start, issued, n);
    CeilDivStep(r + m, cpr);
    if m > cpr - r {
      NextRowIsAligned(s, cpr);
      RowsFormula(c, start, issued + k, n);
      CeilDivStep(r + m - cpr, cpr);
    }
  }

  lemma {:induction false} MultipleHasNoRem(t: int, cpr: int)
    requires cpr > 0
    ensures Rem(t * cpr, cpr) == 0
  {
    DigitDivMod(t, 0, cpr);
    DigitDivMod(-t, 0, cpr);
    assert -(t * cpr) == (-t) * cpr;
  }

  lemma {:induction false} RemSplit(s: int, cpr: int) returns (q: int)
    requires cpr > 0
    ensures s == q * cpr + Rem(s, cpr)
  {
    if s >= 0 {
      DivModSplit(s, cpr);
      q := s / cpr;
    } else {
      DivModSplit(-s, cpr);
      q := -((-s) / cpr);
      assert q * cpr == -(((-s) / cpr) * cpr);
    }
  }

  lemma {:induction false} NextRowIsAligned(s: int, cpr: int)
    requires cpr > 0
    ensures Rem(s + cpr - Rem(s, cpr), cpr) == 0
  {
    hide Rem;
    var q := RemSplit(s, cpr);
    MultipleHasNoRem(q + 1, cpr);
    assert (q + 1) * cpr == q * cpr + cpr;
  }

  // ---------- the program of a token ----------

  ghost function PerBank(c: Config, cmd: Cmd, a: Addr, k: nat): seq<Op>
    requires c.Valid()
  {
    if k == 0 then [] else PerBank(c, cmd, a, k - 1) + [Command(cmd, AtBank(c, a, k - 1))]
  }

  ghost function Opened(c: Config, wanted: bool, cmd: Cmd, a: Addr): seq<Op>
    requires c.Valid()
  {
    if wanted then PerBank(c, cmd, a, c.TotalBanks()) else []
  }

  /// MACs over consecutive columns, in all banks at once.
  ghost function Macs(c: Config, base: Addr, first: int, k: nat): seq<Op>
    requires c.Valid()
  {
    if k == 0 then []
    else Macs(c, base, first, k - 1) + [Command(MAC, AllBanks(EsdmAddr(c, base, c.ktRow, first + k - 1)))]
  }

  ghost function QkChunk(c: Config, base: Addr, issued: int, n: int): seq<Op>
    requires c.Valid() && issued < n
  {
    var row := EsdmAddr(c, base, c.ktRow, c.ktCol + issued);
    Opened(c, c.qkActPre, ACT, row) +
    Macs(c, base, c.ktCol + issued, Chunk(c, c.ktCol, issued, n)) +
    Opened(c, c.qkActPre, PRE, row)
  }

  ghost function QkChunks(c: Config, base: Addr, issued: int, n: int): seq<Op>
    requires c.Valid()
    decreases n - issued
  {
    if issued >= n then []
    else QkChunk(c, base, issued, n) + QkChunks(c, base, issued + Chunk(c, c.ktCol, issued, n), n)
  }

  function SpmLatency(c: Config, chunk: int): int { Max(1, c.spmFixed + chunk * c.spmPerVoc) }

  ghost function PvRow(c: Config, row: Addr, chunk: int): seq<Op>
    requires c.Valid()
  {
    [ConfigureSpm(SpmLatency(c, chunk))] + Opened(c, c.spmActPre, ACT, row) +
    [Command(SPM, AllBanks(row))] + Opened(c, c.spmActPre, PRE, row)
  }

  ghost function PvChunks(c: Config, base: Addr, processed: int, n: int): seq<Op>
    requires c.Valid()
    decreases n - processed
  {
    if processed >= n then []
    else
      var k := Chunk(c, c.vCol, processed, n);
      PvRow(c, EsdmAddr(c, base, c.vRow, c.vCol + processed), k) + PvChunks(c, base, processed + k, n)
  }

  ghost function QkStage(c: Config, base: Addr, n: int): seq<Op>
    requires c.Valid()
  {
    if c.esdm then QkChunks(c, base, 0, n) else Macs(c, base, 0, Max(0, n))
  }

  ghost function PvStage(c: Config, base: Addr, n: int): seq<Op>
    requires c.Valid()
  {
    if c.esdm then PvChunks(c, base, 0, n) else PvRow(c, base, n)
  }

  /// Accumulations go round the banks.
  ghost function Accs(c: Config, base: Addr, k: nat): seq<Op>
    requires c.Valid()
  {
    if k == 0 then [] else Accs(c, base, k - 1) + [Command(ACC, AtBank(c, base, (k - 1) % c.TotalBanks()))]
  }

  ghost function ReadLatency(c: Config, bgmuReads: int): int {
    c.nCL + (Max(1, bgmuReads) - 1) * c.nCCDS + c.nBL
  }

  /// The reads go out nCCDS apart, at least one of them, and the delay lasts until the data of the last one has come,
  /// nCL + nBL after it went out.
  lemma {:induction false} ReadLatencyIsLast(c: Config, bgmuReads: int, j: nat)
    requires j < Max(1, bgmuReads)
    ensures j + 1 == Max(1, bgmuReads) ==> ReadLatency(c, bgmuReads) == j * c.nCCDS + c.nCL + c.nBL
    ensures c.nCCDS >= 0 ==> j * c.nCCDS + c.nCL + c.nBL <= ReadLatency(c, bgmuReads)
  {
    if c.nCCDS >= 0 { MulLe(j, Max(1, bgmuReads) - 1, c.nCCDS); }
  }

  ghost function ReadDelay(c: Config, bgmuReads: int): seq<Op> {
    if c.readAsDelay then [Delay(Max(1, ReadLatency(c, bgmuReads)))] else []
  }

  ghost function TokenProgram(c: Config, base: Addr, macs: int, maxVoc: int, accs: int, bgmuReads: int,
                              req: Request): seq<Op>
    requires c.Valid()
  {
    var elemax := AllBanks(EsdmAddr(c, base, c.ktRow, c.ktCol));
    QkStage(c, base, macs) + [Command(MOV, elemax), Command(EMUL, elemax)] + ReadDelay(c, bgmuReads) +
    (if maxVoc == 0 then [] else PvStage(c, base, maxVoc) + Accs(c, base, Max(0, accs))) + [Complete(req)]
  }
}
