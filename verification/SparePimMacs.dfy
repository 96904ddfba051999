/** The commands of a token's program, kind by kind: which banks, rows and columns they address, in which order, and
    how many rows a program opens.  */
module SparePimMacs {
  import opened Bits
  import opened SparePim
  import Hbm3
  import Timing

  /// The addresses of the commands of one kind, in the order of the program.
  ghost function Targets(ops: seq<Op>, cmd: Cmd): seq<Addr> {
    if ops == [] then []
    else
      var op := ops[|ops| - 1];
      Targets(ops[..|ops| - 1], cmd) + (if op.Command? && op.cmd == cmd then [op.addr] else [])
  }

  lemma {:induction false} OneMoreTarget(ops: seq<Op>, op: Op, cmd: Cmd)
    ensures Targets(ops + [op], cmd) == Targets(ops, cmd) + (if op.Command? && op.cmd == cmd then [op.addr] else [])
  {
    assert (ops + [op])[..|ops|] == ops;
  }

  lemma {:induction false} TargetsConcat(a: seq<Op>, b: seq<Op>, cmd: Cmd)
    ensures Targets(a + b, cmd) == Targets(a, cmd) + Targets(b, cmd)
  {
    if b == [] {
      assert a + b == a;
    } else {
      var init, op := b[..|b| - 1], b[|b| - 1];
      assert a + b == (a + init) + [op];
      assert b == init + [op];
      OneMoreTarget(a + init, op, cmd);
      TargetsConcat(a, init, cmd);
    }
  }

  /// All commands are of these kinds.
  ghost predicate Only(ops: seq<Op>, cmds: set<Cmd>) {
    forall op :: op in ops && op.Command? ==> op.cmd in cmds
  }

  lemma {:induction false} NoTargets(ops: seq<Op>, cmds: set<Cmd>, cmd: Cmd)
    requires Only(ops, cmds) && cmd !in cmds
    ensures Targets(ops, cmd) == []
  {
    if ops != [] {
      assert ops[|ops| - 1] in ops;
      NoTargets(ops[..|ops| - 1], cmds, cmd);
    }
  }

  // ---------- the parts of a program ----------

  lemma {:induction false} PerBankOnly(c: Config, cmd: Cmd, a: Addr, k: nat)
    requires c.Valid()
    ensures Only(PerBank(c, cmd, a, k), {cmd})
  {
    hide AtBank;
    if k > 0 { PerBankOnly(c, cmd, a, k - 1); }
  }

  lemma {:induction false} OpenedOnly(c: Config, wanted: bool, cmd: Cmd, a: Addr)
    requires c.Valid()
    ensures Only(Opened(c, wanted, cmd, a), {cmd})
  {
    PerBankOnly(c, cmd, a, c.TotalBanks());
  }

  /// The columns of keys from `first` on, in all banks.
  ghost function KeyColumns(c: Config, base: Addr, first: int, k: nat): seq<Addr>
    requires c.Valid()
  {
    seq(k, i requires 0 <= i < k => AllBanks(EsdmAddr(c, base, c.ktRow, first + i)))
  }

  lemma {:induction false} MacsTargets(c: Config, base: Addr, first: int, k: nat)
    requires c.Valid()
    ensures Targets(Macs(c, base, first, k), MAC) == KeyColumns(c, base, first, k) &&
            Only(Macs(c, base, first, k), {MAC})
  {
    hide EsdmAddr;
    if k > 0 {
      MacsTargets(c, base, first, k - 1);
      OneMoreTarget(Macs(c, base, first, k - 1), Command(MAC, AllBanks(EsdmAddr(c, base, c.ktRow, first + k - 1))),
                    MAC);
    }
  }

  lemma {:induction false} QkChunkTargets(c: Config, base: Addr, issued: int, n: int)
    requires c.Valid() && issued < n
    ensures Targets(QkChunk(c, base, issued, n), MAC) ==
            KeyColumns(c, base, c.ktCol + issued, Chunk(c, c.ktCol, issued, n))
    ensures Only(QkChunk(c, base, issued, n), {ACT, PRE, MAC})
  {
    hide EsdmAddr, Macs, Opened, Chunk, KeyColumns;
    var k := Chunk(c, c.ktCol, issued, n);
    var row := EsdmAddr(c, base, c.ktRow, c.ktCol + issued);
    var act, macs, pre := Opened(c, c.qkActPre, ACT, row), Macs(c, base, c.ktCol + issued, k),
                          Opened(c, c.qkActPre, PRE, row);
    OpenedOnly(c, c.qkActPre, ACT, row);
    OpenedOnly(c, c.qkActPre, PRE, row);
    NoTargets(act, {ACT}, MAC);
    NoTargets(pre, {PRE}, MAC);
    MacsTargets(c, base, c.ktCol + issued, k);
    hide Targets;
    TargetsConcat(act + macs, pre, MAC);
    TargetsConcat(act, macs, MAC);
  }

  lemma {:induction false} OnlyConcat(a: seq<Op>, b: seq<Op>, cmds: set<Cmd>)
    requires Only(a, cmds) && Only(b, cmds)
    ensures Only(a + b, cmds)
  {
  }

  lemma {:induction false} QkTargets(c: Config, base: Addr, issued: int, n: int)
    requires c.Valid()
    ensures Targets(QkChunks(c, base, issued, n), MAC) == KeyColumns(c, base, c.ktCol + issued, Max(0, n - issued))
    ensures Only(QkChunks(c, base, issued, n), {ACT, PRE, MAC})
    decreases n - issued
  {
    hide QkChunk, QkChunks, Targets, KeyColumns, Only, EsdmAddr;
    QkMore(c, base, issued, n);
    if issued < n {
      var k := Chunk(c, c.ktCol, issued, n);
      QkChunkTargets(c, base, issued, n);
      QkTargets(c, base, issued + k, n);
      TargetsConcat(QkChunk(c, base, issued, n), QkChunks(c, base, issued + k, n), MAC);
      OnlyConcat(QkChunk(c, base, issued, n), QkChunks(c, base, issued + k, n), {ACT, PRE, MAC});
      KeyColumnsJoin(c, base, c.ktCol + issued, k, n - issued - k);
    } else {
      NothingTargeted(c, base, c.ktCol + issued, {ACT, PRE, MAC});
    }
  }

  lemma {:induction false} NothingTargeted(c: Config, base: Addr, first: int, cmds: set<Cmd>)
    requires c.Valid()
    ensures KeyColumns(c, base, first, 0) == [] && Only([], cmds) && forall cmd :: Targets([], cmd) == []
  {
  }

  lemma {:induction false} QkMore(c: Config, base: Addr, issued: int, n: int)
    requires c.Valid()
    ensures QkChunks(c, base, issued, n) ==
            if issued >= n then []
            else QkChunk(c, base, issued, n) + QkChunks(c, base, issued + Chunk(c, c.ktCol, issued, n), n)
  {
  }

  lemma {:induction false} KeyColumnsJoin(c: Config, base: Addr, first: int, k: nat, m: nat)
    requires c.Valid()
    ensures KeyColumns(c, base, first, k) + KeyColumns(c, base, first + k, m) == KeyColumns(c, base, first, k + m)
  {
    hide EsdmAddr;
  }

  lemma {:induction false} QkStageOnly(c: Config, base: Addr, n: int)
    requires c.Valid()
    ensures Only(QkStage(c, base, n), {ACT, PRE, MAC})
  {
    QkTargets(c, base, 0, n);
    MacsTargets(c, base, 0, Max(0, n));
  }

  lemma {:induction false} PvRowTargets(c: Config, row: Addr, chunk: int)
    requires c.Valid()
    ensures Targets(PvRow(c, row, chunk), SPM) == [AllBanks(row)] && Only(PvRow(c, row, chunk), {ACT, PRE, SPM})
  {
    hide Targets, Opened, SpmLatency, Only;
    var head, act := [ConfigureSpm(SpmLatency(c, chunk))], Opened(c, c.spmActPre, ACT, row);
    var spm, pre := [Command(SPM, AllBanks(row))], Opened(c, c.spmActPre, PRE, row);
    OpenedOnly(c, c.spmActPre, ACT, row);
    OpenedOnly(c, c.spmActPre, PRE, row);
    NoTargets(act, {ACT}, SPM);
    NoTargets(pre, {PRE}, SPM);
    OneTarget(ConfigureSpm(SpmLatency(c, chunk)), SPM);
    OneTarget(Command(SPM, AllBanks(row)), SPM);
    TargetsConcat(head + act + spm, pre, SPM);
    TargetsConcat(head + act, spm, SPM);
    TargetsConcat(head, act, SPM);
    PvRowOnly(head, act, spm, pre);
  }

  lemma {:induction false} OneTarget(op: Op, cmd: Cmd)
    ensures Targets([op], cmd) == if op.Command? && op.cmd == cmd then [op.addr] else []
    ensures Only([op], if op.Command? then {op.cmd} else {})
  {
    OneMoreTarget([], op, cmd);
    assert [] + [op] == [op];
  }

  lemma {:induction false} PvRowOnly(head: seq<Op>, act: seq<Op>, spm: seq<Op>, pre: seq<Op>)
    requires Only(head, {}) && Only(act, {ACT}) && Only(spm, {SPM}) && Only(pre, {PRE})
    ensures Only(head + act + spm + pre, {ACT, PRE, SPM})
  {
  }

  /// The rows of the SPMs, first columns and all.
  ghost function ValueRows(c: Config, base: Addr, processed: int, n: int): seq<Addr>
    requires c.Valid()
    decreases n - processed
  {
    if processed >= n then []
    else
      [AllBanks(EsdmAddr(c, base, c.vRow, c.vCol + processed))] +
      ValueRows(c, base, processed + Chunk(c, c.vCol, processed, n), n)
  }

  lemma {:induction false} PvTargets(c: Config, base: Addr, processed: int, n: int)
    requires c.Valid()
    ensures Targets(PvChunks(c, base, processed, n), SPM) == ValueRows(c, base, processed, n)
    ensures Only(PvChunks(c, base, processed, n), {ACT, PRE, SPM})
    decreases n - processed
  {
    if processed < n {
      hide PvRow, EsdmAddr, Targets;
      var k := Chunk(c, c.vCol, processed, n);
      var row := EsdmAddr(c, base, c.vRow, c.vCol + processed);
      PvRowTargets(c, row, k);
      PvTargets(c, base, processed + k, n);
      TargetsConcat(PvRow(c, row, k), PvChunks(c, base, processed + k, n), SPM);
    }
  }

  lemma {:induction false} PvStageOnly(c: Config, base: Addr, n: int)
    requires c.Valid()
    ensures Only(PvStage(c, base, n), {ACT, PRE, SPM})
  {
    PvTargets(c, base, 0, n);
    PvRowTargets(c, base, n);
  }

  lemma {:induction false} AccsTargets(c: Config, base: Addr, k: nat)
    requires c.Valid()
    ensures |Targets(Accs(c, base, k), ACC)| == k && Only(Accs(c, base, k), {ACC})
    ensures forall i :: 0 <= i < k ==> Targets(Accs(c, base, k), ACC)[i] == AtBank(c, base, i % c.TotalBanks())
  {
    hide AtBank, Config.TotalBanks;
    if k > 0 {
      AccsTargets(c, base, k - 1);
      OneMoreTarget(Accs(c, base, k - 1), Command(ACC, AtBank(c, base, (k - 1) % c.TotalBanks())), ACC);
    }
  }

  // ---------- the whole program ----------

  /// The parts of a token's program, one after the other.
  ghost function FirstPart(c: Config, base: Addr, macs: int, bgmuReads: int): seq<Op>
    requires c.Valid()
  {
    var elemax := AllBanks(EsdmAddr(c, base, c.ktRow, c.ktCol));
    QkStage(c, base, macs) + [Command(MOV, elemax), Command(EMUL, elemax)] + ReadDelay(c, bgmuReads)
  }

  ghost function SecondPart(c: Config, base: Addr, maxVoc: int, accs: int): seq<Op>
    requires c.Valid()
  {
    if maxVoc == 0 then [] else PvStage(c, base, maxVoc) + Accs(c, base, Max(0, accs))
  }

  lemma {:induction false} PairTargets(a: Addr, cmd: Cmd)
    ensures Targets([Command(MOV, a), Command(EMUL, a)], cmd) == if cmd == MOV || cmd == EMUL then [a] else []
  {
    OneTarget(Command(MOV, a), cmd);
    OneMoreTarget([Command(MOV, a)], Command(EMUL, a), cmd);
    assert [Command(MOV, a), Command(EMUL, a)] == [Command(MOV, a)] + [Command(EMUL, a)];
  }

  lemma {:induction false} DelayOnly(c: Config, bgmuReads: int)
    ensures Only(ReadDelay(c, bgmuReads), {})
  {
  }

  lemma {:induction false} FirstPartTargets(c: Config, base: Addr, macs: int, bgmuReads: int, cmd: Cmd)
    requires c.Valid() && cmd in {ACT, MAC, MOV, EMUL, SPM, ACC}
    ensures Targets(FirstPart(c, base, macs, bgmuReads), cmd) ==
            if cmd == ACT || cmd == MAC then Targets(QkStage(c, base, macs), cmd)
            else if cmd == MOV || cmd == EMUL then [AllBanks(EsdmAddr(c, base, c.ktRow, c.ktCol))]
            else []
  {
    hide QkStage, EsdmAddr, Targets, ReadDelay, Only;
    var elemax := AllBanks(EsdmAddr(c, base, c.ktRow, c.ktCol));
    var qk, two, delay := QkStage(c, base, macs), [Command(MOV, elemax), Command(EMUL, elemax)],
                          ReadDelay(c, bgmuReads);
    QkStageOnly(c, base, macs);
    if cmd !in {ACT, MAC} { NoTargets(qk, {ACT, PRE, MAC}, cmd); }
    PairTargets(elemax, cmd);
    DelayOnly(c, bgmuReads);
    NoTargets(delay, {}, cmd);
    TargetsConcat(qk + two, delay, cmd);
    TargetsConcat(qk, two, cmd);
  }

  lemma {:induction false} SecondPartTargets(c: Config, base: Addr, maxVoc: int, accs: int, cmd: Cmd)
    requires c.Valid() && cmd in {ACT, MAC, MOV, EMUL, SPM, ACC}
    ensures Targets(SecondPart(c, base, maxVoc, accs), cmd) ==
            if maxVoc == 0 then []
            else if cmd == ACT || cmd == SPM then Targets(PvStage(c, base, maxVoc), cmd)
            else if cmd == ACC then Targets(Accs(c, base, Max(0, accs)), ACC)
            else []
  {
    hide PvStage, Accs;
    if maxVoc != 0 {
      var pv, acc := PvStage(c, base, maxVoc), Accs(c, base, Max(0, accs));
      PvStageOnly(c, base, maxVoc);
      AccsTargets(c, base, Max(0, accs));
      if cmd !in {ACT, SPM} { NoTargets(pv, {ACT, PRE, SPM}, cmd); }
      if cmd != ACC { NoTargets(acc, {ACC}, cmd); }
      hide Targets;
      TargetsConcat(pv, acc, cmd);
    }
  }

  /// Which part of a token's program the commands of a kind come from.
  lemma {:induction false} ProgramTargets(c: Config, base: Addr, macs: int, maxVoc: int, accs: int, bgmuReads: int,
                                          req: Request, cmd: Cmd)
    requires c.Valid() && cmd in {ACT, MAC, MOV, EMUL, SPM, ACC}
    ensures Targets(TokenProgram(c, base, macs, maxVoc, accs, bgmuReads, req), cmd) ==
            Targets(FirstPart(c, base, macs, bgmuReads), cmd) + Targets(SecondPart(c, base, maxVoc, accs), cmd)
  {
    var first, second := FirstPart(c, base, macs, bgmuReads), SecondPart(c, base, maxVoc, accs);
    NoTargets([Complete(req)], {}, cmd);
    hide Targets, QkStage, PvStage, Accs, ReadDelay, EsdmAddr;
    assert TokenProgram(c, base, macs, maxVoc, accs, bgmuReads, req) == first + second + [Complete(req)];
    TargetsConcat(first + second, [Complete(req)], cmd);
    TargetsConcat(first, second, cmd);
  }

  lemma {:induction false} MacTargets(c: Config, base: Addr, macs: int, maxVoc: int, accs: int, bgmuReads: int,
                                     req: Request)
    requires c.Valid()
    ensures Targets(TokenProgram(c, base, macs, maxVoc, accs, bgmuReads, req), MAC) ==
            KeyColumns(c, base, if c.esdm then c.ktCol else 0, Max(0, macs))
  {
    hide Macs, QkChunks, PvStage, Accs, ReadDelay, EsdmAddr, TokenProgram, FirstPart, SecondPart, KeyColumns;
    ProgramTargets(c, base, macs, maxVoc, accs, bgmuReads, req, MAC);
    FirstPartTargets(c, base, macs, bgmuReads, MAC);
    SecondPartTargets(c, base, maxVoc, accs, MAC);
    QkTargets(c, base, 0, macs);
    MacsTargets(c, base, 0, Max(0, macs));
    hide Targets;
  }

  /// A token's program holds as many MACs as it was asked for.  With ESDM the i-th of them goes to all banks at
  /// logical column ktCol + i (column 0 for those below it): the columns of a page lie side by side in one row, and the
  /// pages in consecutive rows from the token's own row and the row of the keys on, wrapped around the bank.  Without
  /// ESDM all of them go to the token's own address.
  lemma {:induction false} MacColumns(c: Config, base: Addr, macs: int, maxVoc: int, accs: int, bgmuReads: int,
                                      req: Request, i: nat)
    requires c.Valid() && i < macs
    ensures var targets := Targets(TokenProgram(c, base, macs, maxVoc, accs, bgmuReads, req), MAC);
            |targets| == macs && targets[i].pch == targets[i].bg == targets[i].bank == -1 &&
            if c.esdm then
              var column := Max(0, c.ktCol + i);
              targets[i].row == Rem(Max(0, base.row) + c.ktRow + column / c.columnsPerRow, c.rows) &&
              targets[i].col == column % c.columnsPerRow % c.cols
            else targets[i].row == base.row && targets[i].col == base.col
  {
    hide Targets, TokenProgram, KeyColumns, Rem;
    MacTargets(c, base, macs, maxVoc, accs, bgmuReads, req);
    KeyColumnAt(c, base, if c.esdm then c.ktCol else 0, macs, i);
  }

  lemma {:induction false} KeyColumnAt(c: Config, base: Addr, first: int, k: nat, i: nat)
    requires c.Valid() && i < k
    ensures var columns, column := KeyColumns(c, base, first, k), Max(0, first + i);
            |columns| == k && columns[i].pch == columns[i].bg == columns[i].bank == -1 &&
            if c.esdm then
              columns[i].row == Rem(Max(0, base.row) + c.ktRow + column / c.columnsPerRow, c.rows) &&
              columns[i].col == column % c.columnsPerRow % c.cols
            else columns[i].row == base.row && columns[i].col == base.col
  {
    hide Rem;
    assert KeyColumns(c, base, first, k)[i] == AllBanks(EsdmAddr(c, base, c.ktRow, first + i));
  }

  /// A token's program holds exactly the MACs of its first stage.
  lemma {:induction false} ProgramMacs(c: Config, base: Addr, macs: int, maxVoc: int, accs: int, bgmuReads: int,
                                       req: Request)
    requires c.Valid()
    ensures |Targets(TokenProgram(c, base, macs, maxVoc, accs, bgmuReads, req), MAC)| == Max(0, macs)
  {
    MacTargets(c, base, macs, maxVoc, accs, bgmuReads, req);
    hide Targets, TokenProgram, EsdmAddr;
  }

  /// The accumulations of a token with any values go round the banks: the i-th to bank number i mod the number of
  /// banks, at the token's own row and column.
  lemma {:induction false} AccBanks(c: Config, base: Addr, macs: int, maxVoc: int, accs: int, bgmuReads: int,
                                    req: Request)
    requires c.Valid()
    ensures var targets := Targets(TokenProgram(c, base, macs, maxVoc, accs, bgmuReads, req), ACC);
            |targets| == (if maxVoc == 0 then 0 else Max(0, accs)) &&
            forall i :: 0 <= i < |targets| ==>
              NamesBank(c, targets[i]) && FlatBank(c, targets[i]) == i % c.TotalBanks() &&
              targets[i].row == base.row && targets[i].col == base.col
  {
    hide Macs, QkChunks, PvStage, Accs, ReadDelay, EsdmAddr, TokenProgram;
    ProgramTargets(c, base, macs, maxVoc, accs, bgmuReads, req, ACC);
    FirstPartTargets(c, base, macs, bgmuReads, ACC);
    SecondPartTargets(c, base, maxVoc, accs, ACC);
    AccsTargets(c, base, Max(0, accs));
    hide Targets;
    var n := if maxVoc == 0 then 0 else Max(0, accs);
    forall i | 0 <= i < n
      ensures NamesBank(c, AtBank(c, base, i % c.TotalBanks()))
      ensures FlatBank(c, AtBank(c, base, i % c.TotalBanks())) == i % c.TotalBanks()
    {
      BankNumbers(c, base, i % c.TotalBanks());
    }
  }

  /// The softmax commands come once each, at the first column of the keys.
  lemma {:induction false} ElemaxTargets(c: Config, base: Addr, macs: int, maxVoc: int, accs: int, bgmuReads: int,
                                         req: Request, cmd: Cmd)
    requires c.Valid() && cmd in {MOV, EMUL}
    ensures var targets := Targets(TokenProgram(c, base, macs, maxVoc, accs, bgmuReads, req), cmd);
            |targets| == 1 && targets[0].pch == targets[0].bg == targets[0].bank == -1 &&
            if c.esdm then
              targets[0].row == Rem(Max(0, base.row) + c.ktRow + Max(0, c.ktCol) / c.columnsPerRow, c.rows) &&
              targets[0].col == Max(0, c.ktCol) % c.columnsPerRow % c.cols
            else targets[0].row == base.row && targets[0].col == base.col
  {
    hide Macs, QkChunks, PvStage, Accs, ReadDelay, Rem, TokenProgram;
    ProgramTargets(c, base, macs, maxVoc, accs, bgmuReads, req, cmd);
    FirstPartTargets(c, base, macs, bgmuReads, cmd);
    SecondPartTargets(c, base, maxVoc, accs, cmd);
    hide Targets;
  }

  // ---------- the rows of the SPMs ----------

  ghost function Page(c: Config, column: int): int
    requires c.Valid()
  {
    column / c.columnsPerRow
  }

  /// Where the j-th SPM goes, if the values start at column s of their first page on.
  ghost function SpmAt(c: Config, base: Addr, s: int, j: nat): Addr
    requires c.Valid()
  {
    AllBanks(base.(row := Rem(Max(0, base.row) + c.vRow + s / c.columnsPerRow + j, c.rows),
                   col := if j == 0 then s % c.columnsPerRow % c.cols else 0))
  }

  /// The next chunk starts a page.
  lemma {:induction false} NextPage(s: nat, m: nat, per: nat)
    requires per > 0 && m > 0
    ensures var left := per - s % per;
            if m <= left then (s + m - 1) / per == s / per
            else (s + left) / per == s / per + 1 && (s + left) % per == 0
  {
    var q, r := s / per, s % per;
    DivModSplit(s, per);
    if m <= per - r {
      DigitDivMod(q, r + m - 1, per);
    } else {
      assert (q + 1) * per == q * per + per;
      DigitDivMod(q + 1, 0, per);
    }
  }

  /// The first chunk ends with the values, or at the end of its page.
  lemma {:induction false} ChunkEnds(c: Config, processed: int, n: int)
    requires c.Valid() && c.vCol + processed >= 0 && processed < n
    ensures var k, s := Chunk(c, c.vCol, processed, n), c.vCol + processed;
            k <= n - processed &&
            if k == n - processed then Page(c, c.vCol + n - 1) == Page(c, s)
            else Page(c, s + k) == Page(c, s) + 1 && (s + k) % c.columnsPerRow == 0
  {
    NextPage(c.vCol + processed, n - processed, c.columnsPerRow);
  }

  lemma {:induction false} ValueRowsAt(c: Config, base: Addr, processed: int, n: int)
    requires c.Valid() && c.esdm && c.vCol + processed >= 0 && processed < n
    ensures var rows, s := ValueRows(c, base, processed, n), c.vCol + processed;
            |rows| == Page(c, c.vCol + n - 1) - Page(c, s) + 1 &&
            forall j :: 0 <= j < |rows| ==> rows[j] == SpmAt(c, base, s, j)
    decreases n - processed
  {
    hide Page, Chunk, ValueRows, SpmAt;
    var s, k := c.vCol + processed, Chunk(c, c.vCol, processed, n);
    ChunkEnds(c, processed, n);
    ValueRowsMore(c, base, processed, n);
    if k < n - processed {
      var rest := ValueRows(c, base, processed + k, n);
      ValueRowsAt(c, base, processed + k, n);
      forall j | 0 <= j < |rest| ensures rest[j] == SpmAt(c, base, s, j + 1) {
        SpmAtNext(c, base, s, s + k, j);
      }
    } else {
      NoValueRows(c, base, processed + k, n);
    }
  }

  lemma {:induction false} ValueRowsMore(c: Config, base: Addr, processed: int, n: int)
    requires c.Valid() && c.esdm && c.vCol + processed >= 0 && processed < n
    ensures ValueRows(c, base, processed, n) ==
            [SpmAt(c, base, c.vCol + processed, 0)] + ValueRows(c, base, processed + Chunk(c, c.vCol, processed, n), n)
  {
    hide Rem, Chunk;
  }

  lemma {:induction false} SpmAtNext(c: Config, base: Addr, s: nat, next: nat, j: nat)
    requires c.Valid() && Page(c, next) == Page(c, s) + 1 && next % c.columnsPerRow == 0
    ensures SpmAt(c, base, next, j) == SpmAt(c, base, s, j + 1)
  {
    hide Rem;
  }

  lemma {:induction false} NoValueRows(c: Config, base: Addr, processed: int, n: int)
    requires c.Valid() && processed >= n
    ensures ValueRows(c, base, processed, n) == []
  {
  }

  /// Whatever column they start at, every column of values has an SPM on its row.
  lemma {:induction false} ValueHasSpm(c: Config, base: Addr, processed: int, n: int, x: int) returns (j: nat)
    requires c.Valid() && processed <= x < n
    ensures j < |ValueRows(c, base, processed, n)|
    ensures ValueRows(c, base, processed, n)[j].row == EsdmAddr(c, base, c.vRow, c.vCol + x).row
    decreases n - processed
  {
    hide EsdmAddr;
    var k := Chunk(c, c.vCol, processed, n);
    if x < processed + k {
      RowIsConstant(c, base, c.vRow, c.vCol, processed, n, x - processed);
      j := 0;
    } else {
      j := ValueHasSpm(c, base, processed + k, n, x);
      j := j + 1;
    }
  }

  lemma {:induction false} SpmTargets(c: Config, base: Addr, macs: int, maxVoc: int, accs: int, bgmuReads: int,
                                      req: Request)
    requires c.Valid() && maxVoc > 0
    ensures Targets(TokenProgram(c, base, macs, maxVoc, accs, bgmuReads, req), SPM) ==
            if c.esdm then ValueRows(c, base, 0, maxVoc) else [AllBanks(base)]
  {
    hide Macs, QkChunks, PvChunks, PvRow, Accs, ReadDelay, EsdmAddr, TokenProgram, FirstPart, SecondPart, ValueRows;
    ProgramTargets(c, base, macs, maxVoc, accs, bgmuReads, req, SPM);
    FirstPartTargets(c, base, macs, bgmuReads, SPM);
    SecondPartTargets(c, base, maxVoc, accs, SPM);
    PvTargets(c, base, 0, maxVoc);
    PvRowTargets(c, base, maxVoc);
    hide Targets;
  }

  lemma {:induction false} NoSpmTargets(c: Config, base: Addr, macs: int, accs: int, bgmuReads: int, req: Request)
    requires c.Valid()
    ensures Targets(TokenProgram(c, base, macs, 0, accs, bgmuReads, req), SPM) == []
  {
    hide Targets, TokenProgram, FirstPart, QkStage;
    ProgramTargets(c, base, macs, 0, accs, bgmuReads, req, SPM);
    FirstPartTargets(c, base, macs, bgmuReads, SPM);
    SecondPartTargets(c, base, 0, accs, SPM);
  }

  /// With ESDM a token with maxVoc columns of values has one SPM for each row that they lie in, in the order of the
  /// rows from the token's own row and the first row of the values on; the first SPM starts at the values' first
  /// column, the others at column 0.
  lemma {:induction false} SpmRows(c: Config, base: Addr, macs: int, maxVoc: int, accs: int, bgmuReads: int,
                                   req: Request, j: nat)
    requires c.Valid() && c.esdm && maxVoc > 0 && c.vCol >= 0
    ensures var targets := Targets(TokenProgram(c, base, macs, maxVoc, accs, bgmuReads, req), SPM);
            var page := c.vCol / c.columnsPerRow;
            |targets| == (c.vCol + maxVoc - 1) / c.columnsPerRow - page + 1 &&
            (j < |targets| ==>
              targets[j].pch == targets[j].bg == targets[j].bank == -1 &&
              targets[j].row == Rem(Max(0, base.row) + c.vRow + page + j, c.rows) &&
              targets[j].col == if j == 0 then c.vCol % c.columnsPerRow % c.cols else 0)
  {
    hide Targets, TokenProgram, ValueRows, Rem;
    SpmTargets(c, base, macs, maxVoc, accs, bgmuReads, req);
    ValueRowsAt(c, base, 0, maxVoc);
  }

  // ---------- the rows that are opened ----------

  lemma {:induction false} PerBankTargets(c: Config, cmd: Cmd, a: Addr, k: nat)
    requires c.Valid()
    ensures |Targets(PerBank(c, cmd, a, k), cmd)| == k
  {
    hide AtBank;
    if k > 0 {
      PerBankTargets(c, cmd, a, k - 1);
      OneMoreTarget(PerBank(c, cmd, a, k - 1), Command(cmd, AtBank(c, a, k - 1)), cmd);
    }
  }

  /// What opening a row in all banks takes, if it is wanted at all.
  function PerRow(c: Config, wanted: bool): nat
    requires c.Valid()
  {
    if wanted then c.TotalBanks() else 0
  }

  /// What is done with the row does not open another one.
  lemma {:induction false} RowActs(c: Config, wanted: bool, row: Addr, head: seq<Op>, work: seq<Op>)
    requires c.Valid() && Only(head, {}) && (Only(work, {MAC}) || Only(work, {SPM}))
    ensures |Targets(head + Opened(c, wanted, ACT, row) + work + Opened(c, wanted, PRE, row), ACT)| == PerRow(c, wanted)
  {
    hide Config.TotalBanks;
    var act, pre := Opened(c, wanted, ACT, row), Opened(c, wanted, PRE, row);
    PerBankTargets(c, ACT, row, c.TotalBanks());
    OpenedOnly(c, wanted, PRE, row);
    NoTargets(head, {}, ACT);
    NoTargets(work, if Only(work, {MAC}) then {MAC} else {SPM}, ACT);
    NoTargets(pre, {PRE}, ACT);
    hide Opened, Only;
    TargetsConcat(head + act + work, pre, ACT);
    TargetsConcat(head + act, work, ACT);
    TargetsConcat(head, act, ACT);
  }

  lemma {:induction false} QkActs(c: Config, base: Addr, issued: int, n: int)
    requires c.Valid()
    ensures |Targets(QkChunks(c, base, issued, n), ACT)| == Rows(c, c.ktCol, issued, n) * PerRow(c, c.qkActPre)
    decreases n - issued
  {
    hide PerRow, Opened, EsdmAddr, Macs, Targets, Only;
    if issued < n {
      var k := Chunk(c, c.ktCol, issued, n);
      var row := EsdmAddr(c, base, c.ktRow, c.ktCol + issued);
      MacsTargets(c, base, c.ktCol + issued, k);
      OnlyNothing({});
      RowActs(c, c.qkActPre, row, [], Macs(c, base, c.ktCol + issued, k));
      assert [] + Opened(c, c.qkActPre, ACT, row) == Opened(c, c.qkActPre, ACT, row);
      QkActs(c, base, issued + k, n);
      TargetsConcat(QkChunk(c, base, issued, n), QkChunks(c, base, issued + k, n), ACT);
      OneMoreRow(Rows(c, c.ktCol, issued + k, n), PerRow(c, c.qkActPre));
    } else {
      NothingTargeted(c, base, 0, {});
    }
  }

  lemma {:induction false} OnlyNothing(cmds: set<Cmd>)
    ensures Only([], cmds)
  {
  }

  lemma {:induction false} OneMoreRow(n: nat, each: nat)
    ensures (1 + n) * each == each + n * each
  {
  }

  lemma {:induction false} PvRowActs(c: Config, row: Addr, chunk: int)
    requires c.Valid()
    ensures |Targets(PvRow(c, row, chunk), ACT)| == PerRow(c, c.spmActPre)
  {
    hide Opened, Targets, SpmLatency, PerRow;
    RowActs(c, c.spmActPre, row, [ConfigureSpm(SpmLatency(c, chunk))], [Command(SPM, AllBanks(row))]);
  }

  lemma {:induction false} PvActs(c: Config, base: Addr, processed: int, n: int)
    requires c.Valid()
    ensures |Targets(PvChunks(c, base, processed, n), ACT)| == Rows(c, c.vCol, processed, n) * PerRow(c, c.spmActPre)
    ensures |Targets(PvChunks(c, base, processed, n), SPM)| == Rows(c, c.vCol, processed, n)
    decreases n - processed
  {
    hide PerRow, PvRow, EsdmAddr, Targets;
    if processed < n {
      var k := Chunk(c, c.vCol, processed, n);
      var row := EsdmAddr(c, base, c.vRow, c.vCol + processed);
      PvRowActs(c, row, k);
      PvRowTargets(c, row, k);
      PvActs(c, base, processed + k, n);
      TargetsConcat(PvRow(c, row, k), PvChunks(c, base, processed + k, n), ACT);
      TargetsConcat(PvRow(c, row, k), PvChunks(c, base, processed + k, n), SPM);
      OneMoreRow(Rows(c, c.vCol, processed + k, n), PerRow(c, c.spmActPre));
    } else {
      NothingTargeted(c, base, 0, {});
    }
  }

  /// With ESDM a token activates every bank once for each row of keys and each row of values, as far as its options
  /// let it activate at all, and sends one SPM for each row of values.
  lemma {:induction false} ProgramActs(c: Config, base: Addr, macs: int, maxVoc: int, accs: int, bgmuReads: int,
                                       req: Request)
    requires c.Valid() && c.esdm && maxVoc >= 0
    ensures var ops := TokenProgram(c, base, macs, maxVoc, accs, bgmuReads, req);
            |Targets(ops, ACT)| == Rows(c, c.ktCol, 0, macs) * PerRow(c, c.qkActPre) +
                                   Rows(c, c.vCol, 0, maxVoc) * PerRow(c, c.spmActPre) &&
            |Targets(ops, SPM)| == Rows(c, c.vCol, 0, maxVoc)
  {
    hide Targets, TokenProgram, FirstPart, SecondPart, PvRow, QkChunks, PvChunks, EsdmAddr, PerRow, Chunk;
    ProgramTargets(c, base, macs, maxVoc, accs, bgmuReads, req, ACT);
    ProgramTargets(c, base, macs, maxVoc, accs, bgmuReads, req, SPM);
    FirstPartTargets(c, base, macs, bgmuReads, ACT);
    FirstPartTargets(c, base, macs, bgmuReads, SPM);
    SecondPartTargets(c, base, maxVoc, accs, ACT);
    SecondPartTargets(c, base, maxVoc, accs, SPM);
    QkActs(c, base, 0, macs);
    PvActs(c, base, 0, maxVoc);
  }

  // ---------- the order of the parts ----------

  /// The place of a kind of command in a token.
  function Turn(cmd: Cmd): nat {
    match cmd
    case MAC => 1
    case MOV => 2
    case EMUL => 3
    case SPM => 4
    case ACC => 5
    case _ => 0
  }

  predicate IsWork(op: Op) { op.Command? && Turn(op.cmd) > 0 }

  /// Commands that compute come in their turn.
  ghost predicate InTurn(ops: seq<Op>, from: nat, last: nat) {
    (forall op :: op in ops && IsWork(op) ==> from <= Turn(op.cmd) <= last) &&
    forall i, j :: 0 <= i < j < |ops| && IsWork(ops[i]) && IsWork(ops[j]) ==> Turn(ops[i].cmd) <= Turn(ops[j].cmd)
  }

  lemma {:induction false} OnlyInTurn(ops: seq<Op>, cmds: set<Cmd>, turn: nat)
    requires Only(ops, cmds) && forall cmd :: cmd in cmds ==> Turn(cmd) == 0 || Turn(cmd) == turn
    ensures InTurn(ops, turn, turn)
  {
    forall i, j | 0 <= i < j < |ops| && IsWork(ops[i]) && IsWork(ops[j])
      ensures Turn(ops[i].cmd) <= Turn(ops[j].cmd)
    {
      assert ops[i] in ops && ops[j] in ops;
    }
  }

  lemma {:induction false} TurnsConcat(a: seq<Op>, b: seq<Op>, from: nat, mid: nat, next: nat, last: nat)
    requires InTurn(a, from, mid) && InTurn(b, next, last) && from <= mid <= next <= last
    ensures InTurn(a + b, from, last)
  {
    var ops := a + b;
    forall i, j | 0 <= i < j < |ops| && IsWork(ops[i]) && IsWork(ops[j])
      ensures Turn(ops[i].cmd) <= Turn(ops[j].cmd)
    {
      if i < |a| <= j {
        assert ops[i] in a && ops[j] in b;
      }
    }
  }

  /// All MACs of a token come before its MOV, that before its EMUL, then its SPMs, then its accumulations.
  lemma {:induction false} ProgramInTurn(c: Config, base: Addr, macs: int, maxVoc: int, accs: int, bgmuReads: int,
                                         req: Request)
    requires c.Valid()
    ensures InTurn(TokenProgram(c, base, macs, maxVoc, accs, bgmuReads, req), 1, 5)
  {
    hide QkStage, PvStage, Accs, EsdmAddr, InTurn;
    var elemax := AllBanks(EsdmAddr(c, base, c.ktRow, c.ktCol));
    var qk, mov, emul, delay := QkStage(c, base, macs), [Command(MOV, elemax)], [Command(EMUL, elemax)],
                                ReadDelay(c, bgmuReads);
    QkStageOnly(c, base, macs);
    OnlyInTurn(qk, {ACT, PRE, MAC}, 1);
    OnlyInTurn(mov, {MOV}, 2);
    OnlyInTurn(emul, {EMUL}, 3);
    OnlyInTurn(delay, {}, 3);
    TurnsConcat(qk, mov, 1, 1, 2, 2);
    TurnsConcat(qk + mov, emul, 1, 2, 3, 3);
    TurnsConcat(qk + mov + emul, delay, 1, 3, 3, 3);
    var first := qk + mov + emul + delay;
    assert first == FirstPart(c, base, macs, bgmuReads);
    SecondInTurn(c, base, maxVoc, accs);
    var second := SecondPart(c, base, maxVoc, accs);
    TurnsConcat(first, second, 1, 3, 4, 5);
    OnlyInTurn([Complete(req)], {}, 5);
    TurnsConcat(first + second, [Complete(req)], 1, 5, 5, 5);
    assert TokenProgram(c, base, macs, maxVoc, accs, bgmuReads, req) == first + second + [Complete(req)];
  }

  lemma {:induction false} SecondInTurn(c: Config, base: Addr, maxVoc: int, accs: int)
    requires c.Valid()
    ensures InTurn(SecondPart(c, base, maxVoc, accs), 4, 5)
  {
    hide PvStage, Accs, InTurn;
    if maxVoc == 0 {
      OnlyInTurn([], {}, 4);
      OnlyInTurn([], {}, 5);
      TurnsConcat([], [], 4, 4, 5, 5);
      assert [] + [] == SecondPart(c, base, maxVoc, accs);
    } else {
      PvStageOnly(c, base, maxVoc);
      AccsTargets(c, base, Max(0, accs));
      OnlyInTurn(PvStage(c, base, maxVoc), {ACT, PRE, SPM}, 4);
      OnlyInTurn(Accs(c, base, Max(0, accs)), {ACC}, 5);
      TurnsConcat(PvStage(c, base, maxVoc), Accs(c, base, Max(0, accs)), 4, 4, 5, 5);
    }
  }

  // ---------- what a device has seen ----------

  /// The addresses of the commands of one kind that a device has seen, in order.
  ghost function AddressesOf(trace: seq<Timing.Event>, code: nat): seq<seq<int>> {
    if trace == [] then []
    else
      var e := trace[|trace| - 1];
      AddressesOf(trace[..|trace| - 1], code) + (if e.cmd == code then [e.addr] else [])
  }

  lemma {:induction false} OneMoreAddress(trace: seq<Timing.Event>, e: Timing.Event, code: nat)
    ensures AddressesOf(trace + [e], code) == AddressesOf(trace, code) + (if e.cmd == code then [e.addr] else [])
  {
    assert (trace + [e])[..|trace|] == trace;
  }
}
