/** What the program of a token does to the banks of a channel, and when it keeps to the protocol: activates hit
    closed banks, and multiply-accumulates find their row open everywhere.  */
module SparePimProtocol {
  import opened Bits
  import opened Options
  import opened SparePim

  /// The open row of every bank, the device's present SPM latency, the latency each SPM so far ran with,
  /// and whether every operation so far was allowed.
  datatype Machine = Machine(open: seq<Option<int>>, spm: int, latencies: seq<int>, ok: bool)

  ghost predicate Addresses(c: Config, a: Addr, k: nat)
    requires c.Valid()
  {
    var b := AtBank(c, a, k);
    (a.pch == -1 || a.pch == b.pch) && (a.bg == -1 || a.bg == b.bg) && (a.bank == -1 || a.bank == b.bank)
  }

  ghost predicate AllClosed(m: Machine) {
    forall k :: 0 <= k < |m.open| ==> m.open[k].None?
  }

  ghost predicate OpenOn(c: Config, m: Machine, a: Addr)
    requires c.Valid()
  {
    forall k :: 0 <= k < |m.open| && Addresses(c, a, k) ==> m.open[k] == Some(a.row)
  }

  ghost predicate ClosedAt(c: Config, m: Machine, a: Addr)
    requires c.Valid()
  {
    forall k :: 0 <= k < |m.open| && Addresses(c, a, k) ==> m.open[k].None?
  }

  ghost function SetRow(c: Config, open: seq<Option<int>>, a: Addr, row: Option<int>): seq<Option<int>>
    requires c.Valid()
  {
    seq(|open|, k requires 0 <= k < |open| => if Addresses(c, a, k) then row else open[k])
  }

  /// Activates hit closed banks, multiply-accumulates find their row open in every bank they address, and a
  /// request ends with every bank closed.
  ghost predicate Permitted(c: Config, m: Machine, op: Op)
    requires c.Valid()
  {
    match op
    case Command(cmd, a) =>
      (match cmd
       case ACT => ClosedAt(c, m, a)
       case MAC | SPM => OpenOn(c, m, a)
       case _ => true)
    case Complete(_) => AllClosed(m)
    case _ => true
  }

  ghost function Step(c: Config, m: Machine, op: Op): Machine
    requires c.Valid()
  {
    var m1 := m.(ok := m.ok && Permitted(c, m, op));
    match op
    case Command(cmd, a) =>
      (match cmd
       case ACT => m1.(open := SetRow(c, m.open, a, Some(a.row)))
       case PRE => m1.(open := SetRow(c, m.open, a, None))
       case SPM => m1.(latencies := m.latencies + [m.spm])
       case _ => m1)
    case ConfigureSpm(cycles) => m1.(spm := cycles)
    case _ => m1
  }

  /// From first to last.
  ghost function Exec(c: Config, m: Machine, ops: seq<Op>): Machine
    requires c.Valid()
  {
    if ops == [] then m else Step(c, Exec(c, m, ops[..|ops| - 1]), ops[|ops| - 1])
  }

  lemma {:induction false} ExecMore(c: Config, m: Machine, ops: seq<Op>, op: Op)
    requires c.Valid()
    ensures Exec(c, m, ops + [op]) == Step(c, Exec(c, m, ops), op)
    ensures Exec(c, m, [op]) == Step(c, m, op) && Exec(c, m, []) == m
  {
    assert (ops + [op])[..|ops|] == ops;
    assert [op][..0] == [];
  }

  lemma {:induction false} ExecConcat(c: Config, m: Machine, a: seq<Op>, b: seq<Op>)
    requires c.Valid()
    ensures Exec(c, m, a + b) == Exec(c, Exec(c, m, a), b)
  {
    if b == [] {
      assert a + b == a;
    } else {
      var b', op := b[..|b| - 1], b[|b| - 1];
      assert a + b == (a + b') + [op] && b == b' + [op];
      ExecConcat(c, m, a, b');
      ExecMore(c, m, a + b', op);
      ExecMore(c, Exec(c, m, a), b', op);
    }
  }

  /// Operation i of the list was permitted in the state it found.
  ghost predicate PermittedAt(c: Config, m: Machine, ops: seq<Op>, i: nat)
    requires c.Valid() && i < |ops|
  {
    Permitted(c, Exec(c, m, ops[..i]), ops[i])
  }

  lemma {:induction false} OkMeansPermitted(c: Config, m: Machine, ops: seq<Op>)
    requires c.Valid()
    ensures Exec(c, m, ops).ok <==> m.ok && forall i :: 0 <= i < |ops| ==> PermittedAt(c, m, ops, i)
  {
    hide Permitted;
    if ops == [] {
      ExecMore(c, m, [], Delay(0));
    } else {
      var n := |ops| - 1;
      var before := ops[..n];
      OkMeansPermitted(c, m, before);
      assert Exec(c, m, ops).ok <==> Exec(c, m, before).ok && PermittedAt(c, m, ops, n);
      hide Exec;
      forall i | 0 <= i < n ensures PermittedAt(c, m, ops, i) <==> PermittedAt(c, m, before, i) {
        assert before[..i] == ops[..i];
      }
    }
  }

  /// What is allowed to the end was allowed so far; latencies are only added.
  lemma {:induction false} ExecPrefix(c: Config, m: Machine, a: seq<Op>, b: seq<Op>)
    requires c.Valid()
    ensures Exec(c, m, a + b).ok ==> Exec(c, m, a).ok
    ensures Exec(c, m, a).latencies <= Exec(c, m, a + b).latencies
  {
    hide Permitted;
    if b == [] {
      assert a + b == a;
    } else {
      var b', op := b[..|b| - 1], b[|b| - 1];
      assert a + b == (a + b') + [op];
      ExecPrefix(c, m, a, b');
      ExecMore(c, m, a + b', op);
    }
  }

  lemma {:induction false} AddressesOne(c: Config, a: Addr, j: nat, k: nat)
    requires c.Valid() && j < c.TotalBanks() && k < c.TotalBanks()
    ensures Addresses(c, AtBank(c, a, j), k) <==> j == k
    ensures Addresses(c, AllBanks(a), k)
  {
    BankNumbers(c, a, j);
    BankNumbers(c, a, k);
    hide Config.BanksPerPch;
    assert AtBank(c, AtBank(c, a, j), k) == AtBank(c, a, k);
  }

  ghost function Uniform(c: Config, row: Option<int>, k: nat): seq<Option<int>>
    requires c.Valid() && k <= c.TotalBanks()
  {
    seq(c.TotalBanks(), i => if i < k then row else None)
  }

  ghost predicate Ready(c: Config, m: Machine)
    requires c.Valid()
  {
    m.open == Uniform(c, None, 0)
  }

  lemma {:induction false} ActivateBanks(c: Config, m: Machine, a: Addr, k: nat)
    requires c.Valid() && Ready(c, m) && k <= c.TotalBanks()
    ensures Exec(c, m, PerBank(c, ACT, a, k)) == m.(open := Uniform(c, Some(a.row), k))
  {
    if k > 0 {
      ActivateBanks(c, m, a, k - 1);
      ExecMore(c, m, PerBank(c, ACT, a, k - 1), Command(ACT, AtBank(c, a, k - 1)));
      var b := AtBank(c, a, k - 1);
      assert b.row == a.row;
      hide Exec, AtBank, Addresses;
      forall i: nat | i < c.TotalBanks() ensures Addresses(c, b, i) <==> i == k - 1 {
        AddressesOne(c, a, k - 1, i);
      }
      assert SetRow(c, Uniform(c, Some(a.row), k - 1), b, Some(a.row)) == Uniform(c, Some(a.row), k);
    } else {
      assert Uniform(c, Some(a.row), 0) == Uniform(c, None, 0);
    }
  }

  ghost predicate ClosedBelow(c: Config, open: seq<Option<int>>, k: nat)
    requires c.Valid()
  {
    |open| == c.TotalBanks() && k <= |open| && forall i :: 0 <= i < k ==> open[i] == None
  }

  /// Precharging every bank closes them, whatever was open.
  lemma {:induction false} PrechargeBanks(c: Config, m: Machine, a: Addr, k: nat)
    requires c.Valid() && |m.open| == c.TotalBanks() && k <= c.TotalBanks()
    ensures var m' := Exec(c, m, PerBank(c, PRE, a, k));
            ClosedBelow(c, m'.open, k) && m' == m.(open := m'.open)
  {
    if k > 0 {
      PrechargeBanks(c, m, a, k - 1);
      ExecMore(c, m, PerBank(c, PRE, a, k - 1), Command(PRE, AtBank(c, a, k - 1)));
      var b := AtBank(c, a, k - 1);
      forall i: nat | i < c.TotalBanks() ensures Addresses(c, b, i) <==> i == k - 1 {
        AddressesOne(c, a, k - 1, i);
      }
    }
  }

  lemma {:induction false} OpenAll(c: Config, m: Machine, a: Addr)
    requires c.Valid() && Ready(c, m)
    ensures Exec(c, m, Opened(c, true, ACT, a)) == m.(open := Uniform(c, Some(a.row), c.TotalBanks()))
  {
    ActivateBanks(c, m, a, c.TotalBanks());
  }

  lemma {:induction false} CloseAll(c: Config, m: Machine, a: Addr)
    requires c.Valid() && |m.open| == c.TotalBanks()
    ensures Exec(c, m, Opened(c, true, PRE, a)) == m.(open := Uniform(c, None, 0))
  {
    PrechargeBanks(c, m, a, c.TotalBanks());
    var m' := Exec(c, m, PerBank(c, PRE, a, c.TotalBanks()));
    assert m'.open == Uniform(c, None, 0);
  }

  /// Row r open in every bank, or every bank closed.
  ghost predicate AllOn(c: Config, m: Machine, row: Option<int>)
    requires c.Valid()
  {
    m.open == Uniform(c, row, c.TotalBanks())
  }

  lemma {:induction false} UniformNone(c: Config)
    requires c.Valid()
    ensures Uniform(c, None, 0) == Uniform(c, None, c.TotalBanks())
  {
  }

  lemma {:induction false} OpenOnAll(c: Config, m: Machine, row: Option<int>, a: Addr)
    requires c.Valid() && AllOn(c, m, row)
    ensures OpenOn(c, m, AllBanks(a)) <==> row == Some(a.row)
  {
    forall k: nat | k < c.TotalBanks() ensures Addresses(c, AllBanks(a), k) {
      AddressesOne(c, a, k, k);
    }
    assert m.open[0] == row;
  }

  // ---------- the stages of a token ----------

  /// MACs on the row that is open everywhere.
  lemma {:induction false} MacsOnRow(c: Config, m: Machine, base: Addr, first: int, k: nat, row: int)
    requires c.Valid() && AllOn(c, m, Some(row))
    requires forall i :: first <= i < first + k ==> EsdmAddr(c, base, c.ktRow, i).row == row
    ensures Exec(c, m, Macs(c, base, first, k)) == m
  {
    hide EsdmAddr, AllOn, OpenOn;
    if k > 0 {
      var last := EsdmAddr(c, base, c.ktRow, first + k - 1);
      MacsOnRow(c, m, base, first, k - 1, row);
      ExecMore(c, m, Macs(c, base, first, k - 1), Command(MAC, AllBanks(last)));
      OpenOnAll(c, m, Some(row), last);
    } else {
      ExecMore(c, m, [], Delay(0));
    }
  }

  /// MACs with every bank closed.
  lemma {:induction false} MacsOnClosed(c: Config, m: Machine, base: Addr, first: int, k: nat)
    requires c.Valid() && AllOn(c, m, None)
    ensures Exec(c, m, Macs(c, base, first, k)) == m.(ok := m.ok && k == 0)
  {
    hide EsdmAddr, OpenOn, Uniform, Exec;
    if k > 0 {
      var last := EsdmAddr(c, base, c.ktRow, first + k - 1);
      MacsOnClosed(c, m, base, first, k - 1);
      ExecMore(c, m, Macs(c, base, first, k - 1), Command(MAC, AllBanks(last)));
      OpenOnAll(c, m.(ok := m.ok && k - 1 == 0), None, last);
    } else {
      ExecMore(c, m, [], Delay(0));
    }
  }

  /// One chunk of the first stage leaves the banks as they were; its MACs were allowed if and only if it
  /// opened their row first.
  lemma {:induction false} QkChunkRun(c: Config, m: Machine, base: Addr, issued: int, n: int)
    requires c.Valid() && Ready(c, m) && issued < n
    ensures Exec(c, m, QkChunk(c, base, issued, n)) == m.(ok := m.ok && c.qkActPre)
  {
    hide Exec, Uniform, EsdmAddr, Macs, Opened;
    var row := EsdmAddr(c, base, c.ktRow, c.ktCol + issued);
    var k := Chunk(c, c.ktCol, issued, n);
    var open, macs, close := Opened(c, c.qkActPre, ACT, row), Macs(c, base, c.ktCol + issued, k),
                             Opened(c, c.qkActPre, PRE, row);
    ExecConcat(c, m, open + macs, close);
    ExecConcat(c, m, open, macs);
    if c.qkActPre {
      forall i | c.ktCol + issued <= i < c.ktCol + issued + k
        ensures EsdmAddr(c, base, c.ktRow, i).row == row.row
      {
        RowIsConstant(c, base, c.ktRow, c.ktCol, issued, n, i - c.ktCol - issued);
      }
      OpenAll(c, m, row);
      var m1 := Exec(c, m, open);
      MacsOnRow(c, m1, base, c.ktCol + issued, k, row.row);
      UniformLength(c, Some(row.row), c.TotalBanks());
      CloseAll(c, m1, row);
    } else {
      NotOpened(c, m, ACT, row);
      UniformNone(c);
      MacsOnClosed(c, m, base, c.ktCol + issued, k);
      NotOpened(c, m.(ok := false), PRE, row);
    }
  }

  lemma {:induction false} UniformLength(c: Config, row: Option<int>, k: nat)
    requires c.Valid() && k <= c.TotalBanks()
    ensures |Uniform(c, row, k)| == c.TotalBanks()
  {
  }

  lemma {:induction false} NotOpened(c: Config, m: Machine, cmd: Cmd, a: Addr)
    requires c.Valid()
    ensures Exec(c, m, Opened(c, false, cmd, a)) == m
  {
  }

  lemma {:induction false} QkChunksRun(c: Config, m: Machine, base: Addr, issued: int, n: int)
    requires c.Valid() && Ready(c, m)
    ensures Exec(c, m, QkChunks(c, base, issued, n)) == m.(ok := m.ok && (issued >= n || c.qkActPre))
    decreases n - issued
  {
    hide Exec, QkChunk;
    if issued < n {
      var next := issued + Chunk(c, c.ktCol, issued, n);
      QkChunkRun(c, m, base, issued, n);
      ExecConcat(c, m, QkChunk(c, base, issued, n), QkChunks(c, base, next, n));
      QkChunksRun(c, Exec(c, m, QkChunk(c, base, issued, n)), base, next, n);
    } else {
      ExecMore(c, m, [], Delay(0));
    }
  }

  lemma {:induction false} QkStageRun(c: Config, m: Machine, base: Addr, n: int)
    requires c.Valid() && Ready(c, m)
    ensures Exec(c, m, QkStage(c, base, n)) == m.(ok := m.ok && (n <= 0 || (c.esdm && c.qkActPre)))
  {
    hide Exec, QkChunks;
    if c.esdm {
      QkChunksRun(c, m, base, 0, n);
    } else {
      UniformNone(c);
      MacsOnClosed(c, m, base, 0, Max(0, n));
    }
  }

  /// One row of the second stage: the SPM runs with the latency of its own chunk, on the one row that is
  /// open in every bank, if and only if activates are enabled.
  lemma {:induction false} PvRowRun(c: Config, m: Machine, row: Addr, chunk: int)
    requires c.Valid() && Ready(c, m)
    ensures var latency := SpmLatency(c, chunk);
            Exec(c, m, PvRow(c, row, chunk)) ==
              m.(spm := latency, latencies := m.latencies + [latency], ok := m.ok && c.spmActPre)
  {
    hide Exec, Uniform, Opened;
    var latency := SpmLatency(c, chunk);
    var configure, open := [ConfigureSpm(latency)], Opened(c, c.spmActPre, ACT, row);
    var spm, close := [Command(SPM, AllBanks(row))], Opened(c, c.spmActPre, PRE, row);
    ExecConcat(c, m, configure + open + spm, close);
    ExecConcat(c, m, configure + open, spm);
    ExecConcat(c, m, configure, open);
    ExecMore(c, m, [], configure[0]);
    var m1 := m.(spm := latency);
    if c.spmActPre {
      OpenAll(c, m1, row);
      var m2 := m1.(open := Uniform(c, Some(row.row), c.TotalBanks()));
      ExecMore(c, m2, [], spm[0]);
      OpenOnAll(c, m2, Some(row.row), row);
      UniformLength(c, Some(row.row), c.TotalBanks());
      CloseAll(c, Step(c, m2, spm[0]), row);
    } else {
      NotOpened(c, m1, ACT, row);
      ExecMore(c, m1, [], spm[0]);
      UniformNone(c);
      OpenOnAll(c, m1, None, row);
      NotOpened(c, Step(c, m1, spm[0]), PRE, row);
    }
  }

  /// The latency each SPM of a token should run with.
  ghost function Latencies(c: Config, processed: int, n: int): seq<int>
    requires c.Valid()
    decreases n - processed
  {
    if processed >= n then []
    else
      var k := Chunk(c, c.vCol, processed, n);
      [SpmLatency(c, k)] + Latencies(c, processed + k, n)
  }

  ghost function TokenLatencies(c: Config, n: int): seq<int>
    requires c.Valid()
  {
    if n == 0 then [] else if c.esdm then Latencies(c, 0, n) else [SpmLatency(c, n)]
  }

  lemma {:induction false} PvChunksRun(c: Config, m: Machine, base: Addr, processed: int, n: int) returns (m': Machine)
    requires c.Valid() && Ready(c, m)
    ensures m' == Exec(c, m, PvChunks(c, base, processed, n)) && Ready(c, m')
    ensures m'.latencies == m.latencies + Latencies(c, processed, n)
    ensures m'.ok == (m.ok && (processed >= n || c.spmActPre))
    decreases n - processed
  {
    hide Exec, PvRow;
    if processed < n {
      var k := Chunk(c, c.vCol, processed, n);
      var row := EsdmAddr(c, base, c.vRow, c.vCol + processed);
      PvRowRun(c, m, row, k);
      ExecConcat(c, m, PvRow(c, row, k), PvChunks(c, base, processed + k, n));
      m' := PvChunksRun(c, Exec(c, m, PvRow(c, row, k)), base, processed + k, n);
    } else {
      ExecMore(c, m, [], Delay(0));
      m' := m;
    }
  }

  lemma {:induction false} AccsRun(c: Config, m: Machine, base: Addr, k: nat)
    requires c.Valid()
    ensures Exec(c, m, Accs(c, base, k)) == m
  {
    if k > 0 {
      AccsRun(c, m, base, k - 1);
      ExecMore(c, m, Accs(c, base, k - 1), Command(ACC, AtBank(c, base, (k - 1) % c.TotalBanks())));
    }
  }

  lemma {:induction false} MiddleRun(c: Config, m: Machine, a: Addr, bgmuReads: int)
    requires c.Valid()
    ensures Exec(c, m, [Command(MOV, a), Command(EMUL, a)] + ReadDelay(c, bgmuReads)) == m
  {
    var both := [Command(MOV, a), Command(EMUL, a)];
    ExecMore(c, m, [Command(MOV, a)], Command(EMUL, a));
    assert both == [Command(MOV, a)] + [Command(EMUL, a)];
    ExecMore(c, m, [], Command(MOV, a));
    if c.readAsDelay {
      ExecMore(c, m, both, Delay(Max(1, ReadLatency(c, bgmuReads))));
    } else {
      assert both + ReadDelay(c, bgmuReads) == both;
    }
  }

  lemma {:induction false} SecondHalfRun(c: Config, m: Machine, base: Addr, maxVoc: nat, accs: int)
    returns (m': Machine)
    requires c.Valid() && Ready(c, m)
    ensures m' == Exec(c, m, if maxVoc == 0 then [] else PvStage(c, base, maxVoc) + Accs(c, base, Max(0, accs)))
    ensures Ready(c, m') && m'.latencies == m.latencies + TokenLatencies(c, maxVoc)
    ensures m'.ok == (m.ok && (maxVoc == 0 || c.spmActPre))
  {
    hide Exec, PvRow, PvChunks, Accs;
    if maxVoc == 0 {
      ExecMore(c, m, [], Delay(0));
      m' := m;
    } else {
      if c.esdm {
        m' := PvChunksRun(c, m, base, 0, maxVoc);
      } else {
        PvRowRun(c, m, base, maxVoc);
        m' := Exec(c, m, PvStage(c, base, maxVoc));
      }
      ExecConcat(c, m, PvStage(c, base, maxVoc), Accs(c, base, Max(0, accs)));
      AccsRun(c, m', base, Max(0, accs));
    }
  }

  /// A token that starts with every bank closed ends with every bank closed, whatever the options; every
  /// SPM ran with the latency of its own chunk; and all of it was allowed exactly when the rows that are
  /// used are also opened.
  lemma {:induction false} TokenKeepsProtocol(c: Config, m: Machine, base: Addr, macs: int, maxVoc: nat, accs: int,
                                              bgmuReads: int, req: Request)
    requires c.Valid() && Ready(c, m)
    ensures var m' := Exec(c, m, TokenProgram(c, base, macs, maxVoc, accs, bgmuReads, req));
            Ready(c, m') && m'.latencies == m.latencies + TokenLatencies(c, maxVoc) &&
            (m'.ok <==> m.ok && (macs <= 0 || (c.esdm && c.qkActPre)) && (maxVoc == 0 || c.spmActPre))
  {
    hide Exec, QkStage, PvStage, Accs, TokenLatencies, ReadDelay;
    var elemax := AllBanks(EsdmAddr(c, base, c.ktRow, c.ktCol));
    var qk, middle := QkStage(c, base, macs), [Command(MOV, elemax), Command(EMUL, elemax)] + ReadDelay(c, bgmuReads);
    var second := if maxVoc == 0 then [] else PvStage(c, base, maxVoc) + Accs(c, base, Max(0, accs));
    var program := TokenProgram(c, base, macs, maxVoc, accs, bgmuReads, req);
    assert program == qk + middle + second + [Complete(req)];
    ExecConcat(c, m, qk + middle, second);
    ExecConcat(c, m, qk, middle);
    QkStageRun(c, m, base, macs);
    var m1 := Exec(c, m, qk);
    MiddleRun(c, m1, elemax, bgmuReads);
    var m2 := SecondHalfRun(c, m1, base, maxVoc, accs);
    ExecMore(c, m, qk + middle + second, Complete(req));
  }
}
