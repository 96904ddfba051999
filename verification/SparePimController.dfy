/** The SPARE-PIM controller (src/dram_controller/impl/sparepim_controller.cpp): requests wait in one queue, the one
    being served has been expanded into operations, and each cycle works on the first of those.  */
module SparePimController {
  import opened Bits
  import opened Options
  import opened SparePim
  import opened SparePimMacs
  import Hbm3
  import Protocol = SparePimProtocol
  import Timing

  // ---------- the counts that come with a token ----------

  ghost function MaxOf(vocs: seq<int>): nat {
    if vocs == [] then 0 else Max(MaxOf(vocs[..|vocs| - 1]), vocs[|vocs| - 1])
  }

  ghost function TotalOf(vocs: seq<int>): nat {
    if vocs == [] then 0 else TotalOf(vocs[..|vocs| - 1]) + Max(0, vocs[|vocs| - 1])
  }

  /// How often the running maximum rises.
  ghost function RisesOf(vocs: seq<int>): nat {
    if vocs == [] then 0
    else RisesOf(vocs[..|vocs| - 1]) + (if vocs[|vocs| - 1] > MaxOf(vocs[..|vocs| - 1]) then 1 else 0)
  }

  lemma {:induction false} MaxIsLargest(vocs: seq<int>)
    ensures forall v :: v in vocs ==> v <= MaxOf(vocs)
    ensures MaxOf(vocs) == 0 || MaxOf(vocs) in vocs
    ensures MaxOf(vocs) <= TotalOf(vocs)
  {
    if vocs != [] {
      var before := vocs[..|vocs| - 1];
      assert vocs == before + [vocs[|vocs| - 1]];
      MaxIsLargest(before);
    }
  }

  /// A count larger than zero and than all counts before it.
  ghost predicate IsRecord(vocs: seq<int>, i: nat) {
    i < |vocs| && vocs[i] > 0 && forall j :: 0 <= j < i ==> vocs[j] < vocs[i]
  }

  ghost function Records(vocs: seq<int>): set<nat> {
    set i: nat | i < |vocs| && IsRecord(vocs, i)
  }

  lemma {:induction false} LastIsRecord(vocs: seq<int>)
    requires vocs != []
    ensures var n := |vocs| - 1;
            IsRecord(vocs, n) <==> vocs[n] > MaxOf(vocs[..n])
  {
    var n := |vocs| - 1;
    var before := vocs[..n];
    MaxIsLargest(before);
    assert forall j :: 0 <= j < n ==> before[j] in before;
    if MaxOf(before) > 0 {
      var j :| 0 <= j < n && before[j] == MaxOf(before);
    }
  }

  /// The running maximum rises once at every such count.
  lemma {:induction false} RisesAreRecords(vocs: seq<int>)
    ensures RisesOf(vocs) == |Records(vocs)|
  {
    if vocs == [] {
      assert Records(vocs) == {};
    } else {
      hide IsRecord, MaxOf, Records;
      RisesAreRecords(vocs[..|vocs| - 1]);
      LastIsRecord(vocs);
      RecordsMore(vocs);
    }
  }

  lemma {:induction false} RecordsMore(vocs: seq<int>)
    requires vocs != []
    ensures var n := |vocs| - 1;
            Records(vocs) == Records(vocs[..n]) + (if IsRecord(vocs, n) then {n} else {}) && n !in Records(vocs[..n])
  {
    var n := |vocs| - 1;
    forall i: nat | i < n ensures IsRecord(vocs, i) <==> IsRecord(vocs[..n], i) {
    }
    hide IsRecord;
  }

  datatype Summary = Summary(maxVoc: int, totalVoc: int, bgmuReads: int, values: int, updates: int)

  ghost function SummaryOf(c: Config, req: Request): Summary
    requires c.Valid() && req.Valid(c)
  {
    if req.vocs != [] then
      Summary(MaxOf(req.vocs), TotalOf(req.vocs), CeilDiv(|req.vocs|, c.banks), |req.vocs|, RisesOf(req.vocs))
    else
      var maxVoc := Max(0, req.scratchpad[0]);
      Summary(maxVoc, Max(0, req.scratchpad[1]), c.bgs, c.bgs * c.banks, if maxVoc > 0 then 1 else 0)
  }

  function MacCommands(c: Config, req: Request): int
    requires |req.scratchpad| == 4
  {
    if req.scratchpad[2] > 0 then req.scratchpad[2] else c.macPerToken
  }

  function AccCommands(c: Config, req: Request): int
    requires |req.scratchpad| == 4
  {
    if req.scratchpad[3] > 0 then req.scratchpad[3] else c.accPerToken
  }

  /// The operations of one request.
  ghost function ProgramOf(c: Config, req: Request): seq<Op>
    requires c.Valid() && req.Valid(c) && !req.kind.Unsupported?
  {
    var base := Normalized(req.addr);
    match req.kind
    case Direct(cmd) => [Command(cmd, base), Complete(req)]
    case Token =>
      var s := SummaryOf(c, req);
      TokenProgram(c, base, MacCommands(c, req), s.maxVoc, AccCommands(c, req), s.bgmuReads, req)
  }

  // ---------- a program ends with its completion and has no other ----------

  /// Not a completion; a command addresses levels that exist, and a latency is at least one cycle.
  ghost predicate PlainOp(c: Config, op: Op) {
    match op
    case Command(_, a) => Reaches(c, a)
    case ConfigureSpm(cycles) => cycles >= 1
    case Delay(_) => true
    case Complete(_) => false
  }

  ghost predicate Plain(c: Config, ops: seq<Op>) {
    forall op :: op in ops ==> PlainOp(c, op)
  }

  ghost predicate Serves(c: Config, ops: seq<Op>, req: Request) {
    |ops| > 0 && ops[|ops| - 1] == Complete(req) && Plain(c, ops[..|ops| - 1])
  }

  lemma {:induction false} TailServes(c: Config, ops: seq<Op>, req: Request)
    requires Serves(c, ops, req)
    ensures |ops| > 0
    ensures if ops[0].Complete? then ops == [Complete(req)] && ops[1..] == []
            else |ops| > 1 && Serves(c, ops[1..], req) && PlainOp(c, ops[0])
  {
    var init := ops[..|ops| - 1];
    assert forall i :: 0 <= i < |init| ==> init[i] in init && init[i] == ops[i];
    if !ops[0].Complete? {
      var tail := ops[1..];
      assert tail[..|tail| - 1] == init[1..];
    }
  }

  lemma {:induction false} PerBankPlain(c: Config, cmd: Cmd, a: Addr, k: nat)
    requires c.Valid() && k <= c.TotalBanks()
    ensures Plain(c, PerBank(c, cmd, a, k))
  {
    if k > 0 {
      hide AtBank;
      PerBankPlain(c, cmd, a, k - 1);
      BankNumbers(c, a, k - 1);
    }
  }

  lemma {:induction false} OpenedPlain(c: Config, wanted: bool, cmd: Cmd, a: Addr)
    requires c.Valid()
    ensures Plain(c, Opened(c, wanted, cmd, a))
  {
    PerBankPlain(c, cmd, a, c.TotalBanks());
  }

  lemma {:induction false} MacsPlain(c: Config, base: Addr, first: int, k: nat)
    requires c.Valid()
    ensures Plain(c, Macs(c, base, first, k))
  {
    if k > 0 { MacsPlain(c, base, first, k - 1); }
  }

  lemma {:induction false} QkPlain(c: Config, base: Addr, issued: int, n: int)
    requires c.Valid()
    ensures Plain(c, QkChunks(c, base, issued, n))
    decreases n - issued
  {
    if issued < n {
      var row := EsdmAddr(c, base, c.ktRow, c.ktCol + issued);
      hide EsdmAddr, Opened, Macs, PlainOp;
      OpenedPlain(c, c.qkActPre, ACT, row);
      OpenedPlain(c, c.qkActPre, PRE, row);
      MacsPlain(c, base, c.ktCol + issued, Chunk(c, c.ktCol, issued, n));
      QkPlain(c, base, issued + Chunk(c, c.ktCol, issued, n), n);
    }
  }

  lemma {:induction false} PvRowPlain(c: Config, row: Addr, k: int)
    requires c.Valid()
    ensures Plain(c, PvRow(c, row, k))
  {
    OpenedPlain(c, c.spmActPre, ACT, row);
    OpenedPlain(c, c.spmActPre, PRE, row);
  }

  lemma {:induction false} PvPlain(c: Config, base: Addr, processed: int, n: int)
    requires c.Valid()
    ensures Plain(c, PvChunks(c, base, processed, n))
    decreases n - processed
  {
    if processed < n {
      var k := Chunk(c, c.vCol, processed, n);
      hide EsdmAddr, PvRow, PlainOp;
      PvRowPlain(c, EsdmAddr(c, base, c.vRow, c.vCol + processed), k);
      PvPlain(c, base, processed + k, n);
    }
  }

  lemma {:induction false} AccsPlain(c: Config, base: Addr, k: nat)
    requires c.Valid()
    ensures Plain(c, Accs(c, base, k))
  {
    if k > 0 {
      hide AtBank;
      AccsPlain(c, base, k - 1);
      BankNumbers(c, base, (k - 1) % c.TotalBanks());
    }
  }

  lemma {:induction false} MiddlePlain(c: Config, a: Addr, bgmuReads: int)
    ensures Plain(c, [Command(MOV, AllBanks(a)), Command(EMUL, AllBanks(a))] + ReadDelay(c, bgmuReads))
    requires c.pchs >= 0 && c.bgs >= 0 && c.banks >= 0
  {
  }

  lemma {:induction false} ProgramServes(c: Config, req: Request)
    requires c.Valid() && req.Valid(c) && !req.kind.Unsupported?
    ensures Serves(c, ProgramOf(c, req), req)
  {
    hide QkChunks, Macs, PvChunks, PvRow, Accs, EsdmAddr, SummaryOf;
    if req.kind.Token? {
      var base, s := Normalized(req.addr), SummaryOf(c, req);
      QkPlain(c, base, 0, MacCommands(c, req));
      MacsPlain(c, base, 0, Max(0, MacCommands(c, req)));
      PvPlain(c, base, 0, s.maxVoc);
      PvRowPlain(c, base, s.maxVoc);
      AccsPlain(c, base, Max(0, AccCommands(c, req)));
      var program := ProgramOf(c, req);
      var elemax := AllBanks(EsdmAddr(c, base, c.ktRow, c.ktCol));
      var before := QkStage(c, base, MacCommands(c, req)) + [Command(MOV, elemax), Command(EMUL, elemax)] +
        ReadDelay(c, s.bgmuReads) +
        (if s.maxVoc == 0 then [] else PvStage(c, base, s.maxVoc) + Accs(c, base, Max(0, AccCommands(c, req))));
      assert program == before + [Complete(req)];
      assert program[..|program| - 1] == before;
      hide PlainOp;
      MiddlePlain(c, elemax, s.bgmuReads);
    }
  }

  ghost function Total(s: seq<int>): int {
    if s == [] then 0 else s[0] + Total(s[1..])
  }

  lemma {:induction false} TotalConcat(a: seq<int>, b: seq<int>)
    ensures Total(a + b) == Total(a) + Total(b)
  {
    if a == [] {
      assert a + b == b;
    } else {
      assert (a + b)[1..] == a[1..] + b;
      TotalConcat(a[1..], b);
    }
  }

  lemma {:induction false} PerBankMore(c: Config, cmd: Cmd, a: Addr, pch: nat, bg: nat, bank: nat, k: nat)
    requires c.Valid() && pch < c.pchs && bg < c.bgs && bank < c.banks
    requires k == pch * c.BanksPerPch() + bg * c.banks + bank
    ensures PerBank(c, cmd, a, k + 1) == PerBank(c, cmd, a, k) + [Command(cmd, a.(pch := pch, bg := bg, bank := bank))]
    ensures PerBank(c, cmd, a, 0) == []
  {
    hide Config.BanksPerPch;
    BankNames(c, a.(pch := pch, bg := bg, bank := bank));
    assert AtBank(c, a.(pch := pch, bg := bg, bank := bank), k) == AtBank(c, a, k);
  }

  lemma {:induction false} NextPch(c: Config, pch: nat)
    requires c.Valid()
    ensures (pch + 1) * c.BanksPerPch() == pch * c.BanksPerPch() + c.bgs * c.banks
  {
  }

  lemma {:induction false} AllPchs(c: Config)
    requires c.Valid()
    ensures c.TotalBanks() == c.pchs * c.BanksPerPch()
  {
  }

  lemma {:induction false} LatenciesMore(c: Config, processed: int, n: int)
    requires c.Valid() && processed < n
    ensures var k := Chunk(c, c.vCol, processed, n);
            Total(Protocol.Latencies(c, processed, n)) == SpmLatency(c, k) +
              Total(Protocol.Latencies(c, processed + k, n))
  {
    var k := Chunk(c, c.vCol, processed, n);
    assert Protocol.Latencies(c, processed, n)[1..] == Protocol.Latencies(c, processed + k, n);
  }

  /// A fixed time for each row and some for each value; no row takes less than a cycle.
  ghost predicate CyclesOk(fixed: int, perValue: int, total: int, rows: nat, values: int) {
    total >= rows && total >= fixed * rows + perValue * values &&
    (fixed >= 1 && perValue >= 0 ==> total == fixed * rows + perValue * values) &&
    (fixed <= 1 && perValue <= 0 ==> total == rows)
  }

  lemma {:induction false} CyclesMore(fixed: int, perValue: int, k: int, latency: int, total: int, rows: nat,
                                      values: int)
    requires CyclesOk(fixed, perValue, total, rows, values) && k >= 1 && latency == Max(1, fixed + k * perValue)
    ensures CyclesOk(fixed, perValue, latency + total, 1 + rows, k + values)
  {
    assert fixed * (1 + rows) == fixed + fixed * rows;
    assert perValue * (k + values) == k * perValue + perValue * values;
    if perValue >= 0 { MulLe(0, perValue, k); }
    if perValue <= 0 { MulLe(perValue, 0, k); }
  }

  lemma {:induction false} NoCycles(c: Config)
    ensures CyclesOk(c.spmFixed, c.spmPerVoc, 0, 0, 0)
  {
  }

  lemma {:induction false} SpmCyclesFrom(c: Config, processed: int, n: int)
    requires c.Valid() && processed <= n
    ensures var latencies, rows := Protocol.Latencies(c, processed, n), Rows(c, c.vCol, processed, n);
            |latencies| == rows && CyclesOk(c.spmFixed, c.spmPerVoc, Total(latencies), rows, n - processed)
    decreases n - processed
  {
    hide CyclesOk;
    NoCycles(c);
    if processed < n {
      var k := Chunk(c, c.vCol, processed, n);
      hide Chunk, Total;
      LatenciesMore(c, processed, n);
      SpmCyclesFrom(c, processed + k, n);
      CyclesMore(c.spmFixed, c.spmPerVoc, k, SpmLatency(c, k), Total(Protocol.Latencies(c, processed + k, n)),
                 Rows(c, c.vCol, processed + k, n), n - processed - k);
    }
  }

  /// The SPMs of a token take a fixed time for each row and some for each value: with at least one fixed cycle, and
  /// none negative per value, that is their time in all; none takes less than a cycle.
  lemma {:induction false} SpmCyclesOfToken(c: Config, n: nat)
    requires c.Valid()
    ensures var total := Total(Protocol.TokenLatencies(c, n));
            var rows := if n == 0 then 0 else if c.esdm then Rows(c, c.vCol, 0, n) else 1;
            |Protocol.TokenLatencies(c, n)| == rows && total >= rows && total >= c.spmFixed * rows + c.spmPerVoc * n &&
            (c.spmFixed >= 1 && c.spmPerVoc >= 0 ==> total == c.spmFixed * rows + c.spmPerVoc * n) &&
            (c.spmFixed <= 1 && c.spmPerVoc <= 0 ==> total == rows)
  {
    NoCycles(c);
    if n > 0 {
      if c.esdm {
        SpmCyclesFrom(c, 0, n);
      } else {
        CyclesMore(c.spmFixed, c.spmPerVoc, n, SpmLatency(c, n), 0, 0, 0);
        assert [SpmLatency(c, n)][1..] == [];
      }
    }
  }

  lemma {:induction false} Append(a: seq<Op>, b: seq<Op>, c: seq<Op>)
    ensures (a + b) + c == a + (b + c)
  {
  }

  lemma {:induction false} PvMore(c: Config, base: Addr, processed: int, n: int)
    requires c.Valid() && processed < n
    ensures var k := Chunk(c, c.vCol, processed, n);
            PvChunks(c, base, processed, n) ==
              PvRow(c, EsdmAddr(c, base, c.vRow, c.vCol + processed), k) + PvChunks(c, base, processed + k, n) &&
            Rows(c, c.vCol, processed, n) == 1 + Rows(c, c.vCol, processed + k, n)
  {
    hide PvRow, EsdmAddr;
  }

  lemma {:induction false} PvNone(c: Config, base: Addr, n: int)
    requires c.Valid()
    ensures PvChunks(c, base, n, n) == [] && Rows(c, c.vCol, n, n) == 0 && Total(Protocol.Latencies(c, n, n)) == 0
  {
  }

  /// The counts of the first k values.
  ghost function SummaryUpTo(vocs: seq<int>, k: int, bgmuReads: int): Summary
    requires 0 <= k <= |vocs|
  {
    Summary(MaxOf(vocs[..k]), TotalOf(vocs[..k]), bgmuReads, k, RisesOf(vocs[..k]))
  }

  lemma {:induction false} SummaryMore(vocs: seq<int>, i: nat, bgmuReads: int)
    requires i < |vocs|
    ensures var s, value := SummaryUpTo(vocs, i, bgmuReads), Max(0, vocs[i]);
            SummaryUpTo(vocs, i + 1, bgmuReads) ==
            Summary(Max(s.maxVoc, value), s.totalVoc + value, bgmuReads, i + 1,
                    s.updates + (if value > s.maxVoc then 1 else 0))
  {
    assert vocs[..i + 1][..i] == vocs[..i];
  }

  lemma {:induction false} NextGroup(bg: nat, per: int)
    requires per > 0
    ensures (bg + 1) * per == bg * per + per && bg * per >= 0
  {
  }

  lemma {:induction false} NoSecondStage(c: Config)
    requires c.Valid()
    ensures Rows(c, c.vCol, 0, 0) == 0 && Total(Protocol.TokenLatencies(c, 0)) == 0
  {
  }

  lemma {:induction false} Groups(n: nat, per: int)
    requires per > 0
    ensures (n + per - 1) / per >= 0 && (n + per - 1) / per * per >= n
  {
    DivModSplit(n + per - 1, per);
    DivideNear(n + per - 1, per);
  }

  /// The counts are read in as few groups of a bank group's banks as hold them all.
  lemma {:induction false} ReadsCoverCounts(c: Config, req: Request)
    requires c.Valid() && req.Valid(c) && req.vocs != []
    ensures var groups := SummaryOf(c, req).bgmuReads;
            (groups - 1) * c.banks < |req.vocs| <= groups * c.banks
  {
    var n, per := |req.vocs|, c.banks;
    Groups(n, per);
    DivModSplit(n + per - 1, per);
    var q := (n + per - 1) / per;
    assert (q - 1) * per == q * per - per;
  }

  lemma {:induction false} MaxVocPositive(c: Config, req: Request)
    requires c.Valid() && req.Valid(c)
    ensures SummaryOf(c, req).maxVoc >= 0
  {
  }

  /// What a token adds to the counters: rows and page hits together are the columns it touched, and the
  /// SPM cycles are the sum of its SPMs' latencies.
  ghost predicate TokenStats(c: Config, req: Request, before: Stats, after: Stats)
    requires c.Valid() && req.Valid(c)
  {
    var s, macs := SummaryOf(c, req), MacCommands(c, req);
    var qkRows := if c.esdm then Rows(c, c.ktCol, 0, macs) else 0;
    var pvRows := if c.esdm then Rows(c, c.vCol, 0, s.maxVoc) else 0;
    var fetches := Max(1, s.bgmuReads);
    after == before.(
      tokens := before.tokens + 1,
      totalVoc := before.totalVoc + (if s.totalVoc == 0 then s.maxVoc else s.totalVoc),
      maxVocSum := before.maxVocSum + s.maxVoc, maxUpdates := before.maxUpdates + s.updates,
      bgmuReads := before.bgmuReads + fetches,
      bgmuValues := before.bgmuValues + (if s.values > 0 then s.values else fetches * c.banks),
      readCycles := before.readCycles + ReadLatency(c, s.bgmuReads),
      qkRows := before.qkRows + qkRows, qkHits := before.qkHits + (if c.esdm then Max(0, macs) - qkRows else 0),
      pvRows := before.pvRows + pvRows, pvHits := before.pvHits + (if c.esdm then s.maxVoc - pvRows else 0),
      spmCycles := before.spmCycles + Total(Protocol.TokenLatencies(c, s.maxVoc)),
      skippedSpm := before.skippedSpm + (if s.maxVoc == 0 then 1 else 0),
      skippedActPre := before.skippedActPre + (if s.maxVoc == 0 && c.spmActPre then c.TotalBanks() * 2 else 0))
  }

  // ---------- the controller ----------

  /// The operations of a list of requests, one request after the other.
  ghost function Programs(c: Config, reqs: seq<Request>): seq<Op>
    requires c.Valid() && AllSupported(c, reqs)
  {
    if reqs == [] then [] else Programs(c, reqs[..|reqs| - 1]) + ProgramOf(c, reqs[|reqs| - 1])
  }

  ghost predicate AllSupported(c: Config, reqs: seq<Request>) {
    forall req :: req in reqs ==> req.Valid(c) && !req.kind.Unsupported?
  }

  lemma {:induction false} ProgramsMore(c: Config, reqs: seq<Request>, req: Request)
    requires c.Valid() && AllSupported(c, reqs) && req.Valid(c) && !req.kind.Unsupported?
    ensures AllSupported(c, reqs + [req]) && Programs(c, reqs + [req]) == Programs(c, reqs) + ProgramOf(c, req)
  {
    assert (reqs + [req])[..|reqs|] == reqs;
  }

  /// The commands of one kind that were asked for by themselves.
  ghost function Directs(reqs: seq<Request>, cmd: Cmd): nat {
    if reqs == [] then 0 else Directs(reqs[..|reqs| - 1], cmd) + (if reqs[|reqs| - 1].kind == Direct(cmd) then 1 else 0)
  }

  /// How many commands of a kind the requests come to.
  ghost function Asked(c: Config, reqs: seq<Request>, cmd: Cmd): nat
    requires c.Valid() && AllSupported(c, reqs)
  {
    |Targets(Programs(c, reqs), cmd)|
  }

  lemma {:induction false} AskedMore(c: Config, reqs: seq<Request>, req: Request, cmd: Cmd)
    requires c.Valid() && AllSupported(c, reqs) && req.Valid(c) && !req.kind.Unsupported?
    ensures AllSupported(c, reqs + [req])
    ensures Asked(c, reqs + [req], cmd) == Asked(c, reqs, cmd) + |Targets(ProgramOf(c, req), cmd)|
    ensures Directs(reqs + [req], cmd) == Directs(reqs, cmd) + (if req.kind == Direct(cmd) then 1 else 0)
  {
    hide ProgramOf, Targets, Programs;
    ProgramsMore(c, reqs, req);
    TargetsConcat(Programs(c, reqs), ProgramOf(c, req), cmd);
    assert (reqs + [req])[..|reqs|] == reqs;
  }

  /// The tokens whose programs have no SPM.
  ghost function Spmless(c: Config, reqs: seq<Request>): nat
    requires c.Valid() && AllSupported(c, reqs)
  {
    if reqs == [] then 0
    else
      var last := reqs[|reqs| - 1];
      Spmless(c, reqs[..|reqs| - 1]) + (if last.kind.Token? && Targets(ProgramOf(c, last), SPM) == [] then 1 else 0)
  }

  lemma {:induction false} SpmlessMore(c: Config, reqs: seq<Request>, req: Request)
    requires c.Valid() && AllSupported(c, reqs) && req.Valid(c) && !req.kind.Unsupported?
    ensures AllSupported(c, reqs + [req])
    ensures Spmless(c, reqs + [req]) ==
            Spmless(c, reqs) + (if req.kind.Token? && Targets(ProgramOf(c, req), SPM) == [] then 1 else 0)
  {
    hide ProgramOf, Targets;
    assert (reqs + [req])[..|reqs|] == reqs;
  }

  lemma {:induction false} DirectAsks(c: Config, req: Request, cmd: Cmd)
    requires c.Valid() && req.Valid(c) && req.kind.Direct?
    ensures |Targets(ProgramOf(c, req), cmd)| == if req.kind == Direct(cmd) then 1 else 0
  {
    OneTarget(Command(req.kind.cmd, Normalized(req.addr)), cmd);
    OneMoreTarget([Command(req.kind.cmd, Normalized(req.addr))], Complete(req), cmd);
    hide Targets;
    assert ProgramOf(c, req) == [Command(req.kind.cmd, Normalized(req.addr))] + [Complete(req)];
  }

  /// What a token adds to the counters of rows, page hits and skipped SPMs are the commands of its program: with ESDM a
  /// MAC for each row of keys and each page hit, an SPM for each row of values, and an activate of every bank for each
  /// row that the options let it activate.
  lemma {:induction false} TokenAsks(c: Config, req: Request, before: Stats, after: Stats)
    requires c.Valid() && req.Valid(c) && req.kind.Token? && TokenStats(c, req, before, after)
    ensures c.esdm ==>
              |Targets(ProgramOf(c, req), MAC)| == after.qkRows - before.qkRows + after.qkHits - before.qkHits &&
              |Targets(ProgramOf(c, req), SPM)| == after.pvRows - before.pvRows &&
              |Targets(ProgramOf(c, req), ACT)| == (after.qkRows - before.qkRows) * PerRow(c, c.qkActPre) +
                                                   (after.pvRows - before.pvRows) * PerRow(c, c.spmActPre)
    ensures after.skippedSpm - before.skippedSpm == if Targets(ProgramOf(c, req), SPM) == [] then 1 else 0
    ensures after.skippedActPre - before.skippedActPre ==
            (after.skippedSpm - before.skippedSpm) * (2 * PerRow(c, c.spmActPre))
  {
    hide Targets, TokenProgram, SummaryOf, ValueRows, Rows, Config.TotalBanks, Total, Protocol.TokenLatencies;
    var s, macs, accs, base := SummaryOf(c, req), MacCommands(c, req), AccCommands(c, req), Normalized(req.addr);
    MaxVocPositive(c, req);
    ProgramMacs(c, base, macs, s.maxVoc, accs, s.bgmuReads, req);
    if c.esdm { ProgramActs(c, base, macs, s.maxVoc, accs, s.bgmuReads, req); }
    if s.maxVoc > 0 {
      SpmTargets(c, base, macs, s.maxVoc, accs, s.bgmuReads, req);
      if c.esdm { var _ := ValueHasSpm(c, base, 0, s.maxVoc, 0); }
    } else {
      NoSpmTargets(c, base, macs, accs, s.bgmuReads, req);
    }
  }

  // ---------- the commands of a request ----------

  /// The i-th MAC of a token: their number is the request's own or the configured one, and with ESDM they go through
  /// the columns of the keys, starting from the row that the request addresses, or 0 if it names none.
  lemma {:induction false} TokenMacAt(c: Config, req: Request, i: nat)
    requires c.Valid() && req.Valid(c) && req.kind.Token?
    ensures var targets := Targets(ProgramOf(c, req), MAC);
            var n := if req.scratchpad[2] > 0 then req.scratchpad[2] else Max(0, c.macPerToken);
            |targets| == n &&
            (i < n && c.esdm ==>
              var column := Max(0, c.ktCol + i);
              targets[i].pch == targets[i].bg == targets[i].bank == -1 &&
              targets[i].row == Rem(Max(0, req.addr.row) + c.ktRow + column / c.columnsPerRow, c.rows) &&
              targets[i].col == column % c.columnsPerRow % c.cols)
  {
    hide Targets, TokenProgram, Rem, SummaryOf;
    var base, s, macs := Normalized(req.addr), SummaryOf(c, req), MacCommands(c, req);
    ProgramMacs(c, base, macs, s.maxVoc, AccCommands(c, req), s.bgmuReads, req);
    if i < macs {
      MacColumns(c, base, macs, s.maxVoc, AccCommands(c, req), s.bgmuReads, req, i);
    }
  }

  /// A token that found any values has its own number of accumulations, or the configured one, round the banks; one
  /// that found none has neither SPMs nor accumulations.
  lemma {:induction false} TokenAccsAndSpms(c: Config, req: Request)
    requires c.Valid() && req.Valid(c) && req.kind.Token?
    ensures var accs := Targets(ProgramOf(c, req), ACC);
            var n := if req.scratchpad[3] > 0 then req.scratchpad[3] else Max(0, c.accPerToken);
            var values := exists v :: v in req.vocs && v > 0;
            var some := if req.vocs != [] then values else req.scratchpad[0] > 0;
            |accs| == (if some then n else 0) &&
            (forall i :: 0 <= i < |accs| ==>
              NamesBank(c, accs[i]) && FlatBank(c, accs[i]) == i % c.TotalBanks() &&
              accs[i].row == Max(0, req.addr.row)) &&
            (!some ==> Targets(ProgramOf(c, req), SPM) == [])
  {
    var base, s, macs := Normalized(req.addr), SummaryOf(c, req), MacCommands(c, req);
    MaxIsLargest(req.vocs);
    assert s.maxVoc > 0 <==> if req.vocs != [] then exists v :: v in req.vocs && v > 0 else req.scratchpad[0] > 0 by {
      if v :| v in req.vocs && v > 0 { assert v <= MaxOf(req.vocs); }
    }
    MaxVocPositive(c, req);
    hide Targets, TokenProgram, SummaryOf, MaxOf, Config.TotalBanks;
    AccBanks(c, base, macs, s.maxVoc, AccCommands(c, req), s.bgmuReads, req);
    ProgramTargets(c, base, macs, s.maxVoc, AccCommands(c, req), s.bgmuReads, req, SPM);
    FirstPartTargets(c, base, macs, s.bgmuReads, SPM);
    SecondPartTargets(c, base, s.maxVoc, AccCommands(c, req), SPM);
  }

  /// A request for one command sends it to its own address, with row or column 0 where it names none, and no other
  /// command.
  lemma {:induction false} DirectTargets(c: Config, req: Request, cmd: Cmd)
    requires c.Valid() && req.Valid(c) && req.kind.Direct?
    ensures Targets(ProgramOf(c, req), cmd) ==
            if cmd == req.kind.cmd then [req.addr.(row := Max(0, req.addr.row), col := Max(0, req.addr.col))] else []
  {
    var op := Command(req.kind.cmd, Normalized(req.addr));
    OneTarget(op, cmd);
    OneMoreTarget([op], Complete(req), cmd);
    assert [op] + [Complete(req)] == [op, Complete(req)];
  }

  // ---------- what the device was told ----------

  function Code(cmd: Cmd): (code: nat)
    ensures code < Hbm3.NUM_CMDS
  {
    match cmd
    case ACT => Hbm3.ACT
    case PRE => Hbm3.PRE
    case RD => Hbm3.RD
    case WR => Hbm3.WR
    case MAC => Hbm3.MAC
    case EMUL => Hbm3.EMUL
    case MOV => Hbm3.MOV
    case SPM => Hbm3.SPM
    case ACC => Hbm3.ACC
  }

  function Vec(channel: nat, a: Addr): seq<int> {
    [channel, a.pch, a.bg, a.bank, a.row, a.col]
  }

  /// A command, with the SPM latency that was set when it went out.
  datatype Sent = Sent(cmd: Cmd, addr: Addr, spm: int)

  /// What a list of operations, begun in state m, sends to the device.
  ghost function SentBy(c: Config, m: Protocol.Machine, ops: seq<Op>): seq<Sent>
    requires c.Valid()
  {
    if ops == [] then []
    else
      var before, op := ops[..|ops| - 1], ops[|ops| - 1];
      SentBy(c, m, before) + (if op.Command? then [Sent(op.cmd, op.addr, Protocol.Exec(c, m, before).spm)] else [])
  }

  /// What the device shows: the commands it has seen, each with the latency in force, and the latency now.
  datatype View = View(channel: nat, trace: seq<Timing.Event>, latencies: seq<int>, spm: int)

  ghost predicate WasSent(channel: nat, e: Timing.Event, latency: int, s: Sent) {
    e.cmd == Code(s.cmd) && e.addr == Vec(channel, s.addr) && latency == s.spm
  }

  ghost predicate Saw(d: View, sent: seq<Sent>) {
    |d.trace| == |d.latencies| == |sent| &&
    forall j :: 0 <= j < |sent| ==> WasSent(d.channel, d.trace[j], d.latencies[j], sent[j])
  }

  /// The operations done and to do are those of the requests begun, and the device saw exactly those done.
  ghost predicate InStep(c: Config, m: Protocol.Machine, begun: seq<Request>, executed: seq<Op>, opQueue: seq<Op>,
                         d: View) {
    && c.Valid() && AllSupported(c, begun) && executed + opQueue == Programs(c, begun)
    && Saw(d, SentBy(c, m, executed)) && d.spm == Protocol.Exec(c, m, executed).spm
  }

  lemma {:induction false} StepInto(c: Config, m: Protocol.Machine, begun: seq<Request>, executed: seq<Op>, d: View,
                                    req: Request)
    requires InStep(c, m, begun, executed, [], d) && req.Valid(c) && !req.kind.Unsupported?
    ensures InStep(c, m, begun + [req], executed, ProgramOf(c, req), d)
  {
    hide ProgramOf, Protocol.Exec;
    ProgramsMore(c, begun, req);
    assert executed + [] == executed;
  }

  /// What the device shows once it was told of an operation at event e.
  ghost function Shown(d: View, op: Op, e: Timing.Event): View {
    match op
    case Command(_, _) => d.(trace := d.trace + [e], latencies := d.latencies + [d.spm])
    case ConfigureSpm(cycles) => d.(spm := cycles)
    case _ => d
  }

  lemma {:induction false} SentMore(c: Config, m: Protocol.Machine, ops: seq<Op>, op: Op)
    requires c.Valid()
    ensures SentBy(c, m, ops + [op]) ==
            SentBy(c, m, ops) + (if op.Command? then [Sent(op.cmd, op.addr, Protocol.Exec(c, m, ops).spm)] else [])
    ensures Protocol.Exec(c, m, ops + [op]).spm == if op.ConfigureSpm? then op.cycles else Protocol.Exec(c, m, ops).spm
  {
    Protocol.ExecMore(c, m, ops, op);
    hide Protocol.Exec, Protocol.Permitted;
    assert (ops + [op])[..|ops|] == ops;
  }

  /// One operation done with; a command and a new latency reach the device.
  lemma {:induction false} StepOn(c: Config, m: Protocol.Machine, begun: seq<Request>, executed: seq<Op>, ops: seq<Op>,
                                  d: View, e: Timing.Event)
    requires ops != [] && InStep(c, m, begun, executed, ops, d)
    requires ops[0].Command? ==> e.cmd == Code(ops[0].cmd) && e.addr == Vec(d.channel, ops[0].addr)
    ensures InStep(c, m, begun, executed + [ops[0]], ops[1..], Shown(d, ops[0], e))
  {
    hide ProgramOf, Programs, Protocol.Exec, Code, Vec, AllSupported, SentBy;
    var op := ops[0];
    SentMore(c, m, executed, op);
    assert executed + ops == (executed + [op]) + ops[1..];
  }

  datatype Stats = Stats(tokens: nat, totalVoc: int, maxVocSum: int, maxUpdates: int, bgmuReads: int, bgmuValues: int,
                         readCycles: int, qkRows: nat, qkHits: int, pvRows: nat, pvHits: int, spmCycles: int,
                         skippedSpm: nat, skippedActPre: int, completed: nat, rejected: nat)

  /// The SPM cycles are the latencies of the tokens begun, summed up, and the SPMs skipped are the tokens without one.
  /// With ESDM, rows and page hits of the first stage are MACs of the requests begun, rows of the second stage SPMs,
  /// and the rows that the options let be opened activates of all banks, the commands asked for by themselves apart;
  /// rows and page hits of the second stage are the columns that the largest counts ask for.
  ghost predicate AddsUp(c: Config, begun: seq<Request>, s: Stats) {
    c.Valid() && AllSupported(c, begun) && s.spmCycles == Total(RunLatencies(c, begun)) &&
    s.skippedSpm == Spmless(c, begun) && s.skippedActPre == s.skippedSpm * (2 * PerRow(c, c.spmActPre)) &&
    (c.esdm ==>
      s.qkRows + s.qkHits + Directs(begun, MAC) == Asked(c, begun, MAC) &&
      s.pvRows + Directs(begun, SPM) == Asked(c, begun, SPM) &&
      s.qkRows * PerRow(c, c.qkActPre) + s.pvRows * PerRow(c, c.spmActPre) + Directs(begun, ACT) ==
        Asked(c, begun, ACT) &&
      s.pvRows + s.pvHits == s.maxVocSum)
  }

  lemma {:induction false} AddsUpMore(c: Config, begun: seq<Request>, s: Stats, req: Request, s': Stats)
    requires AddsUp(c, begun, s) && req.Valid(c) && !req.kind.Unsupported?
    requires if req.kind.Token? then TokenStats(c, req, s, s') else s' == s
    ensures AddsUp(c, begun + [req], s') && s'.completed == s.completed
  {
    hide SummaryOf, Protocol.TokenLatencies, Rows, RunLatencies, Total, Asked, Directs, Targets, ProgramOf, PerRow;
    hide Spmless;
    RunLatenciesMore(c, begun, req);
    SpmlessMore(c, begun, req);
    AskedMore(c, begun, req, ACT);
    AskedMore(c, begun, req, MAC);
    AskedMore(c, begun, req, SPM);
    if req.kind.Token? {
      TokenAsks(c, req, s, s');
      MulSplit(s.qkRows, s'.qkRows, PerRow(c, c.qkActPre));
      MulSplit(s.pvRows, s'.pvRows, PerRow(c, c.spmActPre));
      MulSplit(s.skippedSpm, s'.skippedSpm, 2 * PerRow(c, c.spmActPre));
    } else {
      DirectAsks(c, req, ACT);
      DirectAsks(c, req, MAC);
      DirectAsks(c, req, SPM);
    }
  }

  lemma {:induction false} MulSplit(a: int, b: int, each: int)
    ensures b * each == a * each + (b - a) * each
  {
  }

  lemma {:induction false} StillAddsUp(c: Config, begun: seq<Request>, s: Stats, completed: nat, rejected: nat)
    requires AddsUp(c, begun, s)
    ensures AddsUp(c, begun, s.(completed := completed, rejected := rejected))
  {
    hide RunLatencies, Asked, Directs, Spmless, PerRow, Total;
  }

  const NO_STATS := Stats(0, 0, 0, 0, 0, 0, 0, 0, 0, 0, 0, 0, 0, 0, 0, 0)

  class Controller {
    const c: Config
    const queueSize: int
    const dev: Hbm3.Device
    ghost const start: Protocol.Machine   // all banks closed, nothing done

    var clk: nat
    var queue: seq<Request>
    var opQueue: seq<Op>
    var delayActive: bool
    var delayDone: int
    var stats: Stats
    var completed: seq<Request>     // the callbacks made

    ghost var accepted: seq<Request>
    ghost var serving: Option<Request>
    ghost var executed: seq<Op>     // the operations done with

    ghost function Begun(): seq<Request>
      reads this`completed, this`serving
    {
      completed + (if serving.Some? then [serving.value] else [])
    }

    ghost function Show(): View
      reads this, dev
    {
      View(dev.channel, dev.trace, dev.latencies, dev.nSPM)
    }

    /// The device is the one the configuration speaks of, on the same clock.
    ghost predicate DeviceOk()
      reads this, dev, dev.root.Repr
    {
      c.Valid() && dev.Valid() && dev.org == Hbm3.Org(c.pchs, c.bgs, c.banks) && dev.clk == clk
    }

    /// The operations done include those of every request completed.
    ghost predicate Behind()
      reads this`completed, this`executed, this`stats, this`serving
    {
      c.Valid() && AllSupported(c, completed) && |Programs(c, completed)| <= |executed| &&
      stats.completed == |completed| && AddsUp(c, Begun(), stats)
    }

    /// Every accepted request is completed, being served, or waiting, in the order of acceptance; the
    /// operations done and to do are those of the requests begun, and the device saw exactly those done.
    ghost predicate Valid()
      reads this, dev, dev.root.Repr
    {
      && DeviceOk() && Behind() && start == Protocol.Machine(Protocol.Uniform(c, None, 0), start.spm, [], true)
      && AllSupported(c, queue) && InStep(c, start, Begun(), executed, opQueue, Show())
      && (if serving.Some? then opQueue != [] && Serves(c, opQueue, serving.value) else opQueue == [])
      && (delayActive ==> opQueue != [] && opQueue[0].Delay?)
      && accepted == Begun() + queue
    }

    constructor (c: Config, queueSize: int, dev: Hbm3.Device)
      requires c.Valid() && dev.Valid() && dev.org == Hbm3.Org(c.pchs, c.bgs, c.banks) && dev.trace == []
      ensures Valid() && this.c == c && this.queueSize == queueSize && this.dev == dev
      ensures accepted == [] && completed == [] && opQueue == [] && queue == [] && executed == [] &&
              start.spm == dev.nSPM
    {
      this.c, this.queueSize, this.dev := c, queueSize, dev;
      this.start := Protocol.Machine(Protocol.Uniform(c, None, 0), dev.nSPM, [], true);
      clk, queue, opQueue, delayActive, delayDone, completed := dev.clk, [], [], false, -1, [];
      stats := NO_STATS;
      accepted, serving, executed := [], None, [];
      new;
      Protocol.ExecMore(c, start, [], Delay(0));
    }

    /// The size of the queue is compared with the configured size as an unsigned number, so a negative one
    /// is no limit.
    predicate HasRoom()
      reads this`queue
    {
      queueSize < 0 || |queue| < queueSize
    }

    /// A request is taken if there is room and the controller knows its kind.
    method Send(req: Request) returns (ok: bool)
      requires Valid() && req.Valid(c)
      modifies this`queue, this`stats, this`accepted
      ensures Valid() && (ok <==> old(HasRoom()) && !req.kind.Unsupported?)
      ensures queue == old(queue) + (if ok then [req] else [])
      ensures accepted == old(accepted) + (if ok then [req] else [])
      ensures stats == if ok then old(stats) else old(stats).(rejected := old(stats).rejected + 1)
    {
      hide Serves, InStep, Hbm3.Device.Valid, AddsUp;
      ok := HasRoom() && !req.kind.Unsupported?;
      if ok {
        queue := queue + [req];
        accepted := accepted + [req];
      } else {
        StillAddsUp(c, Begun(), stats, stats.completed, stats.rejected + 1);
        stats := stats.(rejected := stats.rejected + 1);
      }
    }

    // ---------- expansion ----------

    method EnqueueCommand(cmd: Cmd, a: Addr)
      modifies this`opQueue
      ensures opQueue == old(opQueue) + [Command(cmd, a)]
    {
      opQueue := opQueue + [Command(cmd, a)];
    }

    method EnqueuePerBank(cmd: Cmd, a: Addr)
      requires c.Valid()
      modifies this`opQueue
      ensures opQueue == old(opQueue) + PerBank(c, cmd, a, c.TotalBanks())
    {
      assert PerBank(c, cmd, a, 0) == [];
      hide Config.BanksPerPch, Config.TotalBanks, PerBank;
      ghost var before := opQueue;
      for pch := 0 to c.pchs
        invariant 0 <= pch * c.BanksPerPch() && opQueue == before + PerBank(c, cmd, a, pch * c.BanksPerPch())
      {
        EnqueuePch(cmd, a, pch, before);
        NextPch(c, pch);
      }
      AllPchs(c);
    }

    method EnqueuePch(cmd: Cmd, a: Addr, pch: nat, ghost before: seq<Op>)
      requires c.Valid() && pch < c.pchs && 0 <= pch * c.BanksPerPch()
      requires opQueue == before + PerBank(c, cmd, a, pch * c.BanksPerPch())
      modifies this`opQueue
      ensures 0 <= pch * c.BanksPerPch() + c.bgs * c.banks
      ensures opQueue == before + PerBank(c, cmd, a, pch * c.BanksPerPch() + c.bgs * c.banks)
    {
      hide Config.BanksPerPch, Config.TotalBanks, PerBank;
      for bg := 0 to c.bgs
        invariant 0 <= pch * c.BanksPerPch() + bg * c.banks
        invariant opQueue == before + PerBank(c, cmd, a, pch * c.BanksPerPch() + bg * c.banks)
      {
        ghost var first := pch * c.BanksPerPch() + bg * c.banks;
        for bank := 0 to c.banks
          invariant opQueue == before + PerBank(c, cmd, a, first + bank)
        {
          PerBankMore(c, cmd, a, pch, bg, bank, first + bank);
          EnqueueCommand(cmd, a.(pch := pch, bg := bg, bank := bank));
        }
        NextGroup(bg, c.banks);
      }
    }

    method EnqueueOpened(wanted: bool, cmd: Cmd, a: Addr)
      requires c.Valid()
      modifies this`opQueue
      ensures opQueue == old(opQueue) + Opened(c, wanted, cmd, a)
    {
      if wanted {
        EnqueuePerBank(cmd, a);
      }
    }

    method EnqueueMacs(base: Addr, first: int, chunk: nat)
      requires c.Valid()
      modifies this`opQueue
      ensures opQueue == old(opQueue) + Macs(c, base, first, chunk)
    {
      for i := 0 to chunk
        invariant opQueue == old(opQueue) + Macs(c, base, first, i)
      {
        EnqueueCommand(MAC, AllBanks(EsdmAddr(c, base, c.ktRow, first + i)));
      }
    }

    /// The first stage, a row of columns at a time.
    method EnqueueQkStage(base: Addr, n: int)
      requires c.Valid()
      modifies this`opQueue, this`stats
      ensures opQueue == old(opQueue) + QkStage(c, base, n)
      ensures var rows := if c.esdm then Rows(c, c.ktCol, 0, n) else 0;
              stats == old(stats).(qkRows := old(stats).qkRows + rows,
                                   qkHits := old(stats).qkHits + (if c.esdm then Max(0, n) - rows else 0))
    {
      if n <= 0 {
        return;
      }
      if !c.esdm {
        for i := 0 to n
          invariant opQueue == old(opQueue) + Macs(c, base, 0, i) && stats == old(stats)
        {
          EnqueueCommand(MAC, AllBanks(base));
        }
        return;
      }
      var issued := 0;
      while issued < n
        invariant 0 <= issued <= n
        invariant opQueue + QkChunks(c, base, issued, n) == old(opQueue) + QkChunks(c, base, 0, n)
        invariant stats == old(stats).(qkRows := stats.qkRows, qkHits := stats.qkHits)
        invariant stats.qkRows + Rows(c, c.ktCol, issued, n) == old(stats).qkRows + Rows(c, c.ktCol, 0, n)
        invariant stats.qkRows + stats.qkHits == old(stats).qkRows + old(stats).qkHits + issued
      {
        ghost var done := opQueue;
        issued := EnqueueQkChunk(base, issued, n);
      }
      assert opQueue == old(opQueue) + QkChunks(c, base, 0, n);
    }

    method EnqueueQkChunk(base: Addr, issued: int, n: int) returns (next: int)
      requires c.Valid() && issued < n && c.esdm
      modifies this`opQueue, this`stats
      ensures next == issued + Chunk(c, c.ktCol, issued, n)
      ensures opQueue == old(opQueue) + QkChunk(c, base, issued, n)
      ensures stats == old(stats).(qkRows := old(stats).qkRows + 1, qkHits := old(stats).qkHits + next - issued - 1)
    {
      hide EsdmAddr, Opened, Macs, PerBank;
      var rowCol := Rem(c.ktCol + issued, c.columnsPerRow);
      var chunk := Min(n - issued, c.columnsPerRow - rowCol);
      var row := EsdmAddr(c, base, c.ktRow, c.ktCol + issued);
      stats := stats.(qkRows := stats.qkRows + 1, qkHits := stats.qkHits + chunk - 1);
      EnqueueOpened(c.qkActPre, ACT, row);
      EnqueueMacs(base, c.ktCol + issued, chunk);
      EnqueueOpened(c.qkActPre, PRE, row);
      next := issued + chunk;
    }

    /// One row of the second stage: the SPM's latency is set just before it.
    method EnqueuePvRow(row: Addr, chunk: int)
      requires c.Valid()
      modifies this`opQueue, this`stats
      ensures opQueue == old(opQueue) + PvRow(c, row, chunk)
      ensures stats == old(stats).(spmCycles := old(stats).spmCycles + SpmLatency(c, chunk))
    {
      hide Opened, PerBank;
      var latency := Max(1, c.spmFixed + chunk * c.spmPerVoc);
      stats := stats.(spmCycles := stats.spmCycles + latency);
      opQueue := opQueue + [ConfigureSpm(latency)];
      EnqueueOpened(c.spmActPre, ACT, row);
      EnqueueCommand(SPM, AllBanks(row));
      EnqueueOpened(c.spmActPre, PRE, row);
    }

    /// The second stage; the SPM cycles it counts are those its SPMs take.
    method EnqueuePvStage(base: Addr, n: int)
      requires c.Valid() && n > 0
      modifies this`opQueue, this`stats
      ensures opQueue == old(opQueue) + PvStage(c, base, n)
      ensures var rows := if c.esdm then Rows(c, c.vCol, 0, n) else 0;
              stats == old(stats).(pvRows := old(stats).pvRows + rows,
                                   pvHits := old(stats).pvHits + (if c.esdm then n - rows else 0),
                                   spmCycles := old(stats).spmCycles + Total(Protocol.TokenLatencies(c, n)))
    {
      hide PvRow, EsdmAddr;
      if !c.esdm {
        EnqueuePvRow(base, n);
        assert [SpmLatency(c, n)][1..] == [];
        return;
      }
      PvNone(c, base, n);
      hide PvChunks, Rows, Protocol.Latencies, Total, Chunk, SpmLatency;
      var processed := 0;
      while processed < n
        invariant 0 <= processed <= n
        invariant opQueue + PvChunks(c, base, processed, n) == old(opQueue) + PvChunks(c, base, 0, n)
        invariant stats == old(stats).(pvRows := stats.pvRows, pvHits := stats.pvHits, spmCycles := stats.spmCycles)
        invariant stats.pvRows + Rows(c, c.vCol, processed, n) == old(stats).pvRows + Rows(c, c.vCol, 0, n)
        invariant stats.pvRows + stats.pvHits == old(stats).pvRows + old(stats).pvHits + processed
        invariant stats.spmCycles + Total(Protocol.Latencies(c, processed, n)) ==
                  old(stats).spmCycles + Total(Protocol.Latencies(c, 0, n))
      {
        LatenciesMore(c, processed, n);
        PvMore(c, base, processed, n);
        ghost var done, first := opQueue, processed;
        processed := EnqueuePvChunk(base, processed, n);
        Append(done, PvRow(c, EsdmAddr(c, base, c.vRow, c.vCol + first), processed - first),
               PvChunks(c, base, processed, n));
      }
      assert opQueue == old(opQueue) + PvChunks(c, base, 0, n);
    }

    method EnqueuePvChunk(base: Addr, processed: int, n: int) returns (next: int)
      requires c.Valid() && processed < n
      modifies this`opQueue, this`stats
      ensures next == processed + Chunk(c, c.vCol, processed, n)
      ensures opQueue == old(opQueue) + PvRow(c, EsdmAddr(c, base, c.vRow, c.vCol + processed), next - processed)
      ensures stats == old(stats).(pvRows := old(stats).pvRows + 1, pvHits := old(stats).pvHits + next - processed - 1,
                                   spmCycles := old(stats).spmCycles + SpmLatency(c, next - processed))
    {
      hide PvRow, EsdmAddr, Opened;
      var rowCol := Rem(c.vCol + processed, c.columnsPerRow);
      var chunk := Min(n - processed, c.columnsPerRow - rowCol);
      var row := EsdmAddr(c, base, c.vRow, c.vCol + processed);
      stats := stats.(pvRows := stats.pvRows + 1, pvHits := stats.pvHits + chunk - 1);
      EnqueuePvRow(row, chunk);
      next := processed + chunk;
    }

    method EnqueueAccs(base: Addr, n: int)
      requires c.Valid()
      modifies this`opQueue
      ensures opQueue == old(opQueue) + Accs(c, base, Max(0, n))
    {
      var i := 0;
      while i < n
        invariant 0 <= i <= Max(0, n) && opQueue == old(opQueue) + Accs(c, base, i)
      {
        EnqueueCommand(ACC, AtBank(c, base, i % c.TotalBanks()));
        i := i + 1;
      }
    }

    /// One pass over the counts of all banks, bank group by bank group.
    method ReadVocs(req: Request) returns (s: Summary)
      requires c.Valid() && req.Valid(c)
      ensures s == SummaryOf(c, req)
    {
      if req.vocs == [] {
        var maxVoc := Max(0, req.scratchpad[0]);
        return Summary(maxVoc, Max(0, req.scratchpad[1]), c.bgs, c.bgs * c.banks, if maxVoc > 0 then 1 else 0);
      }
      var vocs := req.vocs;
      var bgmuReads := (|vocs| + c.banks - 1) / c.banks;
      Groups(|vocs|, c.banks);
      s := Summary(0, 0, bgmuReads, 0, 0);
      var bg := 0;
      while bg < bgmuReads
        invariant 0 <= bg <= bgmuReads
        invariant s == SummaryUpTo(vocs, Min(bg * c.banks, |vocs|), bgmuReads)
      {
        NextGroup(bg, c.banks);
        s := ReadGroup(vocs, bg * c.banks, s);
        bg := bg + 1;
      }
      assert vocs[..|vocs|] == vocs;
    }

    method ReadGroup(vocs: seq<int>, base: nat, s0: Summary) returns (s: Summary)
      requires c.Valid() && s0 == SummaryUpTo(vocs, Min(base, |vocs|), s0.bgmuReads)
      ensures s == SummaryUpTo(vocs, Min(base + c.banks, |vocs|), s0.bgmuReads)
    {
      s := s0;
      var bank := 0;
      while bank < c.banks && base + bank < |vocs|
        invariant 0 <= bank <= c.banks
        invariant s == SummaryUpTo(vocs, Min(base + bank, |vocs|), s0.bgmuReads)
      {
        hide MaxOf, TotalOf, RisesOf;
        SummaryMore(vocs, base + bank, s0.bgmuReads);
        var value := Max(0, vocs[base + bank]);
        s := s.(values := s.values + 1, totalVoc := s.totalVoc + value);
        if value > s.maxVoc {
          s := s.(maxVoc := value, updates := s.updates + 1);
        }
        bank := bank + 1;
      }
    }

    method EnqueueSecondStage(base: Addr, maxVoc: nat, accs: int)
      requires c.Valid()
      modifies this`opQueue, this`stats
      ensures opQueue ==
                old(opQueue) + (if maxVoc == 0 then [] else PvStage(c, base, maxVoc) + Accs(c, base, Max(0, accs)))
      ensures var rows := if c.esdm then Rows(c, c.vCol, 0, maxVoc) else 0;
              stats == old(stats).(pvRows := old(stats).pvRows + rows,
                                   pvHits := old(stats).pvHits + (if c.esdm then maxVoc - rows else 0),
                                   spmCycles := old(stats).spmCycles + Total(Protocol.TokenLatencies(c, maxVoc)),
                                   skippedSpm := old(stats).skippedSpm + (if maxVoc == 0 then 1 else 0),
                                   skippedActPre := old(stats).skippedActPre +
                                                    (if maxVoc == 0 && c.spmActPre then c.TotalBanks() * 2 else 0))
    {
      hide PvStage, Accs, Rows, Protocol.TokenLatencies;
      NoSecondStage(c);
      if maxVoc == 0 {
        stats := stats.(skippedSpm := stats.skippedSpm + 1);
        if c.spmActPre {
          stats := stats.(skippedActPre := stats.skippedActPre + c.TotalBanks() * 2);
        }
      } else {
        EnqueuePvStage(base, maxVoc);
        EnqueueAccs(base, accs);
      }
    }

    method ExpandToken(req: Request)
      requires c.Valid() && req.Valid(c) && req.kind.Token?
      modifies this`opQueue, this`stats
      ensures opQueue == old(opQueue) + ProgramOf(c, req)
      ensures TokenStats(c, req, old(stats), stats)
    {
      hide SummaryOf, QkStage, PvStage, Accs, EsdmAddr, Rows, Protocol.TokenLatencies;
      stats := stats.(tokens := stats.tokens + 1);
      var base := Normalized(req.addr);
      var s := ReadVocs(req);
      var macs, accs := MacCommands(c, req), AccCommands(c, req);
      MaxVocPositive(c, req);
      var totalVoc := s.totalVoc;
      if totalVoc == 0 && s.maxVoc > 0 {
        totalVoc := s.maxVoc;
      }
      stats := stats.(totalVoc := stats.totalVoc + totalVoc, maxVocSum := stats.maxVocSum + s.maxVoc,
                      maxUpdates := stats.maxUpdates + s.updates);
      EnqueueQkStage(base, macs);
      var elemax := AllBanks(EsdmAddr(c, base, c.ktRow, c.ktCol));
      EnqueueCommand(MOV, elemax);
      EnqueueCommand(EMUL, elemax);
      EnqueueReadDelay(s.bgmuReads, s.values);
      EnqueueSecondStage(base, s.maxVoc, accs);
      opQueue := opQueue + [Complete(req)];
    }

    method EnqueueReadDelay(bgmuReads: int, values: int)
      modifies this`opQueue, this`stats
      ensures opQueue == old(opQueue) + ReadDelay(c, bgmuReads)
      ensures var fetches := Max(1, bgmuReads);
              stats == old(stats).(bgmuReads := old(stats).bgmuReads + fetches,
                                   bgmuValues := old(stats).bgmuValues +
                                                   (if values > 0 then values else fetches * c.banks),
                                   readCycles := old(stats).readCycles + ReadLatency(c, bgmuReads))
    {
      var fetches := Max(1, bgmuReads);
      var latency := c.nCL + (fetches - 1) * c.nCCDS + c.nBL;
      stats := stats.(bgmuReads := stats.bgmuReads + fetches,
                      bgmuValues := stats.bgmuValues + (if values > 0 then values else fetches * c.banks),
                      readCycles := stats.readCycles + latency);
      if c.readAsDelay {
        opQueue := opQueue + [Delay(Max(1, latency))];
      }
    }

    method ExpandRequest(req: Request)
      requires c.Valid() && req.Valid(c) && !req.kind.Unsupported?
      modifies this`opQueue, this`stats
      ensures opQueue == old(opQueue) + ProgramOf(c, req)
      ensures if req.kind.Token? then TokenStats(c, req, old(stats), stats) else stats == old(stats)
    {
      hide TokenStats, TokenProgram, SummaryOf;
      match req.kind
      case Token =>
        ExpandToken(req);
      case Direct(cmd) =>
        EnqueueCommand(cmd, Normalized(req.addr));
        opQueue := opQueue + [Complete(req)];
    }

    // ---------- one cycle ----------

    lemma {:induction false} HeadIsPlain()
      requires opQueue != [] && serving.Some? && Serves(c, opQueue, serving.value) && !opQueue[0].Complete?
      ensures PlainOp(c, opQueue[0])
    {
      TailServes(c, opQueue, serving.value);
    }

    /// The clock from which on the device takes the command, by what it has seen so far.
    ghost function ReadyFrom(cmd: Cmd, a: Addr): nat
      requires DeviceOk() && Reaches(c, a)
      reads this, dev, dev.root.Repr
    {
      dev.ReadyFrom(Code(cmd), Vec(dev.channel, a))
    }

    /// How many cycles the first operation still has to wait at least.
    ghost function Wait(): nat
      requires Valid()
      reads this, dev, dev.root.Repr
    {
      if opQueue == [] then 0
      else
        match opQueue[0]
        case Command(cmd, a) => HeadIsPlain(); Max(0, ReadyFrom(cmd, a) - clk)
        case Delay(cycles) => if delayActive then Max(0, delayDone - clk) else Max(0, cycles) + 1
        case _ => 0
    }

    /// Nothing left to do, or something was completed, or the present request is closer to its end.
    twostate predicate Progress()
      requires old(Valid()) && Valid()
      reads this, dev, dev.root.Repr
    {
      (old(opQueue) == [] && old(queue) == []) ||
      |completed| == |old(completed)| + 1 ||
      (completed == old(completed) && opQueue != [] &&
       (old(opQueue) == [] || |opQueue| < |old(opQueue)| || (|opQueue| == |old(opQueue)| && Wait() < old(Wait()))))
    }

    /// One cycle of the memory system: the device's clock, then the controller.
    method Tick()
      requires Valid()
      modifies this, dev, dev.root.Repr
      ensures Valid() && clk == old(clk) + 1 && accepted == old(accepted)
      ensures old(completed) <= completed && |completed| <= |old(completed)| + 1
      ensures Progress()
    {
      hide Serves, InStep, Hbm3.Device.Valid, Behind, DeviceOk, ReadyFrom;
      AdvanceClock();
      if opQueue == [] && queue != [] {
        StartNext();
      }
      if opQueue == [] {
        return;
      }
      Work();
    }

    /// While the first operation waits for the clock, the clock brings it closer.
    method AdvanceClock()
      requires Valid()
      modifies this`clk, dev`clk
      ensures Valid() && clk == old(clk) + 1
      ensures Wait() == if opQueue == [] || (opQueue[0].Delay? && !delayActive) || old(Wait()) == 0 then old(Wait())
                        else old(Wait()) - 1
    {
      hide Serves, InStep, Behind;
      dev.Tick();
      clk := clk + 1;
    }

    /// The first waiting request is expanded.
    method StartNext()
      requires Valid() && opQueue == [] && queue != []
      modifies this`queue, this`opQueue, this`stats, this`serving
      ensures Valid() && serving == Some(old(queue)[0]) && queue == old(queue)[1..] &&
              opQueue == ProgramOf(c, old(queue)[0])
      ensures if old(queue)[0].kind.Token? then TokenStats(c, old(queue)[0], old(stats), stats) else stats == old(stats)
    {
      hide ProgramOf, Serves, InStep, Hbm3.Device.Valid, Programs, Rows, SummaryOf, AddsUp, TokenStats;
      var req := queue[0];
      ghost var begun := Begun();
      assert begun == completed && queue == [req] + queue[1..];
      queue := queue[1..];
      ProgramServes(c, req);
      StepInto(c, start, begun, executed, Show(), req);
      ghost var before := stats;
      ExpandRequest(req);
      AddsUpMore(c, begun, before, req, stats);
      serving := Some(req);
      assert opQueue == ProgramOf(c, req);
      assert Begun() == begun + [req];
      TailServes(c, opQueue, req);
    }

    /// The first operation stays where it is, because its time has not come.
    twostate predicate Waits()
      requires old(Valid()) && Valid()
      reads this, dev, dev.root.Repr
    {
      opQueue == old(opQueue) && opQueue != [] && Show() == old(Show()) &&
      Wait() == old(Wait()) - (if opQueue[0].Delay? && !old(delayActive) then 1 else 0) &&
      ((opQueue[0].Delay? && !old(delayActive)) || Wait() > 0) &&
      match opQueue[0]
      case Command(cmd, a) => HeadIsPlain(); clk < ReadyFrom(cmd, a) == old(ReadyFrom(cmd, a))
      case Delay(cycles) => delayActive &&
                            clk < delayDone == (if old(delayActive) then old(delayDone) else clk + cycles)
      case _ => false
    }

    /// Work on the first operation: it is done with, its request is completed, or it waits.
    method Work()
      requires Valid() && opQueue != []
      modifies this`opQueue, this`delayActive, this`delayDone, this`stats, this`completed, this`serving, this`executed
      modifies dev`trace, dev`latencies, dev`nSPM, dev`table, dev.root.Repr
      ensures Valid()
      ensures match old(opQueue)[0]
              case Complete(req) =>
                completed == old(completed) + [req] && opQueue == [] && Show() == old(Show())
              case Command(cmd, a) =>
                completed == old(completed) && opQueue != [] &&
                (if Reaches(c, a) && clk >= old(ReadyFrom(cmd, a)) then
                   opQueue == old(opQueue)[1..] &&
                   Show() == Shown(old(Show()), old(opQueue)[0],
                                   Timing.Event(Code(cmd), Vec(dev.channel, a), clk, old(dev.table)))
                 else Waits())
              case ConfigureSpm(cycles) =>
                completed == old(completed) && opQueue == old(opQueue)[1..] != [] &&
                Show() == old(Show()).(spm := cycles)
              case Delay(cycles) =>
                completed == old(completed) && opQueue != [] && Show() == old(Show()) &&
                (if clk >= (if old(delayActive) then old(delayDone) else clk + cycles) then opQueue == old(opQueue)[1..]
                 else Waits())
    {
      hide Serves, InStep, Hbm3.Device.Valid, Programs, AddsUp;
      TailServes(c, opQueue, serving.value);
      var op := opQueue[0];
      ghost var ops, begun, e := opQueue, Begun(), EventOf(op);
      StepOn(c, start, begun, executed, ops, Show(), e);
      match op {
      case Delay(_) =>
        TickDelay();
      case ConfigureSpm(cycles) =>
        dev.Notify(cycles);
        opQueue := opQueue[1..];
      case Complete(req) =>
        StillAddsUp(c, begun, stats, stats.completed + 1, stats.rejected);
        stats := stats.(completed := stats.completed + 1);
        completed := completed + [req];
        opQueue := opQueue[1..];
        serving := None;
        assert Begun() == begun;
        AllDone(executed + [op], begun, Show());
      case Command(_, _) =>
        IssueIfReady();
      }
      executed := if |opQueue| < |ops| then executed + [op] else executed;
    }

    /// What the device would record of the operation now.
    ghost function EventOf(op: Op): Timing.Event
      reads this, dev
    {
      if op.Command? then Timing.Event(Code(op.cmd), Vec(dev.channel, op.addr), clk, dev.table)
      else Timing.Event(0, [], 0, [])
    }

    /// With nothing left to do, the operations done are the whole programs.
    lemma {:induction false} AllDone(done: seq<Op>, begun: seq<Request>, d: View)
      requires InStep(c, start, begun, done, [], d)
      ensures AllSupported(c, begun) && |Programs(c, begun)| <= |done|
    {
      assert done + [] == done;
    }

    method TickDelay()
      requires opQueue != [] && opQueue[0].Delay?
      modifies this`delayActive, this`delayDone, this`opQueue
      ensures var until := if old(delayActive) then old(delayDone) else clk + old(opQueue)[0].cycles;
              if clk >= until then !delayActive && opQueue == old(opQueue)[1..]
              else delayActive && delayDone == until && opQueue == old(opQueue)
    {
      if !delayActive {
        delayActive := true;
        delayDone := clk + opQueue[0].cycles;
      }
      if clk >= delayDone {
        delayActive := false;
        delayDone := -1;
        opQueue := opQueue[1..];
      }
    }

    method IssueIfReady()
      requires DeviceOk() && opQueue != [] && opQueue[0].Command? && Reaches(c, opQueue[0].addr)
      modifies this`opQueue, dev`trace, dev`latencies, dev.root.Repr
      ensures DeviceOk()
      ensures var op := old(opQueue)[0];
              if clk >= old(ReadyFrom(op.cmd, op.addr)) then
                opQueue == old(opQueue)[1..] && Show() == Shown(old(Show()), op, old(EventOf(op)))
              else opQueue == old(opQueue) && Show() == old(Show()) &&
                   ReadyFrom(op.cmd, op.addr) == old(ReadyFrom(op.cmd, op.addr))
    {
      hide Hbm3.Device.Valid, Hbm3.Device.CheckReady, Hbm3.Device.ReadyFrom;
      var op := opQueue[0];
      var code, vec := Code(op.cmd), Vec(dev.channel, op.addr);
      dev.ReadyWhen(code, vec);
      if !dev.CheckReady(code, vec) {
        return;
      }
      dev.Issue(code, vec);
      opQueue := opQueue[1..];
    }

    // ---------- what was issued so far keeps the protocol ----------

    /// In every reachable state: if the requests begun keep to the protocol, every operation so far was
    /// permitted in the state of the banks it found; and if so, the completed requests all keep to it.
    lemma {:induction false} IssuedKeepsProtocol()
      requires Valid()
      ensures (forall req :: req in Begun() ==> Keeps(c, req)) ==>
                forall i :: 0 <= i < |executed| ==> Protocol.PermittedAt(c, start, executed, i)
      ensures (forall i :: 0 <= i < |executed| ==> Protocol.PermittedAt(c, start, executed, i)) ==>
                forall req :: req in completed ==> Keeps(c, req)
    {
      hide Hbm3.Device.Valid, Protocol.Exec, Programs, Keeps, Serves, Saw, Protocol.PermittedAt;
      Protocol.OkMeansPermitted(c, start, executed);
      Protocol.ExecPrefix(c, start, executed, opQueue);
      var _ := RunKeepsProtocol(c, start, Begun());
      var _ := RunKeepsProtocol(c, start, completed);
      CompletedIsDone();
      var rest := executed[|Programs(c, completed)|..];
      assert executed == Programs(c, completed) + rest;
      Protocol.ExecPrefix(c, start, Programs(c, completed), rest);
    }

    lemma {:induction false} CompletedIsDone()
      requires Valid()
      ensures Programs(c, completed) <= executed
    {
      hide Hbm3.Device.Valid, ProgramOf, Serves, Saw, Protocol.Exec;
      assert Programs(c, completed) <= Programs(c, Begun()) by {
        if serving.Some? {
          assert Begun()[..|Begun()| - 1] == completed;
        } else {
          assert Begun() == completed;
        }
      }
      assert executed <= executed + opQueue;
    }

    /// In every reachable state, with ESDM, the rows and page hits counted for the first stage are the MACs that the
    /// device has seen and those still to be issued, the rows of the second stage are the SPMs, and the rows of both
    /// stages, each as far as it is opened at all, come to the activates, one for each bank; commands that were asked
    /// for by themselves not counted.
    lemma {:induction false} RowsAreCounted()
      requires Valid() && c.esdm
      ensures stats.qkRows + stats.qkHits + Directs(Begun(), MAC) == SeenAndLeft(MAC)
      ensures stats.pvRows + Directs(Begun(), SPM) == SeenAndLeft(SPM)
      ensures stats.qkRows * PerRow(c, c.qkActPre) + stats.pvRows * PerRow(c, c.spmActPre) + Directs(Begun(), ACT) ==
              SeenAndLeft(ACT)
    {
      hide Hbm3.Device.Valid, Programs, Serves, Saw, Directs, Targets, AddressesOf, RunLatencies, Total, Spmless;
      hide SeenAndLeft, PerRow;
      AllSeenOrLeft(ACT);
      AllSeenOrLeft(MAC);
      AllSeenOrLeft(SPM);
    }

    /// The commands of a kind that the device has seen and those still to be issued.
    ghost function SeenAndLeft(cmd: Cmd): nat
      reads this, dev
    {
      |AddressesOf(dev.trace, Code(cmd))| + |Targets(opQueue, cmd)|
    }

    lemma {:induction false} AllSeenOrLeft(cmd: Cmd)
      requires Valid()
      ensures Asked(c, Begun(), cmd) == SeenAndLeft(cmd)
    {
      hide Hbm3.Device.Valid, Programs, Serves, Saw, Targets, AddressesOf, RunLatencies, Total, Vec, AddsUp;
      CommandsSeen(c, start, executed, Show(), cmd);
      TargetsConcat(executed, opQueue, cmd);
    }

    /// In every reachable state the commands of a kind that the device has seen went to the addresses that the programs
    /// of the requests begun give, one by one and in order.
    lemma {:induction false} CommandsReach(cmd: Cmd)
      requires Valid()
      ensures AddressesOf(dev.trace, Code(cmd)) <= Vecs(dev.channel, Targets(Programs(c, Begun()), cmd))
    {
      hide Hbm3.Device.Valid, Programs, Serves, Saw, Targets, AddressesOf, RunLatencies, Total, Vec;
      CommandsSeen(c, start, executed, Show(), cmd);
      TargetsConcat(executed, opQueue, cmd);
    }

    /// In every reachable state the SPMs that the device saw ran with the latencies of their own chunks, in
    /// order, as long as no request asked for a bare SPM.
    lemma {:induction false} SpmsRunTheirChunks()
      requires Valid() && forall req :: req in Begun() ==> req.kind != Direct(SPM)
      ensures SpmLatencies(dev.trace, dev.latencies) <= RunLatencies(c, Begun())
    {
      hide Hbm3.Device.Valid, Protocol.Exec, Programs, Serves;
      SpmsSeen(c, start, executed, Show());
      Protocol.ExecPrefix(c, start, executed, opQueue);
      var m' := RunKeepsProtocol(c, start, Begun());
      var seen := SpmLatencies(dev.trace, dev.latencies);
      assert start.latencies + seen == seen;
      assert start.latencies + RunLatencies(c, Begun()) == RunLatencies(c, Begun());
    }

    /// And nothing that has to wait for an SPM follows it in a pseudochannel before its chunk's time has passed.
    lemma {:induction false} ChunkTimeIsKept(j: nat, k: nat, pch: nat)
      requires Valid() && forall req :: req in Begun() ==> req.kind != Direct(SPM)
      requires j < k < |dev.trace| && pch < c.pchs && dev.trace[j].cmd == Hbm3.SPM
      requires dev.trace[k].cmd in Hbm3.AFTER_SPM && dev.trace[k].cmd != Hbm3.PREA
      requires Timing.Matches([dev.channel, pch], dev.trace[j].addr) &&
               Timing.Matches([dev.channel, pch], dev.trace[k].addr)
      ensures |dev.latencies| == |dev.trace|
      ensures var n := |SpmLatencies(dev.trace[..j], dev.latencies[..j])|;
              n < |RunLatencies(c, Begun())| && dev.trace[j].clk + RunLatencies(c, Begun())[n] <= dev.trace[k].clk
    {
      hide Protocol.Exec, Programs, Serves, InStep, Timing.Matches;
      dev.SpmRunsItsLatency(j, k, pch);
      SpmsRunTheirChunks();
      NthSpm(dev.trace, dev.latencies, j);
    }
  }

  // ---------- every accepted request is completed ----------

  /// Whatever is sent in between, the k-th accepted request is completed after finitely many cycles, and
  /// the requests are completed one by one in the order in which they were accepted.
  method RunUntilCompleted(ctrl: Controller, k: nat, arrivals: nat -> seq<Request>) returns (cycles: nat)
    requires ctrl.Valid() && k < |ctrl.accepted| && forall i, r :: r in arrivals(i) ==> r.Valid(ctrl.c)
    modifies ctrl, ctrl.dev, ctrl.dev.root.Repr
    ensures ctrl.Valid() && old(ctrl.accepted) <= ctrl.accepted
    ensures |ctrl.completed| > k && ctrl.completed == ctrl.accepted[..|ctrl.completed|]
    ensures ctrl.clk == old(ctrl.clk) + cycles
  {
    hide Serves, InStep, Hbm3.Device.Valid, Controller.Behind, Controller.DeviceOk;
    cycles := 0;
    while |ctrl.completed| <= k
      invariant ctrl.Valid() && old(ctrl.accepted) <= ctrl.accepted && ctrl.clk == old(ctrl.clk) + cycles
      decreases k - |ctrl.completed|, if ctrl.opQueue == [] then 1 else 0, |ctrl.opQueue|, ctrl.Wait()
    {
      ctrl.Tick();
      cycles := cycles + 1;
      SendAll(ctrl, arrivals(cycles));
    }
  }

  method SendAll(ctrl: Controller, requests: seq<Request>)
    requires ctrl.Valid() && forall r :: r in requests ==> r.Valid(ctrl.c)
    modifies ctrl`queue, ctrl`stats, ctrl`accepted
    ensures ctrl.Valid() && old(ctrl.accepted) <= ctrl.accepted && ctrl.Wait() == old(ctrl.Wait())
  {
    hide Serves, InStep, Hbm3.Device.Valid, Controller.Behind;
    for i := 0 to |requests|
      invariant ctrl.Valid() && old(ctrl.accepted) <= ctrl.accepted && ctrl.Wait() == old(ctrl.Wait())
    {
      var ok := ctrl.Send(requests[i]);
    }
  }

  // ---------- the trace frontend ----------

  /// Sends the requests of a trace one after the other, each until it is accepted
  /// (src/frontend/impl/sparepim/sparepim_trace.cpp).
  class TraceFrontend {
    const trace: seq<Request>
    var next: nat

    constructor (trace: seq<Request>)
      ensures this.trace == trace && next == 0
    {
      this.trace, this.next := trace, 0;
    }

    method Tick(ctrl: Controller)
      requires ctrl.Valid() && next <= |trace| && AllSupported(ctrl.c, trace)
      modifies this`next, ctrl`queue, ctrl`stats, ctrl`accepted
      ensures ctrl.Valid() && next == old(next) + (if old(next) < |trace| && old(ctrl.HasRoom()) then 1 else 0)
      ensures ctrl.accepted == old(ctrl.accepted) + trace[old(next)..next]
      ensures next == old(next) ==> ctrl.queue == old(ctrl.queue) && ctrl.Wait() == old(ctrl.Wait())
    {
      hide Serves, InStep, Hbm3.Device.Valid, Controller.Behind, Controller.DeviceOk;
      if next >= |trace| {
        return;
      }
      assert trace[next] in trace;
      var sent := ctrl.Send(trace[next]);
      if sent {
        next := next + 1;
      }
    }

    predicate IsFinished(ctrl: Controller)
      reads this, ctrl
    {
      next >= |trace| && |ctrl.completed| >= |trace|
    }
  }

  /// Unless the queue has size zero the whole simulation ends, each request of the trace having been completed
  /// exactly once, in order.
  method RunTrace(ctrl: Controller, front: TraceFrontend) returns (cycles: nat)
    requires ctrl.Valid() && ctrl.accepted == [] && ctrl.queueSize != 0 && front.next == 0
    requires AllSupported(ctrl.c, front.trace)
    modifies ctrl, front, ctrl.dev, ctrl.dev.root.Repr
    ensures ctrl.Valid() && front.IsFinished(ctrl) && ctrl.completed == front.trace
    ensures ctrl.clk == old(ctrl.clk) + cycles
  {
    hide Serves, InStep, Hbm3.Device.Valid, Controller.Behind, Controller.DeviceOk;
    cycles := 0;
    while !front.IsFinished(ctrl)
      invariant ctrl.Valid() && front.next <= |front.trace| && ctrl.accepted == front.trace[..front.next]
      invariant ctrl.clk == old(ctrl.clk) + cycles
      decreases |front.trace| - front.next, |front.trace| - |ctrl.completed|,
                if ctrl.opQueue == [] then 1 else 0, |ctrl.opQueue|, ctrl.Wait()
    {
      front.Tick(ctrl);
      ctrl.Tick();
      cycles := cycles + 1;
    }
  }

  /// With a queue of size zero nothing is ever accepted, so a trace with a request in it never ends.
  method NeverStarts(ctrl: Controller, front: TraceFrontend, cycles: nat)
    requires ctrl.Valid() && ctrl.accepted == [] && ctrl.queueSize == 0 && front.next == 0 && front.trace != []
    requires AllSupported(ctrl.c, front.trace)
    modifies ctrl, front, ctrl.dev, ctrl.dev.root.Repr
    ensures !front.IsFinished(ctrl) && ctrl.clk == old(ctrl.clk) + cycles
  {
    hide Serves, InStep, Hbm3.Device.Valid, Controller.Behind, Controller.DeviceOk;
    for i := 0 to cycles
      invariant ctrl.Valid() && ctrl.accepted == [] && front.next == 0 && ctrl.clk == old(ctrl.clk) + i
    {
      front.Tick(ctrl);
      ctrl.Tick();
    }
  }

  // ---------- a run of requests ----------

  /// The request keeps to the protocol: a token opens every row it uses, and no request asks for a bare MAC or
  /// SPM, which would find its banks closed.
  ghost predicate Keeps(c: Config, req: Request)
    requires c.Valid() && req.Valid(c)
  {
    match req.kind
    case Token =>
      (MacCommands(c, req) <= 0 || (c.esdm && c.qkActPre)) && (SummaryOf(c, req).maxVoc == 0 || c.spmActPre)
    case Direct(cmd) => cmd != MAC && cmd != SPM
    case Unsupported => true
  }

  /// The latencies that the SPMs of a run of tokens should have, each that of its own chunk.
  ghost function RunLatencies(c: Config, reqs: seq<Request>): seq<int>
    requires c.Valid() && AllSupported(c, reqs)
  {
    if reqs == [] then []
    else
      var last := reqs[|reqs| - 1];
      RunLatencies(c, reqs[..|reqs| - 1]) +
      (if last.kind.Token? then Protocol.TokenLatencies(c, SummaryOf(c, last).maxVoc) else [])
  }

  lemma {:induction false} RunLatenciesMore(c: Config, reqs: seq<Request>, req: Request)
    requires c.Valid() && AllSupported(c, reqs) && AllSupported(c, [req])
    ensures AllSupported(c, reqs + [req])
    ensures Total(RunLatencies(c, reqs + [req])) ==
            Total(RunLatencies(c, reqs)) +
              (if req.kind.Token? then Total(Protocol.TokenLatencies(c, SummaryOf(c, req).maxVoc)) else 0)
  {
    hide SummaryOf, Protocol.TokenLatencies;
    assert req in [req] && (reqs + [req])[..|reqs|] == reqs;
    TotalConcat(RunLatencies(c, reqs),
                if req.kind.Token? then Protocol.TokenLatencies(c, SummaryOf(c, req).maxVoc) else []);
  }

  /// Any number of requests, one after the other from closed banks: the banks are closed again, all was
  /// allowed exactly if each request keeps to the protocol, and every SPM of a token ran with the latency of
  /// its own chunk.
  lemma {:induction false} RunKeepsProtocol(c: Config, m: Protocol.Machine, reqs: seq<Request>)
    returns (m': Protocol.Machine)
    requires c.Valid() && Protocol.Ready(c, m) && AllSupported(c, reqs)
    ensures m' == Protocol.Exec(c, m, Programs(c, reqs)) && Protocol.Ready(c, m')
    ensures (forall req :: req in reqs ==> req.kind != Direct(SPM)) ==>
              m'.latencies == m.latencies + RunLatencies(c, reqs)
    ensures m'.ok <==> m.ok && forall req :: req in reqs ==> Keeps(c, req)
  {
    hide ProgramOf, SummaryOf, Protocol.Exec, Protocol.Ready, Protocol.TokenLatencies, Keeps;
    if reqs == [] {
      Protocol.ExecMore(c, m, [], Delay(0));
      m' := m;
    } else {
      var before, last := reqs[..|reqs| - 1], reqs[|reqs| - 1];
      assert reqs == before + [last] && forall t :: t in reqs <==> t in before || t == last;
      var m1 := RunKeepsProtocol(c, m, before);
      Protocol.ExecConcat(c, m, Programs(c, before), ProgramOf(c, last));
      RequestRun(c, m1, last);
      m' := Protocol.Exec(c, m1, ProgramOf(c, last));
      var more := if last.kind.Token? then Protocol.TokenLatencies(c, SummaryOf(c, last).maxVoc) else [];
      assert m.latencies + RunLatencies(c, before) + more == m.latencies + (RunLatencies(c, before) + more);
    }
  }

  lemma {:induction false} RequestRun(c: Config, m: Protocol.Machine, req: Request)
    requires c.Valid() && req.Valid(c) && !req.kind.Unsupported? && Protocol.Ready(c, m)
    ensures SummaryOf(c, req).maxVoc >= 0
    ensures var m' := Protocol.Exec(c, m, ProgramOf(c, req));
            Protocol.Ready(c, m') && (m'.ok <==> m.ok && Keeps(c, req)) &&
            (req.kind != Direct(SPM) ==>
              m'.latencies ==
                m.latencies + (if req.kind.Token? then Protocol.TokenLatencies(c, SummaryOf(c, req).maxVoc) else []))
  {
    MaxVocPositive(c, req);
    hide SummaryOf, Protocol.Exec, Protocol.Ready, Protocol.TokenLatencies;
    if req.kind.Token? {
      var s := SummaryOf(c, req);
      Protocol.TokenKeepsProtocol(c, m, Normalized(req.addr), MacCommands(c, req), s.maxVoc, AccCommands(c, req),
                                  s.bgmuReads, req);
    } else {
      DirectRun(c, m, req.kind.cmd, Normalized(req.addr), req);
    }
  }

  /// A single command from closed banks.
  lemma {:induction false} DirectRun(c: Config, m: Protocol.Machine, cmd: Cmd, a: Addr, req: Request)
    requires c.Valid() && Reaches(c, a) && cmd !in {ACT, PRE} && Protocol.Ready(c, m)
    ensures Protocol.Exec(c, m, [Command(cmd, a), Complete(req)]) ==
              m.(ok := m.ok && cmd != MAC && cmd != SPM,
                 latencies := m.latencies + (if cmd == SPM then [m.spm] else []))
  {
    Protocol.ExecMore(c, m, [Command(cmd, a)], Complete(req));
    assert [Command(cmd, a)] + [Complete(req)] == [Command(cmd, a), Complete(req)];
    Protocol.ExecMore(c, m, [], Command(cmd, a));
    Protocol.UniformLength(c, None, 0);
    var k := SomeBank(c, a);
    assert m.open[k] == None;
    assert Protocol.AllClosed(m);
  }

  /// Every command addresses some bank.
  lemma {:induction false} SomeBank(c: Config, a: Addr) returns (k: nat)
    requires c.Valid() && Reaches(c, a)
    ensures k < c.TotalBanks() && Protocol.Addresses(c, a, k)
  {
    var b := a.(pch := Max(0, a.pch), bg := Max(0, a.bg), bank := Max(0, a.bank));
    BankNames(c, b);
    k := FlatBank(c, b);
    hide Config.BanksPerPch, Config.TotalBanks;
    assert AtBank(c, a, k) == AtBank(c, b, k);
  }

  /// The latencies at the SPMs of a trace.
  ghost function SpmLatencies(trace: seq<Timing.Event>, latencies: seq<int>): seq<int>
    requires |trace| == |latencies|
  {
    if trace == [] then []
    else
      var n := |trace| - 1;
      SpmLatencies(trace[..n], latencies[..n]) + (if trace[n].cmd == Hbm3.SPM then [latencies[n]] else [])
  }

  /// The device's SPMs are those of the operations, with the same latencies.
  lemma {:induction false} SpmsSeen(c: Config, m: Protocol.Machine, ops: seq<Op>, d: View)
    requires c.Valid() && Saw(d, SentBy(c, m, ops))
    ensures m.latencies + SpmLatencies(d.trace, d.latencies) == Protocol.Exec(c, m, ops).latencies
  {
    if ops == [] {
      Protocol.ExecMore(c, m, [], Delay(0));
    } else {
      var before, op := ops[..|ops| - 1], ops[|ops| - 1];
      assert ops == before + [op];
      Protocol.ExecMore(c, m, before, op);
      hide Protocol.Exec, Protocol.Permitted;
      if op.Command? {
        var n := |d.trace| - 1;
        assert WasSent(d.channel, d.trace[n], d.latencies[n], SentBy(c, m, ops)[n]);
        var d' := d.(trace := d.trace[..n], latencies := d.latencies[..n]);
        assert forall j :: 0 <= j < n ==> SentBy(c, m, before)[j] == SentBy(c, m, ops)[j];
        SpmsSeen(c, m, before, d');
        assert m.latencies + (SpmLatencies(d'.trace, d'.latencies) + [d.latencies[n]]) ==
               m.latencies + SpmLatencies(d'.trace, d'.latencies) + [d.latencies[n]];
      } else {
        SpmsSeen(c, m, before, d);
      }
    }
  }

  ghost function Vecs(channel: nat, addrs: seq<Addr>): seq<seq<int>> {
    seq(|addrs|, i requires 0 <= i < |addrs| => Vec(channel, addrs[i]))
  }

  /// The device's commands of one kind are those of the operations done, address by address.
  lemma {:induction false} CommandsSeen(c: Config, m: Protocol.Machine, ops: seq<Op>, d: View, cmd: Cmd)
    requires c.Valid() && Saw(d, SentBy(c, m, ops))
    ensures AddressesOf(d.trace, Code(cmd)) == Vecs(d.channel, Targets(ops, cmd))
  {
    if ops == [] {
      assert d.trace == [];
    } else {
      hide Vec, Vecs, Code, Targets, AddressesOf, Saw, SentBy;
      var before, op := ops[..|ops| - 1], ops[|ops| - 1];
      assert ops == before + [op];
      OneMoreTarget(before, op, cmd);
      var d' := SeenBefore(c, m, ops, d);
      CommandsSeen(c, m, before, d', cmd);
      if op.Command? {
        OneMoreAddress(d'.trace, d.trace[|d.trace| - 1], Code(cmd));
        CodesDiffer(op.cmd, cmd);
        VecsMore(d.channel, Targets(before, cmd), op.addr);
      }
    }
  }

  lemma {:induction false} VecsMore(channel: nat, addrs: seq<Addr>, a: Addr)
    ensures Vecs(channel, addrs + [a]) == Vecs(channel, addrs) + [Vec(channel, a)]
  {
    hide Vec;
  }

  /// What the device had seen before the last operation.
  lemma {:induction false} SeenBefore(c: Config, m: Protocol.Machine, ops: seq<Op>, d: View) returns (d': View)
    requires c.Valid() && ops != [] && Saw(d, SentBy(c, m, ops))
    ensures Saw(d', SentBy(c, m, ops[..|ops| - 1])) && d'.channel == d.channel
    ensures var op := ops[|ops| - 1];
            if op.Command? then
              |d.trace| > 0 && d.trace == d'.trace + [d.trace[|d.trace| - 1]] &&
              d.trace[|d.trace| - 1].cmd == Code(op.cmd) && d.trace[|d.trace| - 1].addr == Vec(d.channel, op.addr)
            else d'.trace == d.trace
  {
    hide Protocol.Exec, Vec, Code;
    var before, op := ops[..|ops| - 1], ops[|ops| - 1];
    d' := d;
    if op.Command? {
      var n := |d.trace| - 1;
      d' := d.(trace := d.trace[..n], latencies := d.latencies[..n]);
      assert WasSent(d.channel, d.trace[n], d.latencies[n], SentBy(c, m, ops)[n]);
      assert forall j :: 0 <= j < n ==> SentBy(c, m, before)[j] == SentBy(c, m, ops)[j];
    }
  }

  lemma {:induction false} CodesDiffer(a: Cmd, b: Cmd)
    ensures Code(a) == Code(b) <==> a == b
  {
  }

  /// The latency of an SPM stands in the list behind those of the SPMs before it.
  lemma {:induction false} NthSpm(trace: seq<Timing.Event>, latencies: seq<int>, j: nat)
    requires |trace| == |latencies| && j < |trace| && trace[j].cmd == Hbm3.SPM
    ensures var n := |SpmLatencies(trace[..j], latencies[..j])|;
            n < |SpmLatencies(trace, latencies)| && SpmLatencies(trace, latencies)[n] == latencies[j]
  {
    var n := |trace| - 1;
    if j < n {
      NthSpm(trace[..n], latencies[..n], j);
      assert trace[..n][..j] == trace[..j] && latencies[..n][..j] == latencies[..j];
    }
  }

  // ---------- the counts of a trace line ----------

  /// The largest of the counts and their sum, as the frontend takes them from a list.
  ghost function MaxElement(vocs: seq<int>): int {
    if vocs == [] then 0
    else if |vocs| == 1 then vocs[0]
    else Max(MaxElement(vocs[..|vocs| - 1]), vocs[|vocs| - 1])
  }

  ghost function Accumulated(vocs: seq<int>): int {
    if vocs == [] then 0 else Accumulated(vocs[..|vocs| - 1]) + vocs[|vocs| - 1]
  }

  /// The controller finds the maximum and the total that the frontend states; the parser has already
  /// replaced negative counts.
  lemma {:induction false} FrontendAndControllerAgree(vocs: seq<int>)
    requires forall v :: v in vocs ==> v >= 0
    ensures MaxElement(vocs) == MaxOf(vocs) && Accumulated(vocs) == TotalOf(vocs)
  {
    if vocs != [] {
      var before := vocs[..|vocs| - 1];
      assert vocs[|vocs| - 1] in vocs && forall v :: v in before ==> v in vocs;
      FrontendAndControllerAgree(before);
    }
  }
}
