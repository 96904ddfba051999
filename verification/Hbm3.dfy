/** One HBM3 channel as the SPARE-PIM controller sees it (src/dram/impl/HBM3.cpp): the timing tree with the
    device's constraint list, and the entries of that list that are rewritten whenever the controller sets the
    latency of the next SPM.  */
module Hbm3 {
  import opened Timing

  const CHANNEL: nat := 0
  const PSEUDOCHANNEL: nat := 1
  const BANKGROUP: nat := 2
  const BANK: nat := 3
  const ROW: nat := 4
  const COLUMN: nat := 5
  const NUM_LEVELS: nat := 6

  // commands, in the order of the device's command list
  const ACT: nat := 0
  const PRE: nat := 1
  const PREA: nat := 2
  const RD: nat := 3
  const WR: nat := 4
  const RDA: nat := 5
  const WRA: nat := 6
  const REFAB: nat := 7
  const REFSB: nat := 8
  const RFMAB: nat := 9
  const RFMSB: nat := 10
  const MAC: nat := 11
  const EMUL: nat := 12
  const MOV: nat := 13
  const SPM: nat := 14
  const ACC: nat := 15
  const NUM_CMDS: nat := 16

  /// The level each command is addressed to, by command.
  const SCOPES: seq<nat> := [ROW, BANK, CHANNEL, COLUMN, COLUMN, COLUMN, COLUMN, CHANNEL, BANK, CHANNEL, BANK,
                             BANK, BANK, BANK, BANK, BANK]

  datatype Timings = Timings(
    nBL: int, nCL: int, nRCDRD: int, nRCDWR: int, nRP: int, nRAS: int, nRC: int, nWR: int, nRTPS: int, nRTPL: int,
    nCWL: int, nCCDS: int, nCCDL: int, nRRDS: int, nRRDL: int, nWTRS: int, nWTRL: int, nFAW: int, nRFC: int,
    nRREFD: int, nSPM: int)

  function Row(level: nat, preceding: seq<nat>, following: seq<nat>, latency: int, window: nat := 1): (ts: Initializer)
    requires level < NUM_LEVELS && window >= 1 && Commands(preceding, NUM_CMDS) && Commands(following, NUM_CMDS)
    ensures GoodRow(ts, NUM_LEVELS, NUM_CMDS)
  {
    Initializer(level, preceding, following, latency, window, false)
  }

  const READS: seq<nat> := [RD, RDA]
  const WRITES: seq<nat> := [WR, WRA]
  const ALL_REFRESHES: seq<nat> := [REFAB, RFMAB]
  const BANK_REFRESHES: seq<nat> := [REFSB, RFMSB]
  const COMPUTES: seq<nat> := [MAC, EMUL, MOV, SPM, ACC]

  /// What has to wait for an SPM to finish.
  const AFTER_SPM: seq<nat> := [ACT, PRE, PREA, RD, WR, RDA, WRA, MAC, EMUL, MOV, SPM, ACC]

  // The device's constraint list, part by part; the numbers are JESD235C's, in cycles.

  function ChannelRows(v: Timings): (rows: seq<Initializer>)
    ensures GoodRows(rows, NUM_LEVELS, NUM_CMDS)
  {
    [ Row(CHANNEL, [ACT], [ACT, PRE, PREA, REFAB, REFSB, RFMAB, RFMSB], 2) ]
  }

  function PseudoChannelRowRows(v: Timings): (rows: seq<Initializer>)
    ensures GoodRows(rows, NUM_LEVELS, NUM_CMDS)
  {
    [ Row(PSEUDOCHANNEL, [ACT], [ACT], v.nRRDS),
      Row(PSEUDOCHANNEL, [ACT], [ACT], v.nFAW, 4),
      Row(PSEUDOCHANNEL, [ACT], BANK_REFRESHES, v.nRRDS + 1),
      Row(PSEUDOCHANNEL, BANK_REFRESHES, BANK_REFRESHES, v.nRREFD),
      Row(PSEUDOCHANNEL, BANK_REFRESHES, [ACT], v.nRREFD - 1) ]
  }

  function PseudoChannelColumnRows(v: Timings): (rows: seq<Initializer>)
    ensures GoodRows(rows, NUM_LEVELS, NUM_CMDS)
  {
    [ Row(PSEUDOCHANNEL, READS, READS, v.nBL),
      Row(PSEUDOCHANNEL, WRITES, WRITES, v.nBL),
      Row(PSEUDOCHANNEL, READS, READS, v.nCCDS),
      Row(PSEUDOCHANNEL, WRITES, WRITES, v.nCCDS),
      Row(PSEUDOCHANNEL, READS, WRITES, v.nCL + v.nBL + 2 - v.nCWL),
      Row(PSEUDOCHANNEL, WRITES, READS, v.nCWL + v.nBL + v.nWTRS),
      Row(PSEUDOCHANNEL, [RD], [PREA], v.nRTPS),
      Row(PSEUDOCHANNEL, [WR], [PREA], v.nCWL + v.nBL + v.nWR) ]
  }

  function PseudoChannelRefreshRows(v: Timings): (rows: seq<Initializer>)
    ensures GoodRows(rows, NUM_LEVELS, NUM_CMDS)
  {
    [ Row(PSEUDOCHANNEL, [ACT], [ACT], v.nRRDS),
      Row(PSEUDOCHANNEL, [ACT], [ACT], v.nFAW, 4),
      Row(PSEUDOCHANNEL, [ACT], [PREA], v.nRAS),
      Row(PSEUDOCHANNEL, [PREA], [ACT], v.nRP),
      Row(PSEUDOCHANNEL, [ACT], ALL_REFRESHES, v.nRC),
      Row(PSEUDOCHANNEL, [PRE, PREA], ALL_REFRESHES, v.nRP),
      Row(PSEUDOCHANNEL, [RDA], ALL_REFRESHES, v.nRP + v.nRTPS),
      Row(PSEUDOCHANNEL, [WRA], ALL_REFRESHES, v.nCWL + v.nBL + v.nWR + v.nRP),
      Row(PSEUDOCHANNEL, ALL_REFRESHES, [ACT, REFSB, RFMSB], v.nRFC) ]
  }

  function ComputeRows(v: Timings): (rows: seq<Initializer>)
    ensures GoodRows(rows, NUM_LEVELS, NUM_CMDS)
  {
    [ Row(PSEUDOCHANNEL, [MAC, EMUL], COMPUTES, v.nCCDL),
      Row(PSEUDOCHANNEL, [MOV], COMPUTES, v.nCCDS),
      Row(PSEUDOCHANNEL, [ACC], COMPUTES, v.nCCDL + 1),
      Row(PSEUDOCHANNEL, [SPM], AFTER_SPM, v.nSPM) ]
  }

  function BankGroupRows(v: Timings): (rows: seq<Initializer>)
    ensures GoodRows(rows, NUM_LEVELS, NUM_CMDS)
  {
    [ Row(BANKGROUP, READS, READS, v.nCCDL),
      Row(BANKGROUP, WRITES, WRITES, v.nCCDL),
      Row(BANKGROUP, WRITES, READS, v.nCWL + v.nBL + v.nWTRL),
      Row(BANKGROUP, [ACT], [ACT], v.nRRDL),
      Row(BANKGROUP, [ACT], BANK_REFRESHES, v.nRRDL + 1),
      Row(BANKGROUP, BANK_REFRESHES, [ACT], v.nRRDL - 1) ]
  }

  function BankRowRows(v: Timings): (rows: seq<Initializer>)
    ensures GoodRows(rows, NUM_LEVELS, NUM_CMDS)
  {
    [ Row(BANK, [RD], [PRE], v.nRTPS),
      Row(BANK, [ACT], [ACT], v.nRC),
      Row(BANK, [ACT], READS, v.nRCDRD),
      Row(BANK, [ACT], WRITES, v.nRCDWR),
      Row(BANK, [ACT], [MAC, EMUL, MOV, SPM], v.nRCDRD),
      Row(BANK, [ACT], [PRE], v.nRAS),
      Row(BANK, [PRE], [ACT], v.nRP) ]
  }

  function BankColumnRows(v: Timings): (rows: seq<Initializer>)
    ensures GoodRows(rows, NUM_LEVELS, NUM_CMDS)
  {
    [ Row(BANK, [RD], [PRE], v.nRTPL),
      Row(BANK, [WR], [PRE], v.nCWL + v.nBL + v.nWR),
      Row(BANK, [MAC, EMUL, MOV], [PRE], v.nRTPL),
      Row(BANK, [SPM], [PRE], v.nSPM),
      Row(BANK, [RDA], [ACT, REFSB, RFMSB], v.nRTPL + v.nRP),
      Row(BANK, [WRA], [ACT, REFSB, RFMSB], v.nCWL + v.nBL + v.nWR + v.nRP) ]
  }

  function Constraints(v: Timings): (rows: seq<Initializer>)
    ensures GoodRows(rows, NUM_LEVELS, NUM_CMDS)
  {
    ChannelRows(v) + PseudoChannelRowRows(v) + PseudoChannelColumnRows(v) + PseudoChannelRefreshRows(v) +
    ComputeRows(v) + BankGroupRows(v) + BankRowRows(v) + BankColumnRows(v)
  }

  // ---------- the rewritten entries ----------

  function Relabelled(entries: seq<TimingCons>, latency: int): (r: seq<TimingCons>)
    ensures |r| == |entries|
  {
    seq(|entries|, i requires 0 <= i < |entries| => entries[i].(val := latency))
  }

  function RewrittenLevel(level: seq<seq<TimingCons>>, latency: int): (r: seq<seq<TimingCons>>)
    requires |level| == NUM_CMDS
    ensures |r| == NUM_CMDS
  {
    level[SPM := Relabelled(level[SPM], latency)]
  }

  /// Every entry that an SPM triggers gets the new latency.
  function Rewritten(table: ConsTable, latency: int): (r: ConsTable)
    requires |table| == NUM_LEVELS && Rectangular(table, NUM_LEVELS, NUM_CMDS)
    ensures |r| == NUM_LEVELS && Rectangular(r, NUM_LEVELS, NUM_CMDS)
  {
    seq(NUM_LEVELS, l requires 0 <= l < NUM_LEVELS => RewrittenLevel(table[l], latency))
  }

  /// Only the newest latency counts.
  lemma {:induction false} RewrittenTwice(table: ConsTable, a: int, b: int)
    requires |table| == NUM_LEVELS && Rectangular(table, NUM_LEVELS, NUM_CMDS)
    ensures Rewritten(Rewritten(table, a), b) == Rewritten(table, b)
  {
    forall l | 0 <= l < NUM_LEVELS
      ensures RewrittenLevel(RewrittenLevel(table[l], a), b) == RewrittenLevel(table[l], b)
    {
      assert Relabelled(Relabelled(table[l][SPM], a), b) == Relabelled(table[l][SPM], b);
    }
  }

  /// The two loops that rewrite the entries.
  method RewriteTable(table: ConsTable, latency: int) returns (t: ConsTable)
    requires |table| == NUM_LEVELS && Rectangular(table, NUM_LEVELS, NUM_CMDS)
    ensures t == Rewritten(table, latency)
  {
    t := table;
    for l := 0 to |table|
      invariant |t| == NUM_LEVELS && Rectangular(t, NUM_LEVELS, NUM_CMDS)
      invariant forall k :: 0 <= k < NUM_LEVELS ==>
                  t[k] == if k < l then RewrittenLevel(table[k], latency) else table[k]
    {
      var entries: seq<TimingCons> := t[l][SPM];
      for i := 0 to |entries|
        invariant |entries| == |table[l][SPM]|
        invariant entries == Relabelled(table[l][SPM][..i], latency) + table[l][SPM][i..]
      {
        entries := entries[i := entries[i].(val := latency)];
      }
      assert entries == Relabelled(table[l][SPM], latency);
      t := t[l := t[l][SPM := entries]];
    }
  }

  lemma {:induction false} RewrittenIsGood(spec: Spec, table: ConsTable, latency: int)
    requires |table| == NUM_LEVELS && WellFormedSpec(spec) && spec.rowLevel <= NUM_LEVELS && spec.numCmds == NUM_CMDS
    requires Rectangular(table, NUM_LEVELS, NUM_CMDS) && GoodTable(spec, table)
    ensures GoodTable(spec, Rewritten(table, latency))
  {
    forall l, p, t | 0 <= l < spec.rowLevel && 0 <= p < NUM_CMDS && t in Rewritten(table, latency)[l][p]
      ensures t.cmd < NUM_CMDS && (t.sibling || 1 <= t.window <= MaxWindow(spec.init[l][p]))
    {
      if p == SPM {
        var i :| 0 <= i < |table[l][p]| && t == table[l][p][i].(val := latency);
        assert table[l][p][i] in table[l][p];
      }
    }
  }

  /// Every row of the list that an SPM triggers has the latency nSPM.
  ghost predicate SpmIs(rows: seq<Initializer>, nSPM: int) {
    forall ts :: ts in rows && SPM in ts.preceding ==> ts.latency == nSPM
  }

  lemma {:induction false} SpmPseudoChannelRows(v: Timings)
    ensures SpmIs(ChannelRows(v) + PseudoChannelRowRows(v) + PseudoChannelColumnRows(v) + PseudoChannelRefreshRows(v),
                  v.nSPM)
  {
    assert SpmIs(ChannelRows(v), v.nSPM);
    assert SpmIs(PseudoChannelRowRows(v), v.nSPM);
    assert SpmIs(PseudoChannelColumnRows(v), v.nSPM);
    assert SpmIs(PseudoChannelRefreshRows(v), v.nSPM);
  }

  lemma {:induction false} SpmBankRows(v: Timings)
    ensures SpmIs(ComputeRows(v), v.nSPM) && SpmIs(BankGroupRows(v), v.nSPM)
    ensures SpmIs(BankRowRows(v), v.nSPM) && SpmIs(BankColumnRows(v), v.nSPM)
  {
  }

  lemma {:induction false} SpmRows(v: Timings)
    ensures SpmIs(Constraints(v), v.nSPM)
  {
    hide ChannelRows, PseudoChannelRowRows, PseudoChannelColumnRows, PseudoChannelRefreshRows, ComputeRows;
    hide BankGroupRows, BankRowRows, BankColumnRows;
    SpmPseudoChannelRows(v);
    SpmBankRows(v);
  }

  lemma {:induction false} InitiallyRewritten(v: Timings, table: ConsTable)
    requires |table| == NUM_LEVELS && Rectangular(table, NUM_LEVELS, NUM_CMDS) && Holds(table, Constraints(v))
    ensures Rewritten(table, v.nSPM) == table
  {
    hide Constraints;
    SpmRows(v);
    forall l | 0 <= l < NUM_LEVELS ensures RewrittenLevel(table[l], v.nSPM) == table[l] {
      forall i | 0 <= i < |table[l][SPM]| ensures table[l][SPM][i].val == v.nSPM {
        var t := table[l][SPM][i];
        assert t in table[l][SPM] && AskedBy(Constraints(v), l, SPM, t);
        var k :| 0 <= k < |Constraints(v)| && Asks(Constraints(v)[k], l, SPM, t);
        assert Constraints(v)[k] in Constraints(v);
      }
      assert Relabelled(table[l][SPM], v.nSPM) == table[l][SPM];
    }
  }

  /// Within a pseudochannel everything of `AFTER_SPM` waits for an SPM.
  ghost predicate HoldsAfterSpm(table: ConsTable, latency: int)
    requires Rectangular(table, NUM_LEVELS, NUM_CMDS)
  {
    forall c :: c in AFTER_SPM ==> TimingCons(c, latency, 1, false) in table[PSEUDOCHANNEL][SPM]
  }

  lemma {:induction false} SpmEntries(v: Timings, table: ConsTable)
    requires |table| == NUM_LEVELS && Rectangular(table, NUM_LEVELS, NUM_CMDS) && Holds(table, Constraints(v))
    ensures HoldsAfterSpm(table, v.nSPM)
  {
    var n := |ChannelRows(v)| + |PseudoChannelRowRows(v)| + |PseudoChannelColumnRows(v)| +
               |PseudoChannelRefreshRows(v)|;
    assert Constraints(v)[n + 3] == ComputeRows(v)[3];
    forall c | c in AFTER_SPM ensures TimingCons(c, v.nSPM, 1, false) in table[PSEUDOCHANNEL][SPM] {
      assert Asks(Constraints(v)[n + 3], PSEUDOCHANNEL, SPM, TimingCons(c, v.nSPM, 1, false));
    }
  }

  lemma {:induction false} RewrittenHolds(table: ConsTable, old0: int, latency: int)
    requires |table| == NUM_LEVELS && Rectangular(table, NUM_LEVELS, NUM_CMDS) && HoldsAfterSpm(table, old0)
    ensures HoldsAfterSpm(Rewritten(table, latency), latency)
  {
    forall c | c in AFTER_SPM
      ensures TimingCons(c, latency, 1, false) in Rewritten(table, latency)[PSEUDOCHANNEL][SPM] {
      var t := TimingCons(c, old0, 1, false);
      var i :| 0 <= i < |table[PSEUDOCHANNEL][SPM]| && table[PSEUDOCHANNEL][SPM][i] == t;
      assert Rewritten(table, latency)[PSEUDOCHANNEL][SPM][i] == t.(val := latency);
    }
  }

  // ---------- the device ----------

  datatype Org = Org(pchs: nat, bgs: nat, banks: nat)

  ghost function DeviceSpec(org: Org, table: ConsTable): Spec {
    Spec(NUM_CMDS, ROW, [1, org.pchs, org.bgs, org.banks], SCOPES, table)
  }

  method BuildTable(v: Timings, ghost org: Org) returns (table: ConsTable)
    ensures |table| == NUM_LEVELS && Rectangular(table, NUM_LEVELS, NUM_CMDS) && Holds(table, Constraints(v))
    ensures HoldsAfterSpm(table, v.nSPM) && Rewritten(table, v.nSPM) == table &&
            GoodTable(DeviceSpec(org, table), table)
  {
    hide Constraints, GoodTable, Rewritten;
    table := PopulateTimingCons(NUM_LEVELS, NUM_CMDS, Constraints(v));
    SpmEntries(v, table);
    InitiallyRewritten(v, table);
    TableIsGood(Constraints(v), NUM_LEVELS, DeviceSpec(org, table), table);
  }

  class Device {
    const v: Timings
    const org: Org
    const channel: nat
    const base: ConsTable
    const spec: Spec
    const root: Node

    var clk: nat
    var nSPM: int
    var table: ConsTable

    ghost var trace: seq<Event>
    ghost var latencies: seq<int>   // the SPM latency in force at each command of the trace

    ghost predicate Fixed() {
      && |base| == NUM_LEVELS && Rectangular(base, NUM_LEVELS, NUM_CMDS) && HoldsAfterSpm(base, v.nSPM)
      && spec == DeviceSpec(org, base) && GoodTable(spec, base)
      && root.Valid() && root.spec == spec && root.level == 0 && root.path == [channel]
    }

    ghost predicate Valid()
      reads this, root.Repr
    {
      && Fixed() && root.AllReflect(trace) && Legal(spec, [channel], trace)
      && table == Rewritten(base, nSPM) && |latencies| == |trace|
      && forall j :: 0 <= j < |trace| ==> trace[j].clk <= clk && trace[j].cons == Rewritten(base, latencies[j])
    }

    /// Levels down to the bank exist, or all of them are meant.
    predicate InRange(addr: seq<int>) {
      |addr| == NUM_LEVELS && addr[CHANNEL] == channel && -1 <= addr[PSEUDOCHANNEL] < org.pchs &&
      -1 <= addr[BANKGROUP] < org.bgs && -1 <= addr[BANK] < org.banks
    }

    constructor (v: Timings, org: Org, channel: nat)
      ensures Valid() && fresh(root.Repr)
      ensures this.v == v && this.org == org && this.channel == channel
      ensures clk == 0 && nSPM == v.nSPM && trace == [] && latencies == []
      ensures Holds(base, Constraints(v))
    {
      hide GoodTable, Rewritten, HoldsAfterSpm, Holds, Constraints;
      var table := BuildTable(v, org);
      var spec := Spec(NUM_CMDS, ROW, [1, org.pchs, org.bgs, org.banks], SCOPES, table);
      var root := new Node(spec, 0, channel, [channel]);
      this.v, this.org, this.channel, this.base, this.spec, this.root := v, org, channel, table, spec, root;
      this.clk, this.nSPM, this.table := 0, v.nSPM, table;
      this.trace, this.latencies := [], [];
    }

    lemma {:induction false} AddressIsGood(addr: seq<int>)
      requires Fixed() && InRange(addr)
      ensures GoodAddress(spec, addr)
    {
    }

    predicate CheckReady(cmd: nat, addr: seq<int>)
      requires Valid() && cmd < NUM_CMDS && InRange(addr)
      reads this, root.Repr
    {
      AddressIsGood(addr);
      root.AllReadyFromReflect(trace);
      root.CheckReady(cmd, addr, clk)
    }

    /// The clock from which on the command is let through; it depends on the trace alone.
    ghost function ReadyFrom(cmd: nat, addr: seq<int>): nat
      requires Valid() && cmd < NUM_CMDS && InRange(addr)
      reads this, root.Repr
    {
      AddressIsGood(addr);
      root.AllReadyFromReflect(trace);
      root.ReadyFromTrace(trace, cmd, addr);
      Earliest(spec, [channel], trace, cmd, addr)
    }

    lemma {:induction false} ReadyWhen(cmd: nat, addr: seq<int>)
      requires Valid() && cmd < NUM_CMDS && InRange(addr)
      ensures CheckReady(cmd, addr) <==> ReadyFrom(cmd, addr) <= clk
    {
      hide GoodTable, Legal, Rewritten, Rectangular;
      AddressIsGood(addr);
      root.AllReadyFromReflect(trace);
      root.ReadyFromTrace(trace, cmd, addr);
    }

    method Tick()
      requires Valid()
      modifies this`clk
      ensures Valid() && clk == old(clk) + 1
    {
      hide GoodTable, Legal, Rewritten, Rectangular;
      clk := clk + 1;
    }

    lemma {:induction false} IssueKeepsTrace(cmd: nat, addr: seq<int>)
      requires Valid() && cmd < NUM_CMDS && InRange(addr) && CheckReady(cmd, addr)
      ensures GoodEvent(spec, Event(cmd, addr, clk, table))
      ensures Legal(spec, [channel], trace + [Event(cmd, addr, clk, table)])
    {
      hide Rewritten, Legal, GoodTable;
      AddressIsGood(addr);
      root.AllReadyFromReflect(trace);
      RewrittenIsGood(spec, base, nSPM);
      root.CheckReadyExact(trace, cmd, addr, clk);
      LegalOneMore(spec, [channel], trace, Event(cmd, addr, clk, table));
    }

    /// Issue a command that was found ready.
    method Issue(cmd: nat, addr: seq<int>)
      requires Valid() && cmd < NUM_CMDS && InRange(addr) && CheckReady(cmd, addr)
      modifies this`trace, this`latencies, root.Repr
      ensures Valid()
      ensures trace == old(trace) + [Event(cmd, addr, clk, table)] && latencies == old(latencies) + [nSPM]
    {
      hide Rewritten, Legal, GoodTable, Rectangular;
      IssueKeepsTrace(cmd, addr);
      root.UpdateTiming(cmd, addr, clk, table, trace);
      trace, latencies := trace + [Event(cmd, addr, clk, table)], latencies + [nSPM];
    }

    /// The controller sets the latency of the SPMs to come.
    method Notify(value: nat)
      requires Valid()
      modifies this`nSPM, this`table
      ensures Valid() && nSPM == (if value > 0 then value else 1)
    {
      hide Legal, GoodTable, Rewritten;
      nSPM := if value > 0 then value else 1;
      RewrittenTwice(base, old(nSPM), nSPM);
      table := RewriteTable(table, nSPM);
    }

    /// In every reachable state: after an SPM nothing of `AFTER_SPM` goes to the same pseudochannel before the
    /// latency that was in force at that SPM has passed, whatever latencies were set since.
    lemma {:induction false} SpmRunsItsLatency(j: nat, k: nat, pch: nat)
      requires Valid() && j < k < |trace| && pch < org.pchs
      requires trace[j].cmd == SPM && trace[k].cmd in AFTER_SPM && trace[k].cmd != PREA
      requires Matches([channel, pch], trace[j].addr) && Matches([channel, pch], trace[k].addr)
      ensures trace[j].clk + latencies[j] <= trace[k].clk
    {
      hide Rewritten, GoodTable;
      RewrittenHolds(base, v.nSPM, latencies[j]);
      var t := TimingCons(trace[k].cmd, latencies[j], 1, false);
      RunSafety(spec, [channel], trace, j, k, [channel, pch], t);
      NewestHit(trace, j, [channel, pch]);
    }
  }
}
