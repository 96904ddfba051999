/** The spacing of commands that an HBM3 device asks for (src/dram/impl/HBM3.cpp), by pairs of commands instead of as
    the device's list, and what it means for whole runs.  */
module Hbm3Gaps {
  import opened Timing
  import opened Hbm3

  predicate IsRead(c: nat) { c == RD || c == RDA }

  predicate IsWrite(c: nat) { c == WR || c == WRA }

  predicate RefreshesAll(c: nat) { c == REFAB || c == RFMAB }

  predicate RefreshesBank(c: nat) { c == REFSB || c == RFMSB }

  predicate Computes(c: nat) { c == MAC || c == EMUL || c == MOV || c == SPM || c == ACC }

  /// The end of a write burst and its recovery, from the write command on.
  function WriteDone(v: Timings): int { v.nCWL + v.nBL + v.nWR }

  /// The distances of command f from an earlier activate, precharge or refresh p in one pseudochannel.
  function RowGaps(v: Timings, p: nat, f: nat): set<int> {
    if f == ACT then
      if p == ACT then {v.nRRDS} else if RefreshesBank(p) then {v.nRREFD - 1} else if p == PREA then {v.nRP}
      else if RefreshesAll(p) then {v.nRFC} else {}
    else if RefreshesBank(f) then
      if p == ACT then {v.nRRDS + 1} else if RefreshesBank(p) then {v.nRREFD} else if RefreshesAll(p) then {v.nRFC}
      else {}
    else if f == PREA then if p == ACT then {v.nRAS} else {}
    else if RefreshesAll(f) then
      if p == ACT then {v.nRC} else if p == PRE || p == PREA then {v.nRP} else {}
    else {}
  }

  /// The distances of command f from an earlier column access p in one pseudochannel.
  function ColumnGaps(v: Timings, p: nat, f: nat): set<int> {
    if IsRead(f) then
      if IsRead(p) then {v.nBL, v.nCCDS} else if IsWrite(p) then {v.nCWL + v.nBL + v.nWTRS} else {}
    else if IsWrite(f) then
      if IsWrite(p) then {v.nBL, v.nCCDS} else if IsRead(p) then {v.nCL + v.nBL + 2 - v.nCWL} else {}
    else if f == PREA then if p == RD then {v.nRTPS} else if p == WR then {WriteDone(v)} else {}
    else if RefreshesAll(f) then
      if p == RDA then {v.nRTPS + v.nRP} else if p == WRA then {WriteDone(v) + v.nRP} else {}
    else {}
  }

  /// The distances of command f from an earlier computation p in one pseudochannel.
  function ComputeGaps(v: Timings, p: nat, f: nat): set<int> {
    if p == SPM then
      if f < MAC && f != REFAB && f != REFSB && f != RFMAB && f != RFMSB then {v.nSPM}
      else if Computes(f) then {v.nSPM} else {}
    else if !Computes(f) then {}
    else if p == MAC || p == EMUL then {v.nCCDL}
    else if p == MOV then {v.nCCDS}
    else if p == ACC then {v.nCCDL + 1}
    else {}
  }

  function BankGroupGaps(v: Timings, p: nat, f: nat): set<int> {
    if IsRead(f) then if IsRead(p) then {v.nCCDL} else if IsWrite(p) then {v.nCWL + v.nBL + v.nWTRL} else {}
    else if IsWrite(f) then if IsWrite(p) then {v.nCCDL} else {}
    else if f == ACT then if p == ACT then {v.nRRDL} else if RefreshesBank(p) then {v.nRRDL - 1} else {}
    else if RefreshesBank(f) && p == ACT then {v.nRRDL + 1}
    else {}
  }

  function BankGaps(v: Timings, p: nat, f: nat): set<int> {
    if f == PRE then
      if p == ACT then {v.nRAS} else if p == RD then {v.nRTPS, v.nRTPL} else if p == WR then {WriteDone(v)}
      else if p == MAC || p == EMUL || p == MOV then {v.nRTPL} else if p == SPM then {v.nSPM} else {}
    else if p == ACT then
      if f == ACT then {v.nRC}
      else if IsRead(f) || f == MAC || f == EMUL || f == MOV || f == SPM then {v.nRCDRD}
      else if IsWrite(f) then {v.nRCDWR} else {}
    else if p == PRE && f == ACT then {v.nRP}
    else if f == ACT || RefreshesBank(f) then
      if p == RDA then {v.nRTPL + v.nRP} else if p == WRA then {WriteDone(v) + v.nRP} else {}
    else {}
  }

  /// The least distances of command f from an earlier command p at a common node of the level.
  function Gaps(v: Timings, l: nat, p: nat, f: nat): set<int> {
    if l == CHANNEL then
      if p == ACT && (f == ACT || f == PRE || f == PREA || RefreshesAll(f) || RefreshesBank(f)) then {2} else {}
    else if l == PSEUDOCHANNEL then RowGaps(v, p, f) + ColumnGaps(v, p, f) + ComputeGaps(v, p, f)
    else if l == BANKGROUP then BankGroupGaps(v, p, f)
    else if l == BANK then BankGaps(v, p, f)
    else {}
  }

  predicate Single(t: TimingCons) { t.window == 1 && !t.sibling }

  predicate FourActivates(v: Timings, p: nat, t: TimingCons) { p == ACT && t == TimingCons(ACT, v.nFAW, 4, false) }

  /// What the device asks of a later command: a gap, or the window of four activates.
  predicate Required(v: Timings, l: nat, p: nat, t: TimingCons) {
    (Single(t) && t.val in Gaps(v, l, p, t.cmd)) || (l == PSEUDOCHANNEL && FourActivates(v, p, t))
  }

  lemma {:induction false} ChannelPart(v: Timings, l: nat, p: nat, t: TimingCons)
    ensures AskedBy(ChannelRows(v), l, p, t) <==> l == CHANNEL && Single(t) && t.val in Gaps(v, CHANNEL, p, t.cmd)
  {
    var rows := ChannelRows(v);
    assert AskedBy(rows, l, p, t) <==> Asks(rows[0], l, p, t);
  }

  lemma {:induction false} RowPart(v: Timings, l: nat, p: nat, t: TimingCons)
    ensures AskedBy(PseudoChannelRowRows(v), l, p, t) <==>
            l == PSEUDOCHANNEL &&
            ((Single(t) && t.val in RowGaps(v, p, t.cmd) && (p == ACT || RefreshesBank(p)) &&
              (t.cmd == ACT || RefreshesBank(t.cmd))) ||
             FourActivates(v, p, t))
  {
    var rows := PseudoChannelRowRows(v);
    assert AskedBy(rows, l, p, t) <==>
           Asks(rows[0], l, p, t) || Asks(rows[1], l, p, t) || Asks(rows[2], l, p, t) || Asks(rows[3], l, p, t) ||
           Asks(rows[4], l, p, t);
  }

  lemma {:induction false} ColumnPart(v: Timings, l: nat, p: nat, t: TimingCons)
    ensures AskedBy(PseudoChannelColumnRows(v), l, p, t) <==>
            l == PSEUDOCHANNEL && Single(t) && t.val in ColumnGaps(v, p, t.cmd) && !RefreshesAll(t.cmd)
  {
    var rows := PseudoChannelColumnRows(v);
    assert AskedBy(rows, l, p, t) <==>
           Asks(rows[0], l, p, t) || Asks(rows[1], l, p, t) || Asks(rows[2], l, p, t) || Asks(rows[3], l, p, t) ||
           Asks(rows[4], l, p, t) || Asks(rows[5], l, p, t) || Asks(rows[6], l, p, t) || Asks(rows[7], l, p, t);
  }

  lemma {:induction false} RefreshPart(v: Timings, l: nat, p: nat, t: TimingCons)
    ensures AskedBy(PseudoChannelRefreshRows(v), l, p, t) <==>
            l == PSEUDOCHANNEL &&
            ((Single(t) && t.val in RowGaps(v, p, t.cmd) && !RefreshesBank(p) &&
              !(p == ACT && RefreshesBank(t.cmd))) ||
             (Single(t) && t.val in ColumnGaps(v, p, t.cmd) && RefreshesAll(t.cmd)) ||
             FourActivates(v, p, t))
  {
    var rows := PseudoChannelRefreshRows(v);
    assert AskedBy(rows, l, p, t) <==>
           Asks(rows[0], l, p, t) || Asks(rows[1], l, p, t) || Asks(rows[2], l, p, t) || Asks(rows[3], l, p, t) ||
           Asks(rows[4], l, p, t) || Asks(rows[5], l, p, t) || Asks(rows[6], l, p, t) || Asks(rows[7], l, p, t) ||
           Asks(rows[8], l, p, t);
  }

  lemma {:induction false} ComputePart(v: Timings, l: nat, p: nat, t: TimingCons)
    ensures AskedBy(ComputeRows(v), l, p, t) <==>
            l == PSEUDOCHANNEL && Single(t) && t.val in ComputeGaps(v, p, t.cmd)
  {
    var rows := ComputeRows(v);
    assert AskedBy(rows, l, p, t) <==>
           Asks(rows[0], l, p, t) || Asks(rows[1], l, p, t) || Asks(rows[2], l, p, t) || Asks(rows[3], l, p, t);
  }

  lemma {:induction false} BankGroupPart(v: Timings, l: nat, p: nat, t: TimingCons)
    ensures AskedBy(BankGroupRows(v), l, p, t) <==>
            l == BANKGROUP && Single(t) && t.val in BankGroupGaps(v, p, t.cmd)
  {
    var rows := BankGroupRows(v);
    assert AskedBy(rows, l, p, t) <==>
           Asks(rows[0], l, p, t) || Asks(rows[1], l, p, t) || Asks(rows[2], l, p, t) || Asks(rows[3], l, p, t) ||
           Asks(rows[4], l, p, t) || Asks(rows[5], l, p, t);
  }

  lemma {:induction false} BankRowPart(v: Timings, l: nat, p: nat, t: TimingCons)
    ensures AskedBy(BankRowRows(v), l, p, t) <==>
            l == BANK && Single(t) &&
            ((p == RD && t.cmd == PRE && t.val == v.nRTPS) ||
             (p in {ACT, PRE} && t.val in BankGaps(v, p, t.cmd)))
  {
    var rows := BankRowRows(v);
    assert AskedBy(rows, l, p, t) <==>
           Asks(rows[0], l, p, t) || Asks(rows[1], l, p, t) || Asks(rows[2], l, p, t) || Asks(rows[3], l, p, t) ||
           Asks(rows[4], l, p, t) || Asks(rows[5], l, p, t) || Asks(rows[6], l, p, t);
  }

  lemma {:induction false} BankColumnPart(v: Timings, l: nat, p: nat, t: TimingCons)
    ensures AskedBy(BankColumnRows(v), l, p, t) <==>
            l == BANK && Single(t) &&
            ((p == RD && t.cmd == PRE && t.val == v.nRTPL) ||
             (p !in {ACT, PRE, RD} && t.val in BankGaps(v, p, t.cmd)))
  {
    var rows := BankColumnRows(v);
    assert AskedBy(rows, l, p, t) <==>
           Asks(rows[0], l, p, t) || Asks(rows[1], l, p, t) || Asks(rows[2], l, p, t) || Asks(rows[3], l, p, t) ||
           Asks(rows[4], l, p, t) || Asks(rows[5], l, p, t);
  }

  lemma {:induction false} BankParts(v: Timings, p: nat, f: nat)
    ensures p == RD && f == PRE ==> BankGaps(v, p, f) == {v.nRTPS, v.nRTPL}
    ensures p == RD && f != PRE ==> BankGaps(v, p, f) == {}
  {
  }

  /// Which commands the gaps within a pseudochannel are for.
  lemma {:induction false} RowGapsOf(v: Timings, p: nat, f: nat)
    ensures RowGaps(v, p, f) != {} && RefreshesBank(p) ==> f == ACT || RefreshesBank(f)
  {
  }

  /// The device's table asks for these gaps and for nothing else.
  lemma {:induction false} TableIsGaps(v: Timings, table: ConsTable, l: nat, p: nat, t: TimingCons)
    requires |table| == NUM_LEVELS && Rectangular(table, NUM_LEVELS, NUM_CMDS) && Holds(table, Constraints(v))
    requires l < NUM_LEVELS && p < NUM_CMDS
    ensures t in table[l][p] <==> Required(v, l, p, t)
  {
    hide AskedBy, ChannelRows, PseudoChannelRowRows, PseudoChannelColumnRows, PseudoChannelRefreshRows, ComputeRows;
    hide BankGroupRows, BankRowRows, BankColumnRows;
    hide RowGaps, ColumnGaps, ComputeGaps, BankGroupGaps, BankGaps, Single, FourActivates;
    var a, b, c, d := ChannelRows(v), PseudoChannelRowRows(v), PseudoChannelColumnRows(v), PseudoChannelRefreshRows(v);
    var e, f, g, h := ComputeRows(v), BankGroupRows(v), BankRowRows(v), BankColumnRows(v);
    AskedByEither(a, b, l, p, t);
    AskedByEither(a + b, c, l, p, t);
    AskedByEither(a + b + c, d, l, p, t);
    AskedByEither(a + b + c + d, e, l, p, t);
    AskedByEither(a + b + c + d + e, f, l, p, t);
    AskedByEither(a + b + c + d + e + f, g, l, p, t);
    AskedByEither(a + b + c + d + e + f + g, h, l, p, t);
    ChannelPart(v, l, p, t);
    RowPart(v, l, p, t);
    ColumnPart(v, l, p, t);
    RefreshPart(v, l, p, t);
    ComputePart(v, l, p, t);
    BankGroupPart(v, l, p, t);
    BankRowPart(v, l, p, t);
    BankColumnPart(v, l, p, t);
    BankParts(v, p, t.cmd);
    RowGapsOf(v, p, t.cmd);
  }

  /// Rewriting leaves every entry alone that no SPM triggers.
  lemma {:induction false} RewrittenSpares(table: ConsTable, latency: int, l: nat, p: nat)
    requires |table| == NUM_LEVELS && Rectangular(table, NUM_LEVELS, NUM_CMDS)
    requires l < NUM_LEVELS && p < NUM_CMDS && p != SPM
    ensures Rewritten(table, latency)[l][p] == table[l][p]
  {
  }

  /// In every reachable state, a command follows an earlier one that went to a common node, and is not an SPM, by no
  /// less than the gaps that this level asks of the two, if the node is within the later command's scope.
  lemma {:induction false} Spacing(d: Device, j: nat, k: nat, p: seq<nat>, gap: int)
    requires d.Valid() && Holds(d.base, Constraints(d.v)) && j < k < |d.trace|
    requires InTree(d.spec, [d.channel], p) && Matches(p, d.trace[j].addr) && Matches(p, d.trace[k].addr)
    requires d.trace[j].cmd < NUM_CMDS && d.trace[k].cmd < NUM_CMDS && |p| - 1 <= SCOPES[d.trace[k].cmd]
    requires d.trace[j].cmd != SPM && gap in Gaps(d.v, |p| - 1, d.trace[j].cmd, d.trace[k].cmd)
    ensures d.trace[j].clk + gap <= d.trace[k].clk
  {
    hide Constraints, Holds, Gaps, Hits, Rewritten;
    var e, f, l := d.trace[j], d.trace[k], |p| - 1;
    var t := TimingCons(f.cmd, gap, 1, false);
    TableIsGaps(d.v, d.base, l, e.cmd, t);
    RewrittenSpares(d.base, d.latencies[j], l, e.cmd);
    NewestHit(d.trace, j, p);
    RunSafety(d.spec, [d.channel], d.trace, j, k, p, t);
  }

  /// Nothing but an activate holds such a command off at the channel.
  lemma {:induction false} ChannelEntries(d: Device, j: nat, c: nat, t: TimingCons)
    requires d.Valid() && Holds(d.base, Constraints(d.v)) && j < |d.trace| && d.trace[j].cmd < NUM_CMDS
    requires c in {PREA, REFAB, RFMAB} && t.cmd == c
    ensures t in d.trace[j].cons[CHANNEL][d.trace[j].cmd] <==>
            d.trace[j].cmd == ACT && t == TimingCons(c, 2, 1, false)
  {
    hide Constraints, Holds, Hits, Legal, GoodTable;
    var p := d.trace[j].cmd;
    TableIsGaps(d.v, d.base, CHANNEL, p, t);
    if p == SPM {
      if t in d.trace[j].cons[CHANNEL][p] {
        var i :| 0 <= i < |d.base[CHANNEL][p]| && t == d.base[CHANNEL][p][i].(val := d.latencies[j]);
        TableIsGaps(d.v, d.base, CHANNEL, p, d.base[CHANNEL][p][i]);
      }
    } else {
      RewrittenSpares(d.base, d.latencies[j], CHANNEL, p);
    }
  }

  /// A precharge or refresh of all banks is addressed to the channel, so its rows of the list that stand under the
  /// pseudochannel are never looked at: whatever was issued, it is ready as soon as no activate is newer than two
  /// cycles.
  lemma {:induction false} AllBankCommandsSkipTheirGaps(d: Device, c: nat, addr: seq<int>)
    requires d.Valid() && Holds(d.base, Constraints(d.v)) && c in {PREA, REFAB, RFMAB} && d.InRange(addr)
    ensures d.CheckReady(c, addr) <==>
            forall j :: 0 <= j < |d.trace| && d.trace[j].cmd == ACT && Matches([d.channel], d.trace[j].addr) ==>
              d.trace[j].clk + 2 <= d.clk
  {
    hide Constraints, Holds, Hits, Rewritten, EventAllows;
    var p := [d.channel];
    d.AddressIsGood(addr);
    d.root.AllReadyFromReflect(d.trace);
    d.root.CheckReadyExact(d.trace, c, addr, d.clk);
    assert Visited(d.spec, p, c, addr, p);
    assert forall q :: Visited(d.spec, p, c, addr, q) ==> q == p;
    forall j | 0 <= j < |d.trace|
      ensures EventAllows(d.trace, j, p, c, d.clk) <==>
              (d.trace[j].cmd == ACT && Matches(p, d.trace[j].addr) ==> d.trace[j].clk + 2 <= d.clk)
    {
      assert GoodEvent(d.spec, d.trace[j]);
      ChannelEventAllows(d, j, c);
    }
  }

  lemma {:induction false} ChannelEventAllows(d: Device, j: nat, c: nat)
    requires d.Valid() && Holds(d.base, Constraints(d.v)) && j < |d.trace| && d.trace[j].cmd < NUM_CMDS
    requires c in {PREA, REFAB, RFMAB}
    ensures EventAllows(d.trace, j, [d.channel], c, d.clk) <==>
            (d.trace[j].cmd == ACT && Matches([d.channel], d.trace[j].addr) ==> d.trace[j].clk + 2 <= d.clk)
  {
    hide Constraints, Holds, Hits, Rewritten, Legal, GoodTable;
    var e, t0 := d.trace[j], TimingCons(c, 2, 1, false);
    ChannelEntries(d, j, c, t0);
    if Matches([d.channel], e.addr) {
      NewestHit(d.trace, j, [d.channel]);
    }
    assert EntryAllows(t0, d.trace, j, [d.channel], c, d.clk) <==>
           (Matches([d.channel], e.addr) ==> e.clk + 2 <= d.clk);
    forall t | t in e.cons[CHANNEL][e.cmd] && t.cmd == c ensures e.cmd == ACT && t == t0 {
      ChannelEntries(d, j, c, t);
    }
  }
}
