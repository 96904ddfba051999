/** The spacing of commands that a DDR4 device asks for (src/dram/impl/DDR4.cpp), by pairs of commands instead of as
    the device's list, and what it means for whole runs.  */
module Ddr4Gaps {
  import opened Options
  import opened Timing
  import opened Ddr4Rank
  import opened Ddr4
  import opened OpenRows

  predicate IsRead(c: nat) { c == RD || c == RDA }

  predicate IsWrite(c: nat) { c == WR || c == WRA }

  predicate IsColumn(c: nat) { IsRead(c) || IsWrite(c) }

  /// The end of a write burst and its recovery, from the write command on.
  function WriteDone(v: Timings): int { v.nCWL + v.nBL + v.nWR }

  /// Two commands over one data bus.
  function ChannelGap(v: Timings, p: nat, f: nat): Option<int> {
    if (IsRead(p) && IsRead(f)) || (IsWrite(p) && IsWrite(f)) then Some(v.nBL) else None
  }

  /// Two commands in one rank.
  function RankGap(v: Timings, p: nat, f: nat): Option<int> {
    if f == RD || f == RDA then
      if IsRead(p) then Some(v.nCCDS) else if IsWrite(p) then Some(v.nCWL + v.nBL + v.nWTRS) else None
    else if f == WR || f == WRA then
      if IsWrite(p) then Some(v.nCCDS) else if IsRead(p) then Some(v.nCL + v.nBL + 2 - v.nCWL) else None
    else if f == ACT then
      if p == ACT then Some(v.nRRDS) else if p == PREA then Some(v.nRP) else if p == REFAB then Some(v.nRFC) else None
    else if f == PREA then
      if p == ACT then Some(v.nRAS) else if p == RD then Some(v.nRTP) else if p == WR then Some(WriteDone(v))
      else if p == REFAB then Some(v.nRFC) else None
    else if f == REFAB then
      if p == ACT then Some(v.nRC) else if p == PRE || p == PREA then Some(v.nRP)
      else if p == RDA then Some(v.nRTP + v.nRP) else if p == WRA then Some(WriteDone(v) + v.nRP) else None
    else None
  }

  /// Two commands in one bank group.
  function BankGroupGap(v: Timings, p: nat, f: nat): Option<int> {
    if IsColumn(p) && IsRead(f) then Some(if IsRead(p) then v.nCCDL else v.nCWL + v.nBL + v.nWTRL)
    else if IsWrite(p) && IsWrite(f) then Some(v.nCCDL)
    else if p == ACT == f then Some(v.nRRDL)
    else None
  }

  /// Two commands in one bank.
  function BankGap(v: Timings, p: nat, f: nat): Option<int> {
    if f == ACT then
      if p == ACT then Some(v.nRC) else if p == PRE then Some(v.nRP)
      else if p == RDA then Some(v.nRTP + v.nRP) else if p == WRA then Some(WriteDone(v) + v.nRP) else None
    else if f == PRE then
      if p == ACT then Some(v.nRAS) else if p == RD then Some(v.nRTP) else if p == WR then Some(WriteDone(v)) else None
    else if p == ACT && IsColumn(f) then Some(v.nRCD)
    else None
  }

  /// Two column accesses in different ranks of a channel.
  function SiblingGap(v: Timings, p: nat, f: nat): Option<int> {
    if IsRead(p) && IsColumn(f) then Some(v.nBL + v.nCS)
    else if IsWrite(p) && IsRead(f) then Some(v.nCL + v.nBL + v.nCS - v.nCWL)
    else None
  }

  /// The least distance of command f from an earlier command p at a common node of the level.
  function Gap(v: Timings, l: nat, p: nat, f: nat): Option<int> {
    if l == CHANNEL then ChannelGap(v, p, f)
    else if l == RANK then RankGap(v, p, f)
    else if l == BANKGROUP then BankGroupGap(v, p, f)
    else if l == BANK then BankGap(v, p, f)
    else None
  }

  /// What the device asks of a later command: a gap, the gap between ranks, or the window of four activates.
  predicate Required(v: Timings, l: nat, p: nat, t: TimingCons) {
    if t.sibling then l == RANK && t.window == 1 && SiblingGap(v, p, t.cmd) == Some(t.val)
    else
      (t.window == 1 && Gap(v, l, p, t.cmd) == Some(t.val)) ||
      (l == RANK && p == ACT && t == TimingCons(ACT, v.nFAW, 4, false))
  }

  lemma {:induction false} ChannelPart(v: Timings, l: nat, p: nat, t: TimingCons)
    ensures AskedBy(ChannelRows(v), l, p, t) <==>
            l == CHANNEL && !t.sibling && t.window == 1 && ChannelGap(v, p, t.cmd) == Some(t.val)
  {
    var rows := ChannelRows(v);
    assert AskedBy(rows, l, p, t) <==> Asks(rows[0], l, p, t) || Asks(rows[1], l, p, t);
  }

  lemma {:induction false} RankColumnPart(v: Timings, l: nat, p: nat, t: TimingCons)
    ensures AskedBy(RankColumnRows(v), l, p, t) <==>
            l == RANK && t.window == 1 &&
            if t.sibling then SiblingGap(v, p, t.cmd) == Some(t.val)
            else IsColumn(p) && t.cmd != REFAB && RankGap(v, p, t.cmd) == Some(t.val)
  {
    var rows := RankColumnRows(v);
    assert AskedBy(rows, l, p, t) <==>
           Asks(rows[0], l, p, t) || Asks(rows[1], l, p, t) || Asks(rows[2], l, p, t) || Asks(rows[3], l, p, t) ||
           Asks(rows[4], l, p, t) || Asks(rows[5], l, p, t) || Asks(rows[6], l, p, t) || Asks(rows[7], l, p, t);
  }

  lemma {:induction false} RankRowPart(v: Timings, l: nat, p: nat, t: TimingCons)
    ensures AskedBy(RankRowRows(v), l, p, t) <==>
            l == RANK && !t.sibling &&
            ((t.window == 1 && p in {ACT, PREA} && t.cmd != REFAB && RankGap(v, p, t.cmd) == Some(t.val)) ||
             (p == ACT && t == TimingCons(ACT, v.nFAW, 4, false)))
  {
    var rows := RankRowRows(v);
    assert AskedBy(rows, l, p, t) <==>
           Asks(rows[0], l, p, t) || Asks(rows[1], l, p, t) || Asks(rows[2], l, p, t) || Asks(rows[3], l, p, t);
  }

  lemma {:induction false} RefreshPart(v: Timings, l: nat, p: nat, t: TimingCons)
    ensures AskedBy(RefreshRows(v), l, p, t) <==>
            l == RANK && !t.sibling && t.window == 1 && (p == REFAB || t.cmd == REFAB) &&
            RankGap(v, p, t.cmd) == Some(t.val)
  {
    var rows := RefreshRows(v);
    assert AskedBy(rows, l, p, t) <==>
           Asks(rows[0], l, p, t) || Asks(rows[1], l, p, t) || Asks(rows[2], l, p, t) || Asks(rows[3], l, p, t) ||
           Asks(rows[4], l, p, t);
  }

  /// Which commands have a gap within a rank.
  lemma {:induction false} RankGapOf(v: Timings, p: nat, f: nat)
    ensures RankGap(v, p, f).Some? ==> IsColumn(p) || p in {ACT, PREA} || p == REFAB || f == REFAB
    ensures p == REFAB ==> f != REFAB || RankGap(v, p, f).None?
  {
  }

  lemma {:induction false} BankGroupPart(v: Timings, l: nat, p: nat, t: TimingCons)
    ensures AskedBy(BankGroupRows(v), l, p, t) <==>
            l == BANKGROUP && !t.sibling && t.window == 1 && BankGroupGap(v, p, t.cmd) == Some(t.val)
  {
    var rows := BankGroupRows(v);
    assert AskedBy(rows, l, p, t) <==>
           Asks(rows[0], l, p, t) || Asks(rows[1], l, p, t) || Asks(rows[2], l, p, t) || Asks(rows[3], l, p, t);
  }

  lemma {:induction false} BankPart(v: Timings, l: nat, p: nat, t: TimingCons)
    ensures AskedBy(BankRows(v), l, p, t) <==>
            l == BANK && !t.sibling && t.window == 1 && BankGap(v, p, t.cmd) == Some(t.val)
  {
    var rows := BankRows(v);
    assert AskedBy(rows, l, p, t) <==>
           Asks(rows[0], l, p, t) || Asks(rows[1], l, p, t) || Asks(rows[2], l, p, t) || Asks(rows[3], l, p, t) ||
           Asks(rows[4], l, p, t) || Asks(rows[5], l, p, t) || Asks(rows[6], l, p, t) || Asks(rows[7], l, p, t);
  }

  /// The device's table asks for these gaps and for nothing else.
  lemma {:induction false} TableIsGaps(v: Timings, table: ConsTable, l: nat, p: nat, t: TimingCons)
    requires Rectangular(table, NUM_LEVELS, NUM_CMDS) && Built(v, table) && l < NUM_LEVELS && p < NUM_CMDS
    ensures t in table[l][p] <==> Required(v, l, p, t)
  {
    hide AskedBy, ChannelRows, RankColumnRows, RankRowRows, RefreshRows, BankGroupRows, BankRows;
    hide RankGap, BankGap, SiblingGap;
    var a, b, c, d, e, f := ChannelRows(v), RankColumnRows(v), RankRowRows(v), RefreshRows(v), BankGroupRows(v),
                            BankRows(v);
    AskedByEither(a, b, l, p, t);
    AskedByEither(a + b, c, l, p, t);
    AskedByEither(a + b + c, d, l, p, t);
    AskedByEither(a + b + c + d, e, l, p, t);
    AskedByEither(a + b + c + d + e, f, l, p, t);
    ChannelPart(v, l, p, t);
    RankColumnPart(v, l, p, t);
    RankRowPart(v, l, p, t);
    RefreshPart(v, l, p, t);
    BankGroupPart(v, l, p, t);
    BankPart(v, l, p, t);
    RankGapOf(v, p, t.cmd);
  }

  lemma {:induction false} GapWithinScope(v: Timings, l: nat, p: nat, f: nat)
    requires p < NUM_CMDS && f < NUM_CMDS
    ensures Gap(v, l, p, f).Some? ==> l <= BANK && l <= SCOPES[f]
    ensures SiblingGap(v, p, f).Some? ==> RANK <= SCOPES[f]
  {
  }

  /// In every reachable state, a command follows an earlier one that went to a common node (a channel, rank, bank
  /// group or bank of the device) by no less than the gap that this level asks of the two.
  lemma {:induction false} Spacing(d: Device, j: nat, k: nat, p: seq<nat>)
    requires d.Valid() && Built(d.v, d.table) && j < k < |d.trace|
    requires InTree(d.spec, [d.channel], p) && Matches(p, d.trace[j].addr) && Matches(p, d.trace[k].addr)
    ensures d.trace[j].cmd < NUM_CMDS && d.trace[k].cmd < NUM_CMDS
    ensures var gap := Gap(d.v, |p| - 1, d.trace[j].cmd, d.trace[k].cmd);
            gap.Some? ==> d.trace[j].clk + gap.value <= d.trace[k].clk
  {
    hide Built, Gap, Device.RowsOk, Device.Pending, Counted, Hits, HasKeyEntries;
    var e, f, l := d.trace[j], d.trace[k], |p| - 1;
    assert GoodEvent(d.spec, e) && GoodEvent(d.spec, f);
    var gap := Gap(d.v, l, e.cmd, f.cmd);
    if gap.Some? {
      var t := TimingCons(f.cmd, gap.value, 1, false);
      TableIsGaps(d.v, d.table, l, e.cmd, t);
      GapWithinScope(d.v, l, e.cmd, f.cmd);
      NewestHit(d.trace, j, p);
      RunSafety(d.spec, [d.channel], d.trace, j, k, p, t);
    }
  }

  /// So do column accesses of two ranks of the channel.
  lemma {:induction false} SpacingOfRanks(d: Device, j: nat, k: nat, r: nat)
    requires d.Valid() && Built(d.v, d.table) && j < k < |d.trace| && r < d.org.ranks
    requires |d.trace[k].addr| > RANK && d.trace[k].addr[CHANNEL] == d.channel && d.trace[k].addr[RANK] == r
    requires |d.trace[j].addr| > RANK && d.trace[j].addr[CHANNEL] == d.channel && 0 <= d.trace[j].addr[RANK] != r
    ensures d.trace[j].cmd < NUM_CMDS && d.trace[k].cmd < NUM_CMDS
    ensures var gap := SiblingGap(d.v, d.trace[j].cmd, d.trace[k].cmd);
            gap.Some? ==> d.trace[j].clk + gap.value <= d.trace[k].clk
  {
    hide Built, SiblingGap, Device.RowsOk, Device.Pending, Counted, Hits, HasKeyEntries;
    var e, f, p := d.trace[j], d.trace[k], [d.channel, r];
    assert GoodEvent(d.spec, e) && GoodEvent(d.spec, f);
    var gap := SiblingGap(d.v, e.cmd, f.cmd);
    if gap.Some? {
      var t := TimingCons(f.cmd, gap.value, 1, true);
      TableIsGaps(d.v, d.table, RANK, e.cmd, t);
      GapWithinScope(d.v, RANK, e.cmd, f.cmd);
      assert p[..1] == [d.channel];
      assert GoesToSibling(p, e.addr);
      RunSafety(d.spec, [d.channel], d.trace, j, k, p, t);
    }
  }

  // ---------- ready exactly when the gaps have passed ----------

  /// Every earlier command is as far back as the gaps at their common nodes ask.
  ghost predicate GapsPassed(d: Device, cmd: nat, addr: seq<int>)
    requires d.Fixed()
    reads d
  {
    forall j, p :: 0 <= j < |d.trace| && Common(d, p, d.trace[j].addr, addr) ==>
      GapPassed(d, d.trace[j], |p| - 1, cmd)
  }

  /// A node of the device that both addresses go to.
  ghost predicate Common(d: Device, p: seq<nat>, a: seq<int>, b: seq<int>)
    requires d.Fixed()
  {
    InTree(d.spec, [d.channel], p) && Matches(p, a) && Matches(p, b)
  }

  ghost predicate GapPassed(d: Device, e: Event, l: int, cmd: nat)
    reads d
  {
    l >= 0 && var gap := Gap(d.v, l, e.cmd, cmd);
    gap.Some? ==> e.clk + gap.value <= d.clk
  }

  /// So are the column accesses of the other ranks.
  ghost predicate SiblingGapsPassed(d: Device, cmd: nat, addr: seq<int>)
    reads d
  {
    forall j :: 0 <= j < |d.trace| && |addr| > RANK && OfOtherRank(d, d.trace[j], addr[RANK]) ==>
      var gap := SiblingGap(d.v, d.trace[j].cmd, cmd);
      gap.Some? ==> d.trace[j].clk + gap.value <= d.clk
  }

  ghost predicate OfOtherRank(d: Device, e: Event, r: int) {
    |e.addr| > RANK && (e.addr[CHANNEL] == -1 || e.addr[CHANNEL] == d.channel) && e.addr[RANK] != -1 &&
    e.addr[RANK] != r
  }

  /// All activates of the rank but the three newest are nFAW back.
  ghost predicate WindowPassed(d: Device, r: nat)
    reads d
  {
    var acts := Hits(d.trace, [d.channel, r], ACT);
    forall i :: 0 <= i && i + 4 <= |acts| ==> acts[i] + d.v.nFAW <= d.clk
  }

  /// Hits of a prefix are the first hits of the whole.
  lemma {:induction false} HitsOfPrefix(tr: seq<Event>, k: nat, p: seq<nat>, cmd: nat)
    requires k <= |tr|
    ensures Hits(tr[..k], p, cmd) <= Hits(tr, p, cmd)
  {
    if k == |tr| {
      assert tr[..k] == tr;
    } else {
      HitsOfPrefix(tr[..|tr| - 1], k, p, cmd);
      assert tr[..|tr| - 1][..k] == tr[..k];
    }
  }

  /// The event that made the n-th hit.
  lemma {:induction false} NthHit(tr: seq<Event>, p: seq<nat>, cmd: nat, n: nat) returns (j: nat)
    requires n < |Hits(tr, p, cmd)|
    ensures j < |tr| && tr[j].cmd == cmd && Matches(p, tr[j].addr) && |Hits(tr[..j + 1], p, cmd)| == n + 1
  {
    var k := |tr| - 1;
    if n < |Hits(tr[..k], p, cmd)| {
      j := NthHit(tr[..k], p, cmd, n);
      assert tr[..k][..j + 1] == tr[..j + 1];
    } else {
      j := k;
      assert tr[..j + 1] == tr;
    }
  }

  /// What one earlier command asks at one node, gap by gap.
  ghost predicate Asked(d: Device, j: nat, p: seq<nat>, cmd: nat)
    requires j < |d.trace|
    reads d
  {
    (Matches(p, d.trace[j].addr) ==> GapPassed(d, d.trace[j], |p| - 1, cmd)) &&
    (|p| == 2 && GoesToSibling(p, d.trace[j].addr) ==>
      var gap := SiblingGap(d.v, d.trace[j].cmd, cmd);
      gap.Some? ==> d.trace[j].clk + gap.value <= d.clk) &&
    (|p| == 2 && cmd == ACT && d.trace[j].cmd == ACT && Matches(p, d.trace[j].addr) ==>
      var h := Hits(d.trace[..j + 1], p, ACT);
      4 <= |h| ==> h[|h| - 4] + d.v.nFAW <= d.clk)
  }

  ghost predicate HoldsAll(v: Timings, entries: seq<TimingCons>, l: nat, p: nat) {
    forall t: TimingCons :: t in entries <==> Required(v, l, p, t)
  }

  lemma {:induction false} AllowsAsked(d: Device, j: nat, p: seq<nat>, cmd: nat)
    requires d.Fixed() && Built(d.v, d.table) && j < |d.trace| && d.trace[j].cons == d.table
    requires d.trace[j].cmd < NUM_CMDS && 0 < |p| <= ROW
    ensures EventAllows(d.trace, j, p, cmd, d.clk) <==> Asked(d, j, p, cmd)
  {
    hide Built, Gap, SiblingGap, Hits, HasKeyEntries, GoodTable, Matches, GoesToSibling;
    var e, l := d.trace[j], |p| - 1;
    forall t: TimingCons ensures t in d.table[l][e.cmd] <==> Required(d.v, l, e.cmd, t) {
      TableIsGaps(d.v, d.table, l, e.cmd, t);
    }
    if Matches(p, e.addr) { NewestHit(d.trace, j, p); }
    if EventAllows(d.trace, j, p, cmd, d.clk) {
      AskedIfAllowed(d, j, p, cmd);
    }
    if Asked(d, j, p, cmd) {
      forall t | t in e.cons[l][e.cmd] ensures EntryAllows(t, d.trace, j, p, cmd, d.clk) {
      }
    }
  }

  lemma {:induction false} AskedIfAllowed(d: Device, j: nat, p: seq<nat>, cmd: nat)
    requires j < |d.trace| && 0 < |p| <= |d.trace[j].cons| && d.trace[j].cmd < |d.trace[j].cons[|p| - 1]|
    requires HoldsAll(d.v, d.trace[j].cons[|p| - 1][d.trace[j].cmd], |p| - 1, d.trace[j].cmd)
    requires EventAllows(d.trace, j, p, cmd, d.clk)
    ensures Asked(d, j, p, cmd)
  {
    hide Gap, SiblingGap, Hits, Matches, GoesToSibling;
    var e, l := d.trace[j], |p| - 1;
    var gap, other := Gap(d.v, l, e.cmd, cmd), SiblingGap(d.v, e.cmd, cmd);
    if Matches(p, e.addr) {
      NewestHit(d.trace, j, p);
      if gap.Some? {
        var t := TimingCons(cmd, gap.value, 1, false);
        assert Required(d.v, l, e.cmd, t);
        assert EntryAllows(t, d.trace, j, p, cmd, d.clk);
      }
      if l == RANK && cmd == ACT && e.cmd == ACT {
        var t := TimingCons(ACT, d.v.nFAW, 4, false);
        assert Required(d.v, l, e.cmd, t);
        assert EntryAllows(t, d.trace, j, p, cmd, d.clk);
      }
    }
    if l == RANK && other.Some? {
      var t := TimingCons(cmd, other.value, 1, true);
      assert Required(d.v, l, e.cmd, t);
      assert EntryAllows(t, d.trace, j, p, cmd, d.clk);
    }
  }

  lemma {:induction false} EventIsGood(d: Device, j: nat)
    requires d.Valid() && j < |d.trace|
    ensures d.trace[j].cmd < NUM_CMDS && d.trace[j].cons == d.table && |d.trace[j].addr| > ROW
  {
    hide Device.RowsOk, Device.Pending, Counted, HasKeyEntries, GoodTable;
    assert GoodEvent(d.spec, d.trace[j]);
  }

  /// Every event lets the command pass at every node that it visits.
  ghost predicate AllAsked(d: Device, cmd: nat, addr: seq<int>)
    requires d.Fixed() && cmd < NUM_CMDS && GoodAddress(d.spec, addr)
    reads d
  {
    forall p, j :: Visited(d.spec, [d.channel], cmd, addr, p) && 0 <= j < |d.trace| ==> Asked(d, j, p, cmd)
  }

  lemma {:induction false} GapsIfAsked(d: Device, cmd: nat, addr: seq<int>, j: nat, p: seq<nat>)
    requires d.Valid() && cmd < NUM_CMDS && GoodAddress(d.spec, addr) && AllAsked(d, cmd, addr)
    requires j < |d.trace| && Common(d, p, d.trace[j].addr, addr)
    ensures GapPassed(d, d.trace[j], |p| - 1, cmd)
  {
    hide Gap, SiblingGap, Hits, Device.RowsOk, Device.Pending, Counted, HasKeyEntries, GoodTable, Legal;
    EventIsGood(d, j);
    GapWithinScope(d.v, |p| - 1, d.trace[j].cmd, cmd);
    if Gap(d.v, |p| - 1, d.trace[j].cmd, cmd).Some? {
      assert Visited(d.spec, [d.channel], cmd, addr, p);
      assert Asked(d, j, p, cmd);
    }
  }

  lemma {:induction false} SiblingGapsIfAsked(d: Device, cmd: nat, addr: seq<int>, final: nat, j: nat)
    requires d.Valid() && cmd < NUM_CMDS && d.InRange(addr, final) && GoodAddress(d.spec, addr) &&
             AllAsked(d, cmd, addr)
    requires j < |d.trace| && OfOtherRank(d, d.trace[j], addr[RANK])
    ensures var gap := SiblingGap(d.v, d.trace[j].cmd, cmd); gap.Some? ==> d.trace[j].clk + gap.value <= d.clk
  {
    hide Gap, SiblingGap, Hits, Device.RowsOk, Device.Pending, Counted, HasKeyEntries, GoodTable, Legal;
    var rank := [d.channel, addr[RANK]];
    EventIsGood(d, j);
    GapWithinScope(d.v, RANK, d.trace[j].cmd, cmd);
    if SiblingGap(d.v, d.trace[j].cmd, cmd).Some? {
      assert Visited(d.spec, [d.channel], cmd, addr, rank);
      assert Asked(d, j, rank, cmd);
      assert rank[..1] == [d.channel];
    }
  }

  lemma {:induction false} WindowIfAsked(d: Device, addr: seq<int>, final: nat)
    requires d.Valid() && d.InRange(addr, final) && GoodAddress(d.spec, addr) && AllAsked(d, ACT, addr)
    ensures WindowPassed(d, addr[RANK])
  {
    hide Gap, SiblingGap, Hits, Device.RowsOk, Device.Pending, Counted, HasKeyEntries, GoodTable, Legal;
    var rank := [d.channel, addr[RANK]];
    var acts := Hits(d.trace, rank, ACT);
    assert Visited(d.spec, [d.channel], ACT, addr, rank);
    forall i | 0 <= i && i + 4 <= |acts| ensures acts[i] + d.v.nFAW <= d.clk {
      var j := NthHit(d.trace, rank, ACT, i + 3);
      assert Asked(d, j, rank, ACT);
      HitsOfPrefix(d.trace, j + 1, rank, ACT);
    }
  }

  lemma {:induction false} PassedIfAsked(d: Device, cmd: nat, addr: seq<int>, final: nat)
    requires d.Valid() && cmd < NUM_CMDS && d.InRange(addr, final) && GoodAddress(d.spec, addr) &&
             AllAsked(d, cmd, addr)
    ensures GapsPassed(d, cmd, addr) && SiblingGapsPassed(d, cmd, addr) && (cmd == ACT ==> WindowPassed(d, addr[RANK]))
  {
    hide Common, GapPassed, OfOtherRank, SiblingGap, AllAsked, WindowPassed, Device.RowsOk, Device.Pending, Counted;
    hide HasKeyEntries, GoodTable, Legal;
    forall j, p | 0 <= j < |d.trace| && Common(d, p, d.trace[j].addr, addr)
      ensures GapPassed(d, d.trace[j], |p| - 1, cmd)
    {
      GapsIfAsked(d, cmd, addr, j, p);
    }
    forall j | 0 <= j < |d.trace| && OfOtherRank(d, d.trace[j], addr[RANK])
      ensures var gap := SiblingGap(d.v, d.trace[j].cmd, cmd); gap.Some? ==> d.trace[j].clk + gap.value <= d.clk
    {
      SiblingGapsIfAsked(d, cmd, addr, final, j);
    }
    if cmd == ACT {
      WindowIfAsked(d, addr, final);
    }
  }

  lemma {:induction false} AskedIfGaps(d: Device, cmd: nat, addr: seq<int>, final: nat, p: seq<nat>, j: nat)
    requires d.Valid() && Built(d.v, d.table) && cmd < NUM_CMDS && d.InRange(addr, final) && GoodAddress(d.spec, addr)
    requires GapsPassed(d, cmd, addr) && SiblingGapsPassed(d, cmd, addr) && (cmd == ACT ==> WindowPassed(d, addr[RANK]))
    requires Visited(d.spec, [d.channel], cmd, addr, p) && j < |d.trace|
    ensures Asked(d, j, p, cmd)
  {
    hide Built, Gap, SiblingGap, Hits, Device.RowsOk, Device.Pending, Counted, HasKeyEntries, GoodTable, Legal;
    EventIsGood(d, j);
    if Matches(p, d.trace[j].addr) {
      assert Common(d, p, d.trace[j].addr, addr);
    }
    if |p| == 2 {
      assert p == [d.channel, addr[RANK]] && p[..1] == [d.channel];
      HitsOfPrefix(d.trace, j + 1, p, ACT);
    }
  }

  /// In every reachable state a command is ready if and only if every earlier command is as far back as the gaps ask,
  /// at all nodes that both go to and between ranks, and, for an activate, the fourth newest of its rank nFAW.
  lemma {:induction false} ReadyExactly(d: Device, cmd: nat, addr: seq<int>, final: nat)
    requires d.Valid() && Built(d.v, d.table) && cmd < NUM_CMDS && d.InRange(addr, final)
    ensures d.CheckReady(cmd, addr, final) <==>
            GapsPassed(d, cmd, addr) && SiblingGapsPassed(d, cmd, addr) &&
            (cmd == ACT ==> WindowPassed(d, addr[RANK]))
  {
    hide Built, Gap, SiblingGap, Hits, Asked, EventAllows, GapsPassed, SiblingGapsPassed, WindowPassed;
    hide Device.RowsOk, Device.Pending, Counted, HasKeyEntries, GoodTable;
    d.AddressIsGood(addr, final);
    d.root.AllReadyFromReflect(d.trace);
    d.root.CheckReadyExact(d.trace, cmd, addr, d.clk);
    forall p, j | Visited(d.spec, [d.channel], cmd, addr, p) && 0 <= j < |d.trace|
      ensures EventAllows(d.trace, j, p, cmd, d.clk) <==> Asked(d, j, p, cmd)
    {
      EventIsGood(d, j);
      AllowsAsked(d, j, p, cmd);
    }
    if d.CheckReady(cmd, addr, final) {
      forall p, j | Visited(d.spec, [d.channel], cmd, addr, p) && 0 <= j < |d.trace| ensures Asked(d, j, p, cmd) {
        assert Allowed(d.trace, p, cmd, d.clk);
      }
      PassedIfAsked(d, cmd, addr, final);
    }
    if GapsPassed(d, cmd, addr) && SiblingGapsPassed(d, cmd, addr) && (cmd == ACT ==> WindowPassed(d, addr[RANK])) {
      forall p | Visited(d.spec, [d.channel], cmd, addr, p) ensures Allowed(d.trace, p, cmd, d.clk) {
        forall j | 0 <= j < |d.trace| ensures EventAllows(d.trace, j, p, cmd, d.clk) {
          AskedIfGaps(d, cmd, addr, final, p, j);
        }
      }
    }
  }
}
