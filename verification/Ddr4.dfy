/** A DDR4 channel (src/dram/impl/DDR4.cpp): the timing tree, the ranks and the pending refresh ends,
    driven one clock and one command at a time.  */
module Ddr4 {
  import opened Timing
  import opened Ddr4Rank
  import opened OpenRows

  const NUM_CMDS: nat := 9

  /// The level each command is addressed to, by command.
  const SCOPES: seq<nat> := [ROW, BANK, RANK, COLUMN, COLUMN, COLUMN, COLUMN, RANK, RANK]

  datatype Timings = Timings(
    nBL: int, nCL: int, nRCD: int, nRP: int, nRAS: int, nRC: int, nWR: int, nRTP: int, nCWL: int,
    nCCDS: int, nCCDL: int, nRRDS: int, nRRDL: int, nWTRS: int, nWTRL: int, nFAW: int, nRFC: int, nCS: int)

  function Row(level: nat, preceding: seq<nat>, following: seq<nat>, latency: int,
               window: nat := 1, sibling: bool := false): (ts: Initializer)
    requires level < NUM_LEVELS && window >= 1 && Commands(preceding, NUM_CMDS) && Commands(following, NUM_CMDS)
    ensures GoodRow(ts, NUM_LEVELS, NUM_CMDS)
  {
    Initializer(level, preceding, following, latency, window, sibling)
  }

  const READS: seq<nat> := [RD, RDA]
  const WRITES: seq<nat> := [WR, WRA]

  // The device's constraint list, part by part; the numbers are JESD79-4C's, in cycles.

  function ChannelRows(v: Timings): (rows: seq<Initializer>)
    ensures GoodRows(rows, NUM_LEVELS, NUM_CMDS)
  {
    [ Row(CHANNEL, READS, READS, v.nBL),
      Row(CHANNEL, WRITES, WRITES, v.nBL) ]
  }

  function RankColumnRows(v: Timings): (rows: seq<Initializer>)
    ensures GoodRows(rows, NUM_LEVELS, NUM_CMDS)
  {
    [ Row(RANK, READS, READS, v.nCCDS),
      Row(RANK, WRITES, WRITES, v.nCCDS),
      Row(RANK, READS, WRITES, v.nCL + v.nBL + 2 - v.nCWL),
      Row(RANK, WRITES, READS, v.nCWL + v.nBL + v.nWTRS),
      Row(RANK, READS, [RD, RDA, WR, WRA], v.nBL + v.nCS, sibling := true),
      Row(RANK, WRITES, READS, v.nCL + v.nBL + v.nCS - v.nCWL, sibling := true),
      Row(RANK, [RD], [PREA], v.nRTP),
      Row(RANK, [WR], [PREA], v.nCWL + v.nBL + v.nWR) ]
  }

  function RankRowRows(v: Timings): (rows: seq<Initializer>)
    ensures GoodRows(rows, NUM_LEVELS, NUM_CMDS)
  {
    [ Row(RANK, [ACT], [ACT], v.nRRDS),
      Row(RANK, [ACT], [ACT], v.nFAW, 4),
      Row(RANK, [ACT], [PREA], v.nRAS),
      Row(RANK, [PREA], [ACT], v.nRP) ]
  }

  function RefreshRows(v: Timings): (rows: seq<Initializer>)
    ensures GoodRows(rows, NUM_LEVELS, NUM_CMDS)
  {
    [ Row(RANK, [ACT], [REFAB], v.nRC),
      Row(RANK, [PRE, PREA], [REFAB], v.nRP),
      Row(RANK, [RDA], [REFAB], v.nRP + v.nRTP),
      Row(RANK, [WRA], [REFAB], v.nCWL + v.nBL + v.nWR + v.nRP),
      Row(RANK, [REFAB], [ACT, PREA], v.nRFC) ]
  }

  function BankGroupRows(v: Timings): (rows: seq<Initializer>)
    ensures GoodRows(rows, NUM_LEVELS, NUM_CMDS)
  {
    [ Row(BANKGROUP, READS, READS, v.nCCDL),
      Row(BANKGROUP, WRITES, WRITES, v.nCCDL),
      Row(BANKGROUP, WRITES, READS, v.nCWL + v.nBL + v.nWTRL),
      Row(BANKGROUP, [ACT], [ACT], v.nRRDL) ]
  }

  function BankRows(v: Timings): (rows: seq<Initializer>)
    ensures GoodRows(rows, NUM_LEVELS, NUM_CMDS)
  {
    [ Row(BANK, [ACT], [ACT], v.nRC),
      Row(BANK, [ACT], [RD, RDA, WR, WRA], v.nRCD),
      Row(BANK, [ACT], [PRE], v.nRAS),
      Row(BANK, [PRE], [ACT], v.nRP),
      Row(BANK, [RD], [PRE], v.nRTP),
      Row(BANK, [WR], [PRE], v.nCWL + v.nBL + v.nWR),
      Row(BANK, [RDA], [ACT], v.nRTP + v.nRP),
      Row(BANK, [WRA], [ACT], v.nCWL + v.nBL + v.nWR + v.nRP) ]
  }

  function Constraints(v: Timings): (rows: seq<Initializer>)
    ensures GoodRows(rows, NUM_LEVELS, NUM_CMDS)
  {
    ChannelRows(v) + RankColumnRows(v) + RankRowRows(v) + RefreshRows(v) + BankGroupRows(v) + BankRows(v)
  }

  /// The table holds the device's list, and nothing else.
  ghost predicate Built(v: Timings, table: ConsTable) {
    |table| == NUM_LEVELS && Holds(table, Constraints(v))
  }

  /// The entries that the whole-run results below rest on.
  ghost predicate HasKeyEntries(v: Timings, table: ConsTable)
    requires Rectangular(table, NUM_LEVELS, NUM_CMDS)
  {
    && TimingCons(ACT, v.nFAW, 4, false) in table[RANK][ACT]
    && TimingCons(ACT, v.nRFC, 1, false) in table[RANK][REFAB]
    && TimingCons(ACT, v.nRC, 1, false) in table[BANK][ACT]
  }

  lemma {:induction false} KeyEntries(v: Timings, table: ConsTable)
    requires Rectangular(table, NUM_LEVELS, NUM_CMDS) && Built(v, table)
    ensures HasKeyEntries(v, table)
  {
    var all := Constraints(v);
    var n := |ChannelRows(v)| + |RankColumnRows(v)|;
    var m := n + |RankRowRows(v)| + |RefreshRows(v)| + |BankGroupRows(v)|;
    assert all[n + 1] == RankRowRows(v)[1] && all[n + 8] == RefreshRows(v)[4] && all[m] == BankRows(v)[0];
    assert Asks(all[n + 1], RANK, ACT, TimingCons(ACT, v.nFAW, 4, false));
    assert Asks(all[n + 8], RANK, REFAB, TimingCons(ACT, v.nRFC, 1, false));
    assert Asks(all[m], BANK, ACT, TimingCons(ACT, v.nRC, 1, false));
  }

  // ---------- the device ----------

  /// A refresh that will end at clock `due`.
  datatype FutureAction = FutureAction(rank: nat, due: int)

  ghost function Dues(future: seq<FutureAction>, r: nat): seq<int> {
    if future == [] then []
    else
      var f := future[|future| - 1];
      Dues(future[..|future| - 1], r) + (if f.rank == r then [f.due] else [])
  }

  lemma {:induction false} DuesAppend(future: seq<FutureAction>, f: FutureAction, r: nat)
    ensures Dues(future + [f], r) == Dues(future, r) + (if f.rank == r then [f.due] else [])
  {
    assert (future + [f])[..|future|] == future;
  }

  lemma {:induction false} DuesMore(future: seq<FutureAction>, more: seq<FutureAction>, r: nat)
    requires more == [] || (|more| == 1 && more[0].rank == r)
    ensures Dues(future + more, r) == if more == [] then Dues(future, r) else Dues(future, r) + [more[0].due]
  {
    if more == [] {
      assert future + more == future;
    } else {
      DuesAppend(future, more[0], r);
    }
  }

  /// Erasing one entry erases one due of its rank and none of any other.
  lemma {:induction false} DuesErase(future: seq<FutureAction>, i: nat, r: nat)
    requires i < |future|
    ensures var k := |Dues(future[..i], r)|;
            var rest := Dues(future[..i] + future[i + 1..], r);
            if future[i].rank == r then
              k < |Dues(future, r)| && Dues(future, r)[k] == future[i].due &&
              rest == Dues(future, r)[..k] + Dues(future, r)[k + 1..]
            else rest == Dues(future, r)
  {
    var n := |future| - 1;
    if i == n {
      assert future[..i] + future[i + 1..] == future[..i];
      assert future[..n] == future[..i];
    } else {
      DuesErase(future[..n], i, r);
      assert future[..n][..i] == future[..i];
      assert future[..i] + future[i + 1..] == (future[..i] + future[..n][i + 1..]) + [future[n]];
      DuesAppend(future[..i] + future[..n][i + 1..], future[n], r);
    }
  }

  lemma {:induction false} DuesSound(future: seq<FutureAction>, r: nat, d: int)
    requires d in Dues(future, r)
    ensures FutureAction(r, d) in future
  {
    var n := |future| - 1;
    if d in Dues(future[..n], r) {
      DuesSound(future[..n], r, d);
    }
  }

  function FreshRanks(org: Org): seq<Rank> {
    seq(org.ranks, _ => FreshRank(BankCount(org)))
  }

  ghost function DeviceSpec(org: Org, table: ConsTable): Spec {
    Spec(NUM_CMDS, ROW, [1, org.ranks, org.bankGroups, org.banks], SCOPES, table)
  }

  /// The books of the first k ranks are in order at clock `now`.
  ghost predicate Books(ranks: seq<Rank>, future: seq<FutureAction>, hist: seq<History>, now: int, nRFC: int, k: nat)
    requires k <= |ranks| == |hist|
  {
    k == 0 || (Books(ranks, future, hist, now, nRFC, k - 1) &&
               RankOk(ranks[k - 1], Dues(future, k - 1), hist[k - 1], now, nRFC))
  }

  lemma {:induction false} BooksAt(ranks: seq<Rank>, future: seq<FutureAction>, hist: seq<History>, now: int, nRFC: int,
                                   k: nat, r: nat)
    requires r < k <= |ranks| == |hist| && Books(ranks, future, hist, now, nRFC, k)
    ensures RankOk(ranks[r], Dues(future, r), hist[r], now, nRFC)
  {
    if r < k - 1 { BooksAt(ranks, future, hist, now, nRFC, k - 1, r); }
  }

  lemma {:induction false} BooksFrom(ranks: seq<Rank>, future: seq<FutureAction>, hist: seq<History>, now: int,
                                     nRFC: int, k: nat)
    requires k <= |ranks| == |hist|
    requires forall r :: 0 <= r < k ==> RankOk(ranks[r], Dues(future, r), hist[r], now, nRFC)
    ensures Books(ranks, future, hist, now, nRFC, k)
  {
    if k > 0 { BooksFrom(ranks, future, hist, now, nRFC, k - 1); }
  }

  /// One rank and its pending refreshes change, and none of another rank.
  lemma {:induction false} BooksUpdate(ranks: seq<Rank>, future: seq<FutureAction>, future': seq<FutureAction>,
                                       hist: seq<History>, now: int, nRFC: int, r: nat, rank: Rank, h: History)
    requires r < |ranks| == |hist| && Books(ranks, future, hist, now, nRFC, |ranks|)
    requires RankOk(rank, Dues(future', r), h, now, nRFC)
    requires forall q: nat :: q != r ==> Dues(future', q) == Dues(future, q)
    ensures Books(ranks[r := rank], future', hist[r := h], now, nRFC, |ranks|)
  {
    hide RankOk, Dues;
    forall q: nat | q < |ranks| ensures RankOk(ranks[r := rank][q], Dues(future', q), hist[r := h][q], now, nRFC) {
      if q != r { BooksAt(ranks, future, hist, now, nRFC, |ranks|, q); }
    }
    BooksFrom(ranks[r := rank], future', hist[r := h], now, nRFC, |ranks|);
  }

  lemma {:induction false} DuesOfOthers(future: seq<FutureAction>, more: seq<FutureAction>, r: nat)
    requires more == [] || (|more| == 1 && more[0].rank == r)
    ensures forall q: nat :: q != r ==> Dues(future + more, q) == Dues(future, q)
  {
    forall q: nat | q != r ensures Dues(future + more, q) == Dues(future, q) {
      if more == [] { assert future + more == future; } else { DuesAppend(future, more[0], q); }
    }
  }

  /// Every refresh issued to one of the first k ranks is either finished or pending.
  ghost predicate Counted(trace: seq<Event>, future: seq<FutureAction>, hist: seq<History>, channel: nat, k: nat)
    requires k <= |hist|
  {
    k == 0 || (Counted(trace, future, hist, channel, k - 1) &&
               |Hits(trace, [channel, k - 1], REFAB)| == hist[k - 1].done + |Dues(future, k - 1)|)
  }

  lemma {:induction false} CountedAt(trace: seq<Event>, future: seq<FutureAction>, hist: seq<History>, channel: nat,
                                     k: nat, r: nat)
    requires r < k <= |hist| && Counted(trace, future, hist, channel, k)
    ensures |Hits(trace, [channel, r], REFAB)| == hist[r].done + |Dues(future, r)|
  {
    if r < k - 1 { CountedAt(trace, future, hist, channel, k - 1, r); }
  }

  lemma {:induction false} CountedFrom(trace: seq<Event>, future: seq<FutureAction>, hist: seq<History>, channel: nat,
                                       k: nat)
    requires k <= |hist|
    requires forall r: nat :: r < k ==> |Hits(trace, [channel, r], REFAB)| == hist[r].done + |Dues(future, r)|
    ensures Counted(trace, future, hist, channel, k)
  {
    if k > 0 { CountedFrom(trace, future, hist, channel, k - 1); }
  }

  /// Issuing a command counts a refresh exactly when it starts one.
  lemma {:induction false} CountedIssue(trace: seq<Event>, future: seq<FutureAction>, hist: seq<History>, channel: nat,
                     e: Event, r: nat, more: seq<FutureAction>, h: History)
    requires r < |hist| && Counted(trace, future, hist, channel, |hist|)
    requires h.done == hist[r].done
    requires |e.addr| >= 2 && e.addr[0] == channel && e.addr[1] == r
    requires if e.cmd == REFAB then |more| == 1 && more[0].rank == r else more == []
    ensures Counted(trace + [e], future + more, hist[r := h], channel, |hist|)
  {
    forall q: nat | q < |hist|
      ensures |Hits(trace + [e], [channel, q], REFAB)| == hist[r := h][q].done + |Dues(future + more, q)|
    {
      CountedAt(trace, future, hist, channel, |hist|, q);
      HitsOneMore(trace, e, [channel, q], REFAB);
      if more == [] { assert future + more == future; } else { DuesAppend(future, more[0], q); }
    }
    CountedFrom(trace + [e], future + more, hist[r := h], channel, |hist|);
  }

  /// Ending a refresh moves it from pending to finished.
  lemma {:induction false} CountedEnd(trace: seq<Event>, future: seq<FutureAction>, hist: seq<History>, channel: nat,
                                      i: nat)
    requires i < |future| && future[i].rank < |hist| && Counted(trace, future, hist, channel, |hist|)
    ensures var r := future[i].rank;
            Counted(trace, future[..i] + future[i + 1..], hist[r := hist[r].(done := hist[r].done + 1)], channel,
                    |hist|)
  {
    var r := future[i].rank;
    var hist' := hist[r := hist[r].(done := hist[r].done + 1)];
    forall q: nat | q < |hist|
      ensures |Hits(trace, [channel, q], REFAB)| == hist'[q].done + |Dues(future[..i] + future[i + 1..], q)|
    {
      CountedAt(trace, future, hist, channel, |hist|, q);
      DuesErase(future, i, q);
    }
    CountedFrom(trace, future[..i] + future[i + 1..], hist', channel, |hist|);
  }

  ghost predicate RefreshOf(e: Event, channel: nat, r: nat) {
    e.cmd == REFAB && Matches([channel, r], e.addr)
  }

  /// A pending refresh end belongs to an issued refresh.
  ghost predicate Caused(f: FutureAction, trace: seq<Event>, channel: nat, nRFC: int) {
    exists j :: 0 <= j < |trace| && RefreshOf(trace[j], channel, f.rank) && trace[j].clk + nRFC - 1 == f.due
  }

  ghost predicate FutureOk(future: seq<FutureAction>, numRanks: nat, earliest: int, trace: seq<Event>, channel: nat,
                           nRFC: int) {
    forall f :: f in future ==> f.rank < numRanks && earliest <= f.due && Caused(f, trace, channel, nRFC)
  }

  lemma {:induction false} FutureStep(future: seq<FutureAction>, numRanks: nat, earliest: int, trace: seq<Event>,
                                      e: Event, channel: nat, nRFC: int)
    requires FutureOk(future, numRanks, earliest, trace, channel, nRFC)
    ensures FutureOk(future, numRanks, earliest, trace + [e], channel, nRFC)
  {
    forall f | f in future ensures Caused(f, trace + [e], channel, nRFC) {
      var j :| 0 <= j < |trace| && RefreshOf(trace[j], channel, f.rank) && trace[j].clk + nRFC - 1 == f.due;
      assert (trace + [e])[j] == trace[j];
    }
  }

  lemma {:induction false} FutureMore(future: seq<FutureAction>, more: seq<FutureAction>, numRanks: nat,
                                      trace: seq<Event>, channel: nat, nRFC: int, r: nat)
    requires nRFC >= 2 && r < numRanks && trace != []
    requires more == [] ||
             (RefreshOf(trace[|trace| - 1], channel, r) && more == [FutureAction(r, trace[|trace| - 1].clk + nRFC - 1)])
    requires FutureOk(future, numRanks, trace[|trace| - 1].clk + 1, trace, channel, nRFC)
    ensures FutureOk(future + more, numRanks, trace[|trace| - 1].clk + 1, trace, channel, nRFC)
  {
    forall f | f in future + more
      ensures f.rank < numRanks && trace[|trace| - 1].clk + 1 <= f.due && Caused(f, trace, channel, nRFC)
    {
    }
  }

  /// All pending refreshes end after `now`.
  ghost predicate NoneDue(future: seq<FutureAction>, now: int) {
    forall f :: f in future ==> now < f.due
  }

  class Device {
    const v: Timings
    const org: Org
    const channel: nat
    const table: ConsTable
    const spec: Spec
    const root: Node

    var clk: nat
    var ranks: seq<Rank>
    var future: seq<FutureAction>

    ghost var trace: seq<Event>
    ghost var hist: seq<History>

    ghost predicate Fixed() {
      && v.nRFC >= 2
      && Rectangular(table, NUM_LEVELS, NUM_CMDS) && HasKeyEntries(v, table)
      && spec == DeviceSpec(org, table) && GoodTable(spec, table)
      && root.Valid() && root.spec == spec && root.level == 0 && root.path == [channel]
    }

    ghost predicate TimingOk()
      reads this`clk, this`trace, root.Repr
    {
      && Fixed() && root.AllReflect(trace)
      && Legal(spec, [channel], trace)
      && forall j :: 0 <= j < |trace| ==> trace[j].clk <= clk && trace[j].cons == table
    }

    ghost predicate RanksOk(now: int, earliest: int)
      reads this`clk, this`ranks, this`future, this`hist, this`trace
    {
      && HasRanks() && |hist| == org.ranks
      && Books(ranks, future, hist, now, v.nRFC, |ranks|)
      && (forall r :: 0 <= r < |hist| ==> hist[r].lastRef <= clk)
      && FutureOk(future, org.ranks, earliest, trace, channel, v.nRFC)
    }

    ghost predicate Valid()
      reads this, root.Repr
    {
      TimingOk() && Pending() && Counted(trace, future, hist, channel, |hist|) && RowsOk()
    }

    /// The open rows are those that the trace leaves open, and every column access found its own row open.
    ghost predicate RowsOk()
      reads this`ranks, this`trace
    {
      StatesFollow(org, ranks, trace) && AllFindTheirRows(trace)
    }

    predicate InRange(addr: seq<int>, final: nat) {
      Addresses(addr, final, org) && addr[CHANNEL] == channel
    }

    function FlatBank(addr: seq<int>, final: nat): (b: nat)
      requires InRange(addr, final)
      ensures final != REFAB ==> b < BankCount(org)
    {
      if final == REFAB then 0 else BankNumber(org, addr[BANKGROUP], addr[BANK])
    }

    predicate HasRanks()
      reads this`ranks
    {
      |ranks| == org.ranks && forall r :: 0 <= r < |ranks| ==> |ranks[r].banks| == BankCount(org)
    }

    function GetPreq(final: nat, addr: seq<int>): nat
      requires HasRanks() && InRange(addr, final)
      reads this`ranks
    {
      Next(ranks[addr[RANK]].banks, final, FlatBank(addr, final), addr[ROW])
    }

    lemma {:induction false} AddressIsGood(addr: seq<int>, final: nat)
      requires Fixed() && InRange(addr, final)
      ensures GoodAddress(spec, addr)
    {
    }

    predicate CheckReady(cmd: nat, addr: seq<int>, ghost final: nat)
      requires Valid() && cmd < NUM_CMDS && InRange(addr, final)
      reads this, root.Repr
    {
      AddressIsGood(addr, final);
      root.AllReadyFromReflect(trace);
      root.CheckReady(cmd, addr, clk)
    }

    lemma {:induction false} ActWaitsForRefresh(addr: seq<int>, final: nat, j: nat)
      requires Valid() && InRange(addr, final) && CheckReady(ACT, addr, final)
      requires j < |trace| && RefreshOf(trace[j], channel, addr[RANK])
      ensures trace[j].clk + v.nRFC <= clk
    {
      var p := [channel, addr[RANK]];
      AddressIsGood(addr, final);
      root.AllReadyFromReflect(trace);
      root.CheckReadyExact(trace, ACT, addr, clk);
      assert Visited(spec, [channel], ACT, addr, p);
      hide EventAllows, Allowed, GoodTable, Legal;
      AllowedAfter(trace, j, p, TimingCons(ACT, v.nRFC, 1, false), clk);
    }

    /// An activate that is ready finds no refresh of its rank still running.
    lemma {:induction false} ActMeansNoRefresh(addr: seq<int>, final: nat)
      requires Valid() && InRange(addr, final) && CheckReady(ACT, addr, final)
      ensures Dues(future, addr[RANK]) == []
    {
      var r := addr[RANK];
      if Dues(future, r) != [] {
        var d := Dues(future, r)[0];
        DuesSound(future, r, d);
        assert Caused(FutureAction(r, d), trace, channel, v.nRFC);
        var j :| 0 <= j < |trace| && RefreshOf(trace[j], channel, r) && trace[j].clk + v.nRFC - 1 == d;
        ActWaitsForRefresh(addr, final, j);
        assert false;
      }
    }

    constructor (v: Timings, org: Org, channel: nat)
      requires v.nRFC >= 2
      ensures Valid() && fresh(root.Repr)
      ensures this.v == v && this.org == org && this.channel == channel && clk == 0
      ensures trace == [] && hist == seq(org.ranks, _ => NO_HISTORY) && future == []
      ensures ranks == FreshRanks(org) && Built(v, table)
    {
      var table := BuildTable(v, org);
      var spec := Spec(NUM_CMDS, ROW, [1, org.ranks, org.bankGroups, org.banks], SCOPES, table);
      var root := new Node(spec, 0, channel, [channel]);
      this.v, this.org, this.channel, this.table, this.spec, this.root := v, org, channel, table, spec, root;
      this.clk := 0;
      this.ranks := FreshRanks(org);
      this.future := [];
      this.trace := [];
      this.hist := seq(org.ranks, _ => NO_HISTORY);
      new;
      InitiallyValid();
    }

    lemma {:induction false} InitiallyValid()
      requires Fixed() && root.AllReflect([]) && clk == 0 && trace == [] && future == []
      requires ranks == FreshRanks(org) && hist == seq(org.ranks, _ => NO_HISTORY)
      ensures Valid()
    {
      hide RankOk, InState, GoodTable, Rectangular, HasKeyEntries;
      FreshRankOk(BankCount(org), v.nRFC);
      BooksFrom(ranks, [], hist, 0, v.nRFC, |ranks|);
      CountedFrom([], [], hist, channel, |ranks|);
      NothingOpen(org, ranks);
      assert TimingOk();
      assert Pending();
    }

    /// The rank's accounting and states after one command, in the source's order: power first, then states.
    method StepRank(r: nat, cmd: nat, b: nat, row: int) returns (rank: Rank)
      requires r < |ranks| && (cmd in {ACT, PRE, RDA, WRA} ==> b < |ranks[r].banks|)
      ensures rank == RankStep(ranks[r], cmd, b, row, clk) && |rank.banks| == |ranks[r].banks|
    {
      var open := CountState(ranks[r].banks, Opened);
      var refreshing := CountState(ranks[r].banks, Refreshing);
      var power := PowerStep(ranks[r].power, open, refreshing, cmd, clk);
      rank := Rank(Action(ranks[r].banks, cmd, b, row), power);
    }

    method Store(r: nat, rank: Rank, more: seq<FutureAction>, ghost h: History)
      requires Pending() && r < |ranks| && |rank.banks| == |ranks[r].banks| && h.lastRef <= clk
      requires more == [] || (|more| == 1 && more[0].rank == r)
      requires RankOk(rank, Dues(future + more, r), h, clk, v.nRFC)
      requires FutureOk(future + more, org.ranks, clk + 1, trace, channel, v.nRFC)
      modifies this`ranks, this`future, this`hist
      ensures Pending()
      ensures ranks == old(ranks)[r := rank] && hist == old(hist)[r := h] && future == old(future) + more
    {
      hide RankOk, Dues;
      DuesOfOthers(future, more, r);
      BooksUpdate(ranks, future, future + more, hist, clk, v.nRFC, r, rank, h);
      ranks, future, hist := ranks[r := rank], future + more, hist[r := h];
    }

    ghost predicate Issuable(cmd: nat, addr: seq<int>, final: nat)
      reads this, root.Repr
    {
      Valid() && final in FINALS && cmd < NUM_CMDS && InRange(addr, final) &&
      cmd == GetPreq(final, addr) && CheckReady(cmd, addr, final)
    }

    ghost function HistoryAfter(cmd: nat, addr: seq<int>, final: nat): History
      requires HasRanks() && |hist| == org.ranks && InRange(addr, final) && final in FINALS &&
               cmd == GetPreq(final, addr)
      reads this
    {
      var r := addr[RANK];
      Remember(hist[r], ranks[r], Dues(future, r), cmd, FlatBank(addr, final), clk, v.nRFC)
    }

    function RankAfter(cmd: nat, addr: seq<int>, final: nat): Rank
      requires HasRanks() && InRange(addr, final) && final in FINALS && cmd == GetPreq(final, addr)
      reads this
    {
      RankStep(ranks[addr[RANK]], cmd, FlatBank(addr, final), addr[ROW], clk)
    }

    ghost predicate Pending()
      reads this`clk, this`ranks, this`future, this`hist, this`trace
    {
      v.nRFC >= 2 && RanksOk(clk, clk + 1)
    }

    lemma {:induction false} IssueKeepsRank(cmd: nat, addr: seq<int>, final: nat, more: seq<FutureAction>)
      requires Pending() && InRange(addr, final) && final in FINALS && cmd == GetPreq(final, addr)
      requires cmd == ACT ==> Dues(future, addr[RANK]) == []
      requires more == if cmd == REFAB then [FutureAction(addr[RANK], clk + v.nRFC - 1)] else []
      ensures HistoryAfter(cmd, addr, final).lastRef <= clk
      ensures RankOk(RankAfter(cmd, addr, final), Dues(future + more, addr[RANK]), HistoryAfter(cmd, addr, final), clk,
                     v.nRFC)
    {
      hide RankOk, Next, RankStep;
      var r := addr[RANK];
      forall d | d in Dues(future, r) ensures clk < d {
        DuesSound(future, r, d);
      }
      BooksAt(ranks, future, hist, clk, v.nRFC, |ranks|, r);
      StepKeeps(ranks[r], final, FlatBank(addr, final), addr[ROW], Dues(future, r), hist[r], clk, v.nRFC);
      DuesMore(future, more, r);
    }

    lemma {:induction false} IssueKeepsTrace(cmd: nat, addr: seq<int>, final: nat)
      requires Issuable(cmd, addr, final)
      ensures GoodEvent(spec, Event(cmd, addr, clk, table))
      ensures Legal(spec, [channel], trace + [Event(cmd, addr, clk, table)])
    {
      AddressIsGood(addr, final);
      root.AllReadyFromReflect(trace);
      root.CheckReadyExact(trace, cmd, addr, clk);
      LegalOneMore(spec, [channel], trace, Event(cmd, addr, clk, table));
    }

    method IssueTiming(cmd: nat, addr: seq<int>, ghost final: nat)
      requires Issuable(cmd, addr, final)
      modifies this`trace, root.Repr
      ensures TimingOk() && Pending()
      ensures trace == old(trace) + [Event(cmd, addr, clk, table)]
    {
      hide Legal, GoodTable, Rectangular, HasKeyEntries, Books, RankOk, Counted, Dues, GoodEvent, FutureOk;
      IssueKeepsTrace(cmd, addr, final);
      root.UpdateTiming(cmd, addr, clk, table, trace);
      FutureStep(future, org.ranks, clk + 1, trace, Event(cmd, addr, clk, table), channel, v.nRFC);
      trace := trace + [Event(cmd, addr, clk, table)];
    }

    method IssueRank(cmd: nat, addr: seq<int>, ghost final: nat)
      requires Pending() && InRange(addr, final) && final in FINALS && cmd == GetPreq(final, addr)
      requires cmd == ACT ==> Dues(future, addr[RANK]) == []
      requires trace != [] && trace[|trace| - 1] == Event(cmd, addr, clk, table)
      modifies this`ranks, this`future, this`hist
      ensures Pending()
      ensures future == old(future) + (if cmd == REFAB then [FutureAction(addr[RANK], clk + v.nRFC - 1)] else [])
      ensures ranks == old(ranks)[addr[RANK] := old(RankAfter(cmd, addr, final))]
      ensures hist == old(hist)[addr[RANK] := old(HistoryAfter(cmd, addr, final))]
    {
      hide RankStep, Books, Remember, Next, RankOk;
      var r := addr[RANK];
      var b := if addr[BANK] < 0 then 0 else addr[BANKGROUP] * org.banks + addr[BANK];
      assert b == FlatBank(addr, final);
      var more := if cmd == REFAB then [FutureAction(r, clk + v.nRFC - 1)] else [];
      IssueKeepsRank(cmd, addr, final, more);
      FutureMore(future, more, org.ranks, trace, channel, v.nRFC, r);
      var rank := StepRank(r, cmd, b, addr[ROW]);
      Store(r, rank, more, HistoryAfter(cmd, addr, final));
    }

    lemma {:induction false} RankIsOk(r: nat)
      requires Valid() && r < |ranks|
      ensures |hist| == |ranks| && RankOk(ranks[r], Dues(future, r), hist[r], clk, v.nRFC)
    {
      hide TimingOk, RankOk, Books, Counted, FutureOk;
      BooksAt(ranks, future, hist, clk, v.nRFC, |ranks|, r);
    }

    /// On the way to anything but closing a row no precharge reaches a closed bank.
    lemma {:induction false} NoStray(cmd: nat, addr: seq<int>, final: nat)
      requires Pending() && InRange(addr, final) && final in FINALS && cmd == GetPreq(final, addr)
      ensures final != PRE ==> HistoryAfter(cmd, addr, final).stray == hist[addr[RANK]].stray
    {
      hide RankOk, Next, Remember;
      var r := addr[RANK];
      BooksAt(ranks, future, hist, clk, v.nRFC, |ranks|, r);
      NoStrayPrecharge(ranks[r], final, FlatBank(addr, final), addr[ROW], Dues(future, r), hist[r], clk, v.nRFC);
    }

    /// Issuing the next command of a request keeps the open rows with the trace.
    lemma {:induction false} IssueFollows(cmd: nat, addr: seq<int>, final: nat)
      requires Pending() && RowsOk() && InRange(addr, final) && final in FINALS && cmd == GetPreq(final, addr)
      ensures StatesFollow(org, ranks[addr[RANK] := RankAfter(cmd, addr, final)],
                           trace + [Event(cmd, addr, clk, table)])
      ensures AllFindTheirRows(trace + [Event(cmd, addr, clk, table)])
    {
      hide StatesFollow, AllFindTheirRows, Next, Books, FutureOk, PowerStep;
      var r := addr[RANK];
      BooksAt(ranks, future, hist, clk, v.nRFC, |ranks|, r);
      NextFollows(org, ranks, Dues(future, r), trace, Event(cmd, addr, clk, table), final, FlatBank(addr, final),
                  RankAfter(cmd, addr, final));
    }

    /// Issue a command that was found ready and that is the next one towards `final`.
    method Issue(cmd: nat, addr: seq<int>, ghost final: nat)
      requires Issuable(cmd, addr, final)
      modifies this`ranks, this`future, this`trace, this`hist, root.Repr
      ensures Valid()
      ensures trace == old(trace) + [Event(cmd, addr, clk, table)]
      ensures future == old(future) + (if cmd == REFAB then [FutureAction(addr[RANK], clk + v.nRFC - 1)] else [])
      ensures ranks == old(ranks)[addr[RANK] := old(RankAfter(cmd, addr, final))]
      ensures hist == old(hist)[addr[RANK] := old(HistoryAfter(cmd, addr, final))]
    {
      hide TimingOk, RankOk, RankStep, Remember, FutureOk, Books, Counted, Dues, Next, StatesFollow, AllFindTheirRows;
      if cmd == ACT { ActMeansNoRefresh(addr, final); }
      CountedIssue(trace, future, hist, channel, Event(cmd, addr, clk, table), addr[RANK],
                   if cmd == REFAB then [FutureAction(addr[RANK], clk + v.nRFC - 1)] else [],
                   HistoryAfter(cmd, addr, final));
      IssueFollows(cmd, addr, final);
      IssueTiming(cmd, addr, final);
      IssueRank(cmd, addr, final);
    }

    /// Everything but the pending refresh ends that fall due right now has its place at clock clk.
    ghost predicate Ticking(i: nat)
      reads this
    {
      && i <= |future| && RanksOk(clk, clk) && Counted(trace, future, hist, channel, |hist|)
      && forall f :: f in future[i..] ==> clk < f.due
    }

    /// One entry of the future-action scan.
    method HandleFuture(i: nat)
      requires v.nRFC >= 2 && i < |future| && Ticking(i + 1)
      modifies this`ranks, this`future, this`hist
      ensures Ticking(i) && BanksOnlyClose(old(ranks)) && OnlyDone(old(hist))
      ensures clk < old(future[i].due) ==> ranks == old(ranks) && future == old(future) && hist == old(hist)
    {
      hide RankOk, RankStep, Hits, Matches, Books, Counted, Dues;
      var f := future[i];
      if f.due == clk {
        assert f in future;
        RefreshEnds(ranks, future, hist, clk, v.nRFC, i);
        CountedEnd(trace, future, hist, channel, i);
        var rank := StepRank(f.rank, REFAB_END, 0, 0);
        ghost var h := hist[f.rank].(done := hist[f.rank].done + 1);
        var rest := future[..i] + future[i + 1..];
        ranks, future, hist := ranks[f.rank := rank], rest, hist[f.rank := h];
        assert rest[i..] == old(future)[i + 1..];
      } else {
        assert future[i..] == [f] + future[i + 1..];
      }
    }

    /// Refreshes may have been finished, and nothing else happened.
    ghost predicate OnlyDone(before: seq<History>)
      reads this
    {
      |hist| == |before| && forall r :: 0 <= r < |hist| ==> hist[r] == before[r].(done := hist[r].done)
    }

    /// No precharge went astray.
    ghost predicate SameStrays(before: seq<History>)
      reads this`hist
    {
      |hist| == |before| && forall r :: 0 <= r < |hist| ==> hist[r].stray == before[r].stray
    }

    /// No open bank was touched and none was opened.
    predicate BanksOnlyClose(before: seq<Rank>)
      reads this
    {
      |ranks| == |before| &&
      (forall r :: 0 <= r < |ranks| ==> |ranks[r].banks| == |before[r].banks|) &&
      (forall r, b :: 0 <= r < |ranks| && 0 <= b < |ranks[r].banks| ==>
        ranks[r].banks[b] == before[r].banks[b] ||
        (before[r].banks[b].state != Opened && ranks[r].banks[b].state != Opened))
    }

    method AdvanceClock()
      requires Valid()
      modifies this`clk, this`hist
      ensures TimingOk() && Ticking(|future|) && clk == old(clk) + 1
      ensures hist == AllAged(old(hist), ranks, future)
    {
      hide RankOk, GoodTable, Rectangular, Hits;
      BooksLater(ranks, future, hist, clk, v.nRFC, |ranks|);
      CountedSame(trace, future, hist, AllAged(hist, ranks, future), channel, |hist|);
      clk := clk + 1;
      hist := AllAged(hist, ranks, future);
    }

    /// The device's clock tick: refreshes that end now close their rank's banks, and no open bank among them.
    method Tick()
      requires Valid()
      modifies this`clk, this`ranks, this`future, this`hist
      ensures Valid() && clk == old(clk) + 1 && |old(hist)| == |old(ranks)|
      ensures BanksOnlyClose(old(ranks)) && OnlyDone(AllAged(old(hist), old(ranks), old(future)))
      ensures NoneDue(old(future), clk) ==>
        ranks == old(ranks) && future == old(future) && hist == AllAged(old(hist), ranks, future)
    {
      hide TimingOk, RankOk, Books, Counted, HasRanks, StatesFollow, AllFindTheirRows;
      ghost var before := ranks;
      AdvanceClock();
      ScanFuture();
      assert future[0..] == future;
      SameOpenRows(org, before, ranks, trace);
    }

    method ScanFuture()
      requires Ticking(|future|) && v.nRFC >= 2
      modifies this`ranks, this`future, this`hist
      ensures Ticking(0) && BanksOnlyClose(old(ranks)) && OnlyDone(old(hist))
      ensures NoneDue(old(future), clk) ==> ranks == old(ranks) && future == old(future) && hist == old(hist)
    {
      hide RankOk, Counted, Books, FutureOk;
      var i := |future|;
      while i > 0
        invariant 0 <= i <= |future| && Ticking(i)
        invariant BanksOnlyClose(old(ranks)) && OnlyDone(old(hist))
        invariant NoneDue(old(future), clk) ==> ranks == old(ranks) && future == old(future) && hist == old(hist)
        decreases i
      {
        i := i - 1;
        HandleFuture(i);
      }
    }

    /// End of the simulation.  The active and the idle cycles are the clocks so far at which a bank of the rank was
    /// open and those at which none was and no refresh was running, up to the drift of each book; both are exact if
    /// and only if no precharge charged time a second time, no refresh booked refreshing time as idle, and the
    /// present stretch is not booked astray.  Outside a refresh their sum is ahead of the clock by the drift, which is
    /// zero exactly if no two refreshes overlapped and no precharge charged time a second time.
    method FinalizeRank(r: nat) returns (p: Power)
      requires Valid() && r < |ranks|
      ensures |hist| == |ranks|
      ensures var h, open := hist[r], AnyOpen(ranks[r].banks);
              var astray := BookedAstray(Counts(ranks[r].banks).0, ranks[r].power, Dues(future, r), clk);
              p.active == h.openTicks + h.activeDrift - (if open then astray else 0) &&
              p.idle == h.idleTicks + h.idleDrift + astray &&
              (p.active == h.openTicks && p.idle == h.idleTicks <==>
                h.recharged == 0 && h.rebooked == 0 && astray == 0) &&
              (h.stray == 0 && h.overlaps == 0 ==> p.active == h.openTicks && p.idle == h.idleTicks)
      ensures Dues(future, r) == [] ==>
              var h := hist[r];
              p.active + p.idle + (v.nRFC - 1) * |Hits(trace, [channel, r], REFAB)| == clk + h.drift &&
              h.drift >= 0 && (h.drift == 0 <==> h.overlaps == 0 && h.recharged == 0) &&
              (h.stray == 0 ==> h.recharged == 0)
    {
      hide TimingOk, RankOk, FutureOk, Books, Counted, Hits, Dues, BookedAstray;
      BooksAt(ranks, future, hist, clk, v.nRFC, |ranks|, r);
      CountedAt(trace, future, hist, channel, |hist|, r);
      BooksApart(ranks[r], Dues(future, r), hist[r], clk, v.nRFC);
      if Dues(future, r) == [] {
        CyclesConserved(ranks[r], hist[r], clk, v.nRFC);
      }
      p := Finalize(ranks[r].power, clk);
    }

    /// In every reachable state, every read and write went to the row that its own bank was last opened on: an
    /// activate of that row comes before it, and no precharge or refresh of the bank in between.
    lemma {:induction false} ColumnFindsItsRow(k: nat)
      requires Valid() && k < |trace| && trace[k].cmd in {RD, WR}
      ensures exists j: nat :: OwnRowOpened(trace, j, k)
    {
      hide TimingOk, Pending, Counted, StatesFollow, FindsItsRow, OwnRowOpened;
      assert FindsItsRow(trace, k);
      OwnRowWasOpened(trace, k);
    }

    /// In every reachable state a bank is open on a row exactly if it was opened there and not closed since.
    lemma {:induction false} OpenMeansOpened(at: Place, row: int)
      requires Valid() && InOrg(at, org)
      ensures |ranks| == org.ranks
      ensures OpenOn(ranks[at.rank].banks, BankNumber(org, at.bg, at.bank), row) <==> OpenSince(trace, at, row)
    {
      hide TimingOk, Pending, Counted, AllFindTheirRows;
    }

    /// In every reachable state, any five activates of one rank span at least nFAW.
    lemma {:induction false} FourActivateWindow(r: nat, i: nat)
      requires Valid() && r < org.ranks && i + 4 < |Hits(trace, [channel, r], ACT)|
      ensures Hits(trace, [channel, r], ACT)[i] + v.nFAW <= Hits(trace, [channel, r], ACT)[i + 4]
    {
      WindowSafety(spec, [channel], trace, [channel, r], TimingCons(ACT, v.nFAW, 4, false), i);
    }

    /// In every reachable state, any two activates of one bank are at least nRC apart.
    lemma {:induction false} RowCycle(r: nat, bg: nat, bank: nat, i: nat)
      requires Valid() && r < org.ranks && bg < org.bankGroups && bank < org.banks
      requires i + 1 < |Hits(trace, [channel, r, bg, bank], ACT)|
      ensures Hits(trace, [channel, r, bg, bank], ACT)[i] + v.nRC <= Hits(trace, [channel, r, bg, bank], ACT)[i + 1]
    {
      WindowSafety(spec, [channel], trace, [channel, r, bg, bank], TimingCons(ACT, v.nRC, 1, false), i);
    }
  }

  /// Nothing in the table keeps a refresh away from another refresh.
  lemma {:induction false} NoRefreshToRefresh(v: Timings, table: ConsTable, l: nat, t: TimingCons)
    requires Rectangular(table, NUM_LEVELS, NUM_CMDS) && Built(v, table)
    requires l < NUM_LEVELS && t in table[l][REFAB]
    ensures t.cmd != REFAB
  {
    assert AskedBy(Constraints(v), l, REFAB, t);
    var i :| 0 <= i < |Constraints(v)| && Asks(Constraints(v)[i], l, REFAB, t);
  }

  /// Handling a due entry ends its rank's refresh, finds no bank open there, and keeps the books.
  lemma {:induction false} RefreshEnds(ranks: seq<Rank>, future: seq<FutureAction>, hist: seq<History>, now: int,
                                       nRFC: int, i: nat)
    requires i < |future| && future[i].due == now && future[i].rank < |ranks| == |hist|
    requires Books(ranks, future, hist, now, nRFC, |ranks|)
    ensures var r := future[i].rank;
            !AnyOpen(ranks[r].banks) && !AnyOpen(RankStep(ranks[r], REFAB_END, 0, 0, now).banks) &&
            Books(ranks[r := RankStep(ranks[r], REFAB_END, 0, 0, now)], future[..i] + future[i + 1..],
                  hist[r := hist[r].(done := hist[r].done + 1)], now, nRFC, |ranks|)
  {
    hide RankOk, RankStep, Dues, Books, AnyOpen;
    var r := future[i].rank;
    BooksAt(ranks, future, hist, now, nRFC, |ranks|, r);
    DuesErase(future, i, r);
    RefEndKeeps(ranks[r], Dues(future, r), |Dues(future[..i], r)|, hist[r], nRFC);
    forall q: nat | q != r ensures Dues(future[..i] + future[i + 1..], q) == Dues(future, q) {
      DuesErase(future, i, q);
    }
    BooksUpdate(ranks, future, future[..i] + future[i + 1..], hist, now, nRFC, r,
                RankStep(ranks[r], REFAB_END, 0, 0, now), hist[r].(done := hist[r].done + 1));
  }

  /// Every rank's history after one clock in which it stayed as it is.
  ghost function AllAged(hist: seq<History>, ranks: seq<Rank>, future: seq<FutureAction>): (r: seq<History>)
    requires |hist| == |ranks|
    ensures |r| == |hist|
  {
    seq(|hist|, r requires 0 <= r < |hist| => Aged(hist[r], ranks[r].banks, Dues(future, r), 1))
  }

  /// The clock moves on with nothing due.
  lemma {:induction false} RankLater(r: Rank, dues: seq<int>, h: History, now: int, nRFC: int)
    requires RankOk(r, dues, h, now, nRFC) && forall d :: d in dues ==> now < d
    ensures RankOk(r, dues, Aged(h, r.banks, dues, 1), now + 1, nRFC)
  {
    hide Counts, RefreshCycles;
    CountsOk(r.banks, dues);
  }

  lemma {:induction false} CountedSame(trace: seq<Event>, future: seq<FutureAction>, hist: seq<History>,
                                       hist': seq<History>, channel: nat, k: nat)
    requires k <= |hist| == |hist'| && Counted(trace, future, hist, channel, k)
    requires forall r :: 0 <= r < k ==> hist'[r].done == hist[r].done
    ensures Counted(trace, future, hist', channel, k)
  {
    if k > 0 { CountedSame(trace, future, hist, hist', channel, k - 1); }
  }

  lemma {:induction false} BooksLater(ranks: seq<Rank>, future: seq<FutureAction>, hist: seq<History>, now: int,
                                      nRFC: int, k: nat)
    requires k <= |ranks| == |hist| && Books(ranks, future, hist, now, nRFC, k)
    requires forall f :: f in future ==> now < f.due
    ensures Books(ranks, future, AllAged(hist, ranks, future), now + 1, nRFC, k)
  {
    hide RankOk, Dues;
    if k > 0 {
      BooksLater(ranks, future, hist, now, nRFC, k - 1);
      var dues := Dues(future, k - 1);
      forall d | d in dues ensures now < d {
        DuesSound(future, k - 1, d);
      }
      RankLater(ranks[k - 1], dues, hist[k - 1], now, nRFC);
    }
  }

  lemma {:induction false} FreshRankOk(banks: nat, nRFC: int)
    requires nRFC >= 2
    ensures RankOk(FreshRank(banks), [], NO_HISTORY, 0, nRFC)
  {
    assert InState(FreshRank(banks).banks, Opened) == {};
  }

  method BuildTable(v: Timings, ghost org: Org) returns (table: ConsTable)
    ensures Rectangular(table, NUM_LEVELS, NUM_CMDS) && Built(v, table)
    ensures HasKeyEntries(v, table) && GoodTable(DeviceSpec(org, table), table)
  {
    table := PopulateTimingCons(NUM_LEVELS, NUM_CMDS, Constraints(v));
    KeyEntries(v, table);
    TableIsGood(Constraints(v), NUM_LEVELS, DeviceSpec(org, table), table);
  }
}
