/** Two runs of a new DDR4 device in which the cycle accounting gets ahead of the clock, although the timing tree
    and the prerequisites let every command through.  */
module Ddr4Runs {
  import opened Bits
  import opened Timing
  import opened Ddr4Rank
  import opened Ddr4
  import opened OpenRows

  // ---------- what the table asks of a refresh and of a precharge ----------

  /// Activates and precharges hold a precharge off only in their own bank, and only nRAS after an activate.
  lemma {:induction false} BeforePrecharge(v: Timings, table: ConsTable, l: nat, p: nat, t: TimingCons)
    requires Rectangular(table, NUM_LEVELS, NUM_CMDS) && Built(v, table)
    requires l < NUM_LEVELS && p in {ACT, PRE} && t in table[l][p] && t.cmd == PRE
    ensures p == ACT && l == BANK && t == TimingCons(PRE, v.nRAS, 1, false)
  {
    assert AskedBy(Constraints(v), l, p, t);
    var i :| 0 <= i < |Constraints(v)| && Asks(Constraints(v)[i], l, p, t);
  }

  /// The entries that one earlier command triggers let the command through at clock x.
  ghost predicate LetsPass(table: ConsTable, e: Event, cmd: nat, addr: seq<int>, x: int) {
    e.cmd < NUM_CMDS && |e.addr| == NUM_LEVELS == |addr| && Rectangular(table, NUM_LEVELS, NUM_CMDS) &&
    forall l, t :: 0 <= l < NUM_LEVELS && t in table[l][e.cmd] && t.cmd == cmd ==>
      !t.sibling && t.window == 1 && (e.clk + t.val <= x || !SameNode(e.addr, addr, l))
  }

  /// The two addresses go through the same node of a level, as far as both say.
  ghost predicate SameNode(a: seq<int>, b: seq<int>, l: nat)
    requires l < |a| && l < |b|
  {
    forall i :: 0 <= i <= l ==> a[i] == -1 || b[i] == -1 || a[i] == b[i]
  }

  lemma {:induction false} PassedEvent(d: Device, j: nat, p: seq<nat>, cmd: nat, addr: seq<int>)
    requires d.Fixed() && d.channel >= 0 && |addr| == NUM_LEVELS && addr[CHANNEL] == d.channel && j < |d.trace|
    requires d.trace[j].cons == d.table && LetsPass(d.table, d.trace[j], cmd, addr, d.clk)
    requires [d.channel] <= p && |p| <= ROW && forall i :: 1 <= i < |p| ==> addr[i] == -1 || addr[i] == p[i]
    ensures EventAllows(d.trace, j, p, cmd, d.clk)
  {
    hide Hits, HasKeyEntries, GoodTable;
    var e, l := d.trace[j], |p| - 1;
    forall t | t in e.cons[l][e.cmd] ensures EntryAllows(t, d.trace, j, p, cmd, d.clk) {
      if t.cmd == cmd && Matches(p, e.addr) {
        NewestHit(d.trace, j, p);
        assert SameNode(e.addr, addr, l);
      }
    }
  }

  /// A command that every earlier one lets pass is ready.
  lemma {:induction false} ReadyIfPassed(d: Device, cmd: nat, addr: seq<int>, final: nat)
    requires d.Valid() && cmd < NUM_CMDS && d.InRange(addr, final)
    requires forall j :: 0 <= j < |d.trace| ==> LetsPass(d.table, d.trace[j], cmd, addr, d.clk)
    ensures d.CheckReady(cmd, addr, final)
  {
    hide Legal, GoodTable, HasKeyEntries, Books, Counted, FutureOk, EventAllows;
    d.AddressIsGood(addr, final);
    d.root.AllReadyFromReflect(d.trace);
    d.root.CheckReadyExact(d.trace, cmd, addr, d.clk);
    forall p | Visited(d.spec, [d.channel], cmd, addr, p) ensures Allowed(d.trace, p, cmd, d.clk) {
      forall j | 0 <= j < |d.trace| ensures EventAllows(d.trace, j, p, cmd, d.clk) {
        assert LetsPass(d.table, d.trace[j], cmd, addr, d.clk);
        PassedEvent(d, j, p, cmd, addr);
      }
    }
  }

  /// The device's clock runs on to x with no command.  A rank with no open bank has none then either.
  method RunTo(d: Device, x: nat)
    requires d.Valid() && d.clk <= x
    modifies d`clk, d`ranks, d`future, d`hist
    ensures d.Valid() && d.clk == x && d.BanksOnlyClose(old(d.ranks)) && OnlyLater(old(d.ranks), old(d.hist), d.hist)
    ensures NoneDue(old(d.future), x) ==> d.ranks == old(d.ranks) && d.future == old(d.future)
    ensures NoneDue(old(d.future), x) ==>
              Stayed(old(d.hist), d.hist, old(d.ranks), old(d.future), x - old(d.clk))
  {
    hide Device.TimingOk, Device.Pending, Counted, Device.RowsOk, Dues, AnyOpen;
    HistorySize(d);
    AgedNone(d.hist, d.ranks, d.future);
    while d.clk < x
      invariant d.Valid() && old(d.clk) <= d.clk <= x && d.BanksOnlyClose(old(d.ranks))
      invariant OnlyLater(old(d.ranks), old(d.hist), d.hist)
      invariant NoneDue(old(d.future), x) ==> d.ranks == old(d.ranks) && d.future == old(d.future)
      invariant NoneDue(old(d.future), x) ==>
                  Stayed(old(d.hist), d.hist, old(d.ranks), old(d.future), d.clk - old(d.clk))
    {
      ghost var ranks, future, hist := d.ranks, d.future, d.hist;
      NoneOpens(d, old(d.ranks));
      d.Tick();
      LaterOn(old(d.ranks), old(d.hist), ranks, future, hist, d.hist);
      if NoneDue(old(d.future), x) {
        StayedOn(old(d.hist), hist, d.hist, ranks, future, d.clk - 1 - old(d.clk));
      }
    }
  }

  lemma {:induction false} HistorySize(d: Device)
    requires d.Valid()
    ensures |d.hist| == |d.ranks| == d.org.ranks
  {
    hide Device.TimingOk, Device.RowsOk, Books, FutureOk, Counted;
  }

  lemma {:induction false} NoneOpens(d: Device, before: seq<Rank>)
    requires d.BanksOnlyClose(before)
    ensures forall r :: 0 <= r < |before| && AnyOpen(d.ranks[r].banks) ==> AnyOpen(before[r].banks)
  {
  }

  /// Histories in which no more than refreshes ended and clocks went by, none of them with an open bank for a rank
  /// that had none.
  ghost predicate OnlyLater(ranks: seq<Rank>, before: seq<History>, after: seq<History>) {
    |after| == |before| == |ranks| &&
    forall r :: 0 <= r < |after| ==>
      after[r] == before[r].(done := after[r].done, openTicks := after[r].openTicks, idleTicks := after[r].idleTicks) &&
      (AnyOpen(ranks[r].banks) || after[r].openTicks == before[r].openTicks)
  }

  /// All ranks stayed as they were for n clocks.
  ghost predicate Stayed(before: seq<History>, after: seq<History>, ranks: seq<Rank>, future: seq<FutureAction>,
                         n: nat) {
    |after| == |before| == |ranks| &&
    forall r :: 0 <= r < |after| ==> after[r] == Aged(before[r], ranks[r].banks, Dues(future, r), n)
  }

  lemma {:induction false} AgedNone(hist: seq<History>, ranks: seq<Rank>, future: seq<FutureAction>)
    requires |hist| == |ranks|
    ensures Stayed(hist, hist, ranks, future, 0) && OnlyLater(ranks, hist, hist)
  {
  }

  lemma {:induction false} StayedOn(before: seq<History>, hist: seq<History>, after: seq<History>, ranks: seq<Rank>,
                                    future: seq<FutureAction>, n: nat)
    requires Stayed(before, hist, ranks, future, n) && |hist| == |ranks| && after == AllAged(hist, ranks, future)
    ensures Stayed(before, after, ranks, future, n + 1)
  {
  }

  lemma {:induction false} LaterOn(first: seq<Rank>, before: seq<History>, ranks: seq<Rank>,
                                   future: seq<FutureAction>, hist: seq<History>, after: seq<History>)
    requires OnlyLater(first, before, hist) && |ranks| == |first| && |after| == |hist|
    requires forall r :: 0 <= r < |first| && AnyOpen(ranks[r].banks) ==> AnyOpen(first[r].banks)
    requires forall r :: 0 <= r < |after| ==> after[r] == AllAged(hist, ranks, future)[r].(done := after[r].done)
    ensures OnlyLater(first, before, after)
  {
    hide AnyOpen, Dues;
  }

  // ---------- two overlapping refreshes ----------

  function RefreshAddress(channel: nat, r: nat): seq<int> {
    var any: int := -1;
    [channel as int, r as int, any, any, any, any]
  }

  lemma {:induction false} NothingBeforeRefresh(d: Device, e: Event, addr: seq<int>)
    requires d.Fixed() && Built(d.v, d.table)
    requires e.cmd == REFAB && |e.addr| == NUM_LEVELS == |addr|
    ensures LetsPass(d.table, e, REFAB, addr, d.clk)
  {
    hide HasKeyEntries, GoodTable, Built;
    forall l, t | 0 <= l < NUM_LEVELS && t in d.table[l][REFAB] ensures t.cmd != REFAB {
      NoRefreshToRefresh(d.v, d.table, l, t);
    }
  }

  /// A rank with no open bank asks for nothing before a refresh.
  lemma {:induction false} RefreshIsNext(banks: seq<Bank>)
    requires forall i :: 0 <= i < |banks| ==> banks[i].state != Opened
    ensures Next(banks, REFAB, 0, -1) == REFAB
  {
    ScanDecides(banks, REFAB);
  }

  lemma {:induction false} RefreshIssuable(d: Device, r: nat)
    requires d.Valid() && r < d.org.ranks && Built(d.v, d.table)
    requires forall j :: 0 <= j < |d.trace| ==> d.trace[j].cmd == REFAB && |d.trace[j].addr| == NUM_LEVELS
    requires forall i :: 0 <= i < |d.ranks[r].banks| ==> d.ranks[r].banks[i].state != Opened
    ensures d.Issuable(REFAB, RefreshAddress(d.channel, r), REFAB)
  {
    hide Legal, GoodTable, HasKeyEntries, Books, Counted, FutureOk, Constraints, LetsPass;
    var addr := RefreshAddress(d.channel, r);
    forall j | 0 <= j < |d.trace| ensures LetsPass(d.table, d.trace[j], REFAB, addr, d.clk) {
      NothingBeforeRefresh(d, d.trace[j], addr);
    }
    RefreshIsNext(d.ranks[r].banks);
    ReadyIfPassed(d, REFAB, addr, REFAB);
  }

  /// Issuing a refresh to a rank with no open bank.
  method Refresh(d: Device, r: nat)
    requires d.Valid() && r < d.org.ranks && Built(d.v, d.table)
    requires forall j :: 0 <= j < |d.trace| ==> d.trace[j].cmd == REFAB && |d.trace[j].addr| == NUM_LEVELS
    requires forall i :: 0 <= i < |d.ranks[r].banks| ==> d.ranks[r].banks[i].state != Opened
    modifies d`ranks, d`future, d`trace, d`hist, d.root.Repr
    ensures d.Valid() && d.trace == old(d.trace) + [Event(REFAB, RefreshAddress(d.channel, r), d.clk, d.table)]
    ensures d.future == old(d.future) + [FutureAction(r, d.clk + d.v.nRFC - 1)]
    ensures d.ranks == old(d.ranks)[r := RankStep(old(d.ranks)[r], REFAB, 0, -1, d.clk)]
    ensures |old(d.hist)| == d.org.ranks && d.hist == old(d.hist)[r :=
              Remember(old(d.hist)[r], old(d.ranks)[r], Dues(old(d.future), r), REFAB, 0, d.clk, d.v.nRFC)]
  {
    hide Device.TimingOk, FutureOk, Books, Built, Counted, RankStep, Remember, Dues;
    RefreshIssuable(d, r);
    ghost var h := Remember(d.hist[r], d.ranks[r], Dues(d.future, r), REFAB, 0, d.clk, d.v.nRFC);
    assert d.HistoryAfter(REFAB, RefreshAddress(d.channel, r), REFAB) == h;
    d.Issue(REFAB, RefreshAddress(d.channel, r), REFAB);
  }

  /// What the two refreshes leave in the rank's books and history.
  lemma {:induction false} TwoRefreshes(banks: nat, c: nat, d: nat, nRFC: nat)
    requires c <= d < c + nRFC - 1
    ensures var r0 := FreshRank(banks);
            var r1 := RankStep(r0, REFAB, 0, -1, c);
            var r2 := RankStep(r1, REFAB, 0, -1, d);
            var h1 := Remember(Aged(NO_HISTORY, r0.banks, [], c), r0, [], REFAB, 0, c, nRFC);
            var h2 := Remember(Aged(h1, r1.banks, [c + nRFC - 1], d - c), r1, [c + nRFC - 1], REFAB, 0, d, nRFC);
            |r1.banks| == banks && (forall i :: 0 <= i < banks ==> r1.banks[i].state == Refreshing) &&
            h2.drift == c + nRFC - 1 && h2.activeDrift == 0 && h2.openTicks == 0 && !AnyOpen(r2.banks)
  {
  }

  /// Once all refreshes of the trace have had their time none is pending.
  lemma {:induction false} NonePending(d: Device, last: int, r: nat)
    requires d.Valid() && (forall j :: 0 <= j < |d.trace| ==> d.trace[j].clk <= last) && last + d.v.nRFC - 1 <= d.clk
    ensures Dues(d.future, r) == []
  {
    hide Device.TimingOk, Books, Counted, Dues, RefreshOf;
    if Dues(d.future, r) != [] {
      var due := Dues(d.future, r)[0];
      DuesSound(d.future, r, due);
      assert false;
    }
  }

  lemma {:induction false} OneDue(r: nat, due: int)
    ensures Dues([FutureAction(r, due)], r) == [due] && Dues([], r) == []
  {
    assert [FutureAction(r, due)][..0] == [];
  }

  /// The refreshes of a trace of two.
  lemma {:induction false} TwoHits(e: Event, f: Event, path: seq<nat>)
    requires e.cmd == f.cmd == REFAB && Matches(path, e.addr) && Matches(path, f.addr)
    ensures |Hits([e, f], path, REFAB)| == 2
  {
    HitsOneMore([], e, path, REFAB);
    HitsOneMore([e], f, path, REFAB);
    assert [] + [e] == [e] && [e] + [f] == [e, f];
  }

  lemma {:induction false} RefreshReaches(channel: nat, r: nat)
    ensures |RefreshAddress(channel, r)| == NUM_LEVELS && Matches([channel, r], RefreshAddress(channel, r))
  {
  }

  /// A new rank.
  lemma {:induction false} FreshBanks(banks: nat)
    ensures |FreshRank(banks).banks| == banks
    ensures forall i :: 0 <= i < banks ==> FreshRank(banks).banks[i].state == Closed
  {
  }

  method RefreshTwice(dev: Device, r: nat, c: nat, d: nat)
    requires dev.Valid() && r < dev.org.ranks && c <= d < c + dev.v.nRFC - 1 && Built(dev.v, dev.table)
    requires dev.clk == 0 && dev.trace == [] && dev.future == []
    requires dev.ranks == FreshRanks(dev.org) && dev.hist == seq(dev.org.ranks, _ => NO_HISTORY)
    modifies dev, dev.root.Repr
    ensures dev.Valid() && dev.clk == d && |dev.hist| == |dev.ranks| == dev.org.ranks
    ensures var e := Event(REFAB, RefreshAddress(dev.channel, r), c, dev.table); dev.trace == [e, e.(clk := d)]
    ensures dev.hist[r].drift == c + dev.v.nRFC - 1
    ensures dev.hist[r].activeDrift == 0 && dev.hist[r].openTicks == 0 && !AnyOpen(dev.ranks[r].banks)
  {
    hide Device.TimingOk, Built, Counted, RankStep, Remember, Dues, Hits, RefreshAddress, FreshRank;
    hide Books, FutureOk, Device.RowsOk, AnyOpen, Aged;
    OneDue(r, c + dev.v.nRFC - 1);
    TwoRefreshes(BankCount(dev.org), c, d, dev.v.nRFC);
    RefreshReaches(dev.channel, r);
    FreshBanks(BankCount(dev.org));
    RunTo(dev, c);
    Refresh(dev, r);
    assert dev.future == [FutureAction(r, c + dev.v.nRFC - 1)];
    RunTo(dev, d);
    Refresh(dev, r);
  }

  /// From a new device, two refreshes of one rank at c and d, the second before the first has ended: both are
  /// ready and next, and at the end the books are c + nRFC - 1 cycles ahead of the clock.
  method OverlapRun(v: Timings, org: Org, channel: nat, r: nat, c: nat, d: nat, end: nat)
    returns (dev: Device, p: Power)
    requires v.nRFC >= 2 && r < org.ranks && c <= d < c + v.nRFC - 1 && d + v.nRFC - 1 <= end
    ensures fresh(dev) && dev.Valid() && dev.v == v && dev.clk == end
    ensures var e := Event(REFAB, RefreshAddress(channel, r), c, dev.table); dev.trace == [e, e.(clk := d)]
    ensures p.active == 0 && p.idle + (v.nRFC - 1) * 2 == end + c + v.nRFC - 1
  {
    hide Device.TimingOk, Built, Counted, Dues, Hits, RefreshAddress, FreshRanks, Books, FutureOk;
    hide Device.RowsOk, AnyOpen, BookedAstray;
    dev := new Device(v, org, channel);
    RefreshTwice(dev, r, c, d);
    ghost var ranks := dev.ranks;
    RunTo(dev, end);
    NoneOpens(dev, ranks);
    NonePending(dev, d, r);
    RefreshReaches(channel, r);
    TwoHits(dev.trace[0], dev.trace[1], [channel, r]);
    p := dev.FinalizeRank(r);
  }

  // ---------- a precharge of a closed bank ----------

  function BankAddress(channel: nat, r: nat, bg: nat, bank: nat, row: int): seq<int> {
    [channel as int, r as int, bg as int, bank as int, row, 0]
  }

  /// A precharge passes every activate that went to another bank or is nRAS ago, and every precharge.
  lemma {:induction false} PrechargePasses(v: Timings, table: ConsTable, e: Event, addr: seq<int>, x: int)
    requires Rectangular(table, NUM_LEVELS, NUM_CMDS) && Built(v, table)
    requires e.cmd in {ACT, PRE} && |e.addr| == NUM_LEVELS == |addr|
    requires e.cmd == ACT ==> e.clk + v.nRAS <= x || !SameNode(e.addr, addr, BANK)
    ensures LetsPass(table, e, PRE, addr, x)
  {
    hide Constraints, SameNode;
    forall l, t | 0 <= l < NUM_LEVELS && t in table[l][e.cmd] && t.cmd == PRE
      ensures e.cmd == ACT && l == BANK && t == TimingCons(PRE, v.nRAS, 1, false)
    {
      BeforePrecharge(v, table, l, e.cmd, t);
    }
  }

  /// One command to one bank of a device with no refresh pending, at clock x.
  method SendAt(d: Device, x: nat, cmd: nat, addr: seq<int>, ghost r: nat, ghost b: nat)
    requires d.Valid() && d.clk <= x && cmd in {ACT, PRE} && d.InRange(addr, cmd) && d.GetPreq(cmd, addr) == cmd
    requires r == addr[RANK] && b == d.FlatBank(addr, cmd)
    requires forall j :: 0 <= j < |d.trace| ==> LetsPass(d.table, d.trace[j], cmd, addr, x)
    requires d.future == []
    modifies d`clk, d`ranks, d`future, d`trace, d`hist, d.root.Repr
    ensures d.Valid() && d.clk == x && d.future == [] && d.trace == old(d.trace) + [Event(cmd, addr, x, d.table)]
    ensures |old(d.ranks)| == |old(d.hist)| == d.org.ranks && b < |old(d.ranks)[r].banks|
    ensures d.ranks == old(d.ranks)[r := RankStep(old(d.ranks)[r], cmd, b, addr[ROW], x)]
    ensures |d.hist| == d.org.ranks && d.hist[r] ==
            Remember(Aged(old(d.hist)[r], old(d.ranks)[r].banks, [], x - old(d.clk)), old(d.ranks)[r], [], cmd, b, x,
                     d.v.nRFC)
  {
    hide Device.TimingOk, FutureOk, Books, Counted, RankStep, Remember, LetsPass, Device.RowsOk, Aged;
    RunTo(d, x);
    ReadyIfPassed(d, cmd, addr, cmd);
    ghost var h := Remember(d.hist[r], d.ranks[r], [], cmd, b, d.clk, d.v.nRFC);
    assert d.HistoryAfter(cmd, addr, cmd) == h;
    d.Issue(cmd, addr, cmd);
  }

  /// The banks along the way.
  lemma {:induction false} StrayStates(banks: nat, b0: nat, b1: nat, row: int, c: nat, d: nat, e: nat)
    requires b0 < banks && b1 < banks && b0 != b1 && c <= d <= e
    ensures var r0 := FreshRank(banks);
            var r1 := RankStep(r0, ACT, b0, row, c);
            var r2 := RankStep(r1, PRE, b1, row, d);
            var r3 := RankStep(r2, PRE, b0, row, e);
            |r0.banks| == |r1.banks| == |r2.banks| == banks &&
            Counts(r0.banks) == (0, 0) && Counts(r1.banks) == Counts(r2.banks) == (1, 0) &&
            !AnyOpen(r0.banks) && AnyOpen(r1.banks) && AnyOpen(r2.banks) && !AnyOpen(r3.banks) &&
            r0.banks[b0].state == Closed && r1.banks[b1].state == Closed && r2.banks[b0].state == Opened
  {
    hide PowerStep;
    var r0 := FreshRank(banks);
    var r1 := RankStep(r0, ACT, b0, row, c);
    var r2 := RankStep(r1, PRE, b1, row, d);
    assert InState(r0.banks, Opened) == {} && InState(r0.banks, Refreshing) == {};
    assert InState(r1.banks, Opened) == {b0} && InState(r1.banks, Refreshing) == {};
    assert InState(r2.banks, Opened) == {b0} && InState(r2.banks, Refreshing) == {};
    assert r1.banks[b0].state == Opened && r2.banks[b0].state == Opened;
  }

  /// What the activate and the two precharges leave in the rank's books and history.
  lemma {:induction false} StrayHistory(banks: nat, b0: nat, b1: nat, row: int, c: nat, d: nat, e: nat, nRFC: int)
    requires b0 < banks && b1 < banks && b0 != b1 && c <= d <= e
    ensures var r0 := FreshRank(banks);
            var r1 := RankStep(r0, ACT, b0, row, c);
            var r2 := RankStep(r1, PRE, b1, row, d);
            var h1 := Remember(Aged(NO_HISTORY, r0.banks, [], c), r0, [], ACT, b0, c, nRFC);
            var h2 := Remember(Aged(h1, r1.banks, [], d - c), r1, [], PRE, b1, d, nRFC);
            var h3 := Remember(Aged(h2, r2.banks, [], e - d), r2, [], PRE, b0, e, nRFC);
            |r0.banks| == |r1.banks| == |r2.banks| == banks &&
            r0.banks[b0].state == Closed && r1.banks[b1].state == Closed && r2.banks[b0].state == Opened &&
            h3.drift == h3.activeDrift == d - c && h3.openTicks == e - c &&
            !AnyOpen(RankStep(r2, PRE, b0, row, e).banks)
  {
    hide Counts, Action, AnyOpen;
    StrayStates(banks, b0, b1, row, c, d, e);
  }

  lemma {:induction false} NoRefreshHits(trace: seq<Event>, path: seq<nat>)
    requires forall j :: 0 <= j < |trace| ==> trace[j].cmd != REFAB
    ensures Hits(trace, path, REFAB) == []
  {
    if trace != [] { NoRefreshHits(trace[..|trace| - 1], path); }
  }

  lemma {:induction false} OtherBank(channel: nat, r: nat, bg0: nat, bank0: nat, bg1: nat, bank1: nat, row: int)
    requires bg0 != bg1 || bank0 != bank1
    ensures !SameNode(BankAddress(channel, r, bg0, bank0, row), BankAddress(channel, r, bg1, bank1, row), BANK)
  {
    var a, b := BankAddress(channel, r, bg0, bank0, row), BankAddress(channel, r, bg1, bank1, row);
    assert a[BANKGROUP] != b[BANKGROUP] || a[BANK] != b[BANK];
  }

  /// The address names a bank of the device, and its number within the rank.
  lemma {:induction false} AddressNames(d: Device, r: nat, bg: nat, bank: nat, row: int)
    requires r < d.org.ranks && bg < d.org.bankGroups && bank < d.org.banks
    ensures Names(d, BankAddress(d.channel, r, bg, bank, row), r, bg * d.org.banks + bank)
  {
    hide BankCount;
    FlatBankInRange(bg, bank, d.org);
  }

  lemma {:induction false} TableIsRectangular(d: Device)
    requires d.Valid()
    ensures Rectangular(d.table, NUM_LEVELS, NUM_CMDS)
  {
    hide Books, Counted, FutureOk, GoodTable, Legal;
  }

  /// A precharge can be the next command for the address, and goes to bank b of rank r.
  ghost predicate Names(d: Device, addr: seq<int>, r: nat, b: nat) {
    |addr| == NUM_LEVELS && b < BankCount(d.org) && r < d.org.ranks && addr[RANK] == r &&
    d.InRange(addr, ACT) && d.FlatBank(addr, ACT) == b && d.InRange(addr, PRE) && d.FlatBank(addr, PRE) == b
  }

  /// A row is opened at c, the request to close a row of another bank, which is closed, sends its precharge at d,
  /// and the open bank is precharged at e.
  method PrechargeAstray(dev: Device, r: nat, a0: seq<int>, a1: seq<int>, ghost b0: nat, ghost b1: nat, c: nat, d: nat,
                         e: nat)
    requires dev.Valid() && c <= d <= e && c + dev.v.nRAS <= e && Built(dev.v, dev.table)
    requires Names(dev, a0, r, b0) && Names(dev, a1, r, b1) && b0 != b1 && !SameNode(a0, a1, BANK) && a0[ROW] == a1[ROW]
    requires dev.clk == 0 && dev.trace == [] && dev.future == []
    requires dev.ranks == FreshRanks(dev.org) && dev.hist == seq(dev.org.ranks, _ => NO_HISTORY)
    modifies dev, dev.root.Repr
    ensures dev.Valid() && dev.clk == e && dev.future == [] && |dev.hist| == |dev.ranks| == dev.org.ranks
    ensures dev.trace == [Event(ACT, a0, c, dev.table), Event(PRE, a1, d, dev.table), Event(PRE, a0, e, dev.table)]
    ensures dev.hist[r].drift == dev.hist[r].activeDrift == d - c && dev.hist[r].openTicks == e - c
    ensures !AnyOpen(dev.ranks[r].banks)
  {
    hide Device.TimingOk, Built, Counted, RankStep, Remember, Hits, FreshRank, Books, FutureOk;
    hide Device.RowsOk, AnyOpen, Aged, BankCount, LetsPass, SameNode, Device.InRange, Device.Pending, Device.FlatBank;
    TableIsRectangular(dev);
    StrayHistory(BankCount(dev.org), b0, b1, a0[ROW], c, d, e, dev.v.nRFC);
    SendAt(dev, c, ACT, a0, r, b0);
    PrechargePasses(dev.v, dev.table, dev.trace[0], a1, d);
    SendAt(dev, d, PRE, a1, r, b1);
    PrechargePasses(dev.v, dev.table, dev.trace[0], a0, e);
    PrechargePasses(dev.v, dev.table, dev.trace[1], a0, e);
    SendAt(dev, e, PRE, a0, r, b0);
  }

  /// From a new device: all three commands are ready and next, and at the end the books are the d - c cycles
  /// before the stray precharge ahead of the clock.
  method StrayRun(v: Timings, org: Org, channel: nat, r: nat, bg0: nat, bank0: nat, bg1: nat, bank1: nat, row: int,
                  c: nat, d: nat, e: nat, end: nat) returns (dev: Device, p: Power)
    requires v.nRFC >= 2 && r < org.ranks && c <= d <= e <= end && c + v.nRAS <= e
    requires bg0 < org.bankGroups && bank0 < org.banks && bg1 < org.bankGroups && bank1 < org.banks
    requires bg0 != bg1 || bank0 != bank1
    ensures fresh(dev) && dev.Valid() && dev.v == v && dev.clk == end
    ensures var (a0, a1) := (BankAddress(channel, r, bg0, bank0, row), BankAddress(channel, r, bg1, bank1, row));
            dev.trace == [Event(ACT, a0, c, dev.table), Event(PRE, a1, d, dev.table), Event(PRE, a0, e, dev.table)]
    ensures p.active == (e - c) + (d - c) && p.idle == c + (end - e)
  {
    hide Device.RowsOk, AnyOpen, BookedAstray, Device.TimingOk, Built, Counted, FreshRanks, Books, FutureOk, Names;
    hide SameNode;
    dev := new Device(v, org, channel);
    DigitUnique(bg0, bank0, bg1, bank1, org.banks);
    AddressNames(dev, r, bg0, bank0, row);
    AddressNames(dev, r, bg1, bank1, row);
    OtherBank(channel, r, bg0, bank0, bg1, bank1, row);
    var a0, a1 := BankAddress(channel, r, bg0, bank0, row), BankAddress(channel, r, bg1, bank1, row);
    PrechargeAstray(dev, r, a0, a1, bg0 * org.banks + bank0, bg1 * org.banks + bank1, c, d, e);
    ghost var ranks := dev.ranks;
    RunTo(dev, end);
    NoneOpens(dev, ranks);
    NoRefreshHits(dev.trace, [channel, r]);
    p := dev.FinalizeRank(r);
  }
}
