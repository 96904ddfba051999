/** One DDR4 rank: the states of its banks, the prerequisites and actions on them (src/dram/lambdas/preq.h,
    action.h), and the active/idle cycle accounting (src/dram/lambdas/power.h).  */
module Ddr4Rank {

  // levels of an address
  const CHANNEL: nat := 0
  const RANK: nat := 1
  const BANKGROUP: nat := 2
  const BANK: nat := 3
  const ROW: nat := 4
  const COLUMN: nat := 5
  const NUM_LEVELS: nat := 6

  // commands, in the order of the device's command list
  const ACT: nat := 0
  const PRE: nat := 1
  const PREA: nat := 2
  const RD: nat := 3
  const WR: nat := 4
  const RDA: nat := 5
  const WRA: nat := 6
  const REFAB: nat := 7
  const REFAB_END: nat := 8

  datatype BankState = Opened | Closed | Refreshing
  datatype Bank = Bank(state: BankState, rows: set<int>)

  // ---------- prerequisites ----------

  function RequireRowOpen(b: Bank, cmd: nat, row: int): nat {
    match b.state
    case Closed => ACT
    case Opened => if row in b.rows then cmd else PRE
    case Refreshing => ACT
  }

  function RequireBankClosed(b: Bank, cmd: nat): nat {
    match b.state
    case Closed => cmd
    case Opened => PRE
    case Refreshing => cmd
  }

  /// Scans the banks in order; the first one that is not closed decides.
  function RequireAllBanksClosed(banks: seq<Bank>, cmd: nat): (r: nat)
    ensures r == cmd || r == PREA
  {
    if banks == [] then cmd
    else if banks[0].state == Closed then RequireAllBanksClosed(banks[1..], cmd)
    else if banks[0].state == Refreshing then cmd
    else PREA
  }

  /// Bank i is open and every bank before it closed.
  predicate OpenFirst(banks: seq<Bank>, i: nat) {
    i < |banks| && banks[i].state == Opened && forall j :: 0 <= j < i ==> banks[j].state == Closed
  }

  lemma {:induction false} ScanDecides(banks: seq<Bank>, cmd: nat)
    requires cmd != PREA
    ensures RequireAllBanksClosed(banks, cmd) == PREA <==> exists i: nat :: OpenFirst(banks, i)
  {
    if banks != [] {
      var rest := banks[1..];
      ScanDecides(rest, cmd);
      assert forall i :: 0 <= i < |rest| ==> rest[i] == banks[i + 1];
      if banks[0].state == Closed {
        if i: nat :| OpenFirst(rest, i) {
          assert OpenFirst(banks, i + 1);
        }
        if i: nat :| OpenFirst(banks, i) {
          assert OpenFirst(rest, i - 1);
        }
      } else if banks[0].state == Opened {
        assert OpenFirst(banks, 0);
      }
    }
  }

  /// With no bank open while another one refreshes, the order of the scan does not matter.
  lemma {:induction false} AllClosedDecides(banks: seq<Bank>, cmd: nat)
    requires cmd != PREA
    requires forall i, j :: 0 <= i < |banks| && 0 <= j < |banks| && banks[i].state == Refreshing ==>
               banks[j].state != Opened
    ensures RequireAllBanksClosed(banks, cmd) == (if AnyOpen(banks) then PREA else cmd)
  {
    ScanDecides(banks, cmd);
    if AnyOpen(banks) {
      var i := FirstOpen(banks);
      assert OpenFirst(banks, i);
    }
  }

  lemma {:induction false} FirstOpen(banks: seq<Bank>) returns (i: nat)
    requires AnyOpen(banks)
    ensures i < |banks| && banks[i].state == Opened && forall j :: 0 <= j < i ==> banks[j].state != Opened
  {
    i := 0;
    while banks[i].state != Opened
      invariant i < |banks| && forall j :: 0 <= j < i ==> banks[j].state != Opened
      invariant exists k :: i <= k < |banks| && banks[k].state == Opened
      decreases |banks| - i
    {
      i := i + 1;
    }
  }

  predicate AnyOpen(banks: seq<Bank>) {
    exists i :: 0 <= i < |banks| && banks[i].state == Opened
  }

  /// The next command towards `final` for bank b (REFAB looks at the whole rank).
  function Next(banks: seq<Bank>, final: nat, b: nat, row: int): (cmd: nat)
    requires final == REFAB || b < |banks|
    ensures final == REFAB ==> cmd in {REFAB, PREA}
  {
    if final == REFAB then RequireAllBanksClosed(banks, REFAB)
    else if final == PRE then RequireBankClosed(banks[b], PRE)
    else RequireRowOpen(banks[b], final, row)
  }

  /// The commands that requests finally ask for.
  const FINALS: set<nat> := {ACT, PRE, RD, WR, REFAB}

  /// Bank k is open on the row.
  predicate OpenOn(banks: seq<Bank>, k: nat, row: int) {
    k < |banks| && banks[k].state == Opened && row in banks[k].rows
  }

  /// The next command by the state of the addressed bank: a column access only if the bank is open on its own row
  /// and no other, a precharge only if it is open on other rows, an activate only if it is not open.
  lemma {:induction false} NextDecides(banks: seq<Bank>, dues: seq<int>, final: nat, b: nat, row: int)
    requires BanksOk(banks, dues) && final in {ACT, PRE, RD, WR} && b < |banks|
    ensures var cmd, bank := Next(banks, final, b, row), banks[b];
            (final in {RD, WR} ==>
              (cmd == final <==> bank == Bank(Opened, {row})) && (cmd == ACT <==> bank.state != Opened)) &&
            (final == ACT ==> (cmd == ACT <==> bank.state != Opened || bank.rows == {row})) &&
            (final != PRE ==> (cmd == PRE <==> bank.state == Opened && bank.rows != {row})) &&
            (final == PRE ==> cmd == PRE)
  {
    if row in banks[b].rows {
      SingletonRow(banks[b].rows, row);
    }
  }

  // ---------- actions ----------

  /// What a command does to the banks of the rank it is sent to (`b` is the bank it addresses).
  function Action(banks: seq<Bank>, cmd: nat, b: nat, row: int): (r: seq<Bank>)
    requires cmd in {ACT, PRE, RDA, WRA} ==> b < |banks|
    ensures |r| == |banks|
  {
    if cmd == ACT then banks[b := Bank(Opened, banks[b].rows + {row})]
    else if cmd == PRE || cmd == RDA || cmd == WRA then banks[b := Bank(Closed, {})]
    else if cmd == PREA then seq(|banks|, i => Bank(Closed, {}))
    else if cmd == REFAB then seq(|banks|, i requires 0 <= i < |banks| => banks[i].(state := Refreshing))
    else if cmd == REFAB_END then seq(|banks|, i requires 0 <= i < |banks| => banks[i].(state := Closed))
    else banks
  }

  /// How many commands there are before `final` itself can be sent.
  function Distance(banks: seq<Bank>, final: nat, b: nat, row: int): nat
    requires final == REFAB || b < |banks|
  {
    var cmd := Next(banks, final, b, row);
    if cmd == final then 0 else if cmd == PRE then 2 else 1
  }

  /// A prerequisite brings the final command closer: an activate or a precharge of all banks leaves only
  /// the final command, a precharge leaves the activate before it.  Only the addressed banks change.
  lemma {:induction false} PrerequisiteLeadsOn(banks: seq<Bank>, final: nat, b: nat, row: int)
    requires final in FINALS && (final == REFAB || b < |banks|)
    ensures var cmd := Next(banks, final, b, row);
            var banks' := Action(banks, cmd, b, row);
            (cmd != final ==> Distance(banks', final, b, row) < Distance(banks, final, b, row)) &&
            (cmd == final == ACT ==> banks'[b].state == Opened && row in banks'[b].rows) &&
            (cmd == final == PRE ==> banks'[b] == Bank(Closed, {})) &&
            (cmd == final == REFAB ==> forall i :: 0 <= i < |banks| ==> banks'[i].state == Refreshing) &&
            (forall i :: 0 <= i < |banks| && final != REFAB && i != b ==> banks'[i] == banks[i])
  {
    var cmd := Next(banks, final, b, row);
    if final == REFAB && cmd == PREA {
      ScanDecides(Action(banks, PREA, b, row), REFAB);
    }
  }

  /// An open bank stays open on its rows under every command but those that close it or refresh the rank.
  lemma {:induction false} ActionSpares(banks: seq<Bank>, cmd: nat, b: nat, row: int, k: nat)
    requires k < |banks| && banks[k].state == Opened
    requires cmd in {ACT, PRE, RDA, WRA} ==> b < |banks|
    requires cmd !in {PREA, REFAB, REFAB_END} && (cmd in {PRE, RDA, WRA} ==> b != k)
    ensures Action(banks, cmd, b, row)[k].state == Opened && banks[k].rows <= Action(banks, cmd, b, row)[k].rows
  {
  }

  /// Which rows are open after the next command of a request: the activated one, and those that were open before,
  /// unless the command closes their bank or refreshes the rank.
  lemma {:induction false} ActionOpens(banks: seq<Bank>, dues: seq<int>, final: nat, b: nat, row: int, k: nat,
                                       open: int)
    requires BanksOk(banks, dues) && final in FINALS && (final == REFAB || b < |banks|)
    ensures var cmd := Next(banks, final, b, row);
            OpenOn(Action(banks, cmd, b, row), k, open) <==>
            (cmd == ACT && k == b && open == row) ||
            (OpenOn(banks, k, open) && cmd !in {PREA, REFAB} && !(cmd == PRE && k == b))
  {
    if final != REFAB {
      NextDecides(banks, dues, final, b, row);
    }
  }

  // ---------- cycle accounting ----------

  datatype PowerState = IDLE | ACTIVE | REFRESHING

  datatype Power = Power(state: PowerState, active: int, idle: int, activeStart: int, idleStart: int)

  const INITIAL_POWER := Power(IDLE, 0, 0, -1, 0)

  function InState(banks: seq<Bank>, st: BankState): set<nat> {
    set i: nat | i < |banks| && banks[i].state == st
  }

  lemma {:induction false} InStateUpdate(banks: seq<Bank>, b: nat, bank: Bank, st: BankState)
    requires b < |banks|
    ensures InState(banks[b := bank], st) == InState(banks, st) - {b} + (if bank.state == st then {b} else {})
  {
  }

  lemma {:induction false} InStateMore(banks: seq<Bank>, i: nat, st: BankState)
    requires i < |banks|
    ensures |InState(banks[..i + 1], st)| == |InState(banks[..i], st)| + (if banks[i].state == st then 1 else 0)
  {
    assert InState(banks[..i + 1], st) == InState(banks[..i], st) + (if banks[i].state == st then {i} else {});
  }

  method CountState(banks: seq<Bank>, st: BankState) returns (n: nat)
    ensures n == |InState(banks, st)|
  {
    n := 0;
    for i := 0 to |banks|
      invariant n == |InState(banks[..i], st)|
    {
      InStateMore(banks, i, st);
      if banks[i].state == st {
        n := n + 1;
      }
    }
    assert banks[..|banks|] == banks;
  }

  /// The accounting step of one command, on the bank states from before the command.
  function PowerStep(p: Power, open: nat, refreshing: nat, cmd: nat, clk: int): Power {
    if cmd == ACT then
      if open == 0 && refreshing == 0 then
        p.(idle := p.idle + (clk - p.idleStart), activeStart := clk, state := ACTIVE)
      else p
    else if cmd == PRE then
      if open == 1 && refreshing == 0 then
        p.(active := p.active + (clk - p.activeStart), idleStart := clk, state := IDLE)
      else p
    else if cmd == PREA then
      if !(open == 0 && refreshing == 0) then
        p.(active := p.active + (clk - p.activeStart), idleStart := clk, state := IDLE)
      else p
    else if cmd == REFAB then p.(idle := p.idle + (clk - p.idleStart), state := REFRESHING)
    else if cmd == REFAB_END then p.(idleStart := clk, state := IDLE)
    else p
  }

  function Finalize(p: Power, clk: int): Power {
    match p.state
    case IDLE => p.(idle := p.idle + (clk - p.idleStart))
    case ACTIVE => p.(active := p.active + (clk - p.activeStart))
    case REFRESHING => p
  }

  /// A precharge that books the time since the rank's first activate as active.
  predicate Charges(open: nat, refreshing: nat, cmd: nat) {
    (cmd == PRE && open == 1 && refreshing == 0) || (cmd == PREA && !(open == 0 && refreshing == 0))
  }

  /// It does so although the books have the rank idle, and since a later clock than that activate.
  predicate Recharges(p: Power, open: nat, refreshing: nat, cmd: nat) {
    Charges(open, refreshing, cmd) && p.state == IDLE && p.idleStart != p.activeStart
  }

  datatype Rank = Rank(banks: seq<Bank>, power: Power)

  function FreshRank(banks: nat): Rank {
    Rank(seq(banks, _ => Bank(Closed, {})), INITIAL_POWER)
  }

  function Counts(banks: seq<Bank>): (nat, nat) {
    (|InState(banks, Opened)|, |InState(banks, Refreshing)|)
  }

  function RankStep(r: Rank, cmd: nat, b: nat, row: int, clk: int): (r': Rank)
    requires cmd in {ACT, PRE, RDA, WRA} ==> b < |r.banks|
  {
    var (open, refreshing) := Counts(r.banks);
    Rank(Action(r.banks, cmd, b, row), PowerStep(r.power, open, refreshing, cmd, clk))
  }

  /// History that the rank does not store: finished refreshes, refreshes begun while one was still
  /// running, precharges of a bank that was not open, charges of time that was already booked, refreshes that
  /// book refreshing time as idle, the clock of the newest refresh, how far the accounting is ahead of the
  /// clock, how far each of its two books is ahead of the true cycles, and those cycles: the clocks at which a
  /// bank was open, and those at which none was and no refresh was running.
  datatype History = History(done: nat, overlaps: nat, stray: nat, recharged: nat, rebooked: nat, lastRef: int,
                             drift: int, activeDrift: int, idleDrift: int, openTicks: nat, idleTicks: nat)

  ghost const NO_HISTORY := History(0, 0, 0, 0, 0, -1, 0, 0, 0, 0, 0)

  /// The rank stays as it is for n clocks.
  ghost function Aged(h: History, banks: seq<Bank>, dues: seq<int>, n: nat): History {
    if AnyOpen(banks) then h.(openTicks := h.openTicks + n)
    else if dues == [] then h.(idleTicks := h.idleTicks + n)
    else h
  }

  /// `dues` are the clocks at which the refreshes under way will end.
  ghost predicate BanksOk(banks: seq<Bank>, dues: seq<int>) {
    && (forall i :: 0 <= i < |banks| ==> (banks[i].state == Opened <==> banks[i].rows != {}))
    && (forall i :: 0 <= i < |banks| ==> |banks[i].rows| <= 1)
    && (dues != [] ==> forall i :: 0 <= i < |banks| ==> banks[i].state != Opened)
    && (dues == [] ==> forall i :: 0 <= i < |banks| ==> banks[i].state != Refreshing)
  }

  /// The cycles of n refreshes, (nRFC - 1) each, summed one by one.
  ghost function RefreshCycles(nRFC: int, n: nat): int {
    if n == 0 then 0 else RefreshCycles(nRFC, n - 1) + nRFC - 1
  }

  lemma {:induction false} RefreshCyclesIsProduct(nRFC: int, n: nat)
    ensures RefreshCycles(nRFC, n) == (nRFC - 1) * n
  {
    if n > 0 { RefreshCyclesIsProduct(nRFC, n - 1); }
  }

  ghost function Accounted(p: Power, h: History, nRFC: int): int {
    p.active + p.idle + RefreshCycles(nRFC, h.done)
  }

  /// The books against the clock: what they hold runs up to the start of the present idle or active
  /// stretch, and beyond it by the drift.
  ghost predicate PowerOk(open: nat, p: Power, dues: seq<int>, h: History, clk: int, nRFC: int) {
    && h.drift >= 0 && (h.drift == 0 <==> h.overlaps == 0 && h.recharged == 0)
    && (h.stray == 0 ==> h.recharged == 0)
    && (if dues == [] then
          && p.state != REFRESHING
          && (open == 0 ==> p.state == IDLE)
          && (h.stray == 0 && open > 0 ==> p.state == ACTIVE)
          && (p.state == IDLE ==> p.idleStart <= clk && Accounted(p, h, nRFC) == p.idleStart + h.drift)
          && (p.state == ACTIVE ==> p.activeStart <= clk && Accounted(p, h, nRFC) == p.activeStart + h.drift)
          && (p.state == IDLE && open > 0 ==> p.activeStart <= p.idleStart)
        else
          && open == 0 && p.state != ACTIVE && p.idleStart <= clk
          && Accounted(p, h, nRFC) + RefreshCycles(nRFC, |dues|) == h.lastRef + nRFC - 1 + h.drift)
  }

  /// Each book against the clocks it is for: what it holds and what the present stretch will add to it.  After a
  /// precharge of a closed bank the books have the rank idle although a bank is open.
  ghost predicate EachBookOk(open: nat, p: Power, dues: seq<int>, h: History, clk: int) {
    && h.activeDrift >= 0 && (h.activeDrift == 0 <==> h.recharged == 0)
    && h.idleDrift >= 0 && (h.idleDrift == 0 <==> h.rebooked == 0) && (h.overlaps == 0 ==> h.rebooked == 0)
    && (|dues| > 1 ==> h.overlaps > 0) && (dues != [] && h.overlaps == 0 ==> p.state == REFRESHING)
    && p.active == h.openTicks + h.activeDrift - ActiveToCome(open, p, clk)
    && p.idle == h.idleTicks + h.idleDrift - (if open == 0 && dues == [] then clk - p.idleStart else 0)
  }

  /// The active cycles of the present stretch, counted from where the books have it begin.
  ghost function ActiveToCome(open: nat, p: Power, clk: int): int {
    if open == 0 then 0 else if p.state == ACTIVE then clk - p.activeStart else clk - p.idleStart
  }

  /// The cycles that the books have idle at the end although a bank is open or a refresh running.
  ghost function BookedAstray(open: nat, p: Power, dues: seq<int>, clk: int): int {
    if p.state == IDLE && (open > 0 || dues != []) then clk - p.idleStart else 0
  }

  ghost predicate DuesOk(dues: seq<int>, h: History, clk: int, nRFC: int) {
    && (forall d :: d in dues ==> clk <= d <= h.lastRef + nRFC - 1)
    && (dues != [] ==> dues[|dues| - 1] == h.lastRef + nRFC - 1)
  }

  ghost predicate RankOk(r: Rank, dues: seq<int>, h: History, clk: int, nRFC: int) {
    && nRFC >= 2 && BanksOk(r.banks, dues) && DuesOk(dues, h, clk, nRFC)
    && PowerOk(Counts(r.banks).0, r.power, dues, h, clk, nRFC)
    && EachBookOk(Counts(r.banks).0, r.power, dues, h, clk)
  }

  /// What the command adds to the history.
  ghost function Remember(h: History, r: Rank, dues: seq<int>, cmd: nat, b: nat, clk: int, nRFC: int): (h': History)
    requires cmd == PRE ==> b < |r.banks|
    ensures h'.done == h.done && h'.openTicks == h.openTicks && h'.idleTicks == h.idleTicks
  {
    var (open, refreshing) := Counts(r.banks);
    var stray := if cmd == PRE && r.banks[b].state != Opened then 1 else 0;
    var h1 := h.(stray := h.stray + stray);
    if Recharges(r.power, open, refreshing, cmd) then
      var again := r.power.idleStart - r.power.activeStart;
      h1.(recharged := h.recharged + 1, drift := h.drift + again, activeDrift := h.activeDrift + again)
    else if cmd == REFAB then
      if dues == [] then h1.(lastRef := clk)
      else h1.(lastRef := clk, overlaps := h.overlaps + 1,
               rebooked := h.rebooked + (if r.power.idleStart < clk then 1 else 0),
               drift := h.drift + h.lastRef + nRFC - 1 - r.power.idleStart,
               idleDrift := h.idleDrift + clk - r.power.idleStart)
    else h1
  }

  // ---------- what each command does to the counts ----------

  lemma {:induction false} CountsOk(banks: seq<Bank>, dues: seq<int>)
    requires BanksOk(banks, dues)
    ensures dues == [] ==> Counts(banks).1 == 0
    ensures dues != [] ==> Counts(banks).0 == 0
    ensures Counts(banks).0 > 0 <==> AnyOpen(banks)
  {
    if dues == [] {
      assert InState(banks, Refreshing) == {};
    } else {
      assert InState(banks, Opened) == {};
    }
    if AnyOpen(banks) {
      var i :| 0 <= i < |banks| && banks[i].state == Opened;
      assert i in InState(banks, Opened);
    } else {
      assert InState(banks, Opened) == {};
    }
  }

  /// Opening or closing one bank.
  lemma {:induction false} CountOne(banks: seq<Bank>, b: nat, bank: Bank)
    requires b < |banks|
    ensures Counts(banks[b := bank]).0 ==
            Counts(banks).0 - (if banks[b].state == Opened then 1 else 0) + (if bank.state == Opened then 1 else 0)
  {
    InStateUpdate(banks, b, bank, Opened);
    var others := InState(banks, Opened) - {b};
    assert InState(banks, Opened) == others + (if banks[b].state == Opened then {b} else {});
  }

  lemma {:induction false} CountNone(banks: seq<Bank>)
    requires forall i :: 0 <= i < |banks| ==> banks[i].state != Opened
    ensures Counts(banks).0 == 0
  {
    assert InState(banks, Opened) == {};
  }

  // ---------- every command keeps the books ----------

  lemma {:induction false} ActKeeps(r: Rank, b: nat, row: int, h: History, clk: int, nRFC: int)
    requires RankOk(r, [], h, clk, nRFC) && b < |r.banks|
    requires r.banks[b].state == Opened ==> row in r.banks[b].rows
    ensures RankOk(RankStep(r, ACT, b, row, clk), [], Remember(h, r, [], ACT, b, clk, nRFC), clk, nRFC)
  {
    hide Counts, RefreshCycles;
    var bank := Bank(Opened, r.banks[b].rows + {row});
    CountsOk(r.banks, []);
    CountOne(r.banks, b, bank);
    assert bank.rows == {row} by { if r.banks[b].state == Opened { SingletonRow(r.banks[b].rows, row); } }
  }

  lemma {:induction false} PreKeeps(r: Rank, b: nat, row: int, dues: seq<int>, h: History, clk: int, nRFC: int)
    requires RankOk(r, dues, h, clk, nRFC) && b < |r.banks|
    ensures RankOk(RankStep(r, PRE, b, row, clk), dues, Remember(h, r, dues, PRE, b, clk, nRFC), clk, nRFC)
  {
    hide Counts, RefreshCycles;
    var r' := RankStep(r, PRE, b, row, clk);
    CountsOk(r.banks, dues);
    CountOne(r.banks, b, Bank(Closed, {}));
    assert BanksOk(r'.banks, dues);
    CountsOk(r'.banks, dues);
  }

  lemma {:induction false} PreaKeeps(r: Rank, b: nat, row: int, dues: seq<int>, h: History, clk: int, nRFC: int)
    requires RankOk(r, dues, h, clk, nRFC) && RequireAllBanksClosed(r.banks, REFAB) == PREA
    ensures RankOk(RankStep(r, PREA, b, row, clk), dues, Remember(h, r, dues, PREA, b, clk, nRFC), clk, nRFC)
  {
    AllClosedDecides(r.banks, REFAB);
    hide Counts, RefreshCycles, RequireAllBanksClosed;
    CountsOk(r.banks, dues);
    CountNone(Action(r.banks, PREA, b, row));
  }

  lemma {:induction false} RefKeeps(r: Rank, b: nat, row: int, dues: seq<int>, h: History, clk: int, nRFC: int)
    requires RankOk(r, dues, h, clk, nRFC) && !AnyOpen(r.banks)
    requires (forall d :: d in dues ==> clk < d) && h.lastRef <= clk
    ensures RankOk(RankStep(r, REFAB, b, row, clk), dues + [clk + nRFC - 1],
                   Remember(h, r, dues, REFAB, b, clk, nRFC), clk, nRFC)
  {
    assert RefreshCycles(nRFC, |dues| + 1) == RefreshCycles(nRFC, |dues|) + nRFC - 1;
    assert RefreshCycles(nRFC, 0) == 0;
    hide Counts, RefreshCycles;
    CountsOk(r.banks, dues);
    CountNone(Action(r.banks, REFAB, b, row));
    if dues != [] { assert dues[|dues| - 1] in dues; }
  }

  /// One command on the way to a request's final command keeps the rank's books, given that an
  /// activate never meets a running refresh.
  lemma {:induction false} StepKeeps(r: Rank, final: nat, b: nat, row: int, dues: seq<int>, h: History, clk: int,
                                     nRFC: int)
    requires RankOk(r, dues, h, clk, nRFC) && final in FINALS && (final == REFAB || b < |r.banks|)
    requires Next(r.banks, final, b, row) == ACT ==> dues == []
    requires (forall d :: d in dues ==> clk < d) && h.lastRef <= clk
    ensures var cmd := Next(r.banks, final, b, row);
            RankOk(RankStep(r, cmd, b, row, clk), if cmd == REFAB then dues + [clk + nRFC - 1] else dues,
                   Remember(h, r, dues, cmd, b, clk, nRFC), clk, nRFC)
  {
    var cmd := Next(r.banks, final, b, row);
    hide PowerOk, Counts, DuesOk;
    if final == REFAB {
      AllClosedDecides(r.banks, REFAB);
      if cmd == REFAB { RefKeeps(r, b, row, dues, h, clk, nRFC); }
      else { PreaKeeps(r, b, row, dues, h, clk, nRFC); }
    } else if cmd == ACT {
      ActKeeps(r, b, row, h, clk, nRFC);
    } else if cmd == PRE {
      PreKeeps(r, b, row, dues, h, clk, nRFC);
    } else {
      assert RankStep(r, cmd, b, row, clk) == r;
    }
  }

  /// Only a request to close a row precharges a bank that is not open, and as long as none did, no time is
  /// booked twice by a precharge.
  lemma {:induction false} NoStrayPrecharge(r: Rank, final: nat, b: nat, row: int, dues: seq<int>, h: History, clk: int,
                                            nRFC: int)
    requires RankOk(r, dues, h, clk, nRFC) && final in FINALS && (final == REFAB || b < |r.banks|)
    ensures var h' := Remember(h, r, dues, Next(r.banks, final, b, row), b, clk, nRFC);
            (final != PRE ==> h'.stray == h.stray) &&
            (final != PRE && h.stray == 0 ==> h'.recharged == 0)
  {
    hide Counts, RefreshCycles;
    CountsOk(r.banks, dues);
    if final == REFAB {
      ScanDecides(r.banks, REFAB);
    }
  }

  /// Ending a refresh finds no open bank to close.
  lemma {:induction false} RefEndKeeps(r: Rank, dues: seq<int>, k: nat, h: History, nRFC: int)
    requires k < |dues| && RankOk(r, dues, h, dues[k], nRFC)
    ensures RankOk(RankStep(r, REFAB_END, 0, 0, dues[k]), dues[..k] + dues[k + 1..], h.(done := h.done + 1), dues[k],
                   nRFC)
    ensures !AnyOpen(r.banks) && !AnyOpen(RankStep(r, REFAB_END, 0, 0, dues[k]).banks)
  {
    assert RefreshCycles(nRFC, |dues|) == RefreshCycles(nRFC, |dues| - 1) + nRFC - 1;
    assert RefreshCycles(nRFC, h.done + 1) == RefreshCycles(nRFC, h.done) + nRFC - 1;
    assert RefreshCycles(nRFC, 0) == 0;
    hide Counts, RefreshCycles;
    CountsOk(r.banks, dues);
    CountNone(Action(r.banks, REFAB_END, 0, 0));
    var rest := dues[..k] + dues[k + 1..];
    assert forall d :: d in rest ==> d in dues;
    assert dues[|dues| - 1] in dues && (rest != [] ==> rest[|rest| - 1] in rest);
  }

  /// At the end, outside a refresh, the accounted cycles are the elapsed ones exactly when no refresh was
  /// started while another one was still running in the rank and no precharge charged time that was
  /// already booked; otherwise they are more.
  lemma {:induction false} CyclesConserved(r: Rank, h: History, clk: int, nRFC: int)
    requires RankOk(r, [], h, clk, nRFC)
    ensures var p := Finalize(r.power, clk);
            p.active + p.idle + (nRFC - 1) * h.done == clk + h.drift
    ensures h.drift >= 0 && (h.drift == 0 <==> h.overlaps == 0 && h.recharged == 0)
    ensures h.stray == 0 ==> h.recharged == 0
  {
    RefreshCyclesIsProduct(nRFC, h.done);
  }

  /// The two books at the end, at any clock: the active cycles are the clocks at which a bank was open and the
  /// idle ones those at which none was and no refresh was running, up to the drift of each book and the present
  /// stretch if that is booked astray.
  lemma {:induction false} BooksApart(r: Rank, dues: seq<int>, h: History, clk: int, nRFC: int)
    requires RankOk(r, dues, h, clk, nRFC)
    ensures var p := Finalize(r.power, clk);
            var astray := BookedAstray(Counts(r.banks).0, r.power, dues, clk);
            p.active == h.openTicks + h.activeDrift - (if AnyOpen(r.banks) then astray else 0) &&
            p.idle == h.idleTicks + h.idleDrift + astray &&
            (p.active == h.openTicks && p.idle == h.idleTicks <==>
              h.recharged == 0 && h.rebooked == 0 && astray == 0) &&
            (h.stray == 0 && h.overlaps == 0 ==> h.recharged == 0 && h.rebooked == 0 && astray == 0)
  {
    hide Counts;
    CountsOk(r.banks, dues);
  }

  lemma {:induction false} SingletonRow(rows: set<int>, row: int)
    requires row in rows && |rows| <= 1
    ensures rows == {row}
  {
    assert |rows - {row}| == |rows| - 1;
  }

  /// Two refreshes of a new rank at clocks c and d, the second before the first has ended, both let through
  /// by the prerequisites: the books count c + nRFC - 1 cycles too many.
  lemma {:induction false} OverlapSurplus(banks: nat, c: nat, d: nat, nRFC: nat, end: nat)
    requires c <= d < c + nRFC - 1 && d + nRFC - 1 <= end
    ensures var r0 := FreshRank(banks);
            var r1 := RankStep(r0, REFAB, 0, 0, c);
            var r2 := RankStep(r1, REFAB, 0, 0, d);
            var r3 := RankStep(RankStep(r2, REFAB_END, 0, 0, c + nRFC - 1), REFAB_END, 0, 0, d + nRFC - 1);
            var p := Finalize(r3.power, end);
            Next(r0.banks, REFAB, 0, 0) == REFAB && Next(r1.banks, REFAB, 0, 0) == REFAB &&
            p.active == 0 && p.idle + (nRFC - 1) * 2 == end + c + nRFC - 1
  {
    ScanDecides(FreshRank(banks).banks, REFAB);
    ScanDecides(RankStep(FreshRank(banks), REFAB, 0, 0, c).banks, REFAB);
  }

  /// A row opened at clock c, a precharge of another, closed bank at d, and the precharge of the open one at
  /// e: up to e the books balance in sum, with the open cycles from d on among the idle ones; afterwards the active
  /// book counts the d - c cycles before the stray precharge twice.
  lemma {:induction false} StrayPrechargeSurplus(banks: nat, row: int, c: nat, d: nat, e: nat, end: nat)
    requires banks >= 2 && c <= d <= e <= end
    ensures var r1 := RankStep(FreshRank(banks), ACT, 0, row, c);
            var r2 := RankStep(r1, PRE, 1, 0, d);
            var r3 := RankStep(r2, PRE, 0, 0, e);
            var p2, p3 := Finalize(r2.power, e), Finalize(r3.power, end);
            Next(r1.banks, PRE, 1, 0) == PRE && p2.active == d - c && p2.idle == c + (e - d) &&
            p3.active == (e - c) + (d - c) && p3.idle == c + (end - e)
  {
    var r0 := FreshRank(banks);
    var r1 := RankStep(r0, ACT, 0, row, c);
    var r2 := RankStep(r1, PRE, 1, 0, d);
    assert InState(r0.banks, Opened) == {} && InState(r0.banks, Refreshing) == {};
    assert InState(r1.banks, Opened) == {0} && InState(r1.banks, Refreshing) == {};
    assert InState(r2.banks, Opened) == {0} && InState(r2.banks, Refreshing) == {};
  }
}
