/** Which rows of a channel are open, told by the commands issued so far, and what that means for the column accesses
    among them (src/dram/lambdas/preq.h, action.h).  */
module OpenRows {
  import opened Bits
  import opened Timing
  import opened Ddr4Rank

  datatype Org = Org(ranks: nat, bankGroups: nat, banks: nat)

  /// Banks per rank.
  function BankCount(org: Org): nat {
    org.bankGroups * org.banks
  }

  /// The number of a bank within its rank.
  function BankNumber(org: Org, bg: nat, bank: nat): (b: nat)
    requires bg < org.bankGroups && bank < org.banks
    ensures b < BankCount(org)
  {
    FlatBankInRange(bg, bank, org);
    bg * org.banks + bank
  }

  lemma {:induction false} FlatBankInRange(bg: int, bank: int, org: Org)
    requires 0 <= bg < org.bankGroups && 0 <= bank < org.banks
    ensures 0 <= bg * org.banks + bank < BankCount(org)
  {
    assert (bg + 1) * org.banks <= org.bankGroups * org.banks;
  }

  /// A bank of the channel: its rank, bank group and number within the group.
  datatype Place = Place(rank: nat, bg: nat, bank: nat)

  predicate InOrg(at: Place, org: Org) {
    at.rank < org.ranks && at.bg < org.bankGroups && at.bank < org.banks
  }

  /// The event activates the row of the bank.
  predicate Opens(e: Event, at: Place, row: int) {
    e.cmd == ACT && |e.addr| == NUM_LEVELS && e.addr[RANK] == at.rank && e.addr[BANKGROUP] == at.bg &&
    e.addr[BANK] == at.bank && e.addr[ROW] == row
  }

  /// The event closes or refreshes the bank: a command to the bank itself, or one to its whole rank.
  predicate Closes(e: Event, at: Place) {
    |e.addr| == NUM_LEVELS && e.addr[RANK] == at.rank &&
    (e.cmd in {PREA, REFAB} ||
     (e.cmd in {PRE, RDA, WRA} && e.addr[BANKGROUP] == at.bg && e.addr[BANK] == at.bank))
  }

  /// The j-th command opened the row, and none after it closed the bank.
  ghost predicate OpenedAt(trace: seq<Event>, j: nat, at: Place, row: int) {
    j < |trace| && Opens(trace[j], at, row) && forall i :: j < i < |trace| ==> !Closes(trace[i], at)
  }

  ghost predicate OpenSince(trace: seq<Event>, at: Place, row: int) {
    exists j: nat :: OpenedAt(trace, j, at, row)
  }

  /// A read or write goes to a row that an earlier command of the trace opened in its own bank, and that bank was not
  /// closed in between.
  ghost predicate FindsItsRow(trace: seq<Event>, k: nat)
    requires k < |trace|
  {
    trace[k].cmd in {RD, WR} ==>
      |trace[k].addr| == NUM_LEVELS && trace[k].addr[RANK] >= 0 && trace[k].addr[BANKGROUP] >= 0 &&
      trace[k].addr[BANK] >= 0 &&
      OpenSince(trace[..k], Place(trace[k].addr[RANK], trace[k].addr[BANKGROUP], trace[k].addr[BANK]),
                trace[k].addr[ROW])
  }

  /// The same, by addresses alone: command j activated the row that command k addresses, in the same bank, and none in
  /// between closed or refreshed that bank.
  ghost predicate OwnRowOpened(trace: seq<Event>, j: nat, k: nat) {
    j < k < |trace| && trace[j].cmd == ACT && |trace[j].addr| == NUM_LEVELS == |trace[k].addr| &&
    (forall l :: RANK <= l <= ROW ==> trace[j].addr[l] == trace[k].addr[l]) &&
    forall i :: j < i < k ==> !ClosesBankOf(trace[i], trace[k].addr)
  }

  predicate ClosesBankOf(e: Event, addr: seq<int>) {
    |e.addr| == NUM_LEVELS == |addr| && e.addr[RANK] == addr[RANK] &&
    (e.cmd in {PREA, REFAB} ||
     (e.cmd in {PRE, RDA, WRA} && e.addr[BANKGROUP] == addr[BANKGROUP] && e.addr[BANK] == addr[BANK]))
  }

  lemma {:induction false} OwnRowWasOpened(trace: seq<Event>, k: nat)
    requires k < |trace| && FindsItsRow(trace, k) && trace[k].cmd in {RD, WR}
    ensures exists j: nat :: OwnRowOpened(trace, j, k)
  {
    var at := Place(trace[k].addr[RANK], trace[k].addr[BANKGROUP], trace[k].addr[BANK]);
    var j: nat :| OpenedAt(trace[..k], j, at, trace[k].addr[ROW]);
    assert forall i :: 0 <= i < k ==> trace[..k][i] == trace[i];
    assert OwnRowOpened(trace, j, k);
  }

  ghost predicate AllFindTheirRows(trace: seq<Event>) {
    forall k :: 0 <= k < |trace| ==> FindsItsRow(trace, k)
  }

  /// The bank states are those that the trace leaves behind: a bank is open on a row exactly if some command
  /// activated it there and none has closed the bank since.
  ghost predicate StatesFollow(org: Org, ranks: seq<Rank>, trace: seq<Event>) {
    |ranks| == org.ranks &&
    forall at: Place, row :: InOrg(at, org) ==>
      (OpenOn(ranks[at.rank].banks, BankNumber(org, at.bg, at.bank), row) <==> OpenSince(trace, at, row))
  }

  lemma {:induction false} OpenOneMore(trace: seq<Event>, e: Event, at: Place, row: int)
    ensures OpenSince(trace + [e], at, row) <==> Opens(e, at, row) || (OpenSince(trace, at, row) && !Closes(e, at))
  {
    var more := trace + [e];
    if OpenSince(trace, at, row) && !Closes(e, at) {
      var j: nat :| OpenedAt(trace, j, at, row);
      assert OpenedAt(more, j, at, row);
    }
    if Opens(e, at, row) {
      assert OpenedAt(more, |trace|, at, row);
    }
    if OpenSince(more, at, row) && !Opens(e, at, row) {
      var j: nat :| OpenedAt(more, j, at, row);
      assert forall i :: 0 <= i < |trace| ==> more[i] == trace[i];
      assert more[|trace|] == e;
      assert OpenedAt(trace, j, at, row);
    }
  }

  /// No row is open in a new device.
  lemma {:induction false} NothingOpen(org: Org, ranks: seq<Rank>)
    requires ranks == seq(org.ranks, _ => FreshRank(BankCount(org)))
    ensures StatesFollow(org, ranks, []) && AllFindTheirRows([])
  {
  }

  /// States in which the same rows are open follow the trace as well.
  lemma {:induction false} SameOpenRows(org: Org, ranks: seq<Rank>, ranks': seq<Rank>, trace: seq<Event>)
    requires StatesFollow(org, ranks, trace) && |ranks'| == |ranks|
    requires forall r, k: nat, row :: 0 <= r < |ranks| ==>
               (OpenOn(ranks'[r].banks, k, row) <==> OpenOn(ranks[r].banks, k, row))
    ensures StatesFollow(org, ranks', trace)
  {
  }

  /// The address of a request: a bank and row of the device, or the whole rank for a refresh.
  predicate Addresses(addr: seq<int>, final: nat, org: Org) {
    |addr| == NUM_LEVELS && 0 <= addr[RANK] < org.ranks &&
    if final == REFAB then addr[BANKGROUP] == addr[BANK] == addr[ROW] == -1
    else 0 <= addr[BANKGROUP] < org.bankGroups && 0 <= addr[BANK] < org.banks
  }

  /// The next command of a request keeps the states with the trace, and if it is a column access it goes to the row
  /// that its bank was opened on.
  lemma {:induction false} NextFollows(org: Org, ranks: seq<Rank>, dues: seq<int>, trace: seq<Event>, e: Event,
                                       final: nat, b: nat, rank: Rank)
    requires StatesFollow(org, ranks, trace) && AllFindTheirRows(trace)
    requires final in FINALS && Addresses(e.addr, final, org)
    requires b == if final == REFAB then 0 else BankNumber(org, e.addr[BANKGROUP], e.addr[BANK])
    requires BanksOk(ranks[e.addr[RANK]].banks, dues) && (final == REFAB || b < |ranks[e.addr[RANK]].banks|)
    requires e.cmd == Next(ranks[e.addr[RANK]].banks, final, b, e.addr[ROW])
    requires rank.banks == Action(ranks[e.addr[RANK]].banks, e.cmd, b, e.addr[ROW])
    ensures StatesFollow(org, ranks[e.addr[RANK] := rank], trace + [e]) && AllFindTheirRows(trace + [e])
  {
    hide OpenSince, Opens, Closes, BanksOk, Next, Action, OpenOn, FindsItsRow;
    var r := e.addr[RANK];
    var ranks' := ranks[r := rank];
    forall at: Place, row | InOrg(at, org)
      ensures OpenOn(ranks'[at.rank].banks, BankNumber(org, at.bg, at.bank), row) <==> OpenSince(trace + [e], at, row)
    {
      OpenOneMore(trace, e, at, row);
      BankFollows(org, ranks[r].banks, dues, e, final, b, at, row);
    }
    forall k | 0 <= k < |trace + [e]| ensures FindsItsRow(trace + [e], k) {
      if k < |trace| {
        StillFinds(trace, e, k);
      } else {
        NewFinds(org, ranks, dues, trace, e, final, b);
      }
    }
  }

  lemma {:induction false} StillFinds(trace: seq<Event>, e: Event, k: nat)
    requires k < |trace| && FindsItsRow(trace, k)
    ensures FindsItsRow(trace + [e], k)
  {
    assert (trace + [e])[..k] == trace[..k];
  }

  /// What the command does to one bank, by the trace's measure.
  lemma {:induction false} BankFollows(org: Org, banks: seq<Bank>, dues: seq<int>, e: Event, final: nat, b: nat,
                                       at: Place, row: int)
    requires final in FINALS && Addresses(e.addr, final, org) && InOrg(at, org)
    requires b == if final == REFAB then 0 else BankNumber(org, e.addr[BANKGROUP], e.addr[BANK])
    requires BanksOk(banks, dues) && (final == REFAB || b < |banks|)
    requires e.cmd == Next(banks, final, b, e.addr[ROW])
    ensures at.rank == e.addr[RANK] ==>
              (OpenOn(Action(banks, e.cmd, b, e.addr[ROW]), BankNumber(org, at.bg, at.bank), row) <==>
               Opens(e, at, row) || (OpenOn(banks, BankNumber(org, at.bg, at.bank), row) && !Closes(e, at)))
    ensures at.rank != e.addr[RANK] ==> !Opens(e, at, row) && !Closes(e, at)
  {
    hide BanksOk, Action, OpenOn;
    ActionOpens(banks, dues, final, b, e.addr[ROW], BankNumber(org, at.bg, at.bank), row);
    if final != REFAB {
      DigitUnique(e.addr[BANKGROUP], e.addr[BANK], at.bg, at.bank, org.banks);
    }
  }

  /// A column access that is the next command finds its row open.
  lemma {:induction false} NewFinds(org: Org, ranks: seq<Rank>, dues: seq<int>, trace: seq<Event>, e: Event,
                                    final: nat, b: nat)
    requires StatesFollow(org, ranks, trace) && final in FINALS && Addresses(e.addr, final, org)
    requires b == if final == REFAB then 0 else BankNumber(org, e.addr[BANKGROUP], e.addr[BANK])
    requires BanksOk(ranks[e.addr[RANK]].banks, dues) && (final == REFAB || b < |ranks[e.addr[RANK]].banks|)
    requires e.cmd == Next(ranks[e.addr[RANK]].banks, final, b, e.addr[ROW])
    ensures FindsItsRow(trace + [e], |trace|)
  {
    hide OpenSince, BanksOk;
    assert (trace + [e])[..|trace|] == trace;
    if final != REFAB {
      NextDecides(ranks[e.addr[RANK]].banks, dues, final, b, e.addr[ROW]);
      if e.cmd in {RD, WR} {
        var at := Place(e.addr[RANK], e.addr[BANKGROUP], e.addr[BANK]);
        assert InOrg(at, org);
      }
    }
  }
}
