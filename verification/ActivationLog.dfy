/** What really happened to one bank, kept beside the row-activation trackers: the yardstick their
    compressed tables are measured against.  */
module ActivationLog {

  /// An activate of a row, a request for it (a refresh of its victim rows, or a swap), a reset of the tracker's
  /// tables, or an all-bank refresh.
  datatype Entry = Act(row: int) | Vrr(row: int) | Reset | Refresh

  type Log = seq<Entry>

  /// Activates of the row since its last request or table reset.
  ghost function Acts(log: Log, row: int): nat {
    if log == [] then 0
    else
      var before := Acts(log[..|log| - 1], row);
      match log[|log| - 1]
      case Act(r) => if r == row then before + 1 else before
      case Vrr(r) => if r == row then 0 else before
      case Reset => 0
      case Refresh => before
  }

  /// Activates of the row since the last table reset, requests or not.
  ghost function EpochActs(log: Log, row: int): nat {
    if log == [] then 0
    else
      var before := EpochActs(log[..|log| - 1], row);
      match log[|log| - 1]
      case Act(r) => if r == row then before + 1 else before
      case Vrr(r) => before
      case Reset => 0
      case Refresh => before
  }

  /// Activates of the whole bank since the last table reset.
  ghost function BankActs(log: Log): nat {
    if log == [] then 0
    else
      match log[|log| - 1]
      case Act(r) => BankActs(log[..|log| - 1]) + 1
      case Vrr(r) => BankActs(log[..|log| - 1])
      case Reset => 0
      case Refresh => BankActs(log[..|log| - 1])
  }

  /// All-bank refreshes since the row's last request or table reset.
  ghost function Refreshes(log: Log, row: int): nat {
    if log == [] then 0
    else
      var before := Refreshes(log[..|log| - 1], row);
      match log[|log| - 1]
      case Act(r) => before
      case Vrr(r) => if r == row then 0 else before
      case Reset => 0
      case Refresh => before + 1
  }

  lemma {:induction false} OneMore(log: Log, e: Entry)
    ensures forall row :: Acts(log + [e], row) ==
              if e == Reset || e == Vrr(row) then 0 else Acts(log, row) + (if e == Act(row) then 1 else 0)
    ensures BankActs(log + [e]) == if e == Reset then 0 else BankActs(log) + (if e.Act? then 1 else 0)
    ensures forall row :: Refreshes(log + [e], row) ==
              if e == Reset || e == Vrr(row) then 0 else Refreshes(log, row) + (if e == Refresh then 1 else 0)
  {
    assert (log + [e])[..|log|] == log;
  }

  lemma {:induction false} NoActs(row: int)
    ensures Acts([], row) == 0
  {
  }

  lemma {:induction false} OneMoreOfEpoch(log: Log, e: Entry)
    ensures forall row :: EpochActs(log + [e], row) ==
              if e == Reset then 0 else EpochActs(log, row) + (if e == Act(row) then 1 else 0)
  {
    assert (log + [e])[..|log|] == log;
  }

  /// The log grows by an activate, and by a request if one was made.
  ghost function Logged(log: Log, row: int, vrr: bool): Log {
    if vrr then log + [Act(row)] + [Vrr(row)] else log + [Act(row)]
  }

  lemma {:induction false} LoggedActs(log: Log, row: int, vrr: bool)
    ensures forall r :: Acts(Logged(log, row, vrr), r) ==
              if r == row && vrr then 0 else Acts(log, r) + (if r == row then 1 else 0)
    ensures forall r :: Refreshes(Logged(log, row, vrr), r) == if r == row && vrr then 0 else Refreshes(log, r)
    ensures BankActs(Logged(log, row, vrr)) == BankActs(log) + 1
  {
    OneMore(log, Act(row));
    OneMore(log + [Act(row)], Vrr(row));
  }

  lemma {:induction false} LoggedEpochActs(log: Log, row: int, vrr: bool)
    ensures forall r :: EpochActs(Logged(log, row, vrr), r) == EpochActs(log, r) + (if r == row then 1 else 0)
  {
    OneMoreOfEpoch(log, Act(row));
    OneMoreOfEpoch(log + [Act(row)], Vrr(row));
  }
}

/** What the controller tells its plugins each cycle: the command being issued, as far as they look at it.  */
module PluginEvents {
  datatype Served = Nothing | Activate(addr: seq<int>) | RefreshRank
}

/** The flat bank index that every per-bank plugin computes from an address vector.  */
module FlatBanks {
  import opened Bits

  /// Mixed-radix number of the levels from the rank down to `level`.
  ghost function Flat(addr: seq<int>, count: seq<nat>, rankLevel: nat, level: nat): int
    requires rankLevel <= level < |addr| && level < |count|
    decreases level
  {
    if level == rankLevel then addr[level]
    else Flat(addr, count, rankLevel, level - 1) * count[level] + addr[level]
  }

  ghost function Banks(count: seq<nat>, rankLevel: nat, level: nat): nat
    requires rankLevel <= level < |count|
    decreases level
  {
    if level == rankLevel then count[level] else Banks(count, rankLevel, level - 1) * count[level]
  }

  ghost predicate InRange(addr: seq<int>, count: seq<nat>, rankLevel: nat, level: nat) {
    rankLevel <= level < |addr| && level < |count| &&
    forall i :: rankLevel <= i <= level ==> 0 <= addr[i] < count[i]
  }

  method FlatBankId(addr: seq<int>, count: seq<nat>, rankLevel: nat, bankLevel: nat) returns (flat: int)
    requires rankLevel <= bankLevel < |addr| && bankLevel < |count|
    ensures flat == Flat(addr, count, rankLevel, bankLevel)
  {
    flat := addr[bankLevel];
    var accumulated := 1;
    var i := bankLevel;
    while i > rankLevel
      invariant rankLevel <= i <= bankLevel
      invariant Flat(addr, count, rankLevel, bankLevel) ==
                  flat + (Flat(addr, count, rankLevel, i) - addr[i]) * accumulated
    {
      i := i - 1;
      Accumulated(Flat(addr, count, rankLevel, i), count[i + 1], accumulated, addr[i]);
      accumulated := accumulated * count[i + 1];
      flat := flat + addr[i] * accumulated;
    }
  }

  lemma {:induction false} Accumulated(f: int, c: int, a: int, x: int)
    ensures f * c * a == x * (a * c) + (f - x) * (a * c)
  {
    assert f * c * a == f * (a * c);
  }

  /// In-range addresses get in-range indices, and different banks get different ones.
  lemma {:induction false} FlatIsInjective(a: seq<int>, b: seq<int>, count: seq<nat>, rankLevel: nat, level: nat)
    requires InRange(a, count, rankLevel, level) && InRange(b, count, rankLevel, level)
    ensures 0 <= Flat(a, count, rankLevel, level) < Banks(count, rankLevel, level)
    ensures Flat(a, count, rankLevel, level) == Flat(b, count, rankLevel, level) <==>
            forall i :: rankLevel <= i <= level ==> a[i] == b[i]
    decreases level
  {
    if level > rankLevel {
      FlatIsInjective(a, b, count, rankLevel, level - 1);
      var f, g := Flat(a, count, rankLevel, level - 1), Flat(b, count, rankLevel, level - 1);
      DigitRange(f, Banks(count, rankLevel, level - 1), a[level], count[level]);
      DigitUnique(f, a[level], g, b[level], count[level]);
    }
  }

  /// With bank groups between rank and bank: the rank counts whole ranks of banks.
  lemma {:induction false} RankAndRest(addr: seq<int>, count: seq<nat>, r: nat)
    requires InRange(addr, count, r, r + 2)
    ensures var perRank, rest := count[r + 1] * count[r + 2], addr[r + 1] * count[r + 2] + addr[r + 2];
            Flat(addr, count, r, r + 2) == addr[r] * perRank + rest && 0 <= rest < perRank &&
            Banks(count, r, r + 2) == count[r] * perRank
  {
    DigitRange(addr[r + 1], count[r + 1], addr[r + 2], count[r + 2]);
    assert Flat(addr, count, r, r + 1) == Flat(addr, count, r, r) * count[r + 1] + addr[r + 1];
    assert Banks(count, r, r + 1) == Banks(count, r, r) * count[r + 1];
    Reassociate(addr[r], count[r + 1], addr[r + 1], count[r + 2]);
    Associate(count[r], count[r + 1], count[r + 2]);
  }

  /// Where rank, bank and row sit in an address vector, and how many of each level there are.
  datatype Geometry = Geometry(count: seq<nat>, rankLevel: nat, bankLevel: nat, rowLevel: nat) {
    ghost predicate Valid() {
      rankLevel <= bankLevel < rowLevel && bankLevel < |count|
    }

    ghost function NumBanks(): nat
      requires Valid()
    {
      Banks(count, rankLevel, bankLevel)
    }

    /// An address that names one row of one bank of the device.
    ghost predicate Names(addr: seq<int>) {
      Valid() && |addr| > rowLevel && InRange(addr, count, rankLevel, bankLevel)
    }

    ghost function BankOf(addr: seq<int>): (b: nat)
      requires Names(addr)
      ensures b < NumBanks()
    {
      FlatIsInjective(addr, addr, count, rankLevel, bankLevel);
      Flat(addr, count, rankLevel, bankLevel)
    }
  }
}
