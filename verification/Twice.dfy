/** The idealized TWiCe tracker (src/dram_controller/impl/plugin/twice.cpp): a table per bank whose entries age at
    every all-bank refresh and are dropped when they fall behind the pruning rate.  */
module Twice {
  import opened ActivationLog
  import opened Bits
  import opened FlatBanks
  import opened PluginEvents

  datatype Entry = Entry(actCount: int, life: int)

  /// The entry falls behind the pruning rate.
  predicate Behind(e: Entry, rate: real) {
    e.actCount as real < e.life as real * rate
  }

  function Positive(rate: real): (q: real)
    ensures q >= 0.0 && q >= rate
  {
    if rate < 0.0 then 0.0 else rate
  }

  /// What n refreshes may hide: the pruning rate, if positive, n times.
  ghost function Allowance(rate: real, n: nat): (a: real)
    ensures a >= 0.0
  {
    if n == 0 then 0.0 else Allowance(rate, n - 1) + Positive(rate)
  }

  lemma {:induction false} AllowanceAdds(rate: real, m: nat, n: nat)
    ensures Allowance(rate, m + n) == Allowance(rate, m) + Allowance(rate, n)
  {
    if n > 0 { AllowanceAdds(rate, m, n - 1); }
  }

  lemma {:induction false} AllowanceIsProduct(rate: real, n: nat)
    ensures Allowance(rate, n) == Positive(rate) * n as real
  {
    if n > 0 { AllowanceIsProduct(rate, n - 1); }
  }

  /// A pruned entry's count was below what its life allows.
  lemma {:induction false} BehindAllowance(e: Entry, rate: real)
    requires e.life >= 0 && Behind(e, rate)
    ensures e.actCount as real <= Allowance(rate, e.life)
  {
    AllowanceIsProduct(rate, e.life);
    assert e.life as real * rate <= e.life as real * Positive(rate);
  }

  function MaxCount(threshold: int): int {
    if threshold - 1 < 1 then 1 else threshold - 1
  }

  /// What the table knows of a row covers what happened to it: its count plus the pruning rate for every
  /// refresh its entry has not lived through.  The count itself is never ahead of what happened.
  ghost predicate CoversRow(table: map<int, Entry>, log: Log, threshold: int, rate: real, row: int) {
    var r := Refreshes(log, row);
    if row in table then
      var e := table[row];
      0 <= e.life <= r && 1 <= e.actCount <= MaxCount(threshold) && e.actCount <= Acts(log, row) &&
      Acts(log, row) as real <= e.actCount as real + Allowance(rate, r - e.life)
    else
      Acts(log, row) as real <= Allowance(rate, r)
  }

  ghost predicate Covers(table: map<int, Entry>, log: Log, threshold: int, rate: real) {
    forall row :: CoversRow(table, log, threshold, rate, row)
  }

  lemma {:induction false} BoundByAllowance(table: map<int, Entry>, log: Log, threshold: int, rate: real, row: int)
    requires CoversRow(table, log, threshold, rate, row)
    ensures Acts(log, row) as real <= MaxCount(threshold) as real + Allowance(rate, Refreshes(log, row))
  {
    if row in table {
      AllowanceAdds(rate, Refreshes(log, row) - table[row].life, table[row].life);
    }
  }

  /// However often a row's entry was pruned and inserted again: its activates since its last refresh
  /// request stay within the threshold's slack plus the pruning rate per refresh.
  lemma {:induction false} Bound(table: map<int, Entry>, log: Log, threshold: int, rate: real, row: int)
    requires Covers(table, log, threshold, rate)
    ensures Acts(log, row) as real <= MaxCount(threshold) as real + Positive(rate) * Refreshes(log, row) as real
  {
    hide CoversRow, Allowance, MaxCount, Positive;
    BoundByAllowance(table, log, threshold, rate, row);
    AllowanceIsProduct(rate, Refreshes(log, row));
  }

  /// A pruning rate that is not positive prunes nothing, so that all counts are exact.
  lemma {:induction false} ExactIfNeverPruned(table: map<int, Entry>, log: Log, threshold: int, rate: real, row: int)
    requires Covers(table, log, threshold, rate) && rate <= 0.0
    ensures Acts(log, row) == if row in table then table[row].actCount else 0
  {
    var r := Refreshes(log, row);
    assert CoversRow(table, log, threshold, rate, row);
    AllowanceIsProduct(rate, r);
    if row in table {
      AllowanceIsProduct(rate, r - table[row].life);
    }
  }

  // ---------- one activate, one refresh ----------

  /// The table after an activate of `row`, and whether a refresh of its victims is requested.
  function Activated(table: map<int, Entry>, row: int, threshold: int): (map<int, Entry>, bool) {
    if row !in table then (table[row := Entry(1, 0)], false)
    else if table[row].actCount + 1 >= threshold then (table - {row}, true)
    else (table[row := table[row].(actCount := table[row].actCount + 1)], false)
  }

  function Refreshed(table: map<int, Entry>, rate: real): map<int, Entry> {
    map row | row in table && !Behind(table[row], rate) :: table[row].(life := table[row].life + 1)
  }

  lemma {:induction false} ActivateCovers(table: map<int, Entry>, log: Log, threshold: int, rate: real, row: int)
    requires Covers(table, log, threshold, rate)
    ensures var (table', vrr) := Activated(table, row, threshold);
            Covers(table', Logged(log, row, vrr), threshold, rate)
  {
    var (table', vrr) := Activated(table, row, threshold);
    LoggedActs(log, row, vrr);
    forall r ensures CoversRow(table', Logged(log, row, vrr), threshold, rate, r) {
      assert CoversRow(table, log, threshold, rate, r);
    }
  }

  /// A refresh is requested only for a row that was truly activated as often as the threshold, and twice at least,
  /// since its last one.
  lemma {:induction false} RequestIsDue(table: map<int, Entry>, log: Log, threshold: int, rate: real, row: int)
    requires Covers(table, log, threshold, rate) && Activated(table, row, threshold).1
    ensures Acts(log, row) + 1 >= Max(2, threshold)
  {
    assert CoversRow(table, log, threshold, rate, row);
  }

  lemma {:induction false} RefreshCovers(table: map<int, Entry>, log: Log, threshold: int, rate: real)
    requires Covers(table, log, threshold, rate)
    ensures Covers(Refreshed(table, rate), log + [Refresh], threshold, rate)
  {
    OneMore(log, Refresh);
    forall row ensures CoversRow(Refreshed(table, rate), log + [Refresh], threshold, rate, row) {
      assert CoversRow(table, log, threshold, rate, row);
      var r := Refreshes(log, row);
      if row in table && Behind(table[row], rate) {
        BehindAllowance(table[row], rate);
        AllowanceAdds(rate, r - table[row].life, table[row].life);
      }
    }
  }

  // ---------- the plugin ----------

  class Twice {
    const geometry: Geometry
    const numBanks: nat
    const threshold: int
    const rate: real

    var clk: nat
    var table: seq<map<int, Entry>>

    ghost var log: seq<Log>   // per bank

    ghost predicate Valid()
      reads this
    {
      && geometry.Valid() && numBanks == geometry.NumBanks()
      && |table| == |log| == numBanks
      && forall b :: 0 <= b < numBanks ==> Covers(table[b], log[b], threshold, rate)
    }

    constructor (geometry: Geometry, numBanks: nat, threshold: int, rate: real)
      requires geometry.Valid() && numBanks == geometry.NumBanks()
      ensures Valid() && this.geometry == geometry && this.threshold == threshold && this.rate == rate
      ensures clk == 0 && log == seq(numBanks, _ => []) && table == seq(numBanks, _ => map[])
    {
      this.geometry, this.numBanks, this.threshold, this.rate := geometry, numBanks, threshold, rate;
      this.clk := 0;
      this.table := seq(numBanks, _ => map[]);
      this.log := seq(numBanks, _ => []);
    }

    /// Collects the entries that fall behind while the others grow older, then erases them.
    static method AgeTable(before: map<int, Entry>, rate: real) returns (t: map<int, Entry>)
      ensures t == Refreshed(before, rate)
    {
      t := before;
      var rest := t.Keys;
      var toBePruned: set<int> := {};
      while exists k :: k in rest
        invariant rest <= before.Keys == t.Keys && toBePruned <= before.Keys - rest
        invariant forall k :: k in before && k !in rest ==> (k in toBePruned <==> Behind(before[k], rate))
        invariant forall k :: k in before ==>
          t[k] == if k in rest || k in toBePruned then before[k] else before[k].(life := before[k].life + 1)
        decreases rest
      {
        var k :| k in rest;
        if Behind(t[k], rate) {
          toBePruned := toBePruned + {k};
        } else {
          t := t[k := t[k].(life := t[k].life + 1)];
        }
        rest := rest - {k};
      }
      assert forall k :: k in before ==> k !in rest;
      assert forall k :: k in before ==> (k in toBePruned <==> Behind(before[k], rate));
      assert forall k :: k in before && k !in toBePruned ==> t[k] == before[k].(life := before[k].life + 1);
      t := t - toBePruned;
      assert forall k :: k in t <==> k in before && !Behind(before[k], rate);
      assert t.Keys == Refreshed(before, rate).Keys;
    }

    /// One cycle: a refresh of any rank ages the tables of all banks, an activate updates its own bank's.
    method Update(served: Served) returns (vrr: bool)
      requires Valid() && (served.Activate? ==> geometry.Names(served.addr))
      modifies this
      ensures Valid() && clk == old(clk) + 1
      ensures served.Nothing? ==> table == old(table) && log == old(log) && !vrr
      ensures served.RefreshRank? ==> !vrr && forall b :: 0 <= b < numBanks ==>
        table[b] == Refreshed(old(table)[b], rate) && log[b] == old(log)[b] + [Refresh]
      ensures served.Activate? ==>
        var b, row := geometry.BankOf(served.addr), served.addr[geometry.rowLevel];
        (table[b], vrr) == Activated(old(table)[b], row, threshold) && table == old(table)[b := table[b]] &&
        log == old(log)[b := Logged(old(log)[b], row, vrr)] &&
        (vrr ==> Acts(old(log)[b], row) + 1 >= Max(2, threshold))
    {
      clk := clk + 1;
      vrr := false;
      match served
      case Nothing =>
      case RefreshRank => RefreshAll();
      case Activate(addr) =>
        var b := FlatBankId(addr, geometry.count, geometry.rankLevel, geometry.bankLevel);
        assert b == geometry.BankOf(addr);
        vrr := ActivateBank(b, addr[geometry.rowLevel]);
    }

    method RefreshAll()
      requires Valid()
      modifies this`table, this`log
      ensures Valid()
      ensures forall b :: 0 <= b < numBanks ==>
        table[b] == Refreshed(old(table)[b], rate) && log[b] == old(log)[b] + [Refresh]
    {
      for b := 0 to numBanks
        invariant Valid()
        invariant forall c :: 0 <= c < b ==>
          table[c] == Refreshed(old(table)[c], rate) && log[c] == old(log)[c] + [Refresh]
        invariant forall c :: b <= c < numBanks ==> table[c] == old(table)[c] && log[c] == old(log)[c]
      {
        RefreshCovers(table[b], log[b], threshold, rate);
        var t := AgeTable(table[b], rate);
        table, log := table[b := t], log[b := log[b] + [Refresh]];
      }
    }

    method ActivateBank(b: nat, row: int) returns (vrr: bool)
      requires Valid() && b < numBanks
      modifies this`table, this`log
      ensures Valid()
      ensures (table[b], vrr) == Activated(old(table)[b], row, threshold)
      ensures table == old(table)[b := table[b]] && log == old(log)[b := Logged(old(log)[b], row, vrr)]
      ensures vrr ==> Acts(old(log)[b], row) + 1 >= Max(2, threshold)
    {
      if Activated(table[b], row, threshold).1 {
        RequestIsDue(table[b], log[b], threshold, rate, row);
      }
      ActivateCovers(table[b], log[b], threshold, rate, row);
      var t := table[b];
      vrr := false;
      if row !in t {
        t := t[row := Entry(1, 0)];
      } else {
        t := t[row := t[row].(actCount := t[row].actCount + 1)];
        if t[row].actCount >= threshold {
          vrr := true;
          t := t - {row};
          assert t == table[b] - {row};
        }
      }
      table, log := table[b := t], log[b := Logged(log[b], row, vrr)];
    }
  }

  /// In every reachable state a row's entry counts no more than the row's true activates since its last request,
  /// and those stay within the threshold's slack plus the pruning rate per refresh.
  lemma {:induction false} RowIsTracked(t: Twice, b: nat, row: int)
    requires t.Valid() && b < t.numBanks
    ensures row in t.table[b] ==> 1 <= t.table[b][row].actCount <= Acts(t.log[b], row)
    ensures Acts(t.log[b], row) as real <=
            MaxCount(t.threshold) as real + Positive(t.rate) * Refreshes(t.log[b], row) as real
  {
    hide Positive, MaxCount, Allowance;
    assert CoversRow(t.table[b], t.log[b], t.threshold, t.rate, row);
    Bound(t.table[b], t.log[b], t.threshold, t.rate, row);
  }

  // ---------- the slack is used up ----------

  /// With no refresh in between, a row is activated one time less than the threshold, and once at least, with no
  /// request, and the next activate brings it.
  method WorstCase(t: Twice, b: nat, row: int) returns (ghost before: Log)
    requires t.Valid() && b < t.numBanks && t.log[b] == [] && t.table[b] == map[]
    modifies t`table, t`log
    ensures t.Valid() && t.log[b] == before + [Act(row)] + [Vrr(row)]
    ensures Acts(before, row) == Max(1, t.threshold - 1) && forall r :: Vrr(r) !in before
  {
    hide Covers, Acts;
    NoActs(row);
    var n := Max(1, t.threshold - 1);
    for i := 0 to n
      invariant t.Valid() && Acts(t.log[b], row) == i && forall r :: Vrr(r) !in t.log[b]
      invariant if i == 0 then row !in t.table[b] else row in t.table[b] && t.table[b][row] == Entry(i, 0)
    {
      OneMore(t.log[b], Act(row));
      var vrr := t.ActivateBank(b, row);
    }
    before := t.log[b];
    var vrr := t.ActivateBank(b, row);
  }

  // ---------- the refresh term is needed ----------

  /// With a positive pruning rate there is no bound without the refreshes: any number of activates can
  /// go by with no refresh request, the row's entry being pruned after each of them.
  method PrunedForever(t: Twice, b: nat, row: int, n: nat)
    requires t.Valid() && b < t.numBanks && t.rate > 0.0
    requires t.log[b] == [] && t.table[b] == map[]
    modifies t`table, t`log
    ensures t.Valid() && Acts(t.log[b], row) == n
    ensures forall r :: Vrr(r) !in t.log[b]
  {
    hide Behind, Covers, Acts;
    var m: nat := (1.0 / t.rate).Floor + 1;
    EnoughRefreshes(t.rate, m);
    NoActs(row);
    for i := 0 to n
      invariant t.Valid() && row !in t.table[b]
      invariant Acts(t.log[b], row) == i && forall r :: Vrr(r) !in t.log[b]
    {
      OneMore(t.log[b], Act(row));
      var vrr := t.ActivateBank(b, row);
      AgeOut(t, b, row, m);
    }
  }

  /// A row that was activated once is dropped by the refresh that finds it m refreshes old.
  method AgeOut(t: Twice, b: nat, row: int, m: nat)
    requires t.Valid() && b < t.numBanks && Behind(Entry(1, m), t.rate)
    requires row in t.table[b] && t.table[b][row] == Entry(1, 0)
    modifies t`table, t`log
    ensures t.Valid() && row !in t.table[b]
    ensures Acts(t.log[b], row) == Acts(old(t.log)[b], row)
    ensures (forall r :: Vrr(r) !in old(t.log)[b]) ==> forall r :: Vrr(r) !in t.log[b]
  {
    hide Behind, Covers, Acts;
    for j := 0 to m + 1
      invariant t.Valid() && (row in t.table[b] ==> t.table[b][row] == Entry(1, j))
      invariant j == m + 1 ==> row !in t.table[b]
      invariant Acts(t.log[b], row) == Acts(old(t.log)[b], row)
      invariant (forall r :: Vrr(r) !in old(t.log)[b]) ==> forall r :: Vrr(r) !in t.log[b]
    {
      OneMore(t.log[b], Refresh);
      t.RefreshAll();
    }
  }

  lemma {:induction false} EnoughRefreshes(rate: real, m: nat)
    requires rate > 0.0 && m == (1.0 / rate).Floor + 1
    ensures Behind(Entry(1, m), rate)
  {
    var x := 1.0 / rate;
    assert m as real > x;
    assert m as real * rate > x * rate;
  }
}
