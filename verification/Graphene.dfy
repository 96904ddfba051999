/** The Graphene activation tracker (src/dram_controller/impl/plugin/graphene.cpp): a Misra-Gries table with a
    spillover counter per bank.  */
module Graphene {
  import opened ActivationLog
  import opened FlatBanks
  import opened Options
  import opened PluginEvents
  import opened SpilloverTable

  // ---------- one bank's table against its log ----------

  /// The table never undercounts: a row in it is covered by its count, any other by the spillover
  /// counter; no count is ahead of its row's activates by more than the spillover; and the counters never hold
  /// more than the activates that happened.
  ghost predicate Covers(table: map<int, int>, spill: int, log: Log, entries: nat, threshold: int) {
    && |table| == entries && 0 <= spill
    && (forall row :: row in table ==> spill <= table[row] && (table[row] < threshold || table[row] <= spill + 1))
    && (forall row :: Acts(log, row) <= if row in table then table[row] else spill)
    && (forall row :: row in table ==> table[row] <= Acts(log, row) + spill)
    && Sum(table) + spill <= BankActs(log)
  }

  /// spillover * (entries + 1) never exceeds the bank's activates since the last reset.
  lemma {:induction false} SpilloverBound(table: map<int, int>, spill: int, log: Log, entries: nat, threshold: nat)
    requires Covers(table, spill, log, entries, threshold)
    ensures spill * (entries + 1) <= BankActs(log)
  {
    SumAtLeast(table, spill, entries);
    MulStep(spill, entries + 1);
  }

  /// Up to (entries + 1) * (threshold - 1) activates, no row has reached the threshold since its last
  /// refresh request.
  lemma {:induction false} NoRowReachesThreshold(table: map<int, int>, spill: int, log: Log, entries: nat,
                                                 threshold: nat, row: int)
    requires Covers(table, spill, log, entries, threshold) && threshold >= 1
    requires BankActs(log) <= (entries + 1) * (threshold - 1)
    ensures Acts(log, row) < threshold
  {
    SpilloverBound(table, spill, log, entries, threshold);
    Cancel(entries + 1, spill, threshold - 1);
    if row in table && spill == threshold - 1 {
      SumAtLeastWith(table, spill, entries, row);
      AllAtSpillover(Sum(table), spill, entries, table[row]);
    }
  }

  lemma {:induction false} AllAtSpillover(sum: int, s: int, n: nat, v: int)
    requires n > 0 && sum >= s * (n - 1) + v && sum + s <= (n + 1) * s
    ensures v <= s
  {
    MulStep(s, n);
    MulStep(s, n + 1);
  }

  lemma {:induction false} Cancel(a: nat, x: int, y: int)
    requires a > 0 && x * a <= a * y
    ensures x <= y
  {
    if x > y {
      MulMonotone(a, y + 1, x);
      assert false;
    }
  }

  lemma {:induction false} MulMonotone(a: nat, x: int, y: int)
    requires x <= y
    ensures a * x <= y * a
  {
  }

  // ---------- one activate ----------

  /// What one activate does to a bank's table; which spillover-valued entry is evicted is left open.
  ghost predicate Step(table: map<int, int>, spill: int, row: int, threshold: int,
                       table': map<int, int>, spill': int, vrr: bool) {
    if row in table then
      vrr == (table[row] + 1 >= threshold) && spill' == spill &&
      table' == table[row := if vrr then spill else table[row] + 1]
    else if exists victim :: Evictable(table, spill, victim) then
      !vrr && spill' == spill &&
      exists victim :: Evictable(table, spill, victim) && table' == (table - {victim})[row := spill + 1]
    else !vrr && spill' == spill + 1 && table' == table
  }

  lemma {:induction false} HitCovers(table: map<int, int>, spill: int, log: Log, entries: nat, threshold: int, row: int)
    requires Covers(table, spill, log, entries, threshold) && row in table
    ensures var vrr := table[row] + 1 >= threshold;
            Covers(table[row := if vrr then spill else table[row] + 1], spill, Logged(log, row, vrr), entries,
                   threshold)
  {
    hide Logged, Acts, BankActs, Sum;
    var vrr := table[row] + 1 >= threshold;
    var table' := table[row := if vrr then spill else table[row] + 1];
    LoggedActs(log, row, vrr);
    SumReplace(table, row, row, table'[row]);
    assert (table - {row})[row := table'[row]] == table';
  }

  lemma {:induction false} EvictCovers(table: map<int, int>, spill: int, log: Log, entries: nat, threshold: int,
                                       row: int, victim: int)
    requires Covers(table, spill, log, entries, threshold) && row !in table && Evictable(table, spill, victim)
    ensures Covers((table - {victim})[row := spill + 1], spill, Logged(log, row, false), entries, threshold)
  {
    hide Logged, Acts, BankActs, Sum;
    LoggedActs(log, row, false);
    SumReplace(table, victim, row, spill + 1);
  }

  lemma {:induction false} SpillCovers(table: map<int, int>, spill: int, log: Log, entries: nat, threshold: int,
                                       row: int)
    requires Covers(table, spill, log, entries, threshold) && row !in table
    requires forall victim :: !Evictable(table, spill, victim)
    ensures Covers(table, spill + 1, Logged(log, row, false), entries, threshold)
  {
    hide Logged, Acts, BankActs, Sum;
    LoggedActs(log, row, false);
    forall r | r in table ensures table[r] > spill {
      assert !Evictable(table, spill, r);
    }
  }

  lemma {:induction false} StepCovers(table: map<int, int>, spill: int, log: Log, entries: nat, threshold: int,
                                      row: int, table': map<int, int>, spill': int, vrr: bool)
    requires Covers(table, spill, log, entries, threshold)
    requires Step(table, spill, row, threshold, table', spill', vrr)
    ensures Covers(table', spill', Logged(log, row, vrr), entries, threshold)
  {
    hide Covers, Logged;
    if row in table {
      HitCovers(table, spill, log, entries, threshold, row);
    } else if exists victim :: Evictable(table, spill, victim) {
      var victim :| Evictable(table, spill, victim) && table' == (table - {victim})[row := spill + 1];
      EvictCovers(table, spill, log, entries, threshold, row, victim);
    } else {
      SpillCovers(table, spill, log, entries, threshold, row);
    }
  }

  /// A refresh is requested only for a row that was activated as often as the threshold since its last one, but for
  /// the spillover value.
  lemma {:induction false} RequestIsDue(table: map<int, int>, spill: int, log: Log, entries: nat, threshold: int,
                                        row: int, table': map<int, int>, spill': int, vrr: bool)
    requires Covers(table, spill, log, entries, threshold)
    requires Step(table, spill, row, threshold, table', spill', vrr) && vrr
    ensures Acts(log, row) + 1 + spill >= threshold
  {
    hide Acts, BankActs, Sum;
  }

  /// A reset sets every count to zero and keeps the keys.
  lemma {:induction false} ResetCovers(table: map<int, int>, log: Log, entries: nat, threshold: int)
    requires |table| == entries && forall k :: k in table ==> table[k] == 0
    requires forall row :: Acts(log, row) == 0
    ensures Covers(table, 0, log, entries, threshold)
  {
    SumOfZeros(table);
  }

  /// The initial table: `entries` keys that are no row ids, from `first` on, all counted zero.
  ghost predicate IsDummyTable(t: map<int, int>, first: int, entries: nat) {
    |t| == entries && forall k :: k in t ==> first <= k < first + entries && t[k] == 0
  }

  /// Tables, spillover counters and logs once the periodic reset, if it is due, has happened.
  ghost function AfterReset(table: seq<map<int, int>>, spill: seq<int>, log: seq<Log>,
                            due: bool): (start: (seq<map<int, int>>, seq<int>, seq<Log>))
    ensures |start.0| == |table| && |start.1| == |spill| && |start.2| == |log|
  {
    if due then
      (seq(|table|, b requires 0 <= b < |table| => map k | k in table[b] :: 0), seq(|spill|, _ => 0),
       seq(|log|, b requires 0 <= b < |log| => log[b] + [Reset]))
    else (table, spill, log)
  }

  lemma {:induction false} SubsetSize(a: set<int>, b: set<int>)
    requires a <= b
    ensures |a| <= |b|
    ensures |a| == |b| ==> a == b
  {
    assert b == a + (b - a) && |b| == |a| + |b - a|;
  }

  // ---------- a table with room for every row ----------

  /// The log holds activates of the bank's rows only.
  ghost predicate InBank(log: Log, numRows: int) {
    forall r :: Act(r) in log ==> 0 <= r < numRows
  }

  /// Nothing has been spilled, and keys that are no rows are not counted.
  ghost predicate Roomy(table: map<int, int>, spill: int, numRows: int) {
    spill == 0 && forall k :: k in table && !(0 <= k < numRows) ==> table[k] == 0
  }

  /// As long as a row is missing, a table with at least as many entries as the bank has rows holds a key that is none.
  lemma {:induction false} SomeDummy(table: map<int, int>, numRows: int, row: int)
    requires |table| >= numRows && 0 <= row < numRows && row !in table
    ensures exists k :: k in table && !(0 <= k < numRows)
  {
    BelowSize(numRows);
    var others := Below(numRows) - {row};
    if table.Keys <= others {
      SubsetSize(table.Keys, others);
      assert false;
    }
  }

  /// So it never spills.
  lemma {:induction false} StaysRoomy(table: map<int, int>, spill: int, numRows: int, row: int, threshold: int,
                                      table': map<int, int>, spill': int, vrr: bool)
    requires Roomy(table, spill, numRows) && |table| >= numRows && 0 <= row < numRows
    requires Step(table, spill, row, threshold, table', spill', vrr)
    ensures Roomy(table', spill', numRows)
  {
    if row !in table {
      SomeDummy(table, numRows, row);
      var key :| key in table && !(0 <= key < numRows);
      assert Evictable(table, spill, key);
    }
  }

  lemma {:induction false} LoggedInBank(log: Log, row: int, vrr: bool, numRows: int)
    ensures InBank(Logged(log, row, vrr), numRows) ==> InBank(log, numRows) && 0 <= row < numRows
  {
    var log' := Logged(log, row, vrr);
    assert Act(row) in log' by { assert log'[|log|] == Act(row); }
    assert forall e :: e in log ==> e in log';
  }

  /// One bank: the table covers the true counts, and has not spilled if it has room for every row.
  ghost predicate BankOk(table: map<int, int>, spill: int, log: Log, entries: nat, threshold: int, numRows: int) {
    Covers(table, spill, log, entries, threshold) &&
    (entries >= numRows && InBank(log, numRows) ==> Roomy(table, spill, numRows))
  }

  lemma {:induction false} BankCovers(table: map<int, int>, spill: int, log: Log, entries: nat, threshold: int,
                                      numRows: int)
    requires BankOk(table, spill, log, entries, threshold, numRows)
    ensures Covers(table, spill, log, entries, threshold)
  {
  }

  lemma {:induction false} StepKeeps(table: map<int, int>, spill: int, log: Log, entries: nat, threshold: int,
                                     numRows: int, row: int, table': map<int, int>, spill': int, vrr: bool)
    requires BankOk(table, spill, log, entries, threshold, numRows)
    requires Step(table, spill, row, threshold, table', spill', vrr)
    ensures BankOk(table', spill', Logged(log, row, vrr), entries, threshold, numRows)
  {
    hide Step, Roomy, InBank, Logged;
    StepCovers(table, spill, log, entries, threshold, row, table', spill', vrr);
    LoggedInBank(log, row, vrr, numRows);
    if entries >= numRows && InBank(Logged(log, row, vrr), numRows) {
      StaysRoomy(table, spill, numRows, row, threshold, table', spill', vrr);
    }
  }

  // ---------- the plugin ----------

  class Graphene {
    const geometry: Geometry
    const numBanks: nat
    const numRows: int
    const entries: nat
    const threshold: int
    const resetPeriod: nat

    var clk: int
    var table: seq<map<int, int>>
    var spill: seq<int>

    ghost var log: seq<Log>   // per bank

    ghost predicate Valid()
      reads this
    {
      && geometry.Valid() && numBanks == geometry.NumBanks() && resetPeriod > 0
      && |table| == |spill| == |log| == numBanks
      && forall b :: 0 <= b < numBanks ==> BankOk(table[b], spill[b], log[b], entries, threshold, numRows)
    }

    constructor (geometry: Geometry, numBanks: nat, numRows: int, entries: nat, threshold: int, resetPeriod: nat)
      requires geometry.Valid() && numBanks == geometry.NumBanks() && resetPeriod > 0
      ensures Valid()
      ensures this.geometry == geometry && this.entries == entries && this.threshold == threshold
      ensures this.resetPeriod == resetPeriod && this.numRows == numRows && this.numBanks == numBanks
      ensures clk == -1 && spill == seq(numBanks, _ => 0) && log == seq(numBanks, _ => [])
      ensures forall b :: 0 <= b < numBanks ==> IsDummyTable(table[b], -numRows, entries)
    {
      this.geometry, this.numBanks, this.numRows := geometry, numBanks, numRows;
      this.entries, this.threshold, this.resetPeriod := entries, threshold, resetPeriod;
      this.clk := -1;
      var dummies: map<int, int> := map[];
      for j := 0 to entries
        invariant IsDummyTable(dummies, -numRows, j)
      {
        dummies := dummies[-numRows + j := 0];
      }
      this.table := seq(numBanks, _ => dummies);
      this.spill := seq(numBanks, _ => 0);
      this.log := seq(numBanks, _ => []);
      new;
      ResetCovers(dummies, [], entries, threshold);
    }

    method ResetBank(b: nat)
      requires |table| == |spill| == |log| == numBanks && b < numBanks
      requires BankOk(table[b], spill[b], log[b], entries, threshold, numRows)
      modifies this`table, this`spill, this`log
      ensures |table| == |spill| == |log| == numBanks
      ensures table == old(table)[b := map k | k in old(table)[b] :: 0]
      ensures spill == old(spill)[b := 0] && log == old(log)[b := old(log)[b] + [Reset]]
      ensures BankOk(table[b], spill[b], log[b], entries, threshold, numRows)
    {
      var t := table[b];
      var rest := t.Keys;
      while exists k :: k in rest
        invariant rest <= t.Keys == table[b].Keys
        invariant t == map k | k in table[b] :: if k in rest then table[b][k] else 0
        decreases rest
      {
        var k :| k in rest;
        t := t[k := 0];
        rest := rest - {k};
      }
      assert t == map k | k in old(table)[b] :: 0;
      table, spill := table[b := t], spill[b := 0];
      OneMore(log[b], Reset);
      log := log[b := log[b] + [Reset]];
      assert t.Keys == old(table)[b].Keys;
      ResetCovers(t, log[b], entries, threshold);
    }

    method ResetAll()
      requires Valid()
      modifies this`table, this`spill, this`log
      ensures Valid()
      ensures forall b :: 0 <= b < numBanks ==>
        table[b] == (map k | k in old(table)[b] :: 0) && spill[b] == 0 && log[b] == old(log)[b] + [Reset]
    {
      hide BankOk, Covers;
      for b := 0 to numBanks
        invariant Valid()
        invariant forall c :: 0 <= c < b ==>
          table[c] == (map k | k in old(table)[c] :: 0) && spill[c] == 0 && log[c] == old(log)[c] + [Reset]
        invariant forall c :: b <= c < numBanks ==>
          table[c] == old(table)[c] && spill[c] == old(spill)[c] && log[c] == old(log)[c]
      {
        ResetBank(b);
      }
    }

    /// One activate of row `row` in flat bank b.
    method Activated(b: nat, row: int) returns (vrr: bool)
      requires Valid() && b < numBanks
      modifies this`table, this`spill, this`log
      ensures Valid()
      ensures Step(old(table)[b], old(spill)[b], row, threshold, table[b], spill[b], vrr)
      ensures table == old(table)[b := table[b]] && spill == old(spill)[b := spill[b]]
      ensures log == old(log)[b := Logged(old(log)[b], row, vrr)]
      ensures vrr ==> Acts(old(log)[b], row) + 1 + old(spill)[b] >= threshold
    {
      hide BankOk, Logged;
      var t, s := table[b], spill[b];
      var t', s' := t, s;
      vrr := false;
      if row !in t {
        var victim := FindSpilled(t, s);
        if victim.Some? {
          assert Evictable(t, s, victim.value);
          t' := (t - {victim.value})[row := t[victim.value] + 1];
        } else {
          s' := s + 1;
        }
      } else {
        t' := t[row := t[row] + 1];
        if t'[row] >= threshold {
          vrr := true;
          t' := t'[row := s];
          assert t' == t[row := s];
        }
      }
      StepKeeps(t, s, log[b], entries, threshold, numRows, row, t', s', vrr);
      if vrr {
        BankCovers(t, s, log[b], entries, threshold, numRows);
        RequestIsDue(t, s, log[b], entries, threshold, row, t', s', vrr);
      }
      table, spill, log := table[b := t'], spill[b := s'], log[b := Logged(log[b], row, vrr)];
    }

    /// One controller cycle: the periodic reset, then the activate that was served, if any.
    method Update(served: Served) returns (vrr: bool)
      requires Valid() && (served.Activate? ==> geometry.Names(served.addr))
      modifies this
      ensures Valid() && clk == old(clk) + 1
      ensures var start := AfterReset(old(table), old(spill), old(log), clk % resetPeriod == 0);
              if served.Activate? then
                var b, row := geometry.BankOf(served.addr), served.addr[geometry.rowLevel];
                Step(start.0[b], start.1[b], row, threshold, table[b], spill[b], vrr) &&
                table == start.0[b := table[b]] && spill == start.1[b := spill[b]] &&
                log == start.2[b := Logged(start.2[b], row, vrr)] &&
                (vrr ==> Acts(start.2[b], row) + 1 + start.1[b] >= threshold)
              else (table, spill, log) == start && !vrr
    {
      hide BankOk, Step;
      clk := clk + 1;
      vrr := false;
      if clk % resetPeriod == 0 {
        ResetAll();
      }
      ghost var start := AfterReset(old(table), old(spill), old(log), clk % resetPeriod == 0);
      assert table == start.0 && spill == start.1 && log == start.2;
      if served.Activate? {
        var b := FlatBankId(served.addr, geometry.count, geometry.rankLevel, geometry.bankLevel);
        assert b == geometry.BankOf(served.addr);
        vrr := Activated(b, served.addr[geometry.rowLevel]);
      }
    }

    /// The guarantee, in every reachable state.
    lemma {:induction false} RowIsSafe(b: nat, row: int)
      requires Valid() && b < numBanks && threshold >= 1
      requires BankActs(log[b]) <= (entries + 1) * (threshold - 1)
      ensures Acts(log[b], row) < threshold
    {
      NoRowReachesThreshold(table[b], spill[b], log[b], entries, threshold, row);
    }

    /// With at least as many entries as rows it holds without any bound on the activates, from a threshold of two on
    /// (a row that comes into the table with a count of one is not compared with the threshold).
    lemma {:induction false} RowIsAlwaysSafe(b: nat, row: int)
      requires Valid() && b < numBanks && threshold >= 2
      requires entries >= numRows && InBank(log[b], numRows)
      ensures Acts(log[b], row) < threshold
    {
      assert BankOk(table[b], spill[b], log[b], entries, threshold, numRows);
    }
  }

  // ---------- the guarantee is tight ----------

  /// Round t of a round robin over rows 0..entries, after k of its activates.
  ghost predicate Round(table: map<int, int>, spill: int, log: Log, entries: nat, t: nat, k: nat) {
    && |table| == entries && k <= entries && spill == t && entries !in table
    && (forall i :: 0 <= i < k ==> i in table)
    && (forall key :: key in table ==> table[key] == if 0 <= key < k then t + 1 else t)
    && (forall i :: 0 <= i <= entries ==> Acts(log, i) == if i < k then t + 1 else t)
    && BankActs(log) == (entries + 1) * t + k
    && (forall row :: Vrr(row) !in log)
  }

  lemma {:induction false} RoundStep(table: map<int, int>, spill: int, log: Log, entries: nat, t: nat, k: nat,
                                     threshold: int, table': map<int, int>, spill': int, vrr: bool)
    requires Round(table, spill, log, entries, t, k) && k < entries && t + 1 < threshold
    requires Step(table, spill, k, threshold, table', spill', vrr)
    ensures !vrr && Round(table', spill', log + [Act(k)], entries, t, k + 1)
  {
    OneMore(log, Act(k));
    if k !in table {
      SomeoneNotYetActivated(table, entries, k);
      var key :| key in table && !(0 <= key < k);
      assert Evictable(table, spill, key);
      var victim :| Evictable(table, spill, victim) && table' == (table - {victim})[k := spill + 1];
      assert table'.Keys == table.Keys - {victim} + {k};
    } else {
      assert table'.Keys == table.Keys;
    }
  }

  lemma {:induction false} SomeoneNotYetActivated(table: map<int, int>, entries: nat, k: nat)
    requires |table| == entries && k < entries
    ensures exists key :: key in table && !(0 <= key < k)
  {
    BelowSize(k);
    if forall key :: key in table ==> 0 <= key < k {
      SubsetSize(table.Keys, Below(k));
      assert false;
    }
  }

  /// The last activate of a round finds every entry one above the spillover value.
  lemma {:induction false} RoundEnd(table: map<int, int>, spill: int, log: Log, entries: nat, t: nat, threshold: int,
                                    table': map<int, int>, spill': int, vrr: bool)
    requires Round(table, spill, log, entries, t, entries)
    requires Step(table, spill, entries, threshold, table', spill', vrr)
    ensures !vrr && Round(table', spill', log + [Act(entries)], entries, t + 1, 0)
  {
    OneMore(log, Act(entries));
    AllCounted(table, entries);
    MulStep(entries + 1, t + 1);
    hide Acts, BankActs, Below;
    forall victim ensures !Evictable(table, spill, victim) {
    }
  }

  /// With all of the rows before `entries` in the table there is no other.
  lemma {:induction false} AllCounted(table: map<int, int>, entries: nat)
    requires |table| == entries && forall i :: 0 <= i < entries ==> i in table
    ensures forall key :: key in table ==> 0 <= key < entries
  {
    BelowSize(entries);
    SubsetSize(Below(entries), table.Keys);
    assert forall key :: key in table ==> key in Below(entries);
  }

  /// One activate beyond the bound, and a row has reached the threshold without any refresh request,
  /// whichever entries the table chooses to evict on the way.
  method WorstCase(g: Graphene, b: nat)
    requires g.Valid() && b < g.numBanks && g.threshold >= 1 && g.entries < g.numRows
    requires g.log[b] == [] && g.spill[b] == 0 && IsDummyTable(g.table[b], -g.numRows, g.entries)
    modifies g`table, g`spill, g`log
    ensures g.Valid()
    ensures BankActs(g.log[b]) == (g.entries + 1) * (g.threshold - 1) + 1
    ensures Acts(g.log[b], g.entries) == g.threshold
    ensures forall row :: Vrr(row) !in g.log[b]
  {
    hide BankOk;
    for t := 0 to g.threshold - 1
      invariant g.Valid() && Round(g.table[b], g.spill[b], g.log[b], g.entries, t, 0)
    {
      for k := 0 to g.entries
        invariant g.Valid() && Round(g.table[b], g.spill[b], g.log[b], g.entries, t, k)
      {
        ghost var table, spill, log := g.table[b], g.spill[b], g.log[b];
        var vrr := g.Activated(b, k);
        RoundStep(table, spill, log, g.entries, t, k, g.threshold, g.table[b], g.spill[b], vrr);
      }
      ghost var table, spill, log := g.table[b], g.spill[b], g.log[b];
      var vrr := g.Activated(b, g.entries);
      RoundEnd(table, spill, log, g.entries, t, g.threshold, g.table[b], g.spill[b], vrr);
    }
    ghost var log := g.log[b];
    var vrr := g.Activated(b, g.entries);
    OneMore(log, Act(g.entries));
  }
}
