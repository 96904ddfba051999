/** Where Hydra's guarantee ends: from empty tables every unguarded row can be activated tracking-threshold many
    times without a refresh request for it.  */
module HydraRuns {
  import opened ActivationLog
  import opened Bits
  import opened Options
  import opened Tracker = Hydra

  // ---------- a row on its own ----------

  /// Activates of the row alone are enough: the group counter may go that far, or the row's own counter starts
  /// below zero, or it starts at zero although the group has counted.
  predicate Alone(p: Params, row: nat) {
    p.group >= p.tracking || (p.group < 0 && p.Own(row)) || (p.group > 0 && !p.Own(row))
  }

  /// The bank's counters and the row's set after i activates of one row: first the group counts them all,
  /// then the row does, from its starting value on.
  ghost predicate Unnoticed(p: Params, b: Bank, line: Line, tag: nat, row: nat, i: nat) {
    var e, shared := EntryOf(b.gct, p.Group(row)), if p.group < 0 then 0 else p.group;
    if i <= shared then e == GroupEntry(i, false) && row !in b.rct && tag !in line
    else
      e == GroupEntry(shared, true) && row in b.rct && tag in line && line[tag] == b.rct[row] &&
      b.rct[row] == (if p.InSpan(p.Group(row), row) then p.group else 0) + i - shared
  }

  lemma {:induction false} CountedUnnoticed(p: Params, b: Bank, line: Line, tag: nat, row: nat, i: nat,
                                            prepared: map<nat, int>, victim: Option<nat>, counters: map<nat, int>,
                                            line': Line, vrr: bool)
    requires Unnoticed(p, b, line, tag, row, i) && i < p.tracking && Alone(p, row)
    requires EntryOf(b.gct, p.Group(row)).count >= p.group
    requires Prepared(p, b.rct, prepared, p.Group(row), EntryOf(b.gct, p.Group(row)).initialized)
    requires CountsOn(p, prepared, line, victim, tag, row, counters, line', vrr)
    ensures var shared := if p.group < 0 then 0 else p.group;
            !vrr && i >= shared && row in counters && tag in line' && line'[tag] == counters[row] &&
            counters[row] == (if p.InSpan(p.Group(row), row) then p.group else 0) + i + 1 - shared
  {
    hide Params.Group, Params.InSpan, Without;
  }

  lemma {:induction false} StillUnnoticed(p: Params, policy: Policy, b: Bank, line: Line, bank: nat, row: nat, i: nat,
                                          b': Bank, line': Line, vrr: bool, evicted: Option<(nat, nat)>)
    requires p.Valid() && Unnoticed(p, b, line, p.Tag(bank, row), row, i) && i < p.tracking && Alone(p, row) &&
             row >= p.rctRows
    requires ActivateStep(p, policy, b, line, bank, row, b', line', vrr, evicted)
    ensures !vrr && Unnoticed(p, b', line', p.Tag(bank, row), row, i + 1)
  {
    hide Params.Group, Params.Tag, IsVictim, Pow2, Prepared, CountsOn;
    var g, tag := p.Group(row), p.Tag(bank, row);
    var e := EntryOf(b.gct, g);
    if e.count >= p.group {
      var prepared :| Prepared(p, b.rct, prepared, g, e.initialized) &&
        CountsOn(p, prepared, line, TagOf(p, evicted), tag, row, b'.rct, line', vrr);
      CountedUnnoticed(p, b, line, tag, row, i, prepared, TagOf(p, evicted), b'.rct, line', vrr);
      assert EntryOf(b'.gct, g) == GroupEntry(e.count, true);
    } else {
      assert EntryOf(b'.gct, g) == GroupEntry(e.count + 1, e.initialized);
    }
  }

  method ActivateAlone(h: Hydra, rank: nat, bank: nat, row: nat)
    requires h.Valid() && rank < h.ranks && bank < h.banksPerRank && rank * h.banksPerRank + bank < |h.gct|
    requires h.params.rctRows <= row < h.params.Rows() && Alone(h.params, row)
    requires h.Now() == Cleared(h.Now()) && h.log[rank * h.banksPerRank + bank] == []
    modifies h`gct, h`rct, h`own, h`rcc, h`log
    ensures h.Valid() && |h.log| == old(|h.log|)
    ensures var log := h.log[rank * h.banksPerRank + bank]; Acts(log, row) == h.params.tracking && Vrr(row) !in log
  {
    hide Params.Group, Params.Tag, Params.Rows, Params.Index, Pow2, Traffic, CacheOk, RowsOk, Covers, ActivateStep;
    hide PlainStep, Acts, Alone;
    IndexInRange(h.params, row);
    NoActs(row);
    var f := rank * h.banksPerRank + bank;
    for i := 0 to h.params.tracking
      invariant h.Valid() && |h.gct| == old(|h.gct|)
      invariant Unnoticed(h.params, BankIn(h.Now(), f), h.rcc[rank][h.params.Index(row)], h.params.Tag(bank, row), row,
                          i)
      invariant Acts(h.log[f], row) == i && Vrr(row) !in h.log[f]
    {
      ghost var t := h.Now();
      OneMore(h.log[f], Act(row));
      var vrr, evicted, sent := h.Activated(rank, bank, row, 0);
      StillUnnoticed(h.params, h.policy, BankIn(t, f), t.rcc[rank][h.params.Index(row)], bank, row, i,
                     BankIn(h.Now(), f), h.rcc[rank][h.params.Index(row)], vrr, evicted);
    }
  }

  lemma {:induction false} IndexInRange(p: Params, row: nat)
    ensures p.Index(row) < Pow2(p.indexBits)
  {
  }

  // ---------- a row whose counter another group starts ----------

  /// One activate elsewhere in the rank, seen from one row.
  lemma {:induction false} Elsewhere(p: Params, policy: Policy, banksPerRank: nat, t: Tables, log: seq<Log>, t': Tables,
                                     log': seq<Log>, rank: nat, other: nat, fo: nat, x: nat, vrr: bool,
                                     evicted: Option<(nat, nat)>, bank: nat, f: nat, row: nat)
    requires p.Valid() && x < p.Rows() && row < p.Rows() && other < banksPerRank && bank < banksPerRank
    requires f == rank * banksPerRank + bank && fo == rank * banksPerRank + other && (other != bank || x != row)
    requires Steps(p, policy, t, log, t', log', rank, other, fo, x, vrr, evicted) && HasBank(t, f) && f < |log|
    requires p.Index(row) < |t.rcc[rank]|
    ensures HasBank(t', f) && Beside(p, BankIn(t, f), BankIn(t', f), row)
    ensures f < |log'| && Acts(log'[f], row) == Acts(log[f], row) && (Vrr(row) in log'[f] ==> Vrr(row) in log[f])
    ensures rank < |t'.rcc| && p.Index(row) < |t'.rcc[rank]|
    ensures Apart(t.rcc[rank][p.Index(row)], t'.rcc[rank][p.Index(row)], p.Tag(bank, row))
  {
    hide Params.Group, Params.Tag, Params.Index, Params.Rows, Params.Starter, Pow2, ActivateStep, Acts;
    DigitUnique(rank, bank, rank, other, banksPerRank);
    var b, b', line, line' := BankIn(t, fo), BankIn(t', fo), t.rcc[rank][p.Index(x)], t'.rcc[rank][p.Index(x)];
    if other == bank {
      LoggedActs(log[f], x, vrr);
      OthersBeside(p, policy, b, line, other, x, b', line', vrr, evicted, row);
    } else {
      assert BankIn(t', f) == BankIn(t, f);
    }
    if p.Index(x) == p.Index(row) {
      TagsDiffer(p, bank, row, other, x);
      OthersApart(p, policy, b, line, other, x, b', line', vrr, evicted, p.Tag(bank, row));
    }
  }

  /// The row's counter stands at k, where its next activate will count on from; its own group does not start it.
  ghost predicate StandsAt(p: Params, b: Bank, line: Line, bank: nat, row: nat, k: int)
    requires p.Valid()
  {
    !p.Own(row) && (if p.Tag(bank, row) in line then line[p.Tag(bank, row)] else At(b.rct, row)) == k
  }

  lemma {:induction false} CountsUp(p: Params, policy: Policy, b: Bank, line: Line, bank: nat, row: nat, b': Bank,
                                    line': Line, vrr: bool, evicted: Option<(nat, nat)>, k: int)
    requires p.Valid() && row >= p.rctRows && EntryOf(b.gct, p.Group(row)).count >= p.group
    requires ActivateStep(p, policy, b, line, bank, row, b', line', vrr, evicted)
    requires StandsAt(p, b, line, bank, row, k) && k + 1 < p.tracking
    ensures !vrr && StandsAt(p, b', line', bank, row, k + 1) && p.Tag(bank, row) in line'
  {
    hide Params.Group, Params.Tag, Params.InSpan, Pow2, IsVictim, Prepared, CountsOn;
    var g, tag := p.Group(row), p.Tag(bank, row);
    var prepared :| Prepared(p, b.rct, prepared, g, EntryOf(b.gct, g).initialized) &&
      CountsOn(p, prepared, line, TagOf(p, evicted), tag, row, b'.rct, line', vrr);
    NotStarted(p, b.rct, prepared, g, EntryOf(b.gct, g).initialized, row);
    CountsFrom(p, prepared, line, TagOf(p, evicted), tag, row, b'.rct, line', vrr);
  }

  lemma {:induction false} NotStarted(p: Params, rct: map<nat, int>, prepared: map<nat, int>, g: nat, initialized: bool,
                                      row: nat)
    requires Prepared(p, rct, prepared, g, initialized)
    ensures At(prepared, row) == if !initialized && p.InSpan(g, row) then p.group else At(rct, row)
  {
    hide Params.InSpan;
  }

  lemma {:induction false} CountsFrom(p: Params, prepared: map<nat, int>, line: Line, victim: Option<nat>, tag: nat,
                                      row: nat, rct': map<nat, int>, line': Line, vrr: bool)
    requires CountsOn(p, prepared, line, victim, tag, row, rct', line', vrr)
    ensures var before := if tag in line then line[tag] else At(prepared, row);
            vrr == (before + 1 >= p.tracking) && line' == Without(line, victim)[tag := if vrr then 0 else before + 1]
    ensures At(rct', row) == if vrr then 0 else At(prepared, row) + 1
  {
    hide Without;
  }

  /// The group counter of a row never falls below zero.
  lemma {:induction false} GroupCounts(h: Hydra, rank: nat, bank: nat, row: nat)
    requires h.Valid() && rank < h.ranks && bank < h.banksPerRank && h.params.rctRows <= row < h.params.Rows()
    ensures var f := rank * h.banksPerRank + bank; f < |h.gct| && EntryOf(h.gct[f], h.params.Group(row)).count >= 0
    ensures h.params.Index(row) < |h.rcc[rank]|
  {
    hide Params.Group, Params.Tag, Params.Index, Params.Rows, Pow2, CacheOk, AtHome, Covers, Unguarded;
    assert RowAt(h.params, h.banksPerRank, h.Now(), h.log, rank, bank, row);
  }

  /// From there the row can be activated as long as its counter stays below the tracking threshold.
  method CountUp(h: Hydra, rank: nat, bank: nat, row: nat, n: nat, ghost f: nat, ghost k: int)
    requires h.Valid() && h.params.group <= 0 && rank < h.ranks && bank < h.banksPerRank
    requires f == rank * h.banksPerRank + bank && f < |h.gct| && h.params.rctRows <= row < h.params.Rows()
    requires h.params.Index(row) < |h.rcc[rank]| && k + n < h.params.tracking
    requires StandsAt(h.params, BankIn(h.Now(), f), h.rcc[rank][h.params.Index(row)], bank, row, k)
    requires Vrr(row) !in h.log[f]
    modifies h`gct, h`rct, h`own, h`rcc, h`log
    ensures h.Valid() && |h.log| == old(|h.log|)
    ensures Acts(h.log[f], row) == Acts(old(h.log)[f], row) + n && Vrr(row) !in h.log[f]
  {
    hide Params.Group, Params.Tag, Params.Rows, Params.Index, Pow2, Traffic, CacheOk, RowsOk, Covers, ActivateStep;
    hide PlainStep, Acts, StandsAt;
    ghost var s := h.params.Index(row);
    for i := 0 to n
      invariant h.Valid() && |h.log| == old(|h.log|) && s < |h.rcc[rank]|
      invariant StandsAt(h.params, BankIn(h.Now(), f), h.rcc[rank][s], bank, row, k + i)
      invariant Acts(h.log[f], row) == Acts(old(h.log)[f], row) + i && Vrr(row) !in h.log[f]
    {
      ghost var t := h.Now();
      OneMore(h.log[f], Act(row));
      GroupCounts(h, rank, bank, row);
      var vrr, evicted, sent := h.Activated(rank, bank, row, 0);
      CountsUp(h.params, h.policy, BankIn(t, f), t.rcc[rank][s], bank, row, BankIn(h.Now(), f), h.rcc[rank][s], vrr,
               evicted, k + i);
    }
  }

  /// Nothing of the row is left in the cache, and where the group that starts its counter is initialized the
  /// counter is at its start.
  ghost predicate Lost(p: Params, b: Bank, line: Line, bank: nat, row: nat)
    requires p.Valid()
  {
    p.Tag(bank, row) !in line && Restarts(p, b, row)
  }

  ghost predicate Restarts(p: Params, b: Bank, row: nat)
    requires p.Valid()
  {
    p.Foreign(row) && (EntryOf(b.gct, p.Starter(row)).initialized ==> At(b.rct, row) == p.group)
  }

  lemma {:induction false} StillRestarts(p: Params, b: Bank, b': Bank, row: nat)
    requires p.Valid() && Restarts(p, b, row) && Beside(p, b, b', row)
    ensures Restarts(p, b', row)
  {
    hide Params.Group, Params.Own, Params.Groups, Params.Starter;
  }

  /// The group that starts a foreign row's counter has a higher number than its own.
  lemma {:induction false} StarterIsAbove(p: Params, row: nat)
    requires p.Valid() && p.Foreign(row)
    ensures p.Group(row) < p.Starter(row) && row < (p.Group(row) + 1) * Pow2(p.groupBits)
  {
    hide Pow2, Params.InSpan, Params.Groups;
    var starter, size, g := p.Starter(row), Pow2(p.groupBits), p.Group(row);
    GroupSizeBounds(p);
    StarterOf(p, g, row);
    DivModSplit(row, size);
    DivModSplit(row, p.groupSize);
    if g > starter {
      MulLe(starter + 1, g, size);
      MulLe(p.groupSize, size, starter + 1);
    }
  }

  /// The first row of that group.
  lemma {:induction false} FirstOfStarter(p: Params, row: nat)
    requires p.Valid() && p.Foreign(row)
    ensures var x := p.Starter(row) * Pow2(p.groupBits); row < x < p.Rows() && p.Group(x) == p.Starter(row)
  {
    hide Pow2, Params.InSpan, Params.Own, Params.Starter;
    var starter, size := p.Starter(row), Pow2(p.groupBits);
    StarterIsAbove(p, row);
    DigitDivMod(starter, 0, size);
    Pow2Add(p.rowBits - p.groupBits, p.groupBits);
    MulLe(starter + 1, p.Groups(), size);
    MulLe(p.Group(row) + 1, starter, size);
  }

  lemma {:induction false} Initializes(p: Params, policy: Policy, b: Bank, line: Line, bank: nat, row: nat, b': Bank,
                                       line': Line, vrr: bool, evicted: Option<(nat, nat)>)
    requires p.Valid() && row >= p.rctRows && EntryOf(b.gct, p.Group(row)).count >= p.group
    requires ActivateStep(p, policy, b, line, bank, row, b', line', vrr, evicted)
    ensures EntryOf(b'.gct, p.Group(row)).initialized
  {
    hide Params.Group, Params.Tag, Prepared, CountsOn, IsVictim;
  }

  lemma {:induction false} SetBackStep(p: Params, policy: Policy, banksPerRank: nat, t: Tables, log: seq<Log>,
                                       t': Tables, log': seq<Log>, rank: nat, bank: nat, f: nat, x: nat, vrr: bool,
                                       evicted: Option<(nat, nat)>, row: nat)
    requires p.Valid() && p.rctRows <= x < p.Rows() && x != row < p.Rows() && bank < banksPerRank &&
             f == rank * banksPerRank + bank
    requires Steps(p, policy, t, log, t', log', rank, bank, f, x, vrr, evicted) && p.Index(row) < |t.rcc[rank]|
    requires p.group <= EntryOf(t.gct[f], p.Group(x)).count && p.Group(x) == p.Starter(row)
    requires Lost(p, BankIn(t, f), t.rcc[rank][p.Index(row)], bank, row)
    ensures rank < |t'.rcc| && p.Index(row) < |t'.rcc[rank]| && HasBank(t', f) && f < |log'|
    ensures StandsAt(p, BankIn(t', f), t'.rcc[rank][p.Index(row)], bank, row, p.group)
    ensures Acts(log'[f], row) == Acts(log[f], row) && (Vrr(row) in log'[f] ==> Vrr(row) in log[f])
  {
    hide Params.Group, Params.Tag, Params.Rows, Params.Index, Params.Own, Params.Starter, Params.Groups, Pow2;
    hide ActivateStep, Acts, Beside;
    Elsewhere(p, policy, banksPerRank, t, log, t', log', rank, bank, f, x, vrr, evicted, bank, f, row);
    Initializes(p, policy, BankIn(t, f), t.rcc[rank][p.Index(x)], bank, x, BankIn(t', f), t'.rcc[rank][p.Index(x)], vrr,
                evicted);
    StillRestarts(p, BankIn(t, f), BankIn(t', f), row);
  }

  /// The first activate in that group sets the row's counter to its start.
  method SetBack(h: Hydra, rank: nat, bank: nat, row: nat, ghost f: nat)
    requires h.Valid() && h.params.group <= 0 && rank < h.ranks && bank < h.banksPerRank
    requires f == rank * h.banksPerRank + bank && f < |h.gct| && h.params.rctRows <= row < h.params.Rows()
    requires h.params.Index(row) < |h.rcc[rank]| && Vrr(row) !in h.log[f]
    requires Lost(h.params, BankIn(h.Now(), f), h.rcc[rank][h.params.Index(row)], bank, row)
    modifies h`gct, h`rct, h`own, h`rcc, h`log
    ensures h.Valid() && |h.gct| == old(|h.gct|) && h.params.Index(row) < |h.rcc[rank]|
    ensures StandsAt(h.params, BankIn(h.Now(), f), h.rcc[rank][h.params.Index(row)], bank, row, h.params.group)
    ensures Acts(h.log[f], row) == Acts(old(h.log)[f], row) && Vrr(row) !in h.log[f]
  {
    hide Params.Group, Params.Tag, Params.Rows, Params.Index, Params.Own, Params.Starter, Params.Groups, Pow2;
    hide Traffic, CacheOk, RowsOk, Covers, Steps, PlainStep, Acts, StandsAt, BankIn, Hydra.BanksCovered;
    FirstOfStarter(h.params, row);
    var x := h.params.Starter(row) * Pow2(h.params.groupBits);
    GroupCounts(h, rank, bank, x);
    ghost var t, log := h.Now(), h.log;
    var vrr, evicted, sent := h.Activated(rank, bank, x, 0);
    SetBackStep(h.params, h.policy, h.banksPerRank, t, log, h.Now(), h.log, rank, bank, f, x, vrr, evicted, row);
  }

  // ---------- pushing an entry out of the cache ----------

  /// The entry of (rank's bank, row) that a tag of set s names.
  ghost predicate Seated(p: Params, banksPerRank: nat, s: nat, tag: nat)
    requires p.Valid()
  {
    var bank, row := p.EvictedBank(tag), p.EvictedRow(tag, s);
    bank < banksPerRank && p.rctRows <= row < p.Rows() && p.Index(row) == s && p.Tag(bank, row) == tag
  }

  lemma {:induction false} PopulationIsSeated(p: Params, banksPerRank: nat, s: nat, tag: nat)
    requires p.Valid() && tag in Population(p, banksPerRank, s)
    ensures Seated(p, banksPerRank, s, tag)
  {
    hide Params.EvictedBank, Params.EvictedRow, Params.Tag, Params.Rows, Params.Index;
    var bank: nat, row: nat :|
      bank < banksPerRank && p.rctRows <= row < p.Rows() && p.Index(row) == s && p.Tag(bank, row) == tag;
    DecodeUndoesSplit(p, bank, row);
  }

  /// Sixteen other tags of the row's set.
  ghost predicate Rivals(p: Params, banksPerRank: nat, s: nat, own: nat, rivals: seq<nat>)
    requires p.Valid()
  {
    |rivals| == WAYS && own !in rivals && (forall i :: 0 <= i < WAYS ==> Seated(p, banksPerRank, s, rivals[i])) &&
    forall i, j :: 0 <= i < j < WAYS ==> rivals[i] != rivals[j]
  }

  method PickRivals(p: Params, banksPerRank: nat, s: nat, own: nat) returns (rivals: seq<nat>)
    requires p.Valid() && |Population(p, banksPerRank, s)| > WAYS && own in Population(p, banksPerRank, s)
    ensures Rivals(p, banksPerRank, s, own, rivals)
  {
    hide Population, Seated, Params.Rows, Pow2;
    rivals := [];
    var rest := Population(p, banksPerRank, s) - {own};
    while |rivals| < WAYS
      invariant |rivals| <= WAYS && |rest| >= WAYS - |rivals| && own !in rivals
      invariant rest <= Population(p, banksPerRank, s)
      invariant forall i :: 0 <= i < |rivals| ==> Seated(p, banksPerRank, s, rivals[i]) && rivals[i] !in rest
      invariant own !in rest && forall i, j :: 0 <= i < j < |rivals| ==> rivals[i] != rivals[j]
    {
      assert rest != {};
      var tag :| tag in rest;
      PopulationIsSeated(p, banksPerRank, s, tag);
      rivals, rest := rivals + [tag], rest - {tag};
    }
  }

  /// The rivals from the j-th on have not been counted.
  ghost predicate Fresh(p: Params, banksPerRank: nat, t: Tables, rank: nat, s: nat, rivals: seq<nat>, j: nat)
    requires p.Valid()
  {
    forall i :: j <= i < |rivals| ==> Uncounted(p, banksPerRank, t, rank, s, rivals[i])
  }

  ghost predicate Uncounted(p: Params, banksPerRank: nat, t: Tables, rank: nat, s: nat, tag: nat)
    requires p.Valid()
  {
    var f := rank * banksPerRank + p.EvictedBank(tag);
    HasBank(t, f) && At(t.rct[f], p.EvictedRow(tag, s)) == 0
  }

  lemma {:induction false} StaysUncounted(p: Params, policy: Policy, banksPerRank: nat, t: Tables, log: seq<Log>,
                                          t': Tables, log': seq<Log>, rank: nat, other: nat, fo: nat, x: nat, vrr: bool,
                                          evicted: Option<(nat, nat)>, s: nat, tag: nat)
    requires p.Valid() && p.group == 0 && x < p.Rows() && other < banksPerRank && fo == rank * banksPerRank + other
    requires Steps(p, policy, t, log, t', log', rank, other, fo, x, vrr, evicted) &&
             |t.gct| == |t.rct| == |t.own| == |log|
    requires Seated(p, banksPerRank, s, tag) && (p.Tag(other, x) != tag || p.Index(x) != s) && s < |t.rcc[rank]|
    requires Uncounted(p, banksPerRank, t, rank, s, tag)
    ensures Uncounted(p, banksPerRank, t', rank, s, tag)
  {
    hide Params.EvictedBank, Params.EvictedRow, Params.Group, Params.Tag, Params.Rows, Params.Index, Params.Starter;
    hide Params.Groups, Steps;
    var bank, row := p.EvictedBank(tag), p.EvictedRow(tag, s);
    Elsewhere(p, policy, banksPerRank, t, log, t', log', rank, other, fo, x, vrr, evicted, bank,
              rank * banksPerRank + bank, row);
  }

  /// The row's entry, counted once, and those of the first j rivals, counted once too.
  ghost predicate Filling(line: Line, own: nat, rivals: seq<nat>, j: nat)
    requires j <= |rivals|
  {
    |line| == j + 1 && own in line && forall t :: t in line ==> line[t] == 1 && (t == own || t in rivals[..j])
  }

  /// With a group threshold of zero every activate is counted by its row.
  lemma {:induction false} AlwaysCounted(p: Params, policy: Policy, b: Bank, line: Line, bank: nat, row: nat, b': Bank,
                                         line': Line, vrr: bool, evicted: Option<(nat, nat)>)
    requires p.Valid() && p.group == 0 && row >= p.rctRows && EntryOf(b.gct, p.Group(row)).count >= 0
    requires ActivateStep(p, policy, b, line, bank, row, b', line', vrr, evicted)
    ensures CountedStep(p, policy, b, line, bank, row, b', line', vrr, evicted)
  {
    hide Params.Group, CountedStep, PlainStep;
  }

  /// An uncounted row's activate puts a one into its set.
  lemma {:induction false} FirstCount(p: Params, policy: Policy, b: Bank, line: Line, bank: nat, row: nat, b': Bank,
                                      line': Line, vrr: bool, evicted: Option<(nat, nat)>)
    requires p.Valid() && p.group == 0 && p.Tag(bank, row) !in line && At(b.rct, row) == 0
    requires CountedStep(p, policy, b, line, bank, row, b', line', vrr, evicted)
    ensures !vrr && line' == Without(line, TagOf(p, evicted))[p.Tag(bank, row) := 1] &&
            (evicted.Some? <==> |line| == WAYS)
  {
    hide Params.Group, Params.Tag, Params.InSpan, Pow2, IsVictim, Prepared, CountsOn;
    var g, tag := p.Group(row), p.Tag(bank, row);
    var prepared :| Prepared(p, b.rct, prepared, g, EntryOf(b.gct, g).initialized) &&
      CountsOn(p, prepared, line, TagOf(p, evicted), tag, row, b'.rct, line', vrr);
    NotStarted(p, b.rct, prepared, g, EntryOf(b.gct, g).initialized, row);
    CountsFrom(p, prepared, line, TagOf(p, evicted), tag, row, b'.rct, line', vrr);
  }

  /// With the sixteenth rival the row's entry may go, and goes if the draw says so.
  lemma {:induction false} RivalCounted(policy: Policy, line: Line, line': Line, own: nat, rivals: seq<nat>, j: nat,
                                        victim: Option<nat>)
    requires j < |rivals| == WAYS && own !in rivals && Filling(line, own, rivals, j)
    requires forall i :: 0 <= i < j ==> rivals[i] != rivals[j]
    requires line' == Without(line, victim)[rivals[j] := 1] && (victim.Some? <==> |line| == WAYS)
    requires victim.Some? && MayGo(policy, line, own) ==> victim == Some(own)
    ensures if j + 1 < WAYS then Filling(line', own, rivals, j + 1) else own !in line'
  {
    assert rivals[j] !in line;
    if j + 1 < WAYS {
      assert line'.Keys == line.Keys + {rivals[j]};
      assert rivals[..j + 1] == rivals[..j] + [rivals[j]];
    }
  }

  /// After the row was counted once and the first j rivals too.
  ghost predicate Crowding(p: Params, banksPerRank: nat, t: Tables, log: seq<Log>, rank: nat, bank: nat, f: nat,
                           row: nat, rivals: seq<nat>, j: nat)
    requires p.Valid() && j <= |rivals|
  {
    var s, own := p.Index(row), p.Tag(bank, row);
    HasBank(t, f) && f < |log| && rank < |t.rcc| && s < |t.rcc[rank]| &&
    Fresh(p, banksPerRank, t, rank, s, rivals, j) && Restarts(p, BankIn(t, f), row) &&
    Acts(log[f], row) == 1 && Vrr(row) !in log[f] &&
    (if j < WAYS then Filling(t.rcc[rank][s], own, rivals, j) else own !in t.rcc[rank][s])
  }

  lemma {:induction false} FreshStays(p: Params, policy: Policy, banksPerRank: nat, t: Tables, log: seq<Log>,
                                      t': Tables, log': seq<Log>, rank: nat, other: nat, fo: nat, x: nat, vrr: bool,
                                      evicted: Option<(nat, nat)>, s: nat, own: nat, rivals: seq<nat>, j: nat, k: nat)
    requires p.Valid() && p.group == 0 && x < p.Rows() && other < banksPerRank && fo == rank * banksPerRank + other
    requires Steps(p, policy, t, log, t', log', rank, other, fo, x, vrr, evicted) &&
             |t.gct| == |t.rct| == |t.own| == |log|
    requires Rivals(p, banksPerRank, s, own, rivals) && s < |t.rcc[rank]| && j <= k <= WAYS
    requires forall i :: k <= i < WAYS ==> p.Tag(other, x) != rivals[i]
    requires Fresh(p, banksPerRank, t, rank, s, rivals, j)
    ensures Fresh(p, banksPerRank, t', rank, s, rivals, k)
  {
    hide Params.Tag, Params.Rows, Params.Index, Steps, Seated, Uncounted, Pow2;
    forall i | k <= i < WAYS ensures Uncounted(p, banksPerRank, t', rank, s, rivals[i]) {
      StaysUncounted(p, policy, banksPerRank, t, log, t', log', rank, other, fo, x, vrr, evicted, s, rivals[i]);
    }
  }

  lemma {:induction false} RivalStep(p: Params, policy: Policy, banksPerRank: nat, t: Tables, log: seq<Log>, t': Tables,
                                     log': seq<Log>, rank: nat, fo: nat, vrr: bool, evicted: Option<(nat, nat)>,
                                     bank: nat, f: nat, row: nat, rivals: seq<nat>, j: nat)
    requires p.Valid() && p.group == 0 && row < p.Rows() && bank < banksPerRank && f == rank * banksPerRank + bank
    requires Rivals(p, banksPerRank, p.Index(row), p.Tag(bank, row), rivals) && j < WAYS
    requires Crowding(p, banksPerRank, t, log, rank, bank, f, row, rivals, j) && |t.gct| == |t.rct| == |t.own| == |log|
    requires var (other, x) := (p.EvictedBank(rivals[j]), p.EvictedRow(rivals[j], p.Index(row)));
             fo == rank * banksPerRank + other &&
             Steps(p, policy, t, log, t', log', rank, other, fo, x, vrr, evicted) &&
             EntryOf(t.gct[fo], p.Group(x)).count >= 0
    requires evicted.Some? && MayGo(policy, t.rcc[rank][p.Index(row)], p.Tag(bank, row)) ==>
               TagOf(p, evicted) == Some(p.Tag(bank, row))
    ensures Crowding(p, banksPerRank, t', log', rank, bank, f, row, rivals, j + 1)
  {
    hide Params.EvictedBank, Params.EvictedRow, Params.Group, Params.Tag, Params.Rows, Params.Index, Pow2;
    hide ActivateStep, Acts, Restarts, Fresh, Filling, MayGo, Beside, Apart, TagOf, Without;
    var s, own, other, x := p.Index(row), p.Tag(bank, row), p.EvictedBank(rivals[j]),
                            p.EvictedRow(rivals[j], p.Index(row));
    assert Seated(p, banksPerRank, s, rivals[j]);
    TagsDiffer(p, bank, row, other, x);
    Elsewhere(p, policy, banksPerRank, t, log, t', log', rank, other, fo, x, vrr, evicted, bank, f, row);
    StillRestarts(p, BankIn(t, f), BankIn(t', f), row);
    FreshStays(p, policy, banksPerRank, t, log, t', log', rank, other, fo, x, vrr, evicted, s, own, rivals, j, j + 1);
    RivalIsFresh(p, banksPerRank, t, rank, s, rivals, j);
    RivalNotIn(t.rcc[rank][s], own, rivals, j);
    AlwaysCounted(p, policy, BankIn(t, fo), t.rcc[rank][s], other, x, BankIn(t', fo), t'.rcc[rank][s], vrr, evicted);
    FirstCount(p, policy, BankIn(t, fo), t.rcc[rank][s], other, x, BankIn(t', fo), t'.rcc[rank][s], vrr, evicted);
    TagOfSome(p, evicted);
    RivalCounted(policy, t.rcc[rank][s], t'.rcc[rank][s], own, rivals, j, TagOf(p, evicted));
  }

  lemma {:induction false} TagOfSome(p: Params, evicted: Option<(nat, nat)>)
    requires p.Valid()
    ensures TagOf(p, evicted).Some? <==> evicted.Some?
  {
  }

  lemma {:induction false} RivalIsFresh(p: Params, banksPerRank: nat, t: Tables, rank: nat, s: nat, rivals: seq<nat>,
                                        j: nat)
    requires p.Valid() && j < |rivals| && Fresh(p, banksPerRank, t, rank, s, rivals, j)
    ensures Uncounted(p, banksPerRank, t, rank, s, rivals[j])
  {
  }

  lemma {:induction false} RivalNotIn(line: Line, own: nat, rivals: seq<nat>, j: nat)
    requires j < |rivals| && Filling(line, own, rivals, j) && rivals[j] != own
    requires forall i :: 0 <= i < j ==> rivals[i] != rivals[j]
    ensures rivals[j] !in line
  {
  }

  /// The rivals of a row that was activated once push its entry out of the cache.
  method PushOut(h: Hydra, rank: nat, bank: nat, row: nat, rivals: seq<nat>, ghost f: nat)
    requires h.Valid() && h.params.group == 0 && rank < h.ranks && bank < h.banksPerRank && row < h.params.Rows()
    requires f == rank * h.banksPerRank + bank
    requires Rivals(h.params, h.banksPerRank, h.params.Index(row), h.params.Tag(bank, row), rivals)
    requires Crowding(h.params, h.banksPerRank, h.Now(), h.log, rank, bank, f, row, rivals, 0)
    modifies h`gct, h`rct, h`own, h`rcc, h`log
    ensures h.Valid() && |h.gct| == old(|h.gct|)
    ensures Crowding(h.params, h.banksPerRank, h.Now(), h.log, rank, bank, f, row, rivals, WAYS)
  {
    hide Params.Group, Params.Tag, Params.Rows, Params.Index, Pow2;
    hide Traffic, CacheOk, RowsOk, Covers, Steps, PlainStep, Crowding, MayGo, Seated, TagOf, Hydra.BanksCovered;
    var s, own := h.params.Index(row), h.params.Tag(bank, row);
    for j := 0 to WAYS
      invariant h.Valid() && |h.gct| == old(|h.gct|)
      invariant Crowding(h.params, h.banksPerRank, h.Now(), h.log, rank, bank, f, row, rivals, j)
    {
      var other, x := h.params.EvictedBank(rivals[j]), h.params.EvictedRow(rivals[j], s);
      SeatOf(h.params, h.banksPerRank, s, rivals[j]);
      GroupCounts(h, rank, other, x);
      ghost var t, log := h.Now(), h.log;
      var vrr, evicted, sent := h.Activated(rank, other, x, own);
      RivalStep(h.params, h.policy, h.banksPerRank, t, log, h.Now(), h.log, rank, rank * h.banksPerRank + other, vrr,
                evicted,
                bank, f, row, rivals, j);
    }
  }

  lemma {:induction false} SeatOf(p: Params, banksPerRank: nat, s: nat, tag: nat)
    requires p.Valid() && Seated(p, banksPerRank, s, tag)
    ensures p.EvictedBank(tag) < banksPerRank && p.rctRows <= p.EvictedRow(tag, s) < p.Rows() &&
            p.Index(p.EvictedRow(tag, s)) == s
  {
  }

  // ---------- from empty tables ----------

  lemma {:induction false} EmptyAt(t: Tables, rank: nat, s: nat, f: nat)
    requires t == Cleared(t) && HasBank(t, f) && rank < |t.rcc| && s < |t.rcc[rank]|
    ensures BankIn(t, f) == EMPTY_BANK && t.rcc[rank][s] == map[]
  {
  }

  lemma {:induction false} AllUncounted(p: Params, banksPerRank: nat, t: Tables, rank: nat, s: nat, own: nat,
                                        rivals: seq<nat>)
    requires p.Valid() && t == Cleared(t) && rank < |t.rcc| && |t.gct| == |t.rct| == |t.own| == |t.rcc| * banksPerRank
    requires Rivals(p, banksPerRank, s, own, rivals)
    ensures Fresh(p, banksPerRank, t, rank, s, rivals, 0)
  {
    hide Params.EvictedBank, Params.EvictedRow, Params.Tag, Params.Rows, Params.Index, Cleared;
    forall i | 0 <= i < WAYS ensures Uncounted(p, banksPerRank, t, rank, s, rivals[i]) {
      assert Seated(p, banksPerRank, s, rivals[i]);
      DigitRange(rank, |t.rcc|, p.EvictedBank(rivals[i]), banksPerRank);
      EmptyRct(t, rank * banksPerRank + p.EvictedBank(rivals[i]));
    }
  }

  lemma {:induction false} EmptyRct(t: Tables, f: nat)
    requires t == Cleared(t) && f < |t.rct|
    ensures t.rct[f] == map[]
  {
  }

  /// The first activate in a group starts no other.
  lemma {:induction false} OnlyOwnGroup(p: Params, row: nat, b': Bank)
    requires p.Valid() && p.Foreign(row) && b'.gct == map[p.Group(row) := GroupEntry(0, true)]
    ensures Restarts(p, b', row)
  {
    hide Params.Group, Params.Starter, Params.Own, Params.Groups;
    StarterIsAbove(p, row);
  }

  /// The row's first activate.
  lemma {:induction false} OnceStep(p: Params, policy: Policy, banksPerRank: nat, t: Tables, log: seq<Log>, t': Tables,
                                    log': seq<Log>, rank: nat, vrr: bool, evicted: Option<(nat, nat)>, bank: nat,
                                    f: nat, row: nat, rivals: seq<nat>)
    requires p.Valid() && p.group == 0 && p.Foreign(row) && p.rctRows <= row < p.Rows()
    requires bank < banksPerRank && f == rank * banksPerRank + bank
    requires Rivals(p, banksPerRank, p.Index(row), p.Tag(bank, row), rivals)
    requires t == Cleared(t) && |t.gct| == |t.rct| == |t.own| == |log| == |t.rcc| * banksPerRank
    requires Steps(p, policy, t, log, t', log', rank, bank, f, row, vrr, evicted) && log[f] == []
    ensures Crowding(p, banksPerRank, t', log', rank, bank, f, row, rivals, 0)
  {
    hide Params.Group, Params.Tag, Params.Rows, Params.Index, Pow2, Params.Foreign;
    hide ActivateStep, Acts, Restarts, Fresh, Seated, Cleared;
    var s, own := p.Index(row), p.Tag(bank, row);
    EmptyAt(t, rank, s, f);
    AllUncounted(p, banksPerRank, t, rank, s, own, rivals);
    FreshStays(p, policy, banksPerRank, t, log, t', log', rank, bank, f, row, vrr, evicted, s, own, rivals, 0, 0);
    AlwaysCounted(p, policy, EMPTY_BANK, map[], bank, row, BankIn(t', f), t'.rcc[rank][s], vrr, evicted);
    FirstCount(p, policy, EMPTY_BANK, map[], bank, row, BankIn(t', f), t'.rcc[rank][s], vrr, evicted);
    assert BankIn(t', f).gct == map[p.Group(row) := GroupEntry(0, true)];
    OnlyOwnGroup(p, row, BankIn(t', f));
    NoActs(row);
    LoggedActs([], row, vrr);
    assert t'.rcc[rank][s] == map[own := 1];
  }

  /// The row's first activate, and then those of its rivals.
  method CountAndForget(h: Hydra, rank: nat, bank: nat, row: nat, ghost f: nat)
    requires h.Valid() && h.params.group == 0 && rank < h.ranks && bank < h.banksPerRank
    requires f == rank * h.banksPerRank + bank && f < |h.gct| && h.params.rctRows <= row < h.params.Rows()
    requires h.params.Foreign(row) && Crowded(h.params, h.banksPerRank, row)
    requires h.Now() == Cleared(h.Now()) && h.log[f] == []
    modifies h`gct, h`rct, h`own, h`rcc, h`log
    ensures h.Valid() && |h.gct| == old(|h.gct|) && h.params.Index(row) < |h.rcc[rank]|
    ensures Lost(h.params, BankIn(h.Now(), f), h.rcc[rank][h.params.Index(row)], bank, row)
    ensures Acts(h.log[f], row) == 1 && Vrr(row) !in h.log[f]
  {
    hide Params.Group, Params.Tag, Params.Rows, Params.Index, Params.Foreign, Pow2, Population;
    hide Traffic, CacheOk, RowsOk, Covers, Steps, PlainStep, Cleared, Acts, Fresh, Restarts, Rivals, MayGo, TagOf;
    hide Hydra.BanksCovered;
    InPopulation(h.params, h.banksPerRank, bank, row);
    var rivals := PickRivals(h.params, h.banksPerRank, h.params.Index(row), h.params.Tag(bank, row));
    ghost var t, log := h.Now(), h.log;
    var vrr, evicted, sent := h.Activated(rank, bank, row, 0);
    OnceStep(h.params, h.policy, h.banksPerRank, t, log, h.Now(), h.log, rank, vrr, evicted, bank, f, row, rivals);
    PushOut(h, rank, bank, row, rivals, f);
  }

  lemma {:induction false} EmptyIsLost(p: Params, bank: nat, row: nat)
    requires p.Valid() && p.Foreign(row)
    ensures Lost(p, EMPTY_BANK, map[], bank, row)
  {
  }

  /// Every unguarded row reaches the tracking threshold from empty tables, with no refresh request for it.
  method WorstCase(h: Hydra, rank: nat, bank: nat, row: nat)
    requires h.Valid() && rank < h.ranks && bank < h.banksPerRank && rank * h.banksPerRank + bank < |h.gct|
    requires h.params.rctRows <= row < h.params.Rows() && Unguarded(h.params, h.banksPerRank, row)
    requires h.Now() == Cleared(h.Now()) && h.log[rank * h.banksPerRank + bank] == []
    modifies h
    ensures h.Valid() && |h.log| == old(|h.log|)
    ensures var log := h.log[rank * h.banksPerRank + bank]; Acts(log, row) == h.params.tracking && Vrr(row) !in log
  {
    hide Params.Group, Params.Tag, Params.Rows, Params.Index, Params.Own, Pow2, Params.Starter;
    hide CacheOk, RowsOk, Covers, Acts, Lost, StandsAt, Crowded, Cleared, Hydra.BanksCovered;
    ghost var f := rank * h.banksPerRank + bank;
    IndexInRange(h.params, row);
    NoActs(row);
    if Alone(h.params, row) {
      ActivateAlone(h, rank, bank, row);
    } else if h.params.group == 0 {
      CountAndForget(h, rank, bank, row, f);
      SetBack(h, rank, bank, row, f);
      CountUp(h, rank, bank, row, h.params.tracking - 1, f, 0);
    } else {
      EmptyAt(h.Now(), rank, h.params.Index(row), f);
      EmptyIsLost(h.params, bank, row);
      SetBack(h, rank, bank, row, f);
      CountUp(h, rank, bank, row, h.params.tracking, f, h.params.group);
    }
  }
}
