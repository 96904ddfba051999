/** The Hydra activation tracker (src/dram_controller/impl/plugin/hydra.cpp): group counters, per-row counters in
    DRAM, and a set-associative cache of the latter.  */
module Hydra {
  import opened ActivationLog
  import opened Bits
  import opened CounterLayout
  import opened FlatBanks
  import opened Options
  import opened PluginEvents

  /// Thresholds, and what splits a row id.  A bank has 2^rowBits rows; a row belongs to the group that its
  /// bits from groupBits on name, and a group's counters are started for groupSize rows.  The cache has
  /// 2^indexBits sets per rank, and the lowest `rctRows` rows of a bank store the row counters themselves.
  datatype Params = Params(tracking: int, group: int, rowBits: nat, groupSize: nat, groupBits: nat, indexBits: nat,
                           rctRows: nat) {
    /// What setup establishes: the group's number has floor(log2(rows / groupSize)) bits.  It divides by the
    /// width of a counter, which is zero for a tracking threshold of one.
    ghost predicate Valid() {
      && indexBits <= rowBits && groupBits <= rowBits && groupSize >= 1 && tracking >= 2
      && Pow2(rowBits - groupBits) <= Rows() / groupSize < Pow2(rowBits - groupBits + 1)
    }

    function Rows(): nat { Pow2(rowBits) }
    function Group(row: nat): nat { Shr(row, groupBits) }
    function TagRowBits(): nat requires indexBits <= rowBits { rowBits - indexBits }

    /// The rows for which group g starts counters.
    predicate InSpan(g: nat, row: nat) { g * groupSize <= row < g * groupSize + groupSize }

    /// The group size is the number of rows that share a group number.
    predicate Fits() { groupSize == Pow2(groupBits) }

    /// The row gets its counter from its own group.
    predicate Own(row: nat) { InSpan(Group(row), row) }

    function Groups(): nat
      requires groupBits <= rowBits
    {
      Pow2(rowBits - groupBits)
    }

    /// The group, if there is one of that number, that starts a counter for the row.
    function Starter(row: nat): nat
      requires groupSize >= 1
    {
      DivNonNegative(row, groupSize);
      row / groupSize
    }

    /// The row gets its counter from a group that is not its own.
    ghost predicate Foreign(row: nat)
      requires Valid()
    {
      !Own(row) && Starter(row) < Groups()
    }

    // ---------- the split of a row id into cache index and tag, and back ----------

    function Index(row: nat): (i: nat)
      ensures i < Pow2(indexBits)
    {
      LowBits(row, indexBits)
    }

    function Tag(bank: nat, row: nat): nat
      requires indexBits <= rowBits
    {
      Or(Shr(row, indexBits), Shl(bank, TagRowBits()))
    }

    function EvictedRow(tag: nat, index: nat): nat
      requires indexBits <= rowBits
    {
      Or(Shl(LowBits(tag, TagRowBits()), indexBits), index)
    }

    function EvictedBank(tag: nat): nat
      requires indexBits <= rowBits
    {
      Shr(tag, TagRowBits())
    }
  }

  /// The decoding at eviction time recovers the bank and the row that the tag was made from.
  lemma {:induction false} DecodeUndoesSplit(p: Params, bank: nat, row: nat)
    requires p.Valid() && row < p.Rows()
    ensures p.EvictedRow(p.Tag(bank, row), p.Index(row)) == row
    ensures p.EvictedBank(p.Tag(bank, row)) == bank
  {
    hide Shl, Shr, LowBits, Pow2, Or;
    ShrRange(row, p.TagRowBits(), p.indexBits);
    PackUnpack(bank, Shr(row, p.indexBits), p.TagRowBits());
    UnpackPack(row, p.indexBits);
  }

  /// And the other way round: splitting a decoded row gives the tag and the index back.
  lemma {:induction false} SplitUndoesDecode(p: Params, tag: nat, index: nat)
    requires p.Valid() && index < Pow2(p.indexBits)
    ensures var row := p.EvictedRow(tag, index);
            row < p.Rows() && p.Index(row) == index && p.Tag(p.EvictedBank(tag), row) == tag
  {
    hide Shl, Shr, LowBits, Pow2, Or;
    var low := LowBits(tag, p.TagRowBits());
    PackUnpack(low, index, p.indexBits);
    PackRange(low, index, p.TagRowBits(), p.indexBits);
    UnpackPack(tag, p.TagRowBits());
    PackUnpack(p.EvictedBank(tag), low, p.TagRowBits());
  }

  /// A row is counted by its own group, by another group with a higher number, or by none.
  lemma {:induction false} StarterOf(p: Params, g: nat, row: nat)
    requires p.Valid()
    ensures p.InSpan(g, row) <==> p.Starter(row) == g
  {
    DivModSplit(row, p.groupSize);
    if p.InSpan(g, row) {
      DigitDivMod(g, row - g * p.groupSize, p.groupSize);
    }
  }

  lemma {:induction false} GroupInRange(p: Params, row: nat)
    requires p.Valid() && row < p.Rows()
    ensures p.Group(row) < p.Groups()
  {
    hide Shr, Pow2;
    ShrRange(row, p.rowBits - p.groupBits, p.groupBits);
  }

  type Line = map<nat, int>

  const WAYS: nat := 16

  // ---------- which rows are guarded ----------

  /// The tags that rows with counters can have in set s of a rank's cache.
  function Population(p: Params, banksPerRank: nat, s: nat): set<nat>
    requires p.indexBits <= p.rowBits
  {
    set bank: nat, row: nat | bank < banksPerRank && p.rctRows <= row < p.Rows() && p.Index(row) == s ::
      p.Tag(bank, row)
  }

  /// The row's set can overflow.
  ghost predicate Crowded(p: Params, banksPerRank: nat, row: nat)
    requires p.Valid()
  {
    |Population(p, banksPerRank, p.Index(row))| > WAYS
  }

  /// How many rows of a bank share set s and have counters.
  function SetRows(p: Params, s: nat): nat
    requires p.indexBits <= p.rowBits && s < Pow2(p.indexBits)
  {
    Max(0, Pow2(p.TagRowBits()) - FirstHigh(p, s))
  }

  /// The high part of the first such row.
  function FirstHigh(p: Params, s: nat): nat
    requires s < Pow2(p.indexBits)
  {
    DivNonNegative(p.rctRows + Pow2(p.indexBits) - 1 - s, Pow2(p.indexBits));
    (p.rctRows + Pow2(p.indexBits) - 1 - s) / Pow2(p.indexBits)
  }

  lemma {:induction false} HighPart(p: Params, k: nat, s: nat)
    requires s < Pow2(p.indexBits)
    ensures p.rctRows <= k * Pow2(p.indexBits) + s <==> FirstHigh(p, s) <= k
  {
    var width, x := Pow2(p.indexBits), p.rctRows + Pow2(p.indexBits) - 1 - s;
    DivModSplit(x, width);
    if FirstHigh(p, s) <= k {
      MulLe(FirstHigh(p, s), k, width);
    } else {
      MulLe(k + 1, FirstHigh(p, s), width);
    }
  }

  /// The tags of one bank's rows are a stretch of numbers.
  lemma {:induction false} TagOfRow(p: Params, bank: nat, row: nat)
    requires p.Valid() && row < p.Rows()
    ensures var k := Shr(row, p.indexBits);
            k < Pow2(p.TagRowBits()) && row == k * Pow2(p.indexBits) + p.Index(row) &&
            p.Tag(bank, row) == bank * Pow2(p.TagRowBits()) + k
  {
    hide Pow2, Or;
    ShrRange(row, p.TagRowBits(), p.indexBits);
    DivModSplit(row, Pow2(p.indexBits));
    OrDisjoint(bank, Shr(row, p.indexBits), p.TagRowBits());
  }

  lemma {:induction false} RowOfTag(p: Params, bank: nat, k: nat, s: nat)
    requires p.Valid() && k < Pow2(p.TagRowBits()) && s < Pow2(p.indexBits)
    ensures var row := k * Pow2(p.indexBits) + s;
            row < p.Rows() && p.Index(row) == s && p.Tag(bank, row) == bank * Pow2(p.TagRowBits()) + k
  {
    hide Pow2, Or;
    DigitRange(k, Pow2(p.TagRowBits()), s, Pow2(p.indexBits));
    Pow2Add(p.TagRowBits(), p.indexBits);
    DigitDivMod(k, s, Pow2(p.indexBits));
    OrDisjoint(bank, k, p.TagRowBits());
  }

  ghost function Stretch(start: nat, end: nat): (t: set<nat>)
    ensures forall x :: x in t <==> start <= x < end
    ensures |t| == Max(0, end - start)
  {
    if start >= end then {} else Stretch(start, end - 1) + {end - 1}
  }

  /// The tags that rows with counters of one bank can have in set s.
  ghost function BankTags(p: Params, bank: nat, s: nat): (t: set<nat>)
    requires p.Valid() && s < Pow2(p.indexBits)
  {
    var size := Pow2(p.TagRowBits());
    Stretch(bank * size + FirstHigh(p, s), bank * size + size)
  }

  lemma {:induction false} BankTagsSize(p: Params, bank: nat, s: nat)
    requires p.Valid() && s < Pow2(p.indexBits)
    ensures |BankTags(p, bank, s)| == SetRows(p, s)
  {
    hide Pow2, Params.TagRowBits, Stretch, FirstHigh;
  }

  lemma {:induction false} RowHasBankTag(p: Params, bank: nat, row: nat)
    requires p.Valid() && p.rctRows <= row < p.Rows()
    ensures p.Tag(bank, row) in BankTags(p, bank, p.Index(row)) && p.Tag(bank, row) < (bank + 1) * Pow2(p.TagRowBits())
  {
    hide Pow2, Params.Tag, Params.Index, Params.Rows, Params.TagRowBits, Stretch, FirstHigh, Shr;
    TagOfRow(p, bank, row);
    HighPart(p, Shr(row, p.indexBits), p.Index(row));
  }

  lemma {:induction false} BankTagHasRow(p: Params, bank: nat, s: nat, tag: nat)
    requires p.Valid() && s < Pow2(p.indexBits) && tag in BankTags(p, bank, s)
    ensures exists row :: p.rctRows <= row < p.Rows() && p.Index(row) == s && p.Tag(bank, row) == tag
    ensures bank * Pow2(p.TagRowBits()) <= tag
  {
    hide Pow2, Params.Tag, Params.Index, Params.Rows, Params.TagRowBits, Stretch, FirstHigh;
    var k := tag - bank * Pow2(p.TagRowBits());
    RowOfTag(p, bank, k, s);
    HighPart(p, k, s);
  }

  lemma {:induction false} OneBankMore(p: Params, bank: nat, s: nat)
    requires p.Valid() && s < Pow2(p.indexBits)
    ensures |Population(p, bank + 1, s)| == |Population(p, bank, s)| + SetRows(p, s)
  {
    hide Pow2, Params.Tag, Params.Index, Params.Rows, Params.TagRowBits, BankTags, SetRows;
    var before, after, more := Population(p, bank, s), Population(p, bank + 1, s), BankTags(p, bank, s);
    BankTagsSize(p, bank, s);
    forall b: nat, row: nat | b <= bank && p.rctRows <= row < p.Rows() && p.Index(row) == s
      ensures p.Tag(b, row) in (if b == bank then more else before) &&
              (b < bank ==> p.Tag(b, row) < bank * Pow2(p.TagRowBits()))
    {
      RowHasBankTag(p, b, row);
      if b < bank { MulLe(b + 1, bank, Pow2(p.TagRowBits())); }
    }
    forall tag | tag in more ensures tag in after && tag >= bank * Pow2(p.TagRowBits()) {
      BankTagHasRow(p, bank, s, tag);
    }
    assert after == before + more && before !! more;
  }

  /// So the number of tags of a set is that of its rows with counters, in all banks of a rank.
  lemma {:induction false} PopulationSize(p: Params, banksPerRank: nat, s: nat)
    requires p.Valid() && s < Pow2(p.indexBits)
    ensures |Population(p, banksPerRank, s)| == banksPerRank * SetRows(p, s)
  {
    hide Pow2, Params.Tag, Params.Index, Params.Rows;
    if banksPerRank == 0 {
      assert Population(p, 0, s) == {};
    } else {
      var bank := banksPerRank - 1;
      PopulationSize(p, bank, s);
      OneBankMore(p, bank, s);
    }
  }

  /// A row that can be activated tracking-threshold many times unnoticed: the group counter alone may go that
  /// far, or the row's counter starts below zero, or it starts at zero although the group has counted, or
  /// another group starts it at zero when the row has been counted and its entry has left the cache.
  ghost predicate Unguarded(p: Params, banksPerRank: nat, row: nat)
    requires p.Valid()
  {
    || p.group >= p.tracking
    || (p.group < 0 && (p.Own(row) || p.Foreign(row)))
    || (p.group > 0 && !p.Own(row))
    || (p.group == 0 && p.Foreign(row) && Crowded(p, banksPerRank, row))
  }

  // ---------- one bank's counters, without the cache ----------

  datatype GroupEntry = GroupEntry(count: int, initialized: bool)

  /// Group counters, row counters, and the counters of the rows that store row counters.
  datatype Bank = Bank(gct: map<nat, GroupEntry>, rct: map<nat, int>, own: map<nat, int>)

  const EMPTY_BANK := Bank(map[], map[], map[])

  function At(m: map<nat, int>, row: nat): int { if row in m then m[row] else 0 }

  function EntryOf(gct: map<nat, GroupEntry>, g: nat): GroupEntry {
    if g in gct then gct[g] else GroupEntry(0, false)
  }

  /// The row counters once a group has been given its starting values.
  ghost predicate IsInitialized(p: Params, rct: map<nat, int>, rct': map<nat, int>, g: nat) {
    (forall row :: row in rct' <==> row in rct || p.InSpan(g, row)) &&
    (forall row :: row in rct' ==> rct'[row] == if p.InSpan(g, row) then p.group else rct[row])
  }

  /// No group has more started counters than rows, nor half as many or less.
  lemma {:induction false} GroupSizeBounds(p: Params)
    requires p.Valid()
    ensures p.groupSize <= Pow2(p.groupBits) < 2 * p.groupSize
  {
    hide Pow2;
    var k := p.rowBits - p.groupBits;
    Pow2Add(k, p.groupBits);
    Pow2Add(1, k);
    assert Pow2(1) == 2 by { Pow2One(); }
    DivModSplit(p.Rows(), p.groupSize);
    SizeBetween(p.Rows() / p.groupSize, p.groupSize, p.Rows() % p.groupSize, Pow2(k), Pow2(p.groupBits));
  }

  lemma {:induction false} SizeBetween(entries: nat, started: nat, rest: nat, groups: nat, size: nat)
    requires rest < started && 0 < groups <= entries < 2 * groups && groups * size == entries * started + rest
    ensures started <= size < 2 * started
  {
    MulLe(groups, entries, started);
    MulLe(entries + 1, 2 * groups, started);
    Distribute(entries, 1, started);
    Associate(2, groups, started);
    Cancel(started, size, groups);
    Cancel(size, 2 * started, groups);
  }

  lemma {:induction false} Pow2One()
    ensures Pow2(1) == 2
  {
  }

  /// The rows of a group are those its counters are started for exactly if the group size is a power of two.
  lemma {:induction false} FitsIsPowerOfTwo(p: Params)
    requires p.Valid()
    ensures p.Fits() <==> exists n :: p.groupSize == Pow2(n)
    ensures p.Fits() <==> forall row: nat :: p.InSpan(p.Group(row), row)
  {
    hide Params.Group;
    GroupSizeBounds(p);
    if n :| p.groupSize == Pow2(n) {
      Log2OfPow2(p.groupBits, n);
    }
    if p.Fits() {
      forall row: nat ensures p.InSpan(p.Group(row), row) {
        GroupIsSpan(p, p.Group(row), row);
      }
    } else {
      LastOfGroup(p, 0);
    }
  }

  lemma {:induction false} GroupIsSpan(p: Params, g: nat, row: nat)
    requires p.Fits()
    ensures p.Group(row) == g <==> p.InSpan(g, row)
  {
    DivModSplit(row, p.groupSize);
    if p.InSpan(g, row) {
      DigitDivMod(g, row - g * p.groupSize, p.groupSize);
    }
  }

  /// Otherwise the last row of every group gets no counter of its own when the group does.
  lemma {:induction false} LastOfGroup(p: Params, g: nat)
    requires p.Valid() && !p.Fits()
    ensures var row := g * Pow2(p.groupBits) + Pow2(p.groupBits) - 1;
            p.Group(row) == g && !p.InSpan(g, row)
  {
    hide Pow2;
    GroupSizeBounds(p);
    DigitDivMod(g, Pow2(p.groupBits) - 1, Pow2(p.groupBits));
    MulLe(p.groupSize, Pow2(p.groupBits), g);
  }

  // ---------- which configurations guard every row ----------

  /// A row with its own counter or a foreign one lies below the end of the last group's stretch.
  lemma {:induction false} StartedBelow(p: Params, row: nat)
    requires p.Valid() && row < p.Rows()
    ensures p.Own(row) || p.Foreign(row) <==> row < p.Groups() * p.groupSize
  {
    hide Pow2, Params.Group;
    GroupInRange(p, row);
    StarterOf(p, p.Group(row), row);
    DivModSplit(row, p.groupSize);
    if p.Starter(row) < p.Groups() {
      MulLe(p.Starter(row) + 1, p.Groups(), p.groupSize);
    } else {
      MulLe(p.Groups(), p.Starter(row), p.groupSize);
    }
  }

  /// The last row of the bank belongs to the last group.
  lemma {:induction false} LastRow(p: Params)
    requires p.Valid() && !p.Fits()
    ensures !p.Own(p.Rows() - 1)
  {
    hide Pow2, Params.InSpan;
    LastOfGroup(p, p.Groups() - 1);
    Pow2Add(p.rowBits - p.groupBits, p.groupBits);
    assert (p.Groups() - 1) * Pow2(p.groupBits) + Pow2(p.groupBits) == p.Rows();
  }

  /// When no row is unguarded.
  lemma {:induction false} AllGuarded(p: Params, banksPerRank: nat)
    requires p.Valid() && p.rctRows < p.Rows()
    ensures (forall row :: p.rctRows <= row < p.Rows() ==> !Unguarded(p, banksPerRank, row)) <==>
            p.group < p.tracking && (p.group > 0 ==> p.Fits()) &&
            (p.group < 0 ==> p.Groups() * p.groupSize <= p.rctRows) &&
            (p.group == 0 ==>
               forall row :: p.rctRows <= row < p.Rows() && p.Foreign(row) ==> !Crowded(p, banksPerRank, row))
  {
    hide Pow2, Params.Group, Params.InSpan, Params.Rows, Crowded;
    FitsIsPowerOfTwo(p);
    if p.group >= p.tracking {
      assert Unguarded(p, banksPerRank, p.rctRows);
    } else if p.group > 0 && !p.Fits() {
      LastRow(p);
      assert Unguarded(p, banksPerRank, p.Rows() - 1);
    } else if p.group < 0 && p.rctRows < p.Groups() * p.groupSize {
      StartedBelow(p, p.rctRows);
      assert Unguarded(p, banksPerRank, p.rctRows);
    } else {
      forall row | p.rctRows <= row < p.Rows() && p.group != 0 ensures !Unguarded(p, banksPerRank, row) {
        StartedBelow(p, row);
      }
      assert p.group == 0 ==>
        forall row :: Unguarded(p, banksPerRank, row) <==> p.Foreign(row) && Crowded(p, banksPerRank, row);
    }
  }

  /// A row gets its counter from another group in exactly those banks that have more than one group, of a size that
  /// is no power of two.
  lemma {:induction false} SomeForeign(p: Params)
    requires p.Valid()
    ensures (exists row :: 0 <= row < p.Rows() && p.Foreign(row)) <==>
            !(exists n :: p.groupSize == Pow2(n)) && p.groupBits < p.rowBits
  {
    hide Pow2, Params.InSpan;
    FitsIsPowerOfTwo(p);
    if p.groupBits == p.rowBits {
      OneGroup(p);
    } else if !p.Fits() {
      ShortGroup(p);
    }
  }

  /// A group that is short of rows leaves its last one to the next group.
  lemma {:induction false} ShortGroup(p: Params)
    requires p.Valid() && !p.Fits() && p.groupBits < p.rowBits
    ensures p.Foreign(Pow2(p.groupBits) - 1) && Pow2(p.groupBits) <= p.Rows()
  {
    hide Pow2, Params.InSpan;
    var last := Pow2(p.groupBits) - 1;
    LastOfGroup(p, 0);
    GroupSizeBounds(p);
    DigitDivMod(1, last - p.groupSize, p.groupSize);
    Pow2Monotone(1, p.rowBits - p.groupBits);
    Pow2One();
    Pow2Monotone(p.groupBits, p.rowBits);
  }

  /// A single group numbers itself zero, so no other starts a counter.
  lemma {:induction false} OneGroup(p: Params)
    requires p.Valid() && p.groupBits == p.rowBits
    ensures forall row: nat | row < p.Rows() :: !p.Foreign(row)
  {
    hide Params.InSpan, Params.Group;
    forall row: nat | row < p.Rows() ensures !p.Foreign(row) {
      GroupInRange(p, row);
      StarterOf(p, p.Group(row), row);
    }
  }

  /// An activate that no row counter counts: of a row that stores counters, or in a group below its threshold.
  ghost predicate PlainStep(p: Params, b: Bank, row: nat, b': Bank, vrr: bool) {
    var g := p.Group(row);
    if row < p.rctRows then
      vrr == (At(b.own, row) + 1 >= p.tracking) && b'.gct == b.gct && b'.rct == b.rct &&
      b'.own == if vrr then b.own - {row} else b.own[row := At(b.own, row) + 1]
    else
      !vrr && b'.own == b.own && b'.rct == b.rct &&
      b'.gct == b.gct[g := GroupEntry(EntryOf(b.gct, g).count + 1, EntryOf(b.gct, g).initialized)]
  }

  /// The simple tracker that the cached one refines: what an activate does to the counters.
  ghost predicate BankStep(p: Params, b: Bank, row: nat, b': Bank, vrr: bool) {
    var g := p.Group(row);
    var e := EntryOf(b.gct, g);
    if row >= p.rctRows && e.count >= p.group then
      b'.own == b.own && b'.gct == b.gct[g := GroupEntry(e.count, true)] &&
      exists rct1 :: Prepared(p, b.rct, rct1, g, e.initialized) &&
        vrr == (At(rct1, row) + 1 >= p.tracking) && b'.rct == rct1[row := if vrr then 0 else At(rct1, row) + 1]
    else PlainStep(p, b, row, b', vrr)
  }

  ghost predicate Prepared(p: Params, rct: map<nat, int>, rct1: map<nat, int>, g: nat, initialized: bool) {
    if initialized then rct1 == rct else IsInitialized(p, rct, rct1, g)
  }

  /// With a negative group threshold the row counters start that much too low.
  function Slack(p: Params): nat { if p.group < 0 then -p.group else 0 }

  /// The counters never undercount a row by more than the slack.
  ghost predicate CoversRow(p: Params, b: Bank, log: Log, row: nat) {
    if row < p.rctRows then Acts(log, row) <= At(b.own, row)
    else
      var e := EntryOf(b.gct, p.Group(row));
      if e.initialized then row in b.rct && Acts(log, row) <= b.rct[row] + Slack(p)
      else Acts(log, row) <= e.count
  }

  ghost predicate Covers(p: Params, b: Bank, log: Log) {
    && (forall row: nat :: CoversRow(p, b, log, row))
    && (forall g :: g in b.gct ==>
          b.gct[g].count <= p.group + Slack(p) && (b.gct[g].initialized ==> b.gct[g].count >= p.group))
    && (forall row :: row in b.rct ==> b.rct[row] < p.tracking || b.rct[row] <= p.group + Slack(p))
    && (forall row :: row in b.own ==> b.own[row] < p.tracking)
  }

  lemma {:induction false} CountStepCovers(p: Params, b: Bank, log: Log, row: nat, b': Bank, vrr: bool)
    requires p.Fits() && Covers(p, b, log) && BankStep(p, b, row, b', vrr)
    requires row >= p.rctRows && EntryOf(b.gct, p.Group(row)).count >= p.group
    ensures Covers(p, b', Logged(log, row, vrr))
  {
    hide Params.Group, Acts, Logged;
    LoggedActs(log, row, vrr);
    var g := p.Group(row);
    var e := EntryOf(b.gct, g);
    var rct1 :| Prepared(p, b.rct, rct1, g, e.initialized) &&
      vrr == (At(rct1, row) + 1 >= p.tracking) && b'.rct == rct1[row := if vrr then 0 else At(rct1, row) + 1];
    forall r: nat ensures CoversRow(p, b', Logged(log, row, vrr), r) {
      assert CoversRow(p, b, log, r);
      GroupIsSpan(p, g, r);
      if r < p.rctRows {
      } else if p.Group(r) == g {
        assert r in rct1 && Acts(log, r) <= rct1[r] + Slack(p);
      } else {
        assert EntryOf(b'.gct, p.Group(r)) == EntryOf(b.gct, p.Group(r));
        assert r in b.rct ==> r in rct1 && rct1[r] == b.rct[r];
      }
    }
  }

  lemma {:induction false} BankStepCovers(p: Params, b: Bank, log: Log, row: nat, b': Bank, vrr: bool)
    requires p.Fits() && Covers(p, b, log) && BankStep(p, b, row, b', vrr)
    ensures Covers(p, b', Logged(log, row, vrr))
  {
    hide Params.Group, Acts, Logged;
    if row >= p.rctRows && EntryOf(b.gct, p.Group(row)).count >= p.group {
      CountStepCovers(p, b, log, row, b', vrr);
    } else {
      LoggedActs(log, row, vrr);
      forall r: nat ensures CoversRow(p, b', Logged(log, row, vrr), r) {
        assert CoversRow(p, b, log, r);
      }
    }
  }

  lemma {:induction false} EmptyCovers(p: Params, log: Log)
    requires forall row :: Acts(log, row) == 0
    ensures Covers(p, EMPTY_BANK, log)
  {
  }

  /// With 0 <= group threshold < tracking threshold every row is refreshed in time.
  lemma {:induction false} CoveredIsSafe(p: Params, b: Bank, log: Log, row: nat)
    requires Covers(p, b, log) && 0 <= p.group < p.tracking
    ensures Acts(log, row) < p.tracking
  {
    assert CoversRow(p, b, log, row);
  }

  // ---------- the row counter cache ----------

  /// Which entry of a full set makes room.
  datatype Policy = Random | MinCount

  ghost predicate MayGo(policy: Policy, line: Line, tag: nat) {
    tag in line && (policy == MinCount ==> forall t :: t in line ==> line[tag] <= line[t])
  }

  function Without(line: Line, victim: Option<nat>): Line {
    if victim.Some? then line - {victim.value} else line
  }

  /// A cached counter is the row counter of the bank and row that its tag and set decode to, and that
  /// row's group has been initialized.
  ghost predicate CachedOk(p: Params, banksPerRank: nat, gct: seq<map<nat, GroupEntry>>, rct: seq<map<nat, int>>,
                           r: nat, s: nat, tag: nat, v: int)
    requires p.Valid()
  {
    var bank, row := p.EvictedBank(tag), p.EvictedRow(tag, s);
    var f := r * banksPerRank + bank;
    bank < banksPerRank && f < |gct| && f < |rct| && row >= p.rctRows &&
    row in rct[f] && rct[f][row] == v && EntryOf(gct[f], p.Group(row)).initialized
  }

  ghost predicate LineOk(p: Params, banksPerRank: nat, gct: seq<map<nat, GroupEntry>>, rct: seq<map<nat, int>>,
                         r: nat, s: nat, line: Line)
    requires p.Valid()
  {
    forall tag :: tag in line ==> CachedOk(p, banksPerRank, gct, rct, r, s, tag, line[tag])
  }

  ghost predicate CacheOk(p: Params, banksPerRank: nat, gct: seq<map<nat, GroupEntry>>, rct: seq<map<nat, int>>,
                          rcc: seq<seq<Line>>)
    requires p.Valid()
  {
    forall r, s :: 0 <= r < |rcc| && 0 <= s < |rcc[r]| ==>
      |rcc[r][s]| <= WAYS && LineOk(p, banksPerRank, gct, rct, r, s, rcc[r][s])
  }

  /// Bank f's new counters keep what the cache may hold of it, except for `row`.
  ghost predicate Compatible(p: Params, gct: map<nat, GroupEntry>, rct: map<nat, int>,
                             gct': map<nat, GroupEntry>, rct': map<nat, int>, row: nat) {
    forall q :: q in rct && q != row && EntryOf(gct, p.Group(q)).initialized ==>
      q in rct' && rct'[q] == rct[q] && EntryOf(gct', p.Group(q)).initialized
  }

  /// A line stays coherent under an activate of `row` in bank `bank` of rank `rank`, apart from the
  /// activated row's own entry.
  lemma {:induction false} LineStaysOk(p: Params, banksPerRank: nat, gct: seq<map<nat, GroupEntry>>,
                                       rct: seq<map<nat, int>>, r: nat, s: nat, line: Line, rank: nat, bank: nat,
                                       row: nat, gctF: map<nat, GroupEntry>, rctF: map<nat, int>)
    requires p.Valid() && LineOk(p, banksPerRank, gct, rct, r, s, line) && s < Pow2(p.indexBits)
    requires bank < banksPerRank && rank * banksPerRank + bank < |gct| == |rct|
    requires var f := rank * banksPerRank + bank; Compatible(p, gct[f], rct[f], gctF, rctF, row)
    requires r == rank && s == p.Index(row) ==> p.Tag(bank, row) !in line
    ensures var f := rank * banksPerRank + bank;
            LineOk(p, banksPerRank, gct[f := gctF], rct[f := rctF], r, s, line)
  {
    hide Params.EvictedBank, Params.EvictedRow, Params.Tag, Params.Index, Params.Group, Pow2;
    var f := rank * banksPerRank + bank;
    forall tag | tag in line
      ensures CachedOk(p, banksPerRank, gct[f := gctF], rct[f := rctF], r, s, tag, line[tag])
    {
      assert CachedOk(p, banksPerRank, gct, rct, r, s, tag, line[tag]);
      DigitUnique(r, p.EvictedBank(tag), rank, bank, banksPerRank);
      SplitUndoesDecode(p, tag, s);
    }
  }

  /// The activated row's own entry.
  lemma {:induction false} EntryIsOk(p: Params, banksPerRank: nat, gct: seq<map<nat, GroupEntry>>,
                                     rct: seq<map<nat, int>>, rank: nat, bank: nat, row: nat)
    requires p.Valid() && p.rctRows <= row < p.Rows()
    requires bank < banksPerRank && rank * banksPerRank + bank < |gct| == |rct|
    requires var f := rank * banksPerRank + bank; row in rct[f] && EntryOf(gct[f], p.Group(row)).initialized
    ensures var f := rank * banksPerRank + bank;
            forall v :: CachedOk(p, banksPerRank, gct, rct, rank, p.Index(row), p.Tag(bank, row), v) <==>
              v == rct[f][row]
  {
    hide Params.EvictedBank, Params.EvictedRow, Params.Tag, Params.Index, Params.Group;
    DecodeUndoesSplit(p, bank, row);
  }

  /// The whole cache after the activated row's line was rewritten.
  lemma {:induction false} CacheStaysOk(p: Params, banksPerRank: nat, gct: seq<map<nat, GroupEntry>>,
                                        rct: seq<map<nat, int>>, rcc: seq<seq<Line>>, rank: nat, bank: nat, row: nat,
                                        gctF: map<nat, GroupEntry>, rctF: map<nat, int>, line: Line)
    requires p.Valid() && CacheOk(p, banksPerRank, gct, rct, rcc)
    requires forall r :: 0 <= r < |rcc| ==> |rcc[r]| <= Pow2(p.indexBits)
    requires rank < |rcc| && p.Index(row) < |rcc[rank]|
    requires bank < banksPerRank && rank * banksPerRank + bank < |gct| == |rct|
    requires var f := rank * banksPerRank + bank; Compatible(p, gct[f], rct[f], gctF, rctF, row)
    requires var f := rank * banksPerRank + bank;
             |line| <= WAYS && LineOk(p, banksPerRank, gct[f := gctF], rct[f := rctF], rank, p.Index(row), line)
    ensures var f := rank * banksPerRank + bank;
            CacheOk(p, banksPerRank, gct[f := gctF], rct[f := rctF], rcc[rank := rcc[rank][p.Index(row) := line]])
  {
    hide Params.EvictedBank, Params.EvictedRow, Params.Tag, Params.Index, Params.Group, Pow2, LineOk, Compatible;
    var f, rcc' := rank * banksPerRank + bank, rcc[rank := rcc[rank][p.Index(row) := line]];
    forall r, s | 0 <= r < |rcc'| && 0 <= s < |rcc'[r]|
      ensures |rcc'[r][s]| <= WAYS && LineOk(p, banksPerRank, gct[f := gctF], rct[f := rctF], r, s, rcc'[r][s])
    {
      if !(r == rank && s == p.Index(row)) {
        assert rcc'[r][s] == rcc[r][s];
        LineStaysOk(p, banksPerRank, gct, rct, r, s, rcc[r][s], rank, bank, row, gctF, rctF);
      }
    }
  }

  /// What a hit in the activated row's set says.
  lemma {:induction false} HitIsCounter(p: Params, banksPerRank: nat, gct: seq<map<nat, GroupEntry>>,
                                        rct: seq<map<nat, int>>, rank: nat, bank: nat, f: nat, row: nat, line: Line)
    requires p.Valid() && row < p.Rows() && LineOk(p, banksPerRank, gct, rct, rank, p.Index(row), line)
    requires f == rank * banksPerRank + bank && f < |gct| == |rct|
    requires p.Tag(bank, row) in line
    ensures row in rct[f] && rct[f][row] == line[p.Tag(bank, row)]
    ensures EntryOf(gct[f], p.Group(row)).initialized
  {
    hide Params.EvictedBank, Params.EvictedRow, Params.Tag, Params.Index, Params.Group;
    assert CachedOk(p, banksPerRank, gct, rct, rank, p.Index(row), p.Tag(bank, row), line[p.Tag(bank, row)]);
    DecodeUndoesSplit(p, bank, row);
  }

  /// The activated row's set after some entries were dropped and its own entry was written.
  lemma {:induction false} WrittenLineOk(p: Params, banksPerRank: nat, gct: seq<map<nat, GroupEntry>>,
                                         rct: seq<map<nat, int>>, line: Line, rank: nat, bank: nat, row: nat,
                                         gctF: map<nat, GroupEntry>, rctF: map<nat, int>, kept: Line)
    requires p.Valid() && p.rctRows <= row < p.Rows() && LineOk(p, banksPerRank, gct, rct, rank, p.Index(row), line)
    requires bank < banksPerRank && rank * banksPerRank + bank < |gct| == |rct|
    requires var f := rank * banksPerRank + bank; Compatible(p, gct[f], rct[f], gctF, rctF, row)
    requires row in rctF && EntryOf(gctF, p.Group(row)).initialized
    requires forall t :: t in kept ==> t in line && kept[t] == line[t] && t != p.Tag(bank, row)
    ensures var f := rank * banksPerRank + bank;
            LineOk(p, banksPerRank, gct[f := gctF], rct[f := rctF], rank, p.Index(row),
                   kept[p.Tag(bank, row) := rctF[row]])
  {
    hide Params.EvictedBank, Params.EvictedRow, Params.Tag, Params.Group, Pow2, Compatible, CachedOk;
    var f, s := rank * banksPerRank + bank, p.Index(row);
    LineStaysOk(p, banksPerRank, gct, rct, rank, s, kept, rank, bank, row, gctF, rctF);
    EntryIsOk(p, banksPerRank, gct[f := gctF], rct[f := rctF], rank, bank, row);
  }

  /// Counting a row leaves everything the cache may hold of its bank alone, but for the row itself.
  lemma {:induction false} CountingIsCompatible(p: Params, b: Bank, row: nat, prepared: map<nat, int>,
                                                t: map<nat, GroupEntry>, counters: map<nat, int>)
    requires var g := p.Group(row);
             Prepared(p, b.rct, prepared, g, EntryOf(b.gct, g).initialized) &&
             t == b.gct[g := GroupEntry(EntryOf(b.gct, g).count, true)]
    requires p.Fits() && row in counters && counters == prepared[row := counters[row]]
    ensures Compatible(p, b.gct, b.rct, t, counters, row)
  {
    hide Params.Group;
    var g := p.Group(row);
    forall q | q in b.rct && q != row && EntryOf(b.gct, p.Group(q)).initialized
      ensures q in counters && counters[q] == b.rct[q] && EntryOf(t, p.Group(q)).initialized
    {
      GroupIsSpan(p, g, q);
      assert p.Group(q) == g ==> prepared == b.rct;
    }
  }

  lemma {:induction false} CountedIsStep(p: Params, b: Bank, row: nat, prepared: map<nat, int>, t: map<nat, GroupEntry>,
                                         counters: map<nat, int>, vrr: bool)
    requires row >= p.rctRows && EntryOf(b.gct, p.Group(row)).count >= p.group
    requires Prepared(p, b.rct, prepared, p.Group(row), EntryOf(b.gct, p.Group(row)).initialized)
    requires t == b.gct[p.Group(row) := GroupEntry(EntryOf(b.gct, p.Group(row)).count, true)]
    requires vrr == (At(prepared, row) + 1 >= p.tracking)
    requires counters == prepared[row := if vrr then 0 else At(prepared, row) + 1]
    ensures BankStep(p, b, row, Bank(t, counters, b.own), vrr)
  {
  }

  lemma {:induction false} LineOfCache(p: Params, banksPerRank: nat, gct: seq<map<nat, GroupEntry>>,
                                       rct: seq<map<nat, int>>, rcc: seq<seq<Line>>, r: nat, s: nat)
    requires p.Valid() && CacheOk(p, banksPerRank, gct, rct, rcc) && r < |rcc| && s < |rcc[r]|
    ensures |rcc[r][s]| <= WAYS && LineOk(p, banksPerRank, gct, rct, r, s, rcc[r][s])
  {
  }

  /// The cache does not look at group counts.
  lemma {:induction false} SameInitialized(p: Params, banksPerRank: nat, gct: seq<map<nat, GroupEntry>>,
                                           gct': seq<map<nat, GroupEntry>>, rct: seq<map<nat, int>>,
                                           rcc: seq<seq<Line>>)
    requires p.Valid() && CacheOk(p, banksPerRank, gct, rct, rcc) && |gct'| == |gct|
    requires forall f, g :: 0 <= f < |gct| ==> EntryOf(gct'[f], g).initialized == EntryOf(gct[f], g).initialized
    ensures CacheOk(p, banksPerRank, gct', rct, rcc)
  {
    hide Params.EvictedBank, Params.EvictedRow, Params.Group, CachedOk;
    forall r, s, tag | 0 <= r < |rcc| && 0 <= s < |rcc[r]| && tag in rcc[r][s]
      ensures CachedOk(p, banksPerRank, gct', rct, r, s, tag, rcc[r][s][tag])
    {
      assert LineOk(p, banksPerRank, gct, rct, r, s, rcc[r][s]);
      CachedWith(p, banksPerRank, gct, gct', rct, r, s, tag, rcc[r][s][tag]);
    }
  }

  lemma {:induction false} CachedWith(p: Params, banksPerRank: nat, gct: seq<map<nat, GroupEntry>>,
                                      gct': seq<map<nat, GroupEntry>>, rct: seq<map<nat, int>>, r: nat, s: nat,
                                      tag: nat, v: int)
    requires p.Valid() && CachedOk(p, banksPerRank, gct, rct, r, s, tag, v) && |gct'| == |gct|
    requires forall f, g :: 0 <= f < |gct| ==> EntryOf(gct'[f], g).initialized == EntryOf(gct[f], g).initialized
    ensures CachedOk(p, banksPerRank, gct', rct, r, s, tag, v)
  {
    hide Params.EvictedBank, Params.EvictedRow, Params.Group;
  }

  /// An activate that is counted through the cache is a step of the simple tracker and keeps the cache coherent.
  lemma {:induction false} CountedRow(p: Params, banksPerRank: nat, gct: seq<map<nat, GroupEntry>>,
                                      rct: seq<map<nat, int>>, own: seq<map<nat, int>>, rcc: seq<seq<Line>>,
                                      log: seq<Log>, rank: nat, bank: nat, f: nat, row: nat, t: map<nat, GroupEntry>,
                                      prepared: map<nat, int>, counters: map<nat, int>, line: Line, victim: Option<nat>,
                                      vrr: bool)
    requires p.Valid() && p.Fits() && p.rctRows <= row < p.Rows() && CacheOk(p, banksPerRank, gct, rct, rcc)
    requires f == rank * banksPerRank + bank && bank < banksPerRank && f < |gct| == |rct| == |own| == |log|
    requires rank < |rcc| && p.Index(row) < |rcc[rank]| && forall r :: 0 <= r < |rcc| ==> |rcc[r]| <= Pow2(p.indexBits)
    requires Covers(p, Bank(gct[f], rct[f], own[f]), log[f]) && EntryOf(gct[f], p.Group(row)).count >= p.group
    requires t == gct[f][p.Group(row) := GroupEntry(EntryOf(gct[f], p.Group(row)).count, true)]
    requires Prepared(p, rct[f], prepared, p.Group(row), EntryOf(gct[f], p.Group(row)).initialized)
    requires vrr == (At(prepared, row) + 1 >= p.tracking)
    requires counters == prepared[row := if vrr then 0 else At(prepared, row) + 1]
    requires |line| <= WAYS && line == Without(rcc[rank][p.Index(row)], victim)[p.Tag(bank, row) := counters[row]]
    ensures BankStep(p, Bank(gct[f], rct[f], own[f]), row, Bank(t, counters, own[f]), vrr)
    ensures Covers(p, Bank(t, counters, own[f]), Logged(log[f], row, vrr))
    ensures CacheOk(p, banksPerRank, gct[f := t], rct[f := counters], rcc[rank := rcc[rank][p.Index(row) := line]])
  {
    hide Params.Group, Params.Tag, Params.Index, Params.Rows, Pow2;
    hide CacheOk, CachedOk, Covers, LineOk, IsInitialized, BankStep, Compatible, Prepared, Logged;
    var b, set0, tag := Bank(gct[f], rct[f], own[f]), rcc[rank][p.Index(row)], p.Tag(bank, row);
    var kept: map<nat, int> := Without(set0, victim) - {tag};
    assert line == kept[tag := counters[row]];
    CountingIsCompatible(p, b, row, prepared, t, counters);
    LineOfCache(p, banksPerRank, gct, rct, rcc, rank, p.Index(row));
    WrittenLineOk(p, banksPerRank, gct, rct, set0, rank, bank, row, t, counters, kept);
    CacheStaysOk(p, banksPerRank, gct, rct, rcc, rank, bank, row, t, counters, line);
    CountedIsStep(p, b, row, prepared, t, counters, vrr);
    BankStepCovers(p, b, log[f], row, Bank(t, counters, own[f]), vrr);
  }

  // ---------- one activate through the cache ----------

  datatype Tables = Tables(gct: seq<map<nat, GroupEntry>>, rct: seq<map<nat, int>>, own: seq<map<nat, int>>,
                           rcc: seq<seq<Line>>)

  ghost predicate HasBank(t: Tables, f: nat) {
    f < |t.gct| && f < |t.rct| && f < |t.own|
  }

  ghost function BankIn(t: Tables, f: nat): Bank
    requires HasBank(t, f)
  {
    Bank(t.gct[f], t.rct[f], t.own[f])
  }

  /// The entry of (bank, victimRow) makes room for one of `row`.
  ghost predicate IsVictim(p: Params, policy: Policy, line: Line, row: nat, bank: nat, victimRow: nat)
    requires p.Valid()
  {
    victimRow < p.Rows() && p.Index(victimRow) == p.Index(row) && MayGo(policy, line, p.Tag(bank, victimRow))
  }

  ghost function TagOf(p: Params, evicted: Option<(nat, nat)>): Option<nat>
    requires p.Valid()
  {
    if evicted.Some? then Some(p.Tag(evicted.value.0, evicted.value.1)) else None
  }

  /// One count: on a hit the cached counter goes up and the table's beside it, on a miss the table's counter
  /// goes up and into the set; the set's copy decides about the request.
  ghost predicate CountsOn(p: Params, prepared: map<nat, int>, line: Line, victim: Option<nat>, tag: nat, row: nat,
                           rct': map<nat, int>, line': Line, vrr: bool)
  {
    var before := if tag in line then line[tag] else At(prepared, row);
    vrr == (before + 1 >= p.tracking) &&
    rct' == prepared[row := if vrr then 0 else At(prepared, row) + 1] &&
    line' == Without(line, victim)[tag := if vrr then 0 else before + 1]
  }

  /// An activate in a group whose shared counter is used up: the first of them starts the group's counters,
  /// every one is counted through the row's set, and a miss in a full set gives up one entry.
  ghost predicate CountedStep(p: Params, policy: Policy, b: Bank, line: Line, bank: nat, row: nat,
                              b': Bank, line': Line, vrr: bool, evicted: Option<(nat, nat)>)
    requires p.Valid()
  {
    var g, tag := p.Group(row), p.Tag(bank, row);
    var e := EntryOf(b.gct, g);
    b'.own == b.own && b'.gct == b.gct[g := GroupEntry(e.count, true)] &&
    (evicted.Some? <==> tag !in line && |line| == WAYS) &&
    (evicted.Some? ==> IsVictim(p, policy, line, row, evicted.value.0, evicted.value.1)) &&
    exists prepared :: Prepared(p, b.rct, prepared, g, e.initialized) &&
      CountsOn(p, prepared, line, TagOf(p, evicted), tag, row, b'.rct, line', vrr)
  }

  /// What one activate does to its bank's counters and to its set of the cache.
  ghost predicate ActivateStep(p: Params, policy: Policy, b: Bank, line: Line, bank: nat, row: nat,
                               b': Bank, line': Line, vrr: bool, evicted: Option<(nat, nat)>)
    requires p.Valid()
  {
    if row >= p.rctRows && EntryOf(b.gct, p.Group(row)).count >= p.group then
      CountedStep(p, policy, b, line, bank, row, b', line', vrr, evicted)
    else
      PlainStep(p, b, row, b', vrr) && line' == line && evicted == None
  }

  /// One bank and one set take the step, all else stays.
  ghost predicate Steps(p: Params, policy: Policy, t: Tables, log: seq<Log>, t': Tables, log': seq<Log>,
                        rank: nat, bank: nat, f: nat, row: nat, vrr: bool, evicted: Option<(nat, nat)>)
    requires p.Valid()
  {
    var s := p.Index(row);
    HasBank(t, f) && HasBank(t', f) && f < |log| &&
    rank < |t.rcc| && s < |t.rcc[rank]| && rank < |t'.rcc| && s < |t'.rcc[rank]| &&
    ActivateStep(p, policy, BankIn(t, f), t.rcc[rank][s], bank, row, BankIn(t', f), t'.rcc[rank][s], vrr, evicted) &&
    t' == Tables(t.gct[f := t'.gct[f]], t.rct[f := t'.rct[f]], t.own[f := t'.own[f]],
                 t.rcc[rank := t.rcc[rank][s := t'.rcc[rank][s]]]) &&
    log' == log[f := Logged(log[f], row, vrr)]
  }

  /// The requests that an activate sends: the writes that start a group's counters, the write of the counter that
  /// a full set gives up, and on a miss the read of the row's own.
  ghost function Traffic(p: Params, l: Layout, b: Bank, line: Line, bank: nat, row: nat,
                         evicted: Option<(nat, nat)>): seq<Transfer>
    requires p.Valid() && l.Usable()
  {
    var g := p.Group(row);
    var e := EntryOf(b.gct, g);
    if row < p.rctRows || e.count < p.group then []
    else
      (if e.initialized then [] else StartWrites(l, bank, g * p.groupSize, p.groupSize)) +
      (if evicted.Some? then [WriteOf(l, evicted.value.0, evicted.value.1)] else []) +
      (if p.Tag(bank, row) in line then [] else [ReadOf(l, bank, row)])
  }

  /// The writes that start a group's counters, if the step started it.
  ghost function StartsOf(p: Params, l: Layout, b: Bank, b': Bank, bank: nat, g: nat): seq<Transfer>
    requires l.Usable()
  {
    if EntryOf(b'.gct, g).initialized && !EntryOf(b.gct, g).initialized
    then StartWrites(l, bank, g * p.groupSize, p.groupSize) else []
  }

  /// The requests balance with the cache: besides the writes that start a group there is a write if and only if an
  /// entry left the set, of that entry, and a read if and only if one came into it, of that one.
  lemma {:induction false} TrafficBalances(p: Params, policy: Policy, l: Layout, b: Bank, line: Line, bank: nat,
                                           row: nat, b': Bank, line': Line, vrr: bool, evicted: Option<(nat, nat)>)
    requires p.Valid() && l.Usable() && ActivateStep(p, policy, b, line, bank, row, b', line', vrr, evicted)
    ensures Traffic(p, l, b, line, bank, row, evicted) ==
            StartsOf(p, l, b, b', bank, p.Group(row)) +
            (if evicted.Some? then [WriteOf(l, evicted.value.0, evicted.value.1)] else []) +
            (if line'.Keys <= line.Keys then [] else [ReadOf(l, bank, row)])
    ensures forall t :: t in line && t !in line' <==> TagOf(p, evicted) == Some(t)
    ensures forall t :: t in line' && t !in line ==> t == p.Tag(bank, row)
  {
    hide Params.Group, Params.Rows, Params.Tag, Params.Valid, Layout.Usable, ActivateStep, StartWrites, TagOf, EntryOf;
    SetMoves(p, policy, b, line, bank, row, b', line', vrr, evicted);
  }

  /// Which entries move, and when.
  lemma {:induction false} SetMoves(p: Params, policy: Policy, b: Bank, line: Line, bank: nat, row: nat, b': Bank,
                                    line': Line, vrr: bool, evicted: Option<(nat, nat)>)
    requires p.Valid() && ActivateStep(p, policy, b, line, bank, row, b', line', vrr, evicted)
    ensures var g := p.Group(row);
            var counted := row >= p.rctRows && EntryOf(b.gct, g).count >= p.group;
            (EntryOf(b'.gct, g).initialized <==> counted || EntryOf(b.gct, g).initialized) &&
            (line'.Keys <= line.Keys <==> !counted || p.Tag(bank, row) in line) && (evicted.Some? ==> counted)
    ensures forall t :: t in line && t !in line' <==> TagOf(p, evicted) == Some(t)
    ensures forall t :: t in line' && t !in line ==> t == p.Tag(bank, row)
  {
    hide Params.Group, Params.Rows, Params.Tag, Params.Index, Pow2, Prepared, IsVictim, TagOf;
    var g, tag := p.Group(row), p.Tag(bank, row);
    if row >= p.rctRows && EntryOf(b.gct, g).count >= p.group {
      var prepared :| Prepared(p, b.rct, prepared, g, EntryOf(b.gct, g).initialized) &&
        CountsOn(p, prepared, line, TagOf(p, evicted), tag, row, b'.rct, line', vrr);
      VictimWasThere(p, policy, line, row, evicted);
      KeysMoved(line, TagOf(p, evicted), tag, line'[tag], line');
    } else {
      NoVictim(p);
    }
  }

  lemma {:induction false} VictimWasThere(p: Params, policy: Policy, line: Line, row: nat, evicted: Option<(nat, nat)>)
    requires p.Valid() && (evicted.Some? ==> IsVictim(p, policy, line, row, evicted.value.0, evicted.value.1))
    ensures TagOf(p, evicted).Some? <==> evicted.Some?
    ensures evicted.Some? ==> TagOf(p, evicted).value in line
  {
    hide Params.Tag, Params.Index, Params.Rows;
  }

  lemma {:induction false} NoVictim(p: Params)
    requires p.Valid()
    ensures TagOf(p, None) == None
  {
  }

  lemma {:induction false} KeysMoved(line: Line, victim: Option<nat>, tag: nat, v: int, line': Line)
    requires line' == Without(line, victim)[tag := v] && (victim.Some? ==> victim.value in line && tag !in line)
    ensures forall t :: t in line && t !in line' <==> victim == Some(t)
    ensures line'.Keys <= line.Keys <==> tag in line
    ensures forall t :: t in line' && t !in line ==> t == tag
  {
    assert tag in line'.Keys;
    assert forall t :: t in line'.Keys ==> t in line.Keys || t == tag;
  }

  function Decoded(p: Params, victim: Option<nat>, index: nat): Option<(nat, nat)>
    requires p.indexBits <= p.rowBits
  {
    if victim.Some? then Some((p.EvictedBank(victim.value), p.EvictedRow(victim.value, index))) else None
  }

  /// The bank and row that an evicted tag decodes to are the ones whose counter was given up.
  lemma {:induction false} DecodedIsVictim(p: Params, policy: Policy, line: Line, row: nat, victim: Option<nat>)
    requires p.Valid() && victim.Some? && MayGo(policy, line, victim.value)
    ensures var (bank, victimRow) := Decoded(p, victim, p.Index(row)).value;
            IsVictim(p, policy, line, row, bank, victimRow) && p.Tag(bank, victimRow) == victim.value &&
            victimRow < p.Rows() && victim.value in line &&
            (policy == MinCount ==> forall t :: t in line ==> line[victim.value] <= line[t])
  {
    hide Params.EvictedBank, Params.EvictedRow, Params.Tag, Params.Rows, Pow2;
    SplitUndoesDecode(p, victim.value, p.Index(row));
  }

  /// With a coherent cache a hit finds the table's counter, so the cache does not show.
  lemma {:induction false} CountsAsTable(p: Params, banksPerRank: nat, t: Tables, rank: nat, bank: nat, f: nat,
                                         row: nat, prepared: map<nat, int>, victim: Option<nat>,
                                         counters: map<nat, int>, line: Line, vrr: bool)
    requires p.Valid() && row < p.Rows() && CacheOk(p, banksPerRank, t.gct, t.rct, t.rcc)
    requires f == rank * banksPerRank + bank && f < |t.gct| == |t.rct| && rank < |t.rcc| && p.Index(row) < |t.rcc[rank]|
    requires Prepared(p, t.rct[f], prepared, p.Group(row), EntryOf(t.gct[f], p.Group(row)).initialized)
    requires CountsOn(p, prepared, t.rcc[rank][p.Index(row)], victim, p.Tag(bank, row), row, counters, line, vrr)
    ensures vrr == (At(prepared, row) + 1 >= p.tracking)
    ensures counters == prepared[row := if vrr then 0 else At(prepared, row) + 1]
    ensures line == Without(t.rcc[rank][p.Index(row)], victim)[p.Tag(bank, row) := counters[row]]
  {
    hide Params.EvictedBank, Params.EvictedRow, Params.Tag, Params.Index, Params.Group, Params.Rows, Pow2;
    hide CachedOk, CacheOk, LineOk, IsInitialized, Without;
    var set0 := t.rcc[rank][p.Index(row)];
    LineOfCache(p, banksPerRank, t.gct, t.rct, t.rcc, rank, p.Index(row));
    if p.Tag(bank, row) in set0 {
      HitIsCounter(p, banksPerRank, t.gct, t.rct, rank, bank, f, row, set0);
    }
  }

  /// An activate through a coherent cache is a step of the tracker without a cache; the counters keep
  /// covering the true counts and the cache stays coherent.
  lemma {:induction false} ActivateRefines(p: Params, policy: Policy, banksPerRank: nat, t: Tables, log: seq<Log>,
                                           t': Tables, log': seq<Log>, rank: nat, bank: nat, f: nat, row: nat,
                                           vrr: bool, evicted: Option<(nat, nat)>)
    requires p.Valid() && p.Fits() && row < p.Rows() && CacheOk(p, banksPerRank, t.gct, t.rct, t.rcc)
    requires f == rank * banksPerRank + bank && bank < banksPerRank && f < |t.gct| == |t.rct| == |t.own| == |log|
    requires rank < |t.rcc| && forall r :: 0 <= r < |t.rcc| ==> |t.rcc[r]| <= Pow2(p.indexBits)
    requires Covers(p, BankIn(t, f), log[f]) && Steps(p, policy, t, log, t', log', rank, bank, f, row, vrr, evicted)
    requires |t'.rcc[rank][p.Index(row)]| <= WAYS
    ensures BankStep(p, BankIn(t, f), row, BankIn(t', f), vrr)
    ensures Covers(p, BankIn(t', f), log'[f])
    ensures CacheOk(p, banksPerRank, t'.gct, t'.rct, t'.rcc)
  {
    hide Params.EvictedBank, Params.EvictedRow, Params.Tag, Params.Index, Params.Group, Params.Rows, Pow2;
    hide CachedOk, CacheOk, Covers, LineOk, Prepared, CountsOn, IsVictim, Logged, PlainStep;
    var b, b', s := BankIn(t, f), BankIn(t', f), p.Index(row);
    var g := p.Group(row);
    if row >= p.rctRows && EntryOf(b.gct, g).count >= p.group {
      var prepared :| Prepared(p, b.rct, prepared, g, EntryOf(b.gct, g).initialized) &&
        CountsOn(p, prepared, t.rcc[rank][s], TagOf(p, evicted), p.Tag(bank, row), row, b'.rct, t'.rcc[rank][s], vrr);
      CountsAsTable(p, banksPerRank, t, rank, bank, f, row, prepared, TagOf(p, evicted), b'.rct, t'.rcc[rank][s], vrr);
      CountedRow(p, banksPerRank, t.gct, t.rct, t.own, t.rcc, log, rank, bank, f, row, b'.gct, prepared, b'.rct,
                 t'.rcc[rank][s], TagOf(p, evicted), vrr);
    } else {
      BankStepCovers(p, b, log[f], row, b', vrr);
      assert t.rcc[rank][s := t.rcc[rank][s]] == t.rcc[rank];
      assert t'.rcc == t.rcc;
      UncountedKeepsCache(p, banksPerRank, t, t', f, row, vrr);
    }
  }

  lemma {:induction false} UncountedKeepsCache(p: Params, banksPerRank: nat, t: Tables, t': Tables, f: nat, row: nat,
                                               vrr: bool)
    requires p.Valid() && CacheOk(p, banksPerRank, t.gct, t.rct, t.rcc) && HasBank(t, f) && HasBank(t', f)
    requires row < p.rctRows || EntryOf(t.gct[f], p.Group(row)).count < p.group
    requires BankStep(p, BankIn(t, f), row, BankIn(t', f), vrr)
    requires t'.rcc == t.rcc && t'.gct == t.gct[f := t'.gct[f]] && t'.rct == t.rct[f := t'.rct[f]]
    ensures CacheOk(p, banksPerRank, t'.gct, t'.rct, t'.rcc)
  {
    hide Params.Group, CacheOk, CachedOk;
    assert t'.rct == t.rct;
    SameInitialized(p, banksPerRank, t.gct, t'.gct, t.rct, t.rcc);
  }

  /// Tables and logs once the periodic reset has happened.
  ghost function Cleared(t: Tables): Tables {
    Tables(seq(|t.gct|, _ => map[]), seq(|t.rct|, _ => map[]), seq(|t.own|, _ => map[]),
           seq(|t.rcc|, r requires 0 <= r < |t.rcc| => seq(|t.rcc[r]|, _ => map[])))
  }

  ghost function Marked(log: seq<Log>): seq<Log> {
    seq(|log|, f requires 0 <= f < |log| => log[f] + [Reset])
  }

  // ---------- one row's counter ----------

  /// What a guarded row's next counted activate counts on from: its entry in the set, or else the table,
  /// where its own group's start still puts the group threshold.
  ghost function Effective(p: Params, b: Bank, line: Line, bank: nat, row: nat): int
    requires p.Valid()
  {
    if p.Tag(bank, row) in line then line[p.Tag(bank, row)]
    else if p.Own(row) && !EntryOf(b.gct, p.Group(row)).initialized then p.group
    else At(b.rct, row)
  }

  /// A guarded row's counters cover its activates and stay below the tracking threshold.
  ghost predicate Guarded(p: Params, b: Bank, line: Line, log: Log, bank: nat, row: nat)
    requires p.Valid()
  {
    var e, cached := EntryOf(b.gct, p.Group(row)), p.Tag(bank, row) in line;
    && (if e.count < p.group then Acts(log, row) <= e.count
        else Acts(log, row) <= Effective(p, b, line, bank, row) < p.tracking)
    && (cached && !p.Foreign(row) ==> line[p.Tag(bank, row)] == At(b.rct, row))
    && (!cached && p.Foreign(row) ==> Acts(log, row) == 0)
  }

  /// Neither the table's counter of a row nor its entry in the set is ahead of its activates by more than the group
  /// threshold that it started with.
  ghost predicate Modest(p: Params, b: Bank, line: Line, log: Log, bank: nat, row: nat)
    requires p.Valid()
  {
    var tag := p.Tag(bank, row);
    At(b.rct, row) <= Acts(log, row) + Max(0, p.group) &&
    (tag in line ==> line[tag] <= Acts(log, row) + Max(0, p.group))
  }

  /// What holds of any row, and more of a guarded one.
  ghost predicate RowOk(p: Params, banksPerRank: nat, b: Bank, line: Line, log: Log, bank: nat, row: nat)
    requires p.Valid()
  {
    if row < p.rctRows then Acts(log, row) == At(b.own, row) < p.tracking
    else
      var e := EntryOf(b.gct, p.Group(row));
      && 0 <= e.count <= BankActs(log) && Modest(p, b, line, log, bank, row)
      && (p.Tag(bank, row) in line ==> e.initialized)
      && (e.initialized ==> e.count >= p.group)
      && (!Unguarded(p, banksPerRank, row) ==> Guarded(p, b, line, log, bank, row))
  }

  /// What the activate of one row may do to the counters of another one of the bank.
  ghost predicate Beside(p: Params, b: Bank, b': Bank, q: nat)
    requires p.Valid()
  {
    var e, e' := EntryOf(b.gct, p.Group(q)), EntryOf(b'.gct, p.Group(q));
    var starter := p.Starter(q);
    && At(b'.own, q) == At(b.own, q)
    && (e' == e || (e.count < p.group && e' == GroupEntry(e.count + 1, e.initialized)) ||
        (e.count >= p.group && e' == GroupEntry(e.count, true)))
    && At(b'.rct, q) == (if starter < p.Groups() && !EntryOf(b.gct, starter).initialized &&
                         EntryOf(b'.gct, starter).initialized
                         then p.group else At(b.rct, q))
  }

  /// What it may do to the other's entry in the set: at most evict it.
  ghost predicate Apart(line: Line, line': Line, other: nat) {
    other in line' ==> other in line && line'[other] == line[other]
  }

  lemma {:induction false} StartedBeside(p: Params, b: Bank, prepared: map<nat, int>, counters: map<nat, int>, row: nat,
                                         q: nat, count: int)
    requires p.Valid() && row < p.Rows() && q != row && count == EntryOf(b.gct, p.Group(row)).count >= p.group
    requires Prepared(p, b.rct, prepared, p.Group(row), EntryOf(b.gct, p.Group(row)).initialized)
    requires row in counters && counters == prepared[row := counters[row]]
    ensures Beside(p, b, Bank(b.gct[p.Group(row) := GroupEntry(count, true)], counters, b.own), q)
  {
    hide Params.Group, Params.Rows, Params.Groups, Params.InSpan, Params.Starter, Params.Valid;
    GroupInRange(p, row);
    StarterOf(p, p.Group(row), q);
  }

  lemma {:induction false} OthersBeside(p: Params, policy: Policy, b: Bank, line: Line, bank: nat, row: nat, b': Bank,
                                        line': Line, vrr: bool, evicted: Option<(nat, nat)>, q: nat)
    requires p.Valid() && row < p.Rows() && q != row
    requires ActivateStep(p, policy, b, line, bank, row, b', line', vrr, evicted)
    ensures Beside(p, b, b', q)
  {
    hide Params.Group, Params.Rows, Params.Groups, Params.Tag, Params.Starter, Pow2, Prepared, IsVictim, CountsOn;
    var g := p.Group(row);
    var e := EntryOf(b.gct, g);
    if row >= p.rctRows && e.count >= p.group {
      var prepared :| Prepared(p, b.rct, prepared, g, e.initialized) &&
        CountsOn(p, prepared, line, TagOf(p, evicted), p.Tag(bank, row), row, b'.rct, line', vrr);
      CountsOnRow(p, prepared, line, TagOf(p, evicted), p.Tag(bank, row), row, b'.rct, line', vrr);
      StartedBeside(p, b, prepared, b'.rct, row, q, e.count);
    } else {
      assert EntryOf(b'.gct, g) == e || EntryOf(b'.gct, g) == GroupEntry(e.count + 1, e.initialized);
    }
  }

  lemma {:induction false} CountsOnRow(p: Params, prepared: map<nat, int>, line: Line, victim: Option<nat>, tag: nat,
                                       row: nat, rct': map<nat, int>, line': Line, vrr: bool)
    requires CountsOn(p, prepared, line, victim, tag, row, rct', line', vrr)
    ensures row in rct' && rct' == prepared[row := rct'[row]]
  {
  }

  lemma {:induction false} OthersApart(p: Params, policy: Policy, b: Bank, line: Line, bank: nat, row: nat, b': Bank,
                                       line': Line, vrr: bool, evicted: Option<(nat, nat)>, other: nat)
    requires p.Valid() && other != p.Tag(bank, row)
    requires ActivateStep(p, policy, b, line, bank, row, b', line', vrr, evicted)
    ensures Apart(line, line', other)
  {
    hide Params.Group, Params.Tag, Params.Valid, Prepared, IsVictim, PlainStep;
  }

  /// Another row's activate keeps a row's counters covering it.  The entry of a guarded row that another group
  /// starts must not be evicted.
  lemma {:induction false} RowStays(p: Params, banksPerRank: nat, b: Bank, line: Line, log: Log, b': Bank, line': Line,
                                    log': Log, bank: nat, q: nat)
    requires p.Valid() && q < p.Rows() && RowOk(p, banksPerRank, b, line, log, bank, q)
    requires Beside(p, b, b', q) && Apart(line, line', p.Tag(bank, q))
    requires Acts(log', q) == Acts(log, q) && BankActs(log') >= BankActs(log) + (if b' == b then 0 else 1)
    requires p.Foreign(q) && !Crowded(p, banksPerRank, q) && p.Tag(bank, q) in line ==> p.Tag(bank, q) in line'
    ensures RowOk(p, banksPerRank, b', line', log', bank, q)
  {
    hide Params.Group, Params.Rows, Params.Tag, Params.Groups, Params.Starter, Pow2, Acts, Crowded;
    StarterOf(p, p.Group(q), q);
    GroupInRange(p, q);
  }

  /// A row's own activate, counted by its row counter.
  lemma {:induction false} RowCounts(p: Params, banksPerRank: nat, b: Bank, line: Line, log: Log, bank: nat, row: nat,
                                     prepared: map<nat, int>, victim: Option<nat>, b': Bank, line': Line, vrr: bool)
    requires p.Valid() && p.rctRows <= row && RowOk(p, banksPerRank, b, line, log, bank, row)
    requires var g := p.Group(row);
             EntryOf(b.gct, g).count >= p.group && Prepared(p, b.rct, prepared, g, EntryOf(b.gct, g).initialized) &&
             b'.gct == b.gct[g := GroupEntry(EntryOf(b.gct, g).count, true)]
    requires CountsOn(p, prepared, line, victim, p.Tag(bank, row), row, b'.rct, line', vrr)
    ensures RowOk(p, banksPerRank, b', line', Logged(log, row, vrr), bank, row)
  {
    hide Params.Group, Params.Rows, Params.Tag, Pow2, Params.Foreign, Acts, Logged, Crowded, Unguarded, Without;
    LoggedActs(log, row, vrr);
    var tag, g := p.Tag(bank, row), p.Group(row);
    assert tag in line' && EntryOf(b'.gct, g) == GroupEntry(EntryOf(b.gct, g).count, true);
    assert At(prepared, row) == if p.Own(row) && !EntryOf(b.gct, g).initialized then p.group else At(b.rct, row);
    assert line'[tag] == if vrr then 0 else Effective(p, b, line, bank, row) + 1;
  }

  /// A row's own activate keeps its counters covering it.
  lemma {:induction false} RowItself(p: Params, policy: Policy, banksPerRank: nat, b: Bank, line: Line, log: Log,
                                     bank: nat, row: nat, b': Bank, line': Line, vrr: bool, evicted: Option<(nat, nat)>)
    requires p.Valid() && row < p.Rows() && RowOk(p, banksPerRank, b, line, log, bank, row)
    requires ActivateStep(p, policy, b, line, bank, row, b', line', vrr, evicted)
    ensures RowOk(p, banksPerRank, b', line', Logged(log, row, vrr), bank, row)
  {
    hide Params.Group, Params.Rows, Params.Tag, Params.Own, Params.Starter, Pow2, Acts, Logged, Crowded, Prepared;
    hide CountsOn, IsVictim;
    LoggedActs(log, row, vrr);
    var g := p.Group(row);
    var e := EntryOf(b.gct, g);
    if row < p.rctRows {
    } else if e.count >= p.group {
      var prepared :| Prepared(p, b.rct, prepared, g, e.initialized) &&
        CountsOn(p, prepared, line, TagOf(p, evicted), p.Tag(bank, row), row, b'.rct, line', vrr);
      RowCounts(p, banksPerRank, b, line, log, bank, row, prepared, TagOf(p, evicted), b', line', vrr);
    } else {
      assert EntryOf(b'.gct, g) == GroupEntry(e.count + 1, e.initialized);
    }
  }

  /// A refresh is requested only for a row that was activated as often as the tracking threshold since its last one,
  /// but for the group threshold; for a row that stores counters exactly at the tracking threshold.
  lemma {:induction false} RequestIsDue(p: Params, policy: Policy, banksPerRank: nat, b: Bank, line: Line, log: Log,
                                        bank: nat, row: nat, b': Bank, line': Line, vrr: bool,
                                        evicted: Option<(nat, nat)>)
    requires p.Valid() && row < p.Rows() && RowOk(p, banksPerRank, b, line, log, bank, row)
    requires ActivateStep(p, policy, b, line, bank, row, b', line', vrr, evicted)
    ensures vrr ==> Acts(log, row) + 1 + Max(0, p.group) >= p.tracking
    ensures row < p.rctRows ==> (vrr <==> Acts(log, row) + 1 >= p.tracking)
  {
    hide Params.Group, Params.Rows, Params.Tag, Params.Starter, Pow2, Acts, Crowded, IsVictim, Guarded;
    var g := p.Group(row);
    if row >= p.rctRows && EntryOf(b.gct, g).count >= p.group {
      var prepared :| Prepared(p, b.rct, prepared, g, EntryOf(b.gct, g).initialized) &&
        CountsOn(p, prepared, line, TagOf(p, evicted), p.Tag(bank, row), row, b'.rct, line', vrr);
      assert At(prepared, row) == p.group || At(prepared, row) == At(b.rct, row);
    }
  }

  /// The counters of a row and its set of the cache, in a state.
  ghost predicate RowAt(p: Params, banksPerRank: nat, t: Tables, log: seq<Log>, rank: nat, bank: nat, row: nat)
    requires p.Valid()
  {
    var f, s := rank * banksPerRank + bank, p.Index(row);
    HasBank(t, f) && f < |log| && rank < |t.rcc| && s < |t.rcc[rank]| &&
    RowOk(p, banksPerRank, BankIn(t, f), t.rcc[rank][s], log[f], bank, row)
  }

  /// The same of a whole step.
  lemma {:induction false} StepIsDue(p: Params, policy: Policy, banksPerRank: nat, t: Tables, log: seq<Log>, t': Tables,
                                     log': seq<Log>, rank: nat, bank: nat, row: nat, vrr: bool,
                                     evicted: Option<(nat, nat)>)
    requires p.Valid() && row < p.Rows() && RowAt(p, banksPerRank, t, log, rank, bank, row)
    requires Steps(p, policy, t, log, t', log', rank, bank, rank * banksPerRank + bank, row, vrr, evicted)
    ensures var acts := Acts(log[rank * banksPerRank + bank], row) + 1;
            (vrr ==> acts + Max(0, p.group) >= p.tracking) && (row < p.rctRows ==> (vrr <==> acts >= p.tracking))
  {
    hide Params.Index, Params.Rows, Params.Group, Params.Tag, Pow2, Acts, ActivateStep, RowOk;
    var f, s := rank * banksPerRank + bank, p.Index(row);
    RequestIsDue(p, policy, banksPerRank, BankIn(t, f), t.rcc[rank][s], log[f], bank, row, BankIn(t', f),
                 t'.rcc[rank][s],
                 vrr, evicted);
  }

  ghost predicate AtHome(p: Params, banksPerRank: nat, rcc: seq<seq<Line>>)
    requires p.Valid()
  {
    forall r, s :: 0 <= r < |rcc| && 0 <= s < |rcc[r]| ==> rcc[r][s].Keys <= Population(p, banksPerRank, s)
  }

  /// The counters of all rows, and every entry in a set it can be in.
  ghost predicate RowsOk(p: Params, banksPerRank: nat, t: Tables, log: seq<Log>)
    requires p.Valid()
  {
    AtHome(p, banksPerRank, t.rcc) &&
    forall rank, bank, row :: 0 <= rank < |t.rcc| && 0 <= bank < banksPerRank && 0 <= row < p.Rows() ==>
      RowAt(p, banksPerRank, t, log, rank, bank, row)
  }

  /// A miss in a set that cannot overflow evicts nothing.
  lemma {:induction false} Uncrowded(p: Params, banksPerRank: nat, line: Line, bank: nat, row: nat)
    requires p.Valid() && p.rctRows <= row < p.Rows() && bank < banksPerRank
    requires line.Keys <= Population(p, banksPerRank, p.Index(row))
    requires !Crowded(p, banksPerRank, row) && p.Tag(bank, row) !in line
    ensures |line| < WAYS
  {
    hide Params.Tag, Params.Index, Params.Rows;
    var all := Population(p, banksPerRank, p.Index(row));
    assert p.Tag(bank, row) in all;
    Smaller(line.Keys, all, p.Tag(bank, row));
  }

  /// So no other entry of such a set goes.
  lemma {:induction false} EntryStays(p: Params, policy: Policy, banksPerRank: nat, b: Bank, line: Line, bank: nat,
                                      row: nat, b': Bank, line': Line, vrr: bool, evicted: Option<(nat, nat)>,
                                      other: nat)
    requires p.Valid() && row < p.Rows() && bank < banksPerRank &&
             line.Keys <= Population(p, banksPerRank, p.Index(row))
    requires ActivateStep(p, policy, b, line, bank, row, b', line', vrr, evicted)
    ensures !Crowded(p, banksPerRank, row) && other in line ==> other in line'
  {
    hide Params.Tag, Params.Index, Params.Rows, Params.Group, Crowded, Population, PlainStep, Prepared, IsVictim;
    if !Crowded(p, banksPerRank, row) && row >= p.rctRows && p.Tag(bank, row) !in line {
      Uncrowded(p, banksPerRank, line, bank, row);
    }
  }

  lemma {:induction false} Smaller(a: set<nat>, b: set<nat>, x: nat)
    requires a <= b && x in b && x !in a
    ensures |a| < |b|
  {
    var rest := b - a;
    assert b == a + rest && a !! rest;
    assert |b| == |a| + |rest|;
    assert x in rest;
  }

  lemma {:induction false} StaysAtHome(p: Params, policy: Policy, banksPerRank: nat, t: Tables, log: seq<Log>,
                                       t': Tables, log': seq<Log>, rank: nat, bank: nat, f: nat, row: nat, vrr: bool,
                                       evicted: Option<(nat, nat)>)
    requires p.Valid() && row < p.Rows() && bank < banksPerRank && AtHome(p, banksPerRank, t.rcc)
    requires Steps(p, policy, t, log, t', log', rank, bank, f, row, vrr, evicted)
    ensures AtHome(p, banksPerRank, t'.rcc)
  {
    hide Params.Group, Params.Tag, Params.Index, Params.Rows, Pow2, PlainStep, Prepared, IsVictim, Population;
    var s := p.Index(row);
    assert t'.rcc[rank][s].Keys <= t.rcc[rank][s].Keys + (if row >= p.rctRows then {p.Tag(bank, row)} else {});
    InPopulation(p, banksPerRank, bank, row);
    forall r, u | 0 <= r < |t'.rcc| && 0 <= u < |t'.rcc[r]|
      ensures t'.rcc[r][u].Keys <= Population(p, banksPerRank, u) {
      assert t.rcc[r][u].Keys <= Population(p, banksPerRank, u);
    }
  }

  lemma {:induction false} InPopulation(p: Params, banksPerRank: nat, bank: nat, row: nat)
    requires p.Valid() && bank < banksPerRank && row < p.Rows()
    ensures row >= p.rctRows ==> p.Tag(bank, row) in Population(p, banksPerRank, p.Index(row))
  {
    hide Params.Tag, Params.Index, Params.Rows;
  }

  /// Rows of one set have different tags.
  lemma {:induction false} TagsDiffer(p: Params, bank0: nat, row0: nat, bank1: nat, row1: nat)
    requires p.Valid() && row0 < p.Rows() && row1 < p.Rows() && p.Index(row0) == p.Index(row1)
    ensures p.Tag(bank0, row0) == p.Tag(bank1, row1) <==> bank0 == bank1 && row0 == row1
  {
    hide Params.EvictedBank, Params.EvictedRow, Params.Tag, Params.Rows, Params.Index;
    DecodeUndoesSplit(p, bank0, row0);
    DecodeUndoesSplit(p, bank1, row1);
  }

  /// One activate anywhere, seen from one row.
  lemma {:induction false} RowKeeps(p: Params, policy: Policy, banksPerRank: nat, t: Tables, log: seq<Log>, t': Tables,
                                    log': seq<Log>, rank: nat, bank: nat, f: nat, row: nat, vrr: bool,
                                    evicted: Option<(nat, nat)>, rank1: nat, bank1: nat, row1: nat)
    requires p.Valid() && row < p.Rows() && row1 < p.Rows() && bank < banksPerRank && bank1 < banksPerRank
    requires f == rank * banksPerRank + bank && AtHome(p, banksPerRank, t.rcc)
    requires Steps(p, policy, t, log, t', log', rank, bank, f, row, vrr, evicted)
    requires RowAt(p, banksPerRank, t, log, rank1, bank1, row1)
    ensures RowAt(p, banksPerRank, t', log', rank1, bank1, row1)
  {
    hide Params.Group, Params.Tag, Params.Index, Params.Rows, Pow2, RowOk, ActivateStep, Logged, Acts, Crowded;
    hide Params.Foreign, Population;
    var f1, s, s1 := rank1 * banksPerRank + bank1, p.Index(row), p.Index(row1);
    DigitUnique(rank, bank, rank1, bank1, banksPerRank);
    var b, b', line, line' := BankIn(t, f), BankIn(t', f), t.rcc[rank][s], t'.rcc[rank][s];
    if f1 == f && row1 == row {
      RowItself(p, policy, banksPerRank, b, line, log[f], bank, row, b', line', vrr, evicted);
    } else {
      if f1 == f {
        LoggedActs(log[f], row, vrr);
        OthersBeside(p, policy, b, line, bank, row, b', line', vrr, evicted, row1);
      } else {
        assert BankIn(t', f1) == BankIn(t, f1);
      }
      if rank1 == rank && s1 == s {
        TagsDiffer(p, bank, row, bank1, row1);
        OthersApart(p, policy, b, line, bank, row, b', line', vrr, evicted, p.Tag(bank1, row1));
        EntryStays(p, policy, banksPerRank, b, line, bank, row, b', line', vrr, evicted, p.Tag(bank1, row1));
        SameCrowd(p, banksPerRank, row, row1);
      }
      RowStays(p, banksPerRank, BankIn(t, f1), t.rcc[rank1][s1], log[f1], BankIn(t', f1), t'.rcc[rank1][s1], log'[f1],
               bank1, row1);
    }
  }

  lemma {:induction false} SameCrowd(p: Params, banksPerRank: nat, row: nat, row1: nat)
    requires p.Valid() && p.Index(row) == p.Index(row1)
    ensures Crowded(p, banksPerRank, row) == Crowded(p, banksPerRank, row1)
  {
  }

  /// Every activate keeps the counters of all rows covering them.
  lemma {:induction false} RowsKeep(p: Params, policy: Policy, banksPerRank: nat, t: Tables, log: seq<Log>, t': Tables,
                                    log': seq<Log>, rank: nat, bank: nat, f: nat, row: nat, vrr: bool,
                                    evicted: Option<(nat, nat)>)
    requires p.Valid() && row < p.Rows() && bank < banksPerRank && f == rank * banksPerRank + bank
    requires RowsOk(p, banksPerRank, t, log) && Steps(p, policy, t, log, t', log', rank, bank, f, row, vrr, evicted)
    ensures RowsOk(p, banksPerRank, t', log')
  {
    hide Params.Index, Params.Rows, Pow2, RowAt, Steps, AtHome;
    SameRanks(p, policy, t, log, t', log', rank, bank, f, row, vrr, evicted);
    StaysAtHome(p, policy, banksPerRank, t, log, t', log', rank, bank, f, row, vrr, evicted);
    forall rank1, bank1, row1 | 0 <= rank1 < |t'.rcc| && 0 <= bank1 < banksPerRank && 0 <= row1 < p.Rows()
      ensures RowAt(p, banksPerRank, t', log', rank1, bank1, row1)
    {
      RowKeeps(p, policy, banksPerRank, t, log, t', log', rank, bank, f, row, vrr, evicted, rank1, bank1, row1);
    }
  }

  lemma {:induction false} SameRanks(p: Params, policy: Policy, t: Tables, log: seq<Log>, t': Tables, log': seq<Log>,
                                     rank: nat, bank: nat, f: nat, row: nat, vrr: bool, evicted: Option<(nat, nat)>)
    requires p.Valid() && Steps(p, policy, t, log, t', log', rank, bank, f, row, vrr, evicted)
    ensures |t'.rcc| == |t.rcc|
  {
    hide ActivateStep;
  }

  /// With all tables empty and no activates since, every row is covered.
  lemma {:induction false} EmptyRows(p: Params, banksPerRank: nat, t: Tables, log: seq<Log>)
    requires p.Valid() && t == Cleared(t) && |t.gct| == |t.rct| == |t.own| == |log| == |t.rcc| * banksPerRank
    requires forall r :: 0 <= r < |t.rcc| ==> |t.rcc[r]| == Pow2(p.indexBits)
    requires forall f, row :: 0 <= f < |log| ==> Acts(log[f], row) == 0
    ensures RowsOk(p, banksPerRank, t, log)
  {
    hide Params.Index, Params.Rows, Pow2, Params.Group, Params.Tag, Params.Foreign, Acts, Population, Unguarded;
    forall rank, bank, row | 0 <= rank < |t.rcc| && 0 <= bank < banksPerRank && 0 <= row < p.Rows()
      ensures RowAt(p, banksPerRank, t, log, rank, bank, row)
    {
      DigitRange(rank, |t.rcc|, bank, banksPerRank);
      var f, s := rank * banksPerRank + bank, p.Index(row);
      assert BankIn(t, f) == EMPTY_BANK && t.rcc[rank][s] == map[];
      EmptyRow(p, banksPerRank, log[f], bank, row);
    }
  }

  lemma {:induction false} EmptyRow(p: Params, banksPerRank: nat, log: Log, bank: nat, row: nat)
    requires p.Valid() && row < p.Rows() && Acts(log, row) == 0
    ensures RowOk(p, banksPerRank, EMPTY_BANK, map[], log, bank, row)
  {
    hide Params.Index, Params.Rows, Pow2, Params.Group, Params.Tag, Params.Foreign, Acts;
  }

  // ---------- the plugin ----------

  class Hydra {
    const params: Params
    const policy: Policy
    const layout: Layout
    const geometry: Geometry
    const ranks: nat
    const banksPerRank: nat
    const resetPeriod: nat

    var clk: int
    var gct: seq<map<nat, GroupEntry>>
    var rct: seq<map<nat, int>>
    var own: seq<map<nat, int>>
    var rcc: seq<seq<Line>>

    ghost var log: seq<Log>   // per bank

    ghost function Now(): Tables
      reads this
    {
      Tables(gct, rct, own, rcc)
    }

    /// Banks sit in bank groups, directly below the ranks.
    ghost predicate Shape() {
      && geometry.Valid() && geometry.bankLevel == geometry.rankLevel + 2
      && ranks == geometry.count[geometry.rankLevel]
      && banksPerRank == geometry.count[geometry.rankLevel + 1] * geometry.count[geometry.bankLevel]
      && params.Valid() && layout.Usable() && resetPeriod > 0
    }

    ghost predicate Sizes()
      reads this
    {
      && Shape() && |gct| == |rct| == |own| == |log| == ranks * banksPerRank && |rcc| == ranks
      && (forall r :: 0 <= r < ranks ==> |rcc[r]| == Pow2(params.indexBits))
      && (forall r, s :: 0 <= r < ranks && 0 <= s < |rcc[r]| ==> |rcc[r][s]| <= WAYS)
    }

    ghost predicate BanksCovered()
      reads this
      requires |gct| == |rct| == |own| == |log|
    {
      forall f :: 0 <= f < |log| ==> Covers(params, Bank(gct[f], rct[f], own[f]), log[f])
    }

    /// The counters of every row cover it, if it is guarded; with a group size that fits all counters cover the
    /// true counts up to the slack, and the cache is coherent.
    ghost predicate Valid()
      reads this
    {
      Sizes() && RowsOk(params, banksPerRank, Now(), log) &&
      (params.Fits() ==> BanksCovered() && CacheOk(params, banksPerRank, gct, rct, rcc))
    }

    constructor (params: Params, policy: Policy, layout: Layout, geometry: Geometry, resetPeriod: nat)
      requires params.Valid() && layout.Usable() && geometry.Valid() && geometry.bankLevel == geometry.rankLevel + 2 &&
               resetPeriod > 0
      ensures Valid() && this.params == params && this.policy == policy && this.layout == layout &&
              this.geometry == geometry
      ensures this.resetPeriod == resetPeriod && clk == -1 && Now() == Cleared(Now())
      ensures forall f :: 0 <= f < |log| ==> log[f] == []
    {
      var count, r := geometry.count, geometry.rankLevel;
      var perRank := count[r + 1] * count[r + 2];
      var flatBanks := count[r] * perRank;
      this.params, this.policy, this.layout, this.geometry := params, policy, layout, geometry;
      this.resetPeriod := resetPeriod;
      this.ranks, this.banksPerRank, this.clk := count[r], perRank, -1;
      this.gct, this.rct, this.own := seq(flatBanks, _ => map[]), seq(flatBanks, _ => map[]),
                                      seq(flatBanks, _ => map[]);
      this.rcc := seq(count[r], _ => seq(Pow2(params.indexBits), _ => map[]));
      this.log := seq(flatBanks, _ => []);
      new;
      EmptyCovers(params, []);
      EmptyRows(params, banksPerRank, Now(), log);
    }

    /// The loop that gives the rows of a group their starting value.
    method InitializeGroup(table: map<nat, int>, g: nat) returns (t: map<nat, int>)
      ensures IsInitialized(params, table, t, g)
    {
      t := table;
      var start := g * params.groupSize;
      for i := 0 to params.groupSize
        invariant forall row :: row in t <==> row in table || start <= row < start + i
        invariant forall row :: row in t ==> t[row] == if start <= row < start + i then params.group else table[row]
      {
        t := t[start + i := params.group];
      }
    }

    /// The entry that makes room: any one, or one with the least count.  Which of them is up to the drawn
    /// number and the order of the hash map; `drawn` names the one they lead to.
    method TagToEvict(line: Line, drawn: nat) returns (tag: nat)
      requires |line| == WAYS
      ensures MayGo(policy, line, tag)
      ensures tag in line && (policy == MinCount ==> forall t :: t in line ==> line[tag] <= line[t])
      ensures MayGo(policy, line, drawn) ==> tag == drawn
    {
      assert (forall t :: t !in line) ==> line.Keys == {};
      if drawn in line {
        tag := drawn;
      } else {
        tag :| tag in line;
      }
      if policy == MinCount {
        var rest := line.Keys;
        while exists t :: t in rest
          invariant tag in line && rest <= line.Keys
          invariant MayGo(policy, line, drawn) ==> tag == drawn
          invariant forall t :: t in line && t !in rest ==> line[tag] <= line[t]
          decreases rest
        {
          var t :| t in rest;
          if line[t] < line[tag] {
            tag := t;
          }
          rest := rest - {t};
        }
      }
    }

    /// An activate of one of the rows that store row counters.
    method OwnRow(counts: map<nat, int>, row: nat) returns (o: map<nat, int>, vrr: bool)
      ensures vrr == (At(counts, row) + 1 >= params.tracking)
      ensures o == if vrr then counts - {row} else counts[row := At(counts, row) + 1]
    {
      o := counts;
      if row !in o {
        o := o[row := 0];
      }
      o := o[row := o[row] + 1];
      vrr := o[row] >= params.tracking;
      if vrr {
        o := o - {row};
      }
    }

    /// An activate in a group whose shared counter is still below its threshold.
    method CountGroup(entries: map<nat, GroupEntry>, g: nat) returns (t: map<nat, GroupEntry>)
      ensures t == entries[g := GroupEntry(EntryOf(entries, g).count + 1, EntryOf(entries, g).initialized)]
    {
      t := entries;
      if g !in t {
        t := t[g := GroupEntry(0, false)];
      }
      t := t[g := t[g].(count := t[g].count + 1)];
    }

    /// Before an entry goes into a set: if the set is full, one of its entries goes.
    method MakeRoom(line: Line, drawn: nat) returns (kept: Line, victim: Option<nat>)
      requires |line| <= WAYS
      ensures |kept| < WAYS && kept == Without(line, victim)
      ensures victim.Some? <==> |line| == WAYS
      ensures victim.Some? ==>
                MayGo(policy, line, victim.value) && (MayGo(policy, line, drawn) ==> victim.value == drawn)
    {
      kept, victim := line, None;
      if |line| == WAYS {
        var tag := TagToEvict(line, drawn);
        kept, victim := line - {tag}, Some(tag);
        assert kept.Keys == line.Keys - {tag};
      }
    }

    /// One count through a set of the cache: on a miss a full set gives up an entry and the counter is
    /// read from the table; the count then goes to both, and both start again at the threshold.
    method CountCached(set0: Line, counters0: map<nat, int>, tag: nat, row: nat, drawn: nat)
      returns (line: Line, counters: map<nat, int>, vrr: bool, victim: Option<nat>)
      requires |set0| <= WAYS
      ensures |line| <= WAYS && CountsOn(params, counters0, set0, victim, tag, row, counters, line, vrr)
      ensures victim.Some? <==> tag !in set0 && |set0| == WAYS
      ensures victim.Some? ==>
                MayGo(policy, set0, victim.value) && (MayGo(policy, set0, drawn) ==> victim.value == drawn)
    {
      hide MayGo, Without, CountsOn;
      line, counters, victim := set0, counters0, None;
      ghost var kept := line;
      if tag !in line {
        line, victim := MakeRoom(line, drawn);
        kept := line;
        counters := counters[row := At(counters, row) + 1];
        line := line[tag := counters[row]];
      } else {
        KeepsAll(line);
        line := line[tag := line[tag] + 1];
        counters := counters[row := At(counters, row) + 1];
      }
      ghost var count := line[tag];
      vrr := line[tag] >= params.tracking;
      if vrr {
        line := line[tag := 0];
        counters := counters[row := 0];
      }
      Overwrite(kept, tag, count, 0);
      Overwrite(counters0, row, At(counters0, row) + 1, 0);
      CountsOnBy(counters0, set0, kept, victim, tag, row, count, counters, line, vrr);
    }

    static lemma {:induction false} KeepsAll(line: Line)
      ensures Without(line, None) == line
    {
    }

    lemma {:induction false} CountsOnBy(counters0: map<nat, int>, set0: Line, kept: Line, victim: Option<nat>, tag: nat,
                                        row: nat, count: int, counters: map<nat, int>, line: Line, vrr: bool)
      requires kept == Without(set0, victim) && count == (if tag in set0 then set0[tag] else At(counters0, row)) + 1
      requires vrr == (count >= params.tracking) && line == kept[tag := if vrr then 0 else count]
      requires counters == counters0[row := if vrr then 0 else At(counters0, row) + 1]
      ensures CountsOn(params, counters0, set0, victim, tag, row, counters, line, vrr)
    {
      hide Without;
    }

    lemma {:induction false} Overwrite(m: map<nat, int>, k: nat, v: int, w: int)
      ensures |m[k := v]| == if k in m then |m| else |m| + 1
      ensures m[k := v][k := w] == m[k := w]
    {
      assert m[k := v].Keys == m.Keys + {k};
    }

    /// An activate in a group that has row counters: the first gives the group its starting values, and
    /// every one goes through the cache.  What the cache gives up is written back to its own bank and row.
    method CountRow(b: Bank, set0: Line, bank: nat, row: nat, drawn: nat)
      returns (b': Bank, line: Line, vrr: bool, evicted: Option<(nat, nat)>, sent: seq<Transfer>)
      requires params.Valid() && layout.Usable() && |set0| <= WAYS
      requires row >= params.rctRows && EntryOf(b.gct, params.Group(row)).count >= params.group
      ensures |line| <= WAYS && CountedStep(params, policy, b, set0, bank, row, b', line, vrr, evicted)
      ensures evicted.Some? && MayGo(policy, set0, drawn) ==> TagOf(params, evicted) == Some(drawn)
      ensures sent == Traffic(params, layout, b, set0, bank, row, evicted)
    {
      hide Params.Group, Params.Tag, Params.Index, Params.Rows, Params.EvictedRow, Params.EvictedBank, Pow2;
      hide IsInitialized, Prepared, CountsOn, IsVictim, EntryOf, StartWrites, WriteOf, ReadOf, Layout.Usable;
      var t, counters;
      t, counters, sent := PrepareGroup(b.gct, b.rct, bank, params.Group(row));
      ghost var prepared := counters;
      var victim;
      line, counters, vrr, victim := CountCached(set0, counters, params.Tag(bank, row), row, drawn);
      evicted := Decoded(params, victim, params.Index(row));
      if victim.Some? {
        DecodedIsVictim(params, policy, set0, row, victim);
        sent := sent + [WriteOf(layout, evicted.value.0, evicted.value.1)];
      }
      if params.Tag(bank, row) !in set0 {
        sent := sent + [ReadOf(layout, bank, row)];
      }
      assert TagOf(params, evicted) == victim;
      b' := Bank(t, counters, b.own);
    }

    /// The row counters of a group whose shared counter has reached its threshold.
    method PrepareGroup(entries: map<nat, GroupEntry>, table: map<nat, int>, bank: nat, g: nat)
      returns (t: map<nat, GroupEntry>, counters: map<nat, int>, sent: seq<Transfer>)
      requires layout.Usable()
      ensures sent == if EntryOf(entries, g).initialized then []
                      else StartWrites(layout, bank, g * params.groupSize, params.groupSize)
      ensures t == entries[g := GroupEntry(EntryOf(entries, g).count, true)]
      ensures Prepared(params, table, counters, g, EntryOf(entries, g).initialized)
    {
      hide StartWrites;
      t, counters, sent := entries, table, [];
      if g !in t {
        t := t[g := GroupEntry(0, false)];
      }
      if !t[g].initialized {
        t := t[g := t[g].(initialized := true)];
        counters := InitializeGroup(counters, g);
        sent := SendStartWrites(layout, bank, g * params.groupSize, params.groupSize);
      }
    }

    /// A request, if it is made, is not made too early; for a row that stores counters it is made exactly in time.
    ghost predicate Due(log: Log, row: nat, vrr: bool) {
      var acts := Acts(log, row) + 1;
      (vrr ==> acts + Max(0, params.group) >= params.tracking) &&
      (row < params.rctRows ==> (vrr <==> acts >= params.tracking))
    }

    lemma {:induction false} RowNow(rank: nat, bank: nat, row: nat)
      requires Valid() && rank < ranks && bank < banksPerRank && row < params.Rows()
      ensures RowAt(params, banksPerRank, Now(), log, rank, bank, row)
    {
      hide Params.Rows, CacheOk, Covers, AtHome, RowAt;
    }

    method Activated(rank: nat, bank: nat, row: nat, drawn: nat)
      returns (vrr: bool, evicted: Option<(nat, nat)>, sent: seq<Transfer>)
      requires Valid() && rank < ranks && bank < banksPerRank && row < params.Rows()
      modifies this`gct, this`rct, this`own, this`rcc, this`log
      ensures Valid()
      ensures Steps(params, policy, old(Now()), old(log), Now(), log, rank, bank, rank * banksPerRank + bank, row, vrr,
                    evicted)
      ensures evicted.Some? && MayGo(policy, old(rcc)[rank][params.Index(row)], drawn) ==>
                TagOf(params, evicted) == Some(drawn)
      ensures sent == Traffic(params, layout, BankIn(old(Now()), rank * banksPerRank + bank),
                              old(rcc)[rank][params.Index(row)],
                              bank, row, evicted)
      ensures params.Fits() ==> var f := rank * banksPerRank + bank;
                BankStep(params, BankIn(old(Now()), f), row, BankIn(Now(), f), vrr)
      ensures Due(old(log)[rank * banksPerRank + bank], row, vrr)
    {
      hide Params.Group, Params.Tag, Params.Index, Params.Rows, Pow2, CacheOk, CountedStep, Logged, Acts, RowAt;
      DigitRange(rank, ranks, bank, banksPerRank);
      RowNow(rank, bank, row);
      var f := rank * banksPerRank + bank;
      var b, set0 := Bank(gct[f], rct[f], own[f]), rcc[rank][params.Index(row)];
      var b', line := b, set0;
      evicted, sent := None, [];
      if row < params.rctRows {
        var o;
        o, vrr := OwnRow(b.own, row);
        b' := b.(own := o);
      } else if EntryOf(b.gct, params.Group(row)).count >= params.group {
        b', line, vrr, evicted, sent := CountRow(b, set0, bank, row, drawn);
      } else {
        var t := CountGroup(b.gct, params.Group(row));
        b', vrr := b.(gct := t), false;
      }
      Store(rank, bank, f, row, b', line, vrr, evicted);
      StepIsDue(params, policy, banksPerRank, old(Now()), old(log), Now(), log, rank, bank, row, vrr, evicted);
    }

    method Store(rank: nat, bank: nat, f: nat, row: nat, b: Bank, line: Line, vrr: bool,
                 ghost evicted: Option<(nat, nat)>)
      requires Valid() && rank < ranks && bank < banksPerRank && f == rank * banksPerRank + bank < |own| &&
               row < params.Rows()
      requires |line| <= WAYS && params.Index(row) < |rcc[rank]|
      requires ActivateStep(params, policy, Bank(gct[f], rct[f], own[f]), rcc[rank][params.Index(row)], bank, row, b,
                            line, vrr, evicted)
      modifies this`gct, this`rct, this`own, this`rcc, this`log
      ensures Valid()
      ensures Steps(params, policy, old(Now()), old(log), Now(), log, rank, bank, f, row, vrr, evicted)
      ensures params.Fits() ==> BankStep(params, BankIn(old(Now()), f), row, BankIn(Now(), f), vrr)
    {
      hide Params.Group, Params.Tag, Params.Index, Params.Rows, Pow2, CacheOk, Covers, Logged, BankStep, ActivateStep;
      hide RowsOk;
      var index := params.Index(row);
      gct, rct, own := gct[f := b.gct], rct[f := b.rct], own[f := b.own];
      rcc := rcc[rank := rcc[rank][index := line]];
      log := log[f := Logged(log[f], row, vrr)];
      assert Steps(params, policy, old(Now()), old(log), Now(), log, rank, bank, f, row, vrr, evicted);
      RowsKeep(params, policy, banksPerRank, old(Now()), old(log), Now(), log, rank, bank, f, row, vrr, evicted);
      if params.Fits() {
        ActivateRefines(params, policy, banksPerRank, old(Now()), old(log), Now(), log, rank, bank, f, row, vrr,
                        evicted);
      }
    }

    method ResetAll()
      requires Valid()
      modifies this`gct, this`rct, this`own, this`rcc, this`log
      ensures Valid() && Now() == Cleared(old(Now())) && log == Marked(old(log))
    {
      ClearBanks();
      ClearCache();
      EmptyRows(params, banksPerRank, Now(), log);
    }

    method ClearCache()
      requires Sizes()
      modifies this`rcc
      ensures Sizes() && CacheOk(params, banksPerRank, gct, rct, rcc) && rcc == Cleared(old(Now())).rcc
    {
      hide Pow2;
      for r := 0 to ranks
        invariant Sizes() && forall q :: 0 <= q < ranks ==> |rcc[q]| == |old(rcc)[q]|
        invariant forall q, s :: 0 <= q < r && 0 <= s < |rcc[q]| ==> rcc[q][s] == map[]
      {
        rcc := rcc[r := seq(|rcc[r]|, _ => map[])];
      }
      assert forall q :: 0 <= q < ranks ==> rcc[q] == Cleared(old(Now())).rcc[q];
    }

    method ClearBanks()
      requires Sizes()
      modifies this`gct, this`rct, this`own, this`log
      ensures Sizes() && BanksCovered()
      ensures Now() == Cleared(old(Now())).(rcc := rcc) && log == Marked(old(log))
      ensures forall f, row :: 0 <= f < |log| ==> Acts(log[f], row) == 0
    {
      hide Pow2, Covers;
      for f := 0 to |gct|
        invariant Sizes()
        invariant forall h :: 0 <= h < f ==>
          Bank(gct[h], rct[h], own[h]) == EMPTY_BANK && log[h] == old(log)[h] + [Reset]
        invariant |old(gct)| == |old(rct)| == |old(own)| == |old(log)| == |gct|
        invariant forall h :: f <= h < |gct| ==> log[h] == old(log)[h]
      {
        gct, rct, own := gct[f := map[]], rct[f := map[]], own[f := map[]];
        log := log[f := log[f] + [Reset]];
      }
      forall f | 0 <= f < |log| ensures Covers(params, Bank(gct[f], rct[f], own[f]), log[f]) {
        OneMore(old(log)[f], Reset);
        EmptyCovers(params, log[f]);
      }
    }

    /// Rank and bank within the rank, from the flat index.
    lemma {:induction false} SplitFlat(addr: seq<int>)
      requires Shape() && geometry.Names(addr)
      ensures addr[geometry.rankLevel] < ranks && geometry.NumBanks() == ranks * banksPerRank && banksPerRank > 0
      ensures var f := geometry.BankOf(addr);
              f == addr[geometry.rankLevel] * banksPerRank + f % banksPerRank
    {
      hide Flat, Banks;
      var r, count := geometry.rankLevel, geometry.count;
      RankAndRest(addr, count, r);
      DigitDivMod(addr[r], addr[r + 1] * count[r + 2] + addr[r + 2], banksPerRank);
    }

    /// One controller cycle: the periodic reset, then the activate that was served, if any.
    method Update(served: Served, drawn: nat) returns (vrr: bool, evicted: Option<(nat, nat)>, sent: seq<Transfer>)
      requires Valid()
      requires served.Activate? ==> geometry.Names(served.addr) && 0 <= served.addr[geometry.rowLevel] < params.Rows()
      modifies this
      ensures Valid() && clk == old(clk) + 1
      ensures var due := clk % resetPeriod == 0;
              var start := if due then Cleared(old(Now())) else old(Now());
              var log0 := if due then Marked(old(log)) else old(log);
              if served.Activate? then
                var f, row := geometry.BankOf(served.addr), served.addr[geometry.rowLevel];
                banksPerRank > 0 && Steps(params, policy, start, log0, Now(), log, served.addr[geometry.rankLevel],
                                          f % banksPerRank, f, row, vrr, evicted) &&
                sent == Traffic(params, layout, BankIn(start, f),
                                start.rcc[served.addr[geometry.rankLevel]][params.Index(row)],
                                f % banksPerRank, row, evicted) &&
                Due(log0[f], row, vrr)
              else Now() == start && log == log0 && !vrr && evicted == None && sent == []
    {
      hide Params.Rows, Pow2, CacheOk, Covers, BankStep, Acts, Flat, Banks, Steps, Cleared, Marked;
      clk := clk + 1;
      vrr, evicted, sent := false, None, [];
      if clk % resetPeriod == 0 {
        ResetAll();
      }
      if served.Activate? {
        var flat := FlatBankId(served.addr, geometry.count, geometry.rankLevel, geometry.bankLevel);
        SplitFlat(served.addr);
        vrr, evicted, sent := Activated(served.addr[geometry.rankLevel], flat % banksPerRank,
                                        served.addr[geometry.rowLevel], drawn);
      }
    }

    /// The guarantee, in every reachable state, for every guarded row and for the rows that store counters.
    lemma {:induction false} RowIsSafe(rank: nat, bank: nat, row: nat)
      requires Valid() && rank < ranks && bank < banksPerRank && row < params.Rows()
      requires row < params.rctRows || !Unguarded(params, banksPerRank, row)
      ensures rank * banksPerRank + bank < |log| && Acts(log[rank * banksPerRank + bank], row) < params.tracking
    {
      hide Params.Group, Params.Tag, Params.Index, Params.Rows, Params.Own, Params.Starter, Pow2, Acts, Crowded;
      hide CacheOk, Covers, AtHome;
      assert RowAt(params, banksPerRank, Now(), log, rank, bank, row);
    }
  }
}
