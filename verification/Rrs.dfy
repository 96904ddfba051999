/** Randomized row-swap (src/dram_controller/impl/plugin/rrs.cpp): rows that are activated too often are swapped with
    random ones, and the address mapper's table is told.  */
module Rrs {
  import opened ActivationLog
  import opened Bits
  import opened FlatBanks
  import opened Options
  import opened PluginEvents
  import opened Rit
  import opened SpilloverTable

  // ---------- the copies a swap is made of ----------

  /// A request for one cache line; the column address counts eighths of a line.
  datatype Copy = Read(row: int, column: nat) | Write(row: int, column: nat)

  type Memory<!D> = map<int, seq<D>>

  ghost function Reads(row: int, lo: nat, n: nat): seq<Copy>
    decreases n - lo
  {
    if lo >= n then [] else [Read(row, Shl(lo, 3))] + Reads(row, lo + 1, n)
  }

  ghost function Writes(row: int, lo: nat, n: nat): seq<Copy>
    decreases n - lo
  {
    if lo >= n then [] else [Write(row, Shl(lo, 3))] + Writes(row, lo + 1, n)
  }

  ghost function SwapRequests(src: int, dst: int, n: nat): seq<Copy> {
    Reads(src, 0, n) + Reads(dst, 0, n) + Writes(dst, 0, n) + Writes(src, 0, n)
  }

  /// What a list of requests does to a bank: reads fill a first-in-first-out buffer, writes empty it.
  ghost function Run<D>(requests: seq<Copy>, mem: Memory<D>, buffer: seq<D>): (Memory<D>, seq<D>)
    decreases |requests|
  {
    if requests == [] then (mem, buffer)
    else
      var col := requests[0].column / 8;
      var row := requests[0].row;
      if row !in mem || col >= |mem[row]| then Run(requests[1..], mem, buffer)
      else
        match requests[0]
        case Read(_, _) => Run(requests[1..], mem, buffer + [mem[row][col]])
        case Write(_, _) =>
          if buffer == [] then Run(requests[1..], mem, buffer)
          else Run(requests[1..], mem[row := mem[row][col := buffer[0]]], buffer[1..])
  }

  ghost predicate IsMemory<D>(mem: Memory<D>, rows: int, n: nat) {
    (forall r :: r in mem <==> 0 <= r < rows) && forall r :: r in mem ==> |mem[r]| == n
  }

  ghost function Swapped<D>(mem: Memory<D>, a: int, b: int): Memory<D>
    requires a in mem && b in mem
  {
    mem[a := mem[b]][b := mem[a]]
  }

  lemma {:induction false} RunRead<D>(row: int, column: nat, rest: seq<Copy>, mem: Memory<D>, buffer: seq<D>)
    requires row in mem && column < |mem[row]|
    ensures Run([Read(row, Shl(column, 3))] + rest, mem, buffer) == Run(rest, mem, buffer + [mem[row][column]])
  {
    assert ([Read(row, Shl(column, 3))] + rest)[1..] == rest;
    assert Pow2(3) == 8;
  }

  lemma {:induction false} RunReads<D>(row: int, lo: nat, n: nat, rest: seq<Copy>, mem: Memory<D>, buffer: seq<D>)
    requires row in mem && |mem[row]| == n && lo <= n
    ensures Run(Reads(row, lo, n) + rest, mem, buffer) == Run(rest, mem, buffer + mem[row][lo..])
    decreases n - lo
  {
    if lo == n {
      assert Reads(row, lo, n) + rest == rest && buffer + mem[row][lo..] == buffer;
    } else {
      var tail := Reads(row, lo + 1, n) + rest;
      assert Reads(row, lo, n) + rest == [Read(row, Shl(lo, 3))] + tail;
      RunRead(row, lo, tail, mem, buffer);
      RunReads(row, lo + 1, n, rest, mem, buffer + [mem[row][lo]]);
      assert buffer + [mem[row][lo]] + mem[row][lo + 1..] == buffer + mem[row][lo..];
    }
  }

  lemma {:induction false} RunWrite<D>(row: int, column: nat, rest: seq<Copy>, mem: Memory<D>, buffer: seq<D>)
    requires row in mem && column < |mem[row]| && buffer != []
    ensures Run([Write(row, Shl(column, 3))] + rest, mem, buffer) ==
            Run(rest, mem[row := mem[row][column := buffer[0]]], buffer[1..])
  {
    assert ([Write(row, Shl(column, 3))] + rest)[1..] == rest;
    assert Pow2(3) == 8;
  }

  lemma {:induction false} RunWrites<D>(row: int, lo: nat, n: nat, rest: seq<Copy>, mem: Memory<D>, buffer: seq<D>)
    requires row in mem && |mem[row]| == n && lo <= n <= lo + |buffer|
    ensures Run(Writes(row, lo, n) + rest, mem, buffer) ==
            Run(rest, mem[row := mem[row][..lo] + buffer[..n - lo]], buffer[n - lo..])
    decreases n - lo
  {
    if lo == n {
      assert Writes(row, lo, n) + rest == rest && buffer[n - lo..] == buffer;
      assert mem[row][..lo] + buffer[..n - lo] == mem[row];
      assert mem[row := mem[row]] == mem;
    } else {
      var tail := Writes(row, lo + 1, n) + rest;
      var mem1 := mem[row := mem[row][lo := buffer[0]]];
      var target := mem[row][..lo] + buffer[..n - lo];
      assert Writes(row, lo, n) + rest == [Write(row, Shl(lo, 3))] + tail;
      RunWrite(row, lo, tail, mem, buffer);
      RunWrites(row, lo + 1, n, rest, mem1, buffer[1..]);
      hide Run, Writes;
      assert mem1[row][..lo + 1] + buffer[1..][..n - lo - 1] == target;
      assert buffer[1..][n - lo - 1..] == buffer[n - lo..];
      assert mem1[row := target] == mem[row := target];
    }
  }

  lemma {:induction false} RunBothReads<D>(src: int, dst: int, n: nat, rest: seq<Copy>, mem: Memory<D>)
    requires src in mem && dst in mem && |mem[src]| == |mem[dst]| == n
    ensures Run(Reads(src, 0, n) + (Reads(dst, 0, n) + rest), mem, []) == Run(rest, mem, mem[src] + mem[dst])
  {
    hide Run, Reads;
    RunReads(src, 0, n, Reads(dst, 0, n) + rest, mem, []);
    assert [] + mem[src][0..] == mem[src];
    RunReads(dst, 0, n, rest, mem, mem[src]);
    assert mem[dst][0..] == mem[dst];
  }

  lemma {:induction false} RunWholeRow<D>(row: int, n: nat, rest: seq<Copy>, mem: Memory<D>, a: seq<D>, b: seq<D>)
    requires row in mem && |mem[row]| == n && |a| == n
    ensures Run(Writes(row, 0, n) + rest, mem, a + b) == Run(rest, mem[row := a], b)
  {
    hide Run, Writes;
    RunWrites(row, 0, n, rest, mem, a + b);
    assert (a + b)[..n] == a && (a + b)[n..] == b;
    assert mem[row][..0] + a == a;
  }

  /// Carried out in the order they are issued, a swap's copies exchange the two rows.
  lemma {:induction false} SwapRequestsSwap<D>(src: int, dst: int, n: nat, rest: seq<Copy>, mem: Memory<D>)
    requires src in mem && dst in mem && |mem[src]| == |mem[dst]| == n
    ensures Run(SwapRequests(src, dst, n) + rest, mem, []) == Run(rest, Swapped(mem, src, dst), [])
  {
    hide Run, Reads, Writes;
    var a, b := mem[src], mem[dst];
    var mem1 := mem[dst := a];
    RunBothReads(src, dst, n, Writes(dst, 0, n) + (Writes(src, 0, n) + rest), mem);
    RunWholeRow(dst, n, Writes(src, 0, n) + rest, mem, a, b);
    RunWholeRow(src, n, rest, mem1, b, []);
    assert b + [] == b;
    assert mem1[src := b] == Swapped(mem, src, dst);
    ConcatRight(Reads(src, 0, n), Reads(dst, 0, n), Writes(dst, 0, n), Writes(src, 0, n), rest);
  }

  lemma {:induction false} ConcatRight<T>(a: seq<T>, b: seq<T>, c: seq<T>, d: seq<T>, e: seq<T>)
    ensures a + b + c + d + e == a + (b + (c + (d + e)))
  {
  }

  // ---------- one swap decision ----------

  /// What was done about a row that reached a multiple of the threshold: swapped for the first time,
  /// swapped again in a later epoch, or both rows of its pair swapped again within the epoch.  The last
  /// three end the program, or never end.
  datatype Swap =
    | First(dst: int)
    | Again(prev: int, dst: int)
    | Both(prev: int, dst0: int, dst1: int)
    | NoUnlockedPair
    | TableOverflow
    | NoMoreSamples

  predicate Fresh(t: Table, hot: set<int>, row: int, d: int) {
    d !in hot && d !in t && d != row
  }

  type Pair = Option<(int, int)>

  function Evicted(t: Table, u: Pair): Table {
    if u.Some? then Remove(t, u.value.0, u.value.1) else t
  }

  ghost predicate MadeRoom(t: Table, hot: set<int>, capacity: nat, u: Pair) {
    if |t| >= capacity then u.Some? && Unswappable(t, hot, u.value.0) && u.value.1 == t[u.value.0].dst
    else u.None?
  }

  /// The new table, for each kind of swap.
  ghost predicate SwapStep(t: Table, hot: set<int>, row: int, capacity: nat, u: Pair, done: Swap, t': Table) {
    match done
    case First(dst) =>
      row !in t && MadeRoom(t, hot, capacity, u) && Fresh(Evicted(t, u), hot, row, dst) &&
      t' == Insert(Evicted(t, u), row, dst)
    case Again(prev, dst) =>
      row in t && !t[row].locked && prev == t[row].dst && u == None && Fresh(t, hot, row, dst) &&
      t' == Insert(Remove(t, row, prev), row, dst)
    case Both(prev, dst0, dst1) =>
      row in t && t[row].locked && prev == t[row].dst && MadeRoom(t, hot, capacity, u) &&
      Fresh(Evicted(t, u), hot, row, dst0) && Fresh(Evicted(t, u), hot, row, dst1) &&
      t' == Insert(Insert(Remove(Evicted(t, u), row, prev), row, dst1), prev, dst0)
    case NoUnlockedPair =>
      |t| >= capacity && (row in t ==> t[row].locked) && forall r :: r in t ==> !Unswappable(t, hot, r)
    case _ => true
  }

  ghost predicate RowsInRange(done: Swap, rows: int) {
    match done
    case First(dst) => 0 <= dst < rows
    case Again(_, dst) => 0 <= dst < rows
    case Both(_, dst0, dst1) => 0 <= dst0 < rows && 0 <= dst1 < rows
    case _ => true
  }

  predicate Completed(done: Swap) {
    done.First? || done.Again? || done.Both?
  }

  predicate TwiceTheSame(done: Swap) {
    done.Both? && done.dst0 == done.dst1
  }

  lemma {:induction false} EvictedKeeps(t: Table, hot: set<int>, rows: int, capacity: nat, u: Pair)
    requires IsPairing(t, rows) && |t| <= capacity && MadeRoom(t, hot, capacity, u)
    ensures IsPairing(Evicted(t, u), rows)
    ensures |Evicted(t, u)| == if |t| == capacity then capacity - 2 else |t|
  {
    if u.Some? {
      RemoveKeeps(t, rows, u.value.0);
    }
  }

  lemma {:induction false} FirstKeeps(t: Table, hot: set<int>, rows: int, row: int, capacity: nat, u: Pair, dst: int)
    requires IsPairing(t, rows) && |t| <= capacity && capacity % 2 == 0 && 0 <= row < rows && 0 <= dst < rows
    requires row !in t && MadeRoom(t, hot, capacity, u) && Fresh(Evicted(t, u), hot, row, dst)
    ensures var t' := Insert(Evicted(t, u), row, dst); IsPairing(t', rows) && |t'| <= capacity
  {
    hide IsPairing, MadeRoom, Evicted, Insert;
    PairingIsEven(t, rows);
    EvictedKeeps(t, hot, rows, capacity, u);
    EvictedShrinks(t, u, row);
    InsertKeeps(Evicted(t, u), rows, row, dst);
  }

  lemma {:induction false} BothKeeps(t: Table, hot: set<int>, rows: int, row: int, capacity: nat, u: Pair,
                                     prev: int, dst0: int, dst1: int)
    requires IsPairing(t, rows) && |t| <= capacity && capacity % 2 == 0 && 0 <= row < rows
    requires row in t && t[row].locked && prev == t[row].dst && MadeRoom(t, hot, capacity, u)
    requires Fresh(Evicted(t, u), hot, row, dst0) && Fresh(Evicted(t, u), hot, row, dst1)
    requires 0 <= dst0 < rows && 0 <= dst1 < rows
    ensures var t' := Insert(Insert(Remove(Evicted(t, u), row, prev), row, dst1), prev, dst0);
            (IsPairing(t', rows) <==> dst0 != dst1) && |t'| <= capacity
    ensures |Insert(Remove(Evicted(t, u), row, prev), row, dst1)| <= capacity
  {
    hide IsPairing, MadeRoom, Insert, Remove, Evicted, Fresh;
    PairingIsEven(t, rows);
    EvictedKeeps(t, hot, rows, capacity, u);
    PairSurvives(t, hot, rows, capacity, u, row);
    MovedKeeps(Evicted(t, u), hot, rows, row, prev, dst0, dst1);
  }

  /// A first swap fits the table unless one entry is free.
  lemma {:induction false} FirstFits(t: Table, hot: set<int>, rows: int, row: int, capacity: nat, u: Pair, dst: int)
    requires IsPairing(t, rows) && |t| <= capacity && 0 <= row < rows && 0 <= dst < rows
    requires row !in t && MadeRoom(t, hot, capacity, u) && Fresh(Evicted(t, u), hot, row, dst)
    ensures |Insert(Evicted(t, u), row, dst)| <= capacity || (capacity % 2 == 1 && |t| + 1 == capacity)
  {
    hide IsPairing, MadeRoom, Evicted, Insert;
    PairingIsEven(t, rows);
    EvictedKeeps(t, hot, rows, capacity, u);
    EvictedShrinks(t, u, row);
    InsertKeeps(Evicted(t, u), rows, row, dst);
  }

  lemma {:induction false} EvictedShrinks(t: Table, u: Pair, row: int)
    requires row !in t
    ensures row !in Evicted(t, u)
  {
  }

  /// So does a double swap.
  lemma {:induction false} BothFits(t: Table, hot: set<int>, rows: int, row: int, capacity: nat, u: Pair,
                                    prev: int, dst0: int, dst1: int)
    requires IsPairing(t, rows) && |t| <= capacity && 0 <= row < rows
    requires row in t && t[row].locked && prev == t[row].dst && MadeRoom(t, hot, capacity, u)
    requires Fresh(Evicted(t, u), hot, row, dst0) && Fresh(Evicted(t, u), hot, row, dst1)
    requires 0 <= dst0 < rows && 0 <= dst1 < rows
    ensures var one := Insert(Remove(Evicted(t, u), row, prev), row, dst1);
            |one| <= capacity && (|Insert(one, prev, dst0)| <= capacity || (capacity % 2 == 1 && |t| + 1 == capacity))
  {
    hide IsPairing, MadeRoom, Insert, Remove, Evicted, Fresh;
    PairingIsEven(t, rows);
    EvictedKeeps(t, hot, rows, capacity, u);
    PairSurvives(t, hot, rows, capacity, u, row);
    MovedKeeps(Evicted(t, u), hot, rows, row, prev, dst0, dst1);
  }

  lemma {:induction false} MovedKeeps(e: Table, hot: set<int>, rows: int, row: int, prev: int, dst0: int, dst1: int)
    requires IsPairing(e, rows) && row in e && e[row].dst == prev
    requires Fresh(e, hot, row, dst0) && Fresh(e, hot, row, dst1) && 0 <= dst0 < rows && 0 <= dst1 < rows
    ensures var one := Insert(Remove(e, row, prev), row, dst1);
            var t' := Insert(one, prev, dst0);
            (IsPairing(t', rows) <==> dst0 != dst1) && |one| == |e| && |t'| <= |e| + 2 &&
            (dst0 != dst1 ==> |t'| == |e| + 2)
  {
    assert prev in e && prev != row && 0 <= prev < rows && 0 <= row < rows;
    RemoveKeeps(e, rows, row);
    hide IsPairing;
    var bare := Remove(e, row, prev);
    InsertKeeps(bare, rows, row, dst1);
    var one := Insert(bare, row, dst1);
    var t' := Insert(one, prev, dst0);
    if dst0 != dst1 {
      InsertKeeps(one, rows, prev, dst0);
    } else {
      PairwiseDistinct(t', rows, row, prev);
      assert t'.Keys == one.Keys + {prev};
    }
  }

  lemma {:induction false} PairwiseDistinct(t: Table, rows: int, a: int, b: int)
    requires a in t && b in t && a != b && t[a].dst == t[b].dst
    ensures !IsPairing(t, rows)
  {
    assert t[a].dst in t ==> t[t[a].dst].dst != a || t[t[a].dst].dst != b;
  }

  /// With an even capacity, every completed swap leaves a table of pairs that fits, except when the two
  /// random rows of a double swap coincide: then, and only then, the table is no permutation any more.
  lemma {:induction false} SwapKeepsPairing(t: Table, hot: set<int>, rows: int, row: int, capacity: nat, u: Pair,
                                            done: Swap, t': Table)
    requires IsPairing(t, rows) && |t| <= capacity && capacity % 2 == 0 && 0 <= row < rows
    requires SwapStep(t, hot, row, capacity, u, done, t') && Completed(done) && RowsInRange(done, rows)
    ensures |t'| <= capacity
    ensures IsPairing(t', rows) <==> !TwiceTheSame(done)
  {
    hide IsPairing, MadeRoom, Insert, Remove, Evicted;
    match done
    case First(dst) =>
      FirstKeeps(t, hot, rows, row, capacity, u, dst);
    case Again(prev, dst) =>
      AgainKeeps(t, hot, rows, row, prev, dst);
    case Both(prev, dst0, dst1) =>
      BothKeeps(t, hot, rows, row, capacity, u, prev, dst0, dst1);
  }

  /// A random row beyond the last one is the only other way to spoil the table.  The plugin draws from
  /// 0 to the number of rows inclusive, so that row can come up.
  lemma {:induction false} SwapKeepsPairingExactly(t: Table, hot: set<int>, rows: int, row: int, capacity: nat, u: Pair,
                                                   done: Swap, t': Table)
    requires IsPairing(t, rows) && |t| <= capacity && capacity % 2 == 0 && 0 <= row < rows
    requires SwapStep(t, hot, row, capacity, u, done, t') && Completed(done)
    ensures IsPairing(t', rows) <==> RowsInRange(done, rows) && !TwiceTheSame(done)
  {
    if RowsInRange(done, rows) {
      SwapKeepsPairing(t, hot, rows, row, capacity, u, done, t');
    } else {
      match done
      case First(dst) => assert dst in t';
      case Again(_, dst) => assert dst in t';
      case Both(_, dst0, dst1) => assert dst0 in t' && dst1 in t';
    }
  }

  /// A pair swapped twice in one epoch, both times with row 3: rows 1 and 2 now share a place.
  lemma {:induction false} CoincidenceAliases()
    ensures var t := Insert(map[], 1, 2);
            var t' := Insert(Insert(Remove(t, 1, 2), 1, 3), 2, 3);
            IsPairing(t, 4) && SwapStep(t, {1}, 1, 4, None, Both(2, 3, 3), t') && Where(t', 1) == Where(t', 2) == 3
  {
    InsertKeeps(map[], 4, 1, 2);
  }

  lemma {:induction false} AgainKeeps(t: Table, hot: set<int>, rows: int, row: int, prev: int, dst: int)
    requires IsPairing(t, rows) && 0 <= row < rows && 0 <= dst < rows
    requires row in t && prev == t[row].dst && Fresh(t, hot, row, dst)
    ensures var t' := Insert(Remove(t, row, prev), row, dst); IsPairing(t', rows) && |t'| == |t|
  {
    RemoveKeeps(t, rows, row);
    InsertKeeps(Remove(t, row, prev), rows, row, dst);
  }

  /// With an odd capacity the table is never full, so no pair is ever given up to make room: the table only
  /// grows, by a pair with every swap of a new row or of a whole pair, and the swap that finds one entry free
  /// ends the program.
  lemma {:induction false} OddCapacityOverflows(t: Table, hot: set<int>, rows: int, row: int, capacity: nat, u: Pair,
                                                done: Swap, t': Table)
    requires IsPairing(t, rows) && |t| <= capacity && capacity % 2 == 1 && 0 <= row < rows
    requires SwapStep(t, hot, row, capacity, u, done, t') && Completed(done) && RowsInRange(done, rows) &&
             !TwiceTheSame(done)
    ensures u == None && |t'| == |t| + (if done.Again? then 0 else 2)
    ensures |t'| > capacity <==> |t| + 1 == capacity && !done.Again?
  {
    PairingIsEven(t, rows);
    match done
    case First(dst) =>
      InsertKeeps(t, rows, row, dst);
    case Again(prev, dst) =>
      AgainKeeps(t, hot, rows, row, prev, dst);
    case Both(prev, dst0, dst1) =>
      MovedKeeps(t, hot, rows, row, prev, dst0, dst1);
  }

  // ---------- the contents of the rows ----------

  /// What the processor sees in each row: the contents of the row it is redirected to.
  ghost function Logical<D>(t: Table, mem: Memory<D>, rows: int): (seen: Memory<D>)
    requires IsPairing(t, rows) || Redirects(t, rows)
    requires forall r :: r in mem <==> 0 <= r < rows
    ensures seen.Keys == mem.Keys
  {
    map r | r in mem :: mem[Where(t, r)]
  }

  /// Every row is redirected to an existing one.
  ghost predicate Redirects(t: Table, rows: int) {
    forall r :: 0 <= r < rows ==> 0 <= Where(t, r) < rows
  }

  lemma {:induction false} SwapAndInsert<D>(t: Table, mem: Memory<D>, rows: int, a: int, b: int)
    requires IsPairing(t, rows) && a !in t && b !in t && a != b && 0 <= a < rows && 0 <= b < rows
    requires forall r :: r in mem <==> 0 <= r < rows
    ensures IsPairing(Insert(t, a, b), rows)
    ensures Logical(Insert(t, a, b), Swapped(mem, a, b), rows) == Logical(t, mem, rows)
  {
    InsertKeeps(t, rows, a, b);
  }

  lemma {:induction false} SwapAndRemove<D>(t: Table, mem: Memory<D>, rows: int, a: int, b: int)
    requires IsPairing(t, rows) && a in t && b == t[a].dst
    requires forall r :: r in mem <==> 0 <= r < rows
    ensures IsPairing(Remove(t, a, b), rows)
    ensures Logical(Remove(t, a, b), Swapped(mem, a, b), rows) == Logical(t, mem, rows)
  {
    RemoveKeeps(t, rows, a);
  }

  /// The copies issued for a swap.
  ghost function Requests(u: Pair, done: Swap, row: int, n: nat): seq<Copy> {
    (if u.Some? then SwapRequests(u.value.0, u.value.1, n) else []) +
    match done
    case First(dst) => SwapRequests(row, dst, n)
    case Again(prev, dst) => SwapRequests(row, prev, n) + SwapRequests(row, dst, n)
    case Both(prev, dst0, dst1) => SwapRequests(row, dst0, n) + SwapRequests(prev, dst1, n)
    case _ => []
  }

  lemma {:induction false} UnswapKeepsData<D>(t: Table, hot: set<int>, capacity: nat, u: Pair, mem: Memory<D>,
                                              rows: int, n: nat, rest: seq<Copy>) returns (mem': Memory<D>)
    requires IsPairing(t, rows) && |t| <= capacity && MadeRoom(t, hot, capacity, u) && IsMemory(mem, rows, n)
    ensures IsMemory(mem', rows, n) && IsPairing(Evicted(t, u), rows)
    ensures Run((if u.Some? then SwapRequests(u.value.0, u.value.1, n) else []) + rest, mem, []) == Run(rest, mem', [])
    ensures Logical(Evicted(t, u), mem', rows) == Logical(t, mem, rows)
  {
    hide Run, SwapRequests, Logical;
    EvictedKeeps(t, hot, rows, capacity, u);
    if u.Some? {
      var (a, b) := u.value;
      PartnersAgree(t, rows, a, b);
      assert 0 <= a < rows && 0 <= b < rows;
      hide IsPairing, MadeRoom, Remove;
      SwapRequestsSwap(a, b, n, rest, mem);
      mem' := Swapped(mem, a, b);
      SwapAndRemove(t, mem, rows, a, b);
    } else {
      mem' := mem;
      assert [] + rest == rest;
    }
  }

  /// The first swap of a row, with or without an unswap before it, does not change what the processor sees.
  lemma {:induction false} FirstSwapKeepsData<D>(t: Table, hot: set<int>, rows: int, row: int, capacity: nat, u: Pair,
                                                 dst: int, t': Table, mem: Memory<D>, n: nat)
    requires IsPairing(t, rows) && |t| <= capacity && 0 <= row < rows && 0 <= dst < rows && IsMemory(mem, rows, n)
    requires SwapStep(t, hot, row, capacity, u, First(dst), t')
    ensures var (mem', buffer) := Run(Requests(u, First(dst), row, n), mem, []);
            buffer == [] && IsMemory(mem', rows, n) && IsPairing(t', rows) &&
            Logical(t', mem', rows) == Logical(t, mem, rows)
  {
    hide Run, SwapRequests, MadeRoom, IsPairing, Logical, Insert;
    var rest := SwapRequests(row, dst, n);
    var mem1 := UnswapKeepsData(t, hot, capacity, u, mem, rows, n, rest);
    assert rest + [] == rest;
    SwapRequestsSwap(row, dst, n, [], mem1);
    RunNothing(Swapped(mem1, row, dst), []);
    SwapAndInsert(Evicted(t, u), mem1, rows, row, dst);
  }

  lemma {:induction false} RunNothing<D>(mem: Memory<D>, buffer: seq<D>)
    ensures Run([], mem, buffer) == (mem, buffer)
  {
  }

  /// Neither does swapping a row back and swapping it again in a later epoch.
  lemma {:induction false} SwapAgainKeepsData<D>(t: Table, hot: set<int>, rows: int, row: int, capacity: nat, u: Pair,
                                                 prev: int, dst: int, t': Table, mem: Memory<D>, n: nat)
    requires IsPairing(t, rows) && 0 <= row < rows && 0 <= dst < rows && IsMemory(mem, rows, n)
    requires SwapStep(t, hot, row, capacity, u, Again(prev, dst), t')
    ensures var (mem', buffer) := Run(Requests(u, Again(prev, dst), row, n), mem, []);
            buffer == [] && IsMemory(mem', rows, n) && IsPairing(t', rows) &&
            Logical(t', mem', rows) == Logical(t, mem, rows)
  {
    SwapAndRemove(t, mem, rows, row, prev);
    hide Run, SwapRequests, IsPairing, Logical, Insert;
    assert prev in t && prev in mem;
    TwoSwaps(row, prev, dst, rows, n, mem);
    SwapAndInsert(Remove(t, row, prev), Swapped(mem, row, prev), rows, row, dst);
  }

  /// The copies of two swaps of a row, carried out one after the other.
  lemma {:induction false} TwoSwaps<D>(row: int, prev: int, dst: int, rows: int, n: nat, mem: Memory<D>)
    requires IsMemory(mem, rows, n) && row in mem && prev in mem && dst in mem
    ensures Run([] + (SwapRequests(row, prev, n) + SwapRequests(row, dst, n)), mem, []) ==
            (Swapped(Swapped(mem, row, prev), row, dst), [])
  {
    hide Run, SwapRequests;
    var first, second := SwapRequests(row, prev, n), SwapRequests(row, dst, n);
    var mem1 := Swapped(mem, row, prev);
    SwapRequestsSwap(row, prev, n, second, mem);
    SwapRequestsSwap(row, dst, n, [], mem1);
    RunNothing(Swapped(mem1, row, dst), []);
    assert second + [] == second && [] + (first + second) == first + second;
  }

  /// What the processor sees after both rows of a pair were swapped again within an epoch: with two different
  /// random rows those have exchanged their contents; with the same one twice, the partner shows the row's
  /// contents, the random row the partner's, and its own contents are lost.
  ghost function AfterBoth<D>(before: Memory<D>, row: int, prev: int, dst0: int, dst1: int): (after: Memory<D>)
    requires {row, prev, dst0, dst1} <= before.Keys
    ensures after.Keys == before.Keys
  {
    if dst0 != dst1 then before[dst0 := before[dst1]][dst1 := before[dst0]]
    else before[prev := before[row]][dst0 := before[prev]]
  }

  ghost predicate TradesPlaces<D>(before: Memory<D>, after: Memory<D>, row: int, prev: int, dst0: int, dst1: int) {
    {row, prev, dst0, dst1} <= before.Keys && after == AfterBoth(before, row, prev, dst0, dst1) &&
    (after == before <==>
       if dst0 != dst1 then before[dst0] == before[dst1]
       else before[prev] == before[row] && before[dst0] == before[prev])
  }

  /// So the data survives a double swap exactly if the contents that trade places are equal.
  lemma {:induction false} DoubleSwapData<D>(t: Table, hot: set<int>, rows: int, row: int, capacity: nat, u: Pair,
                                             prev: int, dst0: int, dst1: int, t': Table, mem: Memory<D>, n: nat)
    requires IsPairing(t, rows) && |t| <= capacity && 0 <= row < rows && IsMemory(mem, rows, n)
    requires SwapStep(t, hot, row, capacity, u, Both(prev, dst0, dst1), t')
    requires 0 <= dst0 < rows && 0 <= dst1 < rows
    ensures Run(Requests(u, Both(prev, dst0, dst1), row, n), mem, []).1 == [] && Redirects(t', rows)
    ensures IsMemory(Run(Requests(u, Both(prev, dst0, dst1), row, n), mem, []).0, rows, n) && 0 <= prev < rows
    ensures var before := Logical(t, mem, rows);
            var after := Logical(t', Run(Requests(u, Both(prev, dst0, dst1), row, n), mem, []).0, rows);
            TradesPlaces(before, after, row, prev, dst0, dst1)
  {
    hide Run, SwapRequests, MadeRoom, IsPairing, Logical, Insert, Remove, Evicted, AfterBoth, Redirects;
    PairSurvives(t, hot, rows, capacity, u, row);
    var first, second := SwapRequests(row, dst0, n), SwapRequests(prev, dst1, n);
    var mem1 := UnswapKeepsData(t, hot, capacity, u, mem, rows, n, first + second);
    SwapRequestsSwap(row, dst0, n, second, mem1);
    var mem2 := Swapped(mem1, row, dst0);
    SwapRequestsSwap(prev, dst1, n, [], mem2);
    RunNothing(Swapped(mem2, prev, dst1), []);
    assert second + [] == second;
    DoubleSwapLogical(Evicted(t, u), hot, rows, row, prev, dst0, dst1, t', mem1);
    BothTrade(Logical(t, mem, rows), row, prev, dst0, dst1);
  }

  lemma {:induction false} BothTrade<D>(before: Memory<D>, row: int, prev: int, dst0: int, dst1: int)
    requires {row, prev, dst0, dst1} <= before.Keys && prev != row && dst0 != prev
    ensures TradesPlaces(before, AfterBoth(before, row, prev, dst0, dst1), row, prev, dst0, dst1)
  {
    var after := AfterBoth(before, row, prev, dst0, dst1);
    assert dst0 != dst1 ==> after[dst0] == before[dst1] && after[dst1] == before[dst0];
    assert dst0 == dst1 ==> after[prev] == before[row] && after[dst0] == before[prev];
  }

  lemma {:induction false} PairSurvives(t: Table, hot: set<int>, rows: int, capacity: nat, u: Pair, row: int)
    requires IsPairing(t, rows) && MadeRoom(t, hot, capacity, u) && row in t && t[row].locked
    ensures row in Evicted(t, u) && Evicted(t, u)[row].dst == t[row].dst
    ensures 0 <= t[row].dst < rows && t[row].dst != row
  {
  }

  /// Where the four rows of a double swap are redirected to, before and after; nothing else moves.
  ghost predicate BothMoved(e: Table, t': Table, rows: int, row: int, prev: int, dst0: int, dst1: int) {
    && Redirects(t', rows) && Redirects(e, rows) && row != prev && prev != dst0 && prev != dst1 && row != dst0 &&
       row != dst1
    && Where(t', row) == dst1 && Where(t', prev) == dst0 && Where(t', dst0) == prev
    && Where(t', dst1) == (if dst0 == dst1 then prev else row)
    && (forall r :: r !in {row, prev, dst0, dst1} ==>
          Where(t', r) == Where(e, r) && Where(e, r) !in {row, prev, dst0, dst1})
    && Where(e, row) == prev && Where(e, prev) == row && Where(e, dst0) == dst0 && Where(e, dst1) == dst1
  }

  lemma {:induction false} BothRedirects(e: Table, hot: set<int>, rows: int, row: int, prev: int, dst0: int, dst1: int,
                                         t': Table)
    requires IsPairing(e, rows) && row in e && e[row].dst == prev && 0 <= dst0 < rows && 0 <= dst1 < rows
    requires Fresh(e, hot, row, dst0) && Fresh(e, hot, row, dst1)
    requires t' == Insert(Insert(Remove(e, row, prev), row, dst1), prev, dst0)
    ensures BothMoved(e, t', rows, row, prev, dst0, dst1) && 0 <= row < rows && 0 <= prev < rows
  {
    assert prev in e && e[prev].dst == row;
    forall r | r !in {row, prev, dst0, dst1} && r in e ensures e[r].dst !in {row, prev, dst0, dst1} {
      assert e[r].dst in e && e[e[r].dst].dst == r;
    }
  }

  /// What one row shows afterwards.
  lemma {:induction false} BothMovedAt<D>(e: Table, t': Table, rows: int, row: int, prev: int, dst0: int, dst1: int,
                                          mem: Memory<D>, r: int)
    requires BothMoved(e, t', rows, row, prev, dst0, dst1) && {row, prev, dst0, dst1, r} <= mem.Keys
    requires forall r :: r in mem <==> 0 <= r < rows
    ensures Logical(t', Swapped(Swapped(mem, row, dst0), prev, dst1), rows)[r] ==
            AfterBoth(Logical(e, mem, rows), row, prev, dst0, dst1)[r]
  {
    hide Where;
    var mem1 := Swapped(mem, row, dst0);
    var mem' := Swapped(mem1, prev, dst1);
    var w := Where(t', r);
    assert 0 <= w < rows && 0 <= Where(e, r) < rows;
    assert Logical(t', mem', rows)[r] == mem'[w];
    if r !in {row, prev, dst0, dst1} {
      assert w !in {row, prev, dst0, dst1} && mem'[w] == mem[w];
    }
  }

  lemma {:induction false} DoubleSwapLogical<D>(e: Table, hot: set<int>, rows: int, row: int,
                                                prev: int, dst0: int, dst1: int, t': Table, mem: Memory<D>)
    requires IsPairing(e, rows) && forall r :: r in mem <==> 0 <= r < rows
    requires row in e && e[row].dst == prev && 0 <= dst0 < rows && 0 <= dst1 < rows
    requires Fresh(e, hot, row, dst0) && Fresh(e, hot, row, dst1)
    requires t' == Insert(Insert(Remove(e, row, prev), row, dst1), prev, dst0)
    ensures Redirects(t', rows) && 0 <= row < rows && 0 <= prev < rows && row != prev && prev != dst0
    ensures Logical(t', Swapped(Swapped(mem, row, dst0), prev, dst1), rows) ==
            AfterBoth(Logical(e, mem, rows), row, prev, dst0, dst1)
  {
    hide IsPairing, Insert, Remove, Where, Fresh, AfterBoth, Logical;
    BothRedirects(e, hot, rows, row, prev, dst0, dst1, t');
    var before, mem' := Logical(e, mem, rows), Swapped(Swapped(mem, row, dst0), prev, dst1);
    assert mem'.Keys == mem.Keys;
    var seen, after := Logical(t', mem', rows), AfterBoth(before, row, prev, dst0, dst1);
    forall r | r in mem ensures seen[r] == after[r] {
      BothMovedAt(e, t', rows, row, prev, dst0, dst1, mem, r);
    }
  }

  // ---------- the hot-row tracker ----------

  /// One activate in the tracker of a bank; whether the row has a count afterwards.
  ghost predicate TrackStep(t: map<int, int>, spill: int, entries: nat, row: int, t': map<int, int>, spill': int,
                            counted: bool) {
    if row in t then counted && t' == t[row := t[row] + 1] && spill' == spill
    else if |t| < entries then counted && t' == t[row := 1] && spill' == spill
    else if exists victim :: Evictable(t, spill, victim) then
      counted && spill' == spill &&
      exists victim :: Evictable(t, spill, victim) && t' == (t - {victim})[row := spill + 1]
    else !counted && t' == t && spill' == spill + 1
  }

  /// A bank's tracker against what really happened since the epoch began.  Counts and spillover value add up to the
  /// bank's activates; they cover every row's activates and are ahead of none by more than the spillover value; and
  /// since a row's last swap was called for it has been activated no more often than the spillover value and its
  /// count beyond the last multiple of the threshold.
  ghost predicate HotOk(t: map<int, int>, spill: int, log: Log, entries: nat, threshold: int)
    requires threshold != 0
  {
    && |t| <= entries && 0 <= spill && (|t| < entries ==> spill == 0)
    && Sum(t) + spill == BankActs(log)
    && (forall row :: row in t ==> 1 <= t[row] && spill <= t[row] <= EpochActs(log, row) + spill)
    && (forall row :: Acts(log, row) <= EpochActs(log, row) <= if row in t then t[row] else spill)
    && (forall row :: row in t ==> Acts(log, row) <= spill + t[row] % threshold)
  }

  /// A swap is called for when the row's count is a multiple of the threshold.
  ghost predicate CallsSwap(t': map<int, int>, row: int, counted: bool, threshold: int)
    requires threshold != 0
  {
    counted && row in t' && t'[row] % threshold == 0
  }

  /// Division by a negative threshold leaves the same remainder.
  lemma {:induction false} SameRemainder(n: int, threshold: int)
    requires threshold != 0
    ensures n % threshold == n % Abs(threshold)
  {
    var q, r := n / threshold, n % threshold;
    assert n == threshold * q + r;
    if threshold < 0 {
      assert n == -q * -threshold + r;
      DigitDivMod(-q, r, -threshold);
    }
  }

  /// The next number either is a multiple or one further above the last one.
  lemma {:induction false} NextMultiple(n: int, threshold: int)
    requires threshold != 0
    ensures (n + 1) % threshold == 0 || (n + 1) % threshold == n % threshold + 1
    ensures 0 <= n % threshold < Abs(threshold)
  {
    var m := Abs(threshold);
    SameRemainder(n, threshold);
    SameRemainder(n + 1, threshold);
    var q, r := n / m, n % m;
    assert n == q * m + r;
    if r + 1 < m {
      DigitDivMod(q, r + 1, m);
    } else {
      assert n + 1 == (q + 1) * m + 0;
      DigitDivMod(q + 1, 0, m);
    }
  }

  lemma {:induction false} HitKeeps(t: map<int, int>, spill: int, log: Log, entries: nat, threshold: int, row: int)
    requires threshold != 0 && HotOk(t, spill, log, entries, threshold) && row in t
    ensures var t' := t[row := t[row] + 1];
            HotOk(t', spill, Logged(log, row, CallsSwap(t', row, true, threshold)), entries, threshold)
  {
    hide Logged, Acts, BankActs, Sum, EpochActs;
    var t' := t[row := t[row] + 1];
    var swaps := CallsSwap(t', row, true, threshold);
    LoggedActs(log, row, swaps);
    LoggedEpochActs(log, row, swaps);
    SumReplace(t, row, row, t[row] + 1);
    assert (t - {row})[row := t[row] + 1] == t';
    assert t'.Keys == t.Keys;
    NextMultiple(t[row], threshold);
  }

  lemma {:induction false} InsertKeepsHot(t: map<int, int>, spill: int, log: Log, entries: nat, threshold: int,
                                          row: int)
    requires threshold != 0 && HotOk(t, spill, log, entries, threshold) && row !in t && |t| < entries
    ensures var t' := t[row := 1];
            HotOk(t', spill, Logged(log, row, CallsSwap(t', row, true, threshold)), entries, threshold)
  {
    hide Logged, Acts, BankActs, Sum, EpochActs;
    var swaps := CallsSwap(t[row := 1], row, true, threshold);
    LoggedActs(log, row, swaps);
    LoggedEpochActs(log, row, swaps);
    SumInsert(t, row, 1);
    NextMultiple(0, threshold);
  }

  lemma {:induction false} EvictKeepsHot(t: map<int, int>, spill: int, log: Log, entries: nat, threshold: int, row: int,
                                         victim: int)
    requires threshold != 0 && HotOk(t, spill, log, entries, threshold) && row !in t && |t| >= entries
    requires Evictable(t, spill, victim)
    ensures var t' := (t - {victim})[row := spill + 1];
            HotOk(t', spill, Logged(log, row, CallsSwap(t', row, true, threshold)), entries, threshold)
  {
    hide Logged, Acts, BankActs, Sum, EpochActs;
    var t' := (t - {victim})[row := spill + 1];
    var swaps := CallsSwap(t', row, true, threshold);
    LoggedActs(log, row, swaps);
    LoggedEpochActs(log, row, swaps);
    SumReplace(t, victim, row, spill + 1);
    NextMultiple(spill, threshold);
  }

  lemma {:induction false} SpillKeepsHot(t: map<int, int>, spill: int, log: Log, entries: nat, threshold: int, row: int)
    requires threshold != 0 && HotOk(t, spill, log, entries, threshold) && row !in t && |t| >= entries
    requires forall victim :: !Evictable(t, spill, victim)
    ensures HotOk(t, spill + 1, Logged(log, row, false), entries, threshold)
  {
    hide Logged, Acts, BankActs, Sum, EpochActs;
    LoggedActs(log, row, false);
    LoggedEpochActs(log, row, false);
    forall r | r in t ensures t[r] > spill {
      assert !Evictable(t, spill, r);
    }
  }

  /// Every activate keeps the tracker of its bank against the log, whichever entry is evicted.
  lemma {:induction false} TrackKeeps(t: map<int, int>, spill: int, log: Log, entries: nat, threshold: int, row: int,
                                      t': map<int, int>, spill': int, counted: bool)
    requires threshold != 0 && HotOk(t, spill, log, entries, threshold)
    requires TrackStep(t, spill, entries, row, t', spill', counted)
    ensures HotOk(t', spill', Logged(log, row, CallsSwap(t', row, counted, threshold)), entries, threshold)
  {
    hide HotOk, Logged;
    if row in t {
      HitKeeps(t, spill, log, entries, threshold, row);
    } else if |t| < entries {
      InsertKeepsHot(t, spill, log, entries, threshold, row);
    } else if exists victim :: Evictable(t, spill, victim) {
      var victim :| Evictable(t, spill, victim) && t' == (t - {victim})[row := spill + 1];
      EvictKeepsHot(t, spill, log, entries, threshold, row, victim);
    } else {
      SpillKeepsHot(t, spill, log, entries, threshold, row);
    }
  }

  lemma {:induction false} SpilledIfNotCounted(t: map<int, int>, spill: int, log: Log, entries: nat, threshold: int,
                                               row: int, t': map<int, int>, spill': int, counted: bool)
    requires threshold != 0 && HotOk(t, spill, log, entries, threshold)
    requires TrackStep(t, spill, entries, row, t', spill', counted)
    ensures spill' == 0 ==> counted
  {
    hide Sum, Acts, EpochActs, BankActs;
  }

  /// spillover * (entries + 1) never exceeds the bank's activates since the epoch began.
  lemma {:induction false} HotSpillBound(t: map<int, int>, spill: int, log: Log, entries: nat, threshold: int)
    requires threshold != 0 && HotOk(t, spill, log, entries, threshold)
    ensures spill * (entries + 1) <= BankActs(log)
  {
    hide Sum, BankActs, Acts, EpochActs;
    SumAtLeast(t, spill, |t|);
    if |t| == entries {
      MulStep(spill, entries + 1);
    } else {
      SumAtLeast(t, 0, |t|);
    }
  }

  /// What the tracker guarantees a row: it is activated no more than (|threshold| - 1) + spillover times without a
  /// swap being called for; its count is its true number of activates in the epoch, or ahead of it by no more than
  /// the spillover, and never ahead of the bank's; and a swap is called for with no fewer than
  /// |threshold| - spillover activates.
  lemma {:induction false} HotBound(t: map<int, int>, spill: int, log: Log, entries: nat, threshold: int, row: int)
    requires threshold != 0 && HotOk(t, spill, log, entries, threshold)
    ensures Acts(log, row) <= spill + Abs(threshold) - 1
    ensures row in t ==> EpochActs(log, row) <= t[row] <= EpochActs(log, row) + spill && t[row] <= BankActs(log)
    ensures CallsSwap(t, row, true, threshold) ==> EpochActs(log, row) >= Abs(threshold) - spill
  {
    hide Sum, BankActs, Acts, EpochActs;
    if row in t {
      NextMultiple(t[row], threshold);
      SumRemove(t, row);
      SumAtLeast(t - {row}, 0, |t - {row}|);
      SameRemainder(t[row], threshold);
      if t[row] % threshold == 0 { MultipleIsLarge(t[row], Abs(threshold)); }
    }
  }

  /// A swap is called for only once a row was activated |threshold| - spillover times in the epoch; as long as nothing
  /// was spilled, exactly at every |threshold|-th of its activates.
  lemma {:induction false} CalledInTime(t: map<int, int>, spill: int, log: Log, entries: nat, threshold: int, row: int,
                                        counted: bool)
    requires threshold != 0 && HotOk(t, spill, log, entries, threshold) && (counted ==> row in t)
    requires spill == 0 ==> counted
    ensures CallsSwap(t, row, counted, threshold) ==> EpochActs(log, row) >= Abs(threshold) - spill
    ensures spill == 0 ==> (CallsSwap(t, row, counted, threshold) <==> EpochActs(log, row) % threshold == 0)
  {
    HotBound(t, spill, log, entries, threshold, row);
  }

  lemma {:induction false} MultipleIsLarge(n: int, m: int)
    requires n > 0 && m > 0 && n % m == 0
    ensures n >= m
  {
    if n < m { DigitDivMod(0, n, m); }
  }

  /// The logs once the new epoch, if it is time for one, has begun.
  ghost function LogStart(log: seq<Log>, due: bool): (start: seq<Log>)
    ensures |start| == |log|
  {
    if due then seq(|log|, b requires 0 <= b < |log| => log[b] + [Reset]) else log
  }

  lemma {:induction false} NewEpochHot(log: Log, entries: nat, threshold: int)
    requires threshold != 0
    ensures HotOk(map[], 0, log + [Reset], entries, threshold)
    ensures log == [] ==> HotOk(map[], 0, log, entries, threshold)
  {
    OneMore(log, Reset);
    OneMoreOfEpoch(log, Reset);
    assert forall row :: EpochActs([], row) == 0;
    assert forall row :: Acts([], row) == 0;
  }

  /// The drawn row is the first of the samples that will do.
  ghost predicate DrawnFrom(samples: seq<int>, rest: seq<int>, t: Table, hot: set<int>, row: int, dst: int) {
    |rest| < |samples| && samples == samples[..|samples| - |rest| - 1] + [dst] + rest && Fresh(t, hot, row, dst) &&
    forall s :: s in samples[..|samples| - |rest| - 1] ==> !Fresh(t, hot, row, s)
  }

  ghost predicate SameBut(table: seq<Table>, table': seq<Table>, b: nat) {
    |table'| == |table| && forall c :: 0 <= c < |table| && c != b ==> table'[c] == table[c]
  }

  /// What a swap decision leaves behind.
  ghost predicate SwapDone(table: seq<Table>, b: nat, hot: set<int>, row: int, rows: int, capacity: nat, lines: nat,
                           u: Pair, done: Swap, requests: seq<Copy>, table': seq<Table>) {
    b < |table| == |table'| && SameBut(table, table', b) &&
    SwapStep(table[b], hot, row, capacity, u, done, table'[b]) && RowsInRange(done, rows) &&
    (Completed(done) ==> requests == Requests(u, done, row, lines)) &&
    (Completed(done) ==> |table'[b]| <= capacity) &&
    (done.TableOverflow? ==> capacity % 2 == 1 && |table[b]| + 1 == capacity)
  }

  lemma {:induction false} SameButTwice(t1: seq<Table>, t2: seq<Table>, t3: seq<Table>, b: nat)
    requires SameBut(t1, t2, b) && SameBut(t2, t3, b)
    ensures SameBut(t1, t3, b)
  {
  }

  lemma {:induction false} StoppedDone(table: seq<Table>, b: nat, hot: set<int>, row: int, rows: int, capacity: nat,
                                       lines: nat, u: Pair, done: Swap, requests: seq<Copy>, table': seq<Table>)
    requires b < |table| == |table'| && SameBut(table, table', b)
    requires done.NoMoreSamples? ||
             (done == NoUnlockedPair && SwapStep(table[b], hot, row, capacity, u, done, table'[b]))
    ensures SwapDone(table, b, hot, row, rows, capacity, lines, u, done, requests, table')
  {
  }

  lemma {:induction false} BothDone(table: seq<Table>, b: nat, hot: set<int>, row: int, rows: int, capacity: nat,
                                    lines: nat, u: Pair, prev: int, dst0: int, dst1: int, ok: bool, table': seq<Table>)
    requires b < |table| == |table'| && SameBut(table, table', b)
    requires row in table[b] && table[b][row].locked && prev == table[b][row].dst &&
             MadeRoom(table[b], hot, capacity, u)
    requires Fresh(Evicted(table[b], u), hot, row, dst0) && Fresh(Evicted(table[b], u), hot, row, dst1)
    requires ok ==> table'[b] == Insert(Insert(Remove(Evicted(table[b], u), row, prev), row, dst1), prev, dst0)
    requires if ok then |table'[b]| <= capacity else capacity % 2 == 1 && |table[b]| + 1 == capacity
    requires 0 <= dst0 < rows && 0 <= dst1 < rows
    ensures SwapDone(table, b, hot, row, rows, capacity, lines, u, if ok then Both(prev, dst0, dst1) else TableOverflow,
                     Requests(u, Both(prev, dst0, dst1), row, lines), table')
  {
  }

  /// Tracker, spillover counters and tables once the new epoch, if it is time for one, has begun.
  ghost function EpochStart(hot: seq<map<int, int>>, spill: seq<int>, table: seq<Table>, due: bool)
    : (start: (seq<map<int, int>>, seq<int>, seq<Table>))
    ensures |start.0| == |hot| && |start.1| == |spill| && |start.2| == |table|
  {
    if due then
      (seq(|hot|, _ => map[]), seq(|spill|, _ => 0), seq(|table|, b requires 0 <= b < |table| => Unlocked(table[b])))
    else (hot, spill, table)
  }

  /// One bank's tracker takes a step; a swap is called for when the row's count is a multiple of the threshold.
  ghost predicate Tracked(hot: seq<map<int, int>>, spill: seq<int>, b: nat, row: int, entries: nat, threshold: int,
                          hot': seq<map<int, int>>, spill': seq<int>, swaps: bool)
    requires threshold != 0
  {
    b < |hot| && b < |spill| && b < |hot'| && b < |spill'| &&
    hot' == hot[b := hot'[b]] && spill' == spill[b := spill'[b]] &&
    exists counted :: TrackStep(hot[b], spill[b], entries, row, hot'[b], spill'[b], counted) &&
      (swaps <==> CallsSwap(hot'[b], row, counted, threshold))
  }

  // ---------- the plugin ----------

  class RandomizedRowSwap {
    const rit: RowIndirectionTable
    const geometry: Geometry
    const numBanks: nat
    const entries: nat
    const threshold: int
    const resetPeriod: nat
    const lines: nat

    var clk: nat
    var hot: seq<map<int, int>>
    var spill: seq<int>

    ghost var log: seq<Log>   // per bank; a request in it is a swap called for

    /// `rows` bounds the rows that the table may mention.
    ghost predicate Valid(rows: int)
      reads this, rit
    {
      && geometry.Valid() && numBanks == geometry.NumBanks() && resetPeriod > 0 && threshold != 0
      && |rit.table| == numBanks && rit.Valid(rows) && TrackerOk()
    }

    /// Every bank's tracker agrees with what happened.
    ghost predicate TrackerOk()
      reads this
    {
      && threshold != 0 && |hot| == |spill| == |log| == numBanks
      && forall b :: 0 <= b < numBanks ==> HotOk(hot[b], spill[b], log[b], entries, threshold)
    }

    constructor (rit: RowIndirectionTable, geometry: Geometry, numBanks: nat, entries: nat, threshold: int,
                 resetPeriod: nat, lines: nat)
      requires geometry.Valid() && numBanks == geometry.NumBanks() && resetPeriod > 0 && threshold != 0
      requires rit.table == seq(numBanks, _ => map[])
      ensures forall rows :: Valid(rows)
      ensures this.rit == rit && this.geometry == geometry && clk == 0 && log == seq(numBanks, _ => [])
      ensures this.entries == entries && this.threshold == threshold && this.numBanks == numBanks
    {
      hide HotOk;
      this.rit, this.geometry, this.numBanks, this.entries := rit, geometry, numBanks, entries;
      this.threshold, this.resetPeriod, this.lines := threshold, resetPeriod, lines;
      this.clk := 0;
      this.hot := seq(numBanks, _ => map[]);
      this.spill := seq(numBanks, _ => 0);
      this.log := seq(numBanks, _ => []);
      new;
      NewEpochHot([], entries, threshold);
    }

    /// One activate in the bank's tracker, which keeps to the row's true activates.
    method Track(b: nat, row: int) returns (counted: bool)
      requires TrackerOk() && b < numBanks
      modifies this`hot, this`spill, this`log
      ensures TrackerOk()
      ensures hot == old(hot)[b := hot[b]] && spill == old(spill)[b := spill[b]]
      ensures TrackStep(old(hot)[b], old(spill)[b], entries, row, hot[b], spill[b], counted)
      ensures counted ==> row in hot[b]
      ensures spill[b] == 0 ==> counted
      ensures log == old(log)[b := Logged(old(log)[b], row, CallsSwap(hot[b], row, counted, threshold))]
    {
      hide HotOk, Logged;
      counted := true;
      if row in hot[b] {
        hot := hot[b := hot[b][row := hot[b][row] + 1]];
      } else if |hot[b]| < entries {
        hot := hot[b := hot[b][row := 1]];
      } else {
        var victim := FindSpilled(hot[b], spill[b]);
        if victim.Some? {
          assert Evictable(hot[b], spill[b], victim.value);
          hot := hot[b := (hot[b] - {victim.value})[row := hot[b][victim.value] + 1]];
        } else {
          spill := spill[b := spill[b] + 1];
          counted := false;
        }
      }
      SpilledIfNotCounted(old(hot)[b], old(spill)[b], log[b], entries, threshold, row, hot[b], spill[b], counted);
      TrackKeeps(old(hot)[b], old(spill)[b], log[b], entries, threshold, row, hot[b], spill[b], counted);
      log := log[b := Logged(log[b], row, CallsSwap(hot[b], row, counted, threshold))];
    }

    /// Draws random rows until one is neither hot, nor in the table, nor the row itself.
    method GetRandRow(b: nat, row: int, samples: seq<int>) returns (dst: Option<int>, rest: seq<int>)
      requires b < |hot| && b < |rit.table|
      ensures dst.Some? ==> dst.value in samples && Fresh(rit.table[b], hot[b].Keys, row, dst.value)
      ensures forall s :: s in rest ==> s in samples
      ensures dst.Some? ==> DrawnFrom(samples, rest, rit.table[b], hot[b].Keys, row, dst.value)
      ensures dst.None? ==> rest == [] && forall s :: s in samples ==> !Fresh(rit.table[b], hot[b].Keys, row, s)
    {
      for i := 0 to |samples|
        invariant forall j :: 0 <= j < i ==> !Fresh(rit.table[b], hot[b].Keys, row, samples[j])
      {
        var candidate := samples[i];
        if candidate !in hot[b] && candidate !in rit.table[b] && candidate != row {
          assert samples == samples[..i] + [candidate] + samples[i + 1..];
          return Some(candidate), samples[i + 1..];
        }
      }
      return None, [];
    }

    method GetTwoRandRows(b: nat, row: int, samples: seq<int>) returns (dsts: Pair, rest: seq<int>)
      requires b < |hot| && b < |rit.table|
      ensures dsts.None? ==> rest == []
      ensures dsts.Some? ==> dsts.value.0 in samples && Fresh(rit.table[b], hot[b].Keys, row, dsts.value.0)
      ensures dsts.Some? ==> dsts.value.1 in samples && Fresh(rit.table[b], hot[b].Keys, row, dsts.value.1)
    {
      var dst0, dst1;
      dsts := None;
      dst0, rest := GetRandRow(b, row, samples);
      if dst0.Some? {
        dst1, rest := GetRandRow(b, row, rest);
        if dst1.Some? {
          dsts := Some((dst0.value, dst1.value));
        }
      }
    }

    /// The copies that exchange two rows, one cache line at a time.
    method IssueSwap(src: int, dst: int) returns (requests: seq<Copy>)
      ensures requests == SwapRequests(src, dst, lines)
    {
      var a := IssueReads(src);
      var b := IssueReads(dst);
      var c := IssueWrites(dst);
      var d := IssueWrites(src);
      requests := a + b + c + d;
    }

    method IssueReads(row: int) returns (requests: seq<Copy>)
      ensures requests == Reads(row, 0, lines)
    {
      requests := [];
      for cl := 0 to lines
        invariant requests + Reads(row, cl, lines) == Reads(row, 0, lines)
      {
        requests := requests + [Read(row, Shl(cl, 3))];
      }
    }

    method IssueWrites(row: int) returns (requests: seq<Copy>)
      ensures requests == Writes(row, 0, lines)
    {
      requests := [];
      for cl := 0 to lines
        invariant requests + Writes(row, cl, lines) == Writes(row, 0, lines)
      {
        requests := requests + [Write(row, Shl(cl, 3))];
      }
    }

    /// Empties one pair of a full table.
    method MakeRoomFor(b: nat) returns (ok: bool, u: Pair, requests: seq<Copy>)
      requires b < |hot| && b < |rit.table|
      modifies rit
      ensures ok <==> |old(rit.table)[b]| < rit.capacity || exists r ::
        r in old(rit.table)[b] && Unswappable(old(rit.table)[b], hot[b].Keys, r)
      ensures ok ==> MadeRoom(old(rit.table)[b], hot[b].Keys, rit.capacity, u)
      ensures ok ==> requests == (if u.Some? then SwapRequests(u.value.0, u.value.1, lines) else [])
      ensures |rit.table| == |old(rit.table)| && SameBut(old(rit.table), rit.table, b)
      ensures rit.table[b] == if ok then Evicted(old(rit.table)[b], u) else old(rit.table)[b]
    {
      ok, u, requests := true, None, [];
      if |rit.table[b]| >= rit.capacity {
        u := rit.GetUnswapPair(b, hot[b].Keys);
        if u.None? {
          ok := false;
        } else {
          requests := IssueSwap(u.value.0, u.value.1);
          rit.RemoveEntry(b, u.value.0, u.value.1);
        }
      }
    }

    /// A row that is not swapped.
    method SwapFirst(b: nat, row: int, samples: seq<int>, ghost rows: int)
      returns (done: Swap, u: Pair, requests: seq<Copy>, rest: seq<int>)
      requires Valid(rows) && b < numBanks && 0 <= row < rows && row !in rit.table[b]
      requires forall s :: s in samples ==> 0 <= s < rows
      modifies rit
      ensures SwapDone(old(rit.table), b, hot[b].Keys, row, rows, rit.capacity, lines, u, done, requests, rit.table)
      ensures !done.Again? && !done.Both? && (done.NoMoreSamples? ==> rest == [])
    {
      hide IsPairing, SwapRequests, DrawnFrom, MadeRoom, Unswappable, Insert, Evicted, Fresh, HotOk;
      done, rest := NoMoreSamples, samples;
      var ok, copies, dst;
      ok, u, requests := MakeRoomFor(b);
      if !ok { return NoUnlockedPair, u, requests, rest; }
      dst, rest := GetRandRow(b, row, rest);
      if dst.None? { return NoMoreSamples, u, requests, rest; }
      copies := IssueSwap(row, dst.value);
      requests := requests + copies;
      ok := rit.InsertEntry(b, row, dst.value);
      done := if ok then First(dst.value) else TableOverflow;
      FirstFits(old(rit.table)[b], hot[b].Keys, rows, row, rit.capacity, u, dst.value);
    }

    /// A row that was swapped in an earlier epoch is swapped back and swapped again.
    method SwapAgain(b: nat, row: int, samples: seq<int>, ghost rows: int)
      returns (done: Swap, u: Pair, requests: seq<Copy>, rest: seq<int>)
      requires Valid(rows) && b < numBanks && 0 <= row < rows && row in rit.table[b] && !rit.table[b][row].locked
      requires forall s :: s in samples ==> 0 <= s < rows
      modifies rit
      ensures SwapDone(old(rit.table), b, hot[b].Keys, row, rows, rit.capacity, lines, u, done, requests, rit.table)
      ensures !done.First? && !done.Both? && (done.NoMoreSamples? ==> rest == [])
    {
      hide IsPairing, SwapRequests, DrawnFrom, MadeRoom, Unswappable, HotOk;
      u := None;
      var prev, ok, copies, dst;
      prev := rit.Check(b, row, rows);
      PartnersAgree(rit.table[b], rows, row, prev);
      dst, rest := GetRandRow(b, row, samples);
      if dst.None? { return NoMoreSamples, u, [], rest; }
      AgainKeeps(rit.table[b], hot[b].Keys, rows, row, prev, dst.value);
      requests := IssueSwap(row, prev);
      rit.RemoveEntry(b, row, prev);
      copies := IssueSwap(row, dst.value);
      requests := requests + copies;
      assert requests == [] + requests;
      ok := rit.InsertEntry(b, row, dst.value);
      done := if ok then Again(prev, dst.value) else TableOverflow;
    }

    /// Takes a pair out of the table and gives each of its rows a new partner.
    method MovePair(b: nat, row: int, prev: int, dst0: int, dst1: int) returns (ok: bool, requests: seq<Copy>)
      requires b < |rit.table|
      modifies rit
      ensures requests == SwapRequests(row, dst0, lines) + SwapRequests(prev, dst1, lines)
      ensures |rit.table| == |old(rit.table)| && SameBut(old(rit.table), rit.table, b)
      ensures var one := Insert(Remove(old(rit.table)[b], row, prev), row, dst1);
              var both := Insert(one, prev, dst0);
              (ok <==> |one| <= rit.capacity && |both| <= rit.capacity) && (ok ==> rit.table[b] == both)
    {
      rit.RemoveEntry(b, row, prev);
      var first := IssueSwap(row, dst0);
      var second := IssueSwap(prev, dst1);
      requests := first + second;
      ok := rit.InsertEntry(b, row, dst1);
      if ok {
        ok := rit.InsertEntry(b, prev, dst0);
      }
    }

    /// A row that was swapped in this epoch: its partner moves on as well.
    method SwapBoth(b: nat, row: int, samples: seq<int>, ghost rows: int)
      returns (done: Swap, u: Pair, requests: seq<Copy>, rest: seq<int>)
      requires Valid(rows) && b < numBanks && 0 <= row < rows && row in rit.table[b] && rit.table[b][row].locked
      requires forall s :: s in samples ==> 0 <= s < rows
      modifies rit
      ensures SwapDone(old(rit.table), b, hot[b].Keys, row, rows, rit.capacity, lines, u, done, requests, rit.table)
      ensures !done.First? && !done.Again? && (done.NoMoreSamples? ==> rest == [])
    {
      hide IsPairing, SwapRequests, DrawnFrom, MadeRoom, Unswappable, SwapDone, SameBut, Insert, Remove, Evicted, Fresh;
      hide HotOk;
      done, rest := NoMoreSamples, samples;
      var prev, ok, copies, dsts;
      prev := rit.Check(b, row, rows);
      PartnersAgree(rit.table[b], rows, row, prev);
      ok, u, requests := MakeRoomFor(b);
      if !ok {
        StoppedDone(old(rit.table), b, hot[b].Keys, row, rows, rit.capacity, lines, u, NoUnlockedPair, requests,
                    rit.table);
        return NoUnlockedPair, u, requests, rest;
      }
      dsts, rest := GetTwoRandRows(b, row, rest);
      StoppedDone(old(rit.table), b, hot[b].Keys, row, rows, rit.capacity, lines, u, NoMoreSamples, requests,
                  rit.table);
      if dsts.None? { return NoMoreSamples, u, requests, rest; }
      var (dst0, dst1) := dsts.value;
      BothFits(old(rit.table)[b], hot[b].Keys, rows, row, rit.capacity, u, prev, dst0, dst1);
      ghost var roomy := rit.table;
      ok, copies := MovePair(b, row, prev, dst0, dst1);
      SameButTwice(old(rit.table), roomy, rit.table, b);
      BothDone(old(rit.table), b, hot[b].Keys, row, rows, rit.capacity, lines, u, prev, dst0, dst1, ok, rit.table);
      requests := requests + copies;
      done := if ok then Both(prev, dst0, dst1) else TableOverflow;
    }

    /// What is done about a row whose count reached a multiple of the threshold.
    method SwapRow(b: nat, row: int, samples: seq<int>, ghost rows: int)
      returns (done: Swap, u: Pair, requests: seq<Copy>, rest: seq<int>)
      requires Valid(rows) && b < numBanks && 0 <= row < rows
      requires forall s :: s in samples ==> 0 <= s < rows
      modifies rit
      ensures SwapDone(old(rit.table), b, hot[b].Keys, row, rows, rit.capacity, lines, u, done, requests, rit.table)
      ensures |rit.table| == |old(rit.table)| && (done.NoMoreSamples? ==> rest == [])
      ensures rit.capacity % 2 == 0 && Completed(done) && !TwiceTheSame(done) ==> Valid(rows)
    {
      hide IsPairing, SwapRequests, MadeRoom, SwapStep, HotOk;
      var prev := rit.Check(b, row, rows);
      if prev == -1 {
        done, u, requests, rest := SwapFirst(b, row, samples, rows);
      } else if rit.table[b][row].locked {
        done, u, requests, rest := SwapBoth(b, row, samples, rows);
      } else {
        done, u, requests, rest := SwapAgain(b, row, samples, rows);
      }
      if rit.capacity % 2 == 0 && Completed(done) {
        SwapKeepsPairing(old(rit.table)[b], hot[b].Keys, rows, row, rit.capacity, u, done, rit.table[b]);
      }
    }

    /// A new epoch: nothing is hot, and every pair may be swapped again.
    method NewEpoch(ghost rows: int)
      requires Valid(rows)
      modifies this`hot, this`spill, this`log, rit
      ensures Valid(rows) && hot == seq(numBanks, _ => map[]) && spill == seq(numBanks, _ => 0)
      ensures log == LogStart(old(log), true)
      ensures forall b :: 0 <= b < numBanks ==> rit.table[b] == Unlocked(old(rit.table)[b])
    {
      hide HotOk;
      for b := 0 to numBanks
        invariant |hot| == |spill| == |rit.table| == |log| == numBanks
        invariant forall c :: 0 <= c < b ==> hot[c] == map[] && spill[c] == 0
        invariant forall c :: 0 <= c < numBanks ==> log[c] == if c < b then old(log)[c] + [Reset] else old(log)[c]
        invariant forall c :: 0 <= c < numBanks ==>
          rit.table[c] == if b == 0 then old(rit.table)[c] else Unlocked(old(rit.table)[c])
      {
        hot, spill := hot[b := map[]], spill[b := 0];
        log := log[b := log[b] + [Reset]];
        rit.Unlock();
        assert forall t :: Unlocked(Unlocked(t)) == Unlocked(t);
      }
      forall c | 0 <= c < numBanks ensures HotOk(hot[c], spill[c], log[c], entries, threshold) {
        NewEpochHot(old(log)[c], entries, threshold);
      }
      forall t | t in rit.table ensures IsPairing(t, rows) && |t| <= rit.capacity {
        var c :| 0 <= c < numBanks && rit.table[c] == t;
        UnlockKeeps(old(rit.table)[c], rows);
      }
    }

    /// One controller cycle: a new epoch if it is time, then the activate that was served, if any.
    method Update(served: Served, samples: seq<int>, ghost rows: int)
      returns (swap: Option<Swap>, u: Pair, requests: seq<Copy>, rest: seq<int>)
      requires Valid(rows) && forall s :: s in samples ==> 0 <= s < rows
      requires served.Activate? ==> geometry.Names(served.addr) && 0 <= served.addr[geometry.rowLevel] < rows
      modifies this, rit
      ensures clk == old(clk) + 1 && |rit.table| == numBanks && TrackerOk()
      ensures swap.None? ==> Valid(rows) && requests == [] && rest == samples
      ensures swap.Some? && rit.capacity % 2 == 0 && Completed(swap.value) && !TwiceTheSame(swap.value) ==> Valid(rows)
      ensures var start := EpochStart(old(hot), old(spill), old(rit.table), clk % resetPeriod == 0);
              if served.Activate? then
                var b, row := geometry.BankOf(served.addr), served.addr[geometry.rowLevel];
                Tracked(start.0, start.1, b, row, entries, threshold, hot, spill, swap.Some?) &&
                if swap.None? then rit.table == start.2
                else SwapDone(start.2, b, hot[b].Keys, row, rows, rit.capacity, lines, u, swap.value, requests,
                              rit.table)
              else hot == start.0 && spill == start.1 && rit.table == start.2 && swap == None
      ensures var start := LogStart(old(log), clk % resetPeriod == 0);
              log == if served.Activate? then
                       var b := geometry.BankOf(served.addr);
                       start[b := Logged(start[b], served.addr[geometry.rowLevel], swap.Some?)]
                     else start
      ensures served.Activate? ==>
                var b, row := geometry.BankOf(served.addr), served.addr[geometry.rowLevel];
                (swap.Some? ==> EpochActs(log[b], row) >= Abs(threshold) - spill[b]) &&
                (spill[b] == 0 ==> (swap.Some? <==> EpochActs(log[b], row) % threshold == 0))
    {
      hide IsPairing, SwapRequests, SwapStep, SwapDone, TrackStep, HotOk, Logged;
      clk := clk + 1;
      swap, u, requests, rest := None, None, [], samples;
      if clk % resetPeriod == 0 {
        NewEpoch(rows);
      }
      ghost var start := EpochStart(old(hot), old(spill), old(rit.table), clk % resetPeriod == 0);
      assert hot == start.0 && spill == start.1 && rit.table == start.2;
      assert log == LogStart(old(log), clk % resetPeriod == 0);
      if served.Activate? {
        var b := FlatBankId(served.addr, geometry.count, geometry.rankLevel, geometry.bankLevel);
        assert b == geometry.BankOf(served.addr);
        var row := served.addr[geometry.rowLevel];
        var counted := Track(b, row);
        if counted && hot[b][row] % threshold == 0 {
          var done;
          done, u, requests, rest := SwapRow(b, row, samples, rows);
          swap := Some(done);
        }
        CalledInTime(hot[b], spill[b], log[b], entries, threshold, row, counted);
      }
    }

    /// In every reachable state, with a activates of a bank since the epoch began, a row of it has been activated no
    /// more than |threshold| - 1 + a / (entries + 1) times with no swap called for, and as long as the tracker has
    /// room its counts are exact.
    lemma {:induction false} RowIsSwappedInTime(b: nat, row: int)
      requires TrackerOk() && b < numBanks
      ensures Acts(log[b], row) <= spill[b] + Abs(threshold) - 1 && spill[b] * (entries + 1) <= BankActs(log[b])
      ensures (Acts(log[b], row) - (Abs(threshold) - 1)) * (entries + 1) <= BankActs(log[b])
      ensures |hot[b]| < entries ==> EpochActs(log[b], row) == if row in hot[b] then hot[b][row] else 0
    {
      HotBound(hot[b], spill[b], log[b], entries, threshold, row);
      HotSpillBound(hot[b], spill[b], log[b], entries, threshold);
      MulLe(Acts(log[b], row) - (Abs(threshold) - 1), spill[b], entries + 1);
    }
  }
  // ---------- the tracker's guarantee is tight ----------

  /// Round n of a round robin over rows 0..entries, the last of which never gets into the tracker, after k activates.
  ghost predicate Round(t: map<int, int>, spill: int, log: Log, entries: nat, n: nat, k: nat) {
    && k <= entries && spill == n && |t| <= entries && (n > 0 ==> |t| == entries)
    && (forall row :: row in t <==> 0 <= row < if n > 0 then entries else k)
    && (forall row :: row in t ==> t[row] == if row < k then n + 1 else n)
    && Acts(log, entries) == n && BankActs(log) == n * (entries + 1) + k && Vrr(entries) !in log
  }

  /// The tracker's keys are the first k rows.
  lemma {:induction false} FirstRows(t: map<int, int>, k: nat)
    requires forall row :: row in t <==> 0 <= row < k
    ensures |t| == k
  {
    BelowSize(k);
    assert t.Keys == Below(k);
  }

  lemma {:induction false} RoundStep(t: map<int, int>, spill: int, log: Log, entries: nat, n: nat, k: nat,
                                     t': map<int, int>, spill': int, counted: bool, swaps: bool)
    requires Round(t, spill, log, entries, n, k) && k < entries
    requires TrackStep(t, spill, entries, k, t', spill', counted)
    ensures Round(t', spill', Logged(log, k, swaps), entries, n, k + 1)
  {
    hide BankActs, Acts;
    LoggedActs(log, k, swaps);
    if n == 0 {
      FirstRows(t, k);
      FirstRows(t', k + 1);
    } else {
      assert t'.Keys == t.Keys;
    }
  }

  /// The last activate of a round finds the tracker full, with every count above the spillover value.
  lemma {:induction false} RoundEnd(t: map<int, int>, spill: int, log: Log, entries: nat, n: nat, t': map<int, int>,
                                    spill': int, counted: bool)
    requires Round(t, spill, log, entries, n, entries)
    requires TrackStep(t, spill, entries, entries, t', spill', counted)
    ensures !counted && Round(t', spill', Logged(log, entries, false), entries, n + 1, 0)
  {
    hide BankActs, Acts;
    LoggedActs(log, entries, false);
    FirstRows(t, entries);
    MulStep(entries + 1, n + 1);
    forall victim ensures !Evictable(t, spill, victim) {
    }
  }

  /// After as many rounds as a multiple of the threshold, the row comes into the tracker just above that multiple.
  ghost predicate Skipped(t: map<int, int>, spill: int, log: Log, entries: nat, m: nat, k: nat) {
    && |t| == entries && spill == m && Acts(log, entries) == m + k && Vrr(entries) !in log
    && BankActs(log) == m * (entries + 1) + k
    && (if k == 0 then entries !in t && exists victim :: Evictable(t, spill, victim)
        else entries in t && t[entries] == m + k)
  }

  lemma {:induction false} SkippedStep(t: map<int, int>, spill: int, log: Log, entries: nat, c: nat, threshold: int,
                                       k: nat, t': map<int, int>, spill': int, counted: bool)
    requires threshold > 0 && k + 1 < threshold && Skipped(t, spill, log, entries, c * threshold, k)
    requires TrackStep(t, spill, entries, entries, t', spill', counted)
    ensures !CallsSwap(t', entries, counted, threshold)
    ensures Skipped(t', spill', Logged(log, entries, false), entries, c * threshold, k + 1)
  {
    hide BankActs, Acts;
    LoggedActs(log, entries, false);
    DigitDivMod(c, k + 1, threshold);
    if k == 0 {
      var victim :| Evictable(t, spill, victim) && t' == (t - {victim})[entries := spill + 1];
      assert t'.Keys == t.Keys - {victim} + {entries};
      assert |t'| == |t|;
    } else {
      assert t'.Keys == t.Keys;
    }
  }

  lemma {:induction false} Arrived(t: map<int, int>, spill: int, log: Log, entries: nat, m: nat)
    requires Round(t, spill, log, entries, m, 0) && entries >= 1 && m > 0
    ensures Skipped(t, spill, log, entries, m, 0)
  {
    hide BankActs, Acts;
    assert Evictable(t, spill, 0);
  }

  lemma {:induction false} NoRounds(entries: nat)
    ensures Round(map[], 0, [], entries, 0, 0)
  {
  }

  /// All rows of a round, the row that is left out last.
  method OneRound(r: RandomizedRowSwap, b: nat, n: nat)
    requires r.TrackerOk() && b < r.numBanks && Round(r.hot[b], r.spill[b], r.log[b], r.entries, n, 0)
    modifies r`hot, r`spill, r`log
    ensures r.TrackerOk() && Round(r.hot[b], r.spill[b], r.log[b], r.entries, n + 1, 0)
  {
    hide HotOk, Round, TrackStep, CallsSwap;
    for k := 0 to r.entries
      invariant r.TrackerOk() && Round(r.hot[b], r.spill[b], r.log[b], r.entries, n, k)
    {
      ghost var t, s, log := r.hot[b], r.spill[b], r.log[b];
      var counted := r.Track(b, k);
      RoundStep(t, s, log, r.entries, n, k, r.hot[b], r.spill[b], counted,
                CallsSwap(r.hot[b], k, counted, r.threshold));
    }
    ghost var t, s, log := r.hot[b], r.spill[b], r.log[b];
    var counted := r.Track(b, r.entries);
    RoundEnd(t, s, log, r.entries, n, r.hot[b], r.spill[b], counted);
    NotCounted(r.hot[b], r.entries, r.threshold);
  }

  lemma {:induction false} NotCounted(t: map<int, int>, row: int, threshold: int)
    requires threshold != 0
    ensures !CallsSwap(t, row, false, threshold)
  {
  }

  /// The tracker can count past a multiple of the threshold without seeing it: with c any positive number, a row is
  /// activated c * threshold + threshold - 1 times in one epoch and no swap is called for it, the most that the bank's
  /// activates allow.
  method WorstCase(r: RandomizedRowSwap, b: nat, c: nat)
    requires r.TrackerOk() && b < r.numBanks && r.threshold >= 1 && r.entries >= 1 && c >= 1
    requires r.log[b] == [] && r.hot[b] == map[] && r.spill[b] == 0
    modifies r`hot, r`spill, r`log
    ensures r.TrackerOk() && r.spill[b] == c * r.threshold
    ensures Acts(r.log[b], r.entries) == r.spill[b] + r.threshold - 1 && Vrr(r.entries) !in r.log[b]
    ensures BankActs(r.log[b]) == r.spill[b] * (r.entries + 1) + r.threshold - 1
  {
    hide HotOk, Skipped, Round, TrackStep;
    MulLe(1, c, r.threshold);
    var m := c * r.threshold;
    assert Round(r.hot[b], r.spill[b], r.log[b], r.entries, 0, 0) by { NoRounds(r.entries); }
    for n := 0 to m
      invariant r.TrackerOk() && Round(r.hot[b], r.spill[b], r.log[b], r.entries, n, 0)
    {
      OneRound(r, b, n);
    }
    Arrived(r.hot[b], r.spill[b], r.log[b], r.entries, m);
    for k := 0 to r.threshold - 1
      invariant r.TrackerOk() && Skipped(r.hot[b], r.spill[b], r.log[b], r.entries, m, k)
    {
      ghost var t, s, log := r.hot[b], r.spill[b], r.log[b];
      var counted := r.Track(b, r.entries);
      SkippedStep(t, s, log, r.entries, c, r.threshold, k, r.hot[b], r.spill[b], counted);
    }
    SkippedMeans(r.hot[b], r.spill[b], r.log[b], r.entries, m, r.threshold - 1);
  }

  lemma {:induction false} SkippedMeans(t: map<int, int>, spill: int, log: Log, entries: nat, m: nat, k: nat)
    requires Skipped(t, spill, log, entries, m, k)
    ensures Acts(log, entries) == m + k && Vrr(entries) !in log
    ensures spill == m && BankActs(log) == m * (entries + 1) + k
  {
  }
}
