/** Randomized row-swap and the requests that were already queued: an address is mapped when its request is sent
    (src/memory_system/impl/generic_DRAM_system.cpp), and the copies of a swap overtake the queues in the
    controller's priority buffer.  */
module RrsQueue {
  import opened Options
  import opened Rit
  import opened Rrs

  /// A write to one column of a row.
  datatype Late<D> = Late(row: int, column: nat, value: D)

  ghost function WriteOne<D>(mem: Memory<D>, w: Late<D>): (after: Memory<D>)
    ensures after.Keys == mem.Keys && forall r :: r in mem ==> |after[r]| == |mem[r]|
  {
    if w.row in mem && w.column < |mem[w.row]| then mem[w.row := mem[w.row][w.column := w.value]] else mem
  }

  /// The writes, carried out in order on the rows they name.
  ghost function Carried<D>(mem: Memory<D>, queue: seq<Late<D>>): (after: Memory<D>)
    ensures after.Keys == mem.Keys && forall r :: r in mem ==> |after[r]| == |mem[r]|
  {
    if queue == [] then mem else WriteOne(Carried(mem, queue[..|queue| - 1]), queue[|queue| - 1])
  }

  /// The writes with their rows mapped by the table in force when they were sent.
  ghost function Mapped<D>(t: Table, queue: seq<Late<D>>): seq<Late<D>> {
    seq(|queue|, i requires 0 <= i < |queue| => queue[i].(row := Where(t, queue[i].row)))
  }

  /// The row whose contents a request ends up with that was mapped by one table and carried out under another.
  ghost function Landing(t: Table, t': Table, row: int): int {
    Where(t', Where(t, row))
  }

  ghost function Landed<D>(t: Table, t': Table, queue: seq<Late<D>>): seq<Late<D>> {
    Mapped(t', Mapped(t, queue))
  }

  lemma {:induction false} WhereFlips(t: Table, rows: int, a: int, b: int)
    requires IsPairing(t, rows)
    ensures Where(t, a) == b <==> a == Where(t, b)
    ensures 0 <= a < rows ==> 0 <= Where(t, a) < rows
  {
  }

  lemma {:induction false} SeenWrite<D>(t': Table, rows: int, mem: Memory<D>, w: Late<D>)
    requires IsPairing(t', rows) && forall r :: r in mem <==> 0 <= r < rows
    ensures Logical(t', WriteOne(mem, w), rows) == WriteOne(Logical(t', mem, rows), w.(row := Where(t', w.row)))
  {
    hide IsPairing, Where;
    var seen, expected := Logical(t', WriteOne(mem, w), rows),
                          WriteOne(Logical(t', mem, rows), w.(row := Where(t', w.row)));
    WhereFlips(t', rows, Where(t', w.row), w.row);
    forall r | r in mem ensures seen[r] == expected[r] {
      WhereFlips(t', rows, r, w.row);
      assert seen[r] == WriteOne(mem, w)[Where(t', r)];
    }
  }

  /// Writes to the rows of a bank are, for the processor, writes to the rows that are redirected there.
  lemma {:induction false} SeenCarried<D>(t': Table, rows: int, mem: Memory<D>, queue: seq<Late<D>>)
    requires IsPairing(t', rows) && forall r :: r in mem <==> 0 <= r < rows
    ensures Logical(t', Carried(mem, queue), rows) == Carried(Logical(t', mem, rows), Mapped(t', queue))
  {
    hide IsPairing, Where, Logical, WriteOne;
    if queue == [] {
    } else {
      var rest, w := queue[..|queue| - 1], queue[|queue| - 1];
      SeenCarried(t', rows, mem, rest);
      assert Mapped(t', queue)[..|queue| - 1] == Mapped(t', rest);
      SeenWrite(t', rows, Carried(mem, rest), w);
    }
  }

  // ---------- what a swap does to the queue ----------

  /// The rows whose contents a swap moves: those of a pair that makes room, the row, its partners and the random rows.
  ghost function MovedRows(u: Pair, done: Swap, row: int): set<int> {
    (if u.Some? then {u.value.0, u.value.1} else {}) +
    match done
    case First(dst) => {row, dst}
    case Again(prev, dst) => {row, prev, dst}
    case Both(prev, dst0, dst1) => {row, prev, dst0, dst1}
    case _ => {}
  }

  /// Exactly these rows are redirected to another place than before.
  lemma {:induction false} SwapMoves(t: Table, hot: set<int>, rows: int, row: int, capacity: nat, u: Pair, done: Swap,
                                     t': Table, r: int)
    requires IsPairing(t, rows) && SwapStep(t, hot, row, capacity, u, done, t') && Completed(done)
    ensures Where(t', r) != Where(t, r) <==> r in MovedRows(u, done, row)
  {
    assert u.Some? ==> u.value.0 in t && u.value.1 == t[u.value.0].dst;
  }

  /// A write lands in its own row exactly if the swap left that row where it was.
  lemma {:induction false} LandsAtHome(t: Table, t': Table, rows: int, r: int)
    requires IsPairing(t, rows) && IsPairing(t', rows)
    ensures Landing(t, t', r) == r <==> Where(t', r) == Where(t, r)
  {
    hide IsPairing, Where;
    WhereFlips(t', rows, Where(t, r), r);
  }

  /// What the processor sees once the late writes were carried out is what it wrote.
  ghost predicate SeesItsWrites<D>(t: Table, t': Table, rows: int, mem: Memory<D>, mem': Memory<D>, queue: seq<Late<D>>)
    requires IsPairing(t, rows) && IsPairing(t', rows)
    requires (forall r :: r in mem <==> 0 <= r < rows) && (forall r :: r in mem' <==> 0 <= r < rows)
  {
    Logical(t', Carried(mem', Mapped(t, queue)), rows) == Carried(Logical(t, mem, rows), queue)
  }

  /// Writes queued before a swap and carried out after its copies go to the rows they land in.
  lemma {:induction false} LateWrites<D>(t: Table, t': Table, rows: int, mem: Memory<D>, mem': Memory<D>,
                                         queue: seq<Late<D>>)
    requires IsPairing(t, rows) && IsPairing(t', rows)
    requires (forall r :: r in mem <==> 0 <= r < rows) && (forall r :: r in mem' <==> 0 <= r < rows)
    requires Logical(t', mem', rows) == Logical(t, mem, rows)
    ensures Logical(t', Carried(mem', Mapped(t, queue)), rows) == Carried(Logical(t, mem, rows), Landed(t, t', queue))
    ensures (forall w :: w in queue ==> Where(t', w.row) == Where(t, w.row)) ==>
              SeesItsWrites(t, t', rows, mem, mem', queue)
  {
    hide IsPairing, Where, Logical, Carried;
    SeenCarried(t', rows, mem', Mapped(t, queue));
    if forall w :: w in queue ==> Where(t', w.row) == Where(t, w.row) {
      forall i | 0 <= i < |queue| ensures Landed(t, t', queue)[i] == queue[i] {
        assert queue[i] in queue;
        LandsAtHome(t, t', rows, queue[i].row);
      }
      assert Landed(t, t', queue) == queue;
    }
  }

  // ---------- otherwise some contents are lost ----------

  ghost predicate Hits<D>(w: Late<D>, row: int, column: nat) {
    w.row == row && w.column == column
  }

  lemma {:induction false} OnlyWritesOf<D>(mem: Memory<D>, queue: seq<Late<D>>, row: int, column: nat, x: D)
    requires row in mem && column < |mem[row]| && mem[row][column] == x
    requires forall w :: w in queue && Hits(w, row, column) ==> w.value == x
    ensures Carried(mem, queue)[row][column] == x
  {
    if queue != [] {
      OnlyWritesOf(mem, queue[..|queue| - 1], row, column, x);
      assert queue[|queue| - 1] in queue;
    }
  }

  lemma {:induction false} LastWriteWins<D>(mem: Memory<D>, queue: seq<Late<D>>, row: int, column: nat, i: nat)
    requires row in mem && column < |mem[row]| && i < |queue| && Hits(queue[i], row, column)
    requires forall k :: i < k < |queue| ==> !Hits(queue[k], row, column)
    ensures Carried(mem, queue)[row][column] == queue[i].value
  {
    if i < |queue| - 1 {
      LastWriteWins(mem, queue[..|queue| - 1], row, column, i);
    }
  }

  lemma {:induction false} LastHit<D>(queue: seq<Late<D>>, row: int, column: nat, i: nat) returns (last: nat)
    requires i < |queue| && Hits(queue[i], row, column)
    ensures i <= last < |queue| && Hits(queue[last], row, column)
    ensures forall k :: last < k < |queue| ==> !Hits(queue[k], row, column)
  {
    last := |queue| - 1;
    while !Hits(queue[last], row, column)
      invariant i <= last < |queue| && forall k :: last < k < |queue| ==> !Hits(queue[k], row, column)
      decreases last
    {
      last := last - 1;
    }
  }

  /// The same writes with other values: y at one place and x at all others.
  ghost function Valued<D>(queue: seq<Late<D>>, place: nat, x: D, y: D): seq<Late<D>> {
    seq(|queue|, i requires 0 <= i < |queue| => queue[i].(value := if i == place then y else x))
  }

  ghost function Uniform<D>(rows: nat, n: nat, x: D): (mem: Memory<D>)
    ensures IsMemory(mem, rows, n) && forall r, c :: r in mem && 0 <= c < n ==> mem[r][c] == x
  {
    if rows == 0 then map[] else Uniform(rows - 1, n, x)[rows - 1 := seq(n, _ => x)]
  }

  lemma {:induction false} UniformSeen<D>(t: Table, rows: nat, n: nat, x: D)
    requires IsPairing(t, rows)
    ensures Logical(t, Uniform(rows, n, x), rows) == Uniform(rows, n, x)
  {
    hide Uniform;
    var mem := Uniform(rows, n, x);
    forall r | r in mem ensures Logical(t, mem, rows)[r] == mem[r] {
      WhereFlips(t, rows, r, r);
      assert mem[Where(t, r)] == mem[r];
    }
  }

  /// If some queued write goes to a row that the swap moves, then with some contents and values the processor
  /// does not see what was written: whatever the copies do right, that write lands in another row.
  lemma {:induction false} MovedWriteIsLost<D>(t: Table, t': Table, rows: nat, n: nat, queue: seq<Late<D>>, i: nat,
                                               x: D, y: D)
    returns (place: nat)
    requires IsPairing(t, rows) && IsPairing(t', rows) && x != y
    requires i < |queue| && 0 <= queue[i].row < rows && queue[i].column < n &&
             Where(t', queue[i].row) != Where(t, queue[i].row)
    ensures Logical(t, Uniform(rows, n, x), rows) == Logical(t', Uniform(rows, n, x), rows)
    ensures !SeesItsWrites(t, t', rows, Uniform(rows, n, x), Uniform(rows, n, x), Valued(queue, place, x, y))
  {
    hide IsPairing, Where, Logical, Carried, Uniform;
    var row, column, mem := queue[i].row, queue[i].column, Uniform(rows, n, x);
    place := LastHit(queue, row, column, i);
    var late := Valued(queue, place, x, y);
    UniformSeen(t, rows, n, x);
    UniformSeen(t', rows, n, x);
    LateWrites(t, t', rows, mem, mem, late);
    LandsAtHome(t, t', rows, row);
    LastWriteWins(mem, late, row, column, place);
    OnlyWritesOf(mem, Landed(t, t', late), row, column, x);
  }
}
