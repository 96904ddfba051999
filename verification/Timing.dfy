/** The device tree of DRAM timing nodes (src/dram/node.h) and its constraint tables (src/dram/spec.h).

    A node keeps, for every command, one "ready clock" and a short history of issue clocks.  The
    specification keeps nothing but the trace of issued commands; `CheckReadyExact` says that the
    node's compressed answer is the answer the whole trace gives.  */
module Timing {
  import opened Bits

  // ---------- constraint tables ----------

  /// A constraint on a later command `cmd`, stored under the earlier (preceding) command.
  datatype TimingCons = TimingCons(cmd: nat, val: int, window: nat, sibling: bool)

  /// Indexed by level, then by preceding command.
  type ConsTable = seq<seq<seq<TimingCons>>>

  /// One row of a device's constraint list, before it is spread over the table.
  datatype Initializer = Initializer(level: nat, preceding: seq<nat>, following: seq<nat>,
                                     latency: int, window: nat, sibling: bool)

  /// A row of the list that names levels and commands of the device and looks back at least to the command itself.
  predicate GoodRow(ts: Initializer, levels: nat, cmds: nat) {
    ts.level < levels && ts.window >= 1 && Commands(ts.preceding, cmds) && Commands(ts.following, cmds)
  }

  predicate Commands(names: seq<nat>, cmds: nat) {
    forall c :: c in names ==> c < cmds
  }

  predicate GoodRows(rows: seq<Initializer>, levels: nat, cmds: nat) {
    forall ts :: ts in rows ==> GoodRow(ts, levels, cmds)
  }

  function EntryOf(ts: Initializer, f: nat): TimingCons {
    TimingCons(f, ts.latency, ts.window, ts.sibling)
  }

  /// Row `ts` of the list asks for entry `t` under (level, preceding).
  predicate Asks(ts: Initializer, level: nat, p: nat, t: TimingCons) {
    ts.level == level && p in ts.preceding && t.cmd in ts.following && t == EntryOf(ts, t.cmd)
  }

  predicate Rectangular(table: ConsTable, levels: nat, cmds: nat) {
    |table| >= levels && forall l :: 0 <= l < levels ==> |table[l]| == cmds
  }

  ghost predicate AskedBy(inits: seq<Initializer>, level: nat, p: nat, t: TimingCons) {
    exists i :: 0 <= i < |inits| && Asks(inits[i], level, p, t)
  }

  /// The table holds exactly the entries that the list of initializers asks for.
  ghost predicate Holds(table: ConsTable, inits: seq<Initializer>) {
    forall l, p, t :: 0 <= l < |table| && 0 <= p < |table[l]| ==>
      (t in table[l][p] <==> AskedBy(inits, l, p, t))
  }

  method PopulateTimingCons(levels: nat, cmds: nat, inits: seq<Initializer>) returns (table: ConsTable)
    requires forall ts :: ts in inits ==> ts.level < levels && forall p :: p in ts.preceding ==> p < cmds
    ensures |table| == levels && Rectangular(table, levels, cmds)
    ensures Holds(table, inits)
  {
    table := seq(levels, l => seq(cmds, p => []));
    for i := 0 to |inits|
      invariant |table| == levels && Rectangular(table, levels, cmds)
      invariant Holds(table, inits[..i])
    {
      var before := table;
      var ts := inits[i];
      for j := 0 to |ts.preceding|
        invariant |table| == levels && Rectangular(table, levels, cmds)
        invariant forall l, p, t :: 0 <= l < levels && 0 <= p < cmds ==>
          (t in table[l][p] <==>
            t in before[l][p] || Asks(ts.(preceding := ts.preceding[..j]), l, p, t))
      {
        var p' := ts.preceding[j];
        assert ts in inits && p' in ts.preceding;
        var row := table[ts.level];
        var cell := row[p'];
        for k := 0 to |ts.following|
          invariant forall t: TimingCons :: t in cell <==>
            t in row[p'] || (t.cmd in ts.following[..k] && t == EntryOf(ts, t.cmd))
        {
          cell := cell + [EntryOf(ts, ts.following[k])];
        }
        table := table[ts.level := row[p' := cell]];
      }
      forall l, p, t | 0 <= l < levels && 0 <= p < cmds
        ensures t in table[l][p] <==> AskedBy(inits[..i + 1], l, p, t)
      {
        AskedByOneMore(inits, i, l, p, t);
        assert ts.(preceding := ts.preceding[..|ts.preceding|]) == ts;
      }
    }
    assert inits[..|inits|] == inits;
  }

  lemma {:induction false} AskedByOneMore(inits: seq<Initializer>, i: nat, l: nat, p: nat, t: TimingCons)
    requires i < |inits|
    ensures AskedBy(inits[..i + 1], l, p, t) <==> AskedBy(inits[..i], l, p, t) || Asks(inits[i], l, p, t)
  {
    if AskedBy(inits[..i], l, p, t) {
      var k :| 0 <= k < i && Asks(inits[..i][k], l, p, t);
      assert inits[..i + 1][k] == inits[..i][k];
    }
    if Asks(inits[i], l, p, t) {
      assert inits[..i + 1][i] == inits[i];
    }
    if AskedBy(inits[..i + 1], l, p, t) {
      var k :| 0 <= k < i + 1 && Asks(inits[..i + 1][k], l, p, t);
      assert k < i ==> inits[..i][k] == inits[..i + 1][k];
    }
  }

  /// What a list asks for that is made of two.
  lemma {:induction false} AskedByEither(a: seq<Initializer>, b: seq<Initializer>, l: nat, p: nat, t: TimingCons)
    ensures AskedBy(a + b, l, p, t) <==> AskedBy(a, l, p, t) || AskedBy(b, l, p, t)
  {
    hide Asks;
    if AskedBy(a, l, p, t) {
      var i :| 0 <= i < |a| && Asks(a[i], l, p, t);
      assert Asks((a + b)[i], l, p, t);
    }
    if AskedBy(b, l, p, t) {
      var i :| 0 <= i < |b| && Asks(b[i], l, p, t);
      assert Asks((a + b)[|a| + i], l, p, t);
    }
  }

  // ---------- the trace and what it demands ----------

  /// What the device is told at construction: levels above `rowLevel` become nodes.
  datatype Spec = Spec(numCmds: nat, rowLevel: nat, count: seq<nat>, scopes: seq<nat>, init: ConsTable)

  ghost predicate WellFormedSpec(spec: Spec) {
    |spec.count| >= spec.rowLevel && |spec.scopes| == spec.numCmds &&
    Rectangular(spec.init, spec.rowLevel, spec.numCmds)
  }

  /// An issued command, with the constraint table in force at that moment
  /// (HBM3 rewrites the values of SPM entries between commands).
  datatype Event = Event(cmd: nat, addr: seq<int>, clk: nat, cons: ConsTable)

  function MaxWindow(entries: seq<TimingCons>): (w: nat)
    ensures forall t :: t in entries ==> t.window <= w
  {
    if entries == [] then 0 else Max(MaxWindow(entries[..|entries| - 1]), entries[|entries| - 1].window)
  }

  /// The table has the device's shape, every own-node entry looks back at least to the command
  /// itself, and no entry looks back further than the histories that were allocated.
  ghost predicate GoodTable(spec: Spec, cons: ConsTable)
    requires WellFormedSpec(spec)
  {
    Rectangular(cons, spec.rowLevel, spec.numCmds) &&
    forall l, p, t :: 0 <= l < spec.rowLevel && 0 <= p < spec.numCmds && t in cons[l][p] ==>
      t.cmd < spec.numCmds && (t.sibling || 1 <= t.window <= MaxWindow(spec.init[l][p]))
  }

  /// A table that holds a list of good rows is a good one.
  lemma {:induction false} TableIsGood(rows: seq<Initializer>, levels: nat, spec: Spec, table: ConsTable)
    requires |table| == levels && Rectangular(table, levels, spec.numCmds) && Holds(table, rows)
    requires GoodRows(rows, levels, spec.numCmds) && spec.rowLevel <= levels && spec.init == table &&
             WellFormedSpec(spec)
    ensures GoodTable(spec, table)
  {
    forall l, p, t | 0 <= l < spec.rowLevel && 0 <= p < spec.numCmds && t in table[l][p]
      ensures t.cmd < spec.numCmds && 1 <= t.window <= MaxWindow(table[l][p])
    {
      assert AskedBy(rows, l, p, t);
      var i :| 0 <= i < |rows| && Asks(rows[i], l, p, t);
      assert GoodRow(rows[i], levels, spec.numCmds);
    }
  }

  ghost predicate GoodEvent(spec: Spec, e: Event) {
    WellFormedSpec(spec) && e.cmd < spec.numCmds && |e.addr| > spec.rowLevel && GoodTable(spec, e.cons)
  }

  ghost predicate GoodTrace(spec: Spec, tr: seq<Event>) {
    forall j :: 0 <= j < |tr| ==> GoodEvent(spec, tr[j])
  }

  /// A node is named by the ids on the way down to it; -1 in an address matches every id.
  predicate Matches(path: seq<nat>, addr: seq<int>) {
    |path| <= |addr| && forall i :: 0 <= i < |path| ==> addr[i] == -1 || addr[i] == path[i]
  }

  /// The command goes to the node's parent but to another child of it.
  predicate GoesToSibling(path: seq<nat>, addr: seq<int>) {
    0 < |path| <= |addr| && Matches(path[..|path| - 1], addr) &&
    addr[|path| - 1] != -1 && addr[|path| - 1] != path[|path| - 1]
  }

  /// Issue clocks of the commands `cmd` that reached the node, oldest first.
  ghost function Hits(tr: seq<Event>, path: seq<nat>, cmd: nat): seq<nat> {
    if tr == [] then []
    else
      var e := tr[|tr| - 1];
      Hits(tr[..|tr| - 1], path, cmd) + (if e.cmd == cmd && Matches(path, e.addr) then [e.clk] else [])
  }

  /// Entry `t`, triggered by event j of the trace, lets `cmd` through at clock x.
  ghost predicate EntryAllows(t: TimingCons, tr: seq<Event>, j: nat, path: seq<nat>, cmd: nat, x: int)
    requires j < |tr|
  {
    var e := tr[j];
    t.cmd == cmd ==>
      if t.sibling then
        GoesToSibling(path, e.addr) ==> e.clk + t.val <= x
      else
        var h := Hits(tr[..j + 1], path, e.cmd);
        Matches(path, e.addr) && 1 <= t.window <= |h| ==> h[|h| - t.window] + t.val <= x
  }

  /// Every entry that event j triggers at this node lets `cmd` through at clock x.
  ghost predicate EventAllows(tr: seq<Event>, j: nat, path: seq<nat>, cmd: nat, x: int)
    requires j < |tr|
  {
    var e := tr[j];
    0 < |path| <= |e.cons| && e.cmd < |e.cons[|path| - 1]| ==>
      forall t :: t in e.cons[|path| - 1][e.cmd] ==> EntryAllows(t, tr, j, path, cmd, x)
  }

  /// The specification: every constraint, against every earlier command of the trace.
  ghost predicate Allowed(tr: seq<Event>, path: seq<nat>, cmd: nat, x: int) {
    forall j :: 0 <= j < |tr| ==> EventAllows(tr, j, path, cmd, x)
  }

  lemma {:induction false} EventAllowsStable(tr: seq<Event>, e: Event, j: nat, path: seq<nat>, cmd: nat, x: int)
    requires j < |tr|
    ensures EventAllows(tr + [e], j, path, cmd, x) <==> EventAllows(tr, j, path, cmd, x)
  {
    assert (tr + [e])[..j + 1] == tr[..j + 1];
    forall t: TimingCons
      ensures EntryAllows(t, tr + [e], j, path, cmd, x) <==> EntryAllows(t, tr, j, path, cmd, x)
    {
    }
  }

  lemma {:induction false} AllowedOneMore(tr: seq<Event>, e: Event, path: seq<nat>, cmd: nat, x: int)
    ensures Allowed(tr + [e], path, cmd, x) <==>
            Allowed(tr, path, cmd, x) && EventAllows(tr + [e], |tr|, path, cmd, x)
  {
    forall j | 0 <= j < |tr|
      ensures EventAllows(tr + [e], j, path, cmd, x) <==> EventAllows(tr, j, path, cmd, x)
    {
      EventAllowsStable(tr, e, j, path, cmd, x);
    }
  }

  lemma {:induction false} HitsOneMore(tr: seq<Event>, e: Event, path: seq<nat>, cmd: nat)
    ensures Hits(tr + [e], path, cmd) ==
            Hits(tr, path, cmd) + (if e.cmd == cmd && Matches(path, e.addr) then [e.clk] else [])
  {
    assert (tr + [e])[..|tr|] == tr;
  }

  /// The event itself is the newest hit of its own kind.
  lemma {:induction false} NewestHit(tr: seq<Event>, j: nat, path: seq<nat>)
    requires j < |tr| && Matches(path, tr[j].addr)
    ensures var h := Hits(tr[..j + 1], path, tr[j].cmd); |h| > 0 && h[|h| - 1] == tr[j].clk
  {
    assert tr[..j + 1] == tr[..j] + [tr[j]];
    HitsOneMore(tr[..j], tr[j], path, tr[j].cmd);
  }

  /// An entry without a window holds a command off for its value after any one earlier command.
  lemma {:induction false} AllowedAfter(tr: seq<Event>, j: nat, path: seq<nat>, t: TimingCons, x: int)
    requires Allowed(tr, path, t.cmd, x) && j < |tr| && Matches(path, tr[j].addr)
    requires 0 < |path| <= |tr[j].cons| && tr[j].cmd < |tr[j].cons[|path| - 1]|
    requires t in tr[j].cons[|path| - 1][tr[j].cmd] && !t.sibling && t.window == 1
    ensures tr[j].clk + t.val <= x
  {
    NewestHit(tr, j, path);
    assert EventAllows(tr, j, path, t.cmd, x);
    assert EntryAllows(t, tr, j, path, t.cmd, x);
  }

  lemma {:induction false} HitsOfOthers(tr: seq<Event>, e: Event, path: seq<nat>)
    ensures forall c: nat :: c != e.cmd ==> Hits(tr + [e], path, c) == Hits(tr, path, c)
  {
    forall c: nat | c != e.cmd ensures Hits(tr + [e], path, c) == Hits(tr, path, c) {
      HitsOneMore(tr, e, path, c);
    }
  }

  /// A history deque: the w newest hits, newest first, -1 where there is none yet.
  ghost function Newest(h: seq<nat>, w: nat): seq<int> {
    seq<int>(w, i requires 0 <= i => if i < |h| then h[|h| - 1 - i] as int else -1)
  }

  /// What the device demands of the addresses it is asked about: -1 or an existing child.
  predicate GoodAddress(spec: Spec, addr: seq<int>) {
    |addr| > spec.rowLevel && |spec.count| >= spec.rowLevel &&
    forall i :: 0 < i < spec.rowLevel && spec.count[i] > 0 ==> -1 <= addr[i] < spec.count[i]
  }

  /// Nodes of the tree below `root` that the query for `cmd` visits: down to the command's scope,
  /// along the address.
  ghost predicate Visited(spec: Spec, root: seq<nat>, cmd: nat, addr: seq<int>, p: seq<nat>)
    requires WellFormedSpec(spec) && cmd < spec.numCmds && GoodAddress(spec, addr)
  {
    root <= p && |p| <= spec.rowLevel && |p| <= spec.scopes[cmd] + 1 &&
    forall i :: |root| <= i < |p| ==> p[i] < spec.count[i] && (addr[i] == -1 || addr[i] == p[i])
  }

  /// Every constraint of every visited node lets the command through at clock x.
  ghost predicate EverywhereAllowed(spec: Spec, root: seq<nat>, tr: seq<Event>, cmd: nat, addr: seq<int>, x: int)
    requires WellFormedSpec(spec) && cmd < spec.numCmds && GoodAddress(spec, addr)
  {
    forall p :: Visited(spec, root, cmd, addr, p) ==> Allowed(tr, p, cmd, x)
  }

  ghost predicate ReadyExactlyFrom(spec: Spec, root: seq<nat>, tr: seq<Event>, cmd: nat, addr: seq<int>, t: nat)
    requires WellFormedSpec(spec) && cmd < spec.numCmds && GoodAddress(spec, addr)
  {
    forall x: nat :: EverywhereAllowed(spec, root, tr, cmd, addr, x) <==> t <= x
  }

  /// The first clock at which the trace allows the command.
  ghost function Earliest(spec: Spec, root: seq<nat>, tr: seq<Event>, cmd: nat, addr: seq<int>): (t: nat)
    requires WellFormedSpec(spec) && cmd < spec.numCmds && GoodAddress(spec, addr)
    requires exists t :: ReadyExactlyFrom(spec, root, tr, cmd, addr, t)
    ensures ReadyExactlyFrom(spec, root, tr, cmd, addr, t)
  {
    var t :| ReadyExactlyFrom(spec, root, tr, cmd, addr, t);
    t
  }

  // ---------- the node tree ----------

  class Node {
    const spec: Spec
    const level: nat
    const nodeId: nat
    const children: seq<Node>
    ghost const path: seq<nat>
    ghost const below: set<Node>
    ghost const Repr: set<Node>

    var readyClk: seq<int>       // next clock at which each command may be issued here
    var history: seq<seq<int>>   // per command, the newest issue clocks

    /// `kids` are well-formed trees for consecutive ids under `path`, with disjoint nodes `below`.
    static ghost predicate Family(kids: seq<Node>, below: set<Node>, spec: Spec, level: nat, path: seq<nat>)
      requires level < spec.rowLevel
      decreases spec.rowLevel - level, 0
    {
      && (forall i :: 0 <= i < |kids| ==>
            && kids[i].spec == spec && kids[i].level == level + 1 && kids[i].path == path + [i]
            && kids[i].Repr <= below && kids[i].Valid())
      && (forall n :: n in below ==>
            && n.spec == spec && path < n.path && |n.path| <= spec.rowLevel
            && n.path[|path|] < |kids| && n in kids[n.path[|path|]].Repr)
      && (forall i, n :: 0 <= i < |kids| && n in kids[i].Repr ==> path < n.path && n.path[|path|] == i)
    }

    /// The tree rooted here has the shape the specification asks for.
    ghost predicate Valid()
      decreases spec.rowLevel - level, 1
    {
      && WellFormedSpec(spec)
      && level < spec.rowLevel
      && |path| == level + 1 && path[level] == nodeId
      && this !in below && Repr == {this} + below
      && |children| == ChildCount(spec, level)
      && Family(children, below, spec, level, path)
    }

    lemma {:induction false} Child(i: nat)
      requires Valid() && i < |children|
      ensures children[i].Valid() && children[i].Repr <= below
      ensures children[i].spec == spec && children[i].level == level + 1 && children[i].path == path + [i]
      ensures forall n :: n in children[i].Repr ==> n in below && path < n.path && n.path[|path|] == i
    {
      assert Family(children, below, spec, level, path);
    }

    static function ChildCount(spec: Spec, level: nat): nat
      requires WellFormedSpec(spec) && level < spec.rowLevel
    {
      if level + 1 == spec.rowLevel then 0 else spec.count[level + 1]
    }

    /// The node's fields say about `tr` what they should: histories hold the newest hits, and a ready
    /// clock is at most x exactly when the whole trace allows the command at x.
    ghost predicate Reflects(tr: seq<Event>)
      reads this
    {
      && WellFormedSpec(spec) && 0 < |path| <= spec.rowLevel
      && |readyClk| == spec.numCmds && |history| == spec.numCmds
      && (forall c :: 0 <= c < spec.numCmds ==>
            history[c] == Newest(Hits(tr, path, c), MaxWindow(spec.init[|path| - 1][c])))
      && (forall c :: 0 <= c < spec.numCmds ==> readyClk[c] >= -1)
      && (forall c, x: int :: 0 <= c < spec.numCmds && x >= -1 ==>
            (readyClk[c] <= x <==> Allowed(tr, path, c, x)))
    }

    ghost predicate AllReflect(tr: seq<Event>)
      reads Repr
    {
      forall n :: n in Repr ==> n.Reflects(tr)
    }

    constructor (spec: Spec, level: nat, id: nat, ghost path: seq<nat>)
      requires WellFormedSpec(spec) && level < spec.rowLevel
      requires |path| == level + 1 && path[level] == id
      ensures Valid() && fresh(Repr)
      ensures this.spec == spec && this.level == level && this.nodeId == id && this.path == path
      ensures AllReflect([])
      decreases spec.rowLevel - level, 1
    {
      var hist: seq<seq<int>> := [];
      for cmd := 0 to spec.numCmds
        invariant |hist| == cmd
        invariant forall c :: 0 <= c < cmd ==> hist[c] == Newest([], MaxWindow(spec.init[level][c]))
      {
        hist := hist + [seq(MaxWindow(spec.init[level][cmd]), _ => -1)];
      }
      hide Family, Allowed, Hits;
      var kids, below := MakeChildren(spec, level, path);
      this.spec, this.level, this.nodeId, this.path := spec, level, id, path;
      this.children := kids;
      this.readyClk := seq(spec.numCmds, _ => -1);
      this.history := hist;
      this.below := below;
      this.Repr := {this} + below;
      new;
      NothingYet();
    }

    /// Before the first command nothing is delayed.
    lemma {:induction false} NothingYet()
      requires WellFormedSpec(spec) && level < spec.rowLevel && |path| == level + 1
      requires readyClk == seq(spec.numCmds, _ => -1) && |history| == spec.numCmds
      requires forall c :: 0 <= c < spec.numCmds ==> history[c] == Newest([], MaxWindow(spec.init[level][c]))
      ensures Reflects([])
    {
    }

    static lemma {:induction false} FamilyGrows(kids: seq<Node>, below: set<Node>, kid: Node, spec: Spec, level: nat,
                                                path: seq<nat>)
      requires level < spec.rowLevel && Family(kids, below, spec, level, path)
      requires kid.Valid()
      requires kid.spec == spec && kid.level == level + 1 && kid.path == path + [|kids|]
      ensures Family(kids + [kid], below + kid.Repr, spec, level, path)
    {
      var kids', below' := kids + [kid], below + kid.Repr;
      assert kids'[|kids|] == kid;
      forall n | n in kid.Repr
        ensures n.spec == spec && path < n.path && |n.path| <= spec.rowLevel && n.path[|path|] == |kids|
      {
        if n in kid.below {
          assert kid.path < n.path;
        }
      }
    }

    static method MakeChildren(spec: Spec, level: nat, ghost path: seq<nat>)
      returns (kids: seq<Node>, ghost below: set<Node>)
      requires WellFormedSpec(spec) && level < spec.rowLevel && |path| == level + 1
      ensures Family(kids, below, spec, level, path) && |kids| == ChildCount(spec, level)
      ensures fresh(below) && forall n :: n in below ==> n.Reflects([])
      decreases spec.rowLevel - level, 0
    {
      kids, below := [], {};
      for i := 0 to ChildCount(spec, level)
        invariant |kids| == i && Family(kids, below, spec, level, path)
        invariant fresh(below) && forall n :: n in below ==> n.Reflects([])
      {
        var kid := new Node(spec, level + 1, i, path + [i]);
        FamilyGrows(kids, below, kid, spec, level, path);
        kids, below := kids + [kid], below + kid.Repr;
      }
    }

    /// A command that passes this node by, on its way to one of the node's siblings.
    method UpdateSibling(cmd: nat, addr: seq<int>, clk: nat, cons: ConsTable, ghost tr: seq<Event>)
      requires GoodEvent(spec, Event(cmd, addr, clk, cons)) && Reflects(tr)
      requires GoesToSibling(path, addr) && |path| == level + 1
      modifies this`readyClk
      ensures Reflects(tr + [Event(cmd, addr, clk, cons)])
    {
      ghost var tr' := tr + [Event(cmd, addr, clk, cons)];
      assert tr'[..|tr|] == tr;
      var entries := cons[level][cmd];
      for i := 0 to |entries|
        invariant Tracks(readyClk, tr', |tr|, entries, i)
      {
        var t := entries[i];
        ghost var was := readyClk;
        assert t in entries;
        if t.sibling {
          var future := clk + t.val;
          readyClk := readyClk[t.cmd := Max(readyClk[t.cmd], future)];
        }
        TracksOneMore(was, readyClk, tr', |tr|, entries, i);
      }
      TracksAll(tr, Event(cmd, addr, clk, cons), entries);
    }

    /// A command that goes to this node or through it.
    method UpdateTarget(cmd: nat, addr: seq<int>, clk: nat, cons: ConsTable, ghost tr: seq<Event>)
      requires GoodEvent(spec, Event(cmd, addr, clk, cons)) && Reflects(tr)
      requires Matches(path, addr) && |path| == level + 1
      modifies this
      ensures Reflects(tr + [Event(cmd, addr, clk, cons)])
    {
      hide Allowed, Hits;
      ghost var e := Event(cmd, addr, clk, cons);
      ghost var tr' := tr + [e];
      ghost var h := Hits(tr', path, cmd);
      if |history[cmd]| != 0 {
        history := history[cmd := [clk] + history[cmd][..|history[cmd]| - 1]];
      }
      HitsOneMore(tr, e, path, cmd);
      NewestOneMore(Hits(tr, path, cmd), clk, MaxWindow(spec.init[level][cmd]));
      HitsOfOthers(tr, e, path);
      var entries := cons[level][cmd];
      assert tr'[..|tr| + 1] == tr' && tr'[..|tr|] == tr;
      for i := 0 to |entries|
        invariant history == old(history)[cmd := Newest(h, MaxWindow(spec.init[level][cmd]))]
        invariant Tracks(readyClk, tr', |tr|, entries, i)
      {
        var t := entries[i];
        ghost var was := readyClk;
        assert t in entries;
        if !t.sibling {
          var past := history[cmd][t.window - 1];
          if past >= 0 {
            var future := past + t.val;
            readyClk := readyClk[t.cmd := Max(readyClk[t.cmd], future)];
          }
        }
        TracksOneMore(was, readyClk, tr', |tr|, entries, i);
      }
      TracksAll(tr, e, entries);
    }

    /// The recursive walk of issue_command over the whole tree.
    method UpdateTiming(cmd: nat, addr: seq<int>, clk: nat, cons: ConsTable, ghost tr: seq<Event>)
      requires Valid() && GoodEvent(spec, Event(cmd, addr, clk, cons)) && AllReflect(tr)
      requires Matches(path[..level], addr)
      modifies Repr
      ensures AllReflect(tr + [Event(cmd, addr, clk, cons)])
      decreases spec.rowLevel - level
    {
      ghost var tr' := tr + [Event(cmd, addr, clk, cons)];
      if nodeId != addr[level] && addr[level] != -1 {
        UpdateSibling(cmd, addr, clk, cons, tr);
        forall n | n in below ensures n.Reflects(tr') {
          n.PassedBy(path, tr, Event(cmd, addr, clk, cons));
        }
        return;
      }
      UpdateTarget(cmd, addr, clk, cons, tr);
      for i := 0 to |children|
        invariant Reflects(tr')
        invariant forall n :: n in below ==> n.Reflects(if n.path[|path|] < i then tr' else tr)
      {
        Child(i);
        children[i].UpdateTiming(cmd, addr, clk, cons, tr);
      }
    }

    /// A command turned away higher up changes nothing here and asks for nothing here.
    lemma {:induction false} PassedBy(ancestor: seq<nat>, tr: seq<Event>, e: Event)
      requires Reflects(tr) && GoodEvent(spec, e)
      requires ancestor < path && !Matches(ancestor, e.addr)
      ensures Reflects(tr + [e])
    {
      forall c: nat ensures Hits(tr + [e], path, c) == Hits(tr, path, c) {
        HitsOneMore(tr, e, path, c);
      }
      assert ancestor <= path[..|path| - 1];
      forall c: nat, x: int ensures Allowed(tr + [e], path, c, x) <==> Allowed(tr, path, c, x) {
        AllowedOneMore(tr, e, path, c, x);
      }
    }

    /// The readiness query that the controllers ask.
    predicate CheckReady(cmd: nat, addr: seq<int>, clk: int)
      requires Valid() && cmd < spec.numCmds && GoodAddress(spec, addr) && AllReady()
      reads Repr
      decreases spec.rowLevel - level
    {
      if readyClk[cmd] != -1 && clk < readyClk[cmd] then false
      else if level == spec.scopes[cmd] || |children| == 0 then true
      else if addr[level + 1] == -1 then
        forall i :: 0 <= i < |children| ==> (Child(i); children[i].CheckReady(cmd, addr, clk))
      else
        Child(addr[level + 1]);
        children[addr[level + 1]].CheckReady(cmd, addr, clk)
    }

    /// Every node has a ready clock per command.
    ghost predicate AllReady()
      reads Repr
    {
      forall n :: n in Repr ==> |n.readyClk| == n.spec.numCmds
    }

    /// The answer is the whole trace's answer: ready exactly when every constraint of every visited
    /// node holds against every earlier command.
    lemma {:induction false} CheckReadyExact(tr: seq<Event>, cmd: nat, addr: seq<int>, clk: nat)
      requires Valid() && AllReflect(tr)
      requires cmd < spec.numCmds && GoodAddress(spec, addr) && level <= spec.scopes[cmd]
      ensures CheckReady(cmd, addr, clk) <==>
              forall p :: Visited(spec, path, cmd, addr, p) ==> Allowed(tr, p, cmd, clk)
      decreases spec.rowLevel - level
    {
      hide Allowed, GoodEvent, GoodTable;
      assert this.Reflects(tr);
      assert Visited(spec, path, cmd, addr, path);
      if readyClk[cmd] > clk {
        assert !Allowed(tr, path, cmd, clk);
      } else if level == spec.scopes[cmd] || |children| == 0 {
        forall p | Visited(spec, path, cmd, addr, p) ensures p == path {
        }
      } else {
        forall k | 0 <= k < |children| && (addr[level + 1] == -1 || addr[level + 1] == k)
          ensures children[k].CheckReady(cmd, addr, clk) <==>
                  forall p :: Visited(spec, path + [k], cmd, addr, p) ==> Allowed(tr, p, cmd, clk)
          ensures forall p :: Visited(spec, path + [k], cmd, addr, p) ==> Visited(spec, path, cmd, addr, p)
        {
          Child(k);
          children[k].CheckReadyExact(tr, cmd, addr, clk);
          forall p | Visited(spec, path + [k], cmd, addr, p) ensures Visited(spec, path, cmd, addr, p) {
            assert p[level + 1] == k;
          }
        }
        forall p | Visited(spec, path, cmd, addr, p) && p != path
          ensures 0 <= p[level + 1] < |children| && (addr[level + 1] == -1 || addr[level + 1] == p[level + 1])
          ensures Visited(spec, path + [p[level + 1]], cmd, addr, p)
        {
          assert |p| > |path| && p[level + 1] < spec.count[level + 1];
          assert path + [p[level + 1]] == p[..level + 2];
        }
      }
    }

    /// The ready clocks turn a command down before some clock and let it through from then on.
    lemma {:induction false} HasThreshold(cmd: nat, addr: seq<int>) returns (t: nat)
      requires Valid() && cmd < spec.numCmds && GoodAddress(spec, addr) && AllReady()
      ensures forall x: nat :: CheckReady(cmd, addr, x) <==> t <= x
      decreases spec.rowLevel - level
    {
      t := Max(0, readyClk[cmd]);
      if level == spec.scopes[cmd] || |children| == 0 {
      } else if addr[level + 1] == -1 {
        var i := 0;
        while i < |children|
          invariant i <= |children|
          invariant forall x: nat :: FirstReady(i, cmd, addr, x) <==> t <= x
        {
          Child(i);
          var u := children[i].HasThreshold(cmd, addr);
          FirstReadyMore(i, i + 1, cmd, addr, t, u);
          t, i := Max(t, u), i + 1;
        }
        forall x: nat ensures CheckReady(cmd, addr, x) <==> FirstReady(|children|, cmd, addr, x) {
        }
      } else {
        Child(addr[level + 1]);
        var u := children[addr[level + 1]].HasThreshold(cmd, addr);
        t := Max(t, u);
      }
    }

    /// This node and its first i children let the command through.
    ghost predicate FirstReady(i: nat, cmd: nat, addr: seq<int>, x: int)
      requires Valid() && cmd < spec.numCmds && GoodAddress(spec, addr) && AllReady() && i <= |children|
      reads Repr
    {
      readyClk[cmd] <= x && forall k :: 0 <= k < i ==> (Child(k); children[k].CheckReady(cmd, addr, x))
    }

    lemma {:induction false} FirstReadyMore(i: nat, j: nat, cmd: nat, addr: seq<int>, t: nat, u: nat)
      requires Valid() && cmd < spec.numCmds && GoodAddress(spec, addr) && AllReady() && i < |children| && j == i + 1
      requires children[i].Valid() && children[i].Repr <= Repr && children[i].spec == spec
      requires forall x: nat :: FirstReady(i, cmd, addr, x) <==> t <= x
      requires forall x: nat :: children[i].CheckReady(cmd, addr, x) <==> u <= x
      ensures forall x: nat :: FirstReady(j, cmd, addr, x) <==> Max(t, u) <= x
    {
      forall x: nat ensures FirstReady(j, cmd, addr, x) <==> Max(t, u) <= x {
        assert FirstReady(j, cmd, addr, x) <==> FirstReady(i, cmd, addr, x) && children[i].CheckReady(cmd, addr, x);
      }
    }

    lemma {:induction false} AllReadyFromReflect(tr: seq<Event>)
      requires AllReflect(tr)
      ensures AllReady()
    {
      forall n | n in Repr ensures |n.readyClk| == n.spec.numCmds {
        assert n.Reflects(tr);
      }
    }

    /// The clock from which on the node's answer is yes is fixed by the trace.
    lemma {:induction false} ReadyFromTrace(tr: seq<Event>, cmd: nat, addr: seq<int>)
      requires Valid() && AllReflect(tr) && AllReady()
      requires cmd < spec.numCmds && GoodAddress(spec, addr) && level <= spec.scopes[cmd]
      ensures exists t :: ReadyExactlyFrom(spec, path, tr, cmd, addr, t)
      ensures forall x: nat :: CheckReady(cmd, addr, x) <==> Earliest(spec, path, tr, cmd, addr) <= x
    {
      var t := HasThreshold(cmd, addr);
      forall x: nat ensures CheckReady(cmd, addr, x) <==> EverywhereAllowed(spec, path, tr, cmd, addr, x) {
        CheckReadyExact(tr, cmd, addr, x);
      }
      assert ReadyExactlyFrom(spec, path, tr, cmd, addr, t);
    }

    /// `ready` accounts for event n's predecessors and for the first k entries that event n triggers.
    ghost predicate Tracks(ready: seq<int>, tr: seq<Event>, n: nat, entries: seq<TimingCons>, k: nat)
      requires n < |tr| && k <= |entries|
    {
      && |ready| == spec.numCmds
      && (forall c :: 0 <= c < spec.numCmds ==> ready[c] >= -1)
      && (forall c, x: int :: 0 <= c < spec.numCmds && x >= -1 ==>
            (ready[c] <= x <==> Allowed(tr[..n], path, c, x) && FirstAllow(entries, k, tr, n, c, x)))
    }

    ghost predicate FirstAllow(entries: seq<TimingCons>, k: nat, tr: seq<Event>, n: nat, c: nat, x: int)
      requires n < |tr| && k <= |entries|
    {
      forall i :: 0 <= i < k ==> EntryAllows(entries[i], tr, n, path, c, x)
    }

    lemma {:induction false} TracksOneMore(ready: seq<int>, ready': seq<int>, tr: seq<Event>, n: nat,
                                           entries: seq<TimingCons>, k: nat)
      requires n < |tr| && k < |entries| && entries[k].cmd < spec.numCmds
      requires Tracks(ready, tr, n, entries, k)
      requires |ready'| == |ready| && forall c :: 0 <= c < |ready| ==> ready[c] <= ready'[c]
      requires forall c, x: int :: 0 <= c < spec.numCmds && x >= -1 ==>
        (ready'[c] <= x <==> ready[c] <= x && EntryAllows(entries[k], tr, n, path, c, x))
      ensures Tracks(ready', tr, n, entries, k + 1)
    {
      forall c, x: int | 0 <= c < spec.numCmds && x >= -1
        ensures ready'[c] <= x <==> Allowed(tr[..n], path, c, x) && FirstAllow(entries, k + 1, tr, n, c, x)
      {
        assert ready'[c] <= x <==> ready[c] <= x && EntryAllows(entries[k], tr, n, path, c, x);
        assert FirstAllow(entries, k + 1, tr, n, c, x) <==>
               FirstAllow(entries, k, tr, n, c, x) && EntryAllows(entries[k], tr, n, path, c, x);
      }
    }

    lemma {:induction false} TracksAll(tr: seq<Event>, e: Event, entries: seq<TimingCons>)
      requires WellFormedSpec(spec) && 0 < |path| <= spec.rowLevel && GoodEvent(spec, e)
      requires entries == e.cons[|path| - 1][e.cmd]
      requires Tracks(readyClk, tr + [e], |tr|, entries, |entries|)
      requires |history| == spec.numCmds
      requires forall c :: 0 <= c < spec.numCmds ==>
        history[c] == Newest(Hits(tr + [e], path, c), MaxWindow(spec.init[|path| - 1][c]))
      ensures Reflects(tr + [e])
    {
      assert (tr + [e])[..|tr|] == tr;
      forall c: nat, x: int
        ensures Allowed(tr + [e], path, c, x) <==>
                Allowed(tr, path, c, x) && FirstAllow(entries, |entries|, tr + [e], |tr|, c, x)
      {
        AllowedOneMore(tr, e, path, c, x);
      }
    }
  }

  lemma {:induction false} NewestOneMore(h: seq<nat>, clk: nat, w: nat)
    ensures w > 0 ==> Newest(h + [clk], w) == [clk as int] + Newest(h, w)[..w - 1]
    ensures w == 0 ==> Newest(h + [clk], w) == Newest(h, w)
  {
  }

  // ---------- whole runs ----------

  ghost predicate InTree(spec: Spec, root: seq<nat>, p: seq<nat>)
    requires |spec.count| >= spec.rowLevel
  {
    root <= p && |p| <= spec.rowLevel && forall i :: |root| <= i < |p| ==> p[i] < spec.count[i]
  }

  /// Every command was found ready, in the sense of `CheckReadyExact`, when it was issued.
  ghost predicate Legal(spec: Spec, root: seq<nat>, tr: seq<Event>) {
    WellFormedSpec(spec) && GoodTrace(spec, tr) &&
    forall k, p :: 0 <= k < |tr| ==> PassedAt(spec, root, tr, k, p)
  }

  ghost predicate PassedAt(spec: Spec, root: seq<nat>, tr: seq<Event>, k: nat, p: seq<nat>)
    requires k < |tr| && GoodEvent(spec, tr[k])
  {
    GoodAddress(spec, tr[k].addr) &&
    (Visited(spec, root, tr[k].cmd, tr[k].addr, p) ==> Allowed(tr[..k], p, tr[k].cmd, tr[k].clk))
  }

  lemma {:induction false} LegalOneMore(spec: Spec, root: seq<nat>, tr: seq<Event>, e: Event)
    requires Legal(spec, root, tr) && GoodEvent(spec, e) && GoodAddress(spec, e.addr)
    requires forall p :: Visited(spec, root, e.cmd, e.addr, p) ==> Allowed(tr, p, e.cmd, e.clk)
    ensures Legal(spec, root, tr + [e])
  {
    forall k, p | 0 <= k < |tr| + 1 ensures PassedAt(spec, root, tr + [e], k, p) {
      assert (tr + [e])[..k] == tr[..k];
      assert k < |tr| ==> PassedAt(spec, root, tr, k, p);
      assert tr[..|tr|] == tr;
    }
  }

  /// Between any two commands of a legal run every constraint holds at every common node within the
  /// later command's scope: own-node constraints against the window-th newest command, sibling
  /// constraints against the neighbour's command.
  lemma {:induction false} RunSafety(spec: Spec, root: seq<nat>, tr: seq<Event>, j: nat, k: nat, p: seq<nat>,
                                     t: TimingCons)
    requires Legal(spec, root, tr) && j < k < |tr|
    requires InTree(spec, root, p) && 0 < |p| <= spec.scopes[tr[k].cmd] + 1
    requires Matches(p, tr[k].addr) && t in tr[j].cons[|p| - 1][tr[j].cmd] && t.cmd == tr[k].cmd
    ensures t.sibling && GoesToSibling(p, tr[j].addr) ==> tr[j].clk + t.val <= tr[k].clk
    ensures !t.sibling && Matches(p, tr[j].addr) ==>
              var h := Hits(tr[..j + 1], p, tr[j].cmd);
              t.window <= |h| ==> h[|h| - t.window] + t.val <= tr[k].clk
  {
    assert PassedAt(spec, root, tr, k, p);
    assert Allowed(tr[..k], p, tr[k].cmd, tr[k].clk);
    assert EventAllows(tr[..k], j, p, tr[k].cmd, tr[k].clk);
    assert EntryAllows(t, tr[..k], j, p, tr[k].cmd, tr[k].clk);
    assert tr[..k][..j + 1] == tr[..j + 1];
    assert GoodEvent(spec, tr[j]);
  }

  /// Any window+1 consecutive commands of one kind at one node span at least the constraint's value.
  lemma {:induction false} WindowSafety(spec: Spec, root: seq<nat>, tr: seq<Event>, p: seq<nat>, t: TimingCons, i: nat)
    requires Legal(spec, root, tr) && InTree(spec, root, p)
    requires t.cmd < spec.numCmds && 0 < |p| <= spec.scopes[t.cmd] + 1 && !t.sibling
    requires forall j :: 0 <= j < |tr| && tr[j].cmd == t.cmd ==> t in tr[j].cons[|p| - 1][t.cmd]
    requires i + t.window < |Hits(tr, p, t.cmd)|
    ensures Hits(tr, p, t.cmd)[i] + t.val <= Hits(tr, p, t.cmd)[i + t.window]
  {
    var k := |tr| - 1;
    var before := tr[..k];
    LegalIsPrefixClosed(spec, root, tr);
    var h := Hits(before, p, t.cmd);
    if i + t.window < |h| {
      WindowSafety(spec, root, before, p, t, i);
    } else {
      // the last event is the later command; its predecessor is the newest hit before it
      var j := LastHit(before, p, t.cmd);
      RunSafety(spec, root, tr, j, k, p, t);
      assert tr[..j + 1] == before[..j + 1];
    }
  }

  lemma {:induction false} LegalIsPrefixClosed(spec: Spec, root: seq<nat>, tr: seq<Event>)
    requires tr != [] && Legal(spec, root, tr)
    ensures Legal(spec, root, tr[..|tr| - 1])
  {
    var before := tr[..|tr| - 1];
    forall k, p | 0 <= k < |before| ensures PassedAt(spec, root, before, k, p) {
      assert PassedAt(spec, root, tr, k, p);
      assert before[..k] == tr[..k];
    }
  }

  /// The event that made the newest hit.
  lemma {:induction false} LastHit(tr: seq<Event>, p: seq<nat>, cmd: nat) returns (j: nat)
    requires Hits(tr, p, cmd) != []
    ensures j < |tr| && tr[j].cmd == cmd && Matches(p, tr[j].addr)
    ensures Hits(tr[..j + 1], p, cmd) == Hits(tr, p, cmd)
  {
    var e := tr[|tr| - 1];
    if e.cmd == cmd && Matches(p, e.addr) {
      j := |tr| - 1;
      assert tr[..j + 1] == tr;
    } else {
      j := LastHit(tr[..|tr| - 1], p, cmd);
      assert tr[..|tr| - 1][..j + 1] == tr[..j + 1];
    }
  }
}
