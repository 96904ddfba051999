/** The generic memory controller with the FR-FCFS scheduler (src/dram_controller/impl/generic_dram_controller.cpp,
    scheduler/generic_scheduler.cpp) driving one DDR4 channel.  */
module GenericController {
  import opened Timing
  import opened Ddr4Rank
  import opened Ddr4
  import opened OpenRows
  import Bits

  datatype RequestType = Read | Write | AllBankRefresh | OpenRow | CloseRow

  /// The device's translation of a request type to its final command.
  function Translation(t: RequestType): nat {
    match t
    case Read => RD
    case Write => WR
    case AllBankRefresh => REFAB
    case OpenRow => ACT
    case CloseRow => PRE
  }

  datatype Request = Request(addr: int, vec: seq<int>, kind: RequestType, command: nat, final: nat, arrive: int,
                             depart: int)

  const BUFFER_SIZE: nat := 32
  const PRIORITY_SIZE: nat := 512 * 3 + 32

  /// A buffer still takes a request when it holds exactly its nominal size.
  function Enqueue(buffer: seq<Request>, req: Request, maxSize: nat): (seq<Request>, bool) {
    if |buffer| <= maxSize then (buffer + [req], true) else (buffer, false)
  }

  predicate IsClosing(cmd: nat) { cmd in {PRE, PREA, RDA, WRA, REFAB_END} }

  /// Same bank, up to wildcards: the guard that keeps a closing command away from a request being served.
  predicate SameBank(a: seq<int>, b: seq<int>)
    requires |a| == |b| == NUM_LEVELS
  {
    forall i :: 0 <= i <= BANK ==> a[i] == b[i] || a[i] == -1 || b[i] == -1
  }

  /// The address stands for the bank with these coordinates.
  ghost predicate StandsFor(vec: seq<int>, bank: seq<int>) {
    |vec| == NUM_LEVELS && |bank| == BANK + 1 && forall i :: 0 <= i <= BANK ==> vec[i] == -1 || vec[i] == bank[i]
  }

  /// The guard holds back exactly the commands whose address and the request's stand for some bank in common.
  lemma {:induction false} SameBankMeans(a: seq<int>, b: seq<int>)
    requires |a| == |b| == NUM_LEVELS
    ensures SameBank(a, b) <==> exists bank :: StandsFor(a, bank) && StandsFor(b, bank)
  {
    if SameBank(a, b) {
      var bank := seq(BANK + 1, i requires 0 <= i <= BANK => if a[i] == -1 then b[i] else a[i]);
      assert StandsFor(a, bank) && StandsFor(b, bank);
    }
  }

  /// The request's bank is open on the request's row.
  predicate RowIsOpen(ranks: seq<Rank>, vec: seq<int>, bank: nat) {
    |vec| == NUM_LEVELS && 0 <= vec[RANK] < |ranks| && bank < |ranks[vec[RANK]].banks| &&
    var b := ranks[vec[RANK]].banks[bank];
    b.state == Opened && vec[ROW] in b.rows
  }

  datatype Outcome = Accepted | Forwarded | Full | InvalidType

  datatype Slot = Active | Priority | Reads | Writes

  class Controller {
    const dev: Device
    const lowWatermark: real
    const highWatermark: real

    var active: seq<Request>
    var priority: seq<Request>
    var readBuf: seq<Request>
    var writeBuf: seq<Request>
    var pending: seq<Request>
    var isWriteMode: bool
    var clk: nat

    predicate RequestOk(q: Request) {
      q.final == Translation(q.kind) && dev.InRange(q.vec, q.final)
    }

    ghost predicate AllOk(buffer: seq<Request>) {
      forall q :: q in buffer ==> RequestOk(q)
    }

    /// A request in the active buffer is a column access whose row is open.
    ghost predicate Protected(q: Request)
      reads dev`ranks
    {
      RequestOk(q) && q.final in {RD, WR} && RowIsOpen(dev.ranks, q.vec, dev.FlatBank(q.vec, q.final))
    }

    ghost predicate AllProtected(buffer: seq<Request>)
      reads dev`ranks
    {
      forall q :: q in buffer ==> Protected(q)
    }

    /// No request to close a row.
    static ghost predicate NoCloseRow(buffer: seq<Request>) {
      forall q :: q in buffer ==> q.kind != CloseRow
    }

    ghost predicate NoneCloses()
      reads this
    {
      NoCloseRow(active) && NoCloseRow(priority) && NoCloseRow(readBuf) && NoCloseRow(writeBuf)
    }

    ghost predicate Valid()
      reads this, dev, dev.root.Repr
    {
      dev.Valid() && dev.HasRanks() && clk == dev.clk &&
      AllProtected(active) && AllOk(priority) && AllOk(readBuf) && AllOk(writeBuf)
    }

    constructor (dev: Device, lowWatermark: real, highWatermark: real)
      requires dev.Valid()
      ensures Valid() && this.dev == dev
      ensures active == priority == readBuf == writeBuf == pending == [] && !isWriteMode
    {
      this.dev, this.lowWatermark, this.highWatermark := dev, lowWatermark, highWatermark;
      active, priority, readBuf, writeBuf, pending := [], [], [], [], [];
      isWriteMode, clk := false, dev.clk;
    }

    /// The next command of an active request is its final column access.
    lemma {:induction false} ActiveIsReadyToFinish(q: Request)
      requires dev.HasRanks() && Protected(q)
      ensures dev.GetPreq(q.final, q.vec) == q.final
    {
    }

    // ---------- FR-FCFS ----------

    predicate Ready(q: Request)
      requires dev.Valid()
      reads dev, dev.root.Repr
    {
      RequestOk(q) && q.command < NUM_CMDS && dev.CheckReady(q.command, q.vec, q.final)
    }

    /// Request a is at least as good as b: a ready one beats one that is not, then the earlier arrival wins.
    predicate AsGood(a: Request, b: Request)
      requires dev.Valid()
      reads dev, dev.root.Repr
    {
      if Ready(a) != Ready(b) then Ready(a) else a.arrive <= b.arrive
    }

    /// The request with its next command, as the device's prerequisites say.
    function WithCommand(q: Request): (r: Request)
      requires dev.HasRanks() && RequestOk(q)
      reads dev`ranks
    {
      q.(command := dev.GetPreq(q.final, q.vec))
    }

    ghost predicate Updated(buffer: seq<Request>, updated: seq<Request>)
      requires dev.HasRanks()
      reads dev`ranks
    {
      |updated| == |buffer| &&
      forall i :: 0 <= i < |buffer| ==> RequestOk(buffer[i]) && updated[i] == WithCommand(buffer[i])
    }

    /// It is ready if any request is; of those that are as ready it arrived first; and of those that arrived together
    /// it stands first in the buffer.
    ghost predicate IsBest(buffer: seq<Request>, best: nat)
      requires dev.Valid()
      reads dev, dev.root.Repr
    {
      best < |buffer| &&
      (forall i :: 0 <= i < |buffer| && Ready(buffer[i]) ==> Ready(buffer[best])) &&
      (forall i :: 0 <= i < |buffer| && Ready(buffer[i]) == Ready(buffer[best]) ==>
        buffer[best].arrive < buffer[i].arrive || (buffer[best].arrive == buffer[i].arrive && best <= i))
    }

    method RefreshCommands(buffer: seq<Request>) returns (updated: seq<Request>)
      requires dev.HasRanks() && AllOk(buffer)
      ensures Updated(buffer, updated) && |updated| == |buffer|
    {
      updated := [];
      for i := 0 to |buffer|
        invariant Updated(buffer[..i], updated)
      {
        assert buffer[i] in buffer;
        updated := updated + [WithCommand(buffer[i])];
      }
      assert buffer[..|buffer|] == buffer;
    }

    /// The scan's running choice takes in one request more.
    lemma {:induction false} BestOneMore(buffer: seq<Request>, best: nat, i: nat)
      requires dev.Valid() && i < |buffer| && IsBest(buffer[..i], best)
      ensures IsBest(buffer[..i + 1], if AsGood(buffer[best], buffer[i]) then best else i)
    {
      hide Device.Valid, Ready;
      assert forall k :: 0 <= k < i ==> buffer[..i + 1][k] == buffer[..i][k];
    }

    lemma {:induction false} FirstIsBest(buffer: seq<Request>)
      requires dev.Valid() && buffer != []
      ensures IsBest(buffer[..1], 0)
    {
      hide Device.Valid, Ready;
    }

    method GetBestRequest(buffer: seq<Request>) returns (updated: seq<Request>, best: nat)
      requires dev.Valid() && dev.HasRanks() && AllOk(buffer)
      ensures Updated(buffer, updated) && |updated| == |buffer|
      ensures buffer != [] ==> IsBest(updated, best)
    {
      hide Device.Valid, Device.HasRanks, Updated, Ready, AsGood, IsBest;
      updated := RefreshCommands(buffer);
      best := 0;
      if buffer != [] {
        FirstIsBest(updated);
        for i := 1 to |updated|
          invariant best < i && IsBest(updated[..i], best)
        {
          BestOneMore(updated, best, i);
          if !AsGood(updated[best], updated[i]) {
            best := i;
          }
        }
        assert updated[..|updated|] == updated;
      }
    }

    // ---------- scheduling ----------

    function Buffer(slot: Slot): seq<Request>
      reads this
    {
      match slot
      case Active => active
      case Priority => priority
      case Reads => readBuf
      case Writes => writeBuf
    }

    /// The request when its next command is its last.
    static function Finishing(p: Request): Request {
      p.(command := p.final)
    }

    /// Every request being served is about to finish.
    static ghost predicate AllFinishing(buffer: seq<Request>) {
      forall p :: p in buffer ==> p == Finishing(p)
    }

    /// Only next-command fields differ.
    static predicate SameRequests(a: seq<Request>, b: seq<Request>) {
      |a| == |b| && forall i :: 0 <= i < |a| ==> b[i] == a[i].(command := b[i].command)
    }

    /// The requests without their next commands, which change while they wait.
    static ghost function Plain(buffer: seq<Request>): seq<Request> {
      seq(|buffer|, i requires 0 <= i < |buffer| => buffer[i].(command := 0))
    }

    /// All requests in the four buffers.
    ghost function Waiting(): multiset<Request>
      reads this
    {
      multiset(Plain(active)) + multiset(Plain(priority)) + multiset(Plain(readBuf)) + multiset(Plain(writeBuf))
    }

    /// How many of the requests find room in a priority buffer that holds so many.
    static function Room(held: nat, reqs: seq<Request>): (n: nat)
      ensures n <= |reqs|
    {
      Bits.Min(|reqs|, Bits.Max(0, PRIORITY_SIZE + 1 - held))
    }

    /// No request is lost: all are still there, or one is gone whose final command has just been issued.
    static ghost predicate OnlyFinishedLeft(issued: seq<Event>, before: multiset<Request>, after: multiset<Request>) {
      before == after ||
      exists q: Request, e :: e in issued && e.cmd == q.final && e.addr == q.vec && before == after + multiset{q}
    }

    static lemma {:induction false} SamePlain(a: seq<Request>, b: seq<Request>)
      requires SameRequests(a, b)
      ensures Plain(a) == Plain(b)
    {
    }

    static lemma {:induction false} PlainConcat(a: seq<Request>, b: seq<Request>)
      ensures Plain(a + b) == Plain(a) + Plain(b)
      ensures multiset(Plain(a + b)) == multiset(Plain(a)) + multiset(Plain(b))
    {
      assert Plain(a + b) == Plain(a) + Plain(b);
    }

    static lemma {:induction false} ErasedPlain(buffer: seq<Request>, index: nat)
      requires index < |buffer|
      ensures multiset(Plain(Erased(buffer, index))) + multiset{buffer[index].(command := 0)} == multiset(Plain(buffer))
    {
      var a, b := buffer[..index], buffer[index + 1..];
      assert buffer == a + ([buffer[index]] + b);
      PlainConcat(a, b);
      PlainConcat(a, [buffer[index]] + b);
      PlainConcat([buffer[index]], b);
      assert Plain([buffer[index]]) == [buffer[index].(command := 0)];
    }

    /// The command would close a bank that a request in the active buffer is using.
    ghost predicate TouchesActive(vec: seq<int>)
      requires |vec| == NUM_LEVELS
      reads this`active
    {
      exists p :: p in active && |p.vec| == NUM_LEVELS && SameBank(p.vec, vec)
    }

    /// Hysteresis between the two watermarks, and no mode without work.
    method SetWriteMode()
      modifies this`isWriteMode
      ensures !old(isWriteMode) ==>
        (isWriteMode <==> |writeBuf| as real > highWatermark * BUFFER_SIZE as real || |readBuf| == 0)
      ensures old(isWriteMode) ==>
        (!isWriteMode <==> (|writeBuf| as real) < lowWatermark * BUFFER_SIZE as real && |readBuf| != 0)
    {
      if !isWriteMode {
        if |writeBuf| as real > highWatermark * BUFFER_SIZE as real || |readBuf| == 0 {
          isWriteMode := true;
        }
      } else {
        if (|writeBuf| as real) < lowWatermark * BUFFER_SIZE as real && |readBuf| != 0 {
          isWriteMode := false;
        }
      }
    }

    lemma {:induction false} UpdatedIsOk(buffer: seq<Request>, updated: seq<Request>)
      requires dev.HasRanks() && Updated(buffer, updated)
      ensures AllOk(updated) && SameRequests(buffer, updated)
      ensures forall q :: q in updated ==> q == WithCommand(q)
      ensures AllProtected(buffer) ==> AllProtected(updated) && AllFinishing(updated)
    {
      forall q | q in updated
        ensures RequestOk(q) && q == WithCommand(q) && (AllProtected(buffer) ==> Protected(q) && q == Finishing(q)) {
        var i :| 0 <= i < |updated| && updated[i] == q;
        assert buffer[i] in buffer;
      }
    }

    ghost predicate NextAndReady(q: Request)
      reads dev, dev.root.Repr
    {
      dev.Valid() && dev.HasRanks() && RequestOk(q) && q == WithCommand(q) && Ready(q)
    }

    /// The scheduler's candidate of one buffer, and whether it can go now.
    method Consider(buffer: seq<Request>) returns (updated: seq<Request>, found: bool, best: nat)
      requires dev.Valid() && dev.HasRanks() && AllOk(buffer)
      ensures AllOk(updated) && SameRequests(buffer, updated)
      ensures AllProtected(buffer) ==> AllProtected(updated) && AllFinishing(updated)
      ensures found ==> best < |updated| && IsBest(updated, best) && NextAndReady(updated[best])
      ensures !found ==> forall i :: 0 <= i < |updated| ==> !Ready(updated[i])
    {
      hide Device.TimingOk, Device.Pending, Counted, RowIsOpen, Ready, Translation, Device.InRange;
      updated, best := GetBestRequest(buffer);
      UpdatedIsOk(buffer, updated);
      found := false;
      if |updated| != 0 {
        found := Ready(updated[best]);
        assert updated[best] in updated;
      }
    }

    ghost predicate NoneReady(buffer: seq<Request>)
      requires dev.Valid()
      reads dev, dev.root.Repr
    {
      forall i :: 0 <= i < |buffer| ==> !Ready(buffer[i])
    }

    /// The buffer that the present mode serves.
    function ModeSlot(): Slot
      reads this`isWriteMode
    {
      if isWriteMode then Writes else Reads
    }

    /// First the requests being served, then the head of the priority buffer, then reads or writes.
    method PickRequest() returns (found: bool, slot: Slot, index: nat)
      requires Valid()
      modifies this`active, this`priority, this`readBuf, this`writeBuf, this`isWriteMode
      ensures Valid() && AllFinishing(active)
      ensures SameRequests(old(active), active) && SameRequests(old(priority), priority)
      ensures SameRequests(old(readBuf), readBuf) && SameRequests(old(writeBuf), writeBuf)
      ensures found ==> index < |Buffer(slot)| && NextAndReady(Buffer(slot)[index])
      ensures found && slot != Priority ==> IsBest(Buffer(slot), index)
      ensures found && slot == Priority ==> index == 0
      ensures found && slot in {Reads, Writes} ==> priority == [] && slot == ModeSlot()
      ensures found && slot == Writes ==> |readBuf| == 0 || Above(highWatermark) || AtLeast(lowWatermark)
      ensures found && slot == Reads ==> |readBuf| != 0 && !(AtLeast(lowWatermark) && Above(highWatermark))
      ensures !found || slot != Active ==> NoneReady(active)
      ensures !found ==> if priority == [] then NoneReady(Buffer(ModeSlot())) else !Ready(priority[0])
    {
      hide Device.Valid, RowIsOpen, AsGood, Ready, IsBest, Translation, Device.InRange, Device.HasRanks, Next;
      slot := Active;
      active, found, index := Consider(active);
      if found {
        return;
      }
      if |priority| != 0 {
        var q := WithCommand(priority[0]);
        priority := priority[0 := q];
        return Ready(q), Priority, 0;
      }
      found, slot, index := PickReadOrWrite();
    }

    static lemma {:induction false} SameAsItself(buffer: seq<Request>)
      ensures SameRequests(buffer, buffer)
    {
    }

    static lemma {:induction false} SameSize(before: seq<Request>, after: seq<Request>)
      requires SameRequests(before, after)
      ensures |before| == |after|
    {
    }

    /// The write buffer is filled above, or at least up to, a watermark.
    ghost predicate Above(mark: real)
      reads this`writeBuf
    {
      |writeBuf| as real > mark * BUFFER_SIZE as real
    }

    ghost predicate AtLeast(mark: real)
      reads this`writeBuf
    {
      |writeBuf| as real >= mark * BUFFER_SIZE as real
    }

    /// One of the requests that wait: writes if no read waits or the write buffer is above the high watermark, reads if
    /// it is below the low one, and in between of the buffer that was served before.
    method PickReadOrWrite() returns (found: bool, slot: Slot, index: nat)
      requires Valid()
      modifies this`readBuf, this`writeBuf, this`isWriteMode
      ensures Valid() && slot in {Reads, Writes}
      ensures SameRequests(old(readBuf), readBuf) && SameRequests(old(writeBuf), writeBuf)
      ensures slot == ModeSlot()
      ensures |readBuf| == 0 ==> slot == Writes
      ensures |readBuf| != 0 && AtLeast(lowWatermark) && Above(highWatermark) ==> slot == Writes
      ensures |readBuf| != 0 && !AtLeast(lowWatermark) && !Above(highWatermark) ==> slot == Reads
      ensures |readBuf| != 0 && AtLeast(lowWatermark) && !Above(highWatermark) ==>
                slot == if old(isWriteMode) then Writes else Reads
      ensures found ==> index < |Buffer(slot)| && NextAndReady(Buffer(slot)[index]) && IsBest(Buffer(slot), index)
      ensures !found ==> NoneReady(Buffer(slot))
    {
      hide Device.Valid, RowIsOpen, AsGood, Ready, IsBest, Translation, Device.InRange, Device.HasRanks, Next;
      hide AllFinishing, SameRequests;
      SameAsItself(readBuf);
      SameAsItself(writeBuf);
      SetWriteMode();
      if isWriteMode {
        slot := Writes;
        writeBuf, found, index := Consider(writeBuf);
        SameSize(old(writeBuf), writeBuf);
      } else {
        slot := Reads;
        readBuf, found, index := Consider(readBuf);
        SameSize(old(readBuf), readBuf);
      }
    }

    method ScanActive(vec: seq<int>) returns (touches: bool)
      requires |vec| == NUM_LEVELS && forall p :: p in active ==> |p.vec| == NUM_LEVELS
      ensures touches <==> TouchesActive(vec)
    {
      for i := 0 to |active|
        invariant forall k :: 0 <= k < i ==> |active[k].vec| == NUM_LEVELS && !SameBank(active[k].vec, vec)
      {
        assert active[i] in active;
        if SameBank(active[i].vec, vec) {
          return true;
        }
      }
      return false;
    }

    /// The request's command would close a bank in use.
    ghost predicate Blocked(slot: Slot, index: nat)
      reads this
    {
      slot != Active && index < |Buffer(slot)| && |Buffer(slot)[index].vec| == NUM_LEVELS &&
      IsClosing(Buffer(slot)[index].command) && TouchesActive(Buffer(slot)[index].vec)
    }

    lemma {:induction false} ActiveNeverCloses(slot: Slot, index: nat)
      requires AllProtected(active) && AllFinishing(active) && index < |Buffer(slot)|
      ensures slot == Active ==> !IsClosing(Buffer(slot)[index].command)
    {
      if slot == Active {
        assert active[index] in active && active[index] == Finishing(active[index]);
      }
    }

    /// Picks a request, then drops it again if its command would close a bank in use.
    method ScheduleRequest() returns (found: bool, slot: Slot, index: nat)
      requires Valid()
      modifies this`active, this`priority, this`readBuf, this`writeBuf, this`isWriteMode
      ensures Valid() && AllFinishing(active)
      ensures SameRequests(old(active), active) && SameRequests(old(priority), priority)
      ensures SameRequests(old(readBuf), readBuf) && SameRequests(old(writeBuf), writeBuf)
      ensures found ==> index < |Buffer(slot)| && NextAndReady(Buffer(slot)[index])
      ensures found ==> |Buffer(slot)[index].vec| == NUM_LEVELS &&
                        (IsClosing(Buffer(slot)[index].command) ==> !TouchesActive(Buffer(slot)[index].vec))
      ensures !found ==> NoneReady(active)
      ensures !found ==>
                Blocked(slot, index) || if priority == [] then NoneReady(Buffer(ModeSlot())) else !Ready(priority[0])
    {
      hide Device.Valid, Device.HasRanks, AsGood, Ready, Translation, Next, WithCommand, SameRequests, IsBest;
      found, slot, index := PickRequest();
      if found && IsClosing(Buffer(slot)[index].command) {
        ActiveNeverCloses(slot, index);
        var touches := ScanActive(Buffer(slot)[index].vec);
        found := !touches;
      }
    }

    // ---------- issuing ----------

    /// Issuing the chosen command leaves every open row in use as it is.
    lemma {:induction false} IssueProtects(q: Request, p: Request)
      requires dev.Valid() && dev.HasRanks() && RequestOk(q) && q == WithCommand(q)
      requires Protected(p) && (IsClosing(q.command) ==> !SameBank(p.vec, q.vec))
      ensures RowIsOpen(dev.ranks[q.vec[RANK] := dev.RankAfter(q.command, q.vec, q.final)], p.vec,
                        dev.FlatBank(p.vec, p.final))
      ensures q.command in {PRE, PREA, REFAB} ==> !SameBank(p.vec, q.vec)
    {
      hide RankOk, Device.Valid, Action, PowerStep;
      var r := q.vec[RANK];
      var rank := dev.ranks[r];
      dev.RankIsOk(r);
      if p.vec[RANK] == r {
        var k := dev.FlatBank(p.vec, p.final);
        if q.final == REFAB {
          RefreshFindsAllClosed(rank, Dues(dev.future, r), dev.hist[r], dev.clk, dev.v.nRFC);
          assert false;
        } else {
          SameFlatIsSameBank(p.vec, q.vec, p.final, q.final);
          ActionSpares(rank.banks, q.command, dev.FlatBank(q.vec, q.final), q.vec[ROW], k);
        }
      }
    }

    /// Sends the chosen command to the device.
    method IssueToDevice(q: Request)
      requires AllProtected(active) && NextAndReady(q) && |q.vec| == NUM_LEVELS
      requires IsClosing(q.command) ==> !TouchesActive(q.vec)
      modifies dev`ranks, dev`future, dev`trace, dev`hist, dev.root.Repr
      ensures dev.Valid() && dev.HasRanks() && AllProtected(active)
      ensures dev.trace == old(dev.trace) + [Event(q.command, q.vec, dev.clk, dev.table)]
      ensures q.command == ACT && q.final != ACT ==> Protected(q)
      ensures q.command in {PRE, PREA, REFAB} ==> !TouchesActive(q.vec)
      ensures q.kind != CloseRow ==> dev.SameStrays(old(dev.hist))
    {
      hide Device.TimingOk, RankOk, PowerStep, Remember, Books, FutureOk, Counted, SameBank;
      dev.NoStray(q.command, q.vec, q.final);
      forall p | p in active
        ensures q.command in {PRE, PREA, REFAB} ==> !SameBank(p.vec, q.vec)
        ensures RowIsOpen(dev.ranks[q.vec[RANK] := dev.RankAfter(q.command, q.vec, q.final)], p.vec,
                          dev.FlatBank(p.vec, p.final))
      {
        IssueProtects(q, p);
      }
      dev.Issue(q.command, q.vec, q.final);
    }

    /// The buffers after the chosen command was issued: a finished request leaves (a read waits for its
    /// data), one whose row was just opened moves to the active buffer if there is room.
    method Retire(slot: Slot, index: nat, readLatency: int)
      requires dev.HasRanks() && index < |Buffer(slot)|
      requires AllProtected(active) && AllFinishing(active) && AllOk(priority) && AllOk(readBuf) && AllOk(writeBuf)
      requires var q := Buffer(slot)[index]; q.command == ACT && q.final != ACT ==> Protected(q)
      modifies this`active, this`priority, this`readBuf, this`writeBuf, this`pending
      ensures AllProtected(active) && AllOk(priority) && AllOk(readBuf) && AllOk(writeBuf)
      ensures forall p :: p in old(active) ==> p in active || p == old(Buffer(slot)[index])
      ensures var q := old(Buffer(slot)[index]);
              var done := q.command == q.final;
              var moved := q.command != q.final && q.command == ACT && |old(active)| <= BUFFER_SIZE;
              var served := if moved then old(active) + [q] else old(active);
              var leaves := done || moved;
              pending == (if done && q.kind == Read then old(pending) + [q.(depart := clk + readLatency)]
                          else old(pending)) &&
              active == (if leaves && slot == Active then Erased(served, index) else served) &&
              priority == (if leaves && slot == Priority then Erased(old(priority), index) else old(priority)) &&
              readBuf == (if leaves && slot == Reads then Erased(old(readBuf), index) else old(readBuf)) &&
              writeBuf == (if leaves && slot == Writes then Erased(old(writeBuf), index) else old(writeBuf))
      ensures var q := old(Buffer(slot)[index]);
              old(Waiting()) == if q.command == q.final then Waiting() + multiset{q.(command := 0)} else Waiting()
    {
      hide Plain;
      var q := Buffer(slot)[index];
      if q.command == q.final {
        if q.kind == Read {
          pending := pending + [q.(depart := clk + readLatency)];
        }
        Remove(slot, index);
      } else if q.command == ACT {
        var (active', ok) := Enqueue(active, q, BUFFER_SIZE);
        active := active';
        if ok {
          Remove(slot, index);
        }
      }
      ghost var moved := q.command != q.final && q.command == ACT && |old(active)| <= BUFFER_SIZE;
      RetiredWaiting(slot, index, old(active), old(priority), old(readBuf), old(writeBuf), q, moved,
                     q.command == q.final || moved, active, priority, readBuf, writeBuf);
    }

    /// What Retire leaves in the buffers, as a whole.
    static lemma {:induction false} RetiredWaiting(slot: Slot, index: nat, a0: seq<Request>, p0: seq<Request>,
                                                   r0: seq<Request>, w0: seq<Request>, q: Request, moved: bool,
                                                   leaves: bool, a: seq<Request>, p: seq<Request>, r: seq<Request>,
                                                   w: seq<Request>)
      requires var source := match slot case Active => a0 case Priority => p0 case Reads => r0 case Writes => w0;
               index < |source| && source[index] == q
      requires moved ==> leaves
      requires var served := if moved then a0 + [q] else a0;
               a == (if leaves && slot == Active then Erased(served, index) else served) &&
               p == (if leaves && slot == Priority then Erased(p0, index) else p0) &&
               r == (if leaves && slot == Reads then Erased(r0, index) else r0) &&
               w == (if leaves && slot == Writes then Erased(w0, index) else w0)
      ensures var before := multiset(Plain(a0)) + multiset(Plain(p0)) + multiset(Plain(r0)) + multiset(Plain(w0));
              var after := multiset(Plain(a)) + multiset(Plain(p)) + multiset(Plain(r)) + multiset(Plain(w));
              before == if leaves && !moved then after + multiset{q.(command := 0)} else after
    {
      hide Plain, Erased;
      var served := if moved then a0 + [q] else a0;
      if moved {
        PlainConcat(a0, [q]);
        PlainOne(q);
      }
      if leaves {
        match slot
        case Active => ErasedPlain(served, index);
        case Priority => ErasedPlain(p0, index);
        case Reads => ErasedPlain(r0, index);
        case Writes => ErasedPlain(w0, index);
      }
    }

    static lemma {:induction false} InAnyOrder(a: multiset<Request>, p: multiset<Request>, r: multiset<Request>,
                                               w: multiset<Request>, m: multiset<Request>)
      ensures a + (p + m) + r + w == a + p + r + w + m
    {
    }

    static lemma {:induction false} PlainOne(q: Request)
      ensures Plain([q]) == [q.(command := 0)]
    {
    }

    method Remove(slot: Slot, index: nat)
      requires index < |Buffer(slot)|
      modifies this`active, this`priority, this`readBuf, this`writeBuf
      ensures active == if slot == Active then Erased(old(active), index) else old(active)
      ensures priority == if slot == Priority then Erased(old(priority), index) else old(priority)
      ensures readBuf == if slot == Reads then Erased(old(readBuf), index) else old(readBuf)
      ensures writeBuf == if slot == Writes then Erased(old(writeBuf), index) else old(writeBuf)
    {
      match slot
      case Active => active := Erased(active, index);
      case Priority => priority := Erased(priority, index);
      case Reads => readBuf := Erased(readBuf, index);
      case Writes => writeBuf := Erased(writeBuf, index);
    }

    static function Erased(buffer: seq<Request>, index: nat): (r: seq<Request>)
      requires index < |buffer|
      ensures |r| == |buffer| - 1 && forall q :: q in r ==> q in buffer
      ensures forall q :: q in buffer && q != buffer[index] ==> q in r
    {
      buffer[..index] + buffer[index + 1..]
    }

    /// The event neither closes nor refreshes a bank that a request of the buffer uses.
    static ghost predicate Spares(e: Event, buffer: seq<Request>) {
      e.cmd in {PRE, PREA, REFAB} ==>
        forall p :: p in buffer && |p.vec| == |e.addr| == NUM_LEVELS ==> !SameBank(p.vec, e.addr)
    }

    static ghost predicate IsColumnAccessOf(e: Event, p: Request) {
      e.cmd == p.final && e.addr == p.vec
    }

    /// The reads that now wait for their data are those from before and at most one that the newest command read.
    static ghost predicate ReadBy(issued: seq<Event>, before: seq<Request>, after: seq<Request>) {
      after == before ||
      exists q: Request, e :: after == before + [q] && q.final == RD && e in issued && IsColumnAccessOf(e, q)
    }

    /// In every reachable state of the controller, every column access it issued found its own row open.
    lemma {:induction false} ServedFromOwnRow(k: nat)
      requires Valid() && k < |dev.trace| && dev.trace[k].cmd in {RD, WR}
      ensures exists j: nat :: OwnRowOpened(dev.trace, j, k)
    {
      hide Device.Valid;
      dev.ColumnFindsItsRow(k);
    }

    /// Issue the chosen command and update the buffers.
    method Serve(slot: Slot, index: nat, readLatency: int) returns (ghost e: Event)
      requires Valid() && AllFinishing(active) && index < |Buffer(slot)| && NextAndReady(Buffer(slot)[index])
      requires |Buffer(slot)[index].vec| == NUM_LEVELS
      requires IsClosing(Buffer(slot)[index].command) ==> !TouchesActive(Buffer(slot)[index].vec)
      modifies this`active, this`priority, this`readBuf, this`writeBuf, this`pending
      modifies dev`ranks, dev`future, dev`trace, dev`hist, dev.root.Repr
      ensures Valid() && dev.trace == old(dev.trace) + [e]
      ensures Spares(e, old(active))
      ensures forall p :: p in old(active) ==> p in active || IsColumnAccessOf(e, p)
      ensures ReadBy([e], old(pending), pending)
      ensures OnlyFinishedLeft([e], old(Waiting()), Waiting()) && |priority| <= |old(priority)|
      ensures old(NoneCloses()) ==> NoneCloses() && dev.SameStrays(old(dev.hist))
    {
      hide Device.Valid, Device.HasRanks, Ready, Next, Device.SameStrays, ReadBy, OnlyFinishedLeft, Waiting;
      hide RowIsOpen, Device.InRange, Translation;
      var q := Buffer(slot)[index];
      assert q in Buffer(slot);
      e := Event(q.command, q.vec, dev.clk, dev.table);
      IssueToDevice(q);
      RetireServed(slot, index, readLatency, e);
    }

    /// The buffers after the chosen command has gone out as event e.
    method RetireServed(slot: Slot, index: nat, readLatency: int, ghost e: Event)
      requires dev.HasRanks() && index < |Buffer(slot)|
      requires AllProtected(active) && AllFinishing(active) && AllOk(priority) && AllOk(readBuf) && AllOk(writeBuf)
      requires var q := Buffer(slot)[index];
               RequestOk(q) && e.cmd == q.command && e.addr == q.vec &&
               (q.command == ACT && q.final != ACT ==> Protected(q))
      modifies this`active, this`priority, this`readBuf, this`writeBuf, this`pending
      ensures AllProtected(active) && AllOk(priority) && AllOk(readBuf) && AllOk(writeBuf)
      ensures forall p :: p in old(active) ==> p in active || IsColumnAccessOf(e, p)
      ensures ReadBy([e], old(pending), pending)
      ensures OnlyFinishedLeft([e], old(Waiting()), Waiting()) && |priority| <= |old(priority)|
      ensures old(NoneCloses()) ==> NoneCloses()
    {
      hide Device.HasRanks, Device.InRange, ReadBy, OnlyFinishedLeft, Waiting, RowIsOpen, Translation;
      var q := Buffer(slot)[index];
      assert q in Buffer(slot);
      OneRead(e, q, pending, clk + readLatency);
      Retire(slot, index, readLatency);
      FinishedLeft(e, q, old(Waiting()), Waiting(), q.command == q.final);
    }

    static lemma {:induction false} FinishedLeft(e: Event, q: Request, before: multiset<Request>,
                                                 after: multiset<Request>, done: bool)
      requires e.cmd == q.command && e.addr == q.vec && (done ==> q.command == q.final)
      requires before == if done then after + multiset{q.(command := 0)} else after
      ensures OnlyFinishedLeft([e], before, after)
    {
      if done {
        var p := q.(command := 0);
        assert e in [e] && e.cmd == p.final && e.addr == p.vec && before == after + multiset{p};
      }
    }

    static lemma {:induction false} OneRead(e: Event, q: Request, before: seq<Request>, depart: int)
      requires e.cmd == q.command && e.addr == q.vec && q.final == Translation(q.kind)
      ensures ReadBy([e], before, before)
      ensures q.command == q.final && q.kind == Read ==> ReadBy([e], before, before + [q.(depart := depart)])
    {
      if q.command == q.final && q.kind == Read {
        assert e in [e] && IsColumnAccessOf(e, q.(depart := depart));
      }
    }

    /// One cycle of the memory system: the device's clock, then the controller.  `maintenance` is what the
    /// refresh manager sends, `plugins` what the row policy and the plugins send in this cycle.  No command
    /// that closes or refreshes a bank in use is issued, and a request being served leaves only by its own
    /// column access.
    method Tick(maintenance: seq<Request>, plugins: seq<Request>, readLatency: int)
      returns (served: seq<Request>, ghost issued: seq<Event>)
      requires Valid() && AllOk(maintenance) && AllOk(plugins)
      modifies this, dev`clk, dev`ranks, dev`future, dev`trace, dev`hist, dev.root.Repr
      ensures Valid() && clk == old(clk) + 1
      ensures dev.trace == old(dev.trace) + issued && |issued| <= 1
      ensures forall e :: e in issued ==> Spares(e, old(active))
      ensures forall p :: p in old(active) ==>
        Finishing(p) in active || exists e :: e in issued && IsColumnAccessOf(e, p)
      ensures issued == [] ==> NoneReady(active)
      ensures ReadBy(issued, old(pending), served + pending)
      ensures served == if old(pending) != [] && old(pending)[0].depart <= clk then old(pending)[..1] else []
      ensures var m := Room(|old(priority)|, maintenance);
              var n := Room(|old(priority)| + m, plugins);
              OnlyFinishedLeft(issued,
                               old(Waiting()) + multiset(Plain(maintenance[..m])) + multiset(Plain(plugins[..n])),
                               Waiting())
      ensures old(NoneCloses()) && NoCloseRow(maintenance) && NoCloseRow(plugins) ==>
        NoneCloses() && dev.SameStrays(old(dev.hist))
    {
      hide Device.Valid, Device.HasRanks, Device.InRange, Ready, Translation, RequestOk, RowIsOpen, WithCommand;
      hide NoneReady, NextAndReady, TouchesActive, IsClosing, NoCloseRow, Spares, ReadBy, Plain, OnlyFinishedLeft;
      served := AdvanceClock();
      PlainConcat(priority, maintenance[..Room(|priority|, maintenance)]);
      PrioritySendAll(maintenance);
      ghost var before, waiting, loads, stores := active, priority, readBuf, writeBuf;
      var found, slot, index := ScheduleRequest();
      SettleActive(before, active);
      SameCloses(before, active);
      SameCloses(waiting, priority);
      SameCloses(loads, readBuf);
      SameCloses(stores, writeBuf);
      SamePlain(before, active);
      SamePlain(waiting, priority);
      SamePlain(loads, readBuf);
      SamePlain(stores, writeBuf);
      ghost var waits := pending;
      InAnyOrder(multiset(Plain(before)), multiset(Plain(old(priority))), multiset(Plain(loads)),
                 multiset(Plain(stores)), multiset(Plain(maintenance[..Room(|old(priority)|, maintenance)])));
      issued := PluginsThenServe(plugins, found, slot, index, readLatency);
      ReadAfter(issued, served, waits, pending);
    }

    /// The plugins' requests go to the end of the priority buffer; then the chosen request is served.
    method PluginsThenServe(plugins: seq<Request>, found: bool, slot: Slot, index: nat, readLatency: int)
      returns (ghost issued: seq<Event>)
      requires Valid() && AllFinishing(active) && AllOk(plugins)
      requires found ==>
                 index < |Buffer(slot)| && NextAndReady(Buffer(slot)[index]) && |Buffer(slot)[index].vec| == NUM_LEVELS
      requires found && IsClosing(Buffer(slot)[index].command) ==> !TouchesActive(Buffer(slot)[index].vec)
      modifies this`active, this`priority, this`readBuf, this`writeBuf, this`pending
      modifies dev`ranks, dev`future, dev`trace, dev`hist, dev.root.Repr
      ensures Valid() && dev.trace == old(dev.trace) + issued && |issued| == if found then 1 else 0
      ensures forall e :: e in issued ==> Spares(e, old(active))
      ensures forall p :: p in old(active) ==> p in active || exists e :: e in issued && IsColumnAccessOf(e, p)
      ensures !found ==> active == old(active) && unchanged(dev) && unchanged(dev.root.Repr)
      ensures ReadBy(issued, old(pending), pending)
      ensures var accepted := plugins[..Room(|old(priority)|, plugins)];
              OnlyFinishedLeft(issued, old(Waiting()) + multiset(Plain(accepted)), Waiting())
      ensures old(NoneCloses()) && NoCloseRow(plugins) ==> NoneCloses() && dev.SameStrays(old(dev.hist))
    {
      hide Device.Valid, Device.HasRanks, Device.InRange, Ready, Translation, RequestOk, RowIsOpen, WithCommand;
      hide NoneReady, NextAndReady, TouchesActive, IsClosing, NoCloseRow, Spares;
      assert ReadBy([], pending, pending);
      hide ReadBy, Plain;
      ghost var q := if found then Buffer(slot)[index] else Request(0, [], Read, 0, 0, 0, 0);
      PlainConcat(priority, plugins[..Room(|priority|, plugins)]);
      PrioritySendAll(plugins);
      issued := [];
      if found {
        assert Buffer(slot)[index] == q;
        ghost var e := Serve(slot, index, readLatency);
        issued := [e];
        assert e in issued;
      }
    }

    static lemma {:induction false} ReadAfter(issued: seq<Event>, served: seq<Request>, before: seq<Request>,
                                              after: seq<Request>)
      requires ReadBy(issued, before, after)
      ensures ReadBy(issued, served + before, served + after)
    {
      if after != before {
        var q: Request, e :| after == before + [q] && q.final == RD && e in issued && IsColumnAccessOf(e, q);
        assert served + after == (served + before) + [q];
      }
    }

    static lemma {:induction false} SameCloses(before: seq<Request>, after: seq<Request>)
      requires SameRequests(before, after)
      ensures NoCloseRow(before) ==> NoCloseRow(after)
    {
      if NoCloseRow(before) {
        forall q | q in after ensures q.kind != CloseRow {
          var i :| 0 <= i < |after| && after[i] == q;
          assert before[i] in before;
        }
      }
    }

    static lemma {:induction false} SettleActive(before: seq<Request>, after: seq<Request>)
      requires SameRequests(before, after) && AllFinishing(after)
      ensures forall p :: p in before ==> Finishing(p) in after
      ensures forall e :: Spares(e, after) ==> Spares(e, before)
    {
      forall p | p in before ensures Finishing(p) in after {
        var i :| 0 <= i < |before| && before[i] == p;
        assert after[i] in after;
      }
    }

    /// The device's tick, then the read whose data has arrived is handed back.
    method AdvanceClock() returns (served: seq<Request>)
      requires Valid()
      modifies this`clk, this`pending, dev`clk, dev`ranks, dev`future, dev`hist
      ensures Valid() && clk == old(clk) + 1
      ensures served + pending == old(pending)
      ensures served == if old(pending) != [] && old(pending)[0].depart <= clk then old(pending)[..1] else []
      ensures dev.SameStrays(old(dev.hist))
    {
      hide Device.TimingOk, Device.Pending, Counted, Translation;
      dev.Tick();
      clk := clk + 1;
      served := [];
      if |pending| != 0 && pending[0].depart <= clk {
        served := [pending[0]];
        pending := pending[1..];
      }
    }

    method PrioritySend(req: Request) returns (ok: bool)
      requires dev.InRange(req.vec, Translation(req.kind)) && AllOk(priority)
      modifies this`priority
      ensures AllOk(priority) && ok == (|old(priority)| <= PRIORITY_SIZE)
      ensures priority == if ok then old(priority) + [req.(final := Translation(req.kind))] else old(priority)
    {
      var q := req.(final := Translation(req.kind));
      var (priority', ok') := Enqueue(priority, q, PRIORITY_SIZE);
      priority, ok := priority', ok';
    }

    method PrioritySendAll(reqs: seq<Request>)
      requires AllOk(reqs) && AllOk(priority)
      modifies this`priority
      ensures AllOk(priority) && priority == old(priority) + reqs[..Room(|old(priority)|, reqs)]
      ensures old(NoCloseRow(priority)) && NoCloseRow(reqs) ==> NoCloseRow(priority)
    {
      for i := 0 to |reqs|
        invariant AllOk(priority) && priority == old(priority) + reqs[..Room(|old(priority)|, reqs[..i])]
        invariant old(NoCloseRow(priority)) && NoCloseRow(reqs) ==> NoCloseRow(priority)
      {
        assert reqs[i] in reqs;
        assert reqs[i].(final := Translation(reqs[i].kind)) == reqs[i];
        var ok := PrioritySend(reqs[i]);
      }
      assert reqs[..|reqs|] == reqs;
    }

    static lemma {:induction false} GrowsWithoutClose(buffer: seq<Request>)
      ensures forall q: Request :: NoCloseRow(buffer) && q.kind != CloseRow ==> NoCloseRow(buffer + [q])
    {
    }

    /// Reads that hit a queued write are answered from it; other requests queue up; anything else is an error.
    method Send(req: Request) returns (r: Outcome)
      requires Valid() && dev.InRange(req.vec, Translation(req.kind))
      modifies this`readBuf, this`writeBuf, this`pending
      ensures Valid()
      ensures r == InvalidType <==> req.kind !in {Read, Write}
      ensures r == Forwarded <==> req.kind == Read && exists w :: w in writeBuf && w.addr == req.addr
      ensures r == Accepted <==> (req.kind == Read && r != Forwarded && |old(readBuf)| <= BUFFER_SIZE) ||
                                 (req.kind == Write && |old(writeBuf)| <= BUFFER_SIZE)
      ensures old(NoneCloses()) ==> NoneCloses()
      ensures var q := req.(final := Translation(req.kind));
        readBuf == (if r == Accepted && req.kind == Read then old(readBuf) + [q.(arrive := clk)] else old(readBuf)) &&
        writeBuf == (if r == Accepted && req.kind == Write then old(writeBuf) + [q.(arrive := clk)]
                     else old(writeBuf)) &&
        pending == (if r == Forwarded then old(pending) + [q.(depart := clk + 1)] else old(pending))
    {
      hide Device.Valid, Device.HasRanks, Device.InRange, RowIsOpen, Translation, NoCloseRow;
      GrowsWithoutClose(readBuf);
      GrowsWithoutClose(writeBuf);
      var q := req.(final := Translation(req.kind));
      if q.kind == Read {
        for i := 0 to |writeBuf|
          invariant forall k :: 0 <= k < i ==> writeBuf[k].addr != q.addr
        {
          if writeBuf[i].addr == q.addr {
            assert writeBuf[i] in writeBuf;
            pending := pending + [q.(depart := clk + 1)];
            return Forwarded;
          }
        }
      }
      q := q.(arrive := clk);
      if q.kind == Read {
        var (buffer, ok) := Enqueue(readBuf, q, BUFFER_SIZE);
        readBuf := buffer;
        return if ok then Accepted else Full;
      } else if q.kind == Write {
        var (buffer, ok) := Enqueue(writeBuf, q, BUFFER_SIZE);
        writeBuf := buffer;
        return if ok then Accepted else Full;
      }
      return InvalidType;
    }

    lemma {:induction false} SameFlatIsSameBank(a: seq<int>, b: seq<int>, f: nat, g: nat)
      requires dev.InRange(a, f) && dev.InRange(b, g) && f != REFAB && g != REFAB && a[RANK] == b[RANK]
      ensures dev.FlatBank(a, f) == dev.FlatBank(b, g) <==> SameBank(a, b)
    {
      if dev.FlatBank(a, f) == dev.FlatBank(b, g) {
        Bits.DigitUnique(a[BANKGROUP], a[BANK], b[BANKGROUP], b[BANK], dev.org.banks);
      }
    }
  }

  lemma {:induction false} RefreshFindsAllClosed(r: Rank, dues: seq<int>, h: History, clk: int, nRFC: int)
    requires RankOk(r, dues, h, clk, nRFC)
    ensures RequireAllBanksClosed(r.banks, REFAB) == if AnyOpen(r.banks) then PREA else REFAB
  {
    AllClosedDecides(r.banks, REFAB);
  }
}
