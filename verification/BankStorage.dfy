/** The storage behind the functional data path (src/dram_controller/impl/bank_storage.h): a column of 16 values
    under a key packed from its address.  */
module BankStorage {
  import opened Bits

  const FP16_PER_COLUMN: nat := 16

  /// An address with every field cut to its width: 8 bits for channel, pseudochannel, bank group and bank,
  /// 16 for row and column.
  function Key(channel: int, pch: int, bg: int, bank: int, row: int, col: int): nat {
    var k0 := Or(0, Shl(LowBits(channel, 8), 56));
    var k1 := Or(k0, Shl(LowBits(pch, 8), 48));
    var k2 := Or(k1, Shl(LowBits(bg, 8), 40));
    var k3 := Or(k2, Shl(LowBits(bank, 8), 32));
    var k4 := Or(k3, Shl(LowBits(row, 16), 16));
    Or(k4, LowBits(col, 16))
  }

  ghost function Append(above: nat, f: nat, width: nat): nat { above * Pow2(width) + f }

  ghost function Number(channel: int, pch: int, bg: int, bank: int, row: int, col: int): nat {
    var banks := Append(Append(Append(LowBits(channel, 8), LowBits(pch, 8), 8), LowBits(bg, 8), 8), LowBits(bank, 8),
                        8);
    Append(Append(banks, LowBits(row, 16), 16), LowBits(col, 16), 16)
  }

  /// One field more in a key: the fields above it stay where they are.
  lemma {:induction false} PackField(above: nat, f: nat, n: nat, width: nat)
    requires f < Pow2(width)
    ensures Or(Shl(above, n + width), Shl(f, n)) == Shl(Append(above, f, width), n)
  {
    Pow2Add(width, n);
    DigitRange(f, Pow2(width), 0, Pow2(n));
    OrDisjoint(above, Shl(f, n), n + width);
    Reassociate(above, Pow2(width), f, Pow2(n));
  }

  lemma {:induction false} ShlNothing(x: nat)
    ensures Shl(x, 0) == x && Or(0, x) == x
  {
    OrZero(x);
  }

  lemma {:induction false} KeyIsNumber(channel: int, pch: int, bg: int, bank: int, row: int, col: int)
    ensures Key(channel, pch, bg, bank, row, col) == Number(channel, pch, bg, bank, row, col)
  {
    hide Pow2, Or, Shl, Append, LowBits;
    var c, p, g, b, r, l := LowBits(channel, 8), LowBits(pch, 8), LowBits(bg, 8), LowBits(bank, 8), LowBits(row, 16),
                            LowBits(col, 16);
    var pk := Append(c, p, 8);
    var gk := Append(pk, g, 8);
    var bk := Append(gk, b, 8);
    var rk := Append(bk, r, 16);
    ShlNothing(Shl(c, 56));
    PackField(c, p, 48, 8);
    PackField(pk, g, 40, 8);
    PackField(gk, b, 32, 8);
    PackField(bk, r, 16, 16);
    PackField(rk, l, 0, 16);
    ShlNothing(l);
    ShlNothing(Append(rk, l, 16));
  }

  /// Two addresses share a key if and only if they agree in every field, cut to its width.
  lemma {:induction false} KeysAgree(channel: int, pch: int, bg: int, bank: int, row: int, col: int,
                                     channel': int, pch': int, bg': int, bank': int, row': int, col': int)
    ensures Key(channel, pch, bg, bank, row, col) == Key(channel', pch', bg', bank', row', col') <==>
            LowBits(channel, 8) == LowBits(channel', 8) && LowBits(pch, 8) == LowBits(pch', 8) &&
            LowBits(bg, 8) == LowBits(bg', 8) &&
            LowBits(bank, 8) == LowBits(bank', 8) && LowBits(row, 16) == LowBits(row', 16) &&
            LowBits(col, 16) == LowBits(col', 16)
  {
    hide Pow2, Key;
    KeyIsNumber(channel, pch, bg, bank, row, col);
    KeyIsNumber(channel', pch', bg', bank', row', col');
    var p0, p1 := Append(LowBits(channel, 8), LowBits(pch, 8), 8), Append(LowBits(channel', 8), LowBits(pch', 8), 8);
    var g0, g1 := Append(p0, LowBits(bg, 8), 8), Append(p1, LowBits(bg', 8), 8);
    var b0, b1 := Append(g0, LowBits(bank, 8), 8), Append(g1, LowBits(bank', 8), 8);
    var r0, r1 := Append(b0, LowBits(row, 16), 16), Append(b1, LowBits(row', 16), 16);
    DigitUnique(r0, LowBits(col, 16), r1, LowBits(col', 16), Pow2(16));
    DigitUnique(b0, LowBits(row, 16), b1, LowBits(row', 16), Pow2(16));
    DigitUnique(g0, LowBits(bank, 8), g1, LowBits(bank', 8), Pow2(8));
    DigitUnique(p0, LowBits(bg, 8), p1, LowBits(bg', 8), Pow2(8));
    DigitUnique(LowBits(channel, 8), LowBits(pch, 8), LowBits(channel', 8), LowBits(pch', 8), Pow2(8));
  }

  // ---------- the storage ----------

  datatype Cell = Cell(row: int, col: int)

  function CellOf(row: int, col: int): Cell { Cell(LowBits(row, 16), LowBits(col, 16)) }

  /// The first bank of a channel, cell by cell: cells never written read as zeros.
  type Image<!H> = map<Cell, seq<H>>

  function Read<H>(m: Image<H>, cell: Cell, zero: H): seq<H> {
    if cell in m then m[cell] else seq(FP16_PER_COLUMN, _ => zero)
  }

  /// Exactly one column: cut off, or filled up with zeros.
  function Resized<H>(data: seq<H>, zero: H): (r: seq<H>)
    ensures |r| == FP16_PER_COLUMN && (|data| == FP16_PER_COLUMN ==> r == data)
  {
    if |data| >= FP16_PER_COLUMN then data[..FP16_PER_COLUMN]
    else data + seq(FP16_PER_COLUMN - |data|, _ => zero)
  }

  /// What bank (0, 0, 0) of a channel holds.
  ghost predicate IsImage<H>(storage: map<nat, seq<H>>, channel: int, m: Image<H>, zero: H) {
    (forall cell :: cell in m ==> |m[cell]| == FP16_PER_COLUMN) &&
    forall row: int, col: int ::
      var k := Key(channel, 0, 0, 0, row, col);
      if k in storage then storage[k] == Read(m, CellOf(row, col), zero) else CellOf(row, col) !in m
  }

  /// A write to the first bank changes the image at its cell.
  lemma {:induction false} FirstWrite<H>(storage: map<nat, seq<H>>, channel: int, m: Image<H>, zero: H, row: int,
                                         col: int, data: seq<H>)
    requires IsImage(storage, channel, m, zero) && |data| == FP16_PER_COLUMN
    ensures IsImage(storage[Key(channel, 0, 0, 0, row, col) := data], channel, m[CellOf(row, col) := data], zero)
  {
    hide Key, LowBits;
    forall r: int, c: int
      ensures Key(channel, 0, 0, 0, r, c) == Key(channel, 0, 0, 0, row, col) <==> CellOf(r, c) == CellOf(row, col)
    {
      KeysAgree(channel, 0, 0, 0, r, c, channel, 0, 0, 0, row, col);
    }
  }

  /// Writing the same column to other banks does not disturb it, even where 8 bits cannot tell the banks apart.
  lemma {:induction false} LaterWrite<H>(storage: map<nat, seq<H>>, channel: int, m: Image<H>, zero: H,
                                         pch: int, bg: int, bank: int, row: int, col: int, data: seq<H>)
    requires IsImage(storage, channel, m, zero) && CellOf(row, col) in m && m[CellOf(row, col)] == data
    ensures IsImage(storage[Key(channel, pch, bg, bank, row, col) := data], channel, m, zero)
  {
    hide Key, LowBits;
    forall r: int, c: int
      ensures Key(channel, 0, 0, 0, r, c) == Key(channel, pch, bg, bank, row, col) ==> CellOf(r, c) == CellOf(row, col)
    {
      KeysAgree(channel, 0, 0, 0, r, c, channel, pch, bg, bank, row, col);
    }
  }

  class BankStorage<H> {
    const zero: H
    var storage: map<nat, seq<H>>

    constructor (zero: H)
      ensures this.zero == zero && storage == map[]
      ensures forall channel :: Holds(channel, map[])
    {
      this.zero, this.storage := zero, map[];
    }

    ghost predicate Holds(channel: int, m: Image<H>)
      reads this
    {
      IsImage(storage, channel, m, zero)
    }

    /// One column is stored, cut off or filled up with zeros; every other key keeps its column.
    method WriteCol(channel: int, pch: int, bg: int, bank: int, row: int, col: int, data: seq<H>)
      modifies this
      ensures var k := Key(channel, pch, bg, bank, row, col);
              storage.Keys == old(storage).Keys + {k} &&
              (forall other :: other in old(storage) && other != k ==> storage[other] == old(storage)[other]) &&
              |storage[k]| == FP16_PER_COLUMN &&
              forall i :: 0 <= i < FP16_PER_COLUMN ==> storage[k][i] == if i < |data| then data[i] else zero
    {
      storage := storage[Key(channel, pch, bg, bank, row, col) := Resized(data, zero)];
    }

    /// Reading a column that was never written stores the zeros it returns.
    method ReadCol(channel: int, row: int, col: int, ghost m: Image<H>) returns (data: seq<H>)
      requires Holds(channel, m)
      modifies this
      ensures Holds(channel, m) && data == Read(m, CellOf(row, col), zero) && |data| == FP16_PER_COLUMN
    {
      hide Key, LowBits;
      var k := Key(channel, 0, 0, 0, row, col);
      if k !in storage {
        storage := storage[k := seq(FP16_PER_COLUMN, _ => zero)];
        forall r: int, c: int ensures
          var k' := Key(channel, 0, 0, 0, r, c);
          if k' in storage then storage[k'] == Read(m, CellOf(r, c), zero) else CellOf(r, c) !in m
        {
          KeysAgree(channel, 0, 0, 0, r, c, channel, 0, 0, 0, row, col);
        }
      }
      data := storage[k];
    }
  }
}
