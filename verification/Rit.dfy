/** The row indirection table (src/addr_mapper/impl/rit.cpp): per bank, a map of swapped rows that the address
    mapper consults on every request.  */
module Rit {
  import opened FlatBanks
  import opened Options

  datatype Entry = Entry(dst: int, locked: bool)

  type Table = map<int, Entry>

  // ---------- the table of one bank ----------

  /// Where the contents of a row are.
  function Where(t: Table, row: int): int {
    if row in t then t[row].dst else row
  }

  /// Rows are swapped in pairs, each pair locked or not as one, and no row with itself.
  ghost predicate IsPairing(t: Table, rows: int) {
    forall r :: r in t ==>
      0 <= r < rows && t[r].dst != r && t[r].dst in t && t[t[r].dst] == Entry(r, t[r].locked)
  }

  function Insert(t: Table, a: int, b: int): Table {
    t[a := Entry(b, true)][b := Entry(a, true)]
  }

  function Remove(t: Table, a: int, b: int): Table {
    t - {a, b}
  }

  function Unlocked(t: Table): Table {
    map r | r in t :: t[r].(locked := false)
  }

  /// A table of pairs is its own inverse: no two rows end up in the same place, and none is lost.
  lemma {:induction false} PairingIsPermutation(t: Table, rows: int, a: int, b: int)
    requires IsPairing(t, rows)
    ensures Where(t, Where(t, a)) == a
    ensures 0 <= a < rows ==> 0 <= Where(t, a) < rows
    ensures Where(t, a) == Where(t, b) <==> a == b
  {
  }

  /// In a table of pairs the row whose partner is `row` is the partner of `row`.
  lemma {:induction false} PartnersAgree(t: Table, rows: int, row: int, dst: int)
    requires IsPairing(t, rows)
    ensures dst in t && t[dst].dst == row <==> row in t && t[row].dst == dst
    ensures row in t ==> 0 <= t[row].dst < rows
  {
  }

  lemma {:induction false} InsertKeeps(t: Table, rows: int, a: int, b: int)
    requires IsPairing(t, rows) && a !in t && b !in t && a != b && 0 <= a < rows && 0 <= b < rows
    ensures IsPairing(Insert(t, a, b), rows) && |Insert(t, a, b)| == |t| + 2
  {
    var t' := Insert(t, a, b);
    assert t'.Keys == t.Keys + {a, b};
    assert |t'.Keys| == |t.Keys| + 2;
    forall r | r in t'
      ensures 0 <= r < rows && t'[r].dst != r && t'[r].dst in t' && t'[t'[r].dst] == Entry(r, t'[r].locked)
    {
      assert r in t ==> t[r].dst != a && t[r].dst != b;
    }
  }

  lemma {:induction false} RemoveKeeps(t: Table, rows: int, a: int)
    requires IsPairing(t, rows) && a in t
    ensures IsPairing(Remove(t, a, t[a].dst), rows) && |Remove(t, a, t[a].dst)| == |t| - 2
  {
    assert Remove(t, a, t[a].dst).Keys == t.Keys - {a, t[a].dst};
  }

  lemma {:induction false} PairingIsEven(t: Table, rows: int)
    requires IsPairing(t, rows)
    ensures |t| % 2 == 0
    decreases |t|
  {
    assert (forall a :: a !in t) ==> t.Keys == {} && |t| == |t.Keys|;
    if a :| a in t {
      RemoveKeeps(t, rows, a);
      PairingIsEven(Remove(t, a, t[a].dst), rows);
    }
  }

  lemma {:induction false} UnlockKeeps(t: Table, rows: int)
    requires IsPairing(t, rows)
    ensures IsPairing(Unlocked(t), rows) && |Unlocked(t)| == |t|
    ensures forall r :: Where(Unlocked(t), r) == Where(t, r)
  {
    assert Unlocked(t).Keys == t.Keys;
  }

  // ---------- the tables of all banks ----------

  class RowIndirectionTable {
    const capacity: nat

    var table: seq<Table>

    ghost predicate Valid(rows: int)
      reads this
    {
      forall t :: t in table ==> IsPairing(t, rows) && |t| <= capacity
    }

    constructor (numBanks: nat, capacity: nat)
      ensures forall rows :: Valid(rows)
      ensures this.capacity == capacity && table == seq(numBanks, _ => map[])
    {
      this.capacity := capacity;
      this.table := seq(numBanks, _ => map[]);
    }

    /// In a table of pairs: -1 exactly for a row that is not swapped; otherwise another row of the bank, whose
    /// partner is this row.
    method Check(b: nat, row: int, ghost rows: int) returns (dst: int)
      requires b < |table|
      ensures row !in table[b] ==> dst == -1
      ensures IsPairing(table[b], rows) ==> (dst == -1 <==> row !in table[b])
      ensures IsPairing(table[b], rows) && dst != -1 ==>
        0 <= dst < rows && dst != row && dst in table[b] && table[b][dst].dst == row
    {
      dst := -1;
      if row in table[b] {
        dst := table[b][row].dst;
      }
    }

    method InsertEntry(b: nat, a: int, c: int) returns (ok: bool)
      requires b < |table|
      modifies this
      ensures table == old(table)[b := Insert(old(table)[b], a, c)]
      ensures ok <==> |table[b]| <= capacity
    {
      table := table[b := table[b][a := Entry(c, true)]];
      table := table[b := table[b][c := Entry(a, true)]];
      ok := |table[b]| <= capacity;
    }

    method RemoveEntry(b: nat, a: int, c: int)
      requires b < |table|
      modifies this
      ensures table == old(table)[b := Remove(old(table)[b], a, c)]
    {
      table := table[b := table[b] - {a}];
      table := table[b := table[b] - {c}];
      assert table[b] == Remove(old(table)[b], a, c);
    }

    /// At the end of an epoch every entry of every bank is unlocked.
    method Unlock()
      modifies this
      ensures |table| == |old(table)| && forall b :: 0 <= b < |table| ==> table[b] == Unlocked(old(table)[b])
    {
      for b := 0 to |table|
        invariant |table| == |old(table)|
        invariant forall c :: 0 <= c < |table| ==> table[c] == if c < b then Unlocked(old(table)[c]) else old(table)[c]
      {
        var t := UnlockBank(table[b]);
        table := table[b := t];
      }
    }

    static method UnlockBank(bank: Table) returns (t: Table)
      ensures t == Unlocked(bank)
    {
      t := bank;
      var rest := bank.Keys;
      while exists r :: r in rest
        invariant rest <= bank.Keys == t.Keys
        invariant forall r :: r in bank ==> t[r] == if r in rest then bank[r] else bank[r].(locked := false)
        decreases rest
      {
        var r :| r in rest;
        t := t[r := t[r].(locked := false)];
        rest := rest - {r};
      }
      assert forall r :: r in bank ==> r !in rest && t[r] == bank[r].(locked := false);
      assert t.Keys == Unlocked(bank).Keys;
    }

    /// An unlocked pair that does not touch the excluded rows; the order of the scan is the hash map's.
    method GetUnswapPair(b: nat, excluded: set<int>) returns (pair: Option<(int, int)>)
      requires b < |table|
      ensures pair.None? <==> forall r :: r in table[b] ==> !Unswappable(table[b], excluded, r)
      ensures pair.Some? ==>
        var (a, c) := pair.value; a in table[b] && Unswappable(table[b], excluded, a) && c == table[b][a].dst
    {
      var rest := table[b].Keys;
      while exists r :: r in rest
        invariant rest <= table[b].Keys
        invariant forall r :: r in table[b] && r !in rest ==> !Unswappable(table[b], excluded, r)
        decreases rest
      {
        var r :| r in rest;
        if !table[b][r].locked && r !in excluded && table[b][r].dst !in excluded {
          return Some((r, table[b][r].dst));
        }
        rest := rest - {r};
      }
      pair := None;
    }

    /// The mapper's last step: the row of a request becomes the row that holds its contents.
    method ApplyIndirection(addr: seq<int>, geometry: Geometry, ghost rows: int) returns (out: seq<int>)
      requires geometry.Names(addr) && |table| == geometry.NumBanks()
      requires Valid(rows)
      ensures out == addr[geometry.rowLevel := Where(table[geometry.BankOf(addr)], addr[geometry.rowLevel])]
    {
      var flat := FlatBankId(addr, geometry.count, geometry.rankLevel, geometry.bankLevel);
      assert flat == geometry.BankOf(addr);
      var src := addr[geometry.rowLevel];
      var dst := Check(flat, src, rows);
      out := addr;
      assert table[flat] in table;
      if dst != -1 {
        out := out[geometry.rowLevel := dst];
      }
    }

    /// Two requests that name different rows of the device still do after the indirection, and one that
    /// names an existing row still does.
    lemma {:induction false} NeverAliases(a: seq<int>, b: seq<int>, geometry: Geometry, rows: int)
      requires geometry.Names(a) && geometry.Names(b) && |table| == geometry.NumBanks() && Valid(rows) && |a| == |b|
      requires 0 <= a[geometry.rowLevel] < rows
      ensures var r := geometry.rowLevel;
              var a' := a[r := Where(table[geometry.BankOf(a)], a[r])];
              var b' := b[r := Where(table[geometry.BankOf(b)], b[r])];
              (a' == b' <==> a == b) && 0 <= a'[r] < rows
    {
      var r := geometry.rowLevel;
      var a' := a[r := Where(table[geometry.BankOf(a)], a[r])];
      var b' := b[r := Where(table[geometry.BankOf(b)], b[r])];
      PairingIsPermutation(table[geometry.BankOf(a)], rows, a[r], b[r]);
      if a' == b' {
        assert forall i :: 0 <= i < |a| && i != r ==> a[i] == a'[i] == b'[i] == b[i];
        FlatIsInjective(a, b, geometry.count, geometry.rankLevel, geometry.bankLevel);
        assert a == b;
      }
    }
  }

  ghost predicate Unswappable(t: Table, excluded: set<int>, r: int) {
    r in t && !t[r].locked && r !in excluded && t[r].dst !in excluded
  }
}
