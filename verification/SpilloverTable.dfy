/** What the Graphene and the row-swap trackers share: a table of counts beside a spillover value, in which an entry
    at the spillover value makes room for a new row.  */
module SpilloverTable {
  import opened Options

  ghost predicate Evictable(table: map<int, int>, spill: int, victim: int) {
    victim in table && table[victim] == spill
  }

  /// The scan for an entry at the spillover value; the order of the scan is the hash map's.
  method FindSpilled(table: map<int, int>, spill: int) returns (victim: Option<int>)
    ensures victim.Some? <==> exists key :: Evictable(table, spill, key)
    ensures victim.Some? ==> Evictable(table, spill, victim.value)
  {
    var rest := table.Keys;
    while exists key :: key in rest
      invariant rest <= table.Keys
      invariant forall key :: key in table && key !in rest ==> !Evictable(table, spill, key)
      decreases rest
    {
      var key :| key in rest;
      if table[key] == spill {
        assert Evictable(table, spill, key);
        return Some(key);
      }
      rest := rest - {key};
    }
    victim := None;
  }

  // ---------- the sum of the counts ----------

  ghost function Sum(m: map<int, int>): int {
    if !(exists k :: k in m) then 0
    else
      var k :| k in m;
      m[k] + Sum(m - {k})
  }

  lemma {:induction false} SomeKey(m: map<int, int>)
    requires |m| > 0
    ensures exists k :: k in m
  {
    assert (forall k :: k !in m) ==> m.Keys == {};
  }

  lemma {:induction false} SumRemove(m: map<int, int>, k: int)
    requires k in m
    ensures Sum(m) == m[k] + Sum(m - {k})
  {
    var j :| j in m && Sum(m) == m[j] + Sum(m - {j});
    if j != k {
      SumRemove(m - {j}, k);
      SumRemove(m - {k}, j);
      assert m - {j} - {k} == m - {k} - {j};
    }
  }

  /// Replacing one entry by another changes the sum by the difference.
  lemma {:induction false} SumReplace(m: map<int, int>, oldKey: int, newKey: int, v: int)
    requires oldKey in m && (newKey == oldKey || newKey !in m)
    ensures Sum((m - {oldKey})[newKey := v]) == Sum(m) - m[oldKey] + v
    ensures |(m - {oldKey})[newKey := v]| == |m|
  {
    var m' := (m - {oldKey})[newKey := v];
    SumRemove(m, oldKey);
    SumRemove(m', newKey);
    assert m' - {newKey} == m - {oldKey};
    assert m.Keys == (m - {oldKey}).Keys + {oldKey};
    assert m'.Keys == (m - {oldKey}).Keys + {newKey};
  }

  lemma {:induction false} SumAtLeast(m: map<int, int>, s: int, n: nat)
    requires |m| == n && forall k :: k in m ==> m[k] >= s
    ensures Sum(m) >= s * n
    decreases n
  {
    if n > 0 {
      SomeKey(m);
      var j :| j in m && Sum(m) == m[j] + Sum(m - {j});
      assert m.Keys == (m - {j}).Keys + {j};
      SumAtLeast(m - {j}, s, n - 1);
      MulStep(s, n);
    }
  }

  /// With one entry known exactly.
  lemma {:induction false} SumAtLeastWith(m: map<int, int>, s: int, n: nat, k: int)
    requires |m| == n && k in m && forall k :: k in m ==> m[k] >= s
    ensures n > 0 && Sum(m) >= s * (n - 1) + m[k]
  {
    SumRemove(m, k);
    assert m.Keys == (m - {k}).Keys + {k};
    SumAtLeast(m - {k}, s, n - 1);
  }

  lemma {:induction false} MulStep(s: int, n: nat)
    requires n > 0
    ensures s * n == s * (n - 1) + s
  {
  }

  /// A new entry adds its count.
  lemma {:induction false} SumInsert(m: map<int, int>, key: int, v: int)
    requires key !in m
    ensures Sum(m[key := v]) == Sum(m) + v
    ensures |m[key := v]| == |m| + 1
  {
    var m' := m[key := v];
    SumRemove(m', key);
    assert m' - {key} == m;
    assert m'.Keys == m.Keys + {key};
  }

  lemma {:induction false} SumOfZeros(table: map<int, int>)
    requires forall k :: k in table ==> table[k] == 0
    ensures Sum(table) == 0
    decreases |table|
  {
    if exists k :: k in table {
      var j :| j in table && Sum(table) == table[j] + Sum(table - {j});
      assert table.Keys == (table - {j}).Keys + {j};
      SumOfZeros(table - {j});
    }
  }

  /// The first k rows.
  ghost function Below(k: nat): (s: set<int>)
    ensures forall i :: i in s <==> 0 <= i < k
  {
    if k == 0 then {} else Below(k - 1) + {k - 1}
  }

  lemma {:induction false} BelowSize(k: nat)
    ensures |Below(k)| == k
  {
    if k > 0 {
      BelowSize(k - 1);
    }
  }
}
