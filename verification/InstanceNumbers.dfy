/** The instance numbers of the manifests table: inserting with the current count and closing
    the gap after a deletion keep them 0..n-1 for every name. */
module InstanceNumbers {
  import opened CriteriaDatabase
  import opened PublishManifest

  function Count(rows: seq<Row>, name: string): nat {
    if rows == [] then 0 else Count(rows[..|rows| - 1], name) + if rows[|rows| - 1].name == name then 1 else 0
  }

  ghost function Instances(rows: seq<Row>, name: string): set<int> {
    set i | 0 <= i < |rows| && rows[i].name == name :: rows[i].inst
  }

  ghost predicate Numbered(s: set<int>, n: int) {
    forall k :: k in s <==> 0 <= k < n
  }

  /** The instances of every name are numbered 0..n-1, each number once. */
  ghost predicate Contiguous(rows: seq<Row>) {
    && UniqueKeys(rows)
    && forall name :: Numbered(Instances(rows, name), Count(rows, name))
  }

  /** The WHERE clause of a DELETE. */
  datatype Selection = WholeName(name: string) | Single(name: string, inst: int) {
    predicate Covers(r: Row) {
      r.name == name && (Single? ==> r.inst == inst)
    }
  }

  function Remove(rows: seq<Row>, gone: Selection): seq<Row> {
    if rows == [] then []
    else Remove(rows[..|rows| - 1], gone) + if gone.Covers(rows[|rows| - 1]) then [] else [rows[|rows| - 1]]
  }

  /** UPDATE manifests SET instance = to WHERE name = .. AND instance = from */
  function Renumber(rows: seq<Row>, name: string, from: int, to: int): (r: seq<Row>)
    ensures |r| == |rows|
  {
    seq(|rows|, i requires 0 <= i < |rows| =>
      if rows[i].name == name && rows[i].inst == from then rows[i].(inst := to) else rows[i])
  }

  /** Instances of name above k move down by one. */
  function Close(rows: seq<Row>, name: string, k: int, below: int): (r: seq<Row>)
    ensures |r| == |rows|
  {
    seq(|rows|, i requires 0 <= i < |rows| =>
      if rows[i].name == name && k < rows[i].inst < below then rows[i].(inst := rows[i].inst - 1) else rows[i])
  }

  lemma {:induction false} RemoveMembers(rows: seq<Row>, gone: Selection)
    ensures forall r :: r in Remove(rows, gone) <==> r in rows && !gone.Covers(r)
  {
    if rows != [] {
      var n := |rows| - 1;
      RemoveMembers(rows[..n], gone);
      assert rows == rows[..n] + [rows[n]];
    }
  }

  lemma {:induction false} RemoveKeepsUniqueKeys(rows: seq<Row>, gone: Selection)
    requires UniqueKeys(rows)
    ensures UniqueKeys(Remove(rows, gone))
  {
    if rows != [] {
      var n := |rows| - 1;
      RemoveKeepsUniqueKeys(rows[..n], gone);
      RemoveMembers(rows[..n], gone);
      var kept := Remove(rows[..n], gone);
      forall i | 0 <= i < |kept|
        ensures (kept[i].name, kept[i].inst) != (rows[n].name, rows[n].inst)
      {
        assert kept[i] in rows[..n];
        var j :| 0 <= j < n && rows[j] == kept[i];
      }
    }
  }

  lemma {:induction false} RemoveCount(rows: seq<Row>, gone: Selection, name: string)
    requires forall r | r in rows && gone.Covers(r) :: r.name != name
    ensures Count(Remove(rows, gone), name) == Count(rows, name)
  {
    if rows != [] {
      var n := |rows| - 1;
      RemoveCount(rows[..n], gone, name);
      var kept := Remove(rows[..n], gone);
      assert (kept + [rows[n]])[..|kept|] == kept;
      assert kept + [] == kept;
    }
  }

  lemma {:induction false} NothingRemoved(rows: seq<Row>, gone: Selection)
    requires forall r | r in rows :: !gone.Covers(r)
    ensures Remove(rows, gone) == rows
  {
    if rows != [] {
      var n := |rows| - 1;
      NothingRemoved(rows[..n], gone);
      assert rows[n] in rows;
    }
  }

  lemma {:induction false} RemoveOneCount(rows: seq<Row>, name: string, k: int)
    requires UniqueKeys(rows)
    ensures Count(Remove(rows, Single(name, k)), name) == Count(rows, name) - (if k in Instances(rows, name) then 1 else 0)
  {
    if rows != [] {
      var n, gone := |rows| - 1, Single(name, k);
      var kept := Remove(rows[..n], gone);
      assert (kept + [rows[n]])[..|kept|] == kept;
      assert kept + [] == kept;
      if gone.Covers(rows[n]) {
        forall r | r in rows[..n]
          ensures !gone.Covers(r)
        {
          var j :| 0 <= j < n && rows[j] == r;
        }
        NothingRemoved(rows[..n], gone);
        assert k in Instances(rows, name) by { assert rows[n].inst == k; }
      } else {
        RemoveOneCount(rows[..n], name, k);
        assert k in Instances(rows, name) <==> k in Instances(rows[..n], name);
      }
    }
  }

  lemma {:induction false} AllRemoved(rows: seq<Row>, name: string)
    ensures Count(Remove(rows, WholeName(name)), name) == 0
  {
    if rows != [] {
      AllRemoved(rows[..|rows| - 1], name);
      var kept := Remove(rows[..|rows| - 1], WholeName(name));
      assert (kept + [rows[|rows| - 1]])[..|kept|] == kept;
      assert kept + [] == kept;
    }
  }

  lemma {:induction false} SameNamesSameCount(rows: seq<Row>, rows': seq<Row>, name: string)
    requires |rows| == |rows'| && forall i | 0 <= i < |rows| :: rows[i].name == rows'[i].name
    ensures Count(rows, name) == Count(rows', name)
  {
    if rows != [] {
      SameNamesSameCount(rows[..|rows| - 1], rows'[..|rows| - 1], name);
    }
  }

  lemma InstanceOf(rows: seq<Row>, i: nat)
    requires Contiguous(rows) && i < |rows|
    ensures 0 <= rows[i].inst < Count(rows, rows[i].name)
  {
    assert rows[i].inst in Instances(rows, rows[i].name);
  }

  /** INSERT with the number of existing instances keeps the numbering. */
  lemma InsertContiguous(rows: seq<Row>, row: Row)
    requires Contiguous(rows) && row.inst == Count(rows, row.name)
    ensures Contiguous(rows + [row])
  {
    var rows' := rows + [row];
    assert rows'[..|rows|] == rows;
    forall i | 0 <= i < |rows|
      ensures (rows[i].name, rows[i].inst) != (row.name, row.inst)
    {
      InstanceOf(rows, i);
    }
    forall name
      ensures Numbered(Instances(rows', name), Count(rows', name))
    {
      assert Instances(rows', name) == Instances(rows, name) + if row.name == name then {row.inst} else {} by {
        assert rows'[|rows|] == row;
        assert forall i | 0 <= i < |rows| :: rows'[i] == rows[i];
      }
    }
  }

  lemma InstancesByMembers(rows: seq<Row>, name: string)
    ensures forall k :: k in Instances(rows, name) <==> exists r :: r in rows && r.name == name && r.inst == k
  {
    forall k | exists r :: r in rows && r.name == name && r.inst == k
      ensures k in Instances(rows, name)
    {
      var r :| r in rows && r.name == name && r.inst == k;
      var i :| 0 <= i < |rows| && rows[i] == r;
    }
    forall k | k in Instances(rows, name)
      ensures exists r :: r in rows && r.name == name && r.inst == k
    {
      var i :| 0 <= i < |rows| && rows[i].name == name && rows[i].inst == k;
      assert rows[i] in rows;
    }
  }

  lemma SameInstances(rows: seq<Row>, rows': seq<Row>, name: string)
    requires forall r: Row | r.name == name :: r in rows <==> r in rows'
    ensures Instances(rows, name) == Instances(rows', name)
  {
    InstancesByMembers(rows, name);
    InstancesByMembers(rows', name);
  }

  /** Deleting a whole name keeps the numbering of the others. */
  lemma DeleteNameContiguous(rows: seq<Row>, name: string)
    requires Contiguous(rows)
    ensures Contiguous(Remove(rows, WholeName(name)))
  {
    var gone := WholeName(name);
    var kept := Remove(rows, gone);
    RemoveMembers(rows, gone);
    RemoveKeepsUniqueKeys(rows, gone);
    forall other
      ensures Numbered(Instances(kept, other), Count(kept, other))
    {
      if other == name {
        AllRemoved(rows, name);
        assert forall i | 0 <= i < |kept| :: kept[i] in kept;
      } else {
        RemoveCount(rows, gone, other);
        SameInstances(rows, kept, other);
      }
    }
  }

  lemma KeptBounds(rows: seq<Row>, name: string, k: int)
    requires Contiguous(rows)
    ensures var kept := Remove(rows, Single(name, k));
            && (forall r :: r in kept <==> r in rows && !(r.name == name && r.inst == k))
            && forall i | 0 <= i < |kept| && kept[i].name == name :: 0 <= kept[i].inst < Count(rows, name) && kept[i].inst != k
  {
    var kept := Remove(rows, Single(name, k));
    RemoveMembers(rows, Single(name, k));
    forall i | 0 <= i < |kept| && kept[i].name == name
      ensures 0 <= kept[i].inst < Count(rows, name) && kept[i].inst != k
    {
      assert kept[i] in kept;
      var j :| 0 <= j < |rows| && rows[j] == kept[i];
      InstanceOf(rows, j);
    }
  }

  lemma OtherNameNumbered(rows: seq<Row>, name: string, k: int, below: int, other: string)
    requires Contiguous(rows) && other != name
    ensures var closed := Close(Remove(rows, Single(name, k)), name, k, below);
            Numbered(Instances(closed, other), Count(closed, other))
  {
    var kept := Remove(rows, Single(name, k));
    var closed := Close(kept, name, k, below);
    SameNamesSameCount(kept, closed, other);
    RemoveCount(rows, Single(name, k), other);
    RemoveMembers(rows, Single(name, k));
    SameInstances(rows, kept, other);
    assert Instances(closed, other) == Instances(kept, other);
  }

  lemma ClosedUniqueKeys(kept: seq<Row>, name: string, k: int, below: int)
    requires UniqueKeys(kept)
    requires forall i | 0 <= i < |kept| && kept[i].name == name :: 0 <= kept[i].inst < below && kept[i].inst != k
    ensures UniqueKeys(Close(kept, name, k, below))
  {
    var closed := Close(kept, name, k, below);
    forall i, j | 0 <= i < j < |closed|
      ensures (closed[i].name, closed[i].inst) != (closed[j].name, closed[j].inst)
    {
      assert (kept[i].name, kept[i].inst) != (kept[j].name, kept[j].inst);
    }
  }

  lemma KeptInstances(rows: seq<Row>, kept: seq<Row>, name: string, k: int)
    requires forall r :: r in kept <==> r in rows && !(r.name == name && r.inst == k)
    ensures forall m :: m in Instances(kept, name) <==> m in Instances(rows, name) && m != k
  {
    InstancesByMembers(rows, name);
    InstancesByMembers(kept, name);
    forall m | m in Instances(rows, name) && m != k
      ensures m in Instances(kept, name)
    {
      var r :| r in rows && r.name == name && r.inst == m;
      assert r in kept;
    }
    forall m | m in Instances(kept, name)
      ensures m in Instances(rows, name) && m != k
    {
      var r :| r in kept && r.name == name && r.inst == m;
      assert r in rows;
    }
  }

  lemma ClosedInstances(rows: seq<Row>, kept: seq<Row>, closed: seq<Row>, name: string, k: int, below: int)
    requires Contiguous(rows) && 0 <= k < Count(rows, name) <= below
    requires forall r :: r in kept <==> r in rows && !(r.name == name && r.inst == k)
    requires closed == Close(kept, name, k, below)
    ensures Numbered(Instances(closed, name), Count(rows, name) - 1)
  {
    var n := Count(rows, name);
    assert Numbered(Instances(rows, name), n);
    KeptInstances(rows, kept, name, k);
    forall m: int
      ensures m in Instances(closed, name) <==> 0 <= m < n - 1
    {
      if m in Instances(closed, name) {
        var i :| 0 <= i < |closed| && closed[i].name == name && closed[i].inst == m;
        assert kept[i].inst in Instances(kept, name);
      }
      if 0 <= m < n - 1 {
        var source := if m < k then m else m + 1;
        assert source in Instances(rows, name) && source in Instances(kept, name);
        var i :| 0 <= i < |kept| && kept[i].name == name && kept[i].inst == source;
        assert closed[i].inst == m && closed[i].name == name;
      }
    }
  }

  /** Deleting instance k and moving the later ones down keeps the numbering. */
  lemma DeleteInstanceContiguous(rows: seq<Row>, name: string, k: int, below: int)
    requires Contiguous(rows) && k in Instances(rows, name) && below >= Count(rows, name)
    ensures Contiguous(Close(Remove(rows, Single(name, k)), name, k, below))
  {
    var kept := Remove(rows, Single(name, k));
    var closed := Close(kept, name, k, below);
    KeptBounds(rows, name, k);
    RemoveKeepsUniqueKeys(rows, Single(name, k));
    ClosedUniqueKeys(kept, name, k, below);
    forall other
      ensures Numbered(Instances(closed, other), Count(closed, other))
    {
      if other == name {
        assert Numbered(Instances(rows, name), Count(rows, name));
        RemoveOneCount(rows, name, k);
        SameNamesSameCount(kept, closed, name);
        ClosedInstances(rows, kept, closed, name, k, below);
      } else {
        OtherNameNumbered(rows, name, k, below, other);
      }
    }
  }

  /** Closing the gap keeps the order of the surviving instances. */
  lemma CloseKeepsOrder(kept: seq<Row>, name: string, k: int, below: int, i: nat, j: nat)
    requires i < |kept| && j < |kept| && kept[i].name == kept[j].name == name
    requires kept[i].inst != k && kept[j].inst != k && kept[i].inst < below && kept[j].inst < below
    ensures var closed := Close(kept, name, k, below);
            kept[i].inst < kept[j].inst <==> closed[i].inst < closed[j].inst
  {}
}
