/** Swap-remove tables of the gateway bridge: arrays standing for maps. Here the calls in flight
    (src/dsh_runtime_host.c:340-370); TimerRuns has the armed timers. */
module BridgeTables {
  import opened Wrappers

  /** A table row: a call's promise capability, or a timer's fire time. */
  datatype Row = Row(id: nat, value: int)

  predicate DistinctIds(rows: seq<Row>) {
    forall i, j :: 0 <= i < j < |rows| ==> rows[i].id != rows[j].id
  }

  /** The map a table stands for. */
  ghost function AsMap(rows: seq<Row>): map<nat, int>
    requires DistinctIds(rows)
  {
    if rows == [] then map[] else AsMap(rows[..|rows| - 1])[rows[|rows| - 1].id := rows[|rows| - 1].value]
  }

  lemma {:induction false} AsMapHolds(rows: seq<Row>, id: nat)
    requires DistinctIds(rows)
    ensures id in AsMap(rows) <==> exists i :: 0 <= i < |rows| && rows[i].id == id
    ensures forall i :: 0 <= i < |rows| && rows[i].id == id ==> AsMap(rows)[id] == rows[i].value
  {
    if rows != [] {
      var front := rows[..|rows| - 1];
      AsMapHolds(front, id);
      if id in AsMap(front) {
        var i :| 0 <= i < |front| && front[i].id == id;
        assert rows[i].id == id;
      }
      if i :| 0 <= i < |rows| && rows[i].id == id {
        if i < |front| { assert front[i].id == id; }
      }
    }
  }

  /** Overwrite row i with the last row and drop the last row. */
  function SwapRemoved(rows: seq<Row>, i: nat): seq<Row>
    requires i < |rows|
  {
    rows[i := rows[|rows| - 1]][..|rows| - 1]
  }

  lemma SwapRemovedDistinct(rows: seq<Row>, i: nat)
    requires DistinctIds(rows) && i < |rows|
    ensures |SwapRemoved(rows, i)| == |rows| - 1 && DistinctIds(SwapRemoved(rows, i))
  {}

  lemma SwapRemovedAt(rows: seq<Row>, i: nat, k: nat)
    requires i < |rows| && k < |rows| - 1
    ensures |SwapRemoved(rows, i)| == |rows| - 1
    ensures SwapRemoved(rows, i)[k] == rows[if k == i then |rows| - 1 else k]
  {}

  lemma SwapRemovedKey(rows: seq<Row>, i: nat, id: nat)
    requires DistinctIds(rows) && i < |rows| && DistinctIds(SwapRemoved(rows, i))
    ensures id in AsMap(SwapRemoved(rows, i)) <==> id in AsMap(rows) && id != rows[i].id
    ensures id in AsMap(SwapRemoved(rows, i)) && id in AsMap(rows) ==> AsMap(SwapRemoved(rows, i))[id] == AsMap(rows)[id]
  {
    var after, last := SwapRemoved(rows, i), |rows| - 1;
    assert |after| == last;
    AsMapHolds(rows, id);
    AsMapHolds(after, id);
    hide AsMap, SwapRemoved;
    if id in AsMap(after) {
      var k :| 0 <= k < |after| && after[k].id == id;
      SwapRemovedAt(rows, i, k);
      assert rows[if k == i then last else k].id == id;
    }
    if id in AsMap(rows) && id != rows[i].id {
      var k :| 0 <= k < |rows| && rows[k].id == id;
      SwapRemovedAt(rows, i, if k == last then i else k);
      assert after[if k == last then i else k].id == id;
    }
  }

  /** Swap-remove takes one key out of the map and leaves the rest. */
  lemma SwapRemovedIsRemoved(rows: seq<Row>, i: nat)
    requires DistinctIds(rows) && i < |rows|
    ensures DistinctIds(SwapRemoved(rows, i))
    ensures AsMap(SwapRemoved(rows, i)) == AsMap(rows) - {rows[i].id}
  {
    SwapRemovedDistinct(rows, i);
    hide AsMap, SwapRemoved, DistinctIds;
    forall id ensures id in AsMap(SwapRemoved(rows, i)) <==> id in AsMap(rows) - {rows[i].id}
      ensures id in AsMap(SwapRemoved(rows, i)) && id in AsMap(rows) ==> AsMap(SwapRemoved(rows, i))[id] == AsMap(rows)[id]
    {
      SwapRemovedKey(rows, i, id);
    }
  }

  lemma AddedIsAdded(rows: seq<Row>, row: Row)
    requires DistinctIds(rows) && row.id !in AsMap(rows)
    ensures DistinctIds(rows + [row])
    ensures AsMap(rows + [row]) == AsMap(rows)[row.id := row.value]
  {
    forall k | 0 <= k < |rows| ensures rows[k].id != row.id {
      AsMapHolds(rows, row.id);
    }
    assert (rows + [row])[..|rows|] == rows;
  }

  lemma RowInMap(rows: seq<Row>, i: nat)
    requires DistinctIds(rows) && i < |rows|
    ensures rows[i].id in AsMap(rows) && AsMap(rows)[rows[i].id] == rows[i].value
  {
    AsMapHolds(rows, rows[i].id);
  }

  // ---- calls in flight ---------------------------------------------------------------------

  /** `value` names the promise capability parked for the call. */
  class PendingCalls {
    var rows: array<Row>
    var count: nat

    ghost predicate Valid()
      reads this, rows
    {
      count <= rows.Length && DistinctIds(rows[..count])
    }

    ghost function Parked(): map<nat, int>
      requires Valid()
      reads this, rows
    {
      AsMap(rows[..count])
    }

    constructor ()
      ensures Valid() && Parked() == map[] && fresh(rows)
    {
      rows := new Row[0](_ => Row(0, 0));
      count := 0;
    }

    /** dsh_pending_add, for an id that is not in flight; a full array grows to twice its size. */
    method Add(id: nat, capability: int)
      requires Valid() && id !in Parked()
      modifies this, rows
      ensures Valid() && Parked() == old(Parked())[id := capability]
      ensures rows == old(rows) || fresh(rows)
    {
      ghost var all := rows[..count];
      AddedIsAdded(all, Row(id, capability));
      hide AsMap, DistinctIds;
      if count == rows.Length { Grow(); }
      rows[count] := Row(id, capability);
      count := count + 1;
      assert rows[..count] == all + [Row(id, capability)];
    }

    method Grow()
      requires count == rows.Length
      modifies this
      ensures fresh(rows) && rows.Length > count == old(count) && rows[..count] == old(rows[..count])
    {
      var grown := new Row[if count > 0 then count * 2 else 8](_ => Row(0, 0));
      forall k | 0 <= k < count {
        grown[k] := rows[k];
      }
      rows := grown;
    }

    /** dsh_pending_take: the entry leaves, once. */
    method Take(id: nat) returns (capability: Option<int>)
      requires Valid()
      modifies this, rows
      ensures Valid() && rows == old(rows) && Parked() == old(Parked()) - {id}
      ensures capability == if id in old(Parked()) then Some(old(Parked())[id]) else None
    {
      AsMapHolds(rows[..count], id);
      ghost var all := rows[..count];
      var i := 0;
      while i < count
        invariant 0 <= i <= count && forall k :: 0 <= k < i ==> all[k].id != id
      {
        if rows[i].id == id {
          assert all[i] == rows[i];
          SwapRemovedIsRemoved(all, i);
          capability := Some(rows[i].value);
          rows[i] := rows[count - 1];
          count := count - 1;
          assert rows[..count] == SwapRemoved(all, i);
          return;
        }
        i := i + 1;
      }
      assert Parked() == old(Parked()) - {id};
      capability := None;
    }
  }
}
