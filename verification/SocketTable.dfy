/** The slot tables of the socket seam (src/dsh_socket.c:48-117, 186-269, 283-327, 562-582): which ids are
    live, and what claiming, accepting and releasing do to them. */
module SocketTable {
  import opened Wrappers

  const MAX_SERVERS := 8
  const MAX_CONNS := 32

  datatype Slot = Slot(used: bool, id: nat)

  /** The ids in use. */
  function Live(slots: seq<Slot>): set<nat> {
    set i | 0 <= i < |slots| && slots[i].used :: slots[i].id
  }

  /** No two used slots share an id, and none has an id that was not handed out yet. */
  ghost predicate Distinct(slots: seq<Slot>, next: nat) {
    && (forall i :: 0 <= i < |slots| && slots[i].used ==> slots[i].id <= next)
    && (forall i, j :: 0 <= i < j < |slots| && slots[i].used && slots[j].used ==> slots[i].id != slots[j].id)
  }

  function Free(slots: seq<Slot>): nat {
    if slots == [] then 0 else Free(slots[..|slots| - 1]) + if slots[|slots| - 1].used then 0 else 1
  }

  lemma LiveClaimed(slots: seq<Slot>, i: nat, id: nat)
    requires i < |slots| && !slots[i].used
    ensures Live(slots[i := Slot(true, id)]) == Live(slots) + {id}
  {
    var after := slots[i := Slot(true, id)];
    forall x ensures x in Live(after) <==> x in Live(slots) + {id} {
      if x in Live(after) {
        var j :| 0 <= j < |after| && after[j].used && after[j].id == x;
        if j != i { assert slots[j].used && slots[j].id == x; }
      }
      if x in Live(slots) {
        var j :| 0 <= j < |slots| && slots[j].used && slots[j].id == x;
        assert after[j].used && after[j].id == x;
      }
      assert after[i].used && after[i].id == id;
    }
  }

  lemma LiveReleased(slots: seq<Slot>, i: nat, next: nat)
    requires i < |slots| && slots[i].used && Distinct(slots, next)
    ensures Live(slots[i := Slot(false, slots[i].id)]) == Live(slots) - {slots[i].id}
  {
    var after := slots[i := Slot(false, slots[i].id)];
    forall x ensures x in Live(after) <==> x in Live(slots) - {slots[i].id} {
      if x in Live(after) {
        var j :| 0 <= j < |after| && after[j].used && after[j].id == x;
        assert slots[j].used && slots[j].id == x;
      }
      if x in Live(slots) - {slots[i].id} {
        var j :| 0 <= j < |slots| && slots[j].used && slots[j].id == x;
        assert after[j].used && after[j].id == x;
      }
    }
  }

  lemma {:induction false} FreeUpdated(slots: seq<Slot>, i: nat, slot: Slot)
    requires i < |slots| && slot.used != slots[i].used
    ensures Free(slots[i := slot]) == if slot.used then Free(slots) - 1 else Free(slots) + 1
  {
    var last := |slots| - 1;
    if i == last {
      assert slots[i := slot][..last] == slots[..last];
    } else {
      assert slots[i := slot][..last] == slots[..last][i := slot];
      FreeUpdated(slots[..last], i, slot);
    }
  }

  lemma {:induction false} FreeBound(slots: seq<Slot>, i: nat)
    requires i < |slots| && !slots[i].used
    ensures Free(slots) > 0
  {
    if i < |slots| - 1 { FreeBound(slots[..|slots| - 1], i); }
  }

  lemma {:induction false} NoFree(slots: seq<Slot>)
    requires forall i :: 0 <= i < |slots| ==> slots[i].used
    ensures Free(slots) == 0
  {
    if slots != [] { NoFree(slots[..|slots| - 1]); }
  }

  class SocketTable {
    const servers: array<Slot>
    const conns: array<Slot>
    var nextId: nat

    ghost predicate Valid()
      reads this, servers, conns
    {
      && servers != conns && servers.Length == MAX_SERVERS && conns.Length == MAX_CONNS
      && Distinct(servers[..], nextId) && Distinct(conns[..], nextId)
      && Live(servers[..]) !! Live(conns[..])
    }

    constructor ()
      ensures Valid() && fresh(servers) && fresh(conns)
      ensures nextId == 0 && Live(servers[..]) == {} && Live(conns[..]) == {}
    {
      servers := new Slot[MAX_SERVERS](_ => Slot(false, 0));
      conns := new Slot[MAX_CONNS](_ => Slot(false, 0));
      nextId := 0;
    }

    /** The index of the first free slot, or the length. */
    static method FirstFree(slots: array<Slot>) returns (i: nat)
      ensures i <= slots.Length && (i < slots.Length ==> !slots[i].used)
      ensures forall k :: 0 <= k < i ==> slots[k].used
    {
      i := 0;
      while i < slots.Length && slots[i].used
        invariant i <= slots.Length && forall k :: 0 <= k < i ==> slots[k].used
      {
        i := i + 1;
      }
    }

    /** Claim the first free slot under the id after `next`. */
    static method ClaimIn(slots: array<Slot>, next: nat) returns (ok: bool)
      requires Distinct(slots[..], next)
      modifies slots
      ensures ok <==> old(Free(slots[..])) > 0
      ensures !ok ==> slots[..] == old(slots[..])
      ensures ok ==>
                Distinct(slots[..], next + 1) && Live(slots[..]) == old(Live(slots[..])) + {next + 1}
                && Free(slots[..]) == old(Free(slots[..])) - 1
    {
      var i := FirstFree(slots);
      if i == slots.Length {
        NoFree(slots[..]);
        return false;
      }
      FreeBound(slots[..], i);
      LiveClaimed(slots[..], i, next + 1);
      FreeUpdated(slots[..], i, Slot(true, next + 1));
      DistinctClaimed(slots[..], i, next);
      hide Live, Free, Distinct;
      ghost var was := slots[..];
      slots[i] := Slot(true, next + 1);
      assert slots[..] == was[i := Slot(true, next + 1)];
      ok := true;
    }

    /** A new id in one of the tables; None when that table is full. */
    method Claim(slots: array<Slot>) returns (id: Option<nat>)
      requires Valid() && (slots == servers || slots == conns)
      modifies slots, `nextId
      ensures Valid() && (id.None? <==> old(Free(slots[..])) == 0)
      ensures id.None? ==> slots[..] == old(slots[..]) && nextId == old(nextId)
      ensures id.Some? ==>
                id.value == nextId == old(nextId) + 1
                && Live(slots[..]) == old(Live(slots[..])) + {nextId} && Free(slots[..]) == old(Free(slots[..])) - 1
      ensures slots != servers ==> servers[..] == old(servers[..])
      ensures slots != conns ==> conns[..] == old(conns[..])
    {
      DistinctLater(servers[..], nextId);
      DistinctLater(conns[..], nextId);
      hide Live, Free, Distinct;
      var ok := ClaimIn(slots, nextId);
      if !ok { return None; }
      nextId := nextId + 1;
      id := Some(nextId);
    }

    /** dsh_socket_listen, once bind and listen have succeeded. */
    method Listen(bound: bool) returns (id: Option<nat>)
      requires Valid()
      modifies servers, `nextId
      ensures Valid() && conns[..] == old(conns[..])
      ensures id.None? ==> servers[..] == old(servers[..]) && nextId == old(nextId)
      ensures id.Some? <==> bound && old(Free(servers[..])) > 0
      ensures id.Some? ==> id.value == nextId == old(nextId) + 1 && Live(servers[..]) == old(Live(servers[..])) + {nextId}
    {
      if !bound { return None; }
      id := Claim(servers);
    }

    /** dsh_socket_connect: a dial that cannot start leaves its slot free. */
    method Connect(started: bool) returns (id: Option<nat>)
      requires Valid()
      modifies conns, `nextId
      ensures Valid() && servers[..] == old(servers[..])
      ensures id.None? ==> conns[..] == old(conns[..]) && nextId == old(nextId)
      ensures id.Some? <==> started && old(Free(conns[..])) > 0
      ensures id.Some? ==> id.value == nextId == old(nextId) + 1 && Live(conns[..]) == old(Live(conns[..])) + {nextId}
    {
      if !started { return None; }
      id := Claim(conns);
    }

    /** server_accept_all: as many of the queued connections as there are free slots, under consecutive
        new ids; the others are refused. */
    method AcceptAll(queued: nat) returns (ids: seq<nat>)
      requires Valid()
      modifies conns, `nextId
      ensures Valid() && servers[..] == old(servers[..])
      ensures |ids| == (if queued <= old(Free(conns[..])) then queued else old(Free(conns[..])))
      ensures nextId == old(nextId) + |ids| && forall k :: 0 <= k < |ids| ==> ids[k] == old(nextId) + 1 + k
      ensures Live(conns[..]) == old(Live(conns[..])) + set k | 0 <= k < |ids| :: ids[k]
    {
      ids := [];
      var i := 0;
      while i < queued
        invariant 0 <= i <= queued && Valid() && servers[..] == old(servers[..])
        invariant |ids| == if i <= old(Free(conns[..])) then i else old(Free(conns[..]))
        invariant Free(conns[..]) == old(Free(conns[..])) - |ids|
        invariant nextId == old(nextId) + |ids| && forall k :: 0 <= k < |ids| ==> ids[k] == old(nextId) + 1 + k
        invariant Live(conns[..]) == old(Live(conns[..])) + set k | 0 <= k < |ids| :: ids[k]
      {
        var id := Claim(conns);
        if id.Some? {
          ghost var before := ids;
          ids := ids + [id.value];
          assert (set k | 0 <= k < |ids| :: ids[k]) == (set k | 0 <= k < |before| :: before[k]) + {id.value} by {
            assert ids[|before|] == id.value;
            assert forall k :: 0 <= k < |before| ==> ids[k] == before[k];
          }
        }
        i := i + 1;
      }
    }

    /** The index of the used slot with this id, or the length. */
    static method Find(slots: array<Slot>, id: nat) returns (i: nat)
      ensures i <= slots.Length && (i < slots.Length ==> slots[i].used && slots[i].id == id)
      ensures i == slots.Length <==> id !in Live(slots[..])
    {
      i := 0;
      while i < slots.Length && !(slots[i].used && slots[i].id == id)
        invariant i <= slots.Length && forall k :: 0 <= k < i ==> !(slots[k].used && slots[k].id == id)
      {
        i := i + 1;
      }
      assert i < slots.Length ==> slots[..][i].used && slots[..][i].id == id;
    }

    method Release(slots: array<Slot>, i: nat)
      requires Valid() && (slots == servers || slots == conns) && i < slots.Length && slots[i].used
      modifies slots
      ensures Valid() && Live(slots[..]) == old(Live(slots[..])) - {old(slots[i].id)}
      ensures Free(slots[..]) == old(Free(slots[..])) + 1
      ensures slots != servers ==> servers[..] == old(servers[..])
      ensures slots != conns ==> conns[..] == old(conns[..])
    {
      LiveReleased(slots[..], i, nextId);
      FreeUpdated(slots[..], i, Slot(false, slots[i].id));
      ghost var was := slots[..];
      slots[i] := Slot(false, slots[i].id);
      assert slots[..] == was[i := Slot(false, was[i].id)];
    }

    /** dsh_socket_close, and the release of a failed dial: exactly the named id leaves, and its slot can
        be claimed again. Closing a listener leaves its connections. */
    method Close(id: nat) returns (ok: bool)
      requires Valid()
      modifies servers, conns
      ensures Valid() && (ok <==> id in old(Live(servers[..])) + old(Live(conns[..])))
      ensures Live(servers[..]) == old(Live(servers[..])) - {id} && Live(conns[..]) == old(Live(conns[..])) - {id}
    {
      var i := Find(servers, id);
      if i < servers.Length {
        Release(servers, i);
        return true;
      }
      i := Find(conns, id);
      if i == conns.Length { return false; }
      Release(conns, i);
      ok := true;
    }
  }

  lemma DistinctLater(slots: seq<Slot>, next: nat)
    requires Distinct(slots, next)
    ensures next + 1 !in Live(slots) && Distinct(slots, next + 1)
  {}

  lemma DistinctClaimed(slots: seq<Slot>, i: nat, next: nat)
    requires i < |slots| && !slots[i].used && Distinct(slots, next)
    ensures Distinct(slots[i := Slot(true, next + 1)], next + 1)
  {}
}
