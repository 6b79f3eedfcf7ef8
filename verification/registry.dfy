/** The event registry as the sources keep it: an intrusive doubly linked list of heap nodes
    (sys/queue.h) under a mutex. Every operation is proved to take the step of the value-level
    registry in registry_model.dfy. libevent's calls may fail; which ones do is a parameter. */
module EventRegistry {
  import opened CTypes
  import opened RegistryModel

  /** Where `le_prev` points: nowhere yet (calloc), at the head's `lh_first`, or at the `le_next`
      of the node before. */
  datatype Link = Null | HeadFirst | NextOf(node: Event)

  /** `struct events_event`. */
  class Event {
    var id: nat
    var oneShot: bool  // its libevent event runs the single-shot proxy
    var hasEv: bool    // `ev` is not null
    var leNext: Event?
    var lePrev: Link

    /** calloc, then `_id`. */
    constructor (id: nat, oneShot: bool)
      ensures this.id == id && this.oneShot == oneShot && !hasEv && leNext == null && lePrev == Null
    {
      this.id, this.oneShot, hasEv := id, oneShot, false;
      leNext, lePrev := null, Null;
    }
  }

  ghost predicate Distinct(nodes: seq<Event>) {
    nodes == [] || (nodes[0] !in nodes[1..] && Distinct(nodes[1..]))
  }

  /** What the nodes of a list stand for. */
  ghost function Entries(nodes: seq<Event>): seq<Entry>
    reads nodes`id, nodes`oneShot
  {
    if nodes == [] then [] else [Entry(nodes[0].id, nodes[0].oneShot)] + Entries(nodes[1..])
  }

  lemma {:induction false} DistinctIndices(nodes: seq<Event>)
    requires Distinct(nodes)
    ensures forall i, j :: 0 <= i < j < |nodes| ==> nodes[i] != nodes[j]
  {
    if nodes != [] {
      DistinctIndices(nodes[1..]);
      forall i, j | 0 <= i < j < |nodes| ensures nodes[i] != nodes[j] {
        assert nodes[j] == nodes[1..][j - 1];
        if 0 < i {
          assert nodes[i] == nodes[1..][i - 1];
        }
      }
    }
  }

  lemma {:induction false} DistinctWithout(nodes: seq<Event>, k: nat)
    requires Distinct(nodes) && k < |nodes|
    ensures Distinct(Without(nodes, k)) && nodes[k] !in Without(nodes, k)
    ensures forall e :: e in Without(nodes, k) ==> e in nodes
  {
    if k == 0 {
      assert Without(nodes, 0) == nodes[1..];
    } else {
      DistinctWithout(nodes[1..], k - 1);
      assert Without(nodes, k) == [nodes[0]] + Without(nodes[1..], k - 1);
      assert Without(nodes, k)[1..] == Without(nodes[1..], k - 1);
      assert nodes[k] == nodes[1..][k - 1];
    }
  }

  lemma {:induction false} EntryAt(nodes: seq<Event>, k: nat)
    requires k < |nodes|
    ensures |Entries(nodes)| == |nodes| && Entries(nodes)[k] == Entry(nodes[k].id, nodes[k].oneShot)
  {
    if k == 0 {
      EntriesSize(nodes);
    } else {
      EntryAt(nodes[1..], k - 1);
    }
  }

  lemma {:induction false} EntriesSize(nodes: seq<Event>)
    ensures |Entries(nodes)| == |nodes|
  {
    if nodes != [] {
      EntriesSize(nodes[1..]);
    }
  }

  lemma {:induction false} EntriesWithout(nodes: seq<Event>, k: nat)
    requires k < |nodes|
    ensures |Entries(nodes)| == |nodes| && Entries(Without(nodes, k)) == Without(Entries(nodes), k)
  {
    EntriesSize(nodes);
    if k == 0 {
      assert Without(nodes, 0) == nodes[1..];
    } else {
      EntriesWithout(nodes[1..], k - 1);
      assert Without(nodes, k) == [nodes[0]] + Without(nodes[1..], k - 1);
      assert Without(nodes, k)[1..] == Without(nodes[1..], k - 1);
    }
  }

  /** `struct events_ctx`, with the ids of the events freed so far. */
  class Context {
    var lhFirst: Event?
    var idCnt: nat
    var locked: bool
    var freed: seq<nat>
    ghost var nodes: seq<Event> // the list, from the head on

    ghost predicate Linked()
      reads `lhFirst, `nodes, nodes`leNext, nodes`lePrev
    {
      && lhFirst == (if nodes == [] then null else nodes[0])
      && (forall i {:trigger nodes[i].leNext} :: 0 <= i < |nodes| ==>
            nodes[i].leNext == if i + 1 < |nodes| then nodes[i + 1] else null)
      && (forall i {:trigger nodes[i].lePrev} :: 0 <= i < |nodes| ==>
            nodes[i].lePrev == if i == 0 then HeadFirst else NextOf(nodes[i - 1]))
      && Distinct(nodes)
    }

    ghost predicate Valid()
      reads `lhFirst, `nodes, `locked, nodes
    {
      Linked() && !locked && forall e :: e in nodes ==> e.hasEv
    }

    ghost function View(): RegistryModel.Registry
      reads `nodes, `idCnt, `freed, nodes`id, nodes`oneShot
    {
      Registry(Entries(nodes), idCnt, freed)
    }

    /** EVENTS_CTX_INIT. */
    constructor ()
      ensures Valid() && View() == EMPTY && nodes == []
    {
      lhFirst, idCnt, locked, freed := null, 0, false, [];
      nodes := [];
    }

    /** LIST_INSERT_HEAD. */
    method InsertHead(e: Event)
      requires Linked() && e !in nodes
      modifies this`lhFirst, this`nodes, e`leNext, e`lePrev, nodes`lePrev
      ensures Linked() && nodes == [e] + old(nodes)
    {
      e.leNext := lhFirst;
      if lhFirst != null {
        lhFirst.lePrev := NextOf(e);
      }
      lhFirst := e;
      e.lePrev := HeadFirst;
      assert ([e] + nodes)[1..] == nodes;
      nodes := [e] + nodes;
    }

    /** LIST_REMOVE: constant time, through the back link; `k` is the node's position. A node that was
        never inserted has a null back link, through which the last store faults. */
    method Remove(e: Event, ghost k: nat) returns (fault: bool)
      requires Linked() && (if e.lePrev == Null then e.leNext == null else k < |nodes| && nodes[k] == e)
      modifies this`lhFirst, this`nodes, nodes`leNext, nodes`lePrev
      ensures Linked() && fault == (old(e.lePrev) == Null)
      ensures nodes == if fault then old(nodes) else Without(old(nodes), k)
    {
      DistinctIndices(nodes);
      if e.lePrev != Null {
        DistinctWithout(nodes, k);
        assert nodes[k].leNext == if k + 1 < |nodes| then nodes[k + 1] else null;
        assert nodes[k].lePrev == if k == 0 then HeadFirst else NextOf(nodes[k - 1]);
      }
      if e.leNext != null {
        e.leNext.lePrev := e.lePrev;
      }
      match e.lePrev {
        case HeadFirst => lhFirst := e.leNext;
        case NextOf(before) => before.leNext := e.leNext;
        case Null => return true;
      }
      nodes := Without(nodes, k);
      return false;
    }

    /** `_destroy_events_event`. For a node that was never inserted, because `event_new` failed,
        event_del(NULL) faults; and if libevent is `tolerant` of null, LIST_REMOVE does. */
    method Destroy(e: Event, ghost k: nat, tolerant: bool) returns (fault: bool)
      requires Valid()
      requires if e.lePrev == Null then e.leNext == null && !e.hasEv else k < |nodes| && nodes[k] == e
      modifies `lhFirst, `nodes, `locked, `freed, nodes`leNext, nodes`lePrev
      ensures fault == (old(e.lePrev) == Null) && (fault ==> nodes == old(nodes))
      ensures !fault ==> Valid() && nodes == Without(old(nodes), k) && freed == old(freed) + [e.id]
      ensures !fault ==> k < |old(View()).live| && View() == Unlink(old(View()), k)
    {
      if !e.hasEv && !tolerant {
        return true;
      }
      ghost var before, live := nodes, Entries(nodes);
      if e.lePrev != Null {
        DistinctWithout(nodes, k);
      }
      locked := true;
      fault := Remove(e, k);
      if fault {
        return;
      }
      locked := false;
      freed := freed + [e.id];
      assert Entries(before) == live;
      EntriesWithout(before, k);
      EntryAt(before, k);
    }

    /** `_events_schedule` and `events_add_reader`. The caller's pointer for the id may be null. */
    method Schedule(persistent: bool, wantId: bool, fate: Fate, tolerant: bool) returns (ret: Ret, id: Option<nat>)
      requires Valid()
      modifies this, nodes
      ensures ret == Apply(old(View()), Op.Schedule(!persistent, fate)).1
      ensures ret != Fault ==> Valid() && View() == Apply(old(View()), Op.Schedule(!persistent, fate)).0
      ensures fate == AddFails ==> nodes == old(nodes)
      ensures id == if wantId && fate != NoMemory then Some(old(idCnt)) else None
      ensures forall e :: e in nodes ==> e in old(nodes) || fresh(e)
      ensures fate == NoMemory ==> ret == Return(12)
      ensures fate == AddFails ==> ret == Return(22)
    {
      id := None;
      if fate == NoMemory {
        return Return(ENOMEM), id;
      }
      var e := new Event(idCnt, !persistent);
      idCnt := Bump(idCnt);
      if wantId {
        id := Some(e.id);
      }
      assert Valid();
      if fate == NoEvent {
        var fault := Destroy(e, 0, tolerant);
        assert fault;
        return Fault, id;
      }
      e.hasEv := true;
      var added := Arm(e, fate == Added);
      assert ([e] + old(nodes))[1..] == old(nodes);
      return Return(if added then 0 else EINVAL), id;
    }

    /** The rest of both functions: insert under the lock, event_add, and the rollback. */
    method Arm(e: Event, addOk: bool) returns (added: bool)
      requires Valid() && e !in nodes && e.hasEv
      modifies `lhFirst, `nodes, `locked, `freed, e`leNext, e`lePrev, nodes`leNext, nodes`lePrev
      ensures Valid() && added == addOk
      ensures added ==> nodes == [e] + old(nodes) && freed == old(freed)
      ensures !added ==> nodes == old(nodes) && freed == old(freed) + [e.id]
    {
      locked := true;
      InsertHead(e);
      locked := false;
      assert nodes[0] == e && Valid();
      if addOk {
        return true;
      }
      var fault := Destroy(e, 0, false);
      WithoutHead(e, old(nodes));
      return false;
    }

    /** The search loop of `events_cancel`: the first node with this id. */
    method Search(id: nat) returns (e: Event?, ghost k: nat)
      requires Linked()
      ensures k == Find(Entries(nodes), id) <= |Entries(nodes)| == |nodes|
      ensures e == if Find(Entries(nodes), id) < |nodes| then nodes[Find(Entries(nodes), id)] else null
    {
      e, k := lhFirst, 0;
      while e != null
        invariant k <= |nodes| && e == if k < |nodes| then nodes[k] else null
        invariant forall j :: 0 <= j < k ==> nodes[j].id != id
        decreases |nodes| - k
      {
        if e.id == id {
          break;
        }
        e := e.leNext;
        k := k + 1;
      }
      FindNode(nodes, id, k);
    }

    /** `events_cancel`. */
    method Cancel(id: nat) returns (ret: Ret)
      requires Valid()
      modifies this, nodes
      ensures Valid() && (View(), ret) == Apply(old(View()), Op.Cancel(id))
    {
      ghost var before := View();
      locked := true;
      var e, k := Search(id);
      locked := false;
      assert View() == before;
      if e == null {
        return Return(EXIT_FAILURE);
      }
      assert nodes[k] == e && e.lePrev != Null;
      var fault := Destroy(e, k, false);
      CancelUnlinks(before, id, k);
      return Return(EXIT_SUCCESS);
    }

    /** The proxy libevent runs for a live event, after the user's callback has returned. */
    method Fired(e: Event, ghost k: nat)
      requires Valid() && k < |nodes| && nodes[k] == e
      modifies this, nodes
      ensures Valid() && View() == Apply(old(View()), Fire(k)).0
      ensures nodes == if e.oneShot then Without(old(nodes), k) else old(nodes)
    {
      EntryAt(nodes, k);
      if e.oneShot {
        var fault := Destroy(e, k, false);
      }
    }

    /** The loop of `events_teardown`, once the event thread has been joined outside callbacks, so that
        event_del returns; registry_teardown.dfy has the other case. */
    method Teardown()
      requires Valid()
      modifies this, nodes
      ensures Valid() && View() == Apply(old(View()), Op.Teardown).0
    {
      ghost var start := View();
      while lhFirst != null
        invariant Valid() && forall i :: 0 <= i < |nodes| ==> nodes[i] in old(nodes)
        invariant idCnt == start.idCnt && freed + Ids(Entries(nodes)) == start.freed + Ids(start.live)
        decreases |nodes|
      {
        ghost var r := View();
        var fault := Destroy(lhFirst, 0, false);
        assert Without(r.live, 0) == r.live[1..];
      }
    }
  }

  lemma CancelUnlinks(r: RegistryModel.Registry, id: nat, k: nat)
    requires k == Find(r.live, id) < |r.live|
    ensures Apply(r, Op.Cancel(id)) == (Unlink(r, k), Return(EXIT_SUCCESS))
  {
  }

  lemma {:induction false} FindNode(nodes: seq<Event>, id: nat, k: nat)
    requires k <= |nodes| && (k < |nodes| ==> nodes[k].id == id)
    requires forall j :: 0 <= j < k ==> nodes[j].id != id
    ensures Find(Entries(nodes), id) == k && |Entries(nodes)| == |nodes|
  {
    EntriesSize(nodes);
    if 0 < k {
      FindNode(nodes[1..], id, k - 1);
    }
  }

  /** `events_schedule_single_shot` passes its arguments on as `tv, false, id` where the callee takes
      `tv, id, persistent`. */
  method ScheduleSingleShot(ctx: Context, wantId: bool, fate: Fate, tolerant: bool) returns (ret: Ret, id: Option<nat>)
    requires ctx.Valid()
    modifies ctx, ctx.nodes
    ensures id == None && ret == Apply(old(ctx.View()), Op.Schedule(!wantId, fate)).1
    ensures ret != Fault ==> ctx.Valid() && ctx.View() == Apply(old(ctx.View()), Op.Schedule(!wantId, fate)).0
  {
    ret, id := ctx.Schedule(wantId, false, fate, tolerant);
  }

  method SchedulePeriodic(ctx: Context, wantId: bool, fate: Fate, tolerant: bool) returns (ret: Ret, id: Option<nat>)
    requires ctx.Valid()
    modifies ctx, ctx.nodes
    ensures ret == Apply(old(ctx.View()), Op.Schedule(false, fate)).1
    ensures ret != Fault ==> ctx.Valid() && ctx.View() == Apply(old(ctx.View()), Op.Schedule(false, fate)).0
    ensures id == if wantId && fate != NoMemory then Some(old(ctx.idCnt)) else None
  {
    ret, id := ctx.Schedule(true, wantId, fate, tolerant);
  }
}
