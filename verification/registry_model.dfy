/** The event registry (src/events.c) as a value, one operation at a time: the live events from
    the head of the list on, the id counter, and the ids of the events freed so far. The heap-level
    list in registry.dfy is proved to take exactly these steps. */
module RegistryModel {
  import opened CTypes
  import opened Listings

  datatype Entry = Entry(id: nat, oneShot: bool)

  datatype Registry = Registry(live: seq<Entry>, idCnt: nat, freed: seq<nat>)

  /** How far `_events_schedule` and `events_add_reader` get: `calloc`, `event_new` or `event_add`
      fails, or none of them. */
  datatype Fate = NoMemory | NoEvent | AddFails | Added

  datatype Op =
    | Schedule(oneShot: bool, fate: Fate) // schedule an event or add a reader
    | Cancel(id: nat)
    | Fire(index: nat)                    // libevent runs the proxy of a live event
    | Teardown

  /** The value returned, or a null-pointer access. */
  datatype Ret = Return(rc: int) | Fault

  const EMPTY := Registry([], 0, [])

  function Ids(live: seq<Entry>): seq<nat> {
    if live == [] then [] else [live[0].id] + Ids(live[1..])
  }

  /** The position of the first entry with this id, or the number of entries. */
  function Find(live: seq<Entry>, id: nat): (i: nat)
    ensures i <= |live|
    ensures forall j :: 0 <= j < i ==> live[j].id != id
    ensures i < |live| ==> live[i].id == id
  {
    if live == [] || live[0].id == id then 0 else 1 + Find(live[1..], id)
  }

  function Without<T>(s: seq<T>, i: nat): seq<T>
    requires i < |s|
  {
    s[..i] + s[i + 1..]
  }

  lemma WithoutHead<T>(x: T, s: seq<T>)
    ensures Without([x] + s, 0) == s
  {
  }

  function Unlink(r: Registry, i: nat): Registry
    requires i < |r.live|
  {
    Registry(Without(r.live, i), r.idCnt, r.freed + [r.live[i].id])
  }

  function Apply(r: Registry, op: Op): (Registry, Ret) {
    match op
    case Schedule(oneShot, NoMemory) => (r, Return(ENOMEM))
    // the rollback hands a null event to event_del and unlinks a node that was never inserted
    case Schedule(oneShot, NoEvent) => (r, Fault)
    case Schedule(oneShot, AddFails) => (Registry(r.live, Bump(r.idCnt), r.freed + [r.idCnt]), Return(EINVAL))
    case Schedule(oneShot, Added) => (Registry([Entry(r.idCnt, oneShot)] + r.live, Bump(r.idCnt), r.freed), Return(0))
    case Cancel(id) =>
      var i := Find(r.live, id);
      if i < |r.live| then (Unlink(r, i), Return(EXIT_SUCCESS)) else (r, Return(EXIT_FAILURE))
    case Fire(i) =>
      if i < |r.live| && r.live[i].oneShot then (Unlink(r, i), Return(0)) else (r, Return(0))
    case Teardown => (Registry([], r.idCnt, r.freed + Ids(r.live)), Return(0))
  }

  /** The state after a history, unless it faults. */
  function Run(history: seq<Op>): Option<Registry> {
    if history == [] then Some(EMPTY)
    else
      var last := |history| - 1;
      var before := Run(history[..last]);
      if before.None? then None
      else
        var (r, ret) := Apply(before.value, history[last]);
        if ret == Fault then None else Some(r)
  }

  /** Whether the operation draws an id. */
  predicate Draws(op: Op) {
    op.Schedule? && (op.fate == AddFails || op.fate == Added)
  }

  function Drawn(history: seq<Op>): nat {
    if history == [] then 0
    else
      var last := |history| - 1;
      Drawn(history[..last]) + if Draws(history[last]) then 1 else 0
  }

  // ----- over every history -----

  /** The registry after n ids were drawn: ids fall strictly from the head on and lie below n. */
  ghost predicate Ordered(r: Registry, n: nat) {
    && r.idCnt == ToSize(n)
    && (forall i :: 0 <= i < |r.live| ==> r.live[i].id < n)
    && (forall i, j :: 0 <= i < j < |r.live| ==> r.live[j].id < r.live[i].id)
  }

  lemma OrderedWithout(r: Registry, i: nat, n: nat)
    requires Ordered(r, n) && i < |r.live|
    ensures Ordered(Unlink(r, i), n)
  {
  }

  lemma OrderedStep(r: Registry, op: Op, n: nat)
    requires Ordered(r, n) && Apply(r, op).1 != Fault
    requires Draws(op) ==> n < UINT64_RANGE
    ensures Ordered(Apply(r, op).0, n + if Draws(op) then 1 else 0)
  {
    if Draws(op) {
      SizeFits(n);
      BumpWraps(n);
    } else if op.Cancel? && Find(r.live, op.id) < |r.live| {
      OrderedWithout(r, Find(r.live, op.id), n);
    } else if op.Fire? && op.index < |r.live| {
      OrderedWithout(r, op.index, n);
    }
  }

  /** Over every history that draws at most 2^64 ids, the ids of the list fall strictly from its head
      and are all smaller than the number of ids drawn; so no two live events share an id. */
  lemma {:induction false} IdsOrdered(history: seq<Op>)
    requires Run(history).Some? && Drawn(history) <= UINT64_RANGE
    ensures Ordered(Run(history).value, Drawn(history))
  {
    if history != [] {
      var last := |history| - 1;
      IdsOrdered(history[..last]);
      OrderedStep(Run(history[..last]).value, history[last], Drawn(history[..last]));
    }
  }

  /** Cancelling removes the one event with this id and nothing else, keeps the order of the rest,
      and fails exactly if no live event has the id. */
  lemma CancelIsExact(history: seq<Op>, id: nat)
    requires Run(history).Some? && Drawn(history) <= UINT64_RANGE
    ensures var r := Run(history).value;
            var (r', ret) := Apply(r, Cancel(id));
            if id in Ids(r.live) then
              && ret == Return(EXIT_SUCCESS)
              && id !in Ids(r'.live)
              && exists i :: 0 <= i < |r.live| && r.live[i].id == id && r'.live == r.live[..i] + r.live[i + 1..]
            else
              ret == Return(EXIT_FAILURE) && r' == r
  {
    IdsOrdered(history);
    var r := Run(history).value;
    InIds(r.live, id);
    InIds(Apply(r, Cancel(id)).0.live, id);
  }

  lemma {:induction false} InIds(live: seq<Entry>, id: nat)
    ensures id in Ids(live) <==> Find(live, id) < |live|
  {
    if live != [] {
      InIds(live[1..], id);
    }
  }

  lemma {:induction false} IdsWithout(live: seq<Entry>, i: nat, x: nat)
    requires i < |live|
    ensures Times(Ids(live), x) == Times(Ids(Without(live, i)), x) + if live[i].id == x then 1 else 0
  {
    var rest, head := Without(live, i), [live[0].id];
    TimesConcat(head, Ids(live[1..]), x);
    assert head[..0] == [];
    if i == 0 {
      assert rest == live[1..];
    } else {
      IdsWithout(live[1..], i - 1, x);
      assert rest[1..] == live[1..][..i - 1] + live[1..][i..];
      TimesConcat(head, Ids(rest[1..]), x);
    }
  }

  /** How many events with this id there ever were: live ones and freed ones. */
  function Events(r: Registry, id: nat): nat {
    Times(Ids(r.live), id) + Times(r.freed, id)
  }

  lemma UnlinkKeepsEvents(r: Registry, i: nat, id: nat)
    requires i < |r.live|
    ensures Events(Unlink(r, i), id) == Events(r, id)
  {
    IdsWithout(r.live, i, id);
    TimesConcat(r.freed, [r.live[i].id], id);
  }

  lemma ConservedStep(r: Registry, op: Op, id: nat)
    requires Apply(r, op).1 != Fault
    ensures Events(Apply(r, op).0, id) == Events(r, id) + if Draws(op) && r.idCnt == id then 1 else 0
  {
    match op
    case Schedule(oneShot, fate) =>
      assert ([Entry(r.idCnt, oneShot)] + r.live)[1..] == r.live;
      TimesConcat([r.idCnt], Ids(r.live), id);
      TimesConcat(r.freed, [r.idCnt], id);
    case Cancel(target) =>
      if Find(r.live, target) < |r.live| {
        UnlinkKeepsEvents(r, Find(r.live, target), id);
      }
    case Fire(i) =>
      if i < |r.live| {
        UnlinkKeepsEvents(r, i, id);
      }
    case Teardown =>
      TimesConcat(r.freed, Ids(r.live), id);
  }

  /** Conservation: every id drawn belongs to exactly one event, either still live or freed once,
      and no other id to any. */
  lemma {:induction false} EventsConserved(history: seq<Op>, id: nat)
    requires Run(history).Some? && Drawn(history) <= UINT64_RANGE
    ensures Events(Run(history).value, id) == if id < Drawn(history) then 1 else 0
  {
    if history != [] {
      var last := |history| - 1;
      var n := Drawn(history[..last]);
      EventsConserved(history[..last], id);
      IdsOrdered(history[..last]);
      ConservedStep(Run(history[..last]).value, history[last], id);
      if n < UINT64_RANGE {
        SizeFits(n);
      }
    }
  }

  /** After teardown nothing is live and every event ever allocated has been freed exactly once. */
  lemma TeardownFreesAll(history: seq<Op>, id: nat)
    requires Run(history).Some? && Drawn(history) <= UINT64_RANGE
    ensures var end := Run(history + [Teardown]);
            end.Some? && end.value.live == [] && Times(end.value.freed, id) == if id < Drawn(history) then 1 else 0
  {
    RunConcat(history, Teardown);
    EventsConserved(history + [Teardown], id);
  }

  /** A history faults exactly if `event_new` failed in it. */
  lemma {:induction false} FaultsExactly(history: seq<Op>)
    ensures Run(history).None? <==> exists i :: 0 <= i < |history| && history[i].Schedule? && history[i].fate == NoEvent
  {
    if history != [] {
      FaultsExactly(history[..|history| - 1]);
    }
  }

  // ----- what callbacks leave -----

  /** The answers of a schedule, as the caller of the C functions gets them, and what it leaves of the list:
      nothing but a completed schedule adds to it. */
  lemma ScheduleAnswers(r: Registry, oneShot: bool)
    ensures Apply(r, Schedule(oneShot, NoMemory)) == (r, Return(12))
    ensures var (r', ret) := Apply(r, Schedule(oneShot, AddFails)); ret == Return(22) && r'.live == r.live
    ensures var (r', ret) := Apply(r, Schedule(oneShot, Added));
            ret == Return(0) && |r'.live| == |r.live| + 1 && r'.live[1..] == r.live
            && r'.live[0].id == r.idCnt && r'.live[0].oneShot == oneShot
  {
  }

  /** Firing destroys exactly a one-shot event, and frees it; nothing else on the list moves. */
  lemma FiringExactly(r: Registry, k: nat)
    requires k < |r.live|
    ensures var r' := Apply(r, Fire(k)).0;
            if r.live[k].oneShot
            then r'.live == r.live[..k] + r.live[k + 1..] && r'.freed == r.freed + [r.live[k].id]
            else r' == r
  {
  }

  /** The operation takes this event off the list. */
  predicate Ends(op: Op, e: Entry) {
    op.Teardown? || op == Cancel(e.id)
  }

  lemma WithoutKeeps(live: seq<Entry>, i: nat, e: Entry)
    requires i < |live| && e in live && live[i] != e
    ensures e in Without(live, i)
  {
    var j :| 0 <= j < |live| && live[j] == e;
    var rest := Without(live, i);
    assert rest[if j < i then j else j - 1] == e;
  }

  /** One operation takes a live event that is no one-shot off the list exactly if it is the teardown or
      cancels the event's id; whatever fires, it stays. */
  lemma PeriodicEndsExactly(r: Registry, op: Op, e: Entry, n: nat)
    requires Ordered(r, n) && e in r.live && !e.oneShot
    ensures e in Apply(r, op).0.live <==> !Ends(op, e)
  {
    var r' := Apply(r, op).0;
    if op.Cancel? {
      var i := Find(r.live, op.id);
      if op.id == e.id {
        var k :| 0 <= k < |r.live| && r.live[k] == e;
        assert i == k;
      } else if i < |r.live| {
        WithoutKeeps(r.live, i, e);
      }
    } else if op.Fire? && op.index < |r.live| && r.live[op.index].oneShot {
      WithoutKeeps(r.live, op.index, e);
    }
  }

  /** An event that is gone does not come back: new ids are larger. */
  lemma GoneStaysGone(r: Registry, op: Op, e: Entry, n: nat)
    requires Ordered(r, n) && e.id < n && e !in r.live && (Draws(op) ==> n < UINT64_RANGE)
    ensures e !in Apply(r, op).0.live
  {
    if Draws(op) {
      SizeFits(n);
    }
  }

  lemma {:induction false} DrawnGrows(history: seq<Op>, more: seq<Op>)
    ensures Drawn(history) <= Drawn(history + more)
    decreases |more|
  {
    if more == [] {
      assert history + more == history;
    } else {
      DrawnGrows(history, more[..|more| - 1]);
      assert history + more == (history + more[..|more| - 1]) + [more[|more| - 1]];
      RunConcat(history + more[..|more| - 1], more[|more| - 1]);
    }
  }

  lemma LivesOn(before: seq<Op>, op: Op, e: Entry)
    requires Run(before + [op]).Some? && Drawn(before + [op]) <= UINT64_RANGE && e.id < Drawn(before) && !e.oneShot
    ensures Run(before).Some?
    ensures e in Run(before + [op]).value.live <==> e in Run(before).value.live && !Ends(op, e)
  {
    RunConcat(before, op);
    IdsOrdered(before);
    if e in Run(before).value.live {
      PeriodicEndsExactly(Run(before).value, op, e, Drawn(before));
    } else {
      GoneStaysGone(Run(before).value, op, e, Drawn(before));
    }
  }

  lemma BoundedId(history: seq<Op>, e: Entry)
    requires Run(history).Some? && Drawn(history) <= UINT64_RANGE && e in Run(history).value.live
    ensures e.id < Drawn(history)
  {
    IdsOrdered(history);
  }

  lemma OneOpBefore(before: seq<Op>, op: Op)
    requires Run(before + [op]).Some?
    ensures Run(before).Some? && Drawn(before) <= Drawn(before + [op])
  {
    RunConcat(before, op);
  }

  /** None of these operations takes the event off the list. */
  ghost predicate Spares(ops: seq<Op>, e: Entry) {
    forall i :: 0 <= i < |ops| ==> !Ends(ops[i], e)
  }

  lemma SparesSnoc(ops: seq<Op>, op: Op, e: Entry)
    ensures Spares(ops + [op], e) <==> Spares(ops, e) && !Ends(op, e)
  {
    var more := ops + [op];
    assert more[|ops|] == op && forall i :: 0 <= i < |ops| ==> more[i] == ops[i];
  }

  lemma LivesOneMore(history: seq<Op>, front: seq<Op>, op: Op, e: Entry)
    requires Run(history).Some? && Run(history + front + [op]).Some? && Drawn(history + front + [op]) <= UINT64_RANGE
    requires e in Run(history).value.live && !e.oneShot
    requires Run(history + front).Some? && (e in Run(history + front).value.live <==> Spares(front, e))
    ensures e in Run(history + front + [op]).value.live <==> Spares(front + [op], e)
  {
    SparesSnoc(front, op, e);
    RunConcat(history + front, op);
    DrawnGrows(history, front);
    BoundedId(history, e);
    LivesOn(history + front, op, e);
  }

  /** Over every history of at most 2^64 ids: an event that is no one-shot, once live, is live as long as
      there has been no teardown and no cancel of its id, and no longer; whatever fires meanwhile. */
  lemma {:induction false} PeriodicLivesExactly(history: seq<Op>, more: seq<Op>, e: Entry)
    requires Run(history).Some? && Run(history + more).Some? && Drawn(history + more) <= UINT64_RANGE
    requires e in Run(history).value.live && !e.oneShot
    ensures e in Run(history + more).value.live <==> Spares(more, e)
    decreases |more|
  {
    if more == [] {
      assert history + more == history;
    } else {
      var front, op := more[..|more| - 1], more[|more| - 1];
      assert more == front + [op] && history + more == history + front + [op];
      OneOpBefore(history + front, op);
      PeriodicLivesExactly(history, front, e);
      LivesOneMore(history, front, op, e);
    }
  }

  // ----- the counter wraps -----

  lemma {:induction false} RunConcat(a: seq<Op>, op: Op)
    ensures Run(a + [op]) == if Run(a).None? || Apply(Run(a).value, op).1 == Fault then None
                             else Some(Apply(Run(a).value, op).0)
    ensures Drawn(a + [op]) == Drawn(a) + if Draws(op) then 1 else 0
  {
    assert (a + [op])[..|a|] == a;
  }

  /** One event, then n times a schedule whose `event_add` fails. */
  function Exhaust(n: nat): seq<Op> {
    if n == 0 then [Schedule(false, Added)] else Exhaust(n - 1) + [Schedule(false, AddFails)]
  }

  lemma {:induction false} ExhaustRuns(n: nat)
    ensures var r := Run(Exhaust(n));
            r.Some? && r.value.live == [Entry(0, false)] && r.value.idCnt == ToSize(n + 1)
    ensures Drawn(Exhaust(n)) == n + 1
  {
    if n == 0 {
      assert Run([]) == Some(EMPTY);
      RunConcat([], Schedule(false, Added));
      assert [] + [Schedule(false, Added)] == Exhaust(0);
    } else {
      ExhaustRuns(n - 1);
      var r := Run(Exhaust(n - 1)).value;
      BumpWraps(n);
      RunConcat(Exhaust(n - 1), Schedule(false, AddFails));
      assert Apply(r, Schedule(false, AddFails)).0 == Registry(r.live, Bump(r.idCnt), r.freed + [r.idCnt]);
    }
  }

  /** The bound is tight: with one id more the 64-bit counter has come round, two live events
      share an id, and a successful cancel leaves the id live. */
  lemma IdsCollide()
    ensures var history := Exhaust(UINT64_RANGE - 1) + [Schedule(false, Added)];
            && Drawn(history) == UINT64_RANGE + 1
            && Run(history).Some? && Ids(Run(history).value.live) == [0, 0]
            && Apply(Run(history).value, Cancel(0)).1 == Return(EXIT_SUCCESS)
            && 0 in Ids(Apply(Run(history).value, Cancel(0)).0.live)
  {
    var n := UINT64_RANGE - 1;
    ExhaustRuns(n);
    var history := Exhaust(n) + [Schedule(false, Added)];
    RunConcat(Exhaust(n), Schedule(false, Added));
    var r := Run(history).value;
    var e := Entry(0, false);
    assert r.live == [e] + [e];
    assert r.live[1..] == [e] && Ids([e]) == [0];
    assert Find(r.live, 0) == 0 && Apply(r, Cancel(0)).0.live == [e];
  }

  /** One id more than there are: `IdsCollide`'s history, and `k` schedules whose `event_add` fails. */
  function Collision(k: nat): seq<Op> {
    if k == 0 then Exhaust(UINT64_RANGE - 1) + [Schedule(false, Added)]
    else Collision(k - 1) + [Schedule(false, AddFails)]
  }

  lemma {:induction false} CollisionRuns(k: nat)
    ensures Run(Collision(k)).Some? && Ids(Run(Collision(k)).value.live) == [0, 0]
    ensures Drawn(Collision(k)) == UINT64_RANGE + 1 + k
  {
    if k == 0 {
      IdsCollide();
    } else {
      CollisionRuns(k - 1);
      var r := Run(Collision(k - 1)).value;
      RunConcat(Collision(k - 1), Schedule(false, AddFails));
      assert Apply(r, Schedule(false, AddFails)).0 == Registry(r.live, Bump(r.idCnt), r.freed + [r.idCnt]);
    }
  }

  /** No two live events share an id. */
  ghost predicate UniqueIds(live: seq<Entry>) {
    forall i, j :: 0 <= i < j < |live| ==> live[i].id != live[j].id
  }

  /** Over the number of ids drawn: in every history that draws n of them live events have different ids
      exactly if n is at most 2^64. */
  lemma UniqueIdsExactly(n: nat)
    ensures (forall history :: Run(history).Some? && Drawn(history) == n ==> UniqueIds(Run(history).value.live))
       <==> n <= UINT64_RANGE
  {
    if n <= UINT64_RANGE {
      forall history | Run(history).Some? && Drawn(history) == n ensures UniqueIds(Run(history).value.live) {
        IdsOrdered(history);
      }
    } else {
      var k := n - UINT64_RANGE - 1;
      CollisionRuns(k);
      var live := Run(Collision(k)).value.live;
      assert |live| == 2 && live[0].id == live[1].id by {
        IdsAt(live);
      }
    }
  }

  lemma IdsAt(live: seq<Entry>)
    requires Ids(live) == [0, 0]
    ensures |live| == 2 && live[0].id == live[1].id == 0
  {
    assert live[1..] != [];
    assert Ids(live)[1..] == Ids(live[1..]);
    assert Ids(live[1..])[1..] == Ids(live[1..][1..]);
  }
}
