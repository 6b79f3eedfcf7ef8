/** The registry under two threads: the thread that schedules, cancels and finally tears down, and
    the event thread that runs the callbacks (src/events.c). One step is one access to shared
    memory or one library call, and the threads' steps interleave in any order.

    libevent is modelled by three facts: a one-shot event fires at most once per event_add; once
    event_del has returned the event does not fire; and event_del called by the other thread waits
    until no callback of the same event is running. Using freed memory, or a null pointer, faults. */
module RegistryThreads {
  import opened CTypes

  datatype Thread = Main | Loop

  datatype Link = Null | HeadFirst | NextOf(a: nat)

  /** A node, at the address that is its index. `frees` counts the calls of free. */
  datatype Node = Node(id: nat, oneShot: bool, next: Option<nat>, prev: Link, armed: bool, evFreed: bool, frees: nat)

  /** The statements of `_destroy_events_event`; LIST_REMOVE takes two. */
  datatype Phase = DelEv | FreeEv | Lock | Unlink1 | Unlink2 | Unlock | Free

  /** The statements of a schedule, from the lock on; LIST_INSERT_HEAD takes four. */
  datatype Insert = Acquire | SetNext | SetFirstPrev | SetFirst | SetPrev | AddEvent | ReleaseAdded | ReleaseFailed

  datatype MainPc =
    | Idle
    | Inserting(a: nat, ins: Insert)
    | Searching(id: nat)
    | Scanning(id: nat, cur: Option<nat>)
    | Destroying(a: nat, at: Phase, last: bool) // last: inside events_teardown
    | TearingDown
    | Done

  /** Cancelling the event thread does not tell libevent: if it was joined inside a callback, libevent
      takes that event to be running from then on. */
  datatype LoopPc = Waiting | InCallback(a: nat) | Destroys(a: nat, at: Phase) | Joined(during: Option<nat>)

  /** `list` is the list the links are meant to form; no step reads it. */
  datatype State = State(nodes: seq<Node>, first: Option<nat>, list: seq<nat>, mutex: Option<Thread>,
                         main: MainPc, loop: LoopPc, idCnt: nat, fault: bool)

  datatype Label =
    | Schedule(oneShot: bool, evOk: bool)
    | Cancel(id: nat)
    | Teardown
    | EventAdd(ok: bool)
    | MainStep
    | Fire(a: nat)
    | LoopStep

  const INIT := State([], None, [], None, Idle, Waiting, 0, false)

  // ----- steps -----

  predicate Dangling(s: State, a: nat) {
    |s.nodes| <= a || 0 < s.nodes[a].frees
  }

  function Crash(s: State): State {
    s.(fault := true)
  }

  function SetNode(s: State, a: nat, n: Node): State
    requires a < |s.nodes|
  {
    s.(nodes := s.nodes[a := n])
  }

  function Removed(list: seq<nat>, a: nat): seq<nat> {
    if list == [] then []
    else if list[0] == a then list[1..]
    else [list[0]] + Removed(list[1..], a)
  }

  /** One statement of `_destroy_events_event`; `None` while the lock is taken. */
  function DestroyStep(s: State, t: Thread, a: nat, at: Phase): Option<State> {
    if Dangling(s, a) then Some(Crash(s))
    else
      var n := s.nodes[a];
      match at
      case DelEv => Some(if n.evFreed then Crash(s) else SetNode(s, a, n.(armed := false)))
      case FreeEv => Some(if n.evFreed then Crash(s) else SetNode(s, a, n.(evFreed := true)))
      case Lock => if s.mutex.Some? then None else Some(s.(mutex := Some(t)))
      case Unlink1 =>
        Some(if n.next.None? then s
             else if Dangling(s, n.next.value) then Crash(s)
             else SetNode(s, n.next.value, s.nodes[n.next.value].(prev := n.prev)))
      case Unlink2 => Some(StoreThrough(s, n.prev, n.next).(list := Removed(s.list, a)))
      case Unlock => Some(s.(mutex := None))
      case Free => Some(SetNode(s, a, n.(frees := 1)))
  }

  /** `*le_prev = next`. */
  function StoreThrough(s: State, link: Link, next: Option<nat>): State {
    match link
    case Null => Crash(s)
    case HeadFirst => s.(first := next)
    case NextOf(b) => if Dangling(s, b) then Crash(s) else SetNode(s, b, s.nodes[b].(next := next))
  }

  function After(at: Phase): Option<Phase> {
    match at
    case DelEv => Some(FreeEv)
    case FreeEv => Some(Lock)
    case Lock => Some(Unlink1)
    case Unlink1 => Some(Unlink2)
    case Unlink2 => Some(Unlock)
    case Unlock => Some(Free)
    case Free => None
  }

  /** One statement of a schedule. Only the node's own links are reached through the node. */
  function InsertStep(s: State, a: nat, ins: Insert): Option<State> {
    match ins
    case Acquire => if s.mutex.Some? then None else Some(s.(mutex := Some(Main), main := Inserting(a, SetNext)))
    case SetNext =>
      Some(if Dangling(s, a) then Crash(s)
           else SetNode(s, a, s.nodes[a].(next := s.first)).(main := Inserting(a, SetFirstPrev)))
    case SetFirstPrev =>
      Some(if s.first.None? then s.(main := Inserting(a, SetFirst))
           else if Dangling(s, s.first.value) then Crash(s)
           else SetNode(s, s.first.value, s.nodes[s.first.value].(prev := NextOf(a))).(main := Inserting(a, SetFirst)))
    case SetFirst => Some(s.(first := Some(a), main := Inserting(a, SetPrev)))
    case SetPrev =>
      Some(if Dangling(s, a) then Crash(s)
           else SetNode(s, a, s.nodes[a].(prev := HeadFirst)).(main := Inserting(a, AddEvent), list := [a] + s.list))
    case AddEvent => None // see EventAdd
    case ReleaseAdded => Some(s.(mutex := None, main := Idle))
    case ReleaseFailed => Some(s.(mutex := None, main := Destroying(a, DelEv, false)))
  }

  /** One step of the search loop of `events_cancel`, which holds the lock. */
  function ScanStep(s: State, id: nat, cur: Option<nat>): State {
    if cur.None? then s.(mutex := None, main := Idle)
    else if Dangling(s, cur.value) then Crash(s)
    else if s.nodes[cur.value].id == id then s.(mutex := None, main := Destroying(cur.value, DelEv, false))
    else s.(main := Scanning(id, s.nodes[cur.value].next))
  }

  /** The event thread is inside the proxy of this event. */
  predicate Running(s: State, a: nat) {
    s.loop == InCallback(a) || (s.loop.Destroys? && s.loop.a == a)
  }

  /** libevent takes a callback of this event to be running, and event_del waits. */
  predicate Held(s: State, a: nat) {
    Running(s, a) || s.loop == Joined(Some(a))
  }

  /** Where the scheduling thread is after a statement of `_destroy_events_event`. */
  function Onwards(a: nat, at: Phase, last: bool): MainPc {
    if After(at).Some? then Destroying(a, After(at).value, last) else if last then TearingDown else Idle
  }

  function MainNext(s: State): Option<State> {
    match s.main
    case Inserting(a, ins) => InsertStep(s, a, ins)
    case Searching(id) => if s.mutex.Some? then None else Some(s.(mutex := Some(Main), main := Scanning(id, s.first)))
    case Scanning(id, cur) => Some(ScanStep(s, id, cur))
    case Destroying(a, at, last) =>
      if at == DelEv && Held(s, a) then None
      else
        var r := DestroyStep(s, Main, a, at);
        if r.None? then None
        else Some(r.value.(main := Onwards(a, at, last)))
    case TearingDown => Some(s.(main := if s.first.None? then Done else Destroying(s.first.value, DelEv, true)))
    case _ => None
  }

  function LoopNext(s: State): Option<State> {
    match s.loop
    case InCallback(a) =>
      Some(s.(loop := if a < |s.nodes| && s.nodes[a].oneShot then Destroys(a, DelEv) else Waiting))
    case Destroys(a, at) =>
      var r := DestroyStep(s, Loop, a, at);
      if r.None? then None
      else Some(r.value.(loop := if After(at).Some? then Destroys(a, After(at).value) else Waiting))
    case _ => None
  }

  /** The step with this label, if it is enabled. */
  function Next(s: State, l: Label): Option<State> {
    if s.fault then None
    else
      match l
      case Schedule(oneShot, evOk) =>
        if s.main != Idle then None
        else
          var a := |s.nodes|;
          var s' := s.(nodes := s.nodes + [Node(s.idCnt, oneShot, None, Null, false, false, 0)],
                       idCnt := (s.idCnt + 1) % 0x1_0000_0000_0000_0000, main := Inserting(a, Acquire));
          Some(if evOk then s' else Crash(s')) // the rollback passes a null event to event_del
      case Cancel(id) => if s.main == Idle then Some(s.(main := Searching(id))) else None
      case Teardown => // the join waits for a cancellation point of the event thread
        if s.main != Idle || !(s.loop == Waiting || s.loop.InCallback?) then None
        else Some(s.(main := TearingDown, loop := Joined(if s.loop.InCallback? then Some(s.loop.a) else None)))
      case EventAdd(ok) =>
        if !s.main.Inserting? || s.main.ins != AddEvent then None
        else if Dangling(s, s.main.a) then Some(Crash(s))
        else if ok then
          Some(SetNode(s, s.main.a, s.nodes[s.main.a].(armed := true)).(main := Inserting(s.main.a, ReleaseAdded)))
        else Some(s.(main := Inserting(s.main.a, ReleaseFailed)))
      case MainStep => MainNext(s)
      case Fire(a) =>
        if s.loop != Waiting || |s.nodes| <= a || !s.nodes[a].armed || s.nodes[a].evFreed then None
        else if Dangling(s, a) then Some(Crash(s)) // the proxy reads the callback from the node
        else Some(SetNode(s, a, s.nodes[a].(armed := !s.nodes[a].oneShot)).(loop := InCallback(a)))
      case LoopStep => LoopNext(s)
  }

  // ----- what every step keeps -----

  /** Both threads are destroying the same event: it was cancelled while its one-shot proxy ran. */
  predicate Overlap(s: State) {
    s.main.Destroying? && Running(s, s.main.a) && s.main.a < |s.nodes| && s.nodes[s.main.a].oneShot
  }

  predicate InUnlink(at: Phase) {
    at == Unlink1 || at == Unlink2 || at == Unlock
  }

  predicate MainInside(s: State) {
    || (s.main.Inserting? && s.main.ins != Acquire)
    || s.main.Scanning?
    || (s.main.Destroying? && InUnlink(s.main.at))
  }

  predicate LoopInside(s: State) {
    s.loop.Destroys? && InUnlink(s.loop.at)
  }

  /** The mutex is held by exactly the thread inside a critical section. */
  predicate Exclusive(s: State) {
    (s.mutex == Some(Main) <==> MainInside(s)) && (s.mutex == Some(Loop) <==> LoopInside(s))
  }

  /** Following `le_next` from `start` visits exactly the list. */
  ghost predicate Forward(nodes: seq<Node>, start: Option<nat>, list: seq<nat>)
    decreases list
  {
    if list == [] then start == None
    else start == Some(list[0]) && list[0] < |nodes| && Forward(nodes, nodes[list[0]].next, list[1..])
  }

  /** Each `le_prev` points to where the pointer to its node is stored: `link` for the first. */
  ghost predicate Backward(nodes: seq<Node>, link: Link, list: seq<nat>)
    decreases list
  {
    list != [] ==> list[0] < |nodes| && nodes[list[0]].prev == link && Backward(nodes, NextOf(list[0]), list[1..])
  }

  /** As Backward, but the node behind `x` already points past `x`. */
  ghost predicate Spliced(nodes: seq<Node>, link: Link, list: seq<nat>, x: nat)
    decreases list
  {
    && list != [] && list[0] < |nodes| && nodes[list[0]].prev == link
    && if list[0] == x then Backward(nodes, link, list[1..]) else Spliced(nodes, NextOf(list[0]), list[1..], x)
  }

  ghost predicate WellFormed(s: State) {
    Forward(s.nodes, s.first, s.list) && Backward(s.nodes, HeadFirst, s.list)
  }

  /** The node a thread is unlinking, if it is between the two stores of LIST_REMOVE. */
  function Unlinking(s: State): Option<nat> {
    if s.main.Destroying? && s.main.at == Unlink2 then Some(s.main.a)
    else if s.loop.Destroys? && s.loop.at == Unlink2 then Some(s.loop.a)
    else None
  }

  /** The node being inserted, if it is between the first and the last store of LIST_INSERT_HEAD. */
  function Linking(s: State): Option<(nat, Insert)> {
    if s.main.Inserting? && (s.main.ins == SetFirstPrev || s.main.ins == SetFirst || s.main.ins == SetPrev)
    then Some((s.main.a, s.main.ins))
    else None
  }

  /** What the links form, also in the middle of an insertion or removal. */
  ghost predicate Linked(s: State) {
    match Linking(s)
    case Some((a, ins)) =>
      && a < |s.nodes|
      && Forward(s.nodes, s.nodes[a].next, s.list)
      && s.first == (if ins == SetPrev then Some(a) else s.nodes[a].next)
      && Backward(s.nodes, if ins == SetFirstPrev then HeadFirst else NextOf(a), s.list)
    case None =>
      && Forward(s.nodes, s.first, s.list)
      && if Unlinking(s).Some? then Spliced(s.nodes, HeadFirst, s.list, Unlinking(s).value)
         else Backward(s.nodes, HeadFirst, s.list)
  }

  ghost predicate Distinct(list: seq<nat>) {
    list != [] ==> list[0] !in list[1..] && Distinct(list[1..])
  }

  predicate Unlisted(ins: Insert) {
    ins != AddEvent && ins != ReleaseAdded && ins != ReleaseFailed
  }

  /** The node is neither on the list nor freed, but in a thread's hands. */
  predicate InHands(s: State, a: nat) {
    || (s.main.Inserting? && s.main.a == a && Unlisted(s.main.ins))
    || (s.main.Destroying? && s.main.a == a && (s.main.at == Unlock || s.main.at == Free))
    || (s.loop.Destroys? && s.loop.a == a && (s.loop.at == Unlock || s.loop.at == Free))
  }

  /** A thread has freed the libevent event of this node and not yet unlinked the node. */
  predicate EvGone(s: State, a: nat) {
    || (s.main.Destroying? && s.main.a == a && (s.main.at == Lock || s.main.at == Unlink1 || s.main.at == Unlink2))
    || (s.loop.Destroys? && s.loop.a == a && (s.loop.at == Lock || s.loop.at == Unlink1 || s.loop.at == Unlink2))
  }

  /** Where every node is: on the list, in a thread's hands, or freed once. */
  ghost predicate Placed(s: State) {
    && Distinct(s.list)
    && (forall a :: a in s.list ==> a < |s.nodes|)
    && (forall a :: 0 <= a < |s.nodes| ==> PlacedAt(s, a))
  }

  predicate PlacedAt(s: State, a: nat)
    requires a < |s.nodes|
  {
    && s.nodes[a].frees == (if a in s.list || InHands(s, a) then 0 else 1)
    && !(a in s.list && InHands(s, a))
    && (s.nodes[a].armed ==> a in s.list && !s.nodes[a].evFreed)
    && (a in s.list && s.nodes[a].evFreed ==> EvGone(s, a))
  }

  /** What a thread destroying a node relies on. */
  ghost predicate DestroyOk(s: State, a: nat, at: Phase) {
    && a < |s.nodes|
    && (at == DelEv || at == FreeEv ==> a in s.list && !s.nodes[a].evFreed)
    && (at == Lock || at == Unlink1 || at == Unlink2 ==> a in s.list && s.nodes[a].evFreed)
    && (at == Unlock || at == Free ==> a !in s.list)
    && (at != DelEv ==> !s.nodes[a].armed)
  }

  ghost predicate MainOk(s: State) {
    match s.main
    case Inserting(a, ins) =>
      && a < |s.nodes| && (Unlisted(ins) <==> a !in s.list)
      && (ins != ReleaseAdded ==> !s.nodes[a].armed && !s.nodes[a].evFreed && !Running(s, a))
    case Scanning(id, cur) => cur.Some? ==> cur.value in s.list
    case Destroying(a, at, last) =>
      && DestroyOk(s, a, at)
      && (at != DelEv ==> !Running(s, a))
      && (last ==> s.loop.Joined?)
    case TearingDown => s.loop.Joined?
    case Done => s.loop.Joined? && s.list == []
    case _ => true
  }

  ghost predicate LoopOk(s: State) {
    match s.loop
    case InCallback(a) =>
      a in s.list && a < |s.nodes| && !s.nodes[a].evFreed && (s.nodes[a].oneShot ==> !s.nodes[a].armed)
    case Destroys(a, at) => DestroyOk(s, a, at) && s.nodes[a].oneShot && !s.nodes[a].armed
    case _ => true
  }

  ghost predicate Inv(s: State) {
    !s.fault && !Overlap(s) && Exclusive(s) && Linked(s) && Placed(s) && MainOk(s) && LoopOk(s)
  }

  // ----- preservation, statement by statement -----

  lemma {:induction false} ForwardFrame(nodes: seq<Node>, nodes': seq<Node>, start: Option<nat>, list: seq<nat>)
    requires Forward(nodes, start, list) && |nodes| <= |nodes'|
    requires forall x :: x in list && x < |nodes| ==> nodes'[x].next == nodes[x].next
    ensures Forward(nodes', start, list)
    decreases list
  {
    if list != [] {
      ForwardFrame(nodes, nodes', nodes[list[0]].next, list[1..]);
    }
  }

  lemma {:induction false} BackwardFrame(nodes: seq<Node>, nodes': seq<Node>, link: Link, list: seq<nat>)
    requires Backward(nodes, link, list) && |nodes| <= |nodes'|
    requires forall x :: x in list && x < |nodes| ==> nodes'[x].prev == nodes[x].prev
    ensures Backward(nodes', link, list)
    decreases list
  {
    if list != [] {
      BackwardFrame(nodes, nodes', NextOf(list[0]), list[1..]);
    }
  }

  lemma {:induction false} SplicedFrame(nodes: seq<Node>, nodes': seq<Node>, link: Link, list: seq<nat>, x: nat)
    requires Spliced(nodes, link, list, x) && |nodes| <= |nodes'|
    requires forall y :: y in list && y < |nodes| ==> nodes'[y].prev == nodes[y].prev
    ensures Spliced(nodes', link, list, x)
    decreases list
  {
    if list[0] == x {
      BackwardFrame(nodes, nodes', link, list[1..]);
    } else {
      SplicedFrame(nodes, nodes', NextOf(list[0]), list[1..], x);
    }
  }

  /** The links survive every step that changes no `next`, `prev` or first pointer. */
  lemma LinkedFrame(s: State, s': State)
    requires Linked(s) && s'.first == s.first && s'.list == s.list
    requires Linking(s') == Linking(s) && Unlinking(s') == Unlinking(s)
    requires |s.nodes| <= |s'.nodes|
    requires forall x :: 0 <= x < |s.nodes| ==>
               s'.nodes[x].next == s.nodes[x].next && s'.nodes[x].prev == s.nodes[x].prev
    ensures Linked(s')
  {
    match Linking(s)
    case Some((a, ins)) =>
      ForwardFrame(s.nodes, s'.nodes, s.nodes[a].next, s.list);
      BackwardFrame(s.nodes, s'.nodes, if ins == SetFirstPrev then HeadFirst else NextOf(a), s.list);
    case None =>
      ForwardFrame(s.nodes, s'.nodes, s.first, s.list);
      if Unlinking(s).Some? {
        SplicedFrame(s.nodes, s'.nodes, HeadFirst, s.list, Unlinking(s).value);
      } else {
        BackwardFrame(s.nodes, s'.nodes, HeadFirst, s.list);
      }
  }

  // inserting

  /** The four stores of LIST_INSERT_HEAD. */
  lemma SetNextLinks(nodes: seq<Node>, a: nat, first: Option<nat>, list: seq<nat>)
    requires a < |nodes| && a !in list && Forward(nodes, first, list) && Backward(nodes, HeadFirst, list)
    ensures var nodes' := nodes[a := nodes[a].(next := first)];
            Forward(nodes', first, list) && Backward(nodes', HeadFirst, list)
  {
    var nodes' := nodes[a := nodes[a].(next := first)];
    ForwardFrame(nodes, nodes', first, list);
    BackwardFrame(nodes, nodes', HeadFirst, list);
  }

  lemma SetFirstPrevLinks(nodes: seq<Node>, a: nat, first: Option<nat>, list: seq<nat>)
    requires list != [] && Distinct(list) && Forward(nodes, first, list) && Backward(nodes, HeadFirst, list)
    ensures first == Some(list[0]) && list[0] < |nodes|
    ensures var nodes' := nodes[list[0] := nodes[list[0]].(prev := NextOf(a))];
            Forward(nodes', first, list) && Backward(nodes', NextOf(a), list)
  {
    var nodes' := nodes[list[0] := nodes[list[0]].(prev := NextOf(a))];
    ForwardFrame(nodes, nodes', first, list);
    BackwardFrame(nodes, nodes', NextOf(list[0]), list[1..]);
  }

  lemma SetPrevLinks(nodes: seq<Node>, a: nat, list: seq<nat>)
    requires a < |nodes| && a !in list && Forward(nodes, nodes[a].next, list) && Backward(nodes, NextOf(a), list)
    ensures var nodes' := nodes[a := nodes[a].(prev := HeadFirst)];
            Forward(nodes', Some(a), [a] + list) && Backward(nodes', HeadFirst, [a] + list)
  {
    var nodes' := nodes[a := nodes[a].(prev := HeadFirst)];
    ForwardFrame(nodes, nodes', nodes[a].next, list);
    BackwardFrame(nodes, nodes', NextOf(a), list);
    assert ([a] + list)[1..] == list;
  }

  lemma InsertKeepsLinks(s: State, s': State)
    requires Linked(s) && Distinct(s.list) && Unlinking(s) == None
    requires s.main.Inserting? && (Unlisted(s.main.ins) ==> s.main.a !in s.list)
    requires InsertStep(s, s.main.a, s.main.ins) == Some(s') && !s'.fault
    ensures Linked(s')
  {
    var a := s.main.a;
    match s.main.ins
    case SetNext => SetNextLinks(s.nodes, a, s.first, s.list);
    case SetFirstPrev =>
      if s.list != [] {
        SetFirstPrevLinks(s.nodes, a, s.first, s.list);
      }
    case SetPrev => SetPrevLinks(s.nodes, a, s.list);
    case _ =>
  }

  lemma InsertDoesNotFault(s: State, s': State)
    requires Inv(s) && s.main.Inserting? && InsertStep(s, s.main.a, s.main.ins) == Some(s')
    ensures !s'.fault
  {
    assert PlacedAt(s, s.main.a);
    if s.main.ins == SetFirstPrev && s.first.Some? {
      assert s.first.value == s.list[0] && PlacedAt(s, s.list[0]);
    }
  }

  lemma InsertKeepsPlaces(s: State, s': State)
    requires Inv(s) && s.main.Inserting? && InsertStep(s, s.main.a, s.main.ins) == Some(s') && !s'.fault
    requires s.main.ins != SetPrev
    ensures Placed(s')
  {
    forall x | 0 <= x < |s'.nodes| ensures PlacedAt(s', x) {
      assert PlacedAt(s, x);
      assert InHands(s', x) == InHands(s, x) && EvGone(s', x) == EvGone(s, x);
    }
  }

  lemma SetPrevKeepsPlaces(s: State, s': State)
    requires Inv(s) && s.main.Inserting? && InsertStep(s, s.main.a, s.main.ins) == Some(s') && !s'.fault
    requires s.main.ins == SetPrev
    ensures Placed(s')
  {
    assert s'.list[1..] == s.list;
    forall x | 0 <= x < |s'.nodes| ensures PlacedAt(s', x) {
      assert PlacedAt(s, x);
    }
  }

  lemma InsertKeepsOwners(s: State, s': State)
    requires Inv(s) && s.main.Inserting? && InsertStep(s, s.main.a, s.main.ins) == Some(s') && !s'.fault
    ensures Exclusive(s') && MainOk(s') && LoopOk(s')
  {
  }

  lemma InsertKeeps(s: State, s': State)
    requires Inv(s) && s.main.Inserting? && InsertStep(s, s.main.a, s.main.ins) == Some(s') && !Overlap(s')
    ensures Inv(s')
  {
    InsertDoesNotFault(s, s');
    InsertKeepsOwners(s, s');
    InsertKeepsLinks(s, s');
    if s.main.ins == SetPrev {
      SetPrevKeepsPlaces(s, s');
    } else {
      InsertKeepsPlaces(s, s');
    }
  }

  lemma ScheduleKeeps(s: State, oneShot: bool, s': State)
    requires Inv(s) && Next(s, Schedule(oneShot, true)) == Some(s')
    ensures Inv(s')
  {
    LinkedFrame(s, s');
    forall x | 0 <= x < |s'.nodes| ensures PlacedAt(s', x) {
      if x < |s.nodes| {
        assert PlacedAt(s, x);
      }
    }
  }

  lemma EventAddKeeps(s: State, ok: bool, s': State)
    requires Inv(s) && Next(s, EventAdd(ok)) == Some(s')
    ensures Inv(s')
  {
    assert PlacedAt(s, s.main.a);
    LinkedFrame(s, s');
    forall x | 0 <= x < |s'.nodes| ensures PlacedAt(s', x) {
      assert PlacedAt(s, x);
    }
  }

  // searching

  lemma {:induction false} NextOnList(nodes: seq<Node>, start: Option<nat>, list: seq<nat>, c: nat)
    requires Forward(nodes, start, list) && c in list && c < |nodes| && nodes[c].next.Some?
    ensures nodes[c].next.value in list
    decreases list
  {
    if list[0] != c {
      NextOnList(nodes, nodes[list[0]].next, list[1..], c);
    }
  }

  lemma SearchKeeps(s: State, s': State)
    requires Inv(s) && (s.main.Idle? || s.main.Searching?) && s'.main != Idle && !Overlap(s')
    requires || Next(s, MainStep) == Some(s')
             || (s.main.Idle? && Next(s, Cancel(if s'.main.Searching? then s'.main.id else 0)) == Some(s'))
    ensures Inv(s')
  {
    forall x | 0 <= x < |s'.nodes| ensures PlacedAt(s', x) {
      assert PlacedAt(s, x);
    }
  }

  lemma ScanKeeps(s: State, s': State)
    requires Inv(s) && s.main.Scanning? && Next(s, MainStep) == Some(s') && !Overlap(s')
    ensures Inv(s')
  {
    if s.main.cur.Some? {
      var c := s.main.cur.value;
      assert PlacedAt(s, c);
      if s.nodes[c].next.Some? {
        NextOnList(s.nodes, s.first, s.list, c);
      }
    }
    forall x | 0 <= x < |s'.nodes| ensures PlacedAt(s', x) {
      assert PlacedAt(s, x);
    }
  }

  // unlinking

  lemma {:induction false} RemovedFacts(list: seq<nat>, x: nat)
    requires Distinct(list)
    ensures Distinct(Removed(list, x))
    ensures forall y :: y in Removed(list, x) <==> y in list && y != x
  {
    if list != [] && list[0] != x {
      RemovedFacts(list[1..], x);
      assert Removed(list, x)[1..] == Removed(list[1..], x);
    }
  }

  lemma BackwardRehead(nodes: seq<Node>, link: Link, link': Link, list: seq<nat>)
    requires list != [] && Distinct(list) && Backward(nodes, link, list)
    ensures list[0] < |nodes| && Backward(nodes[list[0] := nodes[list[0]].(prev := link')], link', list)
  {
    BackwardFrame(nodes, nodes[list[0] := nodes[list[0]].(prev := link')], NextOf(list[0]), list[1..]);
  }

  /** The first store of LIST_REMOVE: the next node's back link skips `x`. */
  lemma {:induction false} Unlink1Links(nodes: seq<Node>, nodes': seq<Node>, link: Link, start: Option<nat>,
                                        list: seq<nat>, x: nat)
    requires Forward(nodes, start, list) && Backward(nodes, link, list) && Distinct(list) && x in list && x < |nodes|
    requires nodes[x].next.Some? ==> nodes[x].next.value < |nodes|
    requires nodes' == if nodes[x].next.None? then nodes
                       else nodes[nodes[x].next.value := nodes[nodes[x].next.value].(prev := nodes[x].prev)]
    ensures Spliced(nodes', link, list, x)
    ensures nodes[x].next.Some? ==> nodes[x].next.value in list[1..]
    decreases list
  {
    if list[0] == x {
      if list[1..] != [] {
        BackwardRehead(nodes, NextOf(x), link, list[1..]);
      }
    } else {
      Unlink1Links(nodes, nodes', NextOf(list[0]), nodes[list[0]].next, list[1..], x);
    }
  }

  /** The second store: the pointer to `x`, wherever it is, takes over the next of `x`. */
  lemma {:induction false} Unlink2Links(nodes: seq<Node>, link: Link, start: Option<nat>, list: seq<nat>, x: nat)
    requires Forward(nodes, start, list) && Spliced(nodes, link, list, x) && Distinct(list) && x in list && x < |nodes|
    ensures list[0] == x ==>
              && nodes[x].prev == link && Forward(nodes, nodes[x].next, Removed(list, x))
              && Backward(nodes, link, Removed(list, x))
    ensures list[0] != x ==>
              && nodes[x].prev.NextOf? && nodes[x].prev.a in list && nodes[x].prev.a < |nodes|
              && var b := nodes[x].prev.a;
                 var nodes' := nodes[b := nodes[b].(next := nodes[x].next)];
                 Forward(nodes', start, Removed(list, x)) && Backward(nodes', link, Removed(list, x))
    decreases list
  {
    if list[0] != x {
      var h, tail := list[0], list[1..];
      Unlink2Links(nodes, NextOf(h), nodes[h].next, tail, x);
      var b := nodes[x].prev.a;
      var nodes' := nodes[b := nodes[b].(next := nodes[x].next)];
      assert Removed(list, x)[1..] == Removed(tail, x);
      RemovedFacts(tail, x);
      if tail[0] == x {
        ForwardFrame(nodes, nodes', nodes[x].next, Removed(tail, x));
        BackwardFrame(nodes, nodes', NextOf(h), Removed(tail, x));
      }
    }
  }

  ghost predicate SameLinks(s: State, r: State) {
    && r.first == s.first && r.list == s.list && |r.nodes| == |s.nodes|
    && forall x :: 0 <= x < |s.nodes| ==> r.nodes[x].next == s.nodes[x].next && r.nodes[x].prev == s.nodes[x].prev
  }

  /** Nodes and list after one statement of `_destroy_events_event`, apart from the links. */
  ghost predicate Effect(s: State, r: State, t: Thread, a: nat, at: Phase) {
    && !r.fault && |r.nodes| == |s.nodes| && r.main == s.main && r.loop == s.loop
    && r.list == (if at == Unlink2 then Removed(s.list, a) else s.list)
    && (at == Lock ==> s.mutex == None)
    && r.mutex == (if at == Lock then Some(t) else if at == Unlock then None else s.mutex)
    && forall x :: 0 <= x < |s.nodes| ==>
         && r.nodes[x].oneShot == s.nodes[x].oneShot
         && r.nodes[x].armed == (s.nodes[x].armed && !(x == a && at == DelEv))
         && r.nodes[x].evFreed == (s.nodes[x].evFreed || (x == a && at == FreeEv))
         && r.nodes[x].frees == (if x == a && at == Free then 1 else s.nodes[x].frees)
  }

  lemma DestroyEffect(s: State, t: Thread, a: nat, at: Phase, r: State)
    requires Inv(s) && DestroyOk(s, a, at) && s.nodes[a].frees == 0 && DestroyStep(s, t, a, at) == Some(r)
    requires at == Unlink1 ==> Linking(s) == None && Unlinking(s) == None
    requires at == Unlink2 ==> Linking(s) == None && Unlinking(s) == Some(a)
    ensures Effect(s, r, t, a, at)
    ensures at == Unlink1 ==> Forward(r.nodes, r.first, r.list) && Spliced(r.nodes, HeadFirst, r.list, a)
    ensures at == Unlink2 ==> WellFormed(r)
    ensures at != Unlink1 && at != Unlink2 ==> SameLinks(s, r)
  {
    if at == Unlink1 {
      if s.nodes[a].next.Some? {
        NextOnList(s.nodes, s.first, s.list, a);
        assert PlacedAt(s, s.nodes[a].next.value);
      }
      Unlink1Links(s.nodes, r.nodes, HeadFirst, s.first, s.list, a);
      ForwardFrame(s.nodes, r.nodes, s.first, s.list);
    } else if at == Unlink2 {
      Unlink2Links(s.nodes, HeadFirst, s.first, s.list, a);
      if s.list[0] != a {
        assert PlacedAt(s, s.nodes[a].prev.a);
      }
    }
  }

  // destroying, main thread

  function MainAfter(s: State, r: State): State
    requires s.main.Destroying?
  {
    var m := s.main;
    r.(main := Onwards(m.a, m.at, m.last))
  }

  ghost predicate MainDestroys(s: State, r: State) {
    && Inv(s) && s.main.Destroying? && !Running(s, s.main.a)
    && Effect(s, r, Main, s.main.a, s.main.at)
  }

  lemma MainDestroyPlaces(s: State, r: State)
    requires MainDestroys(s, r)
    ensures Placed(MainAfter(s, r))
  {
    var s' := MainAfter(s, r);
    RemovedFacts(s.list, s.main.a);
    forall x | 0 <= x < |s'.nodes| ensures PlacedAt(s', x) {
      assert PlacedAt(s, x);
    }
  }

  lemma MainDestroyOwners(s: State, r: State)
    requires MainDestroys(s, r)
    ensures Exclusive(MainAfter(s, r)) && MainOk(MainAfter(s, r)) && LoopOk(MainAfter(s, r))
  {
    RemovedFacts(s.list, s.main.a);
  }

  lemma MainDestroyKeeps(s: State, s': State)
    requires Inv(s) && s.main.Destroying? && MainNext(s) == Some(s')
    ensures Inv(s')
  {
    var a, at := s.main.a, s.main.at;
    var r := DestroyStep(s, Main, a, at).value;
    assert PlacedAt(s, a);
    assert !Running(s, a);
    DestroyEffect(s, Main, a, at, r);
    MainDestroyPlaces(s, r);
    MainDestroyOwners(s, r);
    if at != Unlink1 && at != Unlink2 {
      LinkedFrame(s, s');
    }
  }

  // destroying, event thread

  function LoopAfter(s: State, r: State): State
    requires s.loop.Destroys?
  {
    var l := s.loop;
    r.(loop := if After(l.at).Some? then Destroys(l.a, After(l.at).value) else Waiting)
  }

  ghost predicate LoopDestroys(s: State, r: State) {
    Inv(s) && s.loop.Destroys? && Effect(s, r, Loop, s.loop.a, s.loop.at)
  }

  lemma LoopDestroyPlaces(s: State, r: State)
    requires LoopDestroys(s, r)
    ensures Placed(LoopAfter(s, r))
  {
    var s' := LoopAfter(s, r);
    RemovedFacts(s.list, s.loop.a);
    forall x | 0 <= x < |s'.nodes| ensures PlacedAt(s', x) {
      assert PlacedAt(s, x);
    }
  }

  lemma LoopDestroyOwners(s: State, r: State)
    requires LoopDestroys(s, r)
    ensures Exclusive(LoopAfter(s, r)) && MainOk(LoopAfter(s, r)) && LoopOk(LoopAfter(s, r))
  {
    RemovedFacts(s.list, s.loop.a);
  }

  lemma LoopDestroyKeeps(s: State, s': State)
    requires Inv(s) && s.loop.Destroys? && LoopNext(s) == Some(s')
    ensures Inv(s')
  {
    var a, at := s.loop.a, s.loop.at;
    var r := DestroyStep(s, Loop, a, at).value;
    assert PlacedAt(s, a);
    DestroyEffect(s, Loop, a, at, r);
    LoopDestroyPlaces(s, r);
    LoopDestroyOwners(s, r);
    if at != Unlink1 && at != Unlink2 {
      LinkedFrame(s, s');
    }
  }

  // callbacks and teardown

  lemma FireKeeps(s: State, a: nat, s': State)
    requires Inv(s) && Next(s, Fire(a)) == Some(s') && !Overlap(s')
    ensures Inv(s')
  {
    assert PlacedAt(s, a);
    LinkedFrame(s, s');
    forall x | 0 <= x < |s'.nodes| ensures PlacedAt(s', x) {
      assert PlacedAt(s, x);
    }
  }

  lemma CallbackKeeps(s: State, s': State)
    requires Inv(s) && s.loop.InCallback? && LoopNext(s) == Some(s')
    ensures Inv(s')
  {
    LinkedFrame(s, s');
    forall x | 0 <= x < |s'.nodes| ensures PlacedAt(s', x) {
      assert PlacedAt(s, x);
    }
  }

  lemma TeardownKeeps(s: State, s': State)
    requires Inv(s)
    requires Next(s, Teardown) == Some(s') || (s.main == TearingDown && MainNext(s) == Some(s'))
    ensures Inv(s')
  {
    LinkedFrame(s, s');
    forall x | 0 <= x < |s'.nodes| ensures PlacedAt(s', x) {
      assert PlacedAt(s, x);
    }
    if s.first.Some? {
      assert PlacedAt(s, s.list[0]);
    }
  }

  /** Every step that neither starts an overlap nor follows a failed event_new keeps the invariant,
      and in particular does not fault. */
  lemma StepKeeps(s: State, l: Label, s': State)
    requires Inv(s) && Next(s, l) == Some(s') && !Overlap(s') && !(l.Schedule? && !l.evOk)
    ensures Inv(s')
  {
    match l
    case Schedule(oneShot, _) => ScheduleKeeps(s, oneShot, s');
    case Cancel(id) => SearchKeeps(s, s');
    case Teardown => TeardownKeeps(s, s');
    case EventAdd(ok) => EventAddKeeps(s, ok, s');
    case Fire(a) => FireKeeps(s, a, s');
    case LoopStep =>
      if s.loop.InCallback? {
        CallbackKeeps(s, s');
      } else {
        LoopDestroyKeeps(s, s');
      }
    case MainStep =>
      if s.main.Inserting? {
        InsertKeeps(s, s');
      } else if s.main.Searching? {
        SearchKeeps(s, s');
      } else if s.main.Scanning? {
        ScanKeeps(s, s');
      } else if s.main.Destroying? {
        MainDestroyKeeps(s, s');
      } else {
        TeardownKeeps(s, s');
      }
  }

  // ----- runs -----

  /** The state a sequence of steps leads to, if all of them are enabled in turn. */
  function Exec(s: State, labels: seq<Label>): Option<State> {
    if labels == [] then Some(s)
    else
      var last := |labels| - 1;
      var t := Exec(s, labels[..last]);
      if t.None? then None else Next(t.value, labels[last])
  }

  lemma ExecOneMore(s: State, labels: seq<Label>, l: Label)
    ensures Exec(s, labels + [l]) == if Exec(s, labels).None? then None else Next(Exec(s, labels).value, l)
  {
    assert (labels + [l])[..|labels|] == labels;
  }

  lemma {:induction false} ExecConcat(s: State, a: seq<Label>, b: seq<Label>)
    requires Exec(s, a).Some?
    ensures Exec(s, a + b) == Exec(Exec(s, a).value, b)
    decreases |b|
  {
    if b == [] {
      assert a + b == a;
    } else {
      var last := |b| - 1;
      ExecConcat(s, a, b[..last]);
      assert a + b == (a + b[..last]) + [b[last]] && b == b[..last] + [b[last]];
      ExecOneMore(s, a + b[..last], b[last]);
    }
  }

  /** No call of event_new fails in the run. */
  predicate EvOk(labels: seq<Label>) {
    forall i :: 0 <= i < |labels| && labels[i].Schedule? ==> labels[i].evOk
  }

  /** The run leads through a state in which both threads destroy the same event. */
  ghost predicate MeetsOverlap(s: State, labels: seq<Label>) {
    exists k :: 0 <= k <= |labels| && OverlapAfter(s, labels, k)
  }

  predicate OverlapAfter(s: State, labels: seq<Label>, k: nat)
    requires k <= |labels|
  {
    Exec(s, labels[..k]).Some? && Overlap(Exec(s, labels[..k]).value)
  }

  lemma InitInv()
    ensures Inv(INIT)
  {
  }

  lemma {:induction false} InvariantOverRuns(s: State, labels: seq<Label>)
    requires Inv(s) && EvOk(labels) && Exec(s, labels).Some? && !MeetsOverlap(s, labels)
    ensures Inv(Exec(s, labels).value)
    decreases |labels|
  {
    if labels != [] {
      var last := |labels| - 1;
      var front := labels[..last];
      if MeetsOverlap(s, front) {
        var k :| 0 <= k <= |front| && OverlapAfter(s, front, k);
        assert front[..k] == labels[..k];
        assert OverlapAfter(s, labels, k);
      }
      InvariantOverRuns(s, front);
      assert labels[..|labels|] == labels;
      assert !OverlapAfter(s, labels, |labels|);
      StepKeeps(Exec(s, front).value, labels[last], Exec(s, labels).value);
    }
  }

  /** Safety of every interleaving in which no event_new fails and no event is cancelled while its
      one-shot proxy runs: nothing faults; whenever the mutex is free the links form the list; no
      node on the list and no node a search stands on has been freed; no node is freed twice; and
      once teardown is done every node has been freed exactly once. */
  lemma SafeRuns(labels: seq<Label>)
    requires EvOk(labels) && Exec(INIT, labels).Some? && !MeetsOverlap(INIT, labels)
    ensures Safe(Exec(INIT, labels).value)
  {
    InitInv();
    InvariantOverRuns(INIT, labels);
    InvIsSafe(Exec(INIT, labels).value);
  }

  lemma {:induction false} FailedEventFaults(labels: seq<Label>)
    requires Exec(INIT, labels).Some? && !EvOk(labels)
    ensures Exec(INIT, labels).value.fault
    decreases |labels|
  {
    var last := |labels| - 1;
    var front := labels[..last];
    if !EvOk(front) {
      FailedEventFaults(front);
    }
  }

  /** A run without overlap faults exactly if a call of event_new failed in it. */
  lemma FaultsExactly(labels: seq<Label>)
    requires Exec(INIT, labels).Some? && !MeetsOverlap(INIT, labels)
    ensures Exec(INIT, labels).value.fault <==> !EvOk(labels)
  {
    if EvOk(labels) {
      SafeRuns(labels);
    } else {
      FailedEventFaults(labels);
    }
  }

  ghost predicate Safe(s: State) {
    && !s.fault
    && (s.mutex == None ==> WellFormed(s) && Distinct(s.list))
    && (forall a :: a in s.list ==> !Dangling(s, a))
    && (s.main.Scanning? ==> s.mutex == Some(Main) && (s.main.cur.Some? ==> !Dangling(s, s.main.cur.value)))
    && (forall a :: 0 <= a < |s.nodes| ==> s.nodes[a].frees <= 1)
    && (s.main == Done ==> forall a :: 0 <= a < |s.nodes| ==> s.nodes[a].frees == 1)
  }

  lemma InvIsSafe(s: State)
    requires Inv(s)
    ensures Safe(s)
  {
    forall a | 0 <= a < |s.nodes|
      ensures s.nodes[a].frees <= 1 && (a in s.list ==> s.nodes[a].frees == 0)
      ensures s.main == Done ==> s.nodes[a].frees == 1
    {
      assert PlacedAt(s, a);
    }
  }

  /** The teardown has come to the event in whose callback it joined the event thread. */
  predicate Stuck(s: State) {
    s.main.Destroying? && s.main.at == DelEv && s.loop == Joined(Some(s.main.a))
  }

  /** While a call is under way some thread can take a step, except exactly in the one state in which
      event_del waits for a callback whose thread is gone. */
  lemma NoDeadlock(s: State)
    requires Inv(s) && s.main != Idle && s.main != Done
    ensures (exists l :: Next(s, l).Some?) <==> !Stuck(s)
  {
    if LoopInside(s) {
      assert Next(s, LoopStep).Some?;
    } else if s.main.Inserting? && s.main.ins == AddEvent {
      assert Next(s, EventAdd(true)).Some?;
    } else if s.main.Destroying? && s.main.at == DelEv && Running(s, s.main.a) {
      MutexFree(s);
      assert Next(s, LoopStep).Some?;
    } else if !Stuck(s) {
      assert MainInside(s) || s.mutex == None by {
        if !MainInside(s) {
          MutexFree(s);
        }
      }
      assert Next(s, MainStep).Some?;
    }
  }

  /** A node that was never inserted cannot be unlinked: the last store of LIST_REMOVE faults. */
  lemma NullLinkFaults(s: State, t: Thread, a: nat)
    requires a < |s.nodes| && s.nodes[a].frees == 0 && s.nodes[a].prev == Null
    ensures DestroyStep(s, t, a, Unlink2).Some? && DestroyStep(s, t, a, Unlink2).value.fault
  {
  }

  /** The thread a step belongs to. */
  function Actor(l: Label): Thread {
    if l.Fire? || l.LoopStep? then Loop else Main
  }

  /** A step that changes a link of an existing node, or the head, is taken by the thread that
      holds the mutex. */
  lemma LinksChangeUnderLock(s: State, l: Label, s': State)
    requires Inv(s) && Next(s, l) == Some(s')
    requires s'.first != s.first || exists x :: 0 <= x < |s.nodes| && Relinked(s, s', x)
    ensures s.mutex == Some(Actor(l))
  {
    if l == MainStep && s.main.Destroying? {
      if s.main.at != Unlink1 && s.main.at != Unlink2 {
        DestroyLinks(s, Main, s.main.a, s.main.at);
      }
    } else if l == LoopStep && s.loop.Destroys? {
      if s.loop.at != Unlink1 && s.loop.at != Unlink2 {
        DestroyLinks(s, Loop, s.loop.a, s.loop.at);
      }
    }
  }

  lemma DestroyLinks(s: State, t: Thread, a: nat, at: Phase)
    requires DestroyStep(s, t, a, at).Some? && at != Unlink1 && at != Unlink2
    ensures SameLinks(s, DestroyStep(s, t, a, at).value)
  {
  }

  predicate Relinked(s: State, s': State, x: nat)
    requires x < |s.nodes|
  {
    x < |s'.nodes| && (s'.nodes[x].next != s.nodes[x].next || s'.nodes[x].prev != s.nodes[x].prev)
  }

  // ----- the overlap is exactly what goes wrong -----

  /** How many more steps the event thread's proxy takes. */
  function StepsLeft(at: Phase): nat {
    match at
    case DelEv => 7
    case FreeEv => 6
    case Lock => 5
    case Unlink1 => 4
    case Unlink2 => 3
    case Unlock => 2
    case Free => 1
  }

  /** The cancelling thread waits in event_del for the proxy of the event it is about to destroy. */
  predicate Waits(s: State, a: nat) {
    && !s.fault && s.main.Destroying? && s.main.a == a && s.main.at == DelEv
    && a < |s.nodes| && s.nodes[a].oneShot
    && match s.loop
       case InCallback(b) => b == a && s.mutex == None
       case Destroys(b, at) =>
         b == a && s.mutex == if at == Unlink1 || at == Unlink2 || at == Unlock then Some(Loop) else None
       case _ => false
  }

  /** From there, the proxy runs to its end, frees the node, and event_del then uses it. */
  lemma WaitingProxyMovesOn(s: State, a: nat)
    requires Waits(s, a)
    ensures LoopNext(s).Some?
    ensures var t := LoopNext(s).value;
            || t.fault
            || (t.loop == Waiting && !t.fault && t.main == s.main && a < |t.nodes| && 0 < t.nodes[a].frees)
            || (Waits(t, a) && t.loop.Destroys? && (s.loop.Destroys? ==> StepsLeft(t.loop.at) < StepsLeft(s.loop.at)))
  {
  }

  /** Steps that neither start nor answer a call of the scheduling thread. */
  predicate Quiet(labels: seq<Label>) {
    forall i :: 0 <= i < |labels| ==> labels[i].MainStep? || labels[i].LoopStep? || labels[i].Fire?
  }

  lemma {:induction false} WaitingEndsInFault(s: State, a: nat) returns (labels: seq<Label>)
    requires Waits(s, a)
    ensures Quiet(labels) && Exec(s, labels).Some? && Exec(s, labels).value.fault
    decreases if s.loop.InCallback? then 8 else StepsLeft(s.loop.at)
  {
    WaitingProxyMovesOn(s, a);
    var t := LoopNext(s).value;
    labels := Extend(s, [], s, LoopStep, t);
    if !t.fault {
      if t.loop == Waiting {
        labels := Extend(s, labels, t, MainStep, MainNext(t).value);
      } else {
        var rest := WaitingEndsInFault(t, a);
        ExecConcat(s, labels, rest);
        labels := labels + rest;
      }
    }
  }

  lemma OverlapBegins(s: State, l: Label, s': State)
    requires Inv(s) && Next(s, l) == Some(s') && Overlap(s')
    ensures Waits(s', s'.main.a)
  {
    if l.Fire? {
      FireOverlaps(s, l.a, s');
    } else if l.MainStep? && s.main.Scanning? {
      ScanOverlaps(s, s');
    } else if l.LoopStep? {
      LoopStepStartsNone(s, s');
    } else {
      MainStepStartsNone(s, l, s');
    }
  }

  lemma LoopStepStartsNone(s: State, s': State)
    requires Inv(s) && LoopNext(s) == Some(s')
    ensures !Overlap(s')
  {
    if s.loop.Destroys? {
      var r := DestroyStep(s, Loop, s.loop.a, s.loop.at).value;
      assert PlacedAt(s, s.loop.a);
      DestroyEffect(s, Loop, s.loop.a, s.loop.at, r);
    }
  }

  lemma MainStepStartsNone(s: State, l: Label, s': State)
    requires Inv(s) && Next(s, l) == Some(s') && !l.Fire? && !l.LoopStep? && !(l.MainStep? && s.main.Scanning?)
    ensures !Overlap(s')
  {
    if l.MainStep? && s.main.Destroying? {
      MainDestroyKeeps(s, s');
    } else if l.MainStep? && s.main.Inserting? {
      assert s'.main.Destroying? ==> s.main.ins == ReleaseFailed && s'.main.a == s.main.a && s'.loop == s.loop;
    }
  }

  lemma FireOverlaps(s: State, a: nat, s': State)
    requires Inv(s) && Next(s, Fire(a)) == Some(s') && Overlap(s')
    ensures Waits(s', s'.main.a)
  {
    assert PlacedAt(s, a);
    assert s.main.a == a && s.main.at == DelEv;
    MutexFree(s);
  }

  lemma MutexFree(s: State)
    requires Exclusive(s) && !MainInside(s) && !LoopInside(s)
    ensures s.mutex == None
  {
    match s.mutex
    case None =>
    case Some(Main) =>
    case Some(Loop) =>
  }

  lemma ScanOverlaps(s: State, s': State)
    requires Inv(s) && s.main.Scanning? && Some(s') == Some(ScanStep(s, s.main.id, s.main.cur)) && Overlap(s')
    ensures Waits(s', s'.main.a)
  {
    assert PlacedAt(s, s.main.cur.value);
  }

  /** From every state of a safe run: some continuation faults exactly if some continuation has an
      event cancelled while its one-shot proxy runs. */
  lemma FaultIffOverlap(s: State)
    requires Inv(s)
    ensures (exists labels :: EvOk(labels) && Exec(s, labels).Some? && Exec(s, labels).value.fault)
       <==> (exists labels :: EvOk(labels) && MeetsOverlap(s, labels))
  {
    if labels :| EvOk(labels) && Exec(s, labels).Some? && Exec(s, labels).value.fault {
      if !MeetsOverlap(s, labels) {
        InvariantOverRuns(s, labels);
        assert false;
      }
    }
    if labels :| EvOk(labels) && MeetsOverlap(s, labels) {
      var k :| 0 <= k <= |labels| && OverlapAfter(s, labels, k);
      var faulty := OverlapLeadsToFault(s, labels[..k]);
    }
  }

  lemma {:induction false} OverlapLeadsToFault(s: State, labels: seq<Label>) returns (faulty: seq<Label>)
    requires Inv(s) && EvOk(labels) && Exec(s, labels).Some? && Overlap(Exec(s, labels).value)
    ensures EvOk(faulty) && Exec(s, faulty).Some? && Exec(s, faulty).value.fault
    decreases |labels|
  {
    var last := |labels| - 1;
    var front := labels[..last];
    if MeetsOverlap(s, front) {
      var k :| 0 <= k <= |front| && OverlapAfter(s, front, k);
      faulty := OverlapLeadsToFault(s, front[..k]);
    } else {
      InvariantOverRuns(s, front);
      var t := Exec(s, labels).value;
      OverlapBegins(Exec(s, front).value, labels[last], t);
      var rest := WaitingEndsInFault(t, t.main.a);
      ExecConcat(s, labels, rest);
      faulty := labels + rest;
    }
  }

  /** It can happen: a one-shot event fires, and is cancelled while its callback runs. */
  lemma CancelDuringCallbackFaults() returns (labels: seq<Label>)
    ensures EvOk(labels) && Exec(INIT, labels).Some? && Exec(INIT, labels).value.fault
  {
    var node := Node(0, true, None, HeadFirst, true, false, 0);
    var armed := State([node], Some(0), [0], None, Idle, Waiting, 1, false);
    labels := OneShotScheduled();
    assert [node][0 := node.(armed := false)] == [node.(armed := false)];
    var fired := armed.(nodes := [node.(armed := false)], loop := InCallback(0));
    labels := Extend(INIT, labels, armed, Fire(0), fired);
    labels := Extend(INIT, labels, fired, Cancel(0), fired.(main := Searching(0)));
    labels := Extend(INIT, labels, fired.(main := Searching(0)), MainStep,
                     fired.(mutex := Some(Main), main := Scanning(0, Some(0))));
    labels := Extend(INIT, labels, fired.(mutex := Some(Main), main := Scanning(0, Some(0))), MainStep,
                     fired.(main := Destroying(0, DelEv, false)));
    InitInv();
    labels := OverlapLeadsToFault(INIT, labels);
  }

  /** The run that schedules one one-shot event, up to the lock, to the last store of the insertion,
      and to the end. */
  lemma OneShotAllocated() returns (run: seq<Label>)
    ensures run == [Schedule(true, true), MainStep, MainStep]
    ensures var n := Node(0, true, None, Null, false, false, 0);
            Exec(INIT, run) == Some(State([n], None, [], Some(Main), Inserting(0, SetFirstPrev), Waiting, 1, false))
  {
    var n := Node(0, true, None, Null, false, false, 0);
    assert [] + [n] == [n] && [n][0 := n] == [n];
    var s := INIT.(nodes := [n], idCnt := 1, main := Inserting(0, Acquire));
    run := Extend(INIT, [], INIT, Schedule(true, true), s);
    run := Extend(INIT, run, s, MainStep, s.(mutex := Some(Main), main := Inserting(0, SetNext)));
    run := Extend(INIT, run, s.(mutex := Some(Main), main := Inserting(0, SetNext)), MainStep,
                  s.(mutex := Some(Main), main := Inserting(0, SetFirstPrev)));
  }

  lemma OneShotInserted() returns (run: seq<Label>)
    ensures run == [Schedule(true, true), MainStep, MainStep, MainStep, MainStep, MainStep]
    ensures var n := Node(0, true, None, HeadFirst, false, false, 0);
            Exec(INIT, run) == Some(State([n], Some(0), [0], Some(Main), Inserting(0, AddEvent), Waiting, 1, false))
  {
    var n := Node(0, true, None, Null, false, false, 0);
    var s := State([n], None, [], Some(Main), Inserting(0, SetFirstPrev), Waiting, 1, false);
    assert [n][0 := n.(prev := HeadFirst)] == [n.(prev := HeadFirst)] && [0] + [] == [0];
    run := OneShotAllocated();
    run := Extend(INIT, run, s, MainStep, s.(main := Inserting(0, SetFirst)));
    run := Extend(INIT, run, s.(main := Inserting(0, SetFirst)), MainStep,
                  s.(first := Some(0), main := Inserting(0, SetPrev)));
    run := Extend(INIT, run, s.(first := Some(0), main := Inserting(0, SetPrev)), MainStep,
                  s.(nodes := [n.(prev := HeadFirst)], first := Some(0), list := [0], main := Inserting(0, AddEvent)));
  }

  lemma OneShotScheduled() returns (run: seq<Label>)
    ensures run == [Schedule(true, true), MainStep, MainStep, MainStep, MainStep, MainStep, EventAdd(true), MainStep]
    ensures var n := Node(0, true, None, HeadFirst, true, false, 0);
            Exec(INIT, run) == Some(State([n], Some(0), [0], None, Idle, Waiting, 1, false))
  {
    var n := Node(0, true, None, HeadFirst, false, false, 0);
    var s := State([n], Some(0), [0], Some(Main), Inserting(0, AddEvent), Waiting, 1, false);
    assert [n][0 := n.(armed := true)] == [n.(armed := true)];
    run := OneShotInserted();
    var t := s.(nodes := [n.(armed := true)], main := Inserting(0, ReleaseAdded));
    run := Extend(INIT, run, s, EventAdd(true), t);
    run := Extend(INIT, run, t, MainStep, t.(mutex := None, main := Idle));
  }

  lemma Extend(s: State, labels: seq<Label>, t: State, l: Label, t': State) returns (longer: seq<Label>)
    requires Exec(s, labels) == Some(t) && Next(t, l) == Some(t')
    ensures longer == labels + [l] && Exec(s, longer) == Some(t')
  {
    longer := labels + [l];
    ExecOneMore(s, labels, l);
  }
}
