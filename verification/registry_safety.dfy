/** When `events_cancel` is safe: exactly if no live one-shot event has the id. What happens otherwise:
    if the event is cancelled while its proxy runs, the cancelling thread never gets past event_del. */
module RegistrySafety {
  import opened CTypes
  import opened RegistryThreads
  import opened RegistryCancel

  // ----- an overlap is fatal -----

  /** The proxy has freed the event that the cancelling thread is about to pass to event_del. */
  predicate Freed(s: State, a: nat) {
    && !s.fault && s.main.Destroying? && s.main.a == a && s.main.at == DelEv
    && a < |s.nodes| && 0 < s.nodes[a].frees && !Held(s, a)
  }

  predicate Doomed(s: State, a: nat) {
    s.fault || Waits(s, a) || Freed(s, a)
  }

  lemma DoomedStep(s: State, a: nat, l: Label, s': State)
    requires Doomed(s, a) && Next(s, l) == Some(s')
    ensures Doomed(s', a)
  {
    if Waits(s, a) {
      assert l == LoopStep;
      WaitingProxyMovesOn(s, a);
    } else if l == LoopStep {
      FreedLoopStep(s, a, s');
    }
  }

  lemma FreedLoopStep(s: State, a: nat, s': State)
    requires Freed(s, a) && Next(s, LoopStep) == Some(s')
    ensures Doomed(s', a)
  {
    if s.loop.Destroys? {
      StillFreed(s, Loop, s.loop.a, s.loop.at, a);
    }
  }

  lemma StillFreed(s: State, t: Thread, b: nat, at: Phase, a: nat)
    requires a < |s.nodes| && 0 < s.nodes[a].frees && DestroyStep(s, t, b, at).Some?
    ensures var r := DestroyStep(s, t, b, at).value;
            |r.nodes| == |s.nodes| && 0 < r.nodes[a].frees && r.main == s.main
  {
  }

  lemma {:induction false} DoomedForEver(s: State, a: nat, labels: seq<Label>)
    requires Doomed(s, a) && Exec(s, labels).Some?
    ensures Doomed(Exec(s, labels).value, a)
    decreases |labels|
  {
    if labels != [] {
      var last := |labels| - 1;
      DoomedForEver(s, a, labels[..last]);
      DoomedStep(Exec(s, labels[..last]).value, a, labels[last], Exec(s, labels).value);
    }
  }

  lemma OverlapBefore(s: State, labels: seq<Label>, k: nat)
    requires k < |labels| && OverlapAfter(s, labels, k)
    ensures MeetsOverlap(s, labels[..|labels| - 1])
  {
    var front := labels[..|labels| - 1];
    assert front[..k] == labels[..k];
    assert OverlapAfter(s, front, k);
  }

  /** An overlap that was not there before the last step is there after it. */
  lemma OverlapIsNew(s: State, labels: seq<Label>)
    requires labels != [] && MeetsOverlap(s, labels) && !MeetsOverlap(s, labels[..|labels| - 1])
    ensures Exec(s, labels).Some? && Overlap(Exec(s, labels).value)
  {
    var k :| 0 <= k <= |labels| && OverlapAfter(s, labels, k);
    if k < |labels| {
      OverlapBefore(s, labels, k);
    } else {
      assert labels[..k] == labels;
    }
  }

  /** Every run that meets the overlap ends in a fault or with the cancelling thread still in front of
      event_del: it never gets past it. */
  lemma {:induction false} OverlapIsFatal(s: State, labels: seq<Label>) returns (a: nat)
    requires Inv(s) && EvOk(labels) && Exec(s, labels).Some? && MeetsOverlap(s, labels)
    ensures Doomed(Exec(s, labels).value, a)
    decreases |labels|
  {
    var last := |labels| - 1;
    var front := labels[..last];
    if MeetsOverlap(s, front) {
      a := OverlapIsFatal(s, front);
      DoomedStep(Exec(s, front).value, a, labels[last], Exec(s, labels).value);
    } else {
      OverlapIsNew(s, labels);
      InvariantOverRuns(s, front);
      a := Exec(s, labels).value.main.a;
      OverlapBegins(Exec(s, front).value, labels[last], Exec(s, labels).value);
    }
  }

  /** And from every state on the way a fault can still be reached. */
  lemma DoomedCanFault(s: State, a: nat) returns (labels: seq<Label>)
    requires Doomed(s, a)
    ensures Quiet(labels) && Exec(s, labels).Some? && Exec(s, labels).value.fault
  {
    if s.fault {
      labels := [];
    } else if Waits(s, a) {
      labels := WaitingEndsInFault(s, a);
    } else {
      labels := Extend(s, [], s, MainStep, MainNext(s).value);
    }
  }

  // ----- which events can fire -----

  /** The scheduling thread is about to arm this event, or has given up on it. */
  predicate Handled(s: State, a: nat) {
    || (s.main.Inserting? && s.main.a == a && (s.main.ins == AddEvent || s.main.ins == ReleaseFailed))
    || (s.main.Destroying? && s.main.a == a)
  }

  predicate ReadyAt(s: State, a: nat)
    requires a < |s.nodes|
  {
    s.nodes[a].armed || (s.nodes[a].oneShot && Running(s, a)) || Handled(s, a)
  }

  /** Until teardown every event on the list can fire, or is firing, or is in the other thread's hands. */
  ghost predicate Ready(s: State) {
    && (s.loop.Joined? ==> s.main.TearingDown? || s.main.Done? || (s.main.Destroying? && s.main.last))
    && (!s.loop.Joined? ==> forall a :: a in s.list && a < |s.nodes| ==> ReadyAt(s, a))
  }

  /** A step outside a schedule keeps which events are one-shot. */
  lemma KindsKept(s: State, l: Label, s': State)
    requires Next(s, l) == Some(s') && !l.Schedule?
    ensures |s'.nodes| == |s.nodes| && forall a :: 0 <= a < |s.nodes| ==> s'.nodes[a].oneShot == s.nodes[a].oneShot
  {
    if l == MainStep && s.main.Inserting? {
      InsertKeepsKinds(s, s.main.a, s.main.ins);
    } else if l == MainStep && s.main.Destroying? {
      DestroyKeepsKinds(s, Main, s.main.a, s.main.at);
    } else if l == LoopStep && s.loop.Destroys? {
      DestroyKeepsKinds(s, Loop, s.loop.a, s.loop.at);
    }
  }

  ghost predicate SameKinds(s: State, s': State) {
    |s'.nodes| == |s.nodes| && forall a :: 0 <= a < |s.nodes| ==> s'.nodes[a].oneShot == s.nodes[a].oneShot
  }

  lemma DestroyKeepsKinds(s: State, t: Thread, a: nat, at: Phase)
    requires DestroyStep(s, t, a, at).Some?
    ensures SameKinds(s, DestroyStep(s, t, a, at).value)
  {
  }

  lemma InsertKeepsKinds(s: State, a: nat, ins: Insert)
    requires InsertStep(s, a, ins).Some?
    ensures SameKinds(s, InsertStep(s, a, ins).value)
  {
  }

  /** Only event_add arms, only a firing one-shot and event_del disarm. */
  lemma ArmedKept(s: State, l: Label, s': State, a: nat)
    requires Next(s, l) == Some(s') && !l.Schedule? && a < |s.nodes| == |s'.nodes| && s.nodes[a].armed
    ensures || s'.nodes[a].armed
            || (l == Fire(a) && s.nodes[a].oneShot)
            || (l == MainStep && s.main.Destroying? && s.main.a == a && s.main.at == DelEv)
            || (l == LoopStep && s.loop.Destroys? && s.loop.a == a && s.loop.at == DelEv)
  {
    if l == MainStep && s.main.Inserting? {
      InsertKeepsArmed(s, s.main.a, s.main.ins, a);
    } else if l == MainStep && s.main.Destroying? {
      DestroyKeepsArmed(s, Main, s.main.a, s.main.at, a);
    } else if l == LoopStep && s.loop.Destroys? {
      DestroyKeepsArmed(s, Loop, s.loop.a, s.loop.at, a);
    }
  }

  lemma DestroyKeepsArmed(s: State, t: Thread, b: nat, at: Phase, a: nat)
    requires DestroyStep(s, t, b, at).Some? && a < |s.nodes|
    ensures a < |DestroyStep(s, t, b, at).value.nodes|
    ensures (at == DelEv && a == b) || DestroyStep(s, t, b, at).value.nodes[a].armed == s.nodes[a].armed
  {
  }

  lemma InsertKeepsArmed(s: State, b: nat, ins: Insert, a: nat)
    requires InsertStep(s, b, ins).Some? && a < |s.nodes|
    ensures a < |InsertStep(s, b, ins).value.nodes|
    ensures InsertStep(s, b, ins).value.nodes[a].armed == s.nodes[a].armed
  {
  }

  /** A step of the scheduling thread leaves other events as ready as they were. */
  lemma ReadyAfterMain(s: State, s': State, a: nat)
    requires Inv(s) && Ready(s) && Next(s, MainStep) == Some(s') && !s'.fault && !s.loop.Joined?
    requires a in s'.list && a < |s.nodes| == |s'.nodes|
    ensures ReadyAt(s', a)
  {
    ListChanges(s, MainStep, s');
    KindsKept(s, MainStep, s');
    assert s'.loop == s.loop;
    if s.main.Inserting? {
      ReadyAfterInsert(s, s', a);
    } else {
      if s'.list != s.list {
        RemovedFacts(s.list, s.main.a);
      }
      assert ReadyAt(s, a);
      if s.nodes[a].armed {
        ArmedKept(s, MainStep, s', a);
      }
    }
  }

  lemma ReadyAfterInsert(s: State, s': State, a: nat)
    requires Inv(s) && Ready(s) && s.main.Inserting? && Next(s, MainStep) == Some(s') && !s.loop.Joined?
    requires a in s'.list && a < |s.nodes| == |s'.nodes| && SameKinds(s, s')
    ensures ReadyAt(s', a)
  {
    if a in s.list {
      assert ReadyAt(s, a);
      if s.nodes[a].armed {
        ArmedKept(s, MainStep, s', a);
      }
    }
  }

  lemma ReadyAfterCallback(s: State, s': State, a: nat)
    requires Ready(s) && s.loop.InCallback? && Next(s, LoopStep) == Some(s')
    requires a in s.list && a < |s.nodes|
    ensures s'.list == s.list && a < |s'.nodes| && ReadyAt(s', a)
  {
    assert ReadyAt(s, a);
  }

  lemma ReadyAfterLoop(s: State, s': State, a: nat)
    requires Inv(s) && Ready(s) && Next(s, LoopStep) == Some(s') && !s'.fault
    requires a in s'.list && a < |s.nodes| == |s'.nodes|
    ensures ReadyAt(s', a)
  {
    ListChanges(s, LoopStep, s');
    if s.loop.InCallback? {
      ReadyAfterCallback(s, s', a);
    } else {
      if s'.list != s.list {
        RemovedFacts(s.list, s.loop.a);
      }
      KindsKept(s, LoopStep, s');
      assert ReadyAt(s, a);
      if s.nodes[a].armed {
        ArmedKept(s, LoopStep, s', a);
      }
    }
  }

  lemma ReadyAfterSchedule(s: State, l: Label, s': State)
    requires Inv(s) && Ready(s) && l.Schedule? && Next(s, l) == Some(s')
    ensures Ready(s')
  {
    assert forall a :: a in s.list ==> a < |s.nodes|;
    forall a | a in s'.list && a < |s'.nodes| && !s'.loop.Joined? ensures ReadyAt(s', a) {
      assert ReadyAt(s, a);
    }
  }

  lemma ReadyKept(s: State, l: Label, s': State)
    requires Inv(s) && Ready(s) && Next(s, l) == Some(s') && !s'.fault
    ensures Ready(s')
  {
    if l.Schedule? {
      ReadyAfterSchedule(s, l, s');
    } else if !s'.loop.Joined? {
      KindsKept(s, l, s');
      forall a | a in s'.list && a < |s'.nodes| ensures ReadyAt(s', a) {
        if l == MainStep {
          ReadyAfterMain(s, s', a);
        } else if l == LoopStep {
          ReadyAfterLoop(s, s', a);
        } else {
          assert ReadyAt(s, a);
        }
      }
    }
  }

  // ----- exactly when cancelling is safe -----

  /** The event thread is taking the event off the list, under the lock. */
  predicate BeingUnlinked(s: State, a: nat) {
    s.loop.Destroys? && s.loop.a == a && (s.loop.at == Unlink1 || s.loop.at == Unlink2)
  }

  /** A one-shot event with this id is on the list, and stays there until the lock is next free. */
  predicate LiveOneShotAt(s: State, id: nat, a: nat) {
    a in s.list && a < |s.nodes| && s.nodes[a].oneShot && s.nodes[a].id == id && !BeingUnlinked(s, a)
  }

  ghost predicate LiveOneShot(s: State, id: nat) {
    exists a :: LiveOneShotAt(s, id, a)
  }

  /** No interleaving of the call with callbacks and their proxies faults. */
  ghost predicate CancelSafe(s: State, id: nat) {
    forall labels :: Quiet(labels) && Exec(s, [Cancel(id)] + labels).Some? ==>
      !Exec(s, [Cancel(id)] + labels).value.fault
  }

  /** While the call is under way it searches for `id`, or destroys an event that is no one-shot. */
  ghost predicate Cancelling(s: State, id: nat) {
    && !LiveOneShot(s, id)
    && match s.main
       case Idle => true
       case Searching(i) => i == id
       case Scanning(i, _) => i == id
       case Destroying(a, _, last) => !last && a < |s.nodes| && !s.nodes[a].oneShot
       case _ => false
  }

  /** An event being taken off the list is off it before the lock is free again. */
  lemma UnlinkingEnds(s: State, l: Label, s': State, a: nat)
    requires Inv(s) && BeingUnlinked(s, a) && (l == MainStep || l == LoopStep || l.Fire?) && Next(s, l) == Some(s')
    ensures BeingUnlinked(s', a) || a !in s'.list
  {
    if l == LoopStep && s.loop.at == Unlink2 {
      RemovedFacts(s.list, a);
      assert PlacedAt(s, a) && !Dangling(s, a);
      assert s'.list == Removed(s.list, a);
    }
  }

  /** The list does not grow while no insertion is under way. */
  lemma ListShrinks(s: State, l: Label, s': State, a: nat)
    requires Inv(s) && Next(s, l) == Some(s') && !s.main.Inserting? && a in s'.list
    ensures a in s.list && a < |s.nodes|
  {
    ListChanges(s, l, s');
    if s'.list != s.list {
      RemovedFacts(s.list, if l == MainStep then s.main.a else s.loop.a);
    }
  }

  lemma StillNoOneShot(s: State, id: nat, l: Label, s': State)
    requires Inv(s) && !LiveOneShot(s, id) && Next(s, l) == Some(s') && !s.main.Inserting?
    requires l == MainStep || l == LoopStep || l.Fire?
    ensures !LiveOneShot(s', id)
  {
    KindsKept(s, l, s');
    IdsKept(s, l, s');
    if a :| LiveOneShotAt(s', id, a) {
      ListShrinks(s, l, s', a);
      assert !LiveOneShotAt(s, id, a);
      UnlinkingEnds(s, l, s', a);
    }
  }

  /** What a step makes of a call that will not touch a one-shot event. */
  lemma CallGoesOn(s: State, id: nat, l: Label, s': State)
    requires Inv(s) && Cancelling(s, id) && (l == MainStep || l == LoopStep || l.Fire?) && Next(s, l) == Some(s')
    ensures !s'.main.Inserting? && !s'.main.TearingDown? && !s'.main.Done?
    ensures s'.main.Searching? || s'.main.Scanning? ==> s'.main.id == id
    ensures s'.main.Destroying? ==> !s'.main.last && s'.main.a < |s.nodes| && !s.nodes[s'.main.a].oneShot
  {
    if s.main.Scanning? && l == MainStep && s.main.cur.Some? {
      var c := s.main.cur.value;
      assert PlacedAt(s, c) && !LiveOneShotAt(s, id, c);
    }
  }

  lemma CancellingKept(s: State, id: nat, l: Label, s': State)
    requires Inv(s) && Cancelling(s, id) && (l == MainStep || l == LoopStep || l.Fire?) && Next(s, l) == Some(s')
    ensures Inv(s') && Cancelling(s', id)
  {
    StillNoOneShot(s, id, l, s');
    KindsKept(s, l, s');
    CallGoesOn(s, id, l, s');
    StepKeeps(s, l, s');
  }

  lemma {:induction false} CancellingOverRuns(s: State, id: nat, labels: seq<Label>)
    requires Inv(s) && Cancelling(s, id) && Quiet(labels) && Exec(s, labels).Some?
    ensures Inv(Exec(s, labels).value)
    ensures Cancelling(Exec(s, labels).value, id)
    decreases |labels|
  {
    if labels != [] {
      var last := |labels| - 1;
      CancellingOverRuns(s, id, labels[..last]);
      CancellingKept(Exec(s, labels[..last]).value, id, labels[last], Exec(s, labels).value);
    }
  }

  lemma FireIt(s: State, id: nat, a: nat) returns (t: State)
    requires Inv(s) && Ready(s) && Sorted(s) && s.main == Searching(id) && LiveOneShotAt(s, id, a) && s.loop == Waiting
    ensures Next(s, Fire(a)) == Some(t) && t.main == s.main && Inv(t) && Sorted(t) && LiveOneShotAt(t, id, a)
    ensures Running(t, a)
  {
    assert PlacedAt(s, a) && ReadyAt(s, a);
    t := Next(s, Fire(a)).value;
    QuietKeeps(s, Fire(a), t);
  }

  /** From a state in which the event thread can still fire the event, or is in its proxy before the
      lock, it gets there while the search waits for its turn. */
  lemma {:induction false} GetRunning(s: State, id: nat, a: nat) returns (labels: seq<Label>, t: State)
    requires Inv(s) && Ready(s) && Sorted(s) && s.main == Searching(id) && LiveOneShotAt(s, id, a)
    ensures Quiet(labels) && Exec(s, labels) == Some(t) && t.main == Searching(id)
    ensures Inv(t) && Sorted(t) && LiveOneShotAt(t, id, a) && Running(t, a)
    decreases ProxyLeft(s.loop)
  {
    if Running(s, a) {
      labels, t := [], s;
    } else if s.loop == Waiting {
      t := FireIt(s, id, a);
      labels := Extend(s, [], s, Fire(a), t);
    } else {
      var u := LoopMovesOn(s, id, a);
      var rest;
      rest, t := GetRunning(u, id, a);
      labels := Prefix(s, LoopStep, u, rest);
    }
  }

  /** How many more steps the event thread takes in a proxy. */
  function ProxyLeft(loop: LoopPc): nat {
    match loop
    case InCallback(_) => 8
    case Destroys(_, at) => StepsLeft(at)
    case _ => 0
  }

  lemma Prefix(s: State, l: Label, t: State, rest: seq<Label>) returns (labels: seq<Label>)
    requires Next(s, l) == Some(t)
    ensures labels == [l] + rest && Exec(s, labels) == Exec(t, rest)
  {
    labels := Extend(s, [], s, l, t);
    assert labels == [l];
    ExecConcat(s, labels, rest);
    labels := labels + rest;
  }

  /** While the scheduling thread waits or searches, a step of the other keeps all invariants. */
  lemma QuietKeeps(s: State, l: Label, s': State)
    requires Inv(s) && Sorted(s) && (s.main.Searching? || s.main.Scanning?) && !l.Schedule? && !s'.main.Destroying?
    requires Next(s, l) == Some(s')
    ensures Inv(s') && Sorted(s')
  {
    StepKeeps(s, l, s');
    IdsKept(s, l, s');
    FallingKept(s, l, s');
    NewestKept(s, l, s');
    AheadKept(s, l, s');
  }

  lemma LoopMovesOn(s: State, id: nat, a: nat) returns (t: State)
    requires Inv(s) && Ready(s) && Sorted(s) && s.main == Searching(id) && LiveOneShotAt(s, id, a)
    requires !Running(s, a) && s.loop != Waiting
    ensures Next(s, LoopStep) == Some(t) && t.main == s.main
    ensures Inv(t) && Ready(t) && Sorted(t) && LiveOneShotAt(t, id, a)
    ensures ProxyLeft(t.loop) < ProxyLeft(s.loop)
  {
    if !LoopInside(s) {
      MutexFree(s);
    }
    t := LoopNext(s).value;
    QuietKeeps(s, LoopStep, t);
    ReadyKept(s, LoopStep, t);
    ListChanges(s, LoopStep, t);
    KindsKept(s, LoopStep, t);
    IdsKept(s, LoopStep, t);
    if t.list != s.list {
      RemovedFacts(s.list, s.loop.a);
    }
  }

  /** The search, holding the lock, walks up to the event and stops there. */
  lemma {:induction false} ScanTo(s: State, id: nat, cur: Option<nat>, a: nat) returns (labels: seq<Label>)
    requires Inv(s) && Sorted(s) && s.main == Scanning(id, cur) && a < |s.nodes| && s.nodes[a].id == id
    requires s.nodes[a].oneShot && a in From(s.list, cur)
    ensures Quiet(labels) && Exec(s, labels) == Some(s.(main := Destroying(a, DelEv, false), mutex := None))
    decreases |From(s.list, cur)|
  {
    var c := cur.value;
    FromNext(s.nodes, s.first, s.list, c);
    assert PlacedAt(s, c) && !Dangling(s, c);
    var ahead := From(s.list, cur);
    assert ahead == [c] + ahead[1..];
    if c == a {
      labels := Extend(s, [], s, MainStep, s.(main := Destroying(a, DelEv, false), mutex := None));
    } else {
      var t := s.(main := Scanning(id, s.nodes[c].next));
      assert Next(s, MainStep) == Some(t);
      QuietKeeps(s, MainStep, t);
      var rest := ScanTo(t, id, s.nodes[c].next, a);
      labels := Prefix(s, MainStep, t, rest);
    }
  }

  /** With the event's proxy running before the lock, the search finds the event, and the overlap is
      there. */
  lemma FindRunning(s: State, id: nat, a: nat) returns (labels: seq<Label>, t: State)
    requires Inv(s) && Sorted(s) && s.main == Searching(id) && LiveOneShotAt(s, id, a) && Running(s, a)
    ensures Quiet(labels) && Exec(s, labels) == Some(t) && Waits(t, a)
  {
    MutexFree(s);
    var u := s.(mutex := Some(Main), main := Scanning(id, s.first));
    assert Next(s, MainStep) == Some(u);
    QuietKeeps(s, MainStep, u);
    assert From(u.list, u.first) == u.list;
    var rest := ScanTo(u, id, u.first, a);
    labels := Prefix(s, MainStep, u, rest);
    t := u.(main := Destroying(a, DelEv, false), mutex := None);
  }

  /** A call that finds a live one-shot event with its id faults in some interleaving. */
  lemma OneShotCancelFaults(s: State, id: nat, a: nat) returns (labels: seq<Label>)
    requires Inv(s) && Ready(s) && Sorted(s) && s.main == Idle && LiveOneShotAt(s, id, a)
    ensures Quiet(labels) && Exec(s, [Cancel(id)] + labels).Some? && Exec(s, [Cancel(id)] + labels).value.fault
  {
    var s0 := s.(main := Searching(id));
    CallStarts(s, id, s0);
    var first, s1 := GetRunning(s0, id, a);
    var second, s2 := FindRunning(s1, id, a);
    var third := WaitingEndsInFault(s2, a);
    ExecConcat(s0, first, second);
    ExecConcat(s0, first + second, third);
    labels := first + second + third;
    ExecConcat(s, [Cancel(id)], labels);
  }

  lemma CallStarts(s: State, id: nat, s0: State)
    requires Inv(s) && Ready(s) && Sorted(s) && s.main == Idle && s0 == s.(main := Searching(id))
    ensures Exec(s, [Cancel(id)]) == Some(s0) && Inv(s0) && Ready(s0) && Sorted(s0)
    ensures forall a :: LiveOneShotAt(s, id, a) <==> LiveOneShotAt(s0, id, a)
  {
    ExecOneMore(s, [], Cancel(id));
    assert [] + [Cancel(id)] == [Cancel(id)];
    StepKeeps(s, Cancel(id), s0);
    ReadyKept(s, Cancel(id), s0);
  }

  /** Whenever the scheduling thread is between calls, in any run without overlap: `events_cancel(id)` is
      safe in every interleaving exactly if no live one-shot event has this id. */
  lemma CancelSafeExactly(labels: seq<Label>, id: nat)
    requires EvOk(labels) && Exec(INIT, labels).Some? && !MeetsOverlap(INIT, labels)
    requires |labels| <= 0x1_0000_0000_0000_0000 && Exec(INIT, labels).value.main == Idle
    ensures CancelSafe(Exec(INIT, labels).value, id) <==> !LiveOneShot(Exec(INIT, labels).value, id)
  {
    InitInv();
    InvariantOverRuns(INIT, labels);
    SortedOverRuns(labels);
    ReadyOverRuns(labels);
    CancelSafeFrom(Exec(INIT, labels).value, id);
  }

  lemma CancelSafeFrom(s: State, id: nat)
    requires Inv(s) && Ready(s) && Sorted(s) && s.main == Idle
    ensures CancelSafe(s, id) <==> !LiveOneShot(s, id)
  {
    if a :| LiveOneShotAt(s, id, a) {
      var labels := OneShotCancelFaults(s, id, a);
      assert !CancelSafe(s, id);
    } else {
      var s0 := s.(main := Searching(id));
      CallStarts(s, id, s0);
      assert Cancelling(s0, id);
      forall labels | Quiet(labels) && Exec(s, [Cancel(id)] + labels).Some?
        ensures !Exec(s, [Cancel(id)] + labels).value.fault
      {
        ExecConcat(s, [Cancel(id)], labels);
        CancellingOverRuns(s0, id, labels);
      }
    }
  }

  lemma {:induction false} ReadyOverRuns(labels: seq<Label>)
    requires EvOk(labels) && Exec(INIT, labels).Some? && !MeetsOverlap(INIT, labels)
    ensures Ready(Exec(INIT, labels).value)
    decreases |labels|
  {
    if labels != [] {
      var front := labels[..|labels| - 1];
      NoOverlapBefore(labels);
      ReadyOverRuns(front);
      InitInv();
      InvariantOverRuns(INIT, front);
      InvariantOverRuns(INIT, labels);
      ReadyKept(Exec(INIT, front).value, labels[|labels| - 1], Exec(INIT, labels).value);
    }
  }
}
