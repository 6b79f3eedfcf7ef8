/** When `events_teardown` returns (src/events.c). The event thread is cancelled and joined, and then
    every event on the list is destroyed, event_del first. If the thread was inside a callback when it
    was cancelled, event_del waits for that callback for ever. */
module RegistryTeardown {
  import opened CTypes
  import opened RegistryThreads

  /** The event thread has been joined and the list is being emptied. */
  ghost predicate Tearing(s: State) {
    Inv(s) && s.loop.Joined? && (s.main.TearingDown? || s.main.Done? || (s.main.Destroying? && s.main.last))
  }

  /** How many steps the teardown takes from here on, if event_del lets it. */
  function Left(s: State): int {
    match s.main
    case Destroying(a, at, _) => StepsLeft(at) + 8 * (if a in s.list then |s.list| - 1 else |s.list|) + 1
    case TearingDown => 8 * |s.list| + 1
    case _ => 0
  }

  lemma {:induction false} RemovedSize(list: seq<nat>, a: nat)
    requires a in list
    ensures |Removed(list, a)| == |list| - 1
  {
    if list[0] != a {
      RemovedSize(list[1..], a);
    }
  }

  lemma StepsKeepTearing(s: State, l: Label, s': State)
    requires Tearing(s) && Next(s, l) == Some(s')
    ensures l == MainStep && s'.loop == s.loop && Inv(s')
    ensures Tearing(s')
  {
    StepKeeps(s, l, s');
  }

  lemma DestroyingGoesOn(s: State, s': State)
    requires Tearing(s) && s.main.Destroying? && MainNext(s) == Some(s')
    ensures s'.list == if s.main.at == Unlink2 then Removed(s.list, s.main.a) else s.list
    ensures s'.main == Onwards(s.main.a, s.main.at, true)
  {
    assert PlacedAt(s, s.main.a);
    DestroyEffect(s, Main, s.main.a, s.main.at, DestroyStep(s, Main, s.main.a, s.main.at).value);
  }

  lemma OneLess(s: State, s': State)
    requires Tearing(s) && MainNext(s) == Some(s')
    ensures 0 <= Left(s') == Left(s) - 1
  {
    if s.main.Destroying? {
      DestroyingGoesOn(s, s');
      if s.main.at == Unlink2 {
        RemovedSize(s.list, s.main.a);
        RemovedFacts(s.list, s.main.a);
      }
    }
  }

  /** The event in whose callback the event thread was joined is still on the list, and the teardown
      has not got past its event_del. */
  predicate Keeps(s: State, b: nat) {
    s.loop == Joined(Some(b)) && b in s.list && (s.main.Destroying? && s.main.a == b ==> s.main.at == DelEv)
  }

  lemma KeptOn(s: State, s': State, b: nat)
    requires Tearing(s) && Keeps(s, b) && MainNext(s) == Some(s')
    ensures s'.loop == s.loop
    ensures Keeps(s', b)
  {
    if s.main.Destroying? {
      DestroyingGoesOn(s, s');
      RemovedFacts(s.list, s.main.a);
    }
  }

  /** Every run of the teardown: it keeps the invariant, takes as many steps as it uses up, and never
      gets past the event whose callback it interrupted. */
  lemma {:induction false} TearingOverRuns(s: State, labels: seq<Label>)
    requires Tearing(s) && Exec(s, labels).Some?
    ensures var t := Exec(s, labels).value;
            && Tearing(t) && t.loop == s.loop && Left(t) == Left(s) - |labels|
            && (s.loop.during.Some? && Keeps(s, s.loop.during.value) ==> Keeps(t, s.loop.during.value))
    decreases |labels|
  {
    if labels != [] {
      var last := |labels| - 1;
      TearingOverRuns(s, labels[..last]);
      var t, t' := Exec(s, labels[..last]).value, Exec(s, labels).value;
      StepsKeepTearing(t, labels[last], t');
      OneLess(t, t');
      if s.loop.during.Some? && Keeps(s, s.loop.during.value) {
        KeptOn(t, t', s.loop.during.value);
      }
    }
  }

  /** Some continuation ends the teardown. */
  ghost predicate Returns(s: State) {
    exists labels :: ReturnsBy(s, labels)
  }

  predicate ReturnsBy(s: State, labels: seq<Label>) {
    Exec(s, labels).Some? && Exec(s, labels).value.main.Done?
  }

  lemma {:induction false} RunsToDone(s: State) returns (labels: seq<Label>)
    requires Tearing(s) && s.loop == Joined(None)
    ensures ReturnsBy(s, labels)
    decreases Left(s)
  {
    labels := [];
    if s.main != Done {
      NoDeadlock(s);
      var l :| Next(s, l).Some?;
      var t := Next(s, l).value;
      StepsKeepTearing(s, l, t);
      OneLess(s, t);
      var rest := RunsToDone(t);
      labels := Extend(s, [], s, l, t);
      ExecConcat(s, labels, rest);
      labels := labels + rest;
    }
  }

  lemma TeardownBegins(s: State, s0: State)
    requires Inv(s) && Next(s, Teardown) == Some(s0)
    ensures Tearing(s0) && s0.main == TearingDown && s0.list == s.list
    ensures s.loop == Waiting ==> s0.loop == Joined(None)
    ensures s.loop.InCallback? ==> s0.loop == Joined(Some(s.loop.a)) && Keeps(s0, s.loop.a)
  {
    TeardownKeeps(s, s0);
  }

  /** In every state of a safe run: `events_teardown` returns if and only if it does not interrupt a
      callback. */
  lemma ReturnsExactly(s: State, s0: State)
    requires Inv(s) && Next(s, Teardown) == Some(s0)
    ensures Returns(s0) <==> s.loop == Waiting
  {
    TeardownBegins(s, s0);
    if s.loop == Waiting {
      var labels := RunsToDone(s0);
    } else {
      forall labels | Exec(s0, labels).Some? ensures !ReturnsBy(s0, labels) {
        TearingOverRuns(s0, labels);
      }
    }
  }

  /** However it goes, it takes at most eight steps an event and one more; and where no step is possible
      any more, it has returned, or it hangs in event_del of the event whose callback it interrupted. */
  lemma TeardownEnds(s: State, s0: State, labels: seq<Label>)
    requires Inv(s) && Next(s, Teardown) == Some(s0) && Exec(s0, labels).Some?
    ensures |labels| <= 8 * |s.list| + 1
    ensures var t := Exec(s0, labels).value;
            (forall l :: Next(t, l).None?) <==> if s.loop == Waiting then t.main == Done else Stuck(t)
  {
    TeardownBegins(s, s0);
    TearingOverRuns(s0, labels);
    var t := Exec(s0, labels).value;
    LeftNotNegative(t);
    if t.main != Done {
      NoDeadlock(t);
    }
  }

  lemma LeftNotNegative(s: State)
    requires Tearing(s)
    ensures 0 <= Left(s)
  {
  }

  /** It can happen: a one-shot event fires, and the teardown cancels the event thread in its callback. */
  lemma TeardownCanHang() returns (labels: seq<Label>, t: State)
    ensures labels == [Schedule(true, true), MainStep, MainStep, MainStep, MainStep, MainStep, EventAdd(true),
                       MainStep, Fire(0), Teardown, MainStep]
    ensures Exec(INIT, labels) == Some(t) && Stuck(t) && forall l :: Next(t, l).None?
  {
    var node := Node(0, true, None, HeadFirst, true, false, 0);
    var armed := State([node], Some(0), [0], None, Idle, Waiting, 1, false);
    labels := OneShotScheduled();
    assert [node][0 := node.(armed := false)] == [node.(armed := false)];
    var fired := armed.(nodes := [node.(armed := false)], loop := InCallback(0));
    labels := Extend(INIT, labels, armed, Fire(0), fired);
    var joined := fired.(main := TearingDown, loop := Joined(Some(0)));
    labels := Extend(INIT, labels, fired, Teardown, joined);
    t := joined.(main := Destroying(0, DelEv, true));
    labels := Extend(INIT, labels, joined, MainStep, t);
  }
}
