/** Cancelling ids that were delivered. A one-shot event's id is never delivered, so a program that
    cancels only what it was handed is safe in every interleaving (src/events.c). */
module RegistryDelivered {
  import opened CTypes
  import opened RegistryThreads
  import opened RegistryCancel
  import opened RegistrySafety

  /** The call at step `j` delivers this id: it schedules an event that is no one-shot, or adds a reader. */
  predicate HandsOut(labels: seq<Label>, j: nat, id: nat)
    requires j < |labels|
  {
    && labels[j].Schedule? && !labels[j].oneShot
    && Exec(INIT, labels[..j]).Some? && Exec(INIT, labels[..j]).value.idCnt == id
  }

  /** The id was delivered before step `k`. */
  ghost predicate Delivered(labels: seq<Label>, k: nat, id: nat)
    requires k <= |labels|
  {
    exists j :: 0 <= j < k && HandsOut(labels, j, id)
  }

  /** The program cancels only ids that were delivered to it before. */
  ghost predicate CancelsDelivered(labels: seq<Label>) {
    forall k :: 0 <= k < |labels| && labels[k].Cancel? ==> Delivered(labels, k, labels[k].id)
  }

  predicate Periodic(s: State, id: nat) {
    id < |s.nodes| && !s.nodes[id].oneShot
  }

  /** No call under way is about to destroy a one-shot event that can fire. */
  predicate Polite(s: State) {
    match s.main
    case Searching(id) => Periodic(s, id)
    case Scanning(id, _) => Periodic(s, id)
    case Destroying(a, _, last) =>
      last || (a < |s.nodes| && (!s.nodes[a].oneShot || (!s.nodes[a].armed && !Running(s, a))))
    case _ => true
  }

  lemma PoliteAfterMain(s: State, s': State)
    requires Inv(s) && Named(s) && Polite(s) && Next(s, MainStep) == Some(s')
    ensures !Overlap(s') && Polite(s')
  {
    KindsKept(s, MainStep, s');
    if s.main.Scanning? && s.main.cur.Some? {
      assert PlacedAt(s, s.main.cur.value);
    } else if s.main.Destroying? {
      assert PlacedAt(s, s.main.a);
      DestroyEffect(s, Main, s.main.a, s.main.at, DestroyStep(s, Main, s.main.a, s.main.at).value);
    }
  }

  lemma PoliteAfterLoop(s: State, s': State)
    requires Inv(s) && Polite(s) && Next(s, LoopStep) == Some(s')
    ensures !Overlap(s') && Polite(s')
  {
    KindsKept(s, LoopStep, s');
    LoopStepStartsNone(s, s');
    if s.loop.Destroys? {
      assert PlacedAt(s, s.loop.a);
      DestroyEffect(s, Loop, s.loop.a, s.loop.at, DestroyStep(s, Loop, s.loop.a, s.loop.at).value);
    }
  }

  lemma PoliteAfterFire(s: State, a: nat, s': State)
    requires Inv(s) && Polite(s) && Next(s, Fire(a)) == Some(s')
    ensures !Overlap(s') && Polite(s')
  {
    assert PlacedAt(s, a);
  }

  lemma PoliteKept(s: State, l: Label, s': State)
    requires Inv(s) && Named(s) && Polite(s) && Next(s, l) == Some(s')
    requires (l.Schedule? ==> l.evOk) && (l.Cancel? ==> Periodic(s, l.id))
    ensures !Overlap(s') && Polite(s') && Inv(s')
  {
    match l {
      case MainStep => PoliteAfterMain(s, s');
      case LoopStep => PoliteAfterLoop(s, s');
      case Fire(a) => PoliteAfterFire(s, a, s');
      case _ =>
    }
    StepKeeps(s, l, s');
  }

  lemma PeriodicKept(s: State, l: Label, s': State, id: nat)
    requires Periodic(s, id) && Next(s, l) == Some(s')
    ensures Periodic(s', id)
  {
    if !l.Schedule? {
      KindsKept(s, l, s');
    }
  }

  lemma PeriodicBegins(s: State, l: Label, s': State)
    requires Named(s) && |s.nodes| < UINT64_RANGE && l.Schedule? && !l.oneShot && Next(s, l) == Some(s')
    ensures Periodic(s', s.idCnt)
  {
  }

  /** An id delivered on the way belongs to an event that is no one-shot, for ever. */
  lemma {:induction false} DeliveredIsPeriodic(labels: seq<Label>, j: nat, id: nat)
    requires |labels| <= UINT64_RANGE && Exec(INIT, labels).Some?
    requires j < |labels| && HandsOut(labels, j, id)
    ensures Periodic(Exec(INIT, labels).value, id)
    decreases |labels|
  {
    var last := |labels| - 1;
    if j < last {
      var front := labels[..last];
      assert front[..j] == labels[..j];
      DeliveredIsPeriodic(front, j, id);
      PeriodicKept(Exec(INIT, front).value, labels[last], Exec(INIT, labels).value, id);
    } else {
      JustDelivered(labels, id);
    }
  }

  lemma JustDelivered(labels: seq<Label>, id: nat)
    requires 0 < |labels| <= UINT64_RANGE && Exec(INIT, labels).Some? && HandsOut(labels, |labels| - 1, id)
    ensures Periodic(Exec(INIT, labels).value, id)
  {
    var last := |labels| - 1;
    NamedOverRuns(labels[..last]);
    PeriodicBegins(Exec(INIT, labels[..last]).value, labels[last], Exec(INIT, labels).value);
  }

  lemma {:induction false} NamedOverRuns(labels: seq<Label>)
    requires |labels| <= UINT64_RANGE && Exec(INIT, labels).Some?
    ensures Named(Exec(INIT, labels).value) && |Exec(INIT, labels).value.nodes| <= |labels|
    decreases |labels|
  {
    if labels != [] {
      var last := |labels| - 1;
      NamedOverRuns(labels[..last]);
      var s, s' := Exec(INIT, labels[..last]).value, Exec(INIT, labels).value;
      NamedKept(s, labels[last], s');
      if !labels[last].Schedule? {
        IdsKept(s, labels[last], s');
      }
    }
  }

  lemma {:induction false} PoliteOverRuns(labels: seq<Label>)
    requires |labels| <= UINT64_RANGE && EvOk(labels) && CancelsDelivered(labels) && Exec(INIT, labels).Some?
    ensures Inv(Exec(INIT, labels).value) && Polite(Exec(INIT, labels).value)
    decreases |labels|
  {
    InitInv();
    if labels != [] {
      var last := |labels| - 1;
      var front := labels[..last];
      CancelsDeliveredBefore(labels, last);
      PoliteOverRuns(front);
      NamedOverRuns(front);
      if labels[last].Cancel? {
        var j :| 0 <= j < last && HandsOut(labels, j, labels[last].id);
        assert front[..j] == labels[..j];
        DeliveredIsPeriodic(front, j, labels[last].id);
      }
      PoliteKept(Exec(INIT, front).value, labels[last], Exec(INIT, labels).value);
    }
  }

  lemma CancelsDeliveredBefore(labels: seq<Label>, n: nat)
    requires CancelsDelivered(labels) && n <= |labels|
    ensures CancelsDelivered(labels[..n])
  {
    var front := labels[..n];
    forall k | 0 <= k < n && front[k].Cancel? ensures Delivered(front, k, front[k].id) {
      var j :| 0 <= j < k && HandsOut(labels, j, labels[k].id);
      assert front[..j] == labels[..j];
      assert HandsOut(front, j, front[k].id);
    }
  }

  lemma {:induction false} ExecBefore(s: State, labels: seq<Label>, n: nat)
    requires Exec(s, labels).Some? && n <= |labels|
    ensures Exec(s, labels[..n]).Some?
    decreases |labels|
  {
    if n < |labels| {
      ExecBefore(s, labels[..|labels| - 1], n);
      assert labels[..|labels| - 1][..n] == labels[..n];
    } else {
      assert labels[..n] == labels;
    }
  }

  /** Every run that cancels only delivered ids is safe: no call of it is ever near a running one-shot
      proxy, and nothing faults. The bound is the counter's: after 2^64 ids an id can be drawn again. */
  lemma DeliveredCancelsSafe(labels: seq<Label>)
    requires |labels| <= UINT64_RANGE && EvOk(labels) && CancelsDelivered(labels) && Exec(INIT, labels).Some?
    ensures !MeetsOverlap(INIT, labels) && Safe(Exec(INIT, labels).value)
  {
    forall k | 0 <= k <= |labels| ensures !OverlapAfter(INIT, labels, k) {
      ExecBefore(INIT, labels, k);
      CancelsDeliveredBefore(labels, k);
      assert EvOk(labels[..k]);
      PoliteOverRuns(labels[..k]);
    }
    SafeRuns(labels);
  }
}
