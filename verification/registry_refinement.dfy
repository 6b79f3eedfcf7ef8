/** The two-thread registry refines the one of registry_model.dfy: every interleaving has the list of a
    sequential history, in which each call takes effect at one of its own statements. */
module RegistryRefinement {
  import opened CTypes
  import opened Listings
  import opened RegistryThreads
  import opened RegistryCancel
  import opened RegistrySafety
  import M = RegistryModel

  /** The ids on the list are those of existing events: the id is the index. */
  predicate Own(nodes: seq<Node>, list: seq<nat>) {
    list != [] ==> list[0] < |nodes| && nodes[list[0]].id == list[0] && Own(nodes, list[1..])
  }

  /** The list as the value-level registry has it. */
  function Entries(nodes: seq<Node>, list: seq<nat>): seq<M.Entry>
    requires Own(nodes, list)
  {
    if list == [] then []
    else [M.Entry(list[0], nodes[list[0]].oneShot)] + Entries(nodes, list[1..])
  }

  // ----- lists -----

  lemma {:induction false} OwnListed(nodes: seq<Node>, list: seq<nat>)
    requires forall a :: 0 <= a < |nodes| ==> nodes[a].id == a
    requires forall a :: a in list ==> a < |nodes|
    ensures Own(nodes, list)
  {
    if list != [] {
      assert list[0] in list;
      assert forall a :: a in list[1..] ==> a in list;
      OwnListed(nodes, list[1..]);
    }
  }

  ghost predicate SameEvents(nodes: seq<Node>, nodes': seq<Node>) {
    && |nodes| <= |nodes'|
    && forall a :: 0 <= a < |nodes| ==> nodes'[a].id == nodes[a].id && nodes'[a].oneShot == nodes[a].oneShot
  }

  lemma {:induction false} EntriesFrame(nodes: seq<Node>, nodes': seq<Node>, list: seq<nat>)
    requires Own(nodes, list) && SameEvents(nodes, nodes')
    ensures Own(nodes', list) && Entries(nodes', list) == Entries(nodes, list)
  {
    if list != [] {
      EntriesFrame(nodes, nodes', list[1..]);
    }
  }

  lemma {:induction false} FindListed(nodes: seq<Node>, list: seq<nat>, a: nat)
    requires Own(nodes, list) && a in list
    ensures a < |nodes|
    ensures var live := Entries(nodes, list);
            var i := M.Find(live, a);
            i < |live| && live[i] == M.Entry(a, nodes[a].oneShot)
  {
    if list[0] != a {
      FindListed(nodes, list[1..], a);
    }
  }

  lemma {:induction false} FindUnlisted(nodes: seq<Node>, list: seq<nat>, id: nat)
    requires Own(nodes, list) && id !in list
    ensures M.Find(Entries(nodes, list), id) == |Entries(nodes, list)|
  {
    if list != [] {
      FindUnlisted(nodes, list[1..], id);
    }
  }

  lemma WithoutTail<T>(x: T, s: seq<T>, i: nat)
    requires i < |s|
    ensures M.Without([x] + s, i + 1) == [x] + M.Without(s, i)
  {
  }

  lemma {:induction false} EntriesRemoved(nodes: seq<Node>, list: seq<nat>, a: nat)
    requires Own(nodes, list) && a in list
    ensures Own(nodes, Removed(list, a))
    ensures var live := Entries(nodes, list);
            M.Find(live, a) < |live| && Entries(nodes, Removed(list, a)) == M.Without(live, M.Find(live, a))
  {
    var head, rest := M.Entry(list[0], nodes[list[0]].oneShot), Entries(nodes, list[1..]);
    assert Entries(nodes, list) == [head] + rest && ([head] + rest)[1..] == rest;
    if list[0] == a {
      M.WithoutHead(head, rest);
    } else {
      EntriesRemoved(nodes, list[1..], a);
      WithoutTail(head, rest, M.Find(rest, a));
      EntriesAhead(nodes, list[0], Removed(list[1..], a));
    }
  }

  lemma EntriesAhead(nodes: seq<Node>, a: nat, list: seq<nat>)
    requires a < |nodes| && nodes[a].id == a && Own(nodes, list)
    ensures Own(nodes, [a] + list)
    ensures Entries(nodes, [a] + list) == [M.Entry(a, nodes[a].oneShot)] + Entries(nodes, list)
  {
    assert ([a] + list)[1..] == list;
  }

  // ----- one step -----

  /** How many events have taken effect in the sequential history: not one whose insertion is under way. */
  function Counted(s: State): int {
    if s.main.Inserting? && Unlisted(s.main.ins) then |s.nodes| - 1 else |s.nodes|
  }

  ghost predicate Refines(s: State, r: M.Registry) {
    && Own(s.nodes, s.list) && r.live == Entries(s.nodes, s.list)
    && 0 <= Counted(s) && r.idCnt == ToSize(Counted(s))
  }

  /** The event thread is about to return from the callback of an event that is no one-shot. */
  predicate CallbackEnds(s: State) {
    s.loop.InCallback? && s.loop.a < |s.nodes| && !s.nodes[s.loop.a].oneShot
  }

  /** The operation that takes effect in a step, and what its caller is told: a schedule with the last
      store of LIST_INSERT_HEAD, a destruction with the second store of LIST_REMOVE, a cancel that finds
      nothing at the end of its search, and the firing of an event that is no one-shot at the end of its
      callback. */
  function Effective(s: State, l: Label): Option<(M.Op, M.Ret)> {
    if l == MainStep && s.main.Inserting? && s.main.ins == SetPrev && s.main.a < |s.nodes| then
      Some((M.Op.Schedule(s.nodes[s.main.a].oneShot, M.Added), M.Return(0)))
    else if l == MainStep && s.main.Scanning? && s.main.cur.None? then
      Some((M.Op.Cancel(s.main.id), M.Return(EXIT_FAILURE)))
    else if l == MainStep && s.main.Destroying? && s.main.at == Unlink2 then
      Some((M.Op.Cancel(s.main.a), M.Return(EXIT_SUCCESS)))
    else if l == LoopStep && s.loop.Destroys? && s.loop.at == Unlink2 && Own(s.nodes, s.list) then
      Some((M.Op.Fire(M.Find(Entries(s.nodes, s.list), s.loop.a)), M.Return(0)))
    else if l == LoopStep && CallbackEnds(s) && Own(s.nodes, s.list) then
      Some((M.Op.Fire(M.Find(Entries(s.nodes, s.list), s.loop.a)), M.Return(0)))
    else None
  }

  lemma EventsKept(s: State, l: Label, s': State)
    requires Next(s, l) == Some(s')
    ensures SameEvents(s.nodes, s'.nodes)
  {
    if !l.Schedule? {
      IdsKept(s, l, s');
      KindsKept(s, l, s');
    }
  }

  lemma InsertionRefines(s: State, s': State, r: M.Registry)
    requires Inv(s) && Named(s) && Newest(s) && Refines(s, r) && Next(s, MainStep) == Some(s') && !s'.fault
    requires s.main.Inserting? && s.main.ins == SetPrev
    ensures var op := M.Op.Schedule(s.nodes[s.main.a].oneShot, M.Added);
            M.Apply(r, op).1 == M.Return(0) && Refines(s', M.Apply(r, op).0)
  {
    var a := s.main.a;
    EventsKept(s, MainStep, s');
    EntriesFrame(s.nodes, s'.nodes, s.list);
    EntriesAhead(s'.nodes, a, s.list);
    assert s'.list == [a] + s.list && r.idCnt == a by {
      SizeFits(|s.nodes| - 1);
    }
    BumpWraps(|s.nodes| - 1);
  }

  lemma RemovalRefines(s: State, a: nat, s': State, r: M.Registry)
    requires Inv(s) && Named(s) && Refines(s, r) && a in s.list
    requires s'.list == Removed(s.list, a) && SameEvents(s.nodes, s'.nodes) && Counted(s') == Counted(s)
    ensures M.Find(r.live, a) < |r.live| && r.live[M.Find(r.live, a)].oneShot == s.nodes[a].oneShot
    ensures Refines(s', M.Unlink(r, M.Find(r.live, a)))
  {
    FindListed(s.nodes, s.list, a);
    EntriesRemoved(s.nodes, s.list, a);
    EntriesFrame(s.nodes, s'.nodes, s'.list);
  }

  lemma MainRemovalRefines(s: State, s': State, r: M.Registry)
    requires Inv(s) && Named(s) && Refines(s, r) && Next(s, MainStep) == Some(s')
    requires s.main.Destroying? && s.main.at == Unlink2
    ensures var op := M.Op.Cancel(s.main.a);
            M.Apply(r, op).1 == M.Return(EXIT_SUCCESS) && Refines(s', M.Apply(r, op).0)
  {
    assert PlacedAt(s, s.main.a);
    EventsKept(s, MainStep, s');
    IdsKept(s, MainStep, s');
    ListChanges(s, MainStep, s');
    DestroyEffect(s, Main, s.main.a, Unlink2, DestroyStep(s, Main, s.main.a, Unlink2).value);
    RemovalRefines(s, s.main.a, s', r);
  }

  lemma LoopRemovalRefines(s: State, s': State, r: M.Registry)
    requires Inv(s) && Named(s) && Refines(s, r) && Next(s, LoopStep) == Some(s')
    requires s.loop.Destroys? && s.loop.at == Unlink2
    ensures var op := M.Op.Fire(M.Find(r.live, s.loop.a));
            M.Apply(r, op).1 == M.Return(0) && Refines(s', M.Apply(r, op).0)
  {
    assert PlacedAt(s, s.loop.a);
    EventsKept(s, LoopStep, s');
    IdsKept(s, LoopStep, s');
    DestroyEffect(s, Loop, s.loop.a, Unlink2, DestroyStep(s, Loop, s.loop.a, Unlink2).value);
    RemovalRefines(s, s.loop.a, s', r);
  }

  /** An event that is no one-shot leaves the list only when the scheduling thread destroys it. */
  lemma PeriodicLeftAlone(s: State, l: Label, s': State, a: nat)
    requires Inv(s) && Next(s, l) == Some(s') && a in s.list && a < |s.nodes| && !s.nodes[a].oneShot && a !in s'.list
    ensures l == MainStep && s.main.Destroying? && s.main.a == a && s.main.at == Unlink2
  {
    ListChanges(s, l, s');
    RemovedFacts(s.list, if l == MainStep && s.main.Destroying? then s.main.a
                         else if s.loop.Destroys? then s.loop.a else 0);
  }

  /** The return from the callback of an event that is no one-shot is its firing, and changes nothing. */
  lemma CallbackRefines(s: State, s': State, r: M.Registry)
    requires Inv(s) && Named(s) && Refines(s, r) && Next(s, LoopStep) == Some(s') && CallbackEnds(s)
    ensures M.Apply(r, M.Op.Fire(M.Find(r.live, s.loop.a))) == (r, M.Return(0)) && Refines(s', r)
    ensures s'.list == s.list && s'.nodes == s.nodes && s'.loop == Waiting
  {
    FindListed(s.nodes, s.list, s.loop.a);
  }

  lemma FruitlessSearchRefines(s: State, s': State, r: M.Registry)
    requires Inv(s) && Sorted(s) && Refines(s, r) && Next(s, MainStep) == Some(s')
    requires s.main.Scanning? && s.main.cur.None?
    ensures M.Apply(r, M.Op.Cancel(s.main.id)) == (r, M.Return(EXIT_FAILURE)) && Refines(s', r)
  {
    assert s.main.id !in s.list;
    FindUnlisted(s.nodes, s.list, s.main.id);
  }

  /** The operation, if any, that takes effect in this step is one the value-level registry can take, with
      the answer its caller gets; without one, nothing changes there. */
  ghost predicate TakesEffect(r: M.Registry, effect: Option<(M.Op, M.Ret)>, s': State) {
    match effect
    case None => Refines(s', r)
    case Some((op, ret)) => ret.Return? && M.Apply(r, op).1 == ret && Refines(s', M.Apply(r, op).0)
  }

  lemma NothingTakesEffect(s: State, l: Label, s': State, r: M.Registry)
    requires Inv(s) && Named(s) && Refines(s, r) && Next(s, l) == Some(s') && Effective(s, l).None?
    ensures Refines(s', r)
  {
    EventsKept(s, l, s');
    ListChanges(s, l, s');
    if !l.Schedule? {
      IdsKept(s, l, s');
    }
    assert s'.list == s.list;
    EntriesFrame(s.nodes, s'.nodes, s.list);
    SameCount(s, l, s');
  }

  lemma SameCount(s: State, l: Label, s': State)
    requires Inv(s) && Next(s, l) == Some(s') && Effective(s, l).None? && |s'.nodes| >= |s.nodes|
    requires !l.Schedule? ==> |s'.nodes| == |s.nodes|
    ensures Counted(s') == Counted(s)
  {
    if l == LoopStep {
      assert s'.main == s.main;
    }
  }

  lemma StepRefines(s: State, l: Label, s': State, r: M.Registry)
    requires Inv(s) && Sorted(s) && Refines(s, r) && Next(s, l) == Some(s') && !s'.fault
    ensures TakesEffect(r, Effective(s, l), s')
  {
    if Effective(s, l).None? {
      NothingTakesEffect(s, l, s', r);
    } else if l == LoopStep && CallbackEnds(s) {
      CallbackRefines(s, s', r);
    } else if l == LoopStep {
      LoopRemovalRefines(s, s', r);
    } else if s.main.Inserting? {
      InsertionRefines(s, s', r);
    } else if s.main.Scanning? {
      FruitlessSearchRefines(s, s', r);
    } else {
      MainRemovalRefines(s, s', r);
    }
  }

  // ----- every interleaving -----

  /** The operations of a run, in the order in which they take effect. */
  function History(labels: seq<Label>): seq<M.Op> {
    if labels == [] then []
    else
      var last := |labels| - 1;
      var before := Exec(INIT, labels[..last]);
      var effect := if before.None? then None else Effective(before.value, labels[last]);
      History(labels[..last]) + if effect.None? then [] else [effect.value.0]
  }

  lemma HistoryGrows(labels: seq<Label>)
    requires labels != [] && Exec(INIT, labels).Some?
    ensures var last := |labels| - 1;
            var effect := Effective(Exec(INIT, labels[..last]).value, labels[last]);
            History(labels) == History(labels[..last]) + if effect.None? then [] else [effect.value.0]
  {
  }

  lemma OneMore(h: seq<M.Op>, effect: Option<(M.Op, M.Ret)>, s': State)
    requires M.Run(h).Some? && TakesEffect(M.Run(h).value, effect, s')
    ensures var more := h + if effect.None? then [] else [effect.value.0];
            M.Run(more).Some? && Refines(s', M.Run(more).value)
  {
    if effect.Some? {
      M.RunConcat(h, effect.value.0);
    } else {
      assert h + [] == h;
    }
  }

  /** Every interleaving without overlap has the list and the counter of a sequential history. */
  lemma {:induction false} RunsRefine(labels: seq<Label>)
    requires EvOk(labels) && Exec(INIT, labels).Some? && !MeetsOverlap(INIT, labels) && |labels| <= UINT64_RANGE
    ensures M.Run(History(labels)).Some? && Refines(Exec(INIT, labels).value, M.Run(History(labels)).value)
    decreases |labels|
  {
    if labels != [] {
      var last := |labels| - 1;
      NoOverlapBefore(labels);
      RunsRefine(labels[..last]);
      SortedOverRuns(labels[..last]);
      InitInv();
      InvariantOverRuns(INIT, labels[..last]);
      InvariantOverRuns(INIT, labels);
      var r := M.Run(History(labels[..last])).value;
      StepRefines(Exec(INIT, labels[..last]).value, labels[last], Exec(INIT, labels).value, r);
      HistoryGrows(labels);
      OneMore(History(labels[..last]), Effective(Exec(INIT, labels[..last]).value, labels[last]),
              Exec(INIT, labels).value);
    }
  }

  lemma CountedStep(s: State, l: Label, s': State)
    requires Inv(s) && Next(s, l) == Some(s')
    ensures Counted(s') == Counted(s) + if Effective(s, l).Some? && M.Draws(Effective(s, l).value.0) then 1 else 0
  {
    if !l.Schedule? {
      IdsKept(s, l, s');
    }
    if Effective(s, l).None? {
      SameCount(s, l, s');
    } else if l == MainStep && s.main.Inserting? {
      InsertDoesNotFault(s, s');
    } else if l == LoopStep {
      assert s'.main == s.main;
    } else {
      assert !s'.main.Inserting?;
    }
  }

  lemma {:induction false} DrawnCounts(labels: seq<Label>)
    requires EvOk(labels) && Exec(INIT, labels).Some? && !MeetsOverlap(INIT, labels)
    ensures M.Drawn(History(labels)) == Counted(Exec(INIT, labels).value)
    decreases |labels|
  {
    if labels != [] {
      var last := |labels| - 1;
      NoOverlapBefore(labels);
      DrawnCounts(labels[..last]);
      InitInv();
      InvariantOverRuns(INIT, labels[..last]);
      CountedStep(Exec(INIT, labels[..last]).value, labels[last], Exec(INIT, labels).value);
      var effect := Effective(Exec(INIT, labels[..last]).value, labels[last]);
      if effect.Some? {
        M.RunConcat(History(labels[..last]), effect.value.0);
      } else {
        assert History(labels) == History(labels[..last]);
      }
    }
  }

  lemma {:induction false} IdsAreList(nodes: seq<Node>, list: seq<nat>)
    requires Own(nodes, list)
    ensures M.Ids(Entries(nodes, list)) == list
  {
    if list != [] {
      IdsAreList(nodes, list[1..]);
      assert list == [list[0]] + list[1..];
    }
  }

  lemma {:induction false} TimesDistinct(list: seq<nat>, a: nat)
    requires Distinct(list)
    ensures Times(list, a) == if a in list then 1 else 0
  {
    if list != [] {
      TimesDistinct(list[1..], a);
      TimesConcat([list[0]], list[1..], a);
      assert list == [list[0]] + list[1..];
      assert [list[0]][..0] == [];
    }
  }

  /** And its frees: an event that no thread is inserting or destroying has been freed as often as its id
      is among the freed ones of that history. */
  lemma FreesRefine(labels: seq<Label>, a: nat)
    requires EvOk(labels) && Exec(INIT, labels).Some? && !MeetsOverlap(INIT, labels) && |labels| <= UINT64_RANGE
    requires a < |Exec(INIT, labels).value.nodes| && !InHands(Exec(INIT, labels).value, a)
    ensures M.Run(History(labels)).Some?
    ensures Exec(INIT, labels).value.nodes[a].frees == Times(M.Run(History(labels)).value.freed, a)
  {
    RunsRefine(labels);
    DrawnCounts(labels);
    SortedOverRuns(labels);
    InitInv();
    InvariantOverRuns(INIT, labels);
    var s, r := Exec(INIT, labels).value, M.Run(History(labels)).value;
    M.EventsConserved(History(labels), a);
    IdsAreList(s.nodes, s.list);
    TimesDistinct(s.list, a);
    assert PlacedAt(s, a);
    assert s.main.Inserting? && Unlisted(s.main.ins) ==> a != s.main.a == |s.nodes| - 1;
  }
}
