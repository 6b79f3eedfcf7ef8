/** Cancelling while the event thread destroys one-shots: under any interleaving the ids on the list
    fall strictly from its head, and a search by id is exact at the moment it ends. */
module RegistryCancel {
  import opened CTypes
  import opened RegistryThreads

  /** Every event's id is its index; the counter has not wrapped around. */
  ghost predicate Named(s: State) {
    && |s.nodes| <= 0x1_0000_0000_0000_0000
    && s.idCnt == |s.nodes| % 0x1_0000_0000_0000_0000
    && forall a :: 0 <= a < |s.nodes| ==> s.nodes[a].id == a
  }

  ghost predicate Falling(list: seq<nat>) {
    list != [] ==> (forall x :: x in list[1..] ==> x < list[0]) && Falling(list[1..])
  }

  /** An event being inserted is newer than all on the list. */
  ghost predicate Newest(s: State) {
    s.main.Inserting? && Unlisted(s.main.ins) ==> s.main.a == |s.nodes| - 1 && forall x :: x in s.list ==> x < s.main.a
  }

  /** The list from `cur` on. */
  function From(list: seq<nat>, cur: Option<nat>): seq<nat> {
    if cur == None || list == [] then []
    else if list[0] == cur.value then list
    else From(list[1..], cur)
  }

  /** A search has not passed its event: if the id is on the list, it is still ahead. */
  ghost predicate Ahead(s: State) {
    s.main.Scanning? && s.main.id in s.list ==> s.main.id in From(s.list, s.main.cur)
  }

  ghost predicate Sorted(s: State) {
    Named(s) && Falling(s.list) && Newest(s) && Ahead(s)
  }

  // ----- lists -----

  lemma {:induction false} RemovedFalling(list: seq<nat>, a: nat)
    requires Falling(list)
    ensures Falling(Removed(list, a))
    ensures forall x :: x in Removed(list, a) ==> x in list
  {
    if list != [] && list[0] != a {
      RemovedFalling(list[1..], a);
      assert Removed(list, a)[1..] == Removed(list[1..], a);
    }
  }

  /** Going on by `le_next` drops exactly one event from what is ahead. */
  lemma {:induction false} FromNext(nodes: seq<Node>, start: Option<nat>, list: seq<nat>, c: nat)
    requires Forward(nodes, start, list) && Distinct(list) && c in list
    ensures c < |nodes| && From(list, Some(c)) != [] && From(list, Some(c))[0] == c
    ensures From(list, nodes[c].next) == From(list, Some(c))[1..]
    ensures nodes[c].next.Some? ==> nodes[c].next.value in list[1..]
    decreases |list|
  {
    if list[0] != c {
      FromNext(nodes, nodes[list[0]].next, list[1..], c);
    } else if list[1..] != [] {
      assert nodes[c].next == Some(list[1..][0]);
    }
  }

  lemma {:induction false} FallingIndices(list: seq<nat>, i: nat, j: nat)
    requires Falling(list) && i < j < |list|
    ensures list[j] < list[i]
    decreases |list|
  {
    if i == 0 {
      assert list[1..][j - 1] in list[1..];
    } else {
      FallingIndices(list[1..], i - 1, j - 1);
    }
  }

  // ----- steps -----

  ghost predicate SameIds(s: State, s': State) {
    && |s'.nodes| == |s.nodes| && s'.idCnt == s.idCnt
    && forall a :: 0 <= a < |s.nodes| ==> s'.nodes[a].id == s.nodes[a].id
  }

  lemma DestroyKeepsIds(s: State, t: Thread, a: nat, at: Phase)
    requires DestroyStep(s, t, a, at).Some?
    ensures SameIds(s, DestroyStep(s, t, a, at).value)
  {
  }

  lemma InsertKeepsIds(s: State, a: nat, ins: Insert)
    requires InsertStep(s, a, ins).Some?
    ensures SameIds(s, InsertStep(s, a, ins).value)
  {
  }

  /** A step changes no id, and allocates only in a schedule. */
  lemma IdsKept(s: State, l: Label, s': State)
    requires Next(s, l) == Some(s') && !l.Schedule?
    ensures SameIds(s, s')
  {
    if l == MainStep && s.main.Inserting? {
      InsertKeepsIds(s, s.main.a, s.main.ins);
    } else if l == MainStep && s.main.Destroying? {
      DestroyKeepsIds(s, Main, s.main.a, s.main.at);
    } else if l == LoopStep && s.loop.Destroys? {
      DestroyKeepsIds(s, Loop, s.loop.a, s.loop.at);
    }
  }

  /** The list changes only by an insertion in front and by removals. */
  lemma ListChanges(s: State, l: Label, s': State)
    requires Next(s, l) == Some(s')
    ensures || s'.list == s.list
            || (l == MainStep && s.main.Inserting? && s.main.ins == SetPrev && s'.list == [s.main.a] + s.list)
            || (l == MainStep && s.main.Destroying? && s.main.at == Unlink2 && s'.list == Removed(s.list, s.main.a))
            || (l == LoopStep && s.loop.Destroys? && s.loop.at == Unlink2 && s'.list == Removed(s.list, s.loop.a))
  {
  }

  lemma NamedKept(s: State, l: Label, s': State)
    requires Named(s) && |s.nodes| < 0x1_0000_0000_0000_0000 && Next(s, l) == Some(s')
    ensures Named(s')
  {
    if !l.Schedule? {
      IdsKept(s, l, s');
    }
  }

  lemma FallingKept(s: State, l: Label, s': State)
    requires Falling(s.list) && Newest(s) && Next(s, l) == Some(s')
    ensures Falling(s'.list)
  {
    ListChanges(s, l, s');
    if s'.list != s.list {
      if l == MainStep && s.main.Inserting? {
        assert s'.list[0] == s.main.a && s'.list[1..] == s.list;
      } else if l == MainStep {
        RemovedFalling(s.list, s.main.a);
      } else {
        RemovedFalling(s.list, s.loop.a);
      }
    }
  }

  /** An insertion under way was under way before, and the list has not grown meanwhile. */
  lemma InsertionStays(s: State, l: Label, s': State)
    requires Inv(s) && Next(s, l) == Some(s') && !l.Schedule? && s'.main.Inserting? && Unlisted(s'.main.ins)
    ensures s.main.Inserting? && Unlisted(s.main.ins) && s.main.a == s'.main.a
    ensures s'.list == s.list || (s.loop.Destroys? && s'.list == Removed(s.list, s.loop.a))
  {
    if l == LoopStep {
      assert s'.main == s.main;
      ListChanges(s, l, s');
    }
  }

  lemma NewestKept(s: State, l: Label, s': State)
    requires Inv(s) && Falling(s.list) && Newest(s) && Next(s, l) == Some(s')
    ensures Newest(s')
  {
    if l.Schedule? {
      assert forall x :: x in s.list ==> x < |s.nodes|;
    } else if s'.main.Inserting? && Unlisted(s'.main.ins) {
      InsertionStays(s, l, s');
      IdsKept(s, l, s');
      if s'.list != s.list {
        RemovedFalling(s.list, s.loop.a);
      }
    }
  }

  lemma StillAhead(s: State, id: nat, c: nat)
    requires Inv(s) && Named(s) && Ahead(s) && s.main == Scanning(id, Some(c)) && s.nodes[c].id != id
    ensures id in s.list ==> id in From(s.list, s.nodes[c].next)
  {
    FromNext(s.nodes, s.first, s.list, c);
    var ahead := From(s.list, Some(c));
    assert ahead == [c] + ahead[1..];
  }

  lemma SearchStarts(s: State, s': State)
    requires Inv(s) && s.main.Searching? && Next(s, MainStep) == Some(s')
    ensures s'.main == Scanning(s.main.id, s.first) && From(s'.list, s.first) == s'.list
  {
  }

  lemma AheadKept(s: State, l: Label, s': State)
    requires Inv(s) && Named(s) && Ahead(s) && Next(s, l) == Some(s')
    ensures Ahead(s')
  {
    if s'.main.Scanning? {
      if l != MainStep {
        assert s'.main == s.main && s.mutex == Some(Main);
        ListChanges(s, l, s');
      } else if s.main.Searching? {
        SearchStarts(s, s');
      } else {
        var id, c := s.main.id, s.main.cur.value;
        assert s.main == Scanning(id, Some(c)) && c in s.list && s' == ScanStep(s, id, Some(c));
        assert PlacedAt(s, c) && !Dangling(s, c);
        StillAhead(s, id, c);
      }
    }
  }

  lemma {:induction false} SortedOverRuns(labels: seq<Label>)
    requires EvOk(labels) && Exec(INIT, labels).Some? && !MeetsOverlap(INIT, labels)
    requires |labels| <= 0x1_0000_0000_0000_0000
    ensures Sorted(Exec(INIT, labels).value) && |Exec(INIT, labels).value.nodes| <= |labels|
    decreases |labels|
  {
    if labels != [] {
      var last := |labels| - 1;
      var front := labels[..last];
      NoOverlapBefore(labels);
      SortedOverRuns(front);
      InitInv();
      InvariantOverRuns(INIT, front);
      var s, s' := Exec(INIT, front).value, Exec(INIT, labels).value;
      NamedKept(s, labels[last], s');
      FallingKept(s, labels[last], s');
      NewestKept(s, labels[last], s');
      AheadKept(s, labels[last], s');
      if !labels[last].Schedule? {
        IdsKept(s, labels[last], s');
      }
    }
  }

  lemma NoOverlapBefore(labels: seq<Label>)
    requires labels != [] && !MeetsOverlap(INIT, labels)
    ensures !MeetsOverlap(INIT, labels[..|labels| - 1])
  {
    var front := labels[..|labels| - 1];
    if MeetsOverlap(INIT, front) {
      var k :| 0 <= k <= |front| && OverlapAfter(INIT, front, k);
      assert front[..k] == labels[..k];
      assert OverlapAfter(INIT, labels, k);
    }
  }

  // ----- what holds of every interleaving -----

  /** In every state of every run without overlap, ids fall strictly from the head of the list on. */
  lemma IdsFallInEveryRun(labels: seq<Label>, i: nat, j: nat)
    requires EvOk(labels) && Exec(INIT, labels).Some? && !MeetsOverlap(INIT, labels)
    requires |labels| <= 0x1_0000_0000_0000_0000
    requires i < j < |Exec(INIT, labels).value.list|
    ensures var s := Exec(INIT, labels).value;
            && s.list[i] < |s.nodes| && s.list[j] < |s.nodes|
            && s.nodes[s.list[j]].id < s.nodes[s.list[i]].id
  {
    SortedOverRuns(labels);
    InitInv();
    InvariantOverRuns(INIT, labels);
    var s := Exec(INIT, labels).value;
    FallingIndices(s.list, i, j);
    assert s.list[i] in s.list && s.list[j] in s.list;
  }

  /** No event on the list has this id. */
  ghost predicate Absent(s: State, id: nat) {
    forall a :: a in s.list && a < |s.nodes| ==> s.nodes[a].id != id
  }

  /** The only event on the list with this id. */
  ghost predicate OnlyOne(s: State, a: nat, id: nat) {
    a in s.list && forall b :: b in s.list && b < |s.nodes| ==> (s.nodes[b].id == id <==> b == a)
  }

  /** What the next step of a search makes of it. */
  ghost predicate SearchStep(s: State, id: nat, cur: Option<nat>, t: State) {
    && t.list == s.list && !t.fault
    && (t.main == Idle <==> cur == None)
    && (t.main == Idle ==> Absent(s, id))
    && (t.main.Destroying? ==> OnlyOne(s, t.main.a, id))
    && (t.main.Scanning? ==> t.main.id == id)
  }

  lemma SearchStepExact(s: State, id: nat, cur: Option<nat>)
    requires Inv(s) && Sorted(s) && s.main == Scanning(id, cur)
    ensures Next(s, MainStep).Some? && SearchStep(s, id, cur, Next(s, MainStep).value)
  {
    if cur.Some? {
      assert PlacedAt(s, cur.value);
    }
  }

  /** A search of `events_cancel` is exact under every interleaving: when it gives up, no event on the
      list has the id; when it stops at an event, that one has the id and no other on the list has. */
  lemma SearchIsExact(labels: seq<Label>, id: nat, cur: Option<nat>)
    requires EvOk(labels) && Exec(INIT, labels).Some? && !MeetsOverlap(INIT, labels)
    requires |labels| <= 0x1_0000_0000_0000_0000
    requires Exec(INIT, labels).value.main == Scanning(id, cur)
    ensures var s := Exec(INIT, labels).value;
            Next(s, MainStep).Some? && SearchStep(s, id, cur, Next(s, MainStep).value)
  {
    SortedOverRuns(labels);
    InitInv();
    InvariantOverRuns(INIT, labels);
    SearchStepExact(Exec(INIT, labels).value, id, cur);
  }
}
