/** The link-stats protocol over time: the main thread works through a plan while the event thread
    handles confirms. A confirm names neither its direction nor, properly, its link; the link is
    carried in the request id and the direction is guessed from the phase at arrival.

    A run is a sequence of labels. `Act` lets the main thread take its next action once its last
    sleep is over; `Wait` lets time pass, so a sleep lasts at least as long as asked for; `Deliver`
    hands in a confirm of an earlier request, less than `bound` after that request; `Other` hands
    in any frame that is no successful link-stats confirm. A request may be confirmed any number of
    times, or never. */
module LinkProtocol {
  import opened CTypes
  import opened Codec
  import opened RequestPlan
  import opened StatsReceiver
  import Records
  import RoundTrip
  import Sender

  datatype Label = Act | Wait(usec: nat) | Deliver(pos: nat, data: seq<byte>) | Other(data: seq<byte>)

  /** `at[i]` is when action `i` of the plan was taken; `wake` is when the main thread may go on.
      For each printed section, `causes` has the request that it answers, if it is a link section;
      `missed` has the requests confirmed too late, after the teardown. */
  datatype State = State(now: nat, wake: nat, at: seq<nat>, phase: Dir, open: bool,
                         out: Output, causes: seq<Option<nat>>, missed: seq<nat>)

  function Init(phase: Dir): State {
    State(0, 0, [], phase, true, Output(Counters(0, 0, 0), []), [], [])
  }

  function Duration(a: Action): nat {
    if a.Sleep? then a.usec else 0
  }

  /** The confirm may arrive now. */
  predicate MayArrive(plan: seq<Action>, bound: nat, s: State, pos: nat, data: seq<byte>) {
    && pos < |s.at| <= |plan| && plan[pos].LinkRequest? && s.now - s.at[pos] < bound
    && Confirms(Read(data)) && Read(data)[19] == plan[pos].reqId
  }

  function Blank(n: nat): (s: seq<Option<nat>>)
    ensures |s| == n && forall i :: 0 <= i < n ==> s[i] == None
  {
    seq(n, _ => None)
  }

  /** The state after a label; `None` if it cannot happen. */
  function Step(plan: seq<Action>, bound: nat, s: State, l: Label): Option<State> {
    match l
    case Act =>
      if |s.at| < |plan| && s.wake <= s.now then
        var a := plan[|s.at|];
        Some(s.(wake := s.now + Duration(a), at := s.at + [s.now],
                phase := if a.Phase? then a.dir else s.phase, open := s.open && !a.Teardown?))
      else None
    case Wait(usec) => Some(s.(now := s.now + usec))
    case Deliver(pos, data) =>
      if !MayArrive(plan, bound, s, pos, data) then None
      else if s.open then Some(s.(out := Handle(s.phase, s.out, data), causes := s.causes + [Some(pos)]))
      else Some(s.(missed := s.missed + [pos]))
    case Other(data) =>
      if Confirms(Read(data)) then None
      else if s.open then
        var o := Handle(s.phase, s.out, data);
        OthersRecorded(s.phase, s.out, data);
        Some(s.(out := o, causes := s.causes + Blank(|o.sections| - |s.out.sections|)))
      else Some(s)
  }

  function Exec(plan: seq<Action>, bound: nat, phase: Dir, labels: seq<Label>): Option<State> {
    if labels == [] then Some(Init(phase))
    else
      var s := Exec(plan, bound, phase, labels[..|labels| - 1]);
      if s.None? then None else Step(plan, bound, s.value, labels[|labels| - 1])
  }

  // ----- what the plan alone says -----

  /** The sleeping time of the first `k` actions. */
  function Clock(plan: seq<Action>, k: nat): nat
    requires k <= |plan|
  {
    if k == 0 then 0 else Clock(plan, k - 1) + Duration(plan[k - 1])
  }

  lemma {:induction false} ClockMonotone(plan: seq<Action>, j: nat, k: nat)
    requires j <= k <= |plan|
    ensures Clock(plan, j) <= Clock(plan, k)
  {
    if j < k {
      ClockMonotone(plan, j, k - 1);
    }
  }

  /** The phase after the first `k` actions. */
  function PhaseAt(plan: seq<Action>, phase: Dir, k: nat): Dir
    requires k <= |plan|
  {
    if k == 0 then phase else if plan[k - 1].Phase? then plan[k - 1].dir else PhaseAt(plan, phase, k - 1)
  }

  /** Each link request is sent in its own phase, and the teardown comes last. */
  ghost predicate Orderly(plan: seq<Action>) {
    && (forall p, phase :: 0 <= p < |plan| && plan[p].LinkRequest? ==> PhaseAt(plan, phase, p) == plan[p].dir)
    && (forall k :: 0 <= k < |plan| && plan[k].Teardown? ==> k == |plan| - 1)
  }

  /** Action `q` switches to the other phase, less than `bound` of sleep behind request `p`. */
  predicate Overtakes(plan: seq<Action>, bound: nat, p: nat, q: nat)
    requires p < |plan| && plan[p].LinkRequest?
  {
    p < q < |plan| && plan[q].Phase? && plan[q].dir != plan[p].dir && Clock(plan, q) - Clock(plan, p) < bound
  }

  ghost predicate Overtaken(plan: seq<Action>, bound: nat, p: nat)
    requires p < |plan| && plan[p].LinkRequest?
  {
    exists q: nat :: Overtakes(plan, bound, p, q)
  }

  /** Action `q` is a teardown, less than `bound` of sleep behind request `p`. */
  predicate Ends(plan: seq<Action>, bound: nat, p: nat, q: nat) {
    p < q < |plan| && plan[q].Teardown? && Clock(plan, q) - Clock(plan, p) < bound
  }

  ghost predicate Ended(plan: seq<Action>, bound: nat, p: nat) {
    exists q: nat :: Ends(plan, bound, p, q)
  }

  // ----- what holds in every state of every run -----

  /** Actions are never closer together than the sleeps between them. */
  ghost predicate Paced(plan: seq<Action>, s: State) {
    && |s.at| <= |plan|
    && (forall i, q :: 0 <= i <= q < |s.at| ==> s.at[i] - Clock(plan, i) <= s.at[q] - Clock(plan, q))
    && (forall i :: 0 <= i < |s.at| ==> s.at[i] - Clock(plan, i) <= s.wake - Clock(plan, |s.at|) && s.at[i] <= s.now)
  }

  /** The section records the direction and the link of request `p`. */
  predicate Right(plan: seq<Action>, x: Section, p: nat) {
    && p < |plan| && plan[p].LinkRequest?
    && x.LinkSection? && x.dir == plan[p].dir && x.reqId == plan[p].reqId
  }

  /** A section's cause explains it: the request's id always, its direction unless overtaken. */
  ghost predicate Explained(plan: seq<Action>, bound: nat, x: Section, cause: Option<nat>) {
    match cause
    case None => x.NwSection?
    case Some(p) =>
      && p < |plan| && plan[p].LinkRequest? && x.LinkSection? && x.reqId == plan[p].reqId
      && (Right(plan, x, p) || Overtaken(plan, bound, p))
  }

  ghost predicate Inv(plan: seq<Action>, bound: nat, phase: Dir, s: State) {
    && Paced(plan, s)
    && s.phase == PhaseAt(plan, phase, |s.at|)
    && (s.open <==> forall k :: 0 <= k < |s.at| ==> !plan[k].Teardown?)
    && |s.causes| == |s.out.sections|
    && (forall k :: 0 <= k < |s.causes| ==> Explained(plan, bound, s.out.sections[k], s.causes[k]))
    && (forall p :: p in s.missed ==> Ended(plan, bound, p))
  }

  lemma ActPaced(plan: seq<Action>, bound: nat, s: State)
    requires Paced(plan, s) && Step(plan, bound, s, Act).Some?
    ensures Paced(plan, Step(plan, bound, s, Act).value)
  {
    var s' := Step(plan, bound, s, Act).value;
    var k := |s.at|;
    assert s'.at[k] == s.now && forall i :: 0 <= i < k ==> s'.at[i] == s.at[i];
    assert Clock(plan, k + 1) == Clock(plan, k) + Duration(plan[k]);
    forall i, q | 0 <= i <= q <= k ensures s'.at[i] - Clock(plan, i) <= s'.at[q] - Clock(plan, q) {
      if i < k && q == k {
        assert s.at[i] - Clock(plan, i) <= s.wake - Clock(plan, k);
      }
    }
  }

  /** If the phase is no longer that of request `p`, an action in between has switched it. */
  lemma {:induction false} PhaseSwitched(plan: seq<Action>, phase: Dir, p: nat, k: nat) returns (q: nat)
    requires p <= k <= |plan| && PhaseAt(plan, phase, p) != PhaseAt(plan, phase, k)
    ensures p <= q < k && plan[q].Phase? && plan[q].dir == PhaseAt(plan, phase, k)
  {
    if plan[k - 1].Phase? {
      q := k - 1;
    } else {
      q := PhaseSwitched(plan, phase, p, k - 1);
    }
  }

  lemma DeliverExplained(plan: seq<Action>, bound: nat, phase: Dir, s: State, pos: nat, data: seq<byte>)
    requires Orderly(plan) && Inv(plan, bound, phase, s) && MayArrive(plan, bound, s, pos, data)
    ensures s.open ==>
      var sections := Handle(s.phase, s.out, data).sections;
      |sections| == |s.out.sections| + 1 && s.out.sections == sections[..|s.out.sections|]
      && Explained(plan, bound, sections[|s.out.sections|], Some(pos))
    ensures !s.open ==> Ended(plan, bound, pos)
  {
    ConfirmRecorded(s.phase, s.out, data);
    if !s.open {
      var q :| 0 <= q < |s.at| && plan[q].Teardown?;
      assert s.at[pos] - Clock(plan, pos) <= s.at[q] - Clock(plan, q);
      assert Ends(plan, bound, pos, q);
    } else if s.phase != plan[pos].dir {
      var q := PhaseSwitched(plan, phase, pos, |s.at|);
      assert s.at[pos] - Clock(plan, pos) <= s.at[q] - Clock(plan, q);
      assert Overtakes(plan, bound, pos, q);
    }
  }

  lemma ActKeeps(plan: seq<Action>, bound: nat, phase: Dir, s: State)
    requires Inv(plan, bound, phase, s) && Step(plan, bound, s, Act).Some?
    ensures Inv(plan, bound, phase, Step(plan, bound, s, Act).value)
  {
    var s' := Step(plan, bound, s, Act).value;
    ActPaced(plan, bound, s);
    assert |s'.at| == |s.at| + 1;
    assert s'.open <==> forall k :: 0 <= k < |s'.at| ==> !plan[k].Teardown?;
  }

  lemma DeliverKeeps(plan: seq<Action>, bound: nat, phase: Dir, s: State, pos: nat, data: seq<byte>)
    requires Orderly(plan) && Inv(plan, bound, phase, s) && MayArrive(plan, bound, s, pos, data)
    ensures Inv(plan, bound, phase, Step(plan, bound, s, Deliver(pos, data)).value)
  {
    DeliverExplained(plan, bound, phase, s, pos, data);
  }

  lemma OtherKeeps(plan: seq<Action>, bound: nat, phase: Dir, s: State, data: seq<byte>)
    requires Inv(plan, bound, phase, s) && !Confirms(Read(data))
    ensures Inv(plan, bound, phase, Step(plan, bound, s, Other(data)).value)
  {
    OthersRecorded(s.phase, s.out, data);
  }

  lemma StepKeeps(plan: seq<Action>, bound: nat, phase: Dir, s: State, l: Label)
    requires Orderly(plan) && Inv(plan, bound, phase, s) && Step(plan, bound, s, l).Some?
    ensures Inv(plan, bound, phase, Step(plan, bound, s, l).value)
  {
    match l {
      case Act => ActKeeps(plan, bound, phase, s);
      case Wait(_) =>
      case Deliver(pos, data) => DeliverKeeps(plan, bound, phase, s, pos, data);
      case Other(data) => OtherKeeps(plan, bound, phase, s, data);
    }
  }

  lemma {:induction false} InvariantOverRuns(plan: seq<Action>, bound: nat, phase: Dir, labels: seq<Label>)
    requires Orderly(plan) && Exec(plan, bound, phase, labels).Some?
    ensures Inv(plan, bound, phase, Exec(plan, bound, phase, labels).value)
    decreases |labels|
  {
    if labels != [] {
      var last := |labels| - 1;
      InvariantOverRuns(plan, bound, phase, labels[..last]);
      StepKeeps(plan, bound, phase, Exec(plan, bound, phase, labels[..last]).value, labels[last]);
    }
  }

  // ----- the fastest run -----

  /** The main thread takes `k` actions without ever dawdling. */
  function Fast(plan: seq<Action>, k: nat): seq<Label>
    requires k <= |plan|
  {
    if k == 0 then [] else Fast(plan, k - 1) + [Act, Wait(Duration(plan[k - 1]))]
  }

  lemma ExecTwo(plan: seq<Action>, bound: nat, phase: Dir, labels: seq<Label>, a: Label, b: Label)
    requires Exec(plan, bound, phase, labels).Some?
    ensures Exec(plan, bound, phase, labels + [a]) == Step(plan, bound, Exec(plan, bound, phase, labels).value, a)
    ensures Exec(plan, bound, phase, labels + [a]).Some? ==>
      Exec(plan, bound, phase, labels + [a, b]) == Step(plan, bound, Exec(plan, bound, phase, labels + [a]).value, b)
  {
    assert (labels + [a])[..|labels|] == labels;
    assert (labels + [a, b])[..|labels| + 1] == labels + [a];
  }

  /** The state of the fastest run after `k` actions. */
  ghost predicate OnTime(plan: seq<Action>, phase: Dir, k: nat, s: State)
    requires k <= |plan|
  {
    && s.now == s.wake == Clock(plan, k) && |s.at| == k && (forall i :: 0 <= i < k ==> s.at[i] == Clock(plan, i))
    && s.phase == PhaseAt(plan, phase, k) && (s.open <==> forall i :: 0 <= i < k ==> !plan[i].Teardown?)
    && s.out == Output(Counters(0, 0, 0), []) && s.causes == [] && s.missed == []
  }

  lemma OnTimeStep(plan: seq<Action>, bound: nat, phase: Dir, k: nat, s: State)
    requires k < |plan| && OnTime(plan, phase, k, s)
    ensures Step(plan, bound, s, Act).Some?
    ensures var t := Step(plan, bound, s, Act).value;
            OnTime(plan, phase, k + 1, Step(plan, bound, t, Wait(Duration(plan[k]))).value)
  {
    var s' := Step(plan, bound, Step(plan, bound, s, Act).value, Wait(Duration(plan[k]))).value;
    assert Clock(plan, k + 1) == Clock(plan, k) + Duration(plan[k]);
    assert s'.open <==> s.open && !plan[k].Teardown?;
  }

  lemma {:induction false} FastRun(plan: seq<Action>, bound: nat, phase: Dir, k: nat)
    requires k <= |plan|
    ensures Exec(plan, bound, phase, Fast(plan, k)).Some?
    ensures OnTime(plan, phase, k, Exec(plan, bound, phase, Fast(plan, k)).value)
  {
    if k == 0 {
      assert Exec(plan, bound, phase, []) == Some(Init(phase));
    } else {
      FastRun(plan, bound, phase, k - 1);
      OnTimeStep(plan, bound, phase, k - 1, Exec(plan, bound, phase, Fast(plan, k - 1)).value);
      ExecTwo(plan, bound, phase, Fast(plan, k - 1), Act, Wait(Duration(plan[k - 1])));
    }
  }

  /** A successful confirm with the given request id. */
  function Sample(reqId: byte): seq<byte> {
    RoundTrip.ConfirmFrame(Zeros(6), Zeros(6), 1, CM_LINK_STATS,
                           Records.EncodeHead(Records.ConfirmHead(reqId, 0)) + Zeros(TRANSMIT_SIZE))
  }

  lemma SampleConfirms(reqId: byte)
    ensures Confirms(Read(Sample(reqId))) && Read(Sample(reqId))[19] == reqId
  {
    var payload := Records.EncodeHead(Records.ConfirmHead(reqId, 0)) + Zeros(TRANSMIT_SIZE);
    var f := Sample(reqId);
    RoundTrip.ConfirmFrameParses(Zeros(6), Zeros(6), 1, CM_LINK_STATS, payload);
    Sender.FrameSize(Zeros(6), Zeros(6), 1, CM_LINK_STATS, Sender.Confirm, payload);
    assert Read(f) == f;
    assert f[19] == f[HEADER_SIZE..][0] == payload[0] && f[20] == f[HEADER_SIZE..][1] == payload[1];
  }

  // ----- exactly when attribution works -----

  /** In every run each section caused by request `p` shows its direction and its link. */
  ghost predicate NeverMisread(plan: seq<Action>, bound: nat, p: nat) {
    forall phase, labels :: Exec(plan, bound, phase, labels).Some? ==>
      AllRight(plan, Exec(plan, bound, phase, labels).value, p)
  }

  ghost predicate AllRight(plan: seq<Action>, s: State, p: nat) {
    |s.causes| == |s.out.sections|
    && forall k :: 0 <= k < |s.causes| && s.causes[k] == Some(p) ==> Right(plan, s.out.sections[k], p)
  }

  /** The fastest run, with a confirm of `p` right after the switch at `q`. */
  lemma MisreadRun(plan: seq<Action>, bound: nat, p: nat, q: nat) returns (labels: seq<Label>)
    requires Orderly(plan) && p < |plan| && plan[p].LinkRequest? && Overtakes(plan, bound, p, q)
    ensures Exec(plan, bound, plan[p].dir, labels).Some?
    ensures !AllRight(plan, Exec(plan, bound, plan[p].dir, labels).value, p)
  {
    var phase, data := plan[p].dir, Sample(plan[p].reqId);
    labels := Fast(plan, q + 1);
    FastRun(plan, bound, phase, q + 1);
    SampleConfirms(plan[p].reqId);
    var s := Exec(plan, bound, phase, labels).value;
    assert Clock(plan, q + 1) == Clock(plan, q);
    assert MayArrive(plan, bound, s, p, data);
    ConfirmRecorded(s.phase, s.out, data);
    ExecTwo(plan, bound, phase, labels, Deliver(p, data), Act);
    labels := labels + [Deliver(p, data)];
    assert Exec(plan, bound, phase, labels).value.causes[0] == Some(p);
  }

  /** A request's confirms are attributed rightly in all runs exactly if no switch to the other
      phase follows it within the bound on the confirms' delay. */
  lemma MisreadExactly(plan: seq<Action>, bound: nat, p: nat)
    requires Orderly(plan) && p < |plan| && plan[p].LinkRequest?
    ensures NeverMisread(plan, bound, p) <==> !Overtaken(plan, bound, p)
  {
    if Overtaken(plan, bound, p) {
      var q: nat :| Overtakes(plan, bound, p, q);
      var labels := MisreadRun(plan, bound, p, q);
    } else {
      forall phase, labels | Exec(plan, bound, phase, labels).Some?
        ensures AllRight(plan, Exec(plan, bound, phase, labels).value, p)
      {
        InvariantOverRuns(plan, bound, phase, labels);
      }
    }
  }

  /** In every run no confirm of request `p` comes too late. */
  ghost predicate NeverMissed(plan: seq<Action>, bound: nat, p: nat) {
    forall phase, labels :: Exec(plan, bound, phase, labels).Some? ==>
      p !in Exec(plan, bound, phase, labels).value.missed
  }

  /** The fastest run, with a confirm of `p` right after the teardown at `q`. */
  lemma MissedRun(plan: seq<Action>, bound: nat, p: nat, q: nat) returns (labels: seq<Label>)
    requires p < |plan| && plan[p].LinkRequest? && Ends(plan, bound, p, q)
    ensures Exec(plan, bound, Transmit, labels).Some?
    ensures p in Exec(plan, bound, Transmit, labels).value.missed
  {
    var data := Sample(plan[p].reqId);
    labels := Fast(plan, q + 1);
    FastRun(plan, bound, Transmit, q + 1);
    SampleConfirms(plan[p].reqId);
    assert Clock(plan, q + 1) == Clock(plan, q);
    assert MayArrive(plan, bound, Exec(plan, bound, Transmit, labels).value, p, data);
    ExecTwo(plan, bound, Transmit, labels, Deliver(p, data), Act);
    labels := labels + [Deliver(p, data)];
  }

  /** A request's confirms are all received in all runs exactly if no teardown follows it within
      the bound. */
  lemma MissedExactly(plan: seq<Action>, bound: nat, p: nat)
    requires Orderly(plan) && p < |plan| && plan[p].LinkRequest?
    ensures NeverMissed(plan, bound, p) <==> !Ended(plan, bound, p)
  {
    if Ended(plan, bound, p) {
      var q: nat :| Ends(plan, bound, p, q);
      var labels := MissedRun(plan, bound, p, q);
    } else {
      forall phase, labels | Exec(plan, bound, phase, labels).Some?
        ensures p !in Exec(plan, bound, phase, labels).value.missed
      {
        InvariantOverRuns(plan, bound, phase, labels);
      }
    }
  }
}
