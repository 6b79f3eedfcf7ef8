/** How long confirms may take: for every configuration, exactly which bound on their delay makes
    all runs attribute them rightly, and exactly which makes all runs receive them. */
module LinkTiming {
  import opened CTypes
  import opened StatsOptions
  import opened RequestPlan
  import opened LinkProtocol

  // ----- where things are in a plan -----

  /** Length of the link part of one direction. */
  function LinkLength(c: Conf): nat {
    if c.lid != -1 then 1 else 2 * (LidLimit(c) + 1)
  }

  /** The last request is followed by a gap in a sweep only. */
  function TailGap(c: Conf): nat {
    if c.lid != -1 then 0 else c.gap
  }

  function TailLength(c: Conf): nat {
    if c.lid != -1 then 0 else 1
  }

  function TransmitAt(c: Conf): nat {
    (if c.reqNw then 1 else 0) + 2
  }

  /** Behind the transmit part. */
  function TransmitEnd(c: Conf): nat {
    TransmitAt(c) + if c.reqTx then LinkLength(c) else 0
  }

  /** Behind the receive part. */
  function ReceiveEnd(c: Conf): nat {
    TransmitEnd(c) + if c.reqRx then 2 + LinkLength(c) else 0
  }

  /** Position `k` of a link part. */
  ghost predicate LinkSpot(c: Conf, dir: Dir, a: Action, k: nat) {
    if k < LinkLength(c) - TailLength(c)
    then
      && (k == LinkLength(c) - TailLength(c) - 1 ==> a.LinkRequest?)
      && (a == Sleep(c.gap) || (a.LinkRequest? && a.dir == dir))
    else a == Sleep(c.gap)
  }

  /** What is where in a plan that requests link statistics. */
  ghost predicate Spot(c: Conf, a: Action, k: nat) {
    var t := TransmitAt(c);
    if k < t - 2 then a == NwRequest
    else if k == t - 2 then a == Sleep(TwoGaps(c.gap))
    else if k == t - 1 then a == Phase(Transmit)
    else if k < TransmitEnd(c) then LinkSpot(c, Transmit, a, k - t)
    else if k < ReceiveEnd(c) then
      if k == TransmitEnd(c) then a == Sleep(TwoGaps(c.gap))
      else if k == TransmitEnd(c) + 1 then a == Phase(Receive)
      else LinkSpot(c, Receive, a, k - TransmitEnd(c) - 2)
    else if k == ReceiveEnd(c) then a == Sleep(FiveGaps(c.gap))
    else a == Teardown
  }

  lemma {:induction false} SweepSpot(dir: Dir, n: nat, gap: uint32, k: nat)
    requires n <= 0x100 && k < 2 * n
    ensures Sweep(dir, n, gap)[k] == if k % 2 == 0 then LinkRequest(dir, k / 2, k / 2) else Sleep(gap)
  {
    if k < 2 * (n - 1) {
      SweepSpot(dir, n - 1, gap, k);
    }
  }

  lemma LinkSpots(c: Conf, dir: Dir, k: nat)
    requires -1 <= c.lid <= 255
    ensures |Link(c, dir)| == LinkLength(c)
    ensures k < LinkLength(c) ==> LinkSpot(c, dir, Link(c, dir)[k], k)
  {
    if c.lid == -1 && k < LinkLength(c) {
      SweepSpot(dir, LidLimit(c) + 1, c.gap, k);
    }
  }

  lemma PartsAt(a: seq<Action>, t: seq<Action>, r: seq<Action>, e: seq<Action>, k: nat)
    requires k < |a| + |t| + |r| + |e|
    ensures (a + (t + r) + e)[k] ==
      if k < |a| then a[k] else if k < |a| + |t| then t[k - |a|]
      else if k < |a| + |t| + |r| then r[k - |a| - |t|] else e[k - |a| - |t| - |r|]
  {
  }

  lemma Spots(c: Conf, k: nat)
    requires -1 <= c.lid <= 255 && c.reqLink
    ensures |Plan(c)| == ReceiveEnd(c) + 2
    ensures k < |Plan(c)| ==> Spot(c, Plan(c)[k], k)
  {
    LinkSpots(c, Transmit, if TransmitAt(c) <= k then k - TransmitAt(c) else 0);
    LinkSpots(c, Receive, if TransmitEnd(c) + 2 <= k then k - TransmitEnd(c) - 2 else 0);
    if k < |Plan(c)| {
      PartsAt(NwPart(c), TransmitPart(c), ReceivePart(c), Ending(c), k);
    }
  }

  lemma PlanSpots(c: Conf)
    requires -1 <= c.lid <= 255 && c.reqLink
    ensures |Plan(c)| == ReceiveEnd(c) + 2 && forall k :: 0 <= k < |Plan(c)| ==> Spot(c, Plan(c)[k], k)
  {
    Spots(c, 0);
    forall k | 0 <= k < |Plan(c)| ensures Spot(c, Plan(c)[k], k) {
      Spots(c, k);
    }
  }

  /** Where a request of a direction stands, given its id. */
  function PositionOf(c: Conf, dir: Dir, reqId: byte): nat {
    (if dir == Transmit then TransmitAt(c) else TransmitEnd(c) + 2) + if c.lid != -1 then 0 else 2 * reqId
  }

  lemma LinkIds(c: Conf, dir: Dir, k: nat)
    requires -1 <= c.lid <= 255 && k < |Link(c, dir)| && Link(c, dir)[k].LinkRequest?
    ensures Link(c, dir)[k].dir == dir && k == if c.lid != -1 then 0 else 2 * Link(c, dir)[k].reqId
  {
    if c.lid == -1 {
      SweepSpot(dir, LidLimit(c) + 1, c.gap, k);
    }
  }

  /** Direction and request id determine the position of a request in its plan. */
  lemma LinkPosition(c: Conf, p: nat)
    requires -1 <= c.lid <= 255 && p < |Plan(c)| && Plan(c)[p].LinkRequest?
    ensures p == PositionOf(c, Plan(c)[p].dir, Plan(c)[p].reqId)
  {
    if c.reqLink {
      Spots(c, p);
      PartsAt(NwPart(c), TransmitPart(c), ReceivePart(c), Ending(c), p);
      LinkSpots(c, Transmit, 0);
      LinkSpots(c, Receive, 0);
      if p < TransmitEnd(c) {
        LinkIds(c, Transmit, p - TransmitAt(c));
      } else {
        LinkIds(c, Receive, p - TransmitEnd(c) - 2);
      }
    }
  }

  // ----- plans are orderly -----

  lemma {:induction false} PhaseStays(plan: seq<Action>, phase: Dir, j: nat, k: nat)
    requires j <= k <= |plan| && forall i :: j <= i < k ==> !plan[i].Phase?
    ensures PhaseAt(plan, phase, k) == PhaseAt(plan, phase, j)
  {
    if j < k {
      PhaseStays(plan, phase, j, k - 1);
    }
  }

  lemma OwnPhase(c: Conf, phase: Dir, p: nat)
    requires -1 <= c.lid <= 255 && c.reqLink && p < |Plan(c)| && Plan(c)[p].LinkRequest?
    ensures PhaseAt(Plan(c), phase, p) == Plan(c)[p].dir
  {
    PlanSpots(c);
    var start := if p < TransmitEnd(c) then TransmitAt(c) else TransmitEnd(c) + 2;
    assert Spot(c, Plan(c)[p], p);
    assert Spot(c, Plan(c)[start - 1], start - 1);
    PhaseStays(Plan(c), phase, start, p);
  }

  lemma PlanOrderly(c: Conf)
    requires -1 <= c.lid <= 255
    ensures Orderly(Plan(c))
  {
    if c.reqLink {
      PlanSpots(c);
      forall p, phase | 0 <= p < |Plan(c)| && Plan(c)[p].LinkRequest?
        ensures PhaseAt(Plan(c), phase, p) == Plan(c)[p].dir
      {
        OwnPhase(c, phase, p);
      }
    }
  }

  // ----- the time confirms have -----

  /** From the last transmit request to the switch. */
  function Guard(c: Conf): nat {
    TailGap(c) + TwoGaps(c.gap)
  }

  /** From the last request to the teardown. */
  function Drain(c: Conf): nat {
    TailGap(c) + FiveGaps(c.gap)
  }

  function LastIn(c: Conf, end: nat): int {
    end - TailLength(c) - 1
  }

  /** From the last request of a link part that ends at `end` through the sleep behind it. */
  lemma TailClock(c: Conf, end: nat)
    requires -1 <= c.lid <= 255 && c.reqLink
    requires end == ReceiveEnd(c) || (c.reqTx && c.reqRx && end == TransmitEnd(c))
    requires c.reqTx || c.reqRx
    ensures 0 <= LastIn(c, end) && end + 1 < |Plan(c)| && Plan(c)[LastIn(c, end)].LinkRequest?
    ensures Clock(Plan(c), end + 1) - Clock(Plan(c), LastIn(c, end))
         == if end == ReceiveEnd(c) then Drain(c) else Guard(c)
  {
    PlanSpots(c);
    var plan, last := Plan(c), LastIn(c, end);
    assert Spot(c, plan[last], last) && Spot(c, plan[end], end);
    assert Clock(plan, last + 1) == Clock(plan, last);
    if c.lid == -1 {
      assert Spot(c, plan[last + 1], last + 1);
      assert Clock(plan, end) == Clock(plan, last + 1) + c.gap;
    }
    assert Clock(plan, end + 1) == Clock(plan, end) + Duration(plan[end]);
  }

  ghost predicate IsLink(c: Conf, p: nat)
    requires -1 <= c.lid <= 255
  {
    p < |Plan(c)| && Plan(c)[p].LinkRequest?
  }

  /** The only switch that can overtake a request is the one behind the transmit part. */
  lemma OvertakenOnlyBySwitch(c: Conf, bound: nat, p: nat, q: nat)
    requires -1 <= c.lid <= 255 && c.reqLink && IsLink(c, p) && Overtakes(Plan(c), bound, p, q)
    ensures c.reqTx && c.reqRx && Plan(c)[p].dir == Transmit
    ensures q == TransmitEnd(c) + 1 && p <= LastIn(c, TransmitEnd(c))
  {
    PlanSpots(c);
    assert Spot(c, Plan(c)[p], p) && Spot(c, Plan(c)[q], q);
  }

  lemma LinksNeedSelection(c: Conf, p: nat)
    requires -1 <= c.lid <= 255 && IsLink(c, p)
    ensures c.reqLink && (c.reqTx || c.reqRx) && p <= LastIn(c, ReceiveEnd(c))
  {
    if c.reqLink {
      PlanSpots(c);
      assert Spot(c, Plan(c)[p], p);
    }
  }

  /** All link requests of all runs are attributed rightly. */
  ghost predicate Attributes(c: Conf, bound: nat)
    requires -1 <= c.lid <= 255
  {
    forall p :: IsLink(c, p) ==> NeverMisread(Plan(c), bound, p)
  }

  /** With confirms arriving less than `bound` after their request, every run records every confirm
      under the direction and link of its request, exactly if one direction only is asked about or
      the bound is within the guard time. */
  lemma AttributionExactly(c: Conf, bound: nat)
    requires -1 <= c.lid <= 255
    ensures Attributes(c, bound) <==> !(c.reqLink && c.reqTx && c.reqRx) || bound <= Guard(c)
  {
    PlanOrderly(c);
    var both := c.reqLink && c.reqTx && c.reqRx;
    if both {
      TailClock(c, TransmitEnd(c));
    }
    if both && Guard(c) < bound {
      PlanSpots(c);
      var p, q := LastIn(c, TransmitEnd(c)), TransmitEnd(c) + 1;
      assert Spot(c, Plan(c)[p], p) && Spot(c, Plan(c)[q], q);
      assert IsLink(c, p) && Overtakes(Plan(c), bound, p, q);
      MisreadExactly(Plan(c), bound, p);
    } else {
      forall p | IsLink(c, p) ensures NeverMisread(Plan(c), bound, p) {
        NotOvertaken(c, bound, p);
        MisreadExactly(Plan(c), bound, p);
      }
    }
  }

  lemma NotOvertaken(c: Conf, bound: nat, p: nat)
    requires -1 <= c.lid <= 255 && IsLink(c, p)
    requires !(c.reqLink && c.reqTx && c.reqRx) || bound <= Guard(c)
    ensures !Overtaken(Plan(c), bound, p)
  {
    if Overtaken(Plan(c), bound, p) {
      var q: nat :| Overtakes(Plan(c), bound, p, q);
      LinksNeedSelection(c, p);
      OvertakenOnlyBySwitch(c, bound, p, q);
      TailClock(c, TransmitEnd(c));
      ClockMonotone(Plan(c), p, LastIn(c, TransmitEnd(c)));
    }
  }

  /** Confirms of receive requests are attributed rightly however late they come. */
  lemma ReceiveAlwaysRight(c: Conf, bound: nat, p: nat)
    requires -1 <= c.lid <= 255 && IsLink(c, p) && Plan(c)[p].dir == Receive
    ensures NeverMisread(Plan(c), bound, p)
  {
    PlanOrderly(c);
    if Overtaken(Plan(c), bound, p) {
      var q: nat :| Overtakes(Plan(c), bound, p, q);
      LinksNeedSelection(c, p);
      OvertakenOnlyBySwitch(c, bound, p, q);
    }
    MisreadExactly(Plan(c), bound, p);
  }

  /** The two gaps waited before the switch are computed in 32 bits: confirms within two gaps are
      attributed rightly exactly if that product does not wrap around, or one direction only is
      asked about. */
  lemma WithinTwoGaps(c: Conf)
    requires -1 <= c.lid <= 255
    ensures Attributes(c, 2 * c.gap) <==> !(c.reqLink && c.reqTx && c.reqRx) || c.gap < 0x8000_0000
  {
    AttributionExactly(c, 2 * c.gap);
  }

  /** All confirms of all link requests are received in all runs. */
  ghost predicate Receives(c: Conf, bound: nat)
    requires -1 <= c.lid <= 255
  {
    forall p :: IsLink(c, p) ==> NeverMissed(Plan(c), bound, p)
  }

  /** No confirm comes after the teardown exactly if there are no link requests or the bound is
      within the time between the last of them and the teardown. */
  lemma ReceptionExactly(c: Conf, bound: nat)
    requires Usable(c)
    ensures Receives(c, bound) <==> !c.reqLink || bound <= Drain(c)
  {
    PlanOrderly(c);
    if c.reqLink {
      TailClock(c, ReceiveEnd(c));
      PlanSpots(c);
      var last, q := LastIn(c, ReceiveEnd(c)), ReceiveEnd(c) + 1;
      assert Spot(c, Plan(c)[q], q);
      assert IsLink(c, last);
      if Drain(c) < bound {
        assert Ends(Plan(c), bound, last, q);
        MissedExactly(Plan(c), bound, last);
      }
    }
    if !c.reqLink || bound <= Drain(c) {
      forall p | IsLink(c, p) ensures NeverMissed(Plan(c), bound, p) {
        NotEnded(c, bound, p);
        MissedExactly(Plan(c), bound, p);
      }
    }
  }

  /** What ends a plan is its last action. */
  lemma EndedOnlyAtTheEnd(c: Conf, bound: nat, p: nat, q: nat)
    requires -1 <= c.lid <= 255 && c.reqLink && Ends(Plan(c), bound, p, q)
    ensures q == ReceiveEnd(c) + 1
  {
    PlanSpots(c);
    assert Spot(c, Plan(c)[q], q);
  }

  lemma NotEnded(c: Conf, bound: nat, p: nat)
    requires -1 <= c.lid <= 255 && IsLink(c, p) && (c.reqLink ==> bound <= Drain(c))
    ensures !Ended(Plan(c), bound, p)
  {
    LinksNeedSelection(c, p);
    if Ended(Plan(c), bound, p) {
      var q: nat :| Ends(Plan(c), bound, p, q);
      EndedOnlyAtTheEnd(c, bound, p, q);
      TailClock(c, ReceiveEnd(c));
      ClockMonotone(Plan(c), p, LastIn(c, ReceiveEnd(c)));
    }
  }

  /** The five gaps waited before the teardown are computed in 32 bits, too: confirms within five gaps are all
      received exactly if that product does not wrap around, or there are no link requests. */
  lemma WithinFiveGaps(c: Conf)
    requires Usable(c)
    ensures Receives(c, 5 * c.gap) <==> !c.reqLink || 5 * c.gap < 0x1_0000_0000
  {
    ReceptionExactly(c, 5 * c.gap);
    FiveGapsWrap(c.gap);
  }

  lemma FiveGapsWrap(gap: uint32)
    ensures if 5 * gap < 0x1_0000_0000 then FiveGaps(gap) == 5 * gap else FiveGaps(gap) + gap < 5 * gap
  {
  }

  lemma SmallGaps(c: Conf)
    requires 5 * c.gap < 0x1_0000_0000
    ensures 2 * c.gap <= Guard(c) && 5 * c.gap <= Drain(c)
  {
  }

  /** The default gap and every other one below 2^32 / 5: confirms within two gaps are neither
      misread nor missed, and ones within five gaps are not missed. */
  lemma SmallGapsWork(c: Conf)
    requires Usable(c) && 5 * c.gap < 0x1_0000_0000
    ensures Attributes(c, 2 * c.gap) && Receives(c, 5 * c.gap)
  {
    SmallGaps(c);
    AttributionExactly(c, 2 * c.gap);
    ReceptionExactly(c, 5 * c.gap);
  }
}
