/** Conservation over whole runs: every confirm is accounted for exactly once, and what the Python
    wrapper returns is exactly what was received, under the direction and link it was asked for. */
module LinkConservation {
  import opened CTypes
  import opened Codec
  import opened CodecTheorems
  import opened Listings
  import opened StatsOptions
  import opened RequestPlan
  import opened StatsReceiver
  import opened SectionNumbers
  import opened StatsWrapper
  import opened LinkProtocol
  import opened LinkTiming
  import Sender

  /** In every run, sections are numbered on and the counters keep step. */
  lemma {:induction false} RunTidy(plan: seq<Action>, bound: nat, phase: Dir, labels: seq<Label>)
    requires Exec(plan, bound, phase, labels).Some?
    ensures Tidy(Exec(plan, bound, phase, labels).value.out)
    decreases |labels|
  {
    if labels != [] {
      var last := |labels| - 1;
      RunTidy(plan, bound, phase, labels[..last]);
      var s := Exec(plan, bound, phase, labels[..last]).value;
      match labels[last] {
        case Act =>
        case Wait(_) =>
        case Deliver(_, data) => HandleTidy(s.phase, s.out, data);
        case Other(data) => HandleTidy(s.phase, s.out, data);
      }
    }
  }

  function Deliveries(labels: seq<Label>, p: nat): nat {
    if labels == [] then 0
    else
      var l := labels[|labels| - 1];
      Deliveries(labels[..|labels| - 1], p) + if l.Deliver? && l.pos == p then 1 else 0
  }

  lemma {:induction false} TimesBlank(s: seq<Option<nat>>, n: nat, p: nat)
    ensures Times(s + Blank(n), Some(p)) == Times(s, Some(p))
  {
    if n == 0 {
      assert s + Blank(0) == s;
    } else {
      TimesBlank(s, n - 1, p);
      assert s + Blank(n) == s + Blank(n - 1) + [None];
      TimesSnoc(s + Blank(n - 1), None, Some(p));
    }
  }

  /** Every confirm that arrives gets one entry in the log of causes, or in that of the missed ones. */
  lemma {:induction false} ConfirmsLogged(plan: seq<Action>, bound: nat, phase: Dir, labels: seq<Label>, p: nat)
    requires Exec(plan, bound, phase, labels).Some?
    ensures var s := Exec(plan, bound, phase, labels).value;
            Deliveries(labels, p) == Times(s.causes, Some(p)) + Times(s.missed, p)
    decreases |labels|
  {
    if labels != [] {
      var last := |labels| - 1;
      ConfirmsLogged(plan, bound, phase, labels[..last], p);
      var s := Exec(plan, bound, phase, labels[..last]).value;
      match labels[last] {
        case Act =>
        case Wait(_) =>
        case Deliver(pos, _) =>
          TimesSnoc(s.causes, Some(pos), Some(p));
          TimesSnoc(s.missed, pos, p);
        case Other(data) =>
          if s.open {
            OthersRecorded(s.phase, s.out, data);
            TimesBlank(s.causes, |Handle(s.phase, s.out, data).sections| - |s.out.sections|, p);
          }
      }
    }
  }

  // ----- what is printed -----

  /** A printed section shows the direction and link of request `p` exactly if it was caused by it. */
  ghost predicate CausedAlone(plan: seq<Action>, xs: seq<Section>, causes: seq<Option<nat>>, p: nat)
    requires p < |plan| && plan[p].LinkRequest?
  {
    && |xs| == |causes|
    && forall k :: 0 <= k < |xs| ==> (Right(plan, xs[k], p) <==> causes[k] == Some(p))
  }

  lemma {:induction false} RecordedByCause(plan: seq<Action>, xs: seq<Section>, causes: seq<Option<nat>>, p: nat)
    requires p < |plan| && plan[p].LinkRequest? && CausedAlone(plan, xs, causes, p)
    ensures Recorded(xs, plan[p].dir, plan[p].reqId) == Times(causes, Some(p))
  {
    if xs != [] {
      var last := |xs| - 1;
      RecordedByCause(plan, xs[..last], causes[..last], p);
      assert Right(plan, xs[last], p) <==> causes[last] == Some(p);
    }
  }

  /** The guard time is kept, or only one direction is asked about. */
  predicate InTime(c: Conf, bound: nat) {
    !(c.reqLink && c.reqTx && c.reqRx) || bound <= Guard(c)
  }

  lemma CausesAreAlone(c: Conf, bound: nat, phase: Dir, s: State, p: nat)
    requires -1 <= c.lid <= 255 && IsLink(c, p) && InTime(c, bound) && Inv(Plan(c), bound, phase, s)
    ensures CausedAlone(Plan(c), s.out.sections, s.causes, p)
  {
    var plan, xs := Plan(c), s.out.sections;
    forall k | 0 <= k < |xs| ensures Right(plan, xs[k], p) <==> s.causes[k] == Some(p) {
      assert Explained(plan, bound, xs[k], s.causes[k]);
      if s.causes[k].Some? {
        var q := s.causes[k].value;
        NotOvertaken(c, bound, q);
        LinkPosition(c, p);
        LinkPosition(c, q);
      }
    }
  }

  /** Conservation over what is printed: in every run in which confirms keep the guard time, as many
      sections show a request's direction and link as confirms of it arrived before the teardown. */
  lemma ConfirmsPrinted(c: Conf, bound: nat, phase: Dir, labels: seq<Label>, s: State, p: nat)
    requires -1 <= c.lid <= 255 && IsLink(c, p) && InTime(c, bound) && Exec(Plan(c), bound, phase, labels) == Some(s)
    ensures Recorded(s.out.sections, Plan(c)[p].dir, Plan(c)[p].reqId) == Deliveries(labels, p) - Times(s.missed, p)
  {
    PlanOrderly(c);
    InvariantOverRuns(Plan(c), bound, phase, labels);
    CausesAreAlone(c, bound, phase, s, p);
    RecordedByCause(Plan(c), s.out.sections, s.causes, p);
    ConfirmsLogged(Plan(c), bound, phase, labels, p);
  }

  /** And none is missed if the drain time is kept, too. */
  lemma NoneMissed(c: Conf, bound: nat, phase: Dir, labels: seq<Label>, s: State, p: nat)
    requires Usable(c) && IsLink(c, p) && bound <= Drain(c) && Exec(Plan(c), bound, phase, labels) == Some(s)
    ensures Times(s.missed, p) == 0
  {
    ReceptionExactly(c, bound);
    assert NeverMissed(Plan(c), bound, p);
    NotInTimes(s.missed, p);
  }

  lemma {:induction false} NotInTimes(s: seq<nat>, x: nat)
    requires x !in s
    ensures Times(s, x) == 0
  {
    if s != [] {
      NotInTimes(s[..|s| - 1], x);
    }
  }

  // ----- end to end -----

  /** The section is in the right list with the right link. */
  ghost predicate Attributed(plan: seq<Action>, x: Section, cause: Option<nat>, r: Links)
    requires r.Links?
  {
    && cause.Some? && cause.value < |plan| && plan[cause.value].LinkRequest?
    && Right(plan, x, cause.value)
    && (if plan[cause.value].dir == Transmit then x in r.tx && x !in r.rx else x in r.rx && x !in r.tx)
  }

  /** The lists hold one entry per section, in the list of the direction asked about; and for each
      request as many entries as confirms of it arrived before the teardown. */
  ghost predicate Delivered(c: Conf, labels: seq<Label>, s: State, r: Links)
    requires r.Links? && -1 <= c.lid <= 255
  {
    && |r.rx| + |r.tx| == |s.out.sections| == |s.causes|
    && (forall k :: 0 <= k < |s.causes| ==> Attributed(Plan(c), s.out.sections[k], s.causes[k], r))
    && (forall p: nat :: IsLink(c, p) ==> AsManyEntries(c, labels, s, r, p))
  }

  ghost predicate AsManyEntries(c: Conf, labels: seq<Label>, s: State, r: Links, p: nat)
    requires r.Links? && -1 <= c.lid <= 255 && IsLink(c, p)
  {
    Naming(ListOf(r, Plan(c)[p].dir), Plan(c)[p].reqId) == Deliveries(labels, p) - Times(s.missed, p)
  }

  lemma SectionsAttributed(c: Conf, bound: nat, phase: Dir, labels: seq<Label>, s: State, r: Links)
    requires -1 <= c.lid <= 255 && InTime(c, bound) && Exec(Plan(c), bound, phase, labels) == Some(s)
    requires (forall x :: x in s.out.sections ==> x.LinkSection?) && r.Links?
    requires HasAll(Link(Receive), s.out.sections, r.rx) && HasAll(Link(Transmit), s.out.sections, r.tx)
    ensures |s.causes| == |s.out.sections|
    ensures forall k :: 0 <= k < |s.causes| ==> Attributed(Plan(c), s.out.sections[k], s.causes[k], r)
  {
    PlanOrderly(c);
    InvariantOverRuns(Plan(c), bound, phase, labels);
    forall k | 0 <= k < |s.causes| ensures Attributed(Plan(c), s.out.sections[k], s.causes[k], r) {
      assert Explained(Plan(c), bound, s.out.sections[k], s.causes[k]) && s.out.sections[k] in s.out.sections;
      NotOvertaken(c, bound, s.causes[k].value);
    }
  }

  lemma EntriesCounted(c: Conf, bound: nat, phase: Dir, labels: seq<Label>, s: State, r: Links)
    requires -1 <= c.lid <= 255 && InTime(c, bound) && Exec(Plan(c), bound, phase, labels) == Some(s)
    requires r.Links? && NamesAsPrinted(s.out.sections, r)
    ensures forall p: nat :: IsLink(c, p) ==> AsManyEntries(c, labels, s, r, p)
  {
    forall p: nat | IsLink(c, p) ensures AsManyEntries(c, labels, s, r, p) {
      ConfirmsPrinted(c, bound, phase, labels, s, p);
    }
  }

  lemma EntriesDelivered(c: Conf, bound: nat, phase: Dir, labels: seq<Label>, s: State, r: Links)
    requires -1 <= c.lid <= 255 && InTime(c, bound) && Exec(Plan(c), bound, phase, labels) == Some(s)
    requires (forall x :: x in s.out.sections ==> x.LinkSection?) && r.Links? && NamesAsPrinted(s.out.sections, r)
    requires HasAll(Link(Receive), s.out.sections, r.rx) && HasAll(Link(Transmit), s.out.sections, r.tx)
    ensures Delivered(c, labels, s, r)
  {
    SectionsAttributed(c, bound, phase, labels, s, r);
    EntriesCounted(c, bound, phase, labels, s, r);
    CountsAddUp(s.out.sections);
  }

  /** End to end, for every configuration and every run in which confirms keep the guard time, whatever
      order the dictionary is listed in: `link_stats` raises an error exactly if nothing or a network
      section was printed; otherwise its two lists hold one entry per section, each in the list of
      the direction and naming the link that was asked about, and for each request as many entries as
      confirms of it were received. */
  lemma EndToEnd(c: Conf, bound: nat, phase: Dir, labels: seq<Label>, s: State, order: seq<string>, r: Links)
    requires -1 <= c.lid <= 255 && InTime(c, bound) && Exec(Plan(c), bound, phase, labels) == Some(s)
    requires FewEnough(s.out.sections)
    requires Iterates(order, Load(s.out.sections)) && Partitioned(Load(s.out.sections), order, r)
    ensures r.NoData? <==> s.out.sections == []
    ensures r.BadSection? <==> exists x :: x in s.out.sections && x.NwSection?
    ensures r.Links? ==> Delivered(c, labels, s, r)
  {
    RefusesExactly(s.out.sections, order, r);
    if r.Links? {
      RunTidy(Plan(c), bound, phase, labels);
      LinkSectionsConserved(s.out.sections, order, r);
      EntriesDelivered(c, bound, phase, labels, s, r);
    }
  }

  /** If confirms keep the drain time as well, there is one entry for each of them. */
  lemma OneEntryPerConfirm(c: Conf, bound: nat, phase: Dir, labels: seq<Label>, s: State, order: seq<string>, r: Links,
                           p: nat)
    requires Usable(c) && InTime(c, bound) && bound <= Drain(c) && Exec(Plan(c), bound, phase, labels) == Some(s)
    requires FewEnough(s.out.sections)
    requires Iterates(order, Load(s.out.sections)) && Partitioned(Load(s.out.sections), order, r)
    requires r.Links? && IsLink(c, p)
    ensures Naming(ListOf(r, Plan(c)[p].dir), Plan(c)[p].reqId) == Deliveries(labels, p)
  {
    EndToEnd(c, bound, phase, labels, s, order, r);
    NoneMissed(c, bound, phase, labels, s, p);
    assert AsManyEntries(c, labels, s, r, p);
  }

  lemma {:induction false} CountsAddUp(xs: seq<Section>)
    requires forall x :: x in xs ==> x.LinkSection?
    ensures Count(Link(Transmit), xs) + Count(Link(Receive), xs) == |xs|
  {
    if xs != [] {
      CountsAddUp(xs[..|xs| - 1]);
      var x := xs[|xs| - 1];
      assert x in xs && KindOf(x) == Link(x.dir) && (x.dir == Transmit || x.dir == Receive);
    }
  }

  // ----- network reports -----

  /** The network-stats records in a frame, if it confirms such a request. */
  function NwRecords(data: seq<byte>): seq<seq<byte>> {
    var f := Read(data);
    if Sender.MIN_MSG_SIZE <= |f| && HeaderOk(f) && MmType(f) == CM_NW_STATS + CONFIRM
    then ParseCounted(f, HEADER_SIZE, End(f), STATS_SIZE).records else []
  }

  function ReceivedIn(data: seq<byte>, osa: seq<byte>, record: seq<byte>): nat {
    if |Read(data)| < HEADER_SIZE || Osa(Read(data)) != osa then 0 else Times(NwRecords(data), record)
  }

  /** How often a run receives this network record from this sender. */
  function Received(plan: seq<Action>, bound: nat, phase: Dir, labels: seq<Label>, osa: seq<byte>,
                    record: seq<byte>): nat
    requires Exec(plan, bound, phase, labels).Some?
  {
    if labels == [] then 0
    else
      var last := |labels| - 1;
      var s, l := Exec(plan, bound, phase, labels[..last]).value, labels[last];
      Received(plan, bound, phase, labels[..last], osa, record)
      + if l.Other? && s.open then ReceivedIn(l.data, osa, record) else 0
  }

  lemma ReportedBySnoc(xs: seq<Section>, x: Section, osa: seq<byte>, v: Section)
    ensures ReportedBy(xs + [x], osa, v) == ReportedBy(xs, osa, v) + if IsFrom(osa, v)(x) then 1 else 0
  {
    assert (xs + [x])[..|xs|] == xs;
  }

  /** A report as the wrapper keeps it. */
  function Kept(record: seq<byte>): Section {
    NwSection(0, [], record)
  }

  lemma {:induction false} NwOutputReports(o: Output, from: seq<byte>, records: seq<seq<byte>>, osa: seq<byte>,
                                           record: seq<byte>)
    ensures ReportedBy(NwOutput(o, from, records).sections, osa, Kept(record))
         == ReportedBy(o.sections, osa, Kept(record)) + if from == osa then Times(records, record) else 0
    decreases |records|
  {
    if records == [] {
      assert NwOutput(o, from, records).sections == o.sections;
    } else {
      var front, r := records[..|records| - 1], records[|records| - 1];
      var p := NwOutput(o, from, front);
      NwOutputReports(o, from, front, osa, record);
      NwOutputSnoc(o, from, front, r);
      assert front + [r] == records;
      ReportedBySnoc(p.sections, NwSection(p.n.nw, from, r), osa, Kept(record));
      IsReportOf(p.n.nw, from, r, osa, record);
    }
  }

  lemma IsReportOf(number: size, from: seq<byte>, r: seq<byte>, osa: seq<byte>, record: seq<byte>)
    ensures IsFrom(osa, Kept(record))(NwSection(number, from, r)) <==> from == osa && r == record
  {
  }

  lemma OtherReports(phase: Dir, o: Output, data: seq<byte>, osa: seq<byte>, record: seq<byte>)
    requires !Confirms(Read(data))
    ensures ReportedBy(Handle(phase, o, data).sections, osa, Kept(record))
         == ReportedBy(o.sections, osa, Kept(record)) + ReceivedIn(data, osa, record)
  {
    OthersRecorded(phase, o, data);
    var f := Read(data);
    if Sender.MIN_MSG_SIZE <= |f| && HeaderOk(f) && MmType(f) == CM_NW_STATS + CONFIRM {
      NwOutputReports(o, Osa(f), NwRecords(data), osa, record);
    }
  }

  lemma DeliverReports(phase: Dir, o: Output, data: seq<byte>, osa: seq<byte>, record: seq<byte>)
    requires Confirms(Read(data))
    ensures ReportedBy(Handle(phase, o, data).sections, osa, Kept(record)) == ReportedBy(o.sections, osa, Kept(record))
  {
    ConfirmRecorded(phase, o, data);
    ReportedBySnoc(o.sections, Handle(phase, o, data).sections[|o.sections|], osa, Kept(record));
  }

  /** Every network record received is printed once, under its sender. */
  lemma {:induction false} ReportsPrinted(plan: seq<Action>, bound: nat, phase: Dir, labels: seq<Label>,
                                          osa: seq<byte>, record: seq<byte>)
    requires Exec(plan, bound, phase, labels).Some?
    ensures ReportedBy(Exec(plan, bound, phase, labels).value.out.sections, osa, Kept(record))
         == Received(plan, bound, phase, labels, osa, record)
    decreases |labels|
  {
    if labels != [] {
      var last := |labels| - 1;
      ReportsPrinted(plan, bound, phase, labels[..last], osa, record);
      var s := Exec(plan, bound, phase, labels[..last]).value;
      if s.open {
        match labels[last] {
          case Act =>
          case Wait(_) =>
          case Deliver(_, data) => DeliverReports(s.phase, s.out, data, osa, record);
          case Other(data) => OtherReports(s.phase, s.out, data, osa, record);
        }
      }
    }
  }

  /** End to end for network reports: `network_stats` raises an error exactly if nothing or a link
      section was printed; otherwise each record received is in its sender's group as often as it was
      received from this sender. */
  lemma NetworkEndToEnd(plan: seq<Action>, bound: nat, phase: Dir, labels: seq<Label>, s: State,
                        order: seq<string>, r: Groups)
    requires Exec(plan, bound, phase, labels) == Some(s) && FewEnough(s.out.sections)
    requires Iterates(order, Load(s.out.sections)) && Reported(Load(s.out.sections), order, r)
    ensures r.NoReports? <==> s.out.sections == []
    ensures r.BadReport? <==> exists x :: x in s.out.sections && x.LinkSection?
    ensures r.Groups? ==> forall osa, record ::
              Times(GroupOf(r.byOsa, osa), Kept(record)) == Received(plan, bound, phase, labels, osa, record)
  {
    ReportsRefusedExactly(s.out.sections, order, r);
    if r.Groups? {
      RunTidy(plan, bound, phase, labels);
      forall osa, record
        ensures Times(GroupOf(r.byOsa, osa), Kept(record)) == Received(plan, bound, phase, labels, osa, record)
      {
        ReportsConserved(s.out.sections, order, r, osa, Kept(record));
        ReportsPrinted(plan, bound, phase, labels, osa, record);
      }
    }
  }
}
