/** The Python wrapper's own calls of hpav-stats (bin/hpav_stats.py): which command lines it gives, what they
    make the program do and by when, and what `link_stats` returns for them. */
module WrapperRun {
  import opened CTypes
  import opened AddressText
  import opened Listings
  import opened StatsOptions
  import opened RequestPlan
  import opened StatsReceiver
  import opened SectionNumbers
  import opened StatsWrapper
  import opened LinkProtocol
  import opened LinkTiming
  import opened LinkConservation

  /** The options of `link_stats` and of `network_stats`. */
  function LinkOptions(nid: string, mac: string, name: string): seq<Opt> {
    [LinkStats, NetworkId(nid), DaSa(mac), Interface(name)]
  }

  function NetworkOptions(nid: string, name: string): seq<Opt> {
    [NwStats, NetworkId(nid), Interface(name)]
  }

  lemma InterfacesSnoc(opts: seq<Opt>, o: Opt)
    ensures Interfaces(opts + [o]) == Interfaces(opts) + if o.Interface? then 1 else 0
  {
    assert (opts + [o])[..|opts|] == opts;
  }

  lemma OneInterface(nid: string, mac: string, name: string)
    ensures Interfaces(LinkOptions(nid, mac, name)) == 1 && Interfaces(NetworkOptions(nid, name)) == 1
  {
    InterfacesSnoc([], LinkStats);
    InterfacesSnoc([LinkStats], NetworkId(nid));
    InterfacesSnoc([LinkStats, NetworkId(nid)], DaSa(mac));
    InterfacesSnoc([LinkStats, NetworkId(nid), DaSa(mac)], Interface(name));
    assert [] + [LinkStats] == [LinkStats] && [] + [NwStats] == [NwStats];
    assert [LinkStats] + [NetworkId(nid)] == [LinkStats, NetworkId(nid)];
    assert [LinkStats, NetworkId(nid)] + [DaSa(mac)] == [LinkStats, NetworkId(nid), DaSa(mac)];
    assert [LinkStats, NetworkId(nid), DaSa(mac)] + [Interface(name)] == LinkOptions(nid, mac, name);
    InterfacesSnoc([], NwStats);
    InterfacesSnoc([NwStats], NetworkId(nid));
    InterfacesSnoc([NwStats, NetworkId(nid)], Interface(name));
    assert [NwStats] + [NetworkId(nid)] == [NwStats, NetworkId(nid)];
    assert [NwStats, NetworkId(nid)] + [Interface(name)] == NetworkOptions(nid, name);
  }

  /** hpav-stats accepts what `link_stats` gives it exactly if the network id and the address have the form of
      one; and what `network_stats` gives it exactly if the network id has. */
  lemma OptionsAccepted(nid: string, mac: string, name: string)
    ensures Parsed(LinkOptions(nid, mac, name)).Some? <==> IsAddress(nid, 7) && IsAddress(mac, 6)
    ensures Parsed(NetworkOptions(nid, name)).Some? <==> IsAddress(nid, 7)
  {
    var links, network := LinkOptions(nid, mac, name), NetworkOptions(nid, name);
    ValidCommandLine(links);
    ValidCommandLine(network);
    OneInterface(nid, mac, name);
    assert links[1] in links && links[2] in links && network[0] in network && network[1] in network;
    assert IsAddress(nid, 7) && IsAddress(mac, 6) ==> forall o :: o in links ==> WellFormed(o);
    assert IsAddress(nid, 7) ==> forall o :: o in network ==> WellFormed(o);
  }

  lemma GapKept(c: Conf, o: Opt)
    requires Apply(c, o).Some? && !o.Gap?
    ensures Apply(c, o).value.gap == c.gap
  {
  }

  lemma {:induction false} DefaultGap(opts: seq<Opt>)
    requires Fold(DEFAULTS, opts).Some? && forall o :: o in opts ==> !o.Gap?
    ensures Fold(DEFAULTS, opts).value.gap == 200000
  {
    if opts != [] {
      var last := |opts| - 1;
      DefaultGap(opts[..last]);
      assert opts[last] in opts;
      GapKept(Fold(DEFAULTS, opts[..last]).value, opts[last]);
    }
  }

  /** What hpav-stats then does: both directions of the lids 0 to 4, with the default gap of 200 ms. */
  function LinkPlan(): seq<Action> {
    [Sleep(400000), Phase(Transmit)] + Sweep(Transmit, 5, 200000)
    + [Sleep(400000), Phase(Receive)] + Sweep(Receive, 5, 200000) + [Sleep(1000000), Teardown]
  }

  function NetworkPlan(): seq<Action> {
    [NwRequest, Sleep(1000000), Teardown]
  }

  lemma LinkConfiguration(nid: string, mac: string, name: string)
    requires Parsed(LinkOptions(nid, mac, name)).Some?
    ensures Asks(Parsed(LinkOptions(nid, mac, name)).value)
  {
    var opts := LinkOptions(nid, mac, name);
    SelectedByCommandLine(opts);
    assert LinkStats in opts && NwStats !in opts && Rx !in opts && Tx !in opts && AllLids !in opts;
    DefaultGap(opts);
  }

  predicate Asks(c: Conf) {
    Usable(c) && !c.reqNw && c.reqLink && c.reqTx && c.reqRx && c.lid == -1 && !c.allLids && c.gap == 200000
  }

  lemma PlanOf(c: Conf)
    requires Asks(c)
    ensures Plan(c) == LinkPlan()
  {
    assert NwPart(c) == [];
  }

  /** Its guard time is 600 ms and its drain time 1.2 s. */
  lemma TimesOf(c: Conf)
    requires Asks(c)
    ensures Guard(c) == 600000 && Drain(c) == 1200000
  {
  }

  lemma NetworkConfiguration(nid: string, name: string)
    requires Parsed(NetworkOptions(nid, name)).Some?
    ensures var c := Parsed(NetworkOptions(nid, name)).value; -1 <= c.lid <= 255 && Plan(c) == NetworkPlan()
  {
    var opts := NetworkOptions(nid, name);
    SelectedByCommandLine(opts);
    assert NwStats in opts && LinkStats !in opts;
    DefaultGap(opts);
  }

  /** Where the request of a lid stands in the plan. */
  function At(dir: Dir, lid: nat): nat {
    2 * lid + if dir == Transmit then 2 else 14
  }

  lemma RequestAt(c: Conf, dir: Dir, lid: byte)
    requires Asks(c) && lid <= 4
    ensures IsLink(c, At(dir, lid)) && Plan(c)[At(dir, lid)] == LinkRequest(dir, lid, lid)
  {
    PartsAt(NwPart(c), TransmitPart(c), ReceivePart(c), Ending(c), At(dir, lid));
    SweepSpot(dir, 5, c.gap, 2 * lid);
  }

  lemma RequestsAre(c: Conf, p: nat)
    requires Asks(c) && IsLink(c, p)
    ensures Plan(c)[p].reqId <= 4
  {
    LinkPosition(c, p);
    LinksNeedSelection(c, p);
    PlanSpots(c);
    assert Spot(c, Plan(c)[p], p);
  }

  lemma {:induction false} NotRecorded(xs: seq<Section>, dir: Dir, lid: byte)
    requires forall k :: 0 <= k < |xs| ==> xs[k].LinkSection? ==> xs[k].reqId != lid
    ensures Recorded(xs, dir, lid) == 0
  {
    if xs != [] {
      NotRecorded(xs[..|xs| - 1], dir, lid);
    }
  }

  lemma OnlyAsked(c: Conf, bound: nat, phase: Dir, labels: seq<Label>, s: State, dir: Dir, lid: byte)
    requires Asks(c) && 4 < lid && Exec(Plan(c), bound, phase, labels) == Some(s)
    ensures Recorded(s.out.sections, dir, lid) == 0
  {
    PlanOrderly(c);
    InvariantOverRuns(Plan(c), bound, phase, labels);
    forall k | 0 <= k < |s.out.sections| && s.out.sections[k].LinkSection? ensures s.out.sections[k].reqId != lid {
      assert Explained(Plan(c), bound, s.out.sections[k], s.causes[k]);
      RequestsAre(c, s.causes[k].value);
    }
    NotRecorded(s.out.sections, dir, lid);
  }

  /** Each list names each of the lids 0 to 4 as often as confirms of that request arrived, and no other. */
  ghost predicate AsConfirmed(labels: seq<Label>, r: Links)
    requires r.Links?
  {
    forall dir, lid: byte ::
      Naming(ListOf(r, dir), lid) == if lid <= 4 then Deliveries(labels, At(dir, lid)) else 0
  }

  lemma NamedAsConfirmed(c: Conf, bound: nat, phase: Dir, labels: seq<Label>, s: State, order: seq<string>, r: Links,
                         dir: Dir, lid: byte)
    requires Asks(c) && lid <= 4 && bound <= 600000 && Exec(Plan(c), bound, phase, labels) == Some(s)
    requires FewEnough(s.out.sections)
    requires Iterates(order, Load(s.out.sections)) && Partitioned(Load(s.out.sections), order, r) && r.Links?
    ensures Naming(ListOf(r, dir), lid) == Deliveries(labels, At(dir, lid))
  {
    TimesOf(c);
    RequestAt(c, dir, lid);
    OneEntryPerConfirm(c, bound, phase, labels, s, order, r, At(dir, lid));
  }

  lemma NoneNamed(c: Conf, bound: nat, phase: Dir, labels: seq<Label>, s: State, order: seq<string>, r: Links,
                  dir: Dir, lid: byte)
    requires Asks(c) && 4 < lid && Exec(Plan(c), bound, phase, labels) == Some(s)
    requires FewEnough(s.out.sections)
    requires Iterates(order, Load(s.out.sections)) && Partitioned(Load(s.out.sections), order, r) && r.Links?
    ensures Naming(ListOf(r, dir), lid) == 0
  {
    RunTidy(Plan(c), bound, phase, labels);
    LinkSectionsConserved(s.out.sections, order, r);
    OnlyAsked(c, bound, phase, labels, s, dir, lid);
  }

  /** `link_stats`, from its arguments to what it returns, over every run in which confirms come within 600
      ms: it raises an error exactly if nothing or a network section was printed; otherwise it returns one
      entry per section, and for each direction and each of the lids 0 to 4 one entry per confirm. */
  lemma LinkStatsReturns(nid: string, mac: string, name: string, bound: nat, phase: Dir, labels: seq<Label>,
                         s: State, order: seq<string>, r: Links)
    requires Parsed(LinkOptions(nid, mac, name)).Some? && bound <= 600000
    requires Exec(LinkPlan(), bound, phase, labels) == Some(s) && FewEnough(s.out.sections)
    requires Iterates(order, Load(s.out.sections)) && Partitioned(Load(s.out.sections), order, r)
    ensures Asks(Parsed(LinkOptions(nid, mac, name)).value)
    ensures Plan(Parsed(LinkOptions(nid, mac, name)).value) == LinkPlan()
    ensures r.NoData? <==> s.out.sections == []
    ensures r.BadSection? <==> exists x :: x in s.out.sections && x.NwSection?
    ensures r.Links? ==> |r.rx| + |r.tx| == |s.out.sections| && AsConfirmed(labels, r)
  {
    LinkConfiguration(nid, mac, name);
    var c := Parsed(LinkOptions(nid, mac, name)).value;
    PlanOf(c);
    TimesOf(c);
    EndToEnd(c, bound, phase, labels, s, order, r);
    if r.Links? {
      forall dir, lid: byte
        ensures Naming(ListOf(r, dir), lid) == if lid <= 4 then Deliveries(labels, At(dir, lid)) else 0
      {
        if lid <= 4 {
          NamedAsConfirmed(c, bound, phase, labels, s, order, r, dir, lid);
        } else {
          NoneNamed(c, bound, phase, labels, s, order, r, dir, lid);
        }
      }
    }
  }

  /** 600 ms is the limit: with any later confirm some run has it returned under the wrong direction. */
  lemma SixHundredExactly(c: Conf, bound: nat)
    requires Asks(c)
    ensures Attributes(c, bound) <==> bound <= 600000
  {
    TimesOf(c);
    AttributionExactly(c, bound);
  }

  lemma OnlyNetworkSections(c: Conf, bound: nat, phase: Dir, labels: seq<Label>, s: State)
    requires -1 <= c.lid <= 255 && Plan(c) == NetworkPlan() && Exec(Plan(c), bound, phase, labels) == Some(s)
    ensures forall x :: x in s.out.sections ==> x.NwSection?
  {
    PlanOrderly(c);
    InvariantOverRuns(Plan(c), bound, phase, labels);
    forall k | 0 <= k < |s.out.sections| ensures s.out.sections[k].NwSection? {
      assert Explained(Plan(c), bound, s.out.sections[k], s.causes[k]);
    }
  }

  /** `network_stats`, from its arguments to what it returns, over every run: it raises an error exactly if
      nothing was printed, and never over a section's name; otherwise each record received is in its
      sender's group as often as it was received. */
  lemma NetworkStatsReturns(nid: string, name: string, bound: nat, phase: Dir, labels: seq<Label>, s: State,
                            order: seq<string>, r: Groups)
    requires Parsed(NetworkOptions(nid, name)).Some?
    requires Exec(NetworkPlan(), bound, phase, labels) == Some(s) && FewEnough(s.out.sections)
    requires Iterates(order, Load(s.out.sections)) && Reported(Load(s.out.sections), order, r)
    ensures var c := Parsed(NetworkOptions(nid, name)).value; -1 <= c.lid <= 255 && Plan(c) == NetworkPlan()
    ensures (r.NoReports? <==> s.out.sections == []) && !r.BadReport?
    ensures r.Groups? ==> forall osa, record ::
              Times(GroupOf(r.byOsa, osa), Kept(record)) == Received(NetworkPlan(), bound, phase, labels, osa, record)
  {
    NetworkConfiguration(nid, name);
    OnlyNetworkSections(Parsed(NetworkOptions(nid, name)).value, bound, phase, labels, s);
    NetworkEndToEnd(NetworkPlan(), bound, phase, labels, s, order, r);
  }
}
