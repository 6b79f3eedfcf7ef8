/** The Python wrapper bin/hpav_stats.py on what hpav-stats prints. The output is read as a
    dictionary from section names to sections; Python 2 lists such a dictionary in any order, so
    every order is allowed for. */
module StatsWrapper {
  import opened CTypes
  import opened Listings
  import opened RequestPlan
  import opened StatsReceiver
  import opened SectionNumbers

  function Names(xs: seq<Section>): (s: seq<string>)
    ensures |s| == |xs| && forall i :: 0 <= i < |xs| ==> s[i] == NameOf(xs[i])
  {
    seq(|xs|, i requires 0 <= i < |xs| => NameOf(xs[i]))
  }

  /** yaml.load of the printed sections; of empty output it makes `None`. */
  function Load(xs: seq<Section>): Option<map<string, Section>> {
    if xs == [] then None else Some(Dict(Names(xs), xs))
  }

  /** The order of one iteration over what was loaded, if that is a dictionary. */
  ghost predicate Iterates(order: seq<string>, yml: Option<map<string, Section>>) {
    yml.Some? ==> Lists(order, yml.value)
  }

  predicate StandsAt(s: string, sub: string, i: nat) {
    i + |sub| <= |s| && s[i..i + |sub|] == sub
  }

  /** `sub in s`. */
  predicate Contains(s: string, sub: string) {
    exists i :: 0 <= i <= |s| && StandsAt(s, sub, i)
  }

  // what the wrapper looks for in a name
  const TX_MARK := "transmit_link_stats_"
  const RX_MARK := "receive_link_stats_"
  const REPORT_MARK := "network_stats_"

  predicate IsTx(name: string) {
    Contains(name, TX_MARK)
  }

  predicate IsRx(name: string) {
    !IsTx(name) && Contains(name, RX_MARK)
  }

  predicate IsReport(name: string) {
    Contains(name, REPORT_MARK)
  }

  // ----- link_stats: partition -----

  datatype Links = Links(rx: seq<Section>, tx: seq<Section>) | NoData | BadSection(name: string)

  ghost predicate AllLinks(order: seq<string>) {
    forall n :: n in order ==> IsTx(n) || IsRx(n)
  }

  /** The first name in the listing that is of neither kind. */
  ghost predicate FirstBadSection(order: seq<string>, name: string) {
    !IsTx(name) && !IsRx(name) && exists i :: 0 <= i < |order| && order[i] == name && AllLinks(order[..i])
  }

  /** The lists by direction, in the order listed; an error if nothing was loaded, or at the first name
      of neither kind. */
  ghost predicate Partitioned(yml: Option<map<string, Section>>, order: seq<string>, r: Links)
    requires Iterates(order, yml)
  {
    match yml
    case None => r == NoData
    case Some(m) =>
      if AllLinks(order) then r == Links(Pick(IsRx, order, m), Pick(IsTx, order, m))
      else r.BadSection? && FirstBadSection(order, r.name)
  }

  method LinkStats(yml: Option<map<string, Section>>, order: seq<string>) returns (r: Links)
    requires Iterates(order, yml)
    ensures Partitioned(yml, order, r)
  {
    if yml.None? {
      return NoData;
    }
    var rx, tx := [], [];
    for i := 0 to |order|
      invariant AllLinks(order[..i])
      invariant rx == Pick(IsRx, order[..i], yml.value) && tx == Pick(IsTx, order[..i], yml.value)
    {
      assert order[..i + 1][..i] == order[..i] && order[i] in order;
      if IsTx(order[i]) {
        tx := tx + [yml.value[order[i]]];
      } else if Contains(order[i], RX_MARK) {
        rx := rx + [yml.value[order[i]]];
      } else {
        return BadSection(order[i]);
      }
    }
    assert order[..|order|] == order;
    return Links(rx, tx);
  }

  // ----- names tell kinds -----

  lemma ContainsPrefix(k: Kind, n: nat)
    ensures Contains(Name(k, n), Prefix(k))
  {
    assert StandsAt(Name(k, n), Prefix(k), 0);
  }

  lemma ContainsHas(s: string, sub: string, c: char)
    requires Contains(s, sub) && c in sub
    ensures c in s
  {
    var i :| 0 <= i <= |s| && StandsAt(s, sub, i);
    var j :| 0 <= j < |sub| && sub[j] == c;
    assert s[i..i + |sub|][j] == s[i + j];
  }

  lemma NotContained(k: Kind, n: nat, k': Kind, c: char)
    requires c in Prefix(k') && c !in Prefix(k) && !('0' <= c <= '9')
    ensures !Contains(Name(k, n), Prefix(k'))
  {
    assert c !in Name(k, n);
    if Contains(Name(k, n), Prefix(k')) {
      ContainsHas(Name(k, n), Prefix(k'), c);
      assert false;
    }
  }

  lemma NetworkLetters()
    ensures 'w' in Prefix(Network) && 'l' !in Prefix(Network)
  {
    assert Prefix(Network)[3] == 'w';
  }

  lemma ReceiveLetters()
    ensures 'l' in Prefix(Link(Receive)) && 'm' !in Prefix(Link(Receive)) && 'w' !in Prefix(Link(Receive))
  {
    assert Prefix(Link(Receive))[8] == 'l';
  }

  lemma TransmitLetters()
    ensures 'l' in Prefix(Link(Transmit)) && 'm' in Prefix(Link(Transmit)) && 'w' !in Prefix(Link(Transmit))
  {
    assert Prefix(Link(Transmit))[9] == 'l' && Prefix(Link(Transmit))[5] == 'm';
  }

  /** The substring tests classify the names hpav-stats prints: a transmit name holds an `m`, which
      no receive name does, a link name an `l`, which no network name does, and so on. */
  lemma SubstringTellsKind(k: Kind, n: nat)
    ensures IsTx(Name(k, n)) <==> k == Link(Transmit)
    ensures IsRx(Name(k, n)) <==> k == Link(Receive)
    ensures IsReport(Name(k, n)) <==> k == Network
  {
    ContainsPrefix(k, n);
    NetworkLetters();
    ReceiveLetters();
    TransmitLetters();
    match k {
      case Network =>
        NotContained(k, n, Link(Transmit), 'l');
        NotContained(k, n, Link(Receive), 'l');
      case Link(Receive) =>
        NotContained(k, n, Link(Transmit), 'm');
        NotContained(k, n, Network, 'w');
      case Link(Transmit) =>
        NotContained(k, n, Network, 'w');
    }
  }

  // ----- conservation -----

  /** `p` tells the names of kind `k` among those of the sections. */
  ghost predicate Tells(p: string -> bool, k: Kind, xs: seq<Section>) {
    forall i :: 0 <= i < |xs| ==> (p(Names(xs)[i]) <==> KindOf(xs[i]) == k)
  }

  lemma TellsFront(p: string -> bool, k: Kind, xs: seq<Section>)
    requires xs != [] && Tells(p, k, xs)
    ensures Names(xs)[..|xs| - 1] == Names(xs[..|xs| - 1]) && Tells(p, k, xs[..|xs| - 1])
  {
    var front := xs[..|xs| - 1];
    assert Names(xs)[..|xs| - 1] == Names(front);
    forall i | 0 <= i < |front| ensures p(Names(front)[i]) <==> KindOf(front[i]) == k {
      assert Names(front)[i] == Names(xs)[i];
    }
  }

  lemma {:induction false} CountIsFilter(p: string -> bool, k: Kind, xs: seq<Section>)
    requires Tells(p, k, xs)
    ensures |Filter(p, Names(xs))| == Count(k, xs)
  {
    if xs != [] {
      TellsFront(p, k, xs);
      CountIsFilter(p, k, xs[..|xs| - 1]);
    }
  }

  /** The entries are the sections of one kind, each once. */
  ghost predicate HasAll(k: Kind, xs: seq<Section>, entries: seq<Section>) {
    && |entries| == Count(k, xs)
    && (forall x :: x in entries <==> x in xs && KindOf(x) == k)
  }

  lemma PickHasAll(p: string -> bool, k: Kind, xs: seq<Section>, order: seq<string>)
    requires NoRepeats(Names(xs)) && Lists(order, Dict(Names(xs), xs)) && Tells(p, k, xs)
    ensures HasAll(k, xs, Pick(p, order, Dict(Names(xs), xs)))
  {
    var m := Dict(Names(xs), xs);
    PickCount(p, Names(xs), xs, order);
    CountIsFilter(p, k, xs);
    forall x ensures x in Pick(p, order, m) <==> x in xs && KindOf(x) == k {
      PickExactly(p, Names(xs), xs, order, x);
      if x in xs && KindOf(x) == k {
        var i :| 0 <= i < |xs| && xs[i] == x;
        assert p(Names(xs)[i]);
      }
    }
  }

  function HasReqId(reqId: byte): Section -> bool {
    (x: Section) => x.LinkSection? && x.reqId == reqId
  }

  /** How many entries name this link. */
  function Naming(entries: seq<Section>, reqId: byte): nat {
    |Filter(HasReqId(reqId), entries)|
  }

  /** How many sections were printed for this direction and link. */
  function Recorded(xs: seq<Section>, dir: Dir, reqId: byte): nat {
    if xs == [] then 0
    else
      var x := xs[|xs| - 1];
      Recorded(xs[..|xs| - 1], dir, reqId) + if x.LinkSection? && x.dir == dir && x.reqId == reqId then 1 else 0
  }

  /** The list of a direction. */
  function ListOf(r: Links, dir: Dir): seq<Section>
    requires r.Links?
  {
    if dir == Transmit then r.tx else r.rx
  }

  /** Both lists name every link as often as it was printed for their direction. */
  ghost predicate NamesAsPrinted(xs: seq<Section>, r: Links)
    requires r.Links?
  {
    forall dir, reqId :: Naming(ListOf(r, dir), reqId) == Recorded(xs, dir, reqId)
  }

  lemma {:induction false} RecordedIsPairs(p: string -> bool, dir: Dir, xs: seq<Section>, reqId: byte)
    requires Tells(p, Link(dir), xs)
    ensures CountPairs(p, HasReqId(reqId), Names(xs), xs) == Recorded(xs, dir, reqId)
  {
    if xs != [] {
      var last := |xs| - 1;
      TellsFront(p, Link(dir), xs);
      RecordedIsPairs(p, dir, xs[..last], reqId);
      assert p(Names(xs)[last]) <==> KindOf(xs[last]) == Link(dir);
    }
  }

  lemma NamesTell(xs: seq<Section>)
    ensures Tells(IsTx, Link(Transmit), xs) && Tells(IsRx, Link(Receive), xs) && Tells(IsReport, Network, xs)
  {
    forall i | 0 <= i < |xs|
      ensures IsTx(Names(xs)[i]) <==> KindOf(xs[i]) == Link(Transmit)
      ensures IsRx(Names(xs)[i]) <==> KindOf(xs[i]) == Link(Receive)
      ensures IsReport(Names(xs)[i]) <==> KindOf(xs[i]) == Network
    {
      SubstringTellsKind(KindOf(xs[i]), xs[i].number);
    }
  }

  lemma NamesDoNotRepeat(xs: seq<Section>)
    requires Numbered(xs) && FewEnough(xs)
    ensures NoRepeats(Names(xs))
  {
    forall i, j | 0 <= i < j < |xs| ensures Names(xs)[i] != Names(xs)[j] {
      NamesDiffer(xs, i, j);
    }
    IndicesNoRepeats(Names(xs));
  }

  lemma NameIsLink(x: Section)
    ensures IsTx(NameOf(x)) || IsRx(NameOf(x)) <==> x.LinkSection?
    ensures IsReport(NameOf(x)) <==> x.NwSection?
  {
    SubstringTellsKind(KindOf(x), x.number);
  }

  /** The names listed are those of the sections. */
  lemma ListedNames(xs: seq<Section>, order: seq<string>)
    requires xs != [] && Iterates(order, Load(xs))
    ensures forall n :: n in order ==> exists x :: x in xs && n == NameOf(x)
    ensures forall x :: x in xs ==> NameOf(x) in order
  {
    forall n | n in order ensures exists x :: x in xs && n == NameOf(x) {
      var i := DictKey(Names(xs), xs, n);
      assert xs[i] in xs && n == NameOf(xs[i]);
    }
    forall x | x in xs ensures NameOf(x) in order {
      var i :| 0 <= i < |xs| && xs[i] == x;
      KeyPresent(Names(xs), xs, i);
    }
  }

  lemma AllLinksExactly(xs: seq<Section>, order: seq<string>)
    requires xs != [] && Iterates(order, Load(xs))
    ensures AllLinks(order) <==> forall x :: x in xs ==> x.LinkSection?
    ensures AllReports(order) <==> forall x :: x in xs ==> x.NwSection?
  {
    ListedNames(xs, order);
    forall x | x in xs
      ensures IsTx(NameOf(x)) || IsRx(NameOf(x)) <==> x.LinkSection?
      ensures IsReport(NameOf(x)) <==> x.NwSection?
    {
      NameIsLink(x);
    }
  }

  /** `link_stats` raises an error exactly if nothing was printed or a network section is among the
      sections. */
  lemma RefusesExactly(xs: seq<Section>, order: seq<string>, r: Links)
    requires Iterates(order, Load(xs)) && Partitioned(Load(xs), order, r)
    ensures r.NoData? <==> xs == []
    ensures r.BadSection? <==> exists x :: x in xs && x.NwSection?
  {
    if xs != [] {
      AllLinksExactly(xs, order);
    }
  }

  /** Of the output of any run, as long as no counter wraps around, `link_stats` returns exactly the
      link sections, each once and in the list of its printed direction; so for each direction and
      link as many entries as sections were printed. */
  lemma LinkSectionsConserved(xs: seq<Section>, order: seq<string>, r: Links)
    requires Numbered(xs) && FewEnough(xs) && Iterates(order, Load(xs)) && Partitioned(Load(xs), order, r) && r.Links?
    ensures HasAll(Link(Receive), xs, r.rx) && HasAll(Link(Transmit), xs, r.tx)
    ensures NamesAsPrinted(xs, r)
  {
    NamesDoNotRepeat(xs);
    NamesTell(xs);
    PickHasAll(IsRx, Link(Receive), xs, order);
    PickHasAll(IsTx, Link(Transmit), xs, order);
    forall dir, reqId ensures Naming(ListOf(r, dir), reqId) == Recorded(xs, dir, reqId) {
      if dir == Transmit {
        PickCountPairs(IsTx, HasReqId(reqId), Names(xs), xs, order);
        RecordedIsPairs(IsTx, Transmit, xs, reqId);
      } else {
        PickCountPairs(IsRx, HasReqId(reqId), Names(xs), xs, order);
        RecordedIsPairs(IsRx, Receive, xs, reqId);
      }
    }
  }

  lemma {:induction false} KeyPresent<V>(keys: seq<string>, values: seq<V>, i: nat)
    requires |keys| == |values| && i < |keys|
    ensures keys[i] in Dict(keys, values)
    decreases |keys|
  {
    if i < |keys| - 1 {
      KeyPresent(keys[..|keys| - 1], values[..|keys| - 1], i);
    }
  }

  // ----- network_stats: grouping -----

  datatype Groups = Groups(byOsa: map<seq<byte>, seq<Section>>) | NoReports | BadReport(name: string)

  /** A report without its `osa`; its number is part of its name only. */
  function Strip(x: Section): Section {
    x.(osa := [], number := 0)
  }

  /** The reports of one sender, in input order. */
  function ReportsOf(osa: seq<byte>, order: seq<string>, yml: map<string, Section>): seq<Section>
    requires forall n :: n in order ==> n in yml
  {
    if order == [] then []
    else
      var n := order[|order| - 1];
      ReportsOf(osa, order[..|order| - 1], yml) + if yml[n].osa == osa then [Strip(yml[n])] else []
  }

  /** Each sender's group is its reports in order; senders without a report have no group. */
  ghost predicate Grouped(groups: map<seq<byte>, seq<Section>>, order: seq<string>, yml: map<string, Section>)
    requires forall n :: n in order ==> n in yml
  {
    forall osa ::
      if osa in groups then groups[osa] == ReportsOf(osa, order, yml) != [] else ReportsOf(osa, order, yml) == []
  }

  ghost predicate AllReports(order: seq<string>) {
    forall n :: n in order ==> IsReport(n)
  }

  ghost predicate FirstBadReport(order: seq<string>, name: string) {
    !IsReport(name) && exists i :: 0 <= i < |order| && order[i] == name && AllReports(order[..i])
  }

  /** The reports by sender; an error if nothing was loaded, or at the first name of another kind. */
  ghost predicate Reported(yml: Option<map<string, Section>>, order: seq<string>, r: Groups)
    requires Iterates(order, yml)
  {
    match yml
    case None => r == NoReports
    case Some(m) =>
      if AllReports(order) then r.Groups? && Grouped(r.byOsa, order, m)
      else r.BadReport? && FirstBadReport(order, r.name)
  }

  method NetworkStats(yml: Option<map<string, Section>>, order: seq<string>) returns (r: Groups)
    requires Iterates(order, yml)
    ensures Reported(yml, order, r)
  {
    if yml.None? {
      return NoReports;
    }
    var result: map<seq<byte>, seq<Section>> := map[];
    for i := 0 to |order|
      invariant AllReports(order[..i])
      invariant Grouped(result, order[..i], yml.value)
    {
      assert order[..i + 1][..i] == order[..i] && order[i] in order;
      if IsReport(order[i]) {
        var osa := yml.value[order[i]].osa;
        var report := Strip(yml.value[order[i]]);
        if osa !in result {
          result := result[osa := [report]];
        } else {
          result := result[osa := result[osa] + [report]];
        }
      } else {
        return BadReport(order[i]);
      }
    }
    assert order[..|order|] == order;
    return Groups(result);
  }

  /** No report is lost, and the order within a group is the input order: report `i` stands in its
      sender's group behind exactly the reports of that sender before it. */
  lemma {:induction false} ReportPosition(order: seq<string>, yml: map<string, Section>, i: nat)
    requires (forall n :: n in order ==> n in yml) && i < |order|
    ensures var osa := yml[order[i]].osa;
            && |ReportsOf(osa, order[..i], yml)| < |ReportsOf(osa, order, yml)|
            && ReportsOf(osa, order, yml)[|ReportsOf(osa, order[..i], yml)|] == Strip(yml[order[i]])
    decreases |order|
  {
    if i < |order| - 1 {
      assert order[..|order| - 1][..i] == order[..i];
      ReportPosition(order[..|order| - 1], yml, i);
    }
  }

  /** Nothing is added: each entry of a group is some report of that sender, at its position. */
  lemma {:induction false} ReportOrigin(osa: seq<byte>, order: seq<string>, yml: map<string, Section>, j: nat)
    returns (i: nat)
    requires (forall n :: n in order ==> n in yml) && j < |ReportsOf(osa, order, yml)|
    ensures i < |order| && yml[order[i]].osa == osa && |ReportsOf(osa, order[..i], yml)| == j
    ensures ReportsOf(osa, order, yml)[j] == Strip(yml[order[i]])
    decreases |order|
  {
    var last := |order| - 1;
    if j < |ReportsOf(osa, order[..last], yml)| {
      i := ReportOrigin(osa, order[..last], yml, j);
      assert order[..last][..i] == order[..i];
    } else {
      i := last;
    }
  }

  /** `network_stats` raises an error exactly if nothing was printed or a link section is among the
      sections. */
  lemma ReportsRefusedExactly(xs: seq<Section>, order: seq<string>, r: Groups)
    requires Iterates(order, Load(xs)) && Reported(Load(xs), order, r)
    ensures r.NoReports? <==> xs == []
    ensures r.BadReport? <==> exists x :: x in xs && x.LinkSection?
  {
    if xs != [] {
      AllLinksExactly(xs, order);
    }
  }

  predicate Any(name: string) {
    true
  }

  function IsFrom(osa: seq<byte>, v: Section): Section -> bool {
    (x: Section) => x.osa == osa && Strip(x) == v
  }

  /** How many sections print this report of this sender. */
  function ReportedBy(xs: seq<Section>, osa: seq<byte>, v: Section): nat {
    if xs == [] then 0 else ReportedBy(xs[..|xs| - 1], osa, v) + if IsFrom(osa, v)(xs[|xs| - 1]) then 1 else 0
  }

  lemma {:induction false} TimesInReports(osa: seq<byte>, v: Section, order: seq<string>, m: map<string, Section>)
    requires forall n :: n in order ==> n in m
    ensures Times(ReportsOf(osa, order, m), v) == |Filter(IsFrom(osa, v), Pick(Any, order, m))|
  {
    if order != [] {
      var front, x := order[..|order| - 1], m[order[|order| - 1]];
      TimesInReports(osa, v, front, m);
      FilterSnoc(IsFrom(osa, v), Pick(Any, front, m), x);
      TimesSnoc(ReportsOf(osa, front, m), Strip(x), v);
      assert ReportsOf(osa, front, m) + [] == ReportsOf(osa, front, m);
    }
  }

  lemma {:induction false} ReportedIsPairs(osa: seq<byte>, v: Section, xs: seq<Section>)
    ensures CountPairs(Any, IsFrom(osa, v), Names(xs), xs) == ReportedBy(xs, osa, v)
  {
    if xs != [] {
      ReportedIsPairs(osa, v, xs[..|xs| - 1]);
      assert Names(xs)[..|xs| - 1] == Names(xs[..|xs| - 1]);
    }
  }

  function GroupOf(groups: map<seq<byte>, seq<Section>>, osa: seq<byte>): seq<Section> {
    if osa in groups then groups[osa] else []
  }

  /** Of the output of any run, as long as no counter wraps around, `network_stats` returns each report
      as often as it was printed, in the group of its sender. */
  lemma ReportsConserved(xs: seq<Section>, order: seq<string>, r: Groups, osa: seq<byte>, v: Section)
    requires Numbered(xs) && FewEnough(xs) && Iterates(order, Load(xs)) && Reported(Load(xs), order, r) && r.Groups?
    ensures Times(GroupOf(r.byOsa, osa), v) == ReportedBy(xs, osa, v)
  {
    NamesDoNotRepeat(xs);
    var m := Dict(Names(xs), xs);
    TimesInReports(osa, v, order, m);
    PickCountPairs(Any, IsFrom(osa, v), Names(xs), xs, order);
    ReportedIsPairs(osa, v, xs);
  }
}
