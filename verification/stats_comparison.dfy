/** From recorded confirms to the comparison of two stations: the entries of the wrapper's lists hold
    the counters the stations sent, and the comparison joins them by link. */
module StatsComparison {
  import opened CTypes
  import opened Codec
  import opened RequestPlan
  import opened StatsReceiver
  import opened SectionNumbers
  import opened StatsWrapper
  import opened StatsReport
  import opened LinkProtocol
  import LinkConservation
  import Records

  // ----- recorded counters -----

  /** A confirm whose field is a receive record is recorded, in the receive phase, with the record's
      counter under the request id. */
  lemma ReceiveRecorded(o: Output, data: seq<byte>, rec: Records.Receive)
    requires Confirms(Read(data)) && Read(data)[21..55] == Records.EncodeReceive(rec)
    ensures var xs := Handle(Receive, o, data).sections;
            |xs| == |o.sections| + 1 && Sized(xs[|o.sections|])
            && xs[|o.sections|].LinkSection? && xs[|o.sections|].dir == Receive
            && RxOf(xs[|o.sections|]) == RxEntry(Read(data)[19], rec.mpdus)
  {
    ConfirmRecorded(Receive, o, data);
    assert FieldSize(Receive) == 34;
    EntriesOfReceive(rec);
  }

  /** And a transmit record, in the transmit phase, with both its counters. */
  lemma TransmitRecorded(o: Output, data: seq<byte>, rec: Records.Transmit)
    requires Confirms(Read(data)) && Read(data)[21..60] == Records.EncodeTransmit(rec)
    ensures var xs := Handle(Transmit, o, data).sections;
            |xs| == |o.sections| + 1 && Sized(xs[|o.sections|])
            && xs[|o.sections|].LinkSection? && xs[|o.sections|].dir == Transmit
            && TxOf(xs[|o.sections|]) == TxEntry(Read(data)[19], rec.mpdus, rec.sacks)
  {
    ConfirmRecorded(Transmit, o, data);
    assert FieldSize(Transmit) == 39;
    EntriesOfTransmit(rec);
  }

  // ----- the lists of the wrapper -----

  /** A link section holds a whole field of its direction. */
  predicate Sized(x: Section) {
    x.LinkSection? ==> |x.field| == FieldSize(x.dir)
  }

  ghost predicate AllSized(xs: seq<Section>) {
    forall x :: x in xs ==> Sized(x)
  }

  lemma EmitSized(phase: Dir, o: Output, c: Call)
    requires Callable(c) && AllSized(o.sections)
    ensures AllSized(Emit(phase, o, c).sections)
  {
    var o' := Emit(phase, o, c);
    if o' != o {
      assert o'.sections == o.sections + [o'.sections[|o.sections|]];
      assert Sized(o'.sections[|o.sections|]);
    }
  }

  lemma {:induction false} EmitAllSized(phase: Dir, o: Output, calls: seq<Call>)
    requires AllCallable(calls) && AllSized(o.sections)
    ensures AllSized(EmitAll(phase, o, calls).sections)
    decreases |calls|
  {
    if calls != [] {
      EmitAllSized(phase, o, calls[..|calls| - 1]);
      EmitSized(phase, EmitAll(phase, o, calls[..|calls| - 1]), calls[|calls| - 1]);
    }
  }

  lemma HandleSized(phase: Dir, o: Output, data: seq<byte>)
    requires AllSized(o.sections)
    ensures AllSized(Handle(phase, o, data).sections)
  {
    CallsAreCallable(Read(data));
    EmitAllSized(phase, o, Outcome(SLOTS, Read(data)).calls);
  }

  lemma {:induction false} RunSized(plan: seq<Action>, bound: nat, phase: Dir, labels: seq<Label>)
    requires Exec(plan, bound, phase, labels).Some?
    ensures AllSized(Exec(plan, bound, phase, labels).value.out.sections)
    decreases |labels|
  {
    if labels != [] {
      var last := |labels| - 1;
      RunSized(plan, bound, phase, labels[..last]);
      var s := Exec(plan, bound, phase, labels[..last]).value;
      match labels[last] {
        case Act =>
        case Wait(_) =>
        case Deliver(_, data) => HandleSized(s.phase, s.out, data);
        case Other(data) => HandleSized(s.phase, s.out, data);
      }
    }
  }

  ghost predicate SizedList(dir: Dir, entries: seq<Section>) {
    forall i :: 0 <= i < |entries| ==> SizedEntry(dir, entries[i])
  }

  predicate SizedEntry(dir: Dir, x: Section) {
    x.LinkSection? && x.dir == dir && |x.field| == FieldSize(dir)
  }

  /** The lists returned after any run are such lists. */
  lemma ListsSized(plan: seq<Action>, bound: nat, phase: Dir, labels: seq<Label>, s: State, order: seq<string>,
                   r: Links)
    requires Exec(plan, bound, phase, labels) == Some(s) && FewEnough(s.out.sections)
    requires Iterates(order, Load(s.out.sections)) && Partitioned(Load(s.out.sections), order, r) && r.Links?
    ensures SizedList(Receive, r.rx) && SizedList(Transmit, r.tx)
  {
    LinkConservation.RunTidy(plan, bound, phase, labels);
    RunSized(plan, bound, phase, labels);
    LinkSectionsConserved(s.out.sections, order, r);
    forall i | 0 <= i < |r.rx| ensures SizedEntry(Receive, r.rx[i]) {
      assert r.rx[i] in r.rx && Sized(r.rx[i]);
    }
    forall i | 0 <= i < |r.tx| ensures SizedEntry(Transmit, r.tx[i]) {
      assert r.tx[i] in r.tx && Sized(r.tx[i]);
    }
  }

  function RxEntries(rx: seq<Section>): (s: seq<RxEntry>)
    requires SizedList(Receive, rx)
    ensures |s| == |rx| && forall i :: 0 <= i < |rx| ==> SizedEntry(Receive, rx[i]) && s[i] == RxOf(rx[i])
  {
    seq(|rx|, i requires 0 <= i < |rx| => assert SizedEntry(Receive, rx[i]); RxOf(rx[i]))
  }

  function TxEntries(tx: seq<Section>): (s: seq<TxEntry>)
    requires SizedList(Transmit, tx)
    ensures |s| == |tx| && forall i :: 0 <= i < |tx| ==> SizedEntry(Transmit, tx[i]) && s[i] == TxOf(tx[i])
  {
    seq(|tx|, i requires 0 <= i < |tx| => assert SizedEntry(Transmit, tx[i]); TxOf(tx[i]))
  }

  // ----- the comparison -----

  predicate NamesLink(x: Section, reqId: byte) {
    x.LinkSection? && x.reqId == reqId
  }

  /** The line compares the MPDUs that `x` counts as received with those that `y` counts as sent. */
  predicate Compares(line: Line, x: Section, y: Section) {
    && SizedEntry(Receive, x) && SizedEntry(Transmit, y)
    && line.RxLine? && RxOf(x) == RxEntry(line.lid, line.received) && TxOf(y).mpdus == line.sent
    && Deviation(line.delta, line.percent, line.received, line.sent)
  }

  /** The line compares the SACKs that `y` counts with the MPDUs it counts as sent. */
  predicate Reports(line: Line, y: Section) {
    && SizedEntry(Transmit, y)
    && line.TxLine? && TxOf(y) == TxEntry(line.lid, line.sent, line.acked)
    && Deviation(line.delta, line.percent, line.acked, line.sent)
  }

  /** Entry `j` is the last one of the link of `x`, and the line compares with it. */
  predicate ComparesWithLast(line: Line, x: Section, tx: seq<Section>, j: nat)
    requires j < |tx| && x.LinkSection?
  {
    NamesLink(tx[j], x.reqId) && Compares(line, x, tx[j]) && forall k :: j < k < |tx| ==> !NamesLink(tx[k], x.reqId)
  }

  lemma EntryNames(tx: seq<Section>, reqId: byte)
    requires SizedList(Transmit, tx)
    ensures forall j :: 0 <= j < |tx| ==> (TxEntries(tx)[j].lid == reqId <==> NamesLink(tx[j], reqId))
    ensures (forall e :: e in TxEntries(tx) ==> e.lid != reqId)
       <==> (forall j :: 0 <= j < |tx| ==> !NamesLink(tx[j], reqId))
  {
    var s := TxEntries(tx);
    forall j | 0 <= j < |tx| ensures s[j].lid == reqId <==> NamesLink(tx[j], reqId) {
      assert SizedEntry(Transmit, tx[j]);
    }
    assert forall j :: 0 <= j < |tx| ==> s[j] in s;
  }

  /** `print_link_stats` on the lists of two stations, as far as it gets: the line of a receive entry says
      "missing" exactly if the other station has no transmit entry of this link, and otherwise compares the
      recorded counters with those of the last such entry. */
  lemma StationsCompared(a: Links, b: Links, report: Report, i: nat)
    requires a.Links? && b.Links? && SizedList(Receive, a.rx) && SizedList(Transmit, a.tx) && SizedList(Transmit, b.tx)
    requires Prints(report, AllLines(RxEntries(a.rx), TxEntries(a.tx), TxEntries(b.tx)))
    requires i < |a.rx| && i < |report.lines|
    ensures !report.raised ==> |report.lines| == |a.rx| + |a.tx|
    ensures SizedEntry(Receive, a.rx[i])
    ensures report.lines[i] == Missing(a.rx[i].reqId)
       <==> forall j :: 0 <= j < |b.tx| ==> !NamesLink(b.tx[j], a.rx[i].reqId)
    ensures report.lines[i] != Missing(a.rx[i].reqId) ==>
              exists j :: 0 <= j < |b.tx| && ComparesWithLast(report.lines[i], a.rx[i], b.tx, j)
  {
    var rx, tx := RxEntries(a.rx), TxEntries(b.tx);
    assert SizedEntry(Receive, a.rx[i]) && rx[i] == RxOf(a.rx[i]);
    RxLineExactly(report, rx, TxEntries(a.tx), tx, i);
    EntryNames(b.tx, a.rx[i].reqId);
    if report.lines[i] != Missing(a.rx[i].reqId) {
      var j :| 0 <= j < |tx| && Joined(report.lines[i], rx[i], tx, j);
      assert SizedEntry(Transmit, b.tx[j]) && tx[j] == TxOf(b.tx[j]);
      assert ComparesWithLast(report.lines[i], a.rx[i], b.tx, j);
    }
  }

  lemma EntryReported(line: Line, y: Section)
    requires SizedEntry(Transmit, y) && Acknowledges(line, TxOf(y))
    ensures Reports(line, y)
  {
  }

  /** And every line behind those reports the counters recorded in a transmit entry of the station itself,
      whatever its receive entries `rx` and the other station's transmit entries `txB` are. */
  lemma StationReported(report: Report, rx: seq<RxEntry>, tx: seq<Section>, txB: seq<TxEntry>, i: nat)
    requires SizedList(Transmit, tx) && Prints(report, AllLines(rx, TxEntries(tx), txB))
    requires |rx| + i < |report.lines|
    ensures i < |tx| && Reports(report.lines[|rx| + i], tx[i])
  {
    TxLineExactly(report, rx, TxEntries(tx), txB, i);
    EntryReported(report.lines[|rx| + i], tx[i]);
  }
}
