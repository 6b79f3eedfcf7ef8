/** From a station's confirm to what hpav-stats prints: frames up to the buffer's 1500 bytes are handled whole,
    so every list of network records and every link-stats field the sender can frame is printed. */
module ConfirmPrinting {
  import opened CTypes
  import opened Codec
  import opened CodecTheorems
  import opened Listings
  import opened Records
  import opened RequestPlan
  import opened RoundTrip
  import opened StatsOptions
  import opened StatsReceiver
  import LinkConservation
  import PlanTheorems
  import Sender

  // ----- what is read -----

  /** Data that fits the buffer is handled as it is, if it has the 60 bytes of the smallest frame, and of
      longer data exactly the first 1500 bytes are. */
  lemma HandledWhole(phase: Dir, o: Output, data: seq<byte>)
    ensures |data| < 60 ==> Handle(phase, o, data) == o
    ensures 60 <= |data| <= 1500 ==>
              && AllCallable(Outcome(SLOTS, data).calls)
              && Handle(phase, o, data) == EmitAll(phase, o, Outcome(SLOTS, data).calls)
    ensures 1500 < |data| ==> Handle(phase, o, data) == Handle(phase, o, data[..1500])
  {
    if |data| <= 1500 {
      assert data[..|data|] == data;
      CallsAreCallable(data);
    } else {
      assert data[..1500][..1500] == data[..1500];
    }
  }

  // ----- network records -----

  /** Sections `from` on print these records of this sender, numbered on from `n`. */
  ghost predicate PrintsRecords(xs: seq<Section>, from: nat, osa: seq<byte>, records: seq<seq<byte>>, n: size) {
    && |xs| == from + |records|
    && forall i :: 0 <= i < |records| ==> xs[from + i] == NwSection((n + i) % 0x1_0000_0000_0000_0000, osa, records[i])
  }

  lemma CallsPrinted(phase: Dir, o: Output, osa: seq<byte>, records: seq<seq<byte>>)
    ensures AllCallable(RecordCalls(NwStatsSlot, SLOTS.nwStats, osa, records))
    ensures var o' := EmitAll(phase, o, RecordCalls(NwStatsSlot, SLOTS.nwStats, osa, records));
            o.sections <= o'.sections && PrintsRecords(o'.sections, |o.sections|, osa, records, o.n.nw)
  {
    EmitNw(phase, o, osa, records);
  }

  /** For every list of network records that a confirm within the sender's limit can carry, the confirm adds
      exactly one section per record, in order, with the record's bytes under the sender's address. */
  lemma NetworkConfirmPrinted(phase: Dir, o: Output, oda: Mac, osa: Mac, mmv: byte, stats: seq<Stats>)
    requires 1 + 8 * |stats| <= 1481
    ensures |stats| < 0x100
    ensures var o' := Handle(phase, o, ConfirmFrame(oda, osa, mmv, CM_NW_STATS, Counted(StatsBytes(stats))));
            o.sections <= o'.sections && PrintsRecords(o'.sections, |o.sections|, osa, StatsBytes(stats), o.n.nw)
  {
    StatsFit(stats);
    NwStatsRoundTripFrame(SLOTS, oda, osa, mmv, stats);
    var payload := Counted(StatsBytes(stats));
    var f := ConfirmFrame(oda, osa, mmv, CM_NW_STATS, payload);
    Sender.FrameSize(oda, osa, mmv, CM_NW_STATS, Sender.Confirm, payload);
    HandledWhole(phase, o, f);
    CallsPrinted(phase, o, osa, StatsBytes(stats));
  }

  lemma StatsFit(stats: seq<Stats>)
    ensures |Flat(StatsBytes(stats))| == 8 * |stats|
  {
    FlatSize(StatsBytes(stats), STATS_SIZE);
    BytesIsProduct(STATS_SIZE, |stats|);
  }

  // ----- link-stats fields -----

  /** What of a field is printed: the first 39 or 34 bytes, filled with zeros. */
  function Shown(dir: Dir, field: seq<byte>): (s: seq<byte>)
    ensures |s| == if dir == Dir.Transmit then 39 else 34
    ensures forall i :: 0 <= i < |s| ==> s[i] == if i < |field| then field[i] else 0
  {
    var size := if dir == Dir.Transmit then 39 else 34;
    if size <= |field| then field[..size] else field + Zeros(size - |field|)
  }

  /** For every field that a confirm within the sender's limit can carry: a successful confirm adds exactly one
      section, of the phase's direction, with the sender's address, the request id and the field; any other
      adds nothing. */
  lemma LinkConfirmPrinted(phase: Dir, o: Output, oda: Mac, osa: Mac, mmv: byte, head: ConfirmHead, field: seq<byte>)
    requires 2 + |field| <= 1481
    ensures var o' := Handle(phase, o, ConfirmFrame(oda, osa, mmv, CM_LINK_STATS, EncodeHead(head) + field));
            if head.rspType != 0 then o' == o
            else o'.sections == o.sections
                   + [LinkSection(phase, Number(o.n, phase), osa, head.reqId, Shown(phase, field))]
  {
    var payload := EncodeHead(head) + field;
    var f := ConfirmFrame(oda, osa, mmv, CM_LINK_STATS, payload);
    LinkStatsRoundTripFrame(SLOTS, oda, osa, mmv, head, field);
    Sender.FrameSize(oda, osa, mmv, CM_LINK_STATS, Sender.Confirm, payload);
    HandledWhole(phase, o, f);
    EmitOne(phase, o, Outcome(SLOTS, f).calls);
    FieldShown(phase, field);
  }

  lemma FieldShown(phase: Dir, field: seq<byte>)
    ensures var tail := field + Zeros(Max(|field|, TRANSMIT_SIZE) - |field|);
            FieldSize(phase) <= |tail| && tail[..FieldSize(phase)] == Shown(phase, field)
  {
  }

  // ----- what is counted as received -----

  /** The network records in data that fits the buffer, read off its bytes: the eight-byte slices behind the
      count that fit, if the frame is a network-stats confirm. */
  lemma NwRecordsExactly(data: seq<byte>)
    requires |data| <= 1500
    ensures var r := LinkConservation.NwRecords(data);
            if 60 <= |data| && HeaderOk(data) && data[15] == 0x49 && data[16] == 0x60
            then IsSlices(r, data, 20, 8, Min(data[19], (|data| - 20) / 8))
            else r == []
  {
    assert data[..|data|] == data;
    if 60 <= |data| {
      TypeBytes(data);
      RemainingBounds(|data|);
      CountedReads(data, HEADER_SIZE, |data|, STATS_SIZE);
    }
  }

  /** A confirm counts its sender's records, each as often as it holds it, and no one else's. */
  lemma ReceivedOfConfirm(oda: Mac, osa: Mac, mmv: byte, stats: seq<Stats>, from: Mac, record: seq<byte>)
    requires 1 + 8 * |stats| <= 1481
    ensures |stats| < 0x100
    ensures var f := ConfirmFrame(oda, osa, mmv, CM_NW_STATS, Counted(StatsBytes(stats)));
            LinkConservation.ReceivedIn(f, from, record) == if from == osa then Times(StatsBytes(stats), record) else 0
  {
    StatsFit(stats);
    var records := StatsBytes(stats);
    CountFitsByte(records, STATS_SIZE);
    var payload := Counted(records);
    var f := ConfirmFrame(oda, osa, mmv, CM_NW_STATS, payload);
    ConfirmFrameParses(oda, osa, mmv, CM_NW_STATS, payload);
    Sender.FrameSize(oda, osa, mmv, CM_NW_STATS, Sender.Confirm, payload);
    assert f[..|f|] == f;
    assert f[HEADER_SIZE..HEADER_SIZE + |payload|] == f[HEADER_SIZE..][..|payload|] == payload;
    ParseOfCounted(f, HEADER_SIZE, |f|, STATS_SIZE, records);
  }

  // ----- requests and their answers -----

  /** The type of a request on the wire with the confirm bit set is the type of the answers that count: network
      records come in no other frame, and nor do link-stats fields. */
  lemma AnswersMatchRequests(c: Conf, sa: Mac, data: seq<byte>, dir: Dir, lid: byte)
    requires |c.nid| == 7 && |c.daSa| == 6 && |data| <= 1500
    ensures |Frames(c, sa, NwRequest)| == |Frames(c, sa, LinkRequest(dir, lid, lid))| == 1
    ensures var asked := Frames(c, sa, NwRequest)[0];
            17 <= |asked| && (LinkConservation.NwRecords(data) != [] ==>
                                60 <= |data| && data[15] == asked[15] + 1 && data[16] == asked[16])
    ensures var asked := Frames(c, sa, LinkRequest(dir, lid, lid))[0];
            17 <= |asked| && (Confirms(data) ==> data[15] == asked[15] + 1 && data[16] == asked[16])
  {
    PlanTheorems.NetworkRequestOnWire(c, sa);
    PlanTheorems.RequestOnWire(c, sa, dir, lid, lid);
    NwRecordsExactly(data);
    if HEADER_SIZE <= |data| {
      TypeBytes(data);
    }
  }
}
