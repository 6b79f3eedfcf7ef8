/** From a list of records through the sender's frame and the dispatcher to the callbacks: for
    every payload within the sender's limit, the callbacks get exactly the records that were
    laid out, in order, and never the padding. */
module RoundTrip {
  import opened CTypes
  import opened Codec
  import opened CodecTheorems
  import opened Records
  import Sender

  /** A confirm frame from `osa`. */
  function ConfirmFrame(oda: Mac, osa: Mac, mmv: byte, base: uint16, payload: seq<byte>): seq<byte> {
    Sender.Frame(oda, osa, mmv, base, Sender.Confirm, payload)
  }

  lemma ConfirmFrameParses(oda: Mac, osa: Mac, mmv: byte, base: uint16, payload: seq<byte>)
    requires base == CC_DISCOVER_LIST || base == CM_NW_INFO || base == CM_NW_STATS || base == CM_LINK_STATS
    requires |payload| <= Sender.MAX_MSG_SIZE - HEADER_SIZE
    ensures var f := ConfirmFrame(oda, osa, mmv, base, payload);
            && HeaderOk(f) && MmType(f) == base + CONFIRM && Osa(f) == osa && End(f) == |f|
            && f[HEADER_SIZE..] == payload + Zeros(Sender.Padding(|payload|))
  {
    var f := ConfirmFrame(oda, osa, mmv, base, payload);
    Sender.HeaderReadBack(oda, osa, mmv, base, Sender.Confirm, payload);
    Sender.FrameSize(oda, osa, mmv, base, Sender.Confirm, payload);
    Sender.ConfirmType(base);
    var s := if base == CC_DISCOVER_LIST then StationSlot else if base == CM_NW_INFO then NwInfoSlot
             else if base == CM_NW_STATS then NwStatsSlot else LinkStatsSlot;
    ServedFrame(s, f);
  }

  lemma ServedFrame(s: Slot, f: seq<byte>)
    requires HEADER_SIZE <= |f| <= Sender.MAX_MSG_SIZE
    requires EtherType(f) == ETHERTYPE && FragmentCount(f) == 0 && Serves(s, f)
    ensures HeaderOk(f) && End(f) == |f|
  {
    ServedTypesPass(s, f);
    RemainingBounds(|f|);
  }

  // ----- lists of records as bytes -----

  function StationBytes(s: seq<Station>): (b: seq<seq<byte>>)
    ensures |b| == |s| && forall i :: 0 <= i < |s| ==> b[i] == EncodeStation(s[i])
  {
    seq(|s|, i requires 0 <= i < |s| => EncodeStation(s[i]))
  }

  function NetworkBytes(s: seq<Network>): (b: seq<seq<byte>>)
    ensures |b| == |s| && forall i :: 0 <= i < |s| ==> b[i] == EncodeNetwork(s[i])
  {
    seq(|s|, i requires 0 <= i < |s| => EncodeNetwork(s[i]))
  }

  function NwInfoBytes(s: seq<NwInfo>): (b: seq<seq<byte>>)
    ensures |b| == |s| && forall i :: 0 <= i < |s| ==> b[i] == EncodeNwInfo(s[i])
  {
    seq(|s|, i requires 0 <= i < |s| => EncodeNwInfo(s[i]))
  }

  function StatsBytes(s: seq<Stats>): (b: seq<seq<byte>>)
    ensures |b| == |s| && forall i :: 0 <= i < |s| ==> b[i] == EncodeStats(s[i])
  {
    seq(|s|, i requires 0 <= i < |s| => EncodeStats(s[i]))
  }

  /** A list that fits the sender's limit has fewer than 256 records, so its count fits a byte. */
  lemma CountFitsByte(records: seq<seq<byte>>, size: nat)
    requires 8 <= size && AllOfSize(records, size) && |Flat(records)| <= Sender.MAX_MSG_SIZE - HEADER_SIZE
    ensures |records| < 0x100
  {
    FlatSize(records, size);
    BytesAtLeast(size, |records|);
  }

  lemma {:induction false} BytesAtLeast(size: nat, k: nat)
    requires 8 <= size
    ensures 8 * k <= Bytes(size, k)
  {
    if 0 < k {
      BytesAtLeast(size, k - 1);
    }
  }

  // ----- round trips -----

  lemma DiscoverListRoundTrip(slots: Slots, oda: Mac, osa: Mac, mmv: byte, stations: seq<Station>,
                              networks: seq<Network>)
    requires 2 + |Flat(StationBytes(stations))| + |Flat(NetworkBytes(networks))| <= Sender.MAX_MSG_SIZE - HEADER_SIZE
    ensures |stations| < 0x100 && |networks| < 0x100
    ensures var payload := Counted(StationBytes(stations)) + Counted(NetworkBytes(networks));
            Outcome(slots, ConfirmFrame(oda, osa, mmv, CC_DISCOVER_LIST, payload)).calls
              == RecordCalls(StationSlot, slots.station, osa, StationBytes(stations))
                 + RecordCalls(NetworkSlot, slots.network, osa, NetworkBytes(networks))
  {
    var s, n := StationBytes(stations), NetworkBytes(networks);
    CountFitsByte(s, STATION_SIZE);
    CountFitsByte(n, NETWORK_SIZE);
    var payload := Counted(s) + Counted(n);
    var f := ConfirmFrame(oda, osa, mmv, CC_DISCOVER_LIST, payload);
    ConfirmFrameParses(oda, osa, mmv, CC_DISCOVER_LIST, payload);
    assert f[HEADER_SIZE..|f|] == f[HEADER_SIZE..];
    DiscoverGrammar(f, |f|, s, n);
  }

  lemma CountedListRoundTrip(slot: Slot, cb: Option<Callback>, size: nat, f: seq<byte>, records: seq<seq<byte>>,
                             pad: nat)
    requires HEADER_SIZE <= |f| == End(f) && 8 <= size && AllOfSize(records, size) && |records| < 0x100
    requires f[HEADER_SIZE..] == Counted(records) + Zeros(pad)
    ensures CountedOutcome(slot, cb, size, f) == Result(EXIT_SUCCESS, RecordCalls(slot, cb, Osa(f), records))
  {
    var c := Counted(records);
    assert f[HEADER_SIZE..HEADER_SIZE + |c|] == f[HEADER_SIZE..][..|c|] == c;
    ParseOfCounted(f, HEADER_SIZE, |f|, size, records);
  }

  lemma NwInfoRoundTripFrame(slots: Slots, oda: Mac, osa: Mac, mmv: byte, infos: seq<NwInfo>)
    requires 1 + |Flat(NwInfoBytes(infos))| <= Sender.MAX_MSG_SIZE - HEADER_SIZE
    ensures |infos| < 0x100
    ensures Outcome(slots, ConfirmFrame(oda, osa, mmv, CM_NW_INFO, Counted(NwInfoBytes(infos))))
         == Result(EXIT_SUCCESS, RecordCalls(NwInfoSlot, slots.nwInfo, osa, NwInfoBytes(infos)))
  {
    var records := NwInfoBytes(infos);
    CountFitsByte(records, NWINFO_SIZE);
    ConfirmFrameParses(oda, osa, mmv, CM_NW_INFO, Counted(records));
    var f := ConfirmFrame(oda, osa, mmv, CM_NW_INFO, Counted(records));
    CountedListRoundTrip(NwInfoSlot, slots.nwInfo, NWINFO_SIZE, f, records, Sender.Padding(|Counted(records)|));
    OutcomeIsServed(slots, NwInfoSlot, f);
  }

  lemma NwStatsRoundTripFrame(slots: Slots, oda: Mac, osa: Mac, mmv: byte, stats: seq<Stats>)
    requires 1 + |Flat(StatsBytes(stats))| <= Sender.MAX_MSG_SIZE - HEADER_SIZE
    ensures |stats| < 0x100
    ensures Outcome(slots, ConfirmFrame(oda, osa, mmv, CM_NW_STATS, Counted(StatsBytes(stats))))
         == Result(EXIT_SUCCESS, RecordCalls(NwStatsSlot, slots.nwStats, osa, StatsBytes(stats)))
  {
    var records := StatsBytes(stats);
    CountFitsByte(records, STATS_SIZE);
    ConfirmFrameParses(oda, osa, mmv, CM_NW_STATS, Counted(records));
    var f := ConfirmFrame(oda, osa, mmv, CM_NW_STATS, Counted(records));
    CountedListRoundTrip(NwStatsSlot, slots.nwStats, STATS_SIZE, f, records, Sender.Padding(|Counted(records)|));
    OutcomeIsServed(slots, NwStatsSlot, f);
  }

  /** The link-stats callback gets the head, and the field followed by the padding: a field of 39
      bytes or more arrives bare, a shorter one is filled up to 39. */
  lemma LinkStatsRoundTripFrame(slots: Slots, oda: Mac, osa: Mac, mmv: byte, head: ConfirmHead, field: seq<byte>)
    requires CONFIRM_HEAD_SIZE + |field| <= Sender.MAX_MSG_SIZE - HEADER_SIZE
    ensures var f := ConfirmFrame(oda, osa, mmv, CM_LINK_STATS, EncodeHead(head) + field);
            var tail := field + Zeros(Max(|field|, TRANSMIT_SIZE) - |field|);
            Outcome(slots, f) ==
              Result(EXIT_SUCCESS, if slots.linkStats.None? then []
                                   else [LinkStatsCall(slots.linkStats.value, osa, EncodeHead(head), tail, |tail|)])
  {
    var payload := EncodeHead(head) + field;
    var f := ConfirmFrame(oda, osa, mmv, CM_LINK_STATS, payload);
    ConfirmFrameParses(oda, osa, mmv, CM_LINK_STATS, payload);
    var pad := Sender.Padding(|payload|);
    assert f[19..21] == f[HEADER_SIZE..][..2] == EncodeHead(head);
    assert f[21..] == f[HEADER_SIZE..][2..] == field + Zeros(pad);
    OutcomeIsServed(slots, LinkStatsSlot, f);
    AnnouncedLength(|f| - HEADER_SIZE);
  }
}
