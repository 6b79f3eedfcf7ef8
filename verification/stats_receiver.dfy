/** The receiving side of hpav-stats (`_handle_data`, `_nw_stats` and `_link_stats` in
    bin/hpav-stats.c): a frame read from the socket goes through the dispatcher, and each callback
    prints one numbered section. A confirm does not say which direction it reports on; the
    callback takes that from the shared phase variable. */
module StatsReceiver {
  import opened CTypes
  import opened Codec
  import opened CodecTheorems
  import opened RequestPlan
  import Sender

  const BUFFER_SIZE := 1500

  /** The callbacks of this program, with the registrations it makes. */
  const NW_STATS := Callback(0, 0)
  const LINK_STATS := Callback(1, 0)
  const SLOTS := Slots(None, None, None, Some(NW_STATS), Some(LINK_STATS))

  /** The static section counters. */
  datatype Counters = Counters(nw: size, tx: size, rx: size)

  /** A printed section: its number, the sender, and what it prints of the record. */
  datatype Section =
    | NwSection(number: size, osa: seq<byte>, stats: seq<byte>)
    | LinkSection(dir: Dir, number: size, osa: seq<byte>, reqId: byte, field: seq<byte>)

  /** What the callbacks have printed, and their counters. */
  datatype Output = Output(n: Counters, sections: seq<Section>)

  // ----- what a frame makes the program print -----

  function FieldSize(dir: Dir): nat {
    if dir == Transmit then TRANSMIT_SIZE else RECEIVE_SIZE
  }

  function Number(n: Counters, dir: Dir): size {
    if dir == Transmit then n.tx else n.rx
  }

  function BumpDir(n: Counters, dir: Dir): Counters {
    if dir == Transmit then n.(tx := Bump(n.tx)) else n.(rx := Bump(n.rx))
  }

  predicate Callable(c: Call) {
    match c
    case RecordCall(slot, _, _, _) => slot == NwStatsSlot
    case LinkStatsCall(_, _, head, tail, len) => |head| == 2 && len <= |tail|
  }

  function Emit(phase: Dir, o: Output, c: Call): Output
    requires Callable(c)
  {
    match c
    case RecordCall(_, _, osa, record) =>
      Output(o.n.(nw := Bump(o.n.nw)), o.sections + [NwSection(o.n.nw, osa, record)])
    case LinkStatsCall(_, osa, head, tail, len) =>
      if head[1] != 0 || len < FieldSize(phase) then o
      else Output(BumpDir(o.n, phase),
                  o.sections + [LinkSection(phase, Number(o.n, phase), osa, head[0], tail[..FieldSize(phase)])])
  }

  ghost predicate AllCallable(calls: seq<Call>) {
    forall c :: c in calls ==> Callable(c)
  }

  function EmitAll(phase: Dir, o: Output, calls: seq<Call>): Output
    requires AllCallable(calls)
  {
    if calls == [] then o else Emit(phase, EmitAll(phase, o, calls[..|calls| - 1]), calls[|calls| - 1])
  }

  /** read(2) into the buffer: at most its size. */
  function Read(data: seq<byte>): (f: seq<byte>)
    ensures |f| <= BUFFER_SIZE
  {
    data[..Min(|data|, BUFFER_SIZE)]
  }

  /** The effect of one readable frame. */
  function Handle(phase: Dir, o: Output, data: seq<byte>): Output {
    var f := Read(data);
    if |f| < Sender.MIN_MSG_SIZE then o
    else
      CallsAreCallable(f);
      EmitAll(phase, o, Outcome(SLOTS, f).calls)
  }

  lemma {:induction false} NwCallsCallable(osa: seq<byte>, records: seq<seq<byte>>)
    ensures AllCallable(RecordCalls(NwStatsSlot, SLOTS.nwStats, osa, records))
    decreases |records|
  {
    if records != [] {
      NwCallsCallable(osa, records[..|records| - 1]);
    }
  }

  lemma CallsAreCallable(f: seq<byte>)
    requires |f| <= BUFFER_SIZE
    ensures AllCallable(Outcome(SLOTS, f).calls)
  {
    if HeaderOk(f) && MmType(f) == CM_NW_STATS + CONFIRM {
      NwCallsCallable(Osa(f), ParseCounted(f, HEADER_SIZE, End(f), STATS_SIZE).records);
    } else if HeaderOk(f) && MmType(f) == CM_LINK_STATS + CONFIRM {
      AnnouncedLength(|f| - HEADER_SIZE);
    }
  }

  // ----- the program -----

  class Receiver {
    const ieee: Context
    var phase: Dir
    var nw: size
    var tx: size
    var rx: size
    var sections: seq<Section>

    constructor (phase: Dir)
      ensures fresh(ieee) && ieee.Registered() == SLOTS && this.phase == phase
      ensures State() == Output(Counters(0, 0, 0), [])
    {
      var ctx := new Context();
      this.ieee, this.phase, nw, tx, rx, sections := ctx, phase, 0, 0, 0, [];
      new;
      var rc := Context.Register(ieee, NwStatsSlot, Some(NW_STATS.fn), NW_STATS.usr);
      rc := Context.Register(ieee, LinkStatsSlot, Some(LINK_STATS.fn), LINK_STATS.usr);
    }

    function State(): Output
      reads `nw, `tx, `rx, `sections
    {
      Output(Counters(nw, tx, rx), sections)
    }

    method NwStats(osa: seq<byte>, stats: seq<byte>)
      modifies `nw, `sections
      ensures State() == Emit(phase, old(State()), RecordCall(NwStatsSlot, NW_STATS, osa, stats))
    {
      sections := sections + [NwSection(nw, osa, stats)];
      nw := (nw + 1) % 0x1_0000_0000_0000_0000;
    }

    method LinkStats(osa: seq<byte>, head: seq<byte>, payload: seq<byte>, len: nat)
      requires |head| == 2 && len <= |payload|
      modifies `tx, `rx, `sections
      ensures State() == Emit(phase, old(State()), LinkStatsCall(LINK_STATS, osa, head, payload, len))
    {
      if head[1] != 0 {
        return;
      }
      match phase {
        case Transmit =>
          if len < TRANSMIT_SIZE {
            return;
          }
          sections := sections + [LinkSection(Transmit, tx, osa, head[0], payload[..TRANSMIT_SIZE])];
          tx := (tx + 1) % 0x1_0000_0000_0000_0000;
        case Receive =>
          if len < RECEIVE_SIZE {
            return;
          }
          sections := sections + [LinkSection(Receive, rx, osa, head[0], payload[..RECEIVE_SIZE])];
          rx := (rx + 1) % 0x1_0000_0000_0000_0000;
      }
    }

    /** `_handle_data` on what the socket holds; `None` is a failing read. */
    method HandleData(data: Option<seq<byte>>)
      requires ieee.Registered() == SLOTS
      modifies ieee, `nw, `tx, `rx, `sections
      ensures ieee.Registered() == SLOTS
      ensures State() == if data.None? then old(State()) else Handle(phase, old(State()), data.value)
    {
      if data.None? {
        return;
      }
      var f := Read(data.value);
      if |f| < Sender.MIN_MSG_SIZE {
        return;
      }
      var buf := new byte[|f|](i requires 0 <= i < |f| => f[i]);
      assert buf[..|f|] == f;
      var before := |ieee.calls|;
      var rc := Context.HandleMessage(ieee, buf, |f|);
      CallsAreCallable(f);
      Callbacks(ieee.calls[before..]);
    }

    /** The callbacks the dispatcher makes, one by one. */
    method Callbacks(calls: seq<Call>)
      requires AllCallable(calls)
      modifies `nw, `tx, `rx, `sections
      ensures State() == EmitAll(phase, old(State()), calls)
    {
      var i := 0;
      while i < |calls|
        invariant 0 <= i <= |calls|
        invariant State() == EmitAll(phase, old(State()), calls[..i])
      {
        assert calls[..i + 1][..i] == calls[..i];
        assert Callable(calls[i]);
        match calls[i] {
          case RecordCall(_, _, osa, record) => NwStats(osa, record);
          case LinkStatsCall(_, osa, head, tail, len) => LinkStats(osa, head, tail, len);
        }
        i := i + 1;
      }
      assert calls[..i] == calls;
    }
  }

  // ----- which frames are recorded, and as what -----

  /** A frame that confirms a link-stats request successfully. */
  predicate Confirms(f: seq<byte>) {
    Sender.MIN_MSG_SIZE <= |f| && HeaderOk(f) && MmType(f) == CM_LINK_STATS + CONFIRM && f[20] == 0
  }

  /** The length the link-stats callback sees is exact and never below a transmit field. */
  lemma LinkLength(f: seq<byte>)
    requires Sender.MIN_MSG_SIZE <= |f| <= BUFFER_SIZE && HeaderOk(f) && MmType(f) == CM_LINK_STATS + CONFIRM
    ensures Outcome(SLOTS, f) == Result(EXIT_SUCCESS, [LinkStatsCall(LINK_STATS, Osa(f), f[19..21], f[21..], |f| - 21)])
    ensures RECEIVE_SIZE < TRANSMIT_SIZE <= |f| - 21
  {
    OutcomeIsServed(SLOTS, LinkStatsSlot, f);
    AnnouncedLength(|f| - HEADER_SIZE);
    RemainingBounds(|f|);
  }

  lemma EmitOne(phase: Dir, o: Output, calls: seq<Call>)
    requires AllCallable(calls) && |calls| == 1
    ensures Callable(calls[0]) && EmitAll(phase, o, calls) == Emit(phase, o, calls[0])
  {
    assert calls[..0] == [];
  }

  /** A successful confirm is recorded in either phase, whatever its length, under the phase's
      direction and its own request id: the length checks of decoder and callback reject none, and
      cannot tell the directions apart. */
  lemma ConfirmRecorded(phase: Dir, o: Output, data: seq<byte>)
    requires Confirms(Read(data))
    ensures var f := Read(data);
            Handle(phase, o, data) ==
              Output(BumpDir(o.n, phase),
                     o.sections + [LinkSection(phase, Number(o.n, phase), Osa(f), f[19], f[21..21 + FieldSize(phase)])])
  {
    var f := Read(data);
    LinkLength(f);
    CallsAreCallable(f);
    EmitOne(phase, o, Outcome(SLOTS, f).calls);
    assert f[19..21][0] == f[19] && f[19..21][1] == f[20];
    assert f[21..][..FieldSize(phase)] == f[21..21 + FieldSize(phase)];
  }

  /** A network-stats confirm prints one section per record, numbered on; other frames, unless
      they confirm a link-stats request, print nothing. No frame but a successful link-stats confirm
      makes a link section. */
  lemma OthersRecorded(phase: Dir, o: Output, data: seq<byte>)
    requires !Confirms(Read(data))
    ensures var f := Read(data);
            Handle(phase, o, data) ==
              if Sender.MIN_MSG_SIZE <= |f| && HeaderOk(f) && MmType(f) == CM_NW_STATS + CONFIRM
              then NwOutput(o, Osa(f), ParseCounted(f, HEADER_SIZE, End(f), STATS_SIZE).records) else o
  {
    var f := Read(data);
    if Sender.MIN_MSG_SIZE <= |f| {
      CallsAreCallable(f);
      var calls := Outcome(SLOTS, f).calls;
      if !HeaderOk(f) {
        assert calls == [];
      } else if MmType(f) == CM_LINK_STATS + CONFIRM {
        LinkLength(f);
        EmitOne(phase, o, calls);
        assert f[19..21][1] == f[20];
      } else if MmType(f) == CM_NW_STATS + CONFIRM {
        EmitNw(phase, o, Osa(f), ParseCounted(f, HEADER_SIZE, End(f), STATS_SIZE).records);
      } else {
        assert calls == [];
      }
    }
  }

  function Advance(n: size, k: nat): size {
    ToSize(n + k)
  }

  /** Sections for the records in order, numbered from the counter on. */
  function NwOutput(o: Output, osa: seq<byte>, records: seq<seq<byte>>): Output {
    Output(o.n.(nw := Advance(o.n.nw, |records|)),
           o.sections + seq(|records|, i requires 0 <= i < |records| => NwSection(Advance(o.n.nw, i), osa, records[i])))
  }

  lemma NwOutputSnoc(o: Output, osa: seq<byte>, records: seq<seq<byte>>, r: seq<byte>)
    ensures var p := NwOutput(o, osa, records);
            NwOutput(o, osa, records + [r])
              == Output(p.n.(nw := Bump(p.n.nw)), p.sections + [NwSection(p.n.nw, osa, r)])
  {
    BumpWraps(o.n.nw + |records|);
  }

  lemma {:induction false} EmitNw(phase: Dir, o: Output, osa: seq<byte>, records: seq<seq<byte>>)
    ensures AllCallable(RecordCalls(NwStatsSlot, SLOTS.nwStats, osa, records))
    ensures EmitAll(phase, o, RecordCalls(NwStatsSlot, SLOTS.nwStats, osa, records)) == NwOutput(o, osa, records)
    decreases |records|
  {
    NwCallsCallable(osa, records);
    if records == [] {
      assert NwOutput(o, osa, records).sections == o.sections;
    } else {
      var last := |records| - 1;
      var calls := RecordCalls(NwStatsSlot, SLOTS.nwStats, osa, records);
      EmitNw(phase, o, osa, records[..last]);
      NwOutputSnoc(o, osa, records[..last], records[last]);
      assert records[..last] + [records[last]] == records;
      assert calls[..|calls| - 1] == RecordCalls(NwStatsSlot, SLOTS.nwStats, osa, records[..last]);
    }
  }
}
