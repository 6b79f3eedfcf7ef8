/** The receiving half of the IEEE 1901-2010 management-frame codec (src/ieee1901-2010.c):
    the dispatcher, the four confirm decoders and the callback registrations.

    A frame is a sequence of bytes. `Outcome` says, without cursors, what one frame causes;
    the class `Context` holds the registrations and works through the frame with a cursor and
    an `int remaining_size`, as the sources do, and is proved to produce exactly that outcome. */
module Codec {
  import opened CTypes

  const HEADER_SIZE := 19
  const STATION_SIZE := 12
  const NETWORK_SIZE := 13
  const NWINFO_SIZE := 18
  const STATS_SIZE := 8
  const CONFIRM_HEAD_SIZE := 2
  const RECEIVE_SIZE := 34
  const TRANSMIT_SIZE := 39

  const ETHERTYPE := 0x88e1
  const CC_DISCOVER_LIST := 0x0014
  const CM_NW_INFO := 0x6038
  const CM_NW_STATS := 0x6048
  const CM_LINK_STATS := 0x604C
  const CONFIRM := 1

  /** A registered function pointer together with its user data. */
  datatype Callback = Callback(fn: nat, usr: nat)

  datatype Slot = StationSlot | NetworkSlot | NwInfoSlot | NwStatsSlot | LinkStatsSlot

  /** The registrations of a context; `None` is a null function pointer. */
  datatype Slots = Slots(station: Option<Callback>, network: Option<Callback>, nwInfo: Option<Callback>,
                         nwStats: Option<Callback>, linkStats: Option<Callback>)
  {
    function Get(s: Slot): Option<Callback> {
      match s
      case StationSlot => station
      case NetworkSlot => network
      case NwInfoSlot => nwInfo
      case NwStatsSlot => nwStats
      case LinkStatsSlot => linkStats
    }
  }

  /** One callback invocation. A record callback gets a pointer to one packed record. The
      link-stats callback gets its two-byte head, a pointer to everything behind it (`tail`)
      and an announced length. */
  datatype Call =
    | RecordCall(slot: Slot, cb: Callback, osa: seq<byte>, record: seq<byte>)
    | LinkStatsCall(cb: Callback, osa: seq<byte>, head: seq<byte>, tail: seq<byte>, len: nat)

  function SlotOf(c: Call): Slot {
    if c.RecordCall? then c.slot else LinkStatsSlot
  }

  datatype Result = Result(rc: int, calls: seq<Call>)

  // ----- header fields -----

  function Osa(f: seq<byte>): seq<byte>
    requires HEADER_SIZE <= |f|
  {
    f[6..12]
  }

  /** `ntohs(mtype)`: network byte order. */
  function EtherType(f: seq<byte>): nat
    requires HEADER_SIZE <= |f|
  {
    0x100 * (f[12] as int) + f[13]
  }

  /** `mmtype` as the switch reads it: host byte order. */
  function MmType(f: seq<byte>): nat
    requires HEADER_SIZE <= |f|
  {
    f[15] + 0x100 * (f[16] as int)
  }

  /** `ntohs(mmtype)` as the category filter reads it: the same two bytes, swapped. */
  function SwappedMmType(f: seq<byte>): nat
    requires HEADER_SIZE <= |f|
  {
    0x100 * (f[15] as int) + f[16]
  }

  /** The low nibble of byte 17. */
  function FragmentCount(f: seq<byte>): nat
    requires HEADER_SIZE <= |f|
  {
    f[17] % 16
  }

  // ----- lists of fixed-size records -----

  /** The records read, the offset behind the last of them, and whether all were there. */
  datatype Parsed = Parsed(records: seq<seq<byte>>, next: nat, complete: bool)

  /** Reads up to `n` records of `size` bytes from offset `pos` on, none reaching past `end`. */
  function ParseRecords(f: seq<byte>, pos: nat, end: nat, size: nat, n: nat): (p: Parsed)
    requires 0 < size && pos <= end <= |f|
    ensures pos <= p.next <= end
    decreases n
  {
    if n == 0 then Parsed([], pos, true)
    else if end < pos + size then Parsed([], pos, false)
    else Prepend([f[pos..pos + size]], ParseRecords(f, pos + size, end, size, n - 1))
  }

  function Prepend(done: seq<seq<byte>>, p: Parsed): Parsed {
    p.(records := done + p.records)
  }

  function RecordCalls(slot: Slot, cb: Option<Callback>, osa: seq<byte>, records: seq<seq<byte>>): seq<Call> {
    if cb.None? || records == [] then []
    else
      var last := |records| - 1;
      RecordCalls(slot, cb, osa, records[..last]) + [RecordCall(slot, cb.value, osa, records[last])]
  }

  // ----- what a frame causes -----

  /** `int remaining_size = len - sizeof(header)`. */
  function Remaining(len: nat): int {
    ToInt(ToSize(len - HEADER_SIZE))
  }

  /** The conversion to `int` never makes a length larger, and makes it negative only if the
      frame is over 2 GiB. */
  lemma RemainingBounds(len: nat)
    requires HEADER_SIZE <= len
    ensures Remaining(len) <= len - HEADER_SIZE
    ensures Remaining(len) < 0 ==> INT_MAX < len - HEADER_SIZE
    ensures Remaining(len) == len - HEADER_SIZE <==> len - HEADER_SIZE <= INT_MAX
  {
  }

  /** Where a list decoder takes the frame to end. */
  function End(f: seq<byte>): (end: nat)
    requires HEADER_SIZE <= |f|
    ensures HEADER_SIZE <= end <= |f|
  {
    RemainingBounds(|f|);
    HEADER_SIZE + if Remaining(|f|) < 0 then 0 else Remaining(|f|)
  }

  /** A count byte and that many records. */
  function ParseCounted(f: seq<byte>, pos: nat, end: nat, size: nat): (p: Parsed)
    requires 0 < size && pos <= end <= |f|
    ensures pos <= p.next <= end
  {
    if pos == end then Parsed([], pos, false) else ParseRecords(f, pos + 1, end, size, f[pos])
  }

  /** The two lists of a discover-list confirm: a count byte and its station records, then a
      count byte and its network records. */
  datatype DiscoverParse = DiscoverParse(stations: seq<seq<byte>>, networks: seq<seq<byte>>, complete: bool)

  function ParseDiscover(f: seq<byte>, pos: nat, end: nat): DiscoverParse
    requires pos <= end <= |f|
  {
    if end < pos + 2 then DiscoverParse([], [], false)
    else
      var s := ParseCounted(f, pos, end, STATION_SIZE);
      if !s.complete then DiscoverParse(s.records, [], false)
      else
        var n := ParseCounted(f, s.next, end, NETWORK_SIZE);
        DiscoverParse(s.records, n.records, n.complete)
  }

  /** As coded, the discover-list decoder answers EXIT_FAILURE even after a complete parse. */
  function DiscoverOutcome(slots: Slots, f: seq<byte>): Result
    requires HEADER_SIZE <= |f|
  {
    var p := ParseDiscover(f, HEADER_SIZE, End(f));
    Result(EXIT_FAILURE, RecordCalls(StationSlot, slots.station, Osa(f), p.stations)
                         + RecordCalls(NetworkSlot, slots.network, Osa(f), p.networks))
  }

  function CountedOutcome(slot: Slot, cb: Option<Callback>, size: nat, f: seq<byte>): Result
    requires HEADER_SIZE <= |f| && 0 < size
  {
    var p := ParseCounted(f, HEADER_SIZE, End(f), size);
    Result(if p.complete then EXIT_SUCCESS else EXIT_FAILURE, RecordCalls(slot, cb, Osa(f), p.records))
  }

  /** `remaining_size` is compared as `size_t`, and handed to the callback as one. */
  function LinkStatsOutcome(cb: Option<Callback>, f: seq<byte>): Result
    requires HEADER_SIZE <= |f|
  {
    var r := Remaining(|f|);
    if ToSize(r) < CONFIRM_HEAD_SIZE then Result(EXIT_FAILURE, [])
    else
      var r2 := ToInt(ToSize(r) - CONFIRM_HEAD_SIZE);
      if ToSize(r2) < RECEIVE_SIZE then Result(EXIT_FAILURE, [])
      else if cb.None? then Result(EXIT_SUCCESS, [])
      else
        RemainingBounds(|f|);
        Result(EXIT_SUCCESS, [LinkStatsCall(cb.value, Osa(f), f[19..21], f[21..], ToSize(r2))])
  }

  /** The outcome of handing `f` to the dispatcher. */
  function Outcome(slots: Slots, f: seq<byte>): Result {
    if |f| < HEADER_SIZE then Result(EXIT_FAILURE, [])
    else if EtherType(f) != ETHERTYPE then Result(EXIT_FAILURE, [])
    else if SwappedMmType(f) > 0x7ffc then Result(EXIT_FAILURE, [])
    else if FragmentCount(f) != 0 then Result(EXIT_FAILURE, [])
    else if MmType(f) == CC_DISCOVER_LIST + CONFIRM then
      if slots.network.Some? || slots.station.Some? then DiscoverOutcome(slots, f) else Result(EXIT_SUCCESS, [])
    else if MmType(f) == CM_NW_INFO + CONFIRM then
      if slots.nwInfo.Some? then CountedOutcome(NwInfoSlot, slots.nwInfo, NWINFO_SIZE, f) else Result(EXIT_SUCCESS, [])
    else if MmType(f) == CM_NW_STATS + CONFIRM then
      if slots.nwStats.Some? then CountedOutcome(NwStatsSlot, slots.nwStats, STATS_SIZE, f)
      else Result(EXIT_SUCCESS, [])
    else if MmType(f) == CM_LINK_STATS + CONFIRM then
      if slots.linkStats.Some? then LinkStatsOutcome(slots.linkStats, f) else Result(EXIT_SUCCESS, [])
    else Result(EXIT_SUCCESS, [])
  }

  // ----- the decoders as coded -----

  /** Registering replaces one slot. */
  function SetSlot(slots: Slots, s: Slot, cb: Option<Callback>): Slots {
    match s
    case StationSlot => slots.(station := cb)
    case NetworkSlot => slots.(network := cb)
    case NwInfoSlot => slots.(nwInfo := cb)
    case NwStatsSlot => slots.(nwStats := cb)
    case LinkStatsSlot => slots.(linkStats := cb)
  }

  /** The loops' arithmetic: while `remaining_size` is not negative, comparing it as `size_t` and
      subtracting a `sizeof` from it are exact. */
  lemma ExactArithmetic(remaining: int, size: nat)
    requires 0 <= remaining <= INT_MAX
    ensures ToSize(remaining) == remaining
    ensures size <= remaining ==> ToInt(ToSize(remaining) - size) == remaining - size
  {
  }

  lemma CallsExtend(slot: Slot, cb: Option<Callback>, osa: seq<byte>, done: seq<seq<byte>>, record: seq<byte>)
    ensures RecordCalls(slot, cb, osa, done + [record])
         == RecordCalls(slot, cb, osa, done) + if cb.None? then [] else [RecordCall(slot, cb.value, osa, record)]
  {
    assert (done + [record])[..|done|] == done;
  }

  lemma PrependTwice(done: seq<seq<byte>>, more: seq<seq<byte>>, p: Parsed)
    ensures Prepend(done, Prepend(more, p)) == Prepend(done + more, p)
  {
    assert done + (more + p.records) == (done + more) + p.records;
  }

  /** `ieee1901_2010_ctx`, together with the trace of the callbacks it has made. */
  class Context {
    var station: Option<Callback>
    var network: Option<Callback>
    var nwInfo: Option<Callback>
    var nwStats: Option<Callback>
    var linkStats: Option<Callback>
    var calls: seq<Call>

    function Registered(): Slots
      reads this
    {
      Slots(station, network, nwInfo, nwStats, linkStats)
    }

    /** ieee1901_2010_init on fresh memory. */
    constructor ()
      ensures Registered() == Slots(None, None, None, None, None) && calls == []
    {
      station, network, nwInfo, nwStats, linkStats := None, None, None, None, None;
      calls := [];
    }

    /** The five register functions, one per slot; a null `fn` clears the slot. */
    static method Register(ctx: Context?, slot: Slot, fn: Option<nat>, usr: nat) returns (rc: int)
      modifies ctx
      ensures ctx == null ==> rc == EXIT_FAILURE
      ensures ctx != null ==>
        && rc == EXIT_SUCCESS && ctx.calls == old(ctx.calls)
        && ctx.Registered() == SetSlot(old(ctx.Registered()), slot,
                                       if fn.None? then None else Some(Callback(fn.value, usr)))
    {
      if ctx == null {
        return EXIT_FAILURE;
      }
      var cb := if fn.None? then None else Some(Callback(fn.value, usr));
      match slot {
        case StationSlot => ctx.station := cb;
        case NetworkSlot => ctx.network := cb;
        case NwInfoSlot => ctx.nwInfo := cb;
        case NwStatsSlot => ctx.nwStats := cb;
        case LinkStatsSlot => ctx.linkStats := cb;
      }
      return EXIT_SUCCESS;
    }

    /** ieee1901_2010_handle_message. `len` is the number of bytes the caller vouches for. */
    static method HandleMessage(ctx: Context?, payload: array?<byte>, len: nat) returns (rc: int)
      requires payload != null ==> len <= payload.Length
      modifies ctx
      ensures ctx == null || payload == null ==> rc == EXIT_FAILURE
      ensures ctx != null ==> ctx.Registered() == old(ctx.Registered())
      ensures ctx != null && payload == null ==> ctx.calls == old(ctx.calls)
      ensures ctx != null && payload != null ==>
        var o := Outcome(old(ctx.Registered()), payload[..len]);
        rc == o.rc && ctx.calls == old(ctx.calls) + o.calls
    {
      if ctx == null || payload == null || len < HEADER_SIZE {
        return EXIT_FAILURE;
      }
      if 0x100 * (payload[12] as int) + payload[13] != ETHERTYPE {
        return EXIT_FAILURE;
      }
      if 0x100 * (payload[15] as int) + payload[16] > 0x7ffc {
        return EXIT_FAILURE;
      }
      if payload[17] % 16 != 0 {
        return EXIT_FAILURE;
      }
      rc := EXIT_SUCCESS;
      var made := [];
      var mmtype := payload[15] + 0x100 * (payload[16] as int);
      if mmtype == CC_DISCOVER_LIST + CONFIRM {
        if ctx.network.Some? || ctx.station.Some? {
          rc, made := ctx.DiscoverListConfirm(payload[..len]);
        }
      } else if mmtype == CM_NW_INFO + CONFIRM {
        if ctx.nwInfo.Some? {
          rc, made := ctx.CountedConfirm(NwInfoSlot, NWINFO_SIZE, payload[..len]);
        }
      } else if mmtype == CM_NW_STATS + CONFIRM {
        if ctx.nwStats.Some? {
          rc, made := ctx.CountedConfirm(NwStatsSlot, STATS_SIZE, payload[..len]);
        }
      } else if mmtype == CM_LINK_STATS + CONFIRM {
        if ctx.linkStats.Some? {
          rc, made := ctx.LinkStatsConfirm(payload[..len]);
        }
      }
      ctx.calls := ctx.calls + made;
    }

    /** The loop every list decoder contains, up to the record type: `count` records of `size`
        bytes each from `from` on, with `bytes` bytes remaining. */
    method RecordList(slot: Slot, size: nat, f: seq<byte>, from: nat, bytes: nat, count: byte)
      returns (ok: bool, made: seq<Call>, pos: nat, remaining: nat)
      requires 0 < size && HEADER_SIZE <= from && from + bytes <= |f| && bytes <= INT_MAX
      ensures var p := ParseRecords(f, from, from + bytes, size, count);
              && ok == p.complete && made == RecordCalls(slot, Registered().Get(slot), Osa(f), p.records)
              && pos == p.next && pos + remaining == from + bytes
    {
      var cb, osa := Registered().Get(slot), f[6..12];
      made, pos, remaining := [], from, bytes;
      ghost var end := from + bytes;
      ghost var done: seq<seq<byte>> := [];
      ghost var all := ParseRecords(f, from, end, size, count);
      assert Prepend(done, all) == all;
      var i := 0;
      while i < count
        invariant 0 <= i <= count
        invariant from <= pos && pos + remaining == end
        invariant all == Prepend(done, ParseRecords(f, pos, end, size, count - i))
        invariant made == RecordCalls(slot, cb, osa, done)
      {
        ExactArithmetic(remaining, size);
        if ToSize(remaining) < size {
          assert done + [] == done;
          return false, made, pos, remaining;
        }
        var record := f[pos..pos + size];
        if cb.Some? {
          made := made + [RecordCall(slot, cb.value, osa, record)];
        }
        CallsExtend(slot, cb, osa, done, record);
        PrependTwice(done, [record], ParseRecords(f, pos + size, end, size, count - i - 1));
        done := done + [record];
        remaining := ToInt(ToSize(remaining) - size);
        pos := pos + size;
        i := i + 1;
      }
      assert done + [] == done;
      return true, made, pos, remaining;
    }

    method DiscoverListConfirm(f: seq<byte>) returns (rc: int, made: seq<Call>)
      requires HEADER_SIZE <= |f|
      ensures var o := DiscoverOutcome(Registered(), f);
              rc == o.rc && made == o.calls
    {
      var remaining := ToInt(ToSize(|f| - HEADER_SIZE));
      RemainingBounds(|f|);
      if remaining < 2 {
        return EXIT_FAILURE, [];
      }
      assert End(f) == HEADER_SIZE + remaining;
      var pos := HEADER_SIZE;
      var stationCount := f[pos];
      remaining := remaining - 1;
      pos := pos + 1;
      var ok;
      ok, made, pos, remaining := RecordList(StationSlot, STATION_SIZE, f, pos, remaining, stationCount);
      if !ok || remaining < 1 {
        assert ParseDiscover(f, HEADER_SIZE, End(f)).networks == [];
        assert made + [] == made;
        return EXIT_FAILURE, made;
      }
      var networkCount := f[pos];
      remaining := remaining - 1;
      pos := pos + 1;
      var networks;
      ok, networks, pos, remaining := RecordList(NetworkSlot, NETWORK_SIZE, f, pos, remaining, networkCount);
      return EXIT_FAILURE, made + networks;
    }

    /** The CM_NW_INFO and CM_NW_STATS confirm decoders: a count field and that many records. */
    method CountedConfirm(slot: Slot, size: nat, f: seq<byte>) returns (rc: int, made: seq<Call>)
      requires HEADER_SIZE <= |f| && 0 < size
      ensures var o := CountedOutcome(slot, Registered().Get(slot), size, f);
              rc == o.rc && made == o.calls
    {
      var remaining := ToInt(ToSize(|f| - HEADER_SIZE));
      RemainingBounds(|f|);
      if remaining < 1 {
        return EXIT_FAILURE, [];
      }
      assert End(f) == HEADER_SIZE + remaining;
      var pos := HEADER_SIZE;
      var count := f[pos];
      remaining := remaining - 1;
      pos := pos + 1;
      var ok;
      ok, made, pos, remaining := RecordList(slot, size, f, pos, remaining, count);
      return if ok then EXIT_SUCCESS else EXIT_FAILURE, made;
    }

    method LinkStatsConfirm(f: seq<byte>) returns (rc: int, made: seq<Call>)
      requires HEADER_SIZE <= |f|
      ensures var o := LinkStatsOutcome(linkStats, f);
              rc == o.rc && made == o.calls
    {
      made := [];
      var remaining := ToInt(ToSize(|f| - HEADER_SIZE));
      RemainingBounds(|f|);
      if ToSize(remaining) < CONFIRM_HEAD_SIZE {
        return EXIT_FAILURE, made;
      }
      var pos := HEADER_SIZE;
      var head := f[pos..pos + CONFIRM_HEAD_SIZE];
      remaining := ToInt(ToSize(remaining) - CONFIRM_HEAD_SIZE);
      pos := pos + CONFIRM_HEAD_SIZE;
      if ToSize(remaining) < RECEIVE_SIZE {
        return EXIT_FAILURE, made;
      }
      if linkStats.Some? {
        made := made + [LinkStatsCall(linkStats.value, Osa(f), head, f[pos..], ToSize(remaining))];
      }
      return EXIT_SUCCESS, made;
    }
  }
}
