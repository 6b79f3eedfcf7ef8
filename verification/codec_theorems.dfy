/** What the receiving codec guarantees, for every frame and every set of registrations. */
module CodecTheorems {
  import opened CTypes
  import opened Codec

  // ----- record lists: closed form, grammar, extension -----

  ghost predicate AllOfSize(records: seq<seq<byte>>, size: nat) {
    forall i :: 0 <= i < |records| ==> |records[i]| == size
  }

  /** Records laid out back to back. */
  function Flat(records: seq<seq<byte>>): seq<byte> {
    if records == [] then [] else records[0] + Flat(records[1..])
  }

  /** The number of bytes k records of `size` bytes take: `size * k`. */
  function Bytes(size: nat, k: nat): nat
    decreases k
  {
    if k == 0 then 0 else size + Bytes(size, k - 1)
  }

  lemma {:induction false} BytesIsProduct(size: nat, k: nat)
    ensures Bytes(size, k) == size * k
  {
    if 0 < k {
      BytesIsProduct(size, k - 1);
      assert size * k == size * (k - 1) + size;
    }
  }

  lemma {:induction false} FlatSize(records: seq<seq<byte>>, size: nat)
    requires AllOfSize(records, size)
    ensures |Flat(records)| == Bytes(size, |records|)
  {
    if records != [] {
      FlatSize(records[1..], size);
    }
  }

  /** `ParseRecords` reads as many of the n records as fit, and is complete exactly if all do. */
  lemma {:induction false} RecordsShape(f: seq<byte>, pos: nat, end: nat, size: nat, n: nat)
    requires 0 < size && pos <= end <= |f|
    ensures var p := ParseRecords(f, pos, end, size, n);
            && |p.records| <= n
            && p.complete == (|p.records| == n)
            && p.next == pos + Bytes(size, |p.records|)
            && (|p.records| < n ==> end < p.next + size)
            && AllOfSize(p.records, size)
    decreases n
  {
    if 0 < n && pos + size <= end {
      RecordsShape(f, pos + size, end, size, n - 1);
    }
  }

  /** The i-th record read is the i-th slice of the bytes. */
  lemma {:induction false} RecordAt(f: seq<byte>, pos: nat, end: nat, size: nat, n: nat, i: nat)
    requires 0 < size && pos <= end <= |f| && i < |ParseRecords(f, pos, end, size, n).records|
    ensures var from, p := pos + Bytes(size, i), ParseRecords(f, pos, end, size, n);
            from + size <= p.next && p.records[i] == f[from..from + size]
    decreases n
  {
    if 0 < i {
      RecordAt(f, pos + size, end, size, n - 1, i - 1);
    }
  }

  /** Parsing what was laid out gives back the records, whatever follows them. */
  lemma {:induction false} ParseOfFlat(f: seq<byte>, pos: nat, end: nat, size: nat, records: seq<seq<byte>>)
    requires 0 < size && AllOfSize(records, size)
    requires pos + |Flat(records)| <= end <= |f| && f[pos..pos + |Flat(records)|] == Flat(records)
    ensures ParseRecords(f, pos, end, size, |records|) == Parsed(records, pos + |Flat(records)|, true)
    decreases |records|
  {
    if records != [] {
      var tail := Flat(records[1..]);
      var whole := f[pos..pos + |Flat(records)|];
      assert whole[..size] == records[0] && whole[size..] == tail;
      assert f[pos..pos + size] == whole[..size];
      assert f[pos + size..pos + size + |tail|] == whole[size..];
      ParseOfFlat(f, pos + size, end, size, records[1..]);
      assert [records[0]] + records[1..] == records;
    }
  }

  /** The bytes a parse has consumed are its records laid out. */
  lemma {:induction false} FlatOfParse(f: seq<byte>, pos: nat, end: nat, size: nat, n: nat)
    requires 0 < size && pos <= end <= |f|
    ensures var p := ParseRecords(f, pos, end, size, n);
            f[pos..p.next] == Flat(p.records)
    decreases n
  {
    if 0 < n && pos + size <= end {
      FlatOfParse(f, pos + size, end, size, n - 1);
      var q := ParseRecords(f, pos + size, end, size, n - 1);
      var p := ParseRecords(f, pos, end, size, n);
      assert p.records[1..] == q.records;
      assert f[pos..p.next] == f[pos..pos + size] + f[pos + size..p.next];
    }
  }

  /** A longer frame yields at least the same records exactly if it is not taken to end before the last
      of them does, and then the same parse if that was complete. */
  lemma {:induction false} RecordsExtend(f: seq<byte>, extra: seq<byte>, pos: nat, end: nat, end': nat, size: nat,
                                         n: nat)
    requires 0 < size && pos <= end <= |f| && pos <= end' <= |f + extra|
    ensures var p, p' := ParseRecords(f, pos, end, size, n), ParseRecords(f + extra, pos, end', size, n);
            && (p.records <= p'.records <==> p.next <= end')
            && (p.complete && p.next <= end' ==> p' == p)
            && (end' < p.next ==> |p'.records| < |p.records| && !p'.complete)
    decreases n
  {
    if 0 < n && pos + size <= end {
      assert (f + extra)[pos..pos + size] == f[pos..pos + size] || |f| < pos + size;
      if pos + size <= end' {
        RecordsExtend(f, extra, pos + size, end, end', size, n - 1);
        var q := ParseRecords(f, pos + size, end, size, n - 1);
        var q' := ParseRecords(f + extra, pos + size, end', size, n - 1);
        PrefixCancel([f[pos..pos + size]], q.records, q'.records);
      }
    }
  }

  lemma PrefixCancel<T>(a: seq<T>, b: seq<T>, b': seq<T>)
    ensures a + b <= a + b' <==> b <= b'
  {
    if a + b <= a + b' {
      assert (a + b)[|a|..] == b && (a + b')[|a|..] == b';
      assert (a + b')[..|a + b|] == a + b;
      assert (a + b')[|a|..|a + b|] == b;
    }
  }

  /** The records read lie before `end`. */
  predicate Before(p: Parsed, end: nat) {
    p.records == [] || p.next <= end
  }

  lemma CountedExtend(f: seq<byte>, extra: seq<byte>, pos: nat, end: nat, end': nat, size: nat)
    requires 0 < size && pos <= end <= |f| && pos <= end' <= |f + extra|
    ensures var p, p' := ParseCounted(f, pos, end, size), ParseCounted(f + extra, pos, end', size);
            && (p.records <= p'.records <==> Before(p, end'))
            && (p.complete && p.next <= end' ==> p' == p)
            && (end' < p.next ==> |p'.records| <= |p.records| && !p'.complete)
  {
    if pos < end {
      assert (f + extra)[pos] == f[pos];
      if pos < end' {
        RecordsExtend(f, extra, pos + 1, end, end', size, f[pos]);
      }
    }
  }

  // ----- the discover list -----

  /** The grammar of a counted list: its length in one byte, then its records. */
  function Counted(records: seq<seq<byte>>): seq<byte>
    requires |records| < 0x100
  {
    [|records| as byte] + Flat(records)
  }

  lemma ParseOfCounted(f: seq<byte>, pos: nat, end: nat, size: nat, records: seq<seq<byte>>)
    requires 0 < size && AllOfSize(records, size) && |records| < 0x100
    requires pos + |Counted(records)| <= end <= |f| && f[pos..pos + |Counted(records)|] == Counted(records)
    ensures ParseCounted(f, pos, end, size) == Parsed(records, pos + |Counted(records)|, true)
  {
    var whole := f[pos..pos + |Counted(records)|];
    assert whole[0] == f[pos] && whole[1..] == Flat(records);
    assert f[pos + 1..pos + 1 + |Flat(records)|] == whole[1..];
    ParseOfFlat(f, pos + 1, end, size, records);
  }

  lemma CountedOfParse(f: seq<byte>, pos: nat, end: nat, size: nat)
    requires 0 < size && pos <= end <= |f|
    requires ParseCounted(f, pos, end, size).complete
    ensures var p := ParseCounted(f, pos, end, size);
            AllOfSize(p.records, size) && |p.records| == f[pos] && f[pos..p.next] == Counted(p.records)
  {
    var p := ParseCounted(f, pos, end, size);
    RecordsShape(f, pos + 1, end, size, f[pos]);
    FlatOfParse(f, pos + 1, end, size, f[pos]);
    assert f[pos..p.next] == [f[pos]] + f[pos + 1..p.next];
  }

  /** The body of a discover-list confirm carrying these stations and networks. */
  ghost predicate DiscoverBody(body: seq<byte>, stations: seq<seq<byte>>, networks: seq<seq<byte>>) {
    && AllOfSize(stations, STATION_SIZE) && AllOfSize(networks, NETWORK_SIZE)
    && |stations| < 0x100 && |networks| < 0x100
    && Counted(stations) + Counted(networks) <= body
  }

  lemma DiscoverBodyParses(f: seq<byte>, end: nat, stations: seq<seq<byte>>, networks: seq<seq<byte>>)
    requires HEADER_SIZE <= end <= |f| && DiscoverBody(f[HEADER_SIZE..end], stations, networks)
    ensures ParseDiscover(f, HEADER_SIZE, end) == DiscoverParse(stations, networks, true)
  {
    var a, b := Counted(stations), Counted(networks);
    var mid := HEADER_SIZE + |a|;
    SplitPrefix(f, HEADER_SIZE, end, a, b);
    ParseOfCounted(f, HEADER_SIZE, end, STATION_SIZE, stations);
    ParseOfCounted(f, mid, end, NETWORK_SIZE, networks);
  }

  lemma SplitPrefix(f: seq<byte>, pos: nat, end: nat, a: seq<byte>, b: seq<byte>)
    requires pos <= end <= |f| && a + b <= f[pos..end]
    ensures f[pos..pos + |a|] == a && f[pos + |a|..pos + |a| + |b|] == b
  {
    var c := f[pos..end][..|a| + |b|];
    assert c == a + b && c[..|a|] == a && c[|a|..] == b;
    assert f[pos..pos + |a|] == c[..|a|] && f[pos + |a|..pos + |a| + |b|] == c[|a|..];
  }

  /** The decoder refines the two-list grammar: a parse is complete with these two lists exactly
      if the body, up to trailing padding, is their encoding. */
  lemma DiscoverGrammar(f: seq<byte>, end: nat, stations: seq<seq<byte>>, networks: seq<seq<byte>>)
    requires HEADER_SIZE <= end <= |f|
    ensures ParseDiscover(f, HEADER_SIZE, end) == DiscoverParse(stations, networks, true)
       <==> DiscoverBody(f[HEADER_SIZE..end], stations, networks)
  {
    var body := f[HEADER_SIZE..end];
    if DiscoverBody(body, stations, networks) {
      DiscoverBodyParses(f, end, stations, networks);
    }
    if ParseDiscover(f, HEADER_SIZE, end) == DiscoverParse(stations, networks, true) {
      var s := ParseCounted(f, HEADER_SIZE, end, STATION_SIZE);
      var n := ParseCounted(f, s.next, end, NETWORK_SIZE);
      CountedOfParse(f, HEADER_SIZE, end, STATION_SIZE);
      CountedOfParse(f, s.next, end, NETWORK_SIZE);
      assert f[HEADER_SIZE..n.next] == f[HEADER_SIZE..s.next] + f[s.next..n.next];
      assert f[HEADER_SIZE..n.next] <= body;
    }
  }

  /** `records` are the k consecutive slices of `size` bytes that start at `base`. */
  ghost predicate IsSlices(records: seq<seq<byte>>, f: seq<byte>, base: nat, size: nat, k: nat) {
    && |records| == k
    && forall i :: 0 <= i < k ==>
         var from := base + Bytes(size, i);
         from + size <= |f| && records[i] == f[from..from + size]
  }

  /** A counted list at `pos`: min(n, floor(room / size)) records are read, and all exactly if the list
      is complete. */
  lemma CountedReads(f: seq<byte>, pos: nat, end: nat, size: nat)
    requires pos < end <= |f| && 0 < size
    ensures var n: nat, p := f[pos], ParseCounted(f, pos, end, size);
            var k := Min(n, (end - pos - 1) / size);
            IsSlices(p.records, f, pos + 1, size, k) && p.complete == (k == n) && p.next == pos + 1 + size * k
  {
    RecordsThatFit(f, pos + 1, end, size, f[pos]);
    RecordsAreSlices(f, pos + 1, end, size, f[pos]);
  }

  lemma RecordsThatFit(f: seq<byte>, pos: nat, end: nat, size: nat, n: nat)
    requires 0 < size && pos <= end <= |f|
    ensures var p, k := ParseRecords(f, pos, end, size, n), Min(n, (end - pos) / size);
            |p.records| == k && p.complete == (k == n) && p.next == pos + size * k
  {
    var k := |ParseRecords(f, pos, end, size, n).records|;
    RecordsShape(f, pos, end, size, n);
    BytesIsProduct(size, k);
    BytesIsProduct(size, k + 1);
    DivFits(end - pos, k, size);
    DivFits(end - pos, k + 1, size);
  }

  lemma RecordsAreSlices(f: seq<byte>, pos: nat, end: nat, size: nat, n: nat)
    requires 0 < size && pos <= end <= |f|
    ensures var records := ParseRecords(f, pos, end, size, n).records; IsSlices(records, f, pos, size, |records|)
  {
    var records := ParseRecords(f, pos, end, size, n).records;
    forall i | 0 <= i < |records|
      ensures var from := pos + Bytes(size, i); from + size <= |f| && records[i] == f[from..from + size]
    {
      RecordAt(f, pos, end, size, n, i);
    }
  }

  // ----- the calls made to one slot -----

  function CallsTo(s: Slot, calls: seq<Call>): seq<Call> {
    if calls == [] then []
    else
      var last := |calls| - 1;
      CallsTo(s, calls[..last]) + if SlotOf(calls[last]) == s then [calls[last]] else []
  }

  lemma {:induction false} CallsToRecordCalls(s: Slot, slot: Slot, cb: Option<Callback>, osa: seq<byte>,
                                              records: seq<seq<byte>>)
    ensures var calls := RecordCalls(slot, cb, osa, records);
            CallsTo(s, calls) == if s == slot then calls else []
    decreases |records|
  {
    if cb.Some? && records != [] {
      var front := records[..|records| - 1];
      CallsToRecordCalls(s, slot, cb, osa, front);
      var calls := RecordCalls(slot, cb, osa, front);
      assert RecordCalls(slot, cb, osa, records)[..|calls|] == calls;
    }
  }

  lemma {:induction false} CallsToConcat(s: Slot, a: seq<Call>, b: seq<Call>)
    ensures CallsTo(s, a + b) == CallsTo(s, a) + CallsTo(s, b)
    decreases |b|
  {
    if b == [] {
      assert a + b == a;
    } else {
      assert (a + b)[..|a + b| - 1] == a + b[..|b| - 1];
      CallsToConcat(s, a, b[..|b| - 1]);
    }
  }

  /** The header checks of the dispatcher. */
  predicate HeaderOk(f: seq<byte>) {
    HEADER_SIZE <= |f| && EtherType(f) == ETHERTYPE && SwappedMmType(f) <= 0x7ffc && FragmentCount(f) == 0
  }

  /** The decoder of this frame type serves the slot. */
  predicate Serves(s: Slot, f: seq<byte>)
    requires HEADER_SIZE <= |f|
  {
    MmType(f) == CONFIRM + match s
      case StationSlot => CC_DISCOVER_LIST
      case NetworkSlot => CC_DISCOVER_LIST
      case NwInfoSlot => CM_NW_INFO
      case NwStatsSlot => CM_NW_STATS
      case LinkStatsSlot => CM_LINK_STATS
  }

  /** What a discover-list confirm causes at its two slots. */
  lemma DiscoverCalls(slots: Slots, f: seq<byte>)
    requires HeaderOk(f) && MmType(f) == CC_DISCOVER_LIST + CONFIRM
    ensures var p, o := ParseDiscover(f, HEADER_SIZE, End(f)), Outcome(slots, f);
            && CallsTo(StationSlot, o.calls) == RecordCalls(StationSlot, slots.station, Osa(f), p.stations)
            && CallsTo(NetworkSlot, o.calls) == RecordCalls(NetworkSlot, slots.network, Osa(f), p.networks)
            && (forall s :: s != StationSlot && s != NetworkSlot ==> CallsTo(s, o.calls) == [])
  {
    var p := ParseDiscover(f, HEADER_SIZE, End(f));
    var a := RecordCalls(StationSlot, slots.station, Osa(f), p.stations);
    var b := RecordCalls(NetworkSlot, slots.network, Osa(f), p.networks);
    forall s ensures CallsTo(s, a + b) == (if s == StationSlot then a else []) + (if s == NetworkSlot then b else []) {
      CallsToConcat(s, a, b);
      CallsToRecordCalls(s, StationSlot, slots.station, Osa(f), p.stations);
      CallsToRecordCalls(s, NetworkSlot, slots.network, Osa(f), p.networks);
    }
    assert a + [] == a && [] + b == b;
    assert slots.station.None? && slots.network.None? ==> Outcome(slots, f).calls == a + b;
  }

  /** Which records the discover-list decoder reads, for every frame of every length: the stations that
      fit, in order, then if they were complete the networks that fit. The decoder takes the frame to
      end at `End`, which is its real end unless the length does not fit an `int`. */
  lemma DiscoverReads(f: seq<byte>)
    requires HEADER_SIZE <= |f|
    ensures |f| - HEADER_SIZE <= INT_MAX ==> End(f) == |f|
    ensures End(f) < HEADER_SIZE + 2 ==> ParseDiscover(f, HEADER_SIZE, End(f)) == DiscoverParse([], [], false)
    ensures HEADER_SIZE + 2 <= End(f) ==>
      var end, n: nat := End(f), f[19];
      var k := Min(n, (end - 20) / 12);
      var p := ParseDiscover(f, HEADER_SIZE, end);
      && IsSlices(p.stations, f, 20, STATION_SIZE, k)
      && if k < n || end == 20 + 12 * n then p.networks == [] && !p.complete
         else
           var at := 20 + 12 * n;
           var m: nat := f[at];
           var j := Min(m, (end - at - 1) / 13);
           IsSlices(p.networks, f, at + 1, NETWORK_SIZE, j) && p.complete == (j == m)
  {
    RemainingBounds(|f|);
    var end := End(f);
    if HEADER_SIZE + 2 <= end {
      CountedReads(f, HEADER_SIZE, end, STATION_SIZE);
      var s := ParseCounted(f, HEADER_SIZE, end, STATION_SIZE);
      if s.complete && s.next < end {
        CountedReads(f, s.next, end, NETWORK_SIZE);
      }
    }
  }

  /** The result does not tell a complete discover list from a broken one: once either callback is
      registered the decoder always answers EXIT_FAILURE, unlike its siblings. */
  lemma DiscoverAlwaysFails(slots: Slots, f: seq<byte>)
    requires HeaderOk(f) && MmType(f) == CC_DISCOVER_LIST + CONFIRM
    ensures Outcome(slots, f).rc == EXIT_SUCCESS <==> slots.station.None? && slots.network.None?
  {
  }

  // ----- what is answered -----

  /** Where a list decoder takes a frame of any length to end. */
  lemma EndExactly(f: seq<byte>)
    requires HEADER_SIZE <= |f|
    ensures var n := (|f| - 19) % 0x1_0000_0000;
            Remaining(|f|) == (if n < 0x8000_0000 then n else n - 0x1_0000_0000)
            && End(f) == 19 + if n < 0x8000_0000 then n else 0
  {
    SizeThenInt(|f| - 19);
  }

  lemma SizeThenInt(x: nat)
    ensures ToSize(x) % 0x1_0000_0000 == x % 0x1_0000_0000
  {
    var q, r := x / 0x1_0000_0000_0000_0000, ToSize(x);
    var p, m := r / 0x1_0000_0000, r % 0x1_0000_0000;
    ModUnique(x, 0x1_0000_0000 * q + p, m, 0x1_0000_0000);
  }

  /** A counted list is all there exactly if the frame holds its count and that many records. */
  lemma CompleteExactly(f: seq<byte>, size: nat)
    requires HEADER_SIZE <= |f| && 0 < size
    ensures ParseCounted(f, HEADER_SIZE, End(f), size).complete <==> 19 < End(f) && 20 + size * f[19] <= End(f)
  {
    if 19 < End(f) {
      CountedReads(f, HEADER_SIZE, End(f), size);
      DivFits(Max(End(f) - 20, 0), f[19], size);
    }
  }

  /** The link-stats decoder refuses a frame of this length. */
  predicate TooShort(len: nat)
    requires HEADER_SIZE <= len
  {
    var r := ToSize(Remaining(len));
    r < CONFIRM_HEAD_SIZE || ToSize(ToInt(r - CONFIRM_HEAD_SIZE)) < RECEIVE_SIZE
  }

  /** It does so exactly if head and receive field do not fit what an `int` leaves of the length, taken as
      unsigned. */
  lemma TooShortExactly(len: nat)
    requires HEADER_SIZE <= len
    ensures TooShort(len) <==> (len - 19) % 0x1_0000_0000 < 36
  {
    var m := (len - 19) % 0x1_0000_0000;
    SizeThenInt(len - 19);
    if m < 0x8000_0000 {
      AnnouncedShort(m);
    } else {
      AnnouncedLong(m);
    }
  }

  /** The frame is one to answer with success: its header passes the checks, and if a callback is registered
      for its type, the decoder finds all it needs. A discover list is never such a frame. */
  predicate Accepted(slots: Slots, f: seq<byte>) {
    && 19 <= |f| && f[12] == 0x88 && f[13] == 0xe1
    && 0x100 * (f[15] as int) + f[16] <= 0x7ffc && f[17] % 16 == 0
    && (f[15] == 0x15 && f[16] == 0x00 ==> slots.station.None? && slots.network.None?)
    && (f[15] == 0x39 && f[16] == 0x60 ==> slots.nwInfo.None? || (19 < End(f) && 20 + 18 * f[19] <= End(f)))
    && (f[15] == 0x49 && f[16] == 0x60 ==> slots.nwStats.None? || (19 < End(f) && 20 + 8 * f[19] <= End(f)))
    && (f[15] == 0x4d && f[16] == 0x60 ==> slots.linkStats.None? || 36 <= (|f| - 19) % 0x1_0000_0000)
  }

  lemma TypeBytes(f: seq<byte>)
    requires HEADER_SIZE <= |f|
    ensures MmType(f) == CC_DISCOVER_LIST + CONFIRM <==> f[15] == 0x15 && f[16] == 0x00
    ensures MmType(f) == CM_NW_INFO + CONFIRM <==> f[15] == 0x39 && f[16] == 0x60
    ensures MmType(f) == CM_NW_STATS + CONFIRM <==> f[15] == 0x49 && f[16] == 0x60
    ensures MmType(f) == CM_LINK_STATS + CONFIRM <==> f[15] == 0x4d && f[16] == 0x60
  {
  }

  /** Success or failure, for every frame of every type and length and every set of registrations. */
  lemma AnsweredExactly(slots: Slots, f: seq<byte>)
    ensures Outcome(slots, f).rc == if Accepted(slots, f) then 0 else 1
    ensures !HeaderOk(f) ==> Outcome(slots, f).calls == []
  {
    if HeaderOk(f) {
      TypeBytes(f);
      CompleteExactly(f, NWINFO_SIZE);
      CompleteExactly(f, STATS_SIZE);
      TooShortExactly(|f|);
    }
  }

  // ----- padding -----

  lemma {:induction false} RecordCallsAt(slot: Slot, cb: Callback, osa: seq<byte>, records: seq<seq<byte>>)
    ensures var calls := RecordCalls(slot, Some(cb), osa, records);
            |calls| == |records| && forall i :: 0 <= i < |calls| ==> calls[i] == RecordCall(slot, cb, osa, records[i])
    decreases |records|
  {
    if records != [] {
      RecordCallsAt(slot, cb, osa, records[..|records| - 1]);
    }
  }

  lemma RecordCallsPrefix(slot: Slot, cb: Option<Callback>, osa: seq<byte>, a: seq<seq<byte>>, b: seq<seq<byte>>)
    ensures RecordCalls(slot, cb, osa, a) <= RecordCalls(slot, cb, osa, b) <==> cb.None? || a <= b
  {
    if cb.Some? {
      RecordCallsAt(slot, cb.value, osa, a);
      RecordCallsAt(slot, cb.value, osa, b);
      var x, y := RecordCalls(slot, cb, osa, a), RecordCalls(slot, cb, osa, b);
      if x <= y {
        forall i | 0 <= i < |a| ensures a[i] == b[i] {
          assert x[i] == y[i];
        }
      }
    }
  }

  /** The network list of a discover-list confirm, if there is one. */
  function Networks(f: seq<byte>, end: nat): Parsed
    requires HEADER_SIZE <= end <= |f|
  {
    var s := ParseCounted(f, HEADER_SIZE, end, STATION_SIZE);
    if HEADER_SIZE + 2 <= end && s.complete then ParseCounted(f, s.next, end, NETWORK_SIZE)
    else Parsed([], HEADER_SIZE, false)
  }

  /** A frame all of whose lists are there, and are all there in a frame taken to end at `end`. */
  predicate CompleteLists(f: seq<byte>, end: nat)
    requires HEADER_SIZE <= |f|
  {
    if MmType(f) == CC_DISCOVER_LIST + CONFIRM then CompleteBy(Networks(f, End(f)), end)
    else if MmType(f) == CM_NW_INFO + CONFIRM then CompleteBy(ParseCounted(f, HEADER_SIZE, End(f), NWINFO_SIZE), end)
    else MmType(f) == CM_NW_STATS + CONFIRM && CompleteBy(ParseCounted(f, HEADER_SIZE, End(f), STATS_SIZE), end)
  }

  predicate CompleteBy(p: Parsed, end: nat) {
    p.complete && p.next <= end
  }

  /** Both lists, as far as anyone is told of them. */
  predicate BothBefore(slots: Slots, s: Parsed, n: Parsed, end: nat) {
    (slots.station.None? || Before(s, end)) && (slots.network.None? || Before(n, end))
  }

  /** What the callbacks were told of `f` lies before the end the decoder takes `f + extra` to have; a
      link-stats callback is told of everything. */
  predicate Unharmed(slots: Slots, f: seq<byte>, extra: seq<byte>)
    requires HEADER_SIZE <= |f|
  {
    var end, end' := End(f), End(f + extra);
    if MmType(f) == CC_DISCOVER_LIST + CONFIRM then
      BothBefore(slots, ParseCounted(f, HEADER_SIZE, end, STATION_SIZE), Networks(f, end), end')
    else if MmType(f) == CM_NW_INFO + CONFIRM then
      slots.nwInfo.None? || Before(ParseCounted(f, HEADER_SIZE, end, NWINFO_SIZE), end')
    else if MmType(f) == CM_NW_STATS + CONFIRM then
      slots.nwStats.None? || Before(ParseCounted(f, HEADER_SIZE, end, STATS_SIZE), end')
    else
      MmType(f) == CM_LINK_STATS + CONFIRM ==> extra == [] || slots.linkStats.None? || TooShort(|f|)
  }

  lemma SameHeader(f: seq<byte>, extra: seq<byte>)
    requires HEADER_SIZE <= |f|
    ensures Osa(f + extra) == Osa(f) && EtherType(f + extra) == EtherType(f) && MmType(f + extra) == MmType(f)
    ensures SwappedMmType(f + extra) == SwappedMmType(f) && FragmentCount(f + extra) == FragmentCount(f)
    ensures |f + extra| - HEADER_SIZE <= INT_MAX ==> End(f) == |f| && End(f + extra) == |f| + |extra|
  {
    RemainingBounds(|f|);
    RemainingBounds(|f + extra|);
  }

  lemma DiscoverExtend(f: seq<byte>, extra: seq<byte>, end: nat, end': nat)
    requires HEADER_SIZE <= end <= |f| && HEADER_SIZE <= end' <= |f + extra|
    ensures var p, p' := ParseDiscover(f, HEADER_SIZE, end), ParseDiscover(f + extra, HEADER_SIZE, end');
            var s, n := ParseCounted(f, HEADER_SIZE, end, STATION_SIZE), Networks(f, end);
            && (p.stations <= p'.stations <==> Before(s, end'))
            && (p.networks <= p'.networks <==> Before(n, end'))
            && (p.networks != [] && s.next <= end' ==> p'.stations == p.stations)
            && (end' < s.next ==> p'.networks == [] && |p'.stations| <= |p.stations|)
            && (CompleteBy(n, end') ==> p.complete && p' == p)
  {
    CountedExtend(f, extra, HEADER_SIZE, end, end', STATION_SIZE);
    var s := ParseCounted(f, HEADER_SIZE, end, STATION_SIZE);
    if s.complete && s.next <= end' {
      CountedExtend(f, extra, s.next, end, end', NETWORK_SIZE);
    }
  }

  lemma CountedPadding(slot: Slot, cb: Option<Callback>, size: nat, f: seq<byte>, extra: seq<byte>)
    requires 0 < size && HEADER_SIZE <= |f|
    ensures var p := ParseCounted(f, HEADER_SIZE, End(f), size);
            var o, o' := CountedOutcome(slot, cb, size, f), CountedOutcome(slot, cb, size, f + extra);
            && (o.calls <= o'.calls <==> cb.None? || Before(p, End(f + extra)))
            && (CompleteBy(p, End(f + extra)) ==> o' == o)
  {
    SameHeader(f, extra);
    CountedExtend(f, extra, HEADER_SIZE, End(f), End(f + extra), size);
    RecordCallsPrefix(slot, cb, Osa(f), ParseCounted(f, HEADER_SIZE, End(f), size).records,
                      ParseCounted(f + extra, HEADER_SIZE, End(f + extra), size).records);
  }

  /** When the calls for two parses are a prefix: when the two lists are, as far as anyone is told. */
  lemma TwoListsPrefix(slots: Slots, osa: seq<byte>, p: DiscoverParse, p': DiscoverParse)
    requires p.networks != [] ==> p.stations == p'.stations || (p'.networks == [] && |p'.stations| <= |p.stations|)
    requires !(p.stations <= p'.stations) ==> p'.networks == []
    ensures var a, b := StationCalls(slots, osa, p), NetworkCalls(slots, osa, p);
            var a', b' := StationCalls(slots, osa, p'), NetworkCalls(slots, osa, p');
            a + b <= a' + b' <==>
              (slots.station.None? || p.stations <= p'.stations) && (slots.network.None? || p.networks <= p'.networks)
  {
    var a, b := StationCalls(slots, osa, p), NetworkCalls(slots, osa, p);
    var a', b' := StationCalls(slots, osa, p'), NetworkCalls(slots, osa, p');
    RecordCallsPrefix(StationSlot, slots.station, osa, p.stations, p'.stations);
    RecordCallsPrefix(NetworkSlot, slots.network, osa, p.networks, p'.networks);
    if slots.station.Some? {
      RecordCallsAt(StationSlot, slots.station.value, osa, p.stations);
      RecordCallsAt(StationSlot, slots.station.value, osa, p'.stations);
    }
    ConcatPrefix(a, b, a', b');
  }

  function StationCalls(slots: Slots, osa: seq<byte>, p: DiscoverParse): seq<Call> {
    RecordCalls(StationSlot, slots.station, osa, p.stations)
  }

  function NetworkCalls(slots: Slots, osa: seq<byte>, p: DiscoverParse): seq<Call> {
    RecordCalls(NetworkSlot, slots.network, osa, p.networks)
  }

  lemma ConcatPrefix<T>(a: seq<T>, b: seq<T>, a': seq<T>, b': seq<T>)
    requires b != [] ==> a == a' || (b' == [] && |a'| <= |a|)
    requires !(a <= a') ==> b' == []
    ensures a + b <= a' + b' <==> a <= a' && b <= b'
  {
    if b == [] {
      assert a + b == a;
      assert b' == [] ==> a' + b' == a';
    } else if a == a' {
      PrefixCancel(a, b, b');
    } else {
      assert a' + b' == a';
    }
  }

  lemma DiscoverPadding(slots: Slots, f: seq<byte>, extra: seq<byte>)
    requires HEADER_SIZE <= |f|
    ensures var end, end' := End(f), End(f + extra);
            var s, n := ParseCounted(f, HEADER_SIZE, end, STATION_SIZE), Networks(f, end);
            var o, o' := DiscoverOutcome(slots, f), DiscoverOutcome(slots, f + extra);
            && (o.calls <= o'.calls <==> BothBefore(slots, s, n, end'))
            && (CompleteBy(n, end') ==> o' == o)
  {
    SameHeader(f, extra);
    DiscoverExtend(f, extra, End(f), End(f + extra));
    var p := ParseDiscover(f, HEADER_SIZE, End(f));
    var p' := ParseDiscover(f + extra, HEADER_SIZE, End(f + extra));
    TwoListsPrefix(slots, Osa(f), p, p');
  }

  lemma LinkStatsCalls(cb: Option<Callback>, f: seq<byte>)
    requires HEADER_SIZE <= |f|
    ensures var calls := LinkStatsOutcome(cb, f).calls;
            && (calls == [] <==> cb.None? || TooShort(|f|))
            && (calls != [] ==> |calls| == 1 && calls[0].LinkStatsCall? && |calls[0].tail| == |f| - 21)
  {
    RemainingBounds(|f|);
  }

  lemma LongerTail(cb: Option<Callback>, f: seq<byte>, extra: seq<byte>)
    requires HEADER_SIZE <= |f| && extra != []
    ensures LinkStatsOutcome(cb, f).calls <= LinkStatsOutcome(cb, f + extra).calls <==> cb.None? || TooShort(|f|)
  {
    LinkStatsCalls(cb, f);
    LinkStatsCalls(cb, f + extra);
    var x, y := LinkStatsOutcome(cb, f).calls, LinkStatsOutcome(cb, f + extra).calls;
    assert x != [] && y != [] ==> x[0] != y[0];
  }

  lemma LinkStatsPadding(cb: Option<Callback>, f: seq<byte>, extra: seq<byte>)
    requires HEADER_SIZE <= |f|
    ensures LinkStatsOutcome(cb, f).calls <= LinkStatsOutcome(cb, f + extra).calls
       <==> extra == [] || cb.None? || TooShort(|f|)
  {
    if extra == [] {
      assert f + extra == f;
    } else {
      LongerTail(cb, f, extra);
    }
  }

  /** Exactly when appended bytes leave the calls made for a frame a prefix of the calls made for the longer
      one, for all frames and all lengths: when every record reported lies before the end that the longer
      frame is taken to have; a link-stats callback must not have been called. Where a list was complete by
      then, the outcome does not change at all. */
  lemma PaddingExactly(slots: Slots, f: seq<byte>, extra: seq<byte>)
    ensures Outcome(slots, f).calls <= Outcome(slots, f + extra).calls
       <==> !HeaderOk(f) || Unharmed(slots, f, extra)
    ensures HEADER_SIZE <= |f| && CompleteLists(f, End(f + extra)) ==> Outcome(slots, f + extra) == Outcome(slots, f)
  {
    if HEADER_SIZE <= |f| {
      SameHeader(f, extra);
    }
    if HeaderOk(f) {
      if MmType(f) == CC_DISCOVER_LIST + CONFIRM {
        DiscoverPadding(slots, f, extra);
      } else if MmType(f) == CM_LINK_STATS + CONFIRM {
        LinkStatsPadding(slots.linkStats, f, extra);
      } else {
        CountedPadding(NwInfoSlot, slots.nwInfo, NWINFO_SIZE, f, extra);
        CountedPadding(NwStatsSlot, slots.nwStats, STATS_SIZE, f, extra);
      }
    }
  }

  /** So while its length fits an `int` padding never harms a frame of a list type, and does not change the
      outcome of complete lists; it harms a link-stats confirm exactly if that is long enough to be served. */
  lemma PaddingInsensitive(slots: Slots, f: seq<byte>, extra: seq<byte>)
    requires HeaderOk(f) && |f + extra| - HEADER_SIZE <= INT_MAX
    ensures MmType(f) != CM_LINK_STATS + CONFIRM ==>
              && Outcome(slots, f).calls <= Outcome(slots, f + extra).calls
              && (CompleteLists(f, |f|) ==> Outcome(slots, f + extra) == Outcome(slots, f))
    ensures MmType(f) == CM_LINK_STATS + CONFIRM ==>
              (Outcome(slots, f).calls <= Outcome(slots, f + extra).calls
          <==> extra == [] || slots.linkStats.None? || |f| < HEADER_SIZE + CONFIRM_HEAD_SIZE + RECEIVE_SIZE)
  {
    PaddingExactly(slots, f, extra);
    SameHeader(f, extra);
    TooShortExactly(|f|);
  }

  /** The link-stats callback, in contrast, sees the padding: a longer frame means a longer
      payload behind the same head. */
  lemma LinkStatsSeesPadding(slots: Slots, f: seq<byte>, extra: seq<byte>)
    requires HeaderOk(f) && MmType(f) == CM_LINK_STATS + CONFIRM && slots.linkStats.Some?
    requires HEADER_SIZE + CONFIRM_HEAD_SIZE + RECEIVE_SIZE <= |f| && |f + extra| - HEADER_SIZE <= INT_MAX
    ensures var o, o' := Outcome(slots, f), Outcome(slots, f + extra);
            && |o.calls| == |o'.calls| == 1 && o.calls[0].LinkStatsCall? && o'.rc == o.rc == EXIT_SUCCESS
            && var c := o.calls[0];
               c.len == |c.tail| && o'.calls[0] == c.(tail := c.tail + extra, len := c.len + |extra|)
  {
    SameHeader(f, extra);
    RemainingBounds(|f|);
    RemainingBounds(|f + extra|);
    AnnouncedLength(|f| - HEADER_SIZE);
    AnnouncedLength(|f + extra| - HEADER_SIZE);
    assert (f + extra)[21..] == f[21..] + extra && (f + extra)[19..21] == f[19..21];
  }

  // ----- memory -----

  function SizeOf(s: Slot): nat {
    match s
    case StationSlot => STATION_SIZE
    case NetworkSlot => NETWORK_SIZE
    case NwInfoSlot => NWINFO_SIZE
    case NwStatsSlot => STATS_SIZE
    case LinkStatsSlot => RECEIVE_SIZE
  }

  /** The record is a slice of the frame behind the header. */
  ghost predicate InFrame(record: seq<byte>, f: seq<byte>) {
    exists from: nat :: InFrameAt(record, f, from)
  }

  ghost predicate InFrameAt(record: seq<byte>, f: seq<byte>, from: nat) {
    HEADER_SIZE <= from && from + |record| <= |f| && record == f[from..from + |record|]
  }

  lemma {:induction false} RecordCallsInFrame(slot: Slot, cb: Option<Callback>, f: seq<byte>, records: seq<seq<byte>>)
    requires HEADER_SIZE <= |f| && AllOfSize(records, SizeOf(slot)) && forall r :: r in records ==> InFrame(r, f)
    ensures forall c :: c in RecordCalls(slot, cb, Osa(f), records) ==>
              c.RecordCall? && |c.record| == SizeOf(c.slot) && InFrame(c.record, f)
    decreases |records|
  {
    if records != [] {
      RecordCallsInFrame(slot, cb, f, records[..|records| - 1]);
    }
  }

  lemma ParsedInFrame(f: seq<byte>, pos: nat, end: nat, size: nat)
    requires 0 < size && HEADER_SIZE <= pos <= end <= |f|
    ensures var p := ParseCounted(f, pos, end, size);
            AllOfSize(p.records, size) && forall r :: r in p.records ==> InFrame(r, f)
  {
    if pos < end {
      var p := ParseCounted(f, pos, end, size);
      RecordsShape(f, pos + 1, end, size, f[pos]);
      forall i | 0 <= i < |p.records| ensures InFrame(p.records[i], f) {
        RecordAt(f, pos + 1, end, size, f[pos], i);
        var from := pos + 1 + Bytes(size, i);
        assert InFrameAt(p.records[i], f, from);
      }
    }
  }

  /** For every frame of every length, each record passed to a callback has its record type's size
      and lies wholly inside the frame. */
  lemma RecordsInFrame(slots: Slots, f: seq<byte>)
    ensures forall c :: c in Outcome(slots, f).calls && c.RecordCall? ==>
              |c.record| == SizeOf(c.slot) && InFrame(c.record, f)
  {
    if HeaderOk(f) {
      var end := End(f);
      if MmType(f) == CC_DISCOVER_LIST + CONFIRM {
        var p := ParseDiscover(f, HEADER_SIZE, end);
        var s := ParseCounted(f, HEADER_SIZE, end, STATION_SIZE);
        ParsedInFrame(f, HEADER_SIZE, end, STATION_SIZE);
        ParsedInFrame(f, s.next, end, NETWORK_SIZE);
        RecordCallsInFrame(StationSlot, slots.station, f, p.stations);
        RecordCallsInFrame(NetworkSlot, slots.network, f, p.networks);
      } else {
        ParsedInFrame(f, HEADER_SIZE, end, NWINFO_SIZE);
        ParsedInFrame(f, HEADER_SIZE, end, STATS_SIZE);
        RecordCallsInFrame(NwInfoSlot, slots.nwInfo, f, ParseCounted(f, HEADER_SIZE, end, NWINFO_SIZE).records);
        RecordCallsInFrame(NwStatsSlot, slots.nwStats, f, ParseCounted(f, HEADER_SIZE, end, STATS_SIZE).records);
      }
    }
  }

  /** The length announced to the link-stats callback stays inside the frame unless the frame's
      length, cast to `int`, turns negative; the subtraction of the head brings two such lengths
      back into range. */
  lemma LinkStatsLengthInFrame(slots: Slots, f: seq<byte>)
    requires |f| < 0x8000_0000_0000_0000 // the largest object C allows
    requires HeaderOk(f) && MmType(f) == CM_LINK_STATS + CONFIRM && Outcome(slots, f).calls != []
    ensures |Outcome(slots, f).calls| == 1 && Outcome(slots, f).calls[0].LinkStatsCall?
    ensures var c := Outcome(slots, f).calls[0];
            && (c.len <= |c.tail| <==> (|f| - HEADER_SIZE) % 0x1_0000_0000 < 0x8000_0002)
            && (|f| - HEADER_SIZE <= INT_MAX ==> c.len == |c.tail|)
  {
    AnnouncedLength(|f| - HEADER_SIZE);
  }

  /** The shortest frame whose announced length leaves it: 2 GiB and two bytes behind the header. The callback
      is told of nearly 2^64 bytes. */
  lemma LinkStatsLengthLeavesFrame(slots: Slots) returns (f: seq<byte>)
    requires slots.linkStats.Some?
    ensures |f| == HEADER_SIZE + 0x8000_0002 && HeaderOk(f) && MmType(f) == CM_LINK_STATS + CONFIRM
    ensures |Outcome(slots, f).calls| == 1 && Outcome(slots, f).calls[0].LinkStatsCall?
    ensures Outcome(slots, f).calls[0].len == 0xffff_ffff_8000_0000
  {
    f := Zeros(12) + [0x88, 0xe1, 0, 0x4d, 0x60, 0, 0] + Zeros(0x8000_0002);
    assert f[12] == 0x88 && f[13] == 0xe1 && f[15] == 0x4d && f[16] == 0x60 && f[17] == 0;
    AnnouncedLong(0x8000_0002);
  }

  lemma AnnouncedLength(n: nat)
    requires n < 0x8000_0000_0000_0000
    ensures var len := ToSize(ToInt(ToSize(ToInt(ToSize(n))) - CONFIRM_HEAD_SIZE));
            CONFIRM_HEAD_SIZE <= ToSize(ToInt(ToSize(n))) ==>
              && (len <= n - 2 <==> n % 0x1_0000_0000 < 0x8000_0002)
              && (n <= INT_MAX ==> len == n - 2)
  {
    var m := n % 0x1_0000_0000;
    SizeFits(n);
    if m < 0x8000_0000 {
      AnnouncedShort(m);
    } else {
      AnnouncedLong(m);
    }
  }

  lemma AnnouncedShort(m: nat)
    requires m < 0x8000_0000
    ensures ToSize(m) == m && (2 <= m ==> ToSize(ToInt(m - 2)) == m - 2)
  {
    if 2 <= m {
      ModUnique(m - 2, 0, m - 2, 0x1_0000_0000);
    }
  }

  /** A length whose `int` is negative: the subtraction of the head, modulo 2^32. */
  lemma AnnouncedLong(m: nat)
    requires 0x8000_0000 <= m < 0x1_0000_0000
    ensures var r := m - 0x1_0000_0000;
            ToSize(ToInt(ToSize(r) - 2)) == if m < 0x8000_0002 then m - 2 else 0xffff_ffff_0000_0000 + m - 2
  {
    var r := m - 0x1_0000_0000;
    assert ToSize(r) == r + 0x1_0000_0000_0000_0000;
    ModUnique(ToSize(r) - 2, 0xffff_ffff, m - 2, 0x1_0000_0000);
  }

  // ----- noninterference -----

  /** The registrations after a history of calls to the register functions. */
  function SlotsAfter(history: seq<(Slot, Option<Callback>)>): Slots {
    if history == [] then Slots(None, None, None, None, None)
    else
      var last := |history| - 1;
      SetSlot(SlotsAfter(history[..last]), history[last].0, history[last].1)
  }

  /** The part of a history that concerns one slot. */
  function HistoryOf(s: Slot, history: seq<(Slot, Option<Callback>)>): seq<(Slot, Option<Callback>)> {
    if history == [] then []
    else
      var last := |history| - 1;
      HistoryOf(s, history[..last]) + if history[last].0 == s then [history[last]] else []
  }

  lemma GetAfterSet(slots: Slots, x: Slot, cb: Option<Callback>, s: Slot)
    ensures SetSlot(slots, x, cb).Get(s) == if x == s then cb else slots.Get(s)
  {
    match x case StationSlot => case NetworkSlot => case NwInfoSlot => case NwStatsSlot => case LinkStatsSlot =>
  }

  lemma {:induction false} SlotAfterOwnHistory(s: Slot, history: seq<(Slot, Option<Callback>)>)
    ensures SlotsAfter(history).Get(s) == SlotsAfter(HistoryOf(s, history)).Get(s)
    decreases |history|
  {
    if history != [] {
      var last := |history| - 1;
      SlotAfterOwnHistory(s, history[..last]);
      GetAfterSet(SlotsAfter(history[..last]), history[last].0, history[last].1, s);
      if history[last].0 == s {
        GetAfterSet(SlotsAfter(HistoryOf(s, history[..last])), s, history[last].1, s);
        assert HistoryOf(s, history)[..|HistoryOf(s, history)| - 1] == HistoryOf(s, history[..last]);
      } else {
        assert HistoryOf(s, history[..last]) + [] == HistoryOf(s, history[..last]);
      }
    }
  }

  lemma CountedCalls(s: Slot, slot: Slot, cb: Option<Callback>, size: nat, f: seq<byte>)
    requires HEADER_SIZE <= |f| && 0 < size
    ensures var calls := CountedOutcome(slot, cb, size, f).calls;
            CallsTo(s, calls) == if s == slot then calls else []
  {
    CallsToRecordCalls(s, slot, cb, Osa(f), ParseCounted(f, HEADER_SIZE, End(f), size).records);
  }

  /** The outcome of a frame served by one slot only, as a function of that slot. */
  function Served(s: Slot, cb: Option<Callback>, f: seq<byte>): Result
    requires HEADER_SIZE <= |f|
  {
    if cb.None? then Result(EXIT_SUCCESS, [])
    else if s == NwInfoSlot then CountedOutcome(NwInfoSlot, cb, NWINFO_SIZE, f)
    else if s == NwStatsSlot then CountedOutcome(NwStatsSlot, cb, STATS_SIZE, f)
    else LinkStatsOutcome(cb, f)
  }

  lemma OutcomeIsServed(x: Slots, t: Slot, f: seq<byte>)
    requires HeaderOk(f) && Serves(t, f) && t != StationSlot && t != NetworkSlot
    ensures Outcome(x, f) == Served(t, x.Get(t), f)
  {
  }

  lemma ServedCalls(t: Slot, cb: Option<Callback>, s: Slot, f: seq<byte>)
    requires HEADER_SIZE <= |f| && t != StationSlot && t != NetworkSlot
    ensures CallsTo(s, Served(t, cb, f).calls) == if s == t then Served(t, cb, f).calls else []
  {
    if cb.None? {
    } else if t == NwInfoSlot {
      CountedCalls(s, NwInfoSlot, cb, NWINFO_SIZE, f);
    } else if t == NwStatsSlot {
      CountedCalls(s, NwStatsSlot, cb, STATS_SIZE, f);
    } else {
      var o := LinkStatsOutcome(cb, f).calls;
      if o != [] {
        assert |o| == 1 && o[..0] == [] && SlotOf(o[0]) == LinkStatsSlot;
      }
    }
  }

  /** The calls to a slot, as a function of that slot's registration. */
  function CallsAt(s: Slot, cb: Option<Callback>, f: seq<byte>): seq<Call> {
    if !HeaderOk(f) || !Serves(s, f) then []
    else if s == StationSlot then RecordCalls(s, cb, Osa(f), ParseDiscover(f, HEADER_SIZE, End(f)).stations)
    else if s == NetworkSlot then RecordCalls(s, cb, Osa(f), ParseDiscover(f, HEADER_SIZE, End(f)).networks)
    else Served(s, cb, f).calls
  }

  lemma CallsWhenServed(x: Slots, t: Slot, s: Slot, f: seq<byte>)
    requires HeaderOk(f) && Serves(t, f) && t != StationSlot && t != NetworkSlot
    ensures CallsTo(s, Outcome(x, f).calls) == CallsAt(s, x.Get(s), f)
  {
    OutcomeIsServed(x, t, f);
    ServedCalls(t, x.Get(t), s, f);
    assert s != t ==> !Serves(s, f);
  }

  lemma CallsAtSlot(x: Slots, s: Slot, f: seq<byte>)
    ensures CallsTo(s, Outcome(x, f).calls) == CallsAt(s, x.Get(s), f)
  {
    if !HeaderOk(f) {
      assert Outcome(x, f).calls == [];
    } else if MmType(f) == CC_DISCOVER_LIST + CONFIRM {
      DiscoverCalls(x, f);
    } else if Serves(NwInfoSlot, f) {
      CallsWhenServed(x, NwInfoSlot, s, f);
    } else if Serves(NwStatsSlot, f) {
      CallsWhenServed(x, NwStatsSlot, s, f);
    } else if Serves(LinkStatsSlot, f) {
      CallsWhenServed(x, LinkStatsSlot, s, f);
    } else {
      assert Outcome(x, f).calls == [] && !Serves(s, f);
    }
  }

  lemma SameSlotSameResult(a: Slots, b: Slots, s: Slot, f: seq<byte>)
    requires a.Get(s) == b.Get(s) && a.Get(s).Some? && HeaderOk(f) && Serves(s, f)
    ensures Outcome(a, f).rc == Outcome(b, f).rc
  {
    if s != StationSlot && s != NetworkSlot {
      OutcomeIsServed(a, s, f);
      OutcomeIsServed(b, s, f);
    }
  }

  /** Registrations do not interfere: what a slot's callback sees of a frame depends only on the
      part of the registration history that concerns this slot, and so does the result whenever
      the slot is registered and the frame is one its decoder serves. */
  lemma RegistrationsDoNotInterfere(a: seq<(Slot, Option<Callback>)>, b: seq<(Slot, Option<Callback>)>, s: Slot,
                                    f: seq<byte>)
    requires HistoryOf(s, a) == HistoryOf(s, b)
    ensures CallsTo(s, Outcome(SlotsAfter(a), f).calls) == CallsTo(s, Outcome(SlotsAfter(b), f).calls)
    ensures HeaderOk(f) && Serves(s, f) && SlotsAfter(a).Get(s).Some? ==>
              Outcome(SlotsAfter(a), f).rc == Outcome(SlotsAfter(b), f).rc
  {
    SlotAfterOwnHistory(s, a);
    SlotAfterOwnHistory(s, b);
    CallsAtSlot(SlotsAfter(a), s, f);
    CallsAtSlot(SlotsAfter(b), s, f);
    if HeaderOk(f) && Serves(s, f) && SlotsAfter(a).Get(s).Some? {
      SameSlotSameResult(SlotsAfter(a), SlotsAfter(b), s, f);
    }
  }

  // ----- the category filter -----

  /** The filter is meant to reject manufacturer and vendor specific types, but swaps the bytes of
      `mmtype`, which the switch and the sender use unswapped. It classifies a type as meant
      exactly if both bytes lie in the same half of their range, or one is 0x7f and the other
      above 0xfc. */
  lemma FilterAsMeant(f: seq<byte>)
    requires HEADER_SIZE <= |f|
    ensures (SwappedMmType(f) > 0x7ffc <==> MmType(f) > 0x7ffc)
       <==> ((f[15] < 0x80 <==> f[16] < 0x80) || (f[15] == 0x7f && f[16] > 0xfc) || (f[16] == 0x7f && f[15] > 0xfc))
  {
  }

  /** So a vendor-specific frame passes the filter and is answered with EXIT_SUCCESS. */
  lemma VendorTypePasses(slots: Slots)
    ensures var f := Zeros(12) + [0x88, 0xe1, 0, 0x00, 0xa0, 0, 0];
            MmType(f) == 0xa000 && Outcome(slots, f) == Result(EXIT_SUCCESS, [])
  {
    var f: seq<byte> := Zeros(12) + [0x88, 0xe1, 0, 0x00, 0xa0, 0, 0];
    assert f[12] == 0x88 && f[13] == 0xe1 && f[15] == 0 && f[16] == 0xa0 && f[17] == 0;
  }

  /** But the filter never stands in the way of a frame that has a decoder. */
  lemma ServedTypesPass(s: Slot, f: seq<byte>)
    requires HEADER_SIZE <= |f| && Serves(s, f)
    ensures SwappedMmType(f) <= 0x7ffc
  {
    assert f[16] == MmType(f) / 0x100 && f[15] == MmType(f) % 0x100;
  }
}
