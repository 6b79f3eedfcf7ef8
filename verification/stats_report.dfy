/** The comparison of two stations' link statistics (`print_link_stats` in bin/hpav_stats.py). */
module StatsReport {
  import opened CTypes
  import opened Codec
  import opened StatsReceiver
  import Records

  /** The values a receive or transmit section contributes. */
  datatype RxEntry = RxEntry(lid: nat, mpdus: nat)
  datatype TxEntry = TxEntry(lid: nat, mpdus: nat, sacks: nat)

  datatype Line =
    | Missing(lid: nat)
    | RxLine(lid: nat, received: nat, sent: nat, delta: int, percent: real)
    | TxLine(lid: nat, sent: nat, acked: nat, delta: int, percent: real)

  /** The printed lines, and whether a ZeroDivisionError ended them. */
  datatype Report = Report(lines: seq<Line>, raised: bool)

  // ----- entries of sections -----

  function U32(b: seq<byte>, at: nat): uint32
    requires at + 4 <= |b|
  {
    b[at] + 0x100 * (b[at + 1] as int) + 0x1_0000 * (b[at + 2] as int) + 0x100_0000 * (b[at + 3] as int)
  }

  function RxOf(x: Section): RxEntry
    requires x.LinkSection? && |x.field| == RECEIVE_SIZE
  {
    RxEntry(x.reqId, U32(x.field, 26))
  }

  function TxOf(x: Section): TxEntry
    requires x.LinkSection? && |x.field| == TRANSMIT_SIZE
  {
    TxEntry(x.reqId, U32(x.field, 26), U32(x.field, 34))
  }

  /** The four bytes from `at` on are this number, the low byte first. */
  predicate Holds(b: seq<byte>, at: nat, x: uint32) {
    && at + 4 <= |b|
    && x == b[at] + 0x100 * (b[at + 1] as int) + 0x1_0000 * (b[at + 2] as int) + 0x100_0000 * (b[at + 3] as int)
  }

  lemma HoldsLe32(b: seq<byte>, at: nat, x: uint32)
    requires at + 4 <= |b| && b[at..at + 4] == Records.Le32(x)
    ensures Holds(b, at, x) && U32(b, at) == x
  {
    var s := b[at..at + 4];
    assert s[0] == b[at] && s[1] == b[at + 1] && s[2] == b[at + 2] && s[3] == b[at + 3];
    BytesOf(x);
  }

  lemma BytesOf(x: uint32)
    ensures x % 0x100 + 0x100 * (x / 0x100 % 0x100) + 0x1_0000 * (x / 0x1_0000 % 0x100)
            + 0x100_0000 * (x / 0x100_0000) == x
  {
    var q := x / 0x100;
    var r := q / 0x100;
    assert r == x / 0x1_0000 && r / 0x100 == x / 0x100_0000;
    assert x == 0x100 * q + x % 0x100 && q == 0x100 * r + q % 0x100 && r == 0x100 * (r / 0x100) + r % 0x100;
  }

  /** The counters of a receive record, each at its offset. */
  lemma EntriesOfReceive(r: Records.Receive)
    ensures var b := Records.EncodeReceive(r);
            && b[0] + 0x100 * (b[1] as int) == r.beaconPeriods
            && Holds(b, 2, r.msdus) && Holds(b, 6, r.octets) && Holds(b, 10, r.segOk) && Holds(b, 14, r.segMissed)
            && Holds(b, 18, r.pbs) && Holds(b, 22, r.bursts) && Holds(b, 26, r.mpdus) && Holds(b, 30, r.icvFails)
            && U32(b, 26) == r.mpdus
  {
    var b := Records.EncodeReceive(r);
    ReceiveSlices(r);
    HoldsLe32(b, 2, r.msdus);
    HoldsLe32(b, 6, r.octets);
    HoldsLe32(b, 10, r.segOk);
    HoldsLe32(b, 14, r.segMissed);
    HoldsLe32(b, 18, r.pbs);
    HoldsLe32(b, 22, r.bursts);
    HoldsLe32(b, 26, r.mpdus);
    HoldsLe32(b, 30, r.icvFails);
  }

  lemma ReceiveSlices(r: Records.Receive)
    ensures var b := Records.EncodeReceive(r);
            && b[2..6] == Records.Le32(r.msdus) && b[6..10] == Records.Le32(r.octets)
            && b[10..14] == Records.Le32(r.segOk) && b[14..18] == Records.Le32(r.segMissed)
            && b[18..22] == Records.Le32(r.pbs) && b[22..26] == Records.Le32(r.bursts)
            && b[26..30] == Records.Le32(r.mpdus) && b[30..34] == Records.Le32(r.icvFails)
  {
  }

  /** And those of a transmit record. */
  lemma EntriesOfTransmit(t: Records.Transmit)
    ensures var b := Records.EncodeTransmit(t);
            && b[0] + 0x100 * (b[1] as int) == t.beaconPeriods
            && Holds(b, 2, t.msdus) && Holds(b, 6, t.octets) && Holds(b, 10, t.segs) && Holds(b, 14, t.segOk)
            && Holds(b, 18, t.segDropped) && Holds(b, 22, t.pbs) && Holds(b, 26, t.mpdus) && Holds(b, 30, t.bursts)
            && Holds(b, 34, t.sacks) && b[38] == t.latBins
            && U32(b, 26) == t.mpdus && U32(b, 34) == t.sacks
  {
    var b := Records.EncodeTransmit(t);
    TransmitSlices(t);
    HoldsLe32(b, 2, t.msdus);
    HoldsLe32(b, 6, t.octets);
    HoldsLe32(b, 10, t.segs);
    HoldsLe32(b, 14, t.segOk);
    HoldsLe32(b, 18, t.segDropped);
    HoldsLe32(b, 22, t.pbs);
    HoldsLe32(b, 26, t.mpdus);
    HoldsLe32(b, 30, t.bursts);
    HoldsLe32(b, 34, t.sacks);
  }

  lemma TransmitSlices(t: Records.Transmit)
    ensures var b := Records.EncodeTransmit(t);
            && b[2..6] == Records.Le32(t.msdus) && b[6..10] == Records.Le32(t.octets)
            && b[10..14] == Records.Le32(t.segs) && b[14..18] == Records.Le32(t.segOk)
            && b[18..22] == Records.Le32(t.segDropped) && b[22..26] == Records.Le32(t.pbs)
            && b[26..30] == Records.Le32(t.mpdus) && b[30..34] == Records.Le32(t.bursts)
            && b[34..38] == Records.Le32(t.sacks) && b[38] == t.latBins
  {
  }

  // ----- the report -----

  /** The last transmit entry with this lid. */
  function LastMatch(tx: seq<TxEntry>, lid: nat): Option<TxEntry> {
    if tx == [] then None
    else if tx[|tx| - 1].lid == lid then Some(tx[|tx| - 1])
    else LastMatch(tx[..|tx| - 1], lid)
  }

  predicate IsLast(tx: seq<TxEntry>, lid: nat, j: nat)
    requires j < |tx|
  {
    tx[j].lid == lid && forall k :: j < k < |tx| ==> tx[k].lid != lid
  }

  lemma {:induction false} LastMatchIsLast(tx: seq<TxEntry>, lid: nat)
    ensures LastMatch(tx, lid) == None <==> forall e :: e in tx ==> e.lid != lid
    ensures LastMatch(tx, lid).Some? ==>
              exists j :: 0 <= j < |tx| && IsLast(tx, lid, j) && LastMatch(tx, lid).value == tx[j]
    decreases |tx|
  {
    if tx != [] {
      var last := |tx| - 1;
      if tx[last].lid == lid {
        assert IsLast(tx, lid, last);
      } else {
        LastMatchIsLast(tx[..last], lid);
        assert tx == tx[..last] + [tx[last]];
        assert forall j :: 0 <= j < last && IsLast(tx[..last], lid, j) ==> IsLast(tx, lid, j) && tx[..last][j] == tx[j];
      }
    }
  }

  function Percent(base: nat, delta: int): real
    requires base != 0
  {
    100.0 / (base as real) * (delta as real)
  }

  lemma PercentMeans(base: nat, delta: int)
    requires base != 0
    ensures Percent(base, delta) * (base as real) == 100.0 * (delta as real)
  {
    var b, d := base as real, delta as real;
    var q := 100.0 / b;
    assert q * b == 100.0;
    assert (q * d) * b == (q * b) * d;
  }

  /** The line for an entry; `None` where it raises. */
  function JoinLine(e: RxEntry, tx: seq<TxEntry>): Option<Line> {
    var m := LastMatch(tx, e.lid);
    if m.None? then Some(Missing(e.lid))
    else
      var sent := m.value.mpdus;
      if sent == 0 then None else Some(RxLine(e.lid, e.mpdus, sent, e.mpdus - sent, Percent(sent, e.mpdus - sent)))
  }

  function AckLine(e: TxEntry): Option<Line> {
    if e.mpdus == 0 then None
    else Some(TxLine(e.lid, e.mpdus, e.sacks, e.sacks - e.mpdus, Percent(e.mpdus, e.sacks - e.mpdus)))
  }

  /** The lines to print, entry by entry. */
  function AllLines(rxA: seq<RxEntry>, txA: seq<TxEntry>, txB: seq<TxEntry>): (s: seq<Option<Line>>)
    ensures |s| == |rxA| + |txA|
    ensures forall i :: 0 <= i < |rxA| ==> s[i] == JoinLine(rxA[i], txB)
    ensures forall i :: 0 <= i < |txA| ==> s[|rxA| + i] == AckLine(txA[i])
  {
    seq(|rxA| + |txA|, i requires 0 <= i < |rxA| + |txA| =>
      if i < |rxA| then JoinLine(rxA[i], txB) else AckLine(txA[i - |rxA|]))
  }

  ghost predicate Printed(lines: seq<Line>, all: seq<Option<Line>>) {
    |lines| <= |all| && forall i :: 0 <= i < |lines| ==> all[i] == Some(lines[i])
  }

  /** Printing stops at the first entry that raises. */
  ghost predicate Prints(r: Report, all: seq<Option<Line>>) {
    && Printed(r.lines, all)
    && (if r.raised then |r.lines| < |all| && all[|r.lines|] == None else |r.lines| == |all|)
  }

  method PrintLinkStats(rxA: seq<RxEntry>, txA: seq<TxEntry>, txB: seq<TxEntry>) returns (r: Report)
    ensures Prints(r, AllLines(rxA, txA, txB))
  {
    ghost var all := AllLines(rxA, txA, txB);
    var lines: seq<Line> := [];
    for i := 0 to |rxA|
      invariant |lines| == i && Printed(lines, all)
    {
      var line := CompareRx(rxA[i], txB);
      assert all[i] == line;
      if line.None? {
        return Report(lines, true);
      }
      lines := lines + [line.value];
    }
    for i := 0 to |txA|
      invariant |lines| == |rxA| + i && Printed(lines, all)
    {
      var line := CompareTx(txA[i]);
      assert all[|rxA| + i] == line;
      if line.None? {
        return Report(lines, true);
      }
      lines := lines + [line.value];
    }
    return Report(lines, false);
  }

  /** The body of the first loop. */
  method CompareRx(e: RxEntry, txB: seq<TxEntry>) returns (line: Option<Line>)
    ensures line == JoinLine(e, txB)
  {
    var txMpdus := SearchTx(txB, e.lid);
    if txMpdus.None? {
      return Some(Missing(e.lid));
    }
    var delta := e.mpdus - txMpdus.value;
    if txMpdus.value == 0 {
      return None;
    }
    return Some(RxLine(e.lid, e.mpdus, txMpdus.value, delta, Percent(txMpdus.value, delta)));
  }

  /** The body of the second loop. */
  method CompareTx(e: TxEntry) returns (line: Option<Line>)
    ensures line == AckLine(e)
  {
    var delta := e.sacks - e.mpdus;
    if e.mpdus == 0 {
      return None;
    }
    return Some(TxLine(e.lid, e.mpdus, e.sacks, delta, Percent(e.mpdus, delta)));
  }

  /** The inner loop: it goes on after a match, so a later one replaces it. */
  method SearchTx(tx: seq<TxEntry>, lid: nat) returns (mpdus: Option<nat>)
    ensures mpdus == match LastMatch(tx, lid) case None => None case Some(e) => Some(e.mpdus)
  {
    mpdus := None;
    for j := 0 to |tx|
      invariant mpdus == match LastMatch(tx[..j], lid) case None => None case Some(e) => Some(e.mpdus)
    {
      assert tx[..j + 1][..j] == tx[..j];
      if tx[j].lid == lid {
        mpdus := Some(tx[j].mpdus);
      }
    }
    assert tx[..|tx|] == tx;
  }

  // ----- what the report says -----

  /** An entry raises only if it divides by a count of zero sent MPDUs. */
  ghost predicate Divides(rxA: seq<RxEntry>, txA: seq<TxEntry>, txB: seq<TxEntry>) {
    || (exists e :: e in rxA && LastMatch(txB, e.lid).Some? && LastMatch(txB, e.lid).value.mpdus == 0)
    || (exists e :: e in txA && e.mpdus == 0)
  }

  /** The report is complete exactly if no transmit entry it divides by counts zero MPDUs. */
  lemma CompleteExactly(r: Report, rxA: seq<RxEntry>, txA: seq<TxEntry>, txB: seq<TxEntry>)
    requires Prints(r, AllLines(rxA, txA, txB))
    ensures r.raised <==> Divides(rxA, txA, txB)
  {
    var all := AllLines(rxA, txA, txB);
    if r.raised {
      var k := |r.lines|;
      if k < |rxA| {
        assert rxA[k] in rxA && all[k] == JoinLine(rxA[k], txB);
      } else {
        assert txA[k - |rxA|] in txA && all[|rxA| + (k - |rxA|)] == AckLine(txA[k - |rxA|]);
      }
    } else {
      forall e | e in rxA ensures JoinLine(e, txB).Some? {
        var i :| 0 <= i < |rxA| && rxA[i] == e;
        assert all[i] == Some(r.lines[i]);
      }
      forall e | e in txA ensures AckLine(e).Some? {
        var i :| 0 <= i < |txA| && txA[i] == e;
        assert all[|rxA| + i] == Some(r.lines[|rxA| + i]);
      }
    }
  }

  /** The line says how far `count` is off `base`, absolutely and in percent. */
  predicate Deviation(delta: int, percent: real, count: nat, base: nat) {
    base != 0 && delta == count - base && percent * (base as real) == 100.0 * (delta as real)
  }

  /** Entry `j` is the last of the link, and the line compares with it. */
  predicate Joined(line: Line, e: RxEntry, tx: seq<TxEntry>, j: nat)
    requires j < |tx|
  {
    && IsLast(tx, e.lid, j) && line.RxLine? && line.lid == e.lid
    && line.received == e.mpdus && line.sent == tx[j].mpdus
    && Deviation(line.delta, line.percent, line.received, line.sent)
  }

  /** The line tells how many of the MPDUs the entry counts as sent were acknowledged. */
  predicate Acknowledges(line: Line, e: TxEntry) {
    && line.TxLine? && line.lid == e.lid && line.sent == e.mpdus && line.acked == e.sacks
    && Deviation(line.delta, line.percent, line.acked, line.sent)
  }

  lemma JoinedWith(line: Line, e: RxEntry, tx: seq<TxEntry>, j: nat)
    requires j < |tx| && IsLast(tx, e.lid, j) && tx[j].mpdus != 0
    requires var delta := e.mpdus - tx[j].mpdus;
             line == RxLine(e.lid, e.mpdus, tx[j].mpdus, delta, Percent(tx[j].mpdus, delta))
    ensures Joined(line, e, tx, j)
  {
    PercentMeans(tx[j].mpdus, e.mpdus - tx[j].mpdus);
  }

  lemma JoinLineExactly(line: Line, e: RxEntry, tx: seq<TxEntry>)
    requires JoinLine(e, tx) == Some(line)
    ensures line == Missing(e.lid) <==> forall o :: o in tx ==> o.lid != e.lid
    ensures line != Missing(e.lid) ==> exists j :: 0 <= j < |tx| && Joined(line, e, tx, j)
  {
    LastMatchIsLast(tx, e.lid);
    if line != Missing(e.lid) {
      var j :| 0 <= j < |tx| && IsLast(tx, e.lid, j) && LastMatch(tx, e.lid).value == tx[j];
      JoinedWith(line, e, tx, j);
    }
  }

  /** The line of a receive entry, whether the report is complete or not, says "missing" exactly if the
      other station has no transmit entry for this lid, and compares with the last such entry otherwise. */
  lemma RxLineExactly(r: Report, rxA: seq<RxEntry>, txA: seq<TxEntry>, txB: seq<TxEntry>, i: nat)
    requires Prints(r, AllLines(rxA, txA, txB)) && i < |r.lines| && i < |rxA|
    ensures r.lines[i] == Missing(rxA[i].lid) <==> forall e :: e in txB ==> e.lid != rxA[i].lid
    ensures r.lines[i] != Missing(rxA[i].lid) ==>
              exists j :: 0 <= j < |txB| && Joined(r.lines[i], rxA[i], txB, j)
  {
    assert AllLines(rxA, txA, txB)[i] == Some(r.lines[i]) == JoinLine(rxA[i], txB);
    JoinLineExactly(r.lines[i], rxA[i], txB);
  }

  /** Every line behind those is the one of a transmit entry, with its counts. */
  lemma TxLineExactly(r: Report, rxA: seq<RxEntry>, txA: seq<TxEntry>, txB: seq<TxEntry>, i: nat)
    requires Prints(r, AllLines(rxA, txA, txB)) && |rxA| + i < |r.lines|
    ensures i < |txA| && Acknowledges(r.lines[|rxA| + i], txA[i])
  {
    assert AllLines(rxA, txA, txB)[|rxA| + i] == Some(r.lines[|rxA| + i]) == AckLine(txA[i]);
    PercentMeans(txA[i].mpdus, txA[i].sacks - txA[i].mpdus);
  }

  /** A complete report is a left outer join: one line per receive entry, in order, which says
      "missing" exactly if the other station has no transmit entry for this lid, and compares with
      the last such entry otherwise; then one line per own transmit entry. */
  lemma LeftOuterJoin(r: Report, rxA: seq<RxEntry>, txA: seq<TxEntry>, txB: seq<TxEntry>)
    requires Prints(r, AllLines(rxA, txA, txB)) && !r.raised
    ensures |r.lines| == |rxA| + |txA|
    ensures forall i :: 0 <= i < |rxA| ==>
              if forall e :: e in txB ==> e.lid != rxA[i].lid then r.lines[i] == Missing(rxA[i].lid)
              else exists j :: 0 <= j < |txB| && Joined(r.lines[i], rxA[i], txB, j)
    ensures forall i :: 0 <= i < |txA| ==> Acknowledges(r.lines[|rxA| + i], txA[i])
  {
    forall i | 0 <= i < |rxA|
      ensures if forall e :: e in txB ==> e.lid != rxA[i].lid then r.lines[i] == Missing(rxA[i].lid)
              else exists j :: 0 <= j < |txB| && Joined(r.lines[i], rxA[i], txB, j)
    {
      RxLineExactly(r, rxA, txA, txB, i);
    }
    forall i | 0 <= i < |txA| ensures Acknowledges(r.lines[|rxA| + i], txA[i]) {
      TxLineExactly(r, rxA, txA, txB, i);
    }
  }
}
