/** What the plan of hpav-stats asks for: each selected link once per direction, transmit before
    receive, lids ascending. */
module PlanTheorems {
  import opened CTypes
  import opened StatsOptions
  import opened RequestPlan
  import Codec
  import Records
  import Sender

  predicate IsRequest(a: Action) {
    a.NwRequest? || a.LinkRequest?
  }

  /** The requests among a sequence of actions, in order. */
  function Requests(plan: seq<Action>): seq<Action> {
    if plan == [] then []
    else
      var last := |plan| - 1;
      Requests(plan[..last]) + if IsRequest(plan[last]) then [plan[last]] else []
  }

  lemma {:induction false} RequestsAppend(p: seq<Action>, q: seq<Action>)
    ensures Requests(p + q) == Requests(p) + Requests(q)
  {
    if q == [] {
      assert p + q == p;
    } else {
      var last := |q| - 1;
      RequestsAppend(p, q[..last]);
      assert (p + q)[..|p| + last] == p + q[..last];
    }
  }

  lemma RequestsSnoc(p: seq<Action>, a: Action)
    ensures Requests(p + [a]) == if IsRequest(a) then Requests(p) + [a] else Requests(p)
  {
    assert (p + [a])[..|p|] == p;
    assert Requests(p) + [] == Requests(p);
  }

  lemma PairRequests(a: Action, b: Action)
    ensures Requests([a]) == if IsRequest(a) then [a] else []
    ensures !IsRequest(b) ==> Requests([a, b]) == Requests([a])
  {
    RequestsSnoc([], a);
    RequestsSnoc([a], b);
    assert [] + [a] == [a] && [a] + [b] == [a, b];
  }

  /** Actions in front that are no requests do not matter. */
  lemma QuietStart(a: Action, b: Action, rest: seq<Action>)
    requires !IsRequest(a) && !IsRequest(b)
    ensures Requests([a, b] + rest) == Requests(rest)
  {
    RequestsAppend([a, b], rest);
    PairRequests(a, b);
    assert [] + Requests(rest) == Requests(rest);
  }

  /** The lids asked about, in order. */
  function Lids(c: Conf): (s: seq<byte>)
    requires -1 <= c.lid <= 255
  {
    if c.lid != -1 then [c.lid] else UpTo(LidLimit(c))
  }

  function UpTo(lim: byte): (s: seq<byte>)
    ensures |s| == lim + 1 && forall i :: 0 <= i <= lim ==> s[i] == i
  {
    seq(lim + 1, i requires 0 <= i <= lim => i)
  }

  /** One request per lid, in this order, carrying the lid as its request id. */
  function Asked(dir: Dir, lids: seq<byte>): (s: seq<Action>)
    ensures |s| == |lids| && forall i :: 0 <= i < |s| ==> s[i] == LinkRequest(dir, lids[i], lids[i])
  {
    seq(|lids|, i requires 0 <= i < |lids| => LinkRequest(dir, lids[i], lids[i]))
  }

  /** The requests of a sweep of the lids below `n`. */
  function AskedBelow(dir: Dir, n: nat): (s: seq<Action>)
    requires n <= 0x100
    ensures |s| == n
  {
    seq(n, i requires 0 <= i < n => LinkRequest(dir, i, i))
  }

  lemma SweepGrows(dir: Dir, n: nat, gap: uint32)
    requires n < 0x100
    ensures Requests(Sweep(dir, n + 1, gap)) == Requests(Sweep(dir, n, gap)) + [LinkRequest(dir, n, n)]
  {
    RequestsAppend(Sweep(dir, n, gap), [LinkRequest(dir, n, n), Sleep(gap)]);
    PairRequests(LinkRequest(dir, n, n), Sleep(gap));
  }

  lemma {:induction false} SweepRequests(dir: Dir, n: nat, gap: uint32)
    requires n <= 0x100
    ensures Requests(Sweep(dir, n, gap)) == AskedBelow(dir, n)
  {
    if 0 < n {
      SweepRequests(dir, n - 1, gap);
      SweepGrows(dir, n - 1, gap);
      assert AskedBelow(dir, n) == AskedBelow(dir, n - 1) + [LinkRequest(dir, n - 1, n - 1)];
    }
  }

  lemma LinkRequests(c: Conf, dir: Dir)
    requires -1 <= c.lid <= 255
    ensures Requests(Link(c, dir)) == Asked(dir, Lids(c))
  {
    if c.lid == -1 {
      SweepRequests(dir, LidLimit(c) + 1, c.gap);
      assert AskedBelow(dir, LidLimit(c) + 1) == Asked(dir, Lids(c));
    } else {
      PairRequests(LinkRequest(dir, c.lid, c.lid), Teardown);
    }
  }

  lemma TransmitRequests(c: Conf)
    requires -1 <= c.lid <= 255
    ensures Requests(TransmitPart(c)) == if c.reqTx then Asked(Transmit, Lids(c)) else []
  {
    QuietStart(Sleep(TwoGaps(c.gap)), Phase(Transmit), if c.reqTx then Link(c, Transmit) else []);
    LinkRequests(c, Transmit);
  }

  lemma ReceiveRequests(c: Conf)
    requires -1 <= c.lid <= 255
    ensures Requests(ReceivePart(c)) == if c.reqRx then Asked(Receive, Lids(c)) else []
  {
    QuietStart(Sleep(TwoGaps(c.gap)), Phase(Receive), Link(c, Receive));
    LinkRequests(c, Receive);
  }

  lemma NwRequests(c: Conf)
    ensures Requests(NwPart(c)) == NwPart(c)
  {
    PairRequests(NwRequest, Teardown);
  }

  /** The link requests of one direction. */
  function AskedIf(c: Conf, dir: Dir): (s: seq<Action>)
    requires -1 <= c.lid <= 255
  {
    if c.reqLink && (if dir == Transmit then c.reqTx else c.reqRx) then Asked(dir, Lids(c)) else []
  }

  lemma LinkPartRequests(c: Conf)
    requires -1 <= c.lid <= 255
    ensures Requests(if c.reqLink then TransmitPart(c) + ReceivePart(c) else [])
         == AskedIf(c, Transmit) + AskedIf(c, Receive)
  {
    if c.reqLink {
      TransmitRequests(c);
      ReceiveRequests(c);
      RequestsAppend(TransmitPart(c), ReceivePart(c));
    }
  }

  /** The requests of a plan: the network request if selected, then the selected directions, each
      over all lids. */
  lemma PlannedRequests(c: Conf)
    requires -1 <= c.lid <= 255
    ensures Requests(Plan(c)) == NwPart(c) + AskedIf(c, Transmit) + AskedIf(c, Receive)
  {
    var links := if c.reqLink then TransmitPart(c) + ReceivePart(c) else [];
    NwRequests(c);
    LinkPartRequests(c);
    PairRequests(Sleep(FiveGaps(c.gap)), Teardown);
    RequestsAppend(NwPart(c), links);
    RequestsAppend(NwPart(c) + links, Ending(c));
    Assoc(NwPart(c), AskedIf(c, Transmit), AskedIf(c, Receive));
    Assoc(Requests(Plan(c)), [], []);
  }

  lemma ThreePartsAt(a: seq<Action>, b: seq<Action>, c: seq<Action>, k: nat)
    requires k < |a| + |b| + |c|
    ensures (a + b + c)[k] == if k < |a| then a[k] else if k < |a| + |b| then b[k - |a|] else c[k - |a| - |b|]
  {
  }

  lemma LidsAscend(c: Conf, i: nat, j: nat)
    requires -1 <= c.lid <= 255 && i < j < |Lids(c)|
    ensures Lids(c)[i] < Lids(c)[j]
  {
  }

  /** Two requests of a plan are never the same, and two for the same direction have different ids:
      direction and request id identify a link request. */
  lemma EachAskedOnce(c: Conf, i: nat, j: nat)
    requires -1 <= c.lid <= 255 && i < j < |Requests(Plan(c))|
    ensures var r, s := Requests(Plan(c))[i], Requests(Plan(c))[j];
            s.LinkRequest? && (r.LinkRequest? ==> r.dir != s.dir || r.reqId < s.reqId)
  {
    PlannedRequests(c);
    ThreePartsAt(NwPart(c), AskedIf(c, Transmit), AskedIf(c, Receive), i);
    ThreePartsAt(NwPart(c), AskedIf(c, Transmit), AskedIf(c, Receive), j);
    var a, t := |NwPart(c)|, |AskedIf(c, Transmit)|;
    if a <= i && j < a + t {
      LidsAscend(c, i - a, j - a);
    } else if a + t <= i {
      LidsAscend(c, i - a - t, j - a - t);
    }
  }

  /** Read off the command line: for every one that passes validation, which requests go out. */
  lemma CommandLineRequests(opts: seq<Opt>)
    requires Parsed(opts).Some?
    ensures -1 <= Parsed(opts).value.lid <= 255
    ensures var c := Parsed(opts).value;
            var links, network := LinkStats in opts || NwStats !in opts, NwStats in opts || LinkStats !in opts;
            Requests(Plan(c)) ==
              (if network then [NwRequest] else [])
              + (if links && (Tx in opts || Rx !in opts) then Asked(Transmit, Lids(c)) else [])
              + (if links && (Rx in opts || Tx !in opts) then Asked(Receive, Lids(c)) else [])
    ensures !NamesLink(opts) ==> Lids(Parsed(opts).value) == UpTo(if AllLids in opts then 255 else 4)
  {
    SelectedByCommandLine(opts);
    PlannedRequests(Parsed(opts).value);
  }

  /** If lids are given, the last one is asked about and no other. */
  lemma LastLidAsked(opts: seq<Opt>, k: nat)
    requires Parsed(opts).Some? && k < |opts| && opts[k].LinkId? && forall j :: k < j < |opts| ==> !opts[j].LinkId?
    ensures opts[k].scanned.Some? && -1 <= Parsed(opts).value.lid <= 255
    ensures Lids(Parsed(opts).value) == [opts[k].scanned.value]
  {
    ParsedObeysLast(opts, k);
    SelectedByCommandLine(opts);
    assert NamesLink(opts);
  }

  /** The lids the documentation promises: the given one, all, or the priority links 0 to 3. */
  function DocumentedLids(c: Conf): seq<byte>
    requires -1 <= c.lid <= 255
  {
    if c.lid != -1 then [c.lid] else if c.allLids then UpTo(255) else UpTo(3)
  }

  /** The limit is compared with `<=`, so by default lid 4 is asked about as well: the documented
      lids are met exactly if a lid or all lids are asked for on the command line. */
  lemma LidsAsDocumented(c: Conf)
    requires -1 <= c.lid <= 255
    ensures Lids(c) == DocumentedLids(c) <==> c.lid != -1 || c.allLids
    ensures c.lid == -1 && !c.allLids ==> Lids(c) == DocumentedLids(c) + [4]
  {
    assert |UpTo(3)| == 4 && |UpTo(4)| == 5;
  }

  /** A link request on the wire, field by field: 19 bytes of header, the 18 bytes of the request,
      and zeros up to 60 bytes. */
  lemma RequestOnWire(c: Conf, sa: Mac, dir: Dir, lid: byte, reqId: byte)
    requires |c.nid| == 7 && |c.daSa| == 6
    ensures |Frames(c, sa, LinkRequest(dir, lid, reqId))| == 1
    ensures var f := Frames(c, sa, LinkRequest(dir, lid, reqId))[0];
            && |f| == 60 && f[..6] == c.oda && f[6..12] == sa && f[12..14] == [0x88, 0xe1] && f[14] == c.ver
            && f[15] == 0x4c && f[16] == 0x60 && f[17] == 0 && f[18] == 0
            && f[19] == 1 && f[20] == reqId && f[21..28] == c.nid && f[28] == lid
            && f[29] == (if dir == Transmit then 0 else 1) && f[30] == 0 && f[31..37] == c.daSa && f[37..] == Zeros(23)
  {
    var r := Records.LinkStatsRequest(1, reqId, c.nid, lid, dir.Flag(), 0, c.daSa);
    var payload := Records.EncodeRequest(r);
    var h := Sender.Header(c.oda, sa, c.ver, Sender.OrOper(Codec.CM_LINK_STATS, Sender.Request));
    var f := Frames(c, sa, LinkRequest(dir, lid, reqId))[0];
    assert f == h + (payload + Zeros(23));
    assert f[0..19] == h && f[19..37] == payload && f[37..] == Zeros(23);
    ReadHeader(f, c.oda, sa, c.ver, Sender.OrOper(Codec.CM_LINK_STATS, Sender.Request));
    ReadRequest(f, r);
  }

  /** A network request on the wire: 19 bytes of header and 41 zeros. */
  lemma NetworkRequestOnWire(c: Conf, sa: Mac)
    requires |c.nid| == 7 && |c.daSa| == 6
    ensures |Frames(c, sa, NwRequest)| == 1
    ensures var f := Frames(c, sa, NwRequest)[0];
            && |f| == 60 && f[..6] == c.oda && f[6..12] == sa && f[12..14] == [0x88, 0xe1] && f[14] == c.ver
            && f[15] == 0x48 && f[16] == 0x60 && f[17] == 0 && f[18] == 0 && f[19..] == Zeros(41)
  {
    var h := Sender.Header(c.oda, sa, c.ver, Sender.OrOper(Codec.CM_NW_STATS, Sender.Request));
    var f := Frames(c, sa, NwRequest)[0];
    assert f == h + ([] + Zeros(41));
    assert f[0..19] == h && f[19..] == Zeros(41);
    ReadHeader(f, c.oda, sa, c.ver, Sender.OrOper(Codec.CM_NW_STATS, Sender.Request));
  }

  /** Nothing else is sent. */
  lemma OthersSilent(c: Conf, sa: Mac, a: Action)
    requires |c.nid| == 7 && |c.daSa| == 6 && !a.NwRequest? && !a.LinkRequest?
    ensures Frames(c, sa, a) == []
  {
  }

  /** The wire carries one frame per request of the plan, in order. */
  lemma {:induction false} WireExactly(c: Conf, sa: Mac, plan: seq<Action>)
    requires |c.nid| == 7 && |c.daSa| == 6
    ensures |Wire(c, sa, plan)| == |Requests(plan)|
    ensures forall i :: 0 <= i < |Requests(plan)| ==> Frames(c, sa, Requests(plan)[i]) == [Wire(c, sa, plan)[i]]
    decreases |plan|
  {
    if plan != [] {
      var last := |plan| - 1;
      WireExactly(c, sa, plan[..last]);
      assert plan == plan[..last] + [plan[last]];
      if !IsRequest(plan[last]) {
        OthersSilent(c, sa, plan[last]);
      }
    }
  }

  lemma ReadHeader(f: seq<byte>, oda: Mac, sa: Mac, mmv: byte, mmtype: uint16)
    requires 19 <= |f| && f[0..19] == Sender.Header(oda, sa, mmv, mmtype)
    ensures f[..6] == oda && f[6..12] == sa && f[12..14] == [0x88, 0xe1] && f[14] == mmv
    ensures f[15] == mmtype % 0x100 && f[16] == mmtype / 0x100 && f[17] == 0 && f[18] == 0
  {
    var h := f[0..19];
    HeaderAt(oda, sa, mmv, mmtype);
    SliceOf(f, 0, h, 0, 6);
    SliceOf(f, 0, h, 6, 12);
    SliceOf(f, 0, h, 12, 14);
    assert f[14] == h[14] && f[15] == h[15] && f[16] == h[16] && f[17] == h[17] && f[18] == h[18];
  }

  lemma ReadRequest(f: seq<byte>, r: Records.LinkStatsRequest)
    requires 37 <= |f| && f[19..37] == Records.EncodeRequest(r)
    ensures f[19] == r.reqType && f[20] == r.reqId && f[21..28] == r.nid && f[28] == r.lid && f[29] == r.tlFlag
    ensures f[30] == r.mgmtFlag && f[31..37] == r.daSa
  {
    var b := f[19..37];
    RequestAt(r);
    SliceOf(f, 19, b, 2, 9);
    SliceOf(f, 19, b, 12, 18);
    assert f[19] == b[0] && f[20] == b[1] && f[28] == b[9] && f[29] == b[10] && f[30] == b[11];
  }

  lemma HeaderAt(oda: Mac, sa: Mac, mmv: byte, mmtype: uint16)
    ensures var h := Sender.Header(oda, sa, mmv, mmtype);
            && h[..6] == oda && h[6..12] == sa && h[12..14] == [0x88, 0xe1] && h[14] == mmv
            && h[15] == mmtype % 0x100 && h[16] == mmtype / 0x100 && h[17] == 0 && h[18] == 0
  {
  }

  lemma RequestAt(r: Records.LinkStatsRequest)
    ensures var b := Records.EncodeRequest(r);
            && b[0] == r.reqType && b[1] == r.reqId && b[2..9] == r.nid && b[9] == r.lid && b[10] == r.tlFlag
            && b[11] == r.mgmtFlag && b[12..18] == r.daSa
  {
  }

  /** Reading a part of `f` through the slice that holds it. */
  lemma SliceAt(f: seq<byte>, at: nat, part: seq<byte>)
    requires at + |part| <= |f| && f[at..at + |part|] == part
    ensures forall i :: 0 <= i < |part| ==> f[at + i] == part[i]
  {
    var s := f[at..at + |part|];
    assert forall i :: 0 <= i < |part| ==> s[i] == f[at + i];
  }

  lemma SliceOf(f: seq<byte>, at: nat, part: seq<byte>, i: nat, j: nat)
    requires at + |part| <= |f| && f[at..at + |part|] == part && i <= j <= |part|
    ensures f[at + i..at + j] == part[i..j]
  {
    SliceAt(f, at, part);
    var s, t := f[at + i..at + j], part[i..j];
    forall k | 0 <= k < j - i ensures s[k] == t[k] {
      assert s[k] == f[at + (i + k)];
    }
  }
}
