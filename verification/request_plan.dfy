/** What hpav-stats does on the wire and when (`main` in bin/hpav-stats.c): requests, sleeps, the
    switch of the shared phase variable, and the teardown. */
module RequestPlan {
  import opened CTypes
  import opened Codec
  import opened StatsOptions
  import Records
  import Sender

  /** Link direction; also the values of `link_stats_req_type`. */
  datatype Dir = Transmit | Receive
  {
    /** `tl_flag` of a request. */
    function Flag(): byte {
      if Transmit? then 0 else 1
    }
  }

  datatype Action =
    | NwRequest
    | LinkRequest(dir: Dir, lid: byte, reqId: byte)
    | Sleep(usec: uint32)
    | Phase(dir: Dir)
    | Teardown

  // ----- the plan of a configuration -----

  /** Sleeps of several gaps; the products are computed in 32 bits. */
  function TwoGaps(gap: uint32): uint32 {
    (2 * gap) % 0x1_0000_0000
  }

  function FiveGaps(gap: uint32): uint32 {
    (5 * gap) % 0x1_0000_0000
  }

  /** `lid_lim`. */
  function LidLimit(c: Conf): (lim: byte) {
    if c.allLids then 255 else 4
  }

  /** Requests for the lids below `n`, each followed by one gap. */
  function Sweep(dir: Dir, n: nat, gap: uint32): (s: seq<Action>)
    requires n <= 0x100
    ensures |s| == 2 * n
  {
    if n == 0 then [] else Sweep(dir, n - 1, gap) + [LinkRequest(dir, n - 1, n - 1), Sleep(gap)]
  }

  function Link(c: Conf, dir: Dir): seq<Action>
    requires -1 <= c.lid <= 255
  {
    if c.lid != -1 then [LinkRequest(dir, c.lid, c.lid)] else Sweep(dir, LidLimit(c) + 1, c.gap)
  }

  function NwPart(c: Conf): seq<Action> {
    if c.reqNw then [NwRequest] else []
  }

  function TransmitStart(c: Conf): seq<Action> {
    [Sleep(TwoGaps(c.gap)), Phase(Transmit)]
  }

  function ReceiveStart(c: Conf): seq<Action> {
    [Sleep(TwoGaps(c.gap)), Phase(Receive)]
  }

  function TransmitPart(c: Conf): seq<Action>
    requires -1 <= c.lid <= 255
  {
    TransmitStart(c) + if c.reqTx then Link(c, Transmit) else []
  }

  function ReceivePart(c: Conf): seq<Action>
    requires -1 <= c.lid <= 255
  {
    if c.reqRx then ReceiveStart(c) + Link(c, Receive) else []
  }

  function Ending(c: Conf): seq<Action> {
    [Sleep(FiveGaps(c.gap)), Teardown]
  }

  function Plan(c: Conf): seq<Action>
    requires -1 <= c.lid <= 255
  {
    NwPart(c) + (if c.reqLink then TransmitPart(c) + ReceivePart(c) else []) + Ending(c)
  }

  // ----- the program -----

  /** The frames an action puts on the wire, for a station with address `sa`. */
  function Frames(c: Conf, sa: Mac, a: Action): seq<seq<byte>>
    requires |c.nid| == 7 && |c.daSa| == 6
  {
    match a
    case NwRequest => [Sender.Frame(c.oda, sa, c.ver, CM_NW_STATS, Sender.Request, [])]
    case LinkRequest(dir, lid, reqId) =>
      [Sender.Frame(c.oda, sa, c.ver, CM_LINK_STATS, Sender.Request,
                    Records.EncodeRequest(Records.LinkStatsRequest(1, reqId, c.nid, lid, dir.Flag(), 0, c.daSa)))]
    case _ => []
  }

  function Wire(c: Conf, sa: Mac, plan: seq<Action>): seq<seq<byte>>
    requires |c.nid| == 7 && |c.daSa| == 6
  {
    if plan == [] then [] else Wire(c, sa, plan[..|plan| - 1]) + Frames(c, sa, plan[|plan| - 1])
  }

  lemma WireSnoc(c: Conf, sa: Mac, plan: seq<Action>, a: Action)
    requires |c.nid| == 7 && |c.daSa| == 6
    ensures Wire(c, sa, plan + [a]) == Wire(c, sa, plan) + Frames(c, sa, a)
  {
    assert (plan + [a])[..|plan|] == plan;
  }

  /** `app_ctx` and the request `main` keeps updating. `done` is the trace of its actions; what is
      on the wire is what that trace says. */
  class Program {
    const conf: Conf
    const sa: Mac
    const sock: Sender.Socket
    var phase: Dir
    var request: Records.LinkStatsRequest
    var done: seq<Action>

    ghost predicate Valid()
      reads `done, sock
    {
      && |conf.nid| == 7 && |conf.daSa| == 6 && -1 <= conf.lid <= 255
      && sock.sent == Wire(conf, sa, done)
    }

    /** The fields of the request set once. */
    ghost predicate Prepared()
      reads `request
    {
      && |conf.nid| == 7 && |conf.daSa| == 6
      && request.reqType == 1 && request.nid == conf.nid && request.mgmtFlag == 0 && request.daSa == conf.daSa
    }

    /** Phase variable and request start out uninitialised. */
    constructor (conf: Conf, sa: Mac, sock: Sender.Socket, phase: Dir, request: Records.LinkStatsRequest)
      requires Usable(conf) && sock.sent == []
      ensures Valid() && done == [] && this.conf == conf && this.sa == sa && this.sock == sock
    {
      this.conf, this.sa, this.sock := conf, sa, sock;
      this.phase, this.request, this.done := phase, request, [];
    }

    method Usleep(usec: uint32)
      requires Valid()
      modifies `done
      ensures Valid() && done == old(done) + [Sleep(usec)]
    {
      WireSnoc(conf, sa, done, Sleep(usec));
      done := done + [Sleep(usec)];
    }

    method SetPhase(dir: Dir)
      requires Valid()
      modifies `done, `phase
      ensures Valid() && done == old(done) + [Phase(dir)] && phase == dir
    {
      WireSnoc(conf, sa, done, Phase(dir));
      phase := dir;
      done := done + [Phase(dir)];
    }

    method EventsTeardown()
      requires Valid()
      modifies `done
      ensures Valid() && done == old(done) + [Teardown]
    {
      WireSnoc(conf, sa, done, Teardown);
      done := done + [Teardown];
    }

    method ReqNwStats()
      requires Valid()
      modifies `done, sock
      ensures Valid() && done == old(done) + [NwRequest]
    {
      WireSnoc(conf, sa, done, NwRequest);
      var rc := Sender.MessageSend(sock, conf.oda, sa, conf.ver, CM_NW_STATS, Sender.Request, null, 0, 0);
      done := done + [NwRequest];
    }

    /** `_req_link_stats`: the request as it stands. */
    method ReqLinkStats(ghost dir: Dir)
      requires Valid() && Prepared() && request.tlFlag == dir.Flag()
      modifies `done, sock
      ensures Valid() && done == old(done) + [LinkRequest(dir, request.lid, request.reqId)]
    {
      var a := LinkRequest(if request.tlFlag == 0 then Transmit else Receive, request.lid, request.reqId);
      WireSnoc(conf, sa, done, a);
      var bytes := Records.EncodeRequest(request);
      var payload := new byte[Records.REQUEST_SIZE](i requires 0 <= i < Records.REQUEST_SIZE => bytes[i]);
      assert payload[..Records.REQUEST_SIZE] == bytes;
      var rc := Sender.MessageSend(sock, conf.oda, sa, conf.ver, CM_LINK_STATS, Sender.Request, payload,
                                   Records.REQUEST_SIZE, 0);
      done := done + [a];
    }

    method SetLid(lid: byte)
      modifies `request
      ensures request == old(request).(lid := lid, reqId := lid)
    {
      request := request.(lid := lid);
      request := request.(reqId := lid);
    }

    method RequestLid(lid: uint16, ghost dir: Dir)
      requires Valid() && Prepared() && request.tlFlag == dir.Flag() && lid < 0x100
      modifies `done, `request, sock
      ensures Valid() && Prepared() && request.tlFlag == dir.Flag()
      ensures done == old(done) + [LinkRequest(dir, lid, lid)]
    {
      var b: byte := lid % 0x100;
      assert b == lid;
      SetLid(b);
      ReqLinkStats(dir);
    }

    method SweepStep(lid: uint16, ghost dir: Dir)
      requires Valid() && Prepared() && request.tlFlag == dir.Flag() && lid < 0x100
      modifies `done, `request, sock
      ensures Valid() && Prepared() && request.tlFlag == dir.Flag()
      ensures done == old(done) + [LinkRequest(dir, lid, lid), Sleep(conf.gap)]
    {
      ghost var before := done;
      RequestLid(lid, dir);
      Usleep(conf.gap);
      AppendTwice(before, [], LinkRequest(dir, lid, lid), Sleep(conf.gap));
    }

    /** The lid loop. The counter has 16 bits, so it gets past the limit 255 and the loop ends. */
    method SweepLids(lidLim: uint16, ghost dir: Dir)
      requires Valid() && Prepared() && request.tlFlag == dir.Flag() && lidLim < 0x100
      modifies `done, `request, sock
      ensures Valid() && Prepared() && done == old(done) + Sweep(dir, lidLim + 1, conf.gap)
    {
      var lid: uint16 := 0;
      ghost var before := done;
      assert before + [] == before;
      while lid <= lidLim
        invariant 0 <= lid <= lidLim + 1 && Valid() && Prepared() && request.tlFlag == dir.Flag()
        invariant done == before + Sweep(dir, lid, conf.gap)
        decreases 0x1_0000 - lid
      {
        SweepStep(lid, dir);
        Assoc(before, Sweep(dir, lid, conf.gap), [LinkRequest(dir, lid, lid), Sleep(conf.gap)]);
        lid := Increment(lid);
      }
    }

    /** One request, or one for every lid up to the limit. */
    method RequestLinks(lidLim: uint16, ghost dir: Dir)
      requires Valid() && Prepared() && request.tlFlag == dir.Flag() && lidLim == LidLimit(conf)
      modifies `done, `request, sock
      ensures Valid() && Prepared() && done == old(done) + Link(conf, dir)
    {
      if conf.lid != -1 {
        RequestLid(conf.lid % 0x100, dir);
      } else {
        SweepLids(lidLim, dir);
      }
    }

    method RunTransmit(lidLim: uint16)
      requires Valid() && lidLim == LidLimit(conf)
      modifies this, sock
      ensures Valid() && Prepared() && done == old(done) + TransmitPart(conf)
    {
      ghost var before := done;
      Usleep((2 * conf.gap) % 0x1_0000_0000);
      request := request.(reqType := 1, daSa := conf.daSa, nid := conf.nid, mgmtFlag := 0);
      SetPhase(Transmit);
      AppendTwice(before, [], Sleep(TwoGaps(conf.gap)), Phase(Transmit));
      if conf.reqTx {
        request := request.(tlFlag := 0);
        RequestLinks(lidLim, Transmit);
        Assoc(before, TransmitStart(conf), Link(conf, Transmit));
      } else {
        Assoc(before, TransmitStart(conf), []);
      }
    }

    method RunReceive(lidLim: uint16)
      requires Valid() && Prepared() && lidLim == LidLimit(conf)
      modifies this, sock
      ensures Valid() && done == old(done) + ReceivePart(conf)
    {
      ghost var before := done;
      if conf.reqRx {
        Usleep((2 * conf.gap) % 0x1_0000_0000);
        SetPhase(Receive);
        AppendTwice(before, [], Sleep(TwoGaps(conf.gap)), Phase(Receive));
        request := request.(tlFlag := 1);
        RequestLinks(lidLim, Receive);
        Assoc(before, ReceiveStart(conf), Link(conf, Receive));
      }
    }

    /** `main` after `argp_parse`: it carries out the plan of its configuration, so the wire carries
        that plan's frames. */
    method Run()
      requires Valid() && done == []
      modifies this, sock
      ensures done == Plan(conf) && sock.sent == Wire(conf, sa, Plan(conf))
    {
      var lidLim: uint16 := 4;
      if conf.allLids {
        lidLim := 255;
      }
      if conf.reqNw {
        ReqNwStats();
      }
      assert done == NwPart(conf);
      if conf.reqLink {
        RunTransmit(lidLim);
        RunReceive(lidLim);
        Assoc(NwPart(conf), TransmitPart(conf), ReceivePart(conf));
      } else {
        Assoc(NwPart(conf), [], []);
      }
      RunEnding();
    }

    method RunEnding()
      requires Valid()
      modifies `done
      ensures Valid() && done == old(done) + Ending(conf)
    {
      ghost var before := done;
      Usleep((5 * conf.gap) % 0x1_0000_0000);
      EventsTeardown();
      AppendTwice(before, [], Sleep(FiveGaps(conf.gap)), Teardown);
    }
  }

  /** `lid++` on a `uint16_t`. */
  method Increment(x: uint16) returns (y: uint16)
    ensures y == if x == 0xffff then 0 else x + 1
  {
    y := (x + 1) % 0x1_0000;
  }

  lemma Assoc(a: seq<Action>, b: seq<Action>, c: seq<Action>)
    ensures a + b + c == a + (b + c)
    ensures a + [] == a
  {
  }

  lemma AppendTwice(before: seq<Action>, s: seq<Action>, a: Action, b: Action)
    ensures before + s + [a] + [b] == before + (s + [a, b])
    ensures before + [a] + [b] == before + [a, b]
  {
  }
}
