/** bin/loop-mm-types.c: options select operations through four 32-bit counters, and a nested sweep
    over a table of message types sends each supported and selected operation. */
module OperationSelect {
  import opened CTypes
  import opened Listings
  import opened Sender

  /** `msg_type_cnt`. */
  datatype Counts = Counts(request: uint32, confirm: uint32, indication: uint32, response: uint32)
  {
    function Get(op: Oper): uint32 {
      match op
      case Request => request
      case Confirm => confirm
      case Indication => indication
      case Response => response
    }
  }

  const DEFAULTS := Counts(1, 0, 0, 0)

  function Plus(x: uint32, n: nat): uint32 {
    (x + n) % 0x1_0000_0000
  }

  /** An operation other than request drops the default request, recognised by the value 1. */
  function DropDefault(x: uint32): uint32 {
    if x == 1 then 0 else x
  }

  /** One option; `None` stands for the options that select no operation. */
  function Apply(c: Counts, o: Option<Oper>): Counts {
    match o
    case None => c
    case Some(Request) => c.(request := Plus(c.request, 2))
    case Some(Confirm) => c.(request := DropDefault(c.request), confirm := Plus(c.confirm, 1))
    case Some(Indication) => c.(request := DropDefault(c.request), indication := Plus(c.indication, 1))
    case Some(Response) => c.(request := DropDefault(c.request), response := Plus(c.response, 1))
  }

  function Fold(opts: seq<Option<Oper>>): Counts {
    if opts == [] then DEFAULTS else Apply(Fold(opts[..|opts| - 1]), opts[|opts| - 1])
  }

  predicate Enabled(opts: seq<Option<Oper>>, op: Oper) {
    0 < Fold(opts).Get(op)
  }

  /** The counters as the program keeps them. */
  class Config {
    const cnt: array<uint32>

    ghost predicate Valid()
      reads cnt
    {
      cnt.Length == 4
    }

    ghost function View(): Counts
      requires Valid()
      reads cnt
    {
      Counts(cnt[0], cnt[1], cnt[2], cnt[3])
    }

    constructor ()
      ensures Valid() && fresh(cnt) && View() == DEFAULTS
    {
      cnt := new uint32[4](i => if i == 0 then 1 else 0);
    }

    method ParseOpt(o: Option<Oper>)
      requires Valid()
      modifies cnt
      ensures View() == Apply(old(View()), o)
    {
      match o {
        case None =>
        case Some(Request) =>
          cnt[0] := (cnt[0] as int + 2) % 0x1_0000_0000;
        case Some(Response) =>
          if cnt[0] == 1 {
            cnt[0] := 0;
          }
          cnt[3] := (cnt[3] as int + 1) % 0x1_0000_0000;
        case Some(Indication) =>
          if cnt[0] == 1 {
            cnt[0] := 0;
          }
          cnt[2] := (cnt[2] as int + 1) % 0x1_0000_0000;
        case Some(Confirm) =>
          if cnt[0] == 1 {
            cnt[0] := 0;
          }
          cnt[1] := (cnt[1] as int + 1) % 0x1_0000_0000;
      }
    }
  }

  method ParseOptions(opts: seq<Option<Oper>>) returns (conf: Config)
    ensures fresh(conf) && fresh(conf.cnt) && conf.Valid() && conf.View() == Fold(opts)
  {
    conf := new Config();
    var i := 0;
    while i < |opts|
      invariant 0 <= i <= |opts| && conf.Valid() && fresh(conf.cnt) && conf.View() == Fold(opts[..i])
    {
      assert opts[..i + 1][..i] == opts[..i];
      conf.ParseOpt(opts[i]);
      i := i + 1;
    }
    assert opts[..i] == opts;
  }

  // ----- which operations end up enabled -----

  /** The request counter has been reset: another operation came when the number of request options
      was a multiple of 2^31, so that the counter stood at its initial value. */
  predicate Reset(opts: seq<Option<Oper>>) {
    opts != [] &&
      (Reset(opts[..|opts| - 1])
       || (IsOther(opts[|opts| - 1]) && Times(opts[..|opts| - 1], Some(Request)) % 0x8000_0000 == 0))
  }

  predicate IsOther(o: Option<Oper>) {
    o.Some? && o.value != Request
  }

  lemma {:induction false} OtherCounters(opts: seq<Option<Oper>>, op: Oper)
    requires op != Request
    ensures Fold(opts).Get(op) == Times(opts, Some(op)) % 0x1_0000_0000
  {
    if opts != [] {
      OtherCounters(opts[..|opts| - 1], op);
    }
  }

  /** Adding 2 to the request counter counts one more request option, modulo 2^31. */
  lemma PlusTwo(n: nat, b: nat)
    requires b <= 1
    ensures Plus(2 * (n % 0x8000_0000) + b, 2) == 2 * ((n + 1) % 0x8000_0000) + b
  {
    var q, m := n / 0x8000_0000, n % 0x8000_0000;
    if m + 1 < 0x8000_0000 {
      ModUnique(n + 1, q, m + 1, 0x8000_0000);
    } else {
      ModUnique(n + 1, q + 1, 0, 0x8000_0000);
    }
  }

  lemma {:induction false} RequestCounter(opts: seq<Option<Oper>>)
    ensures Fold(opts).request == 2 * (Times(opts, Some(Request)) % 0x8000_0000) + if Reset(opts) then 0 else 1
  {
    if opts != [] {
      var front, o := opts[..|opts| - 1], opts[|opts| - 1];
      RequestCounter(front);
      if o == Some(Request) {
        assert Reset(opts) == Reset(front) && Times(opts, Some(Request)) == Times(front, Some(Request)) + 1;
        PlusTwo(Times(front, Some(Request)), if Reset(front) then 0 else 1);
      } else {
        assert Times(opts, Some(Request)) == Times(front, Some(Request));
      }
    }
  }

  /** Exactly which operations any option sequence enables. */
  lemma EnabledExactly(opts: seq<Option<Oper>>, op: Oper)
    ensures op != Request ==> (Enabled(opts, op) <==> Times(opts, Some(op)) % 0x1_0000_0000 != 0)
    ensures Enabled(opts, Request) <==> Times(opts, Some(Request)) % 0x8000_0000 != 0 || !Reset(opts)
  {
    RequestCounter(opts);
    if op != Request {
      OtherCounters(opts, op);
    }
  }

  /** What the options mean: the operations given, or request if none is given. */
  ghost predicate Selected(opts: seq<Option<Oper>>, op: Oper) {
    Some(op) in opts || (op == Request && forall q: Oper :: Some(q) !in opts)
  }

  lemma {:induction false} TimesBounds(opts: seq<Option<Oper>>, op: Oper)
    ensures Times(opts, Some(op)) <= |opts| && (0 < Times(opts, Some(op)) <==> Some(op) in opts)
  {
    if opts != [] {
      TimesBounds(opts[..|opts| - 1], op);
      assert opts == opts[..|opts| - 1] + [opts[|opts| - 1]];
    }
  }

  /** Without request options, the counter is reset by the first other operation. */
  lemma {:induction false} ResetByOthers(opts: seq<Option<Oper>>)
    requires Some(Request) !in opts
    ensures Reset(opts) <==> exists o :: o in opts && IsOther(o)
  {
    if opts != [] {
      var front := opts[..|opts| - 1];
      assert opts == front + [opts[|opts| - 1]];
      ResetByOthers(front);
      TimesBounds(front, Request);
    }
  }

  /** No counter the options use stands at zero again: a given request is either not reset or not a
      multiple of 2^31 times given, and no other operation is given a multiple of 2^32 times. */
  ghost predicate NoneWrapped(opts: seq<Option<Oper>>) {
    && (Some(Request) in opts && Reset(opts) ==> Times(opts, Some(Request)) % 0x8000_0000 != 0)
    && (forall op :: op != Request && Some(op) in opts ==> Times(opts, Some(op)) % 0x1_0000_0000 != 0)
  }

  lemma RequestAsSelected(opts: seq<Option<Oper>>)
    ensures (Enabled(opts, Request) <==> Selected(opts, Request))
       <==> (Some(Request) in opts && Reset(opts) ==> Times(opts, Some(Request)) % 0x8000_0000 != 0)
  {
    EnabledExactly(opts, Request);
    TimesBounds(opts, Request);
    if Some(Request) !in opts {
      ResetByOthers(opts);
      assert forall o :: o in opts && IsOther(o) ==> Some(o.value) in opts;
      assert forall q: Oper :: Some(q) in opts ==> IsOther(Some(q));
    }
  }

  /** For any options: the enabled operations are the selected ones exactly if no counter has wrapped
      around to zero. */
  lemma EnabledAsSelectedExactly(opts: seq<Option<Oper>>)
    ensures (forall op :: Enabled(opts, op) <==> Selected(opts, op)) <==> NoneWrapped(opts)
  {
    RequestAsSelected(opts);
    forall op | op != Request
      ensures (Enabled(opts, op) <==> Selected(opts, op))
         <==> (Some(op) in opts ==> Times(opts, Some(op)) % 0x1_0000_0000 != 0)
    {
      EnabledExactly(opts, op);
      TimesBounds(opts, op);
    }
  }

  /** Request options alone never reset their counter. */
  lemma {:induction false} OnlyRequests(opts: seq<Option<Oper>>)
    requires Times(opts, Some(Request)) == |opts|
    ensures !Reset(opts)
  {
    if opts != [] {
      TimesBounds(opts[..|opts| - 1], Request);
      OnlyRequests(opts[..|opts| - 1]);
    }
  }

  lemma FewOptionsWrapNone(opts: seq<Option<Oper>>)
    requires |opts| <= 0x8000_0000
    ensures NoneWrapped(opts)
  {
    forall q ensures 0 < Times(opts, Some(q)) <= |opts| <==> Some(q) in opts {
      TimesBounds(opts, q);
    }
    if Times(opts, Some(Request)) == |opts| {
      OnlyRequests(opts);
    }
  }

  /** In particular up to 2^31 options. */
  lemma EnabledAsSelected(opts: seq<Option<Oper>>, op: Oper)
    requires |opts| <= 0x8000_0000
    ensures Enabled(opts, op) <==> Selected(opts, op)
  {
    FewOptionsWrapNone(opts);
    EnabledAsSelectedExactly(opts);
  }

  /** So the order of the options does not matter, nor how often each is given. */
  lemma OrderIrrelevant(opts: seq<Option<Oper>>, opts': seq<Option<Oper>>, op: Oper)
    requires |opts| <= 0x8000_0000 && |opts'| <= 0x8000_0000
    requires forall o :: Some(o) in opts <==> Some(o) in opts'
    ensures Enabled(opts, op) <==> Enabled(opts', op)
  {
    EnabledAsSelected(opts, op);
    EnabledAsSelected(opts', op);
  }

  function Requests(n: nat): (s: seq<Option<Oper>>)
    ensures |s| == n
  {
    seq(n, _ => Some(Request))
  }

  lemma {:induction false} TimesRequests(n: nat)
    ensures Times([Some(Response)] + Requests(n), Some(Request)) == n && Reset([Some(Response)] + Requests(n))
  {
    var s := [Some(Response)] + Requests(n);
    if n == 0 {
      assert s == [Some(Response)] && s[..0] == [];
    } else {
      assert s[..|s| - 1] == [Some(Response)] + Requests(n - 1);
      TimesRequests(n - 1);
    }
  }

  /** With one option more it can fail: a response option and 2^31 request options wrap the counter to
      zero, and no request is sent although requests were asked for. */
  lemma WrapDisablesRequest()
    ensures var opts := [Some(Response)] + Requests(0x8000_0000);
            Selected(opts, Request) && !Enabled(opts, Request)
  {
    var opts := [Some(Response)] + Requests(0x8000_0000);
    TimesRequests(0x8000_0000);
    EnabledExactly(opts, Request);
    assert opts[1] == Some(Request);
  }

  // ----- the sweep -----

  /** A row of the table: the type and the operations it supports, as flag bits. */
  datatype MmType = MmType(base: uint16, ops: byte)

  /** `ops & (1 << oper)`. */
  predicate Supports(t: MmType, op: Oper) {
    match op
    case Request => t.ops % 2 == 1
    case Confirm => t.ops / 2 % 2 == 1
    case Indication => t.ops / 4 % 2 == 1
    case Response => t.ops / 8 % 2 == 1
  }

  /** A row supports an operation exactly if bit 0, 1, 2 or 3 of its flags is set, for request, confirm,
      indication and response. */
  lemma SupportsExactly(t: MmType, op: Oper)
    ensures var k := match op case Request => 0 case Confirm => 1 case Indication => 2 case Response => 3;
            Supports(t, op) <==> Bit(t.ops, k)
  {
    BitsOf(t.ops);
  }

  lemma BitsOf(x: nat)
    ensures (Bit(x, 0) <==> x % 2 == 1) && (Bit(x, 1) <==> x / 2 % 2 == 1)
    ensures (Bit(x, 2) <==> x / 4 % 2 == 1) && (Bit(x, 3) <==> x / 8 % 2 == 1)
  {
    HighBit(x, 2);
    HighBit(x, 3);
    assert Bit(x, 1) == Bit(x / 2, 0) && Bit(x / 4, 1) == Bit(x / 4 / 2, 0) && x / 4 / 2 == x / 8;
  }

  function OperOf(code: nat): (op: Oper)
    requires code < 4
    ensures op.Code() == code
  {
    if code == 0 then Request else if code == 1 then Confirm else if code == 2 then Indication else Response
  }

  /** Row and operation of a message to send. */
  datatype Pair = Pair(row: nat, op: Oper)

  predicate Sends(table: seq<MmType>, c: Counts, k: nat)
    requires k < 4 * |table|
  {
    Supports(table[k / 4], OperOf(k % 4)) && 0 < c.Get(OperOf(k % 4))
  }

  /** The messages among the first `k` combinations of row and operation. */
  function Pairs(table: seq<MmType>, c: Counts, k: nat): seq<Pair>
    requires k <= 4 * |table|
  {
    if k == 0 then []
    else
      Pairs(table, c, k - 1) + if Sends(table, c, k - 1) then [Pair((k - 1) / 4, OperOf((k - 1) % 4))] else []
  }

  /** The frames of these messages, in order. */
  function Frames(table: seq<MmType>, c: Counts, k: nat, oda: Mac, sa: Mac, mmv: byte): seq<seq<byte>>
    requires k <= 4 * |table|
  {
    if k == 0 then []
    else
      Frames(table, c, k - 1, oda, sa, mmv)
      + if Sends(table, c, k - 1) then [Frame(oda, sa, mmv, table[(k - 1) / 4].base, OperOf((k - 1) % 4), [])] else []
  }

  lemma {:induction false} FramesOfPairs(table: seq<MmType>, c: Counts, k: nat, oda: Mac, sa: Mac, mmv: byte)
    requires k <= 4 * |table|
    ensures var s, f := Pairs(table, c, k), Frames(table, c, k, oda, sa, mmv);
            |f| == |s| && forall i :: 0 <= i < |s| ==>
              s[i].row < |table| && f[i] == Frame(oda, sa, mmv, table[s[i].row].base, s[i].op, [])
  {
    if 0 < k {
      FramesOfPairs(table, c, k - 1, oda, sa, mmv);
    }
  }

  /** The body of the inner loop. */
  method SendOne(fd: Socket, table: seq<MmType>, conf: Config, oda: Mac, sa: Mac, mmv: byte, i: nat, oper: nat,
                 ghost before: seq<seq<byte>>)
    requires conf.Valid() && i < |table| && oper < 4
    requires fd.sent == before + Frames(table, conf.View(), 4 * i + oper, oda, sa, mmv)
    modifies fd
    ensures conf.View() == old(conf.View())
    ensures fd.sent == before + Frames(table, conf.View(), 4 * i + oper + 1, oda, sa, mmv)
  {
    ghost var k := 4 * i + oper;
    assert k / 4 == i && k % 4 == oper;
    var op := OperOf(oper);
    assert conf.cnt[oper] == conf.View().Get(op);
    ghost var was := Frames(table, conf.View(), k, oda, sa, mmv);
    if Supports(table[i], op) && 0 < conf.cnt[oper] {
      var rc := MessageSend(fd, oda, sa, mmv, table[i].base, op, null, 0, 0);
      ghost var f := Frame(oda, sa, mmv, table[i].base, op, []);
      assert Sends(table, conf.View(), k);
      assert before + was + [f] == before + (was + [f]);
    } else {
      assert !Sends(table, conf.View(), k);
      assert was + [] == was;
    }
  }

  /** The inner loop. */
  method SendRow(fd: Socket, table: seq<MmType>, conf: Config, oda: Mac, sa: Mac, mmv: byte, i: nat,
                 ghost before: seq<seq<byte>>)
    requires conf.Valid() && i < |table|
    requires fd.sent == before + Frames(table, conf.View(), 4 * i, oda, sa, mmv)
    modifies fd
    ensures conf.View() == old(conf.View())
    ensures fd.sent == before + Frames(table, conf.View(), 4 * i + 4, oda, sa, mmv)
  {
    ghost var c := conf.View();
    var oper := 0;
    while oper < 4
      invariant 0 <= oper <= 4 && conf.View() == c
      invariant fd.sent == before + Frames(table, c, 4 * i + oper, oda, sa, mmv)
    {
      SendOne(fd, table, conf, oda, sa, mmv, i, oper, before);
      oper := oper + 1;
    }
  }

  /** The nested loops: they send the messages of the whole table. */
  method SendAll(fd: Socket, table: seq<MmType>, conf: Config, oda: Mac, sa: Mac, mmv: byte)
    requires conf.Valid()
    modifies fd
    ensures conf.View() == old(conf.View())
    ensures fd.sent == old(fd.sent) + Frames(table, conf.View(), 4 * |table|, oda, sa, mmv)
  {
    ghost var c := conf.View();
    ghost var before := fd.sent;
    assert before + [] == before;
    var i := 0;
    while i < |table|
      invariant 0 <= i <= |table| && conf.View() == c
      invariant fd.sent == before + Frames(table, c, 4 * i, oda, sa, mmv)
    {
      SendRow(fd, table, conf, oda, sa, mmv, i, before);
      i := i + 1;
    }
  }

  lemma {:induction false} PairsExactly(table: seq<MmType>, c: Counts, k: nat)
    requires k <= 4 * |table|
    ensures var s := Pairs(table, c, k);
            && (forall a, b :: 0 <= a < b < |s| ==> 4 * s[a].row + s[a].op.Code() < 4 * s[b].row + s[b].op.Code())
            && (forall p :: p in s <==> 4 * p.row + p.op.Code() < k && Supports(table[p.row], p.op) && 0 < c.Get(p.op))
  {
    if 0 < k {
      PairsExactly(table, c, k - 1);
      var s, t := Pairs(table, c, k - 1), Pairs(table, c, k);
      var p := Pair((k - 1) / 4, OperOf((k - 1) % 4));
      assert 4 * p.row + p.op.Code() == k - 1;
      forall q: Pair ensures 4 * q.row + q.op.Code() == k - 1 ==> q == p {
        SameKey(q, p);
      }
      assert forall a :: 0 <= a < |s| ==> s[a] in s;
    }
  }

  lemma SameKey(p: Pair, q: Pair)
    ensures 4 * p.row + p.op.Code() == 4 * q.row + q.op.Code() ==> p == q
  {
  }

  /** For any table and any options that wrap no counter, as up to 2^31 options never do: the sweep sends
      exactly the supported and selected operations, each once, by row and then by operation. */
  lemma SweepExactly(table: seq<MmType>, opts: seq<Option<Oper>>)
    requires NoneWrapped(opts)
    ensures var s := Pairs(table, Fold(opts), 4 * |table|);
            && (forall a, b :: 0 <= a < b < |s| ==> Before(s[a], s[b]))
            && (forall p :: p in s <==> p.row < |table| && Supports(table[p.row], p.op) && Selected(opts, p.op))
  {
    var s := Pairs(table, Fold(opts), 4 * |table|);
    PairsExactly(table, Fold(opts), 4 * |table|);
    EnabledAsSelectedExactly(opts);
    forall p ensures p in s <==> p.row < |table| && Supports(table[p.row], p.op) && Selected(opts, p.op) {
      assert Enabled(opts, p.op) <==> Selected(opts, p.op);
      assert 4 * p.row + p.op.Code() < 4 * |table| <==> p.row < |table|;
    }
  }

  /** The order of the table: by row, then by operation. */
  predicate Before(p: Pair, q: Pair) {
    p.row < q.row || (p.row == q.row && p.op.Code() < q.op.Code())
  }
}
