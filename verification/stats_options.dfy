/** Command line of hpav-stats (`_parse_opt` in bin/hpav-stats.c): options update a configuration
    one by one; the end of the command line fills in the defaults and rejects what is missing. */
module StatsOptions {
  import opened CTypes
  import opened AddressText

  const BROADCAST: Mac := [0xff, 0xff, 0xff, 0xff, 0xff, 0xff]
  const LOCALCAST: Mac := [0x00, 0xb0, 0x52, 0x00, 0x00, 0x01]

  /** What argp hands to `_parse_opt`. Numeric arguments come as what the C library made of them:
      `sscanf("%d")` converted or not; `strtoul` gave a value, `errno`, and consumed all or not. */
  datatype Opt =
    | Broadcast | Localcast | V10 | V11
    | Oda(text: string)
    | NwStats | LinkStats | Rx | Tx
    | NetworkId(text: string)
    | LinkId(scanned: Option<int>)
    | DaSa(text: string)
    | AllLids
    | Gap(value: nat, erange: bool, consumed: bool)
    | Interface(name: string)

  /** `struct cmd_cnf`, the two static flags, and argp's count of interface names. The bit masks
      `req_what` and `req_link_dir` appear bit by bit; `lid` is -1 when not given. */
  datatype Conf = Conf(oda: Mac, ver: byte, reqNw: bool, reqLink: bool, reqRx: bool, reqTx: bool,
                       nid: seq<byte>, nidSet: bool, daSa: seq<byte>, daSaSet: bool,
                       lid: int, allLids: bool, gap: uint32, names: nat)

  const DEFAULTS :=
    Conf(BROADCAST, 1, false, false, false, false, Zeros(7), false, Zeros(6), false, -1, false, 200000, 0)

  /** One option; `None` means the program exits with a usage message. */
  function Apply(c: Conf, o: Opt): Option<Conf> {
    match o
    case Broadcast => Some(c.(oda := BROADCAST))
    case Localcast => Some(c.(oda := LOCALCAST))
    case V10 => Some(c.(ver := 0))
    case V11 => Some(c.(ver := 1))
    case Oda(text) => if IsAddress(text, 6) then Some(c.(oda := Decoded(text, 6))) else None
    case NwStats => Some(c.(reqNw := true))
    case LinkStats => Some(c.(reqLink := true))
    case Rx => Some(c.(reqRx := true))
    case Tx => Some(c.(reqTx := true))
    case NetworkId(text) => if IsAddress(text, 7) then Some(c.(nid := Decoded(text, 7), nidSet := true)) else None
    case LinkId(scanned) => if scanned.Some? && 0 <= scanned.value <= 255 then Some(c.(lid := scanned.value)) else None
    case DaSa(text) => if IsAddress(text, 6) then Some(c.(daSa := Decoded(text, 6), daSaSet := true)) else None
    case AllLids => Some(c.(allLids := true))
    case Gap(value, erange, consumed) => if erange || !consumed then None else Some(c.(gap := value % 0x1_0000_0000))
    case Interface(name) => if 0 < c.names then None else Some(c.(names := c.names + 1))
  }

  function Fold(c: Conf, opts: seq<Opt>): Option<Conf> {
    if opts == [] then Some(c)
    else
      var last := |opts| - 1;
      var d := Fold(c, opts[..last]);
      if d.None? then None else Apply(d.value, opts[last])
  }

  /** ARGP_KEY_END: defaults, then what must be there. */
  function Finish(c: Conf): Option<Conf> {
    var d := if !c.reqNw && !c.reqLink then c.(reqNw := true, reqLink := true) else c;
    var e := if !d.reqRx && !d.reqTx then d.(reqRx := true, reqTx := true) else d;
    if c.names != 1 || (e.reqLink && (!e.nidSet || !e.daSaSet)) then None else Some(e)
  }

  function Parsed(opts: seq<Opt>): Option<Conf> {
    var c := Fold(DEFAULTS, opts);
    if c.None? then None else Finish(c.value)
  }

  /** `argp_parse` driving `_parse_opt`. */
  class Parser {
    var conf: Conf

    constructor ()
      ensures conf == DEFAULTS
    {
      conf := DEFAULTS;
    }

    method ParseOpt(o: Opt) returns (ok: bool)
      requires |conf.nid| == 7 && |conf.daSa| == 6
      modifies this
      ensures ok == Apply(old(conf), o).Some? && (ok ==> conf == Apply(old(conf), o).value)
      ensures |conf.nid| == 7 && |conf.daSa| == 6
    {
      ok := true;
      match o {
        case Broadcast => conf := conf.(oda := BROADCAST);
        case Localcast => conf := conf.(oda := LOCALCAST);
        case V10 => conf := conf.(ver := 0);
        case V11 => conf := conf.(ver := 1);
        case Oda(text) =>
          var was := conf.oda;
          var dst := new byte[6](i requires 0 <= i < 6 => was[i]);
          var rc := Parse(dst, Some(text), 6);
          ok := rc == EXIT_SUCCESS;
          conf := conf.(oda := dst[..]);
        case NwStats => conf := conf.(reqNw := true);
        case LinkStats => conf := conf.(reqLink := true);
        case Rx => conf := conf.(reqRx := true);
        case Tx => conf := conf.(reqTx := true);
        case NetworkId(text) =>
          var dst := new byte[7];
          var rc := Parse(dst, Some(text), 7);
          ok := rc == EXIT_SUCCESS;
          conf := conf.(nid := dst[..], nidSet := true);
        case LinkId(scanned) =>
          if scanned.None? {
            return false;
          }
          conf := conf.(lid := scanned.value);
          ok := 0 <= conf.lid <= 255;
        case DaSa(text) =>
          var dst := new byte[6];
          var rc := Parse(dst, Some(text), 6);
          ok := rc == EXIT_SUCCESS;
          conf := conf.(daSa := dst[..], daSaSet := true);
        case AllLids => conf := conf.(allLids := true);
        case Gap(value, erange, consumed) =>
          conf := conf.(gap := value % 0x1_0000_0000);
          ok := !erange && consumed;
        case Interface(name) =>
          ok := conf.names == 0;
          conf := conf.(names := conf.names + 1);
      }
    }

    method End() returns (ok: bool)
      modifies this
      ensures ok == Finish(old(conf)).Some? && (ok ==> conf == Finish(old(conf)).value)
    {
      if conf.names != 1 {
        return false;
      }
      if !conf.reqNw && !conf.reqLink {
        conf := conf.(reqNw := true, reqLink := true);
      }
      if !conf.reqRx && !conf.reqTx {
        conf := conf.(reqRx := true, reqTx := true);
      }
      return !(conf.reqLink && !conf.nidSet) && !(conf.reqLink && !conf.daSaSet);
    }
  }

  method ParseCommandLine(opts: seq<Opt>) returns (conf: Option<Conf>)
    ensures conf == Parsed(opts)
  {
    var p := new Parser();
    var i := 0;
    while i < |opts|
      invariant 0 <= i <= |opts| && fresh(p) && |p.conf.nid| == 7 && |p.conf.daSa| == 6
      invariant Fold(DEFAULTS, opts[..i]) == Some(p.conf)
    {
      assert opts[..i + 1][..i] == opts[..i];
      var ok := p.ParseOpt(opts[i]);
      if !ok {
        FoldStops(DEFAULTS, opts, i + 1);
        return None;
      }
      i := i + 1;
    }
    assert opts[..i] == opts;
    var ok := p.End();
    return if ok then Some(p.conf) else None;
  }

  lemma {:induction false} FoldStops(c: Conf, opts: seq<Opt>, k: nat)
    requires k <= |opts| && Fold(c, opts[..k]) == None
    ensures Fold(c, opts) == None
    decreases |opts|
  {
    if k < |opts| {
      var last := |opts| - 1;
      assert opts[..last][..k] == opts[..k];
      FoldStops(c, opts[..last], k);
    } else {
      assert opts[..k] == opts;
    }
  }

  // ----- what a valid command line means -----

  ghost predicate NamesNetwork(opts: seq<Opt>) {
    exists o :: o in opts && o.NetworkId?
  }

  ghost predicate NamesDevice(opts: seq<Opt>) {
    exists o :: o in opts && o.DaSa?
  }

  ghost predicate NamesLink(opts: seq<Opt>) {
    exists o :: o in opts && o.LinkId?
  }

  lemma Snoc(opts: seq<Opt>, o: Opt)
    ensures NamesNetwork(opts + [o]) <==> NamesNetwork(opts) || o.NetworkId?
    ensures NamesDevice(opts + [o]) <==> NamesDevice(opts) || o.DaSa?
    ensures NamesLink(opts + [o]) <==> NamesLink(opts) || o.LinkId?
  {
    assert o in opts + [o];
    assert forall p :: p in opts ==> p in opts + [o];
    assert forall p :: p in opts + [o] ==> p in opts || p == o;
  }

  /** The selections a command line makes, read off its options as a set. */
  ghost predicate Selects(c: Conf, opts: seq<Opt>) {
    && c.reqNw == (NwStats in opts) && c.reqLink == (LinkStats in opts)
    && c.reqRx == (Rx in opts) && c.reqTx == (Tx in opts) && c.allLids == (AllLids in opts)
    && -1 <= c.lid <= 255 && (c.lid != -1 <==> NamesLink(opts))
    && c.nidSet == NamesNetwork(opts) && c.daSaSet == NamesDevice(opts)
    && |c.nid| == 7 && |c.daSa| == 6
  }

  lemma ApplySelects(c: Conf, opts: seq<Opt>, o: Opt)
    requires Selects(c, opts) && Apply(c, o).Some?
    ensures Selects(Apply(c, o).value, opts + [o])
  {
    Snoc(opts, o);
    assert o in opts + [o];
    assert forall p :: p in opts + [o] <==> p in opts || p == o;
  }

  lemma {:induction false} Selection(opts: seq<Opt>)
    requires Fold(DEFAULTS, opts).Some?
    ensures Selects(Fold(DEFAULTS, opts).value, opts)
  {
    if opts != [] {
      var last := |opts| - 1;
      Selection(opts[..last]);
      ApplySelects(Fold(DEFAULTS, opts[..last]).value, opts[..last], opts[last]);
      assert opts == opts[..last] + [opts[last]];
    }
  }

  /** Two options decide the same field. */
  predicate Rivals(o: Opt, p: Opt) {
    match o
    case Broadcast | Localcast | Oda(_) => p.Broadcast? || p.Localcast? || p.Oda?
    case V10 | V11 => p.V10? || p.V11?
    case NetworkId(_) => p.NetworkId?
    case LinkId(_) => p.LinkId?
    case DaSa(_) => p.DaSa?
    case Gap(_, _, _) => p.Gap?
    case _ => false
  }

  /** The configuration is as option `o` asks. */
  predicate Obeys(c: Conf, o: Opt) {
    match o
    case Broadcast => c.oda == BROADCAST
    case Localcast => c.oda == LOCALCAST
    case Oda(text) => IsAddress(text, 6) && c.oda == Decoded(text, 6)
    case V10 => c.ver == 0
    case V11 => c.ver == 1
    case NwStats => c.reqNw
    case LinkStats => c.reqLink
    case Rx => c.reqRx
    case Tx => c.reqTx
    case NetworkId(text) => IsAddress(text, 7) && c.nid == Decoded(text, 7)
    case LinkId(scanned) => scanned == Some(c.lid)
    case DaSa(text) => IsAddress(text, 6) && c.daSa == Decoded(text, 6)
    case AllLids => c.allLids
    case Gap(value, _, _) => c.gap == value % 0x1_0000_0000
    case Interface(_) => 0 < c.names
  }

  lemma ApplyObeys(c: Conf, o: Opt)
    requires Apply(c, o).Some?
    ensures Obeys(Apply(c, o).value, o)
  {
  }

  lemma ApplyKeeps(c: Conf, o: Opt, p: Opt)
    requires Obeys(c, o) && !Rivals(o, p) && Apply(c, p).Some?
    ensures Obeys(Apply(c, p).value, o)
  {
  }

  /** The last option on a field wins, whatever else is on the command line. */
  lemma {:induction false} LastOptionWins(opts: seq<Opt>, k: nat)
    requires k < |opts| && Fold(DEFAULTS, opts).Some?
    requires forall j :: k < j < |opts| ==> !Rivals(opts[k], opts[j])
    ensures Obeys(Fold(DEFAULTS, opts).value, opts[k])
    decreases |opts|
  {
    var last := |opts| - 1;
    var c := Fold(DEFAULTS, opts[..last]).value;
    if k == last {
      ApplyObeys(c, opts[k]);
    } else {
      LastOptionWins(opts[..last], k);
      ApplyKeeps(c, opts[k], opts[last]);
    }
  }

  predicate IsDestination(o: Opt) {
    o.Broadcast? || o.Localcast? || o.Oda?
  }

  predicate IsVersion(o: Opt) {
    o.V10? || o.V11?
  }

  lemma ApplyDefaults(c: Conf, o: Opt)
    requires Apply(c, o).Some?
    ensures !IsDestination(o) ==> Apply(c, o).value.oda == c.oda
    ensures !IsVersion(o) ==> Apply(c, o).value.ver == c.ver
    ensures !o.Gap? ==> Apply(c, o).value.gap == c.gap
  {
  }

  /** What no option on the command line decides: requests go to the broadcast address, in version 1.1, with
      gaps of 200 ms. */
  lemma {:induction false} FoldDefaults(opts: seq<Opt>)
    requires Fold(DEFAULTS, opts).Some?
    ensures var c := Fold(DEFAULTS, opts).value;
            && ((forall o :: o in opts ==> !IsDestination(o)) ==> c.oda == [0xff, 0xff, 0xff, 0xff, 0xff, 0xff])
            && ((forall o :: o in opts ==> !IsVersion(o)) ==> c.ver == 1)
            && ((forall o :: o in opts ==> !o.Gap?) ==> c.gap == 200000)
  {
    if opts != [] {
      var last := |opts| - 1;
      FoldDefaults(opts[..last]);
      assert opts[last] in opts;
      assert forall o :: o in opts[..last] ==> o in opts;
      ApplyDefaults(Fold(DEFAULTS, opts[..last]).value, opts[last]);
    }
  }

  /** The same of a valid command line; and what the last option on destination or version means in bytes. */
  lemma DefaultsExactly(opts: seq<Opt>)
    requires Parsed(opts).Some?
    ensures var c := Parsed(opts).value;
            && ((forall o :: o in opts ==> !IsDestination(o)) ==> c.oda == [0xff, 0xff, 0xff, 0xff, 0xff, 0xff])
            && ((forall o :: o in opts ==> !IsVersion(o)) ==> c.ver == 1)
            && ((forall o :: o in opts ==> !o.Gap?) ==> c.gap == 200000)
  {
    FoldDefaults(opts);
  }

  lemma LastDestination(opts: seq<Opt>, k: nat)
    requires Parsed(opts).Some? && k < |opts| && forall j :: k < j < |opts| ==> !IsDestination(opts[j])
    ensures opts[k].Broadcast? ==> Parsed(opts).value.oda == [0xff, 0xff, 0xff, 0xff, 0xff, 0xff]
    ensures opts[k].Localcast? ==> Parsed(opts).value.oda == [0x00, 0xb0, 0x52, 0x00, 0x00, 0x01]
  {
    if IsDestination(opts[k]) {
      ParsedObeysLast(opts, k);
    }
  }

  /** The option's argument can be used. */
  predicate WellFormed(o: Opt) {
    match o
    case Oda(text) => IsAddress(text, 6)
    case DaSa(text) => IsAddress(text, 6)
    case NetworkId(text) => IsAddress(text, 7)
    case LinkId(scanned) => scanned.Some? && 0 <= scanned.value <= 255
    case Gap(_, erange, consumed) => !erange && consumed
    case _ => true
  }

  ghost predicate AllWellFormed(opts: seq<Opt>) {
    forall o :: o in opts ==> WellFormed(o)
  }

  /** How many interface names there are. */
  function Interfaces(opts: seq<Opt>): nat {
    if opts == [] then 0 else Interfaces(opts[..|opts| - 1]) + if opts[|opts| - 1].Interface? then 1 else 0
  }

  lemma ApplyAccepts(c: Conf, o: Opt)
    ensures Apply(c, o).Some? <==> WellFormed(o) && (o.Interface? ==> c.names == 0)
    ensures Apply(c, o).Some? ==> Apply(c, o).value.names == c.names + if o.Interface? then 1 else 0
  {
  }

  /** The options are accepted exactly if each is well formed and at most one is an interface name. */
  lemma {:induction false} FoldAccepts(opts: seq<Opt>)
    ensures Fold(DEFAULTS, opts).Some? <==> AllWellFormed(opts) && Interfaces(opts) <= 1
    ensures Fold(DEFAULTS, opts).Some? ==> Fold(DEFAULTS, opts).value.names == Interfaces(opts)
  {
    if opts != [] {
      var last := |opts| - 1;
      FoldAccepts(opts[..last]);
      assert opts == opts[..last] + [opts[last]];
      var c := Fold(DEFAULTS, opts[..last]);
      if c.Some? {
        ApplyAccepts(c.value, opts[last]);
      }
    }
  }

  /** A command line passes validation exactly if each option is well formed, there is one interface
      name, and link statistics, if selected, come with a network id and a device address. */
  lemma ValidCommandLine(opts: seq<Opt>)
    ensures Parsed(opts).Some? <==>
              && AllWellFormed(opts) && Interfaces(opts) == 1
              && ((NwStats in opts && LinkStats !in opts) || (NamesNetwork(opts) && NamesDevice(opts)))
  {
    FoldAccepts(opts);
    if Fold(DEFAULTS, opts).Some? {
      Selection(opts);
    }
  }

  /** What is selected is what is named, and everything of a kind if nothing of that kind is named. */
  lemma SelectedByCommandLine(opts: seq<Opt>)
    requires Parsed(opts).Some?
    ensures var c := Parsed(opts).value;
            && c.reqNw == (NwStats in opts || LinkStats !in opts)
            && c.reqLink == (LinkStats in opts || NwStats !in opts)
            && c.reqRx == (Rx in opts || Tx !in opts)
            && c.reqTx == (Tx in opts || Rx !in opts)
            && c.allLids == (AllLids in opts) && (c.lid != -1 <==> NamesLink(opts))
            && Usable(c)
  {
    Selection(opts);
  }

  /** The last option on a field decides in the validated configuration, too. */
  lemma ParsedObeysLast(opts: seq<Opt>, k: nat)
    requires Parsed(opts).Some? && k < |opts| && forall j :: k < j < |opts| ==> !Rivals(opts[k], opts[j])
    ensures Obeys(Parsed(opts).value, opts[k])
  {
    LastOptionWins(opts, k);
  }

  /** What validation guarantees to the rest of the program. */
  predicate Usable(c: Conf) {
    && -1 <= c.lid <= 255 && |c.nid| == 7 && |c.daSa| == 6
    && (c.reqNw || c.reqLink) && (c.reqRx || c.reqTx)
    && (c.reqLink ==> c.nidSet && c.daSaSet)
  }
}
