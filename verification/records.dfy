/** The packed records of include/ieee1901-2010.h, as values and as bytes. Bit fields fill a byte
    from its low end; 16- and 32-bit counters are in host (little-endian) byte order. */
module Records {
  import opened CTypes
  import opened Codec

  type Nid = s: seq<byte> | |s| == 7 witness [0, 0, 0, 0, 0, 0, 0]
  type nibble = x: int | 0 <= x < 16

  /** `flags` is the byte of seven bit fields behind `access`. */
  datatype Station = Station(mac: Mac, tei: byte, sameNetwork: byte, snid: nibble, access: nibble, flags: byte,
                             signalLevel: byte, averageBle: byte)

  datatype Network = Network(nid: Nid, snid: nibble, access: nibble, hybridMode: byte, numSlots: byte,
                             coordinating: byte, offset: uint16)

  datatype NwInfo = NwInfo(nid: Nid, snid: nibble, tei: byte, role: byte, bmMac: Mac, access: byte,
                           numCoordinated: byte)

  datatype Stats = Stats(da: Mac, avgTx: byte, avgRx: byte)

  datatype LinkStatsRequest = LinkStatsRequest(reqType: byte, reqId: byte, nid: Nid, lid: byte, tlFlag: byte,
                                               mgmtFlag: byte, daSa: Mac)

  datatype ConfirmHead = ConfirmHead(reqId: byte, rspType: byte)

  datatype Receive = Receive(beaconPeriods: uint16, msdus: uint32, octets: uint32, segOk: uint32, segMissed: uint32,
                             pbs: uint32, bursts: uint32, mpdus: uint32, icvFails: uint32)

  datatype Transmit = Transmit(beaconPeriods: uint16, msdus: uint32, octets: uint32, segs: uint32, segOk: uint32,
                               segDropped: uint32, pbs: uint32, mpdus: uint32, bursts: uint32, sacks: uint32,
                               latBins: byte)

  // ----- layout -----

  function Le16(x: uint16): (b: seq<byte>)
    ensures |b| == 2
  {
    [x % 0x100, x / 0x100]
  }

  function Le32(x: uint32): (b: seq<byte>)
    ensures |b| == 4
  {
    [x % 0x100, x / 0x100 % 0x100, x / 0x1_0000 % 0x100, x / 0x100_0000]
  }

  function EncodeStation(s: Station): (b: seq<byte>)
    ensures |b| == STATION_SIZE
  {
    s.mac + [s.tei, s.sameNetwork, s.snid + 16 * s.access, s.flags, s.signalLevel, s.averageBle]
  }

  function DecodeStation(b: seq<byte>): (s: Station)
    requires |b| == STATION_SIZE
  {
    Station(b[..6], b[6], b[7], b[8] % 16, b[8] / 16, b[9], b[10], b[11])
  }

  function EncodeNetwork(n: Network): (b: seq<byte>)
    ensures |b| == NETWORK_SIZE
  {
    n.nid + [n.snid + 16 * n.access, n.hybridMode, n.numSlots, n.coordinating] + Le16(n.offset)
  }

  function DecodeNetwork(b: seq<byte>): Network
    requires |b| == NETWORK_SIZE
  {
    Network(b[..7], b[7] % 16, b[7] / 16, b[8], b[9], b[10], b[11] + 0x100 * (b[12] as int))
  }

  /** The four bits behind `snid` belong to no field. */
  function EncodeNwInfo(n: NwInfo): (b: seq<byte>)
    ensures |b| == NWINFO_SIZE
  {
    n.nid + [n.snid, n.tei, n.role] + n.bmMac + [n.access, n.numCoordinated]
  }

  function DecodeNwInfo(b: seq<byte>): NwInfo
    requires |b| == NWINFO_SIZE
  {
    NwInfo(b[..7], b[7] % 16, b[8], b[9], b[10..16], b[16], b[17])
  }

  function EncodeStats(s: Stats): (b: seq<byte>)
    ensures |b| == STATS_SIZE
  {
    s.da + [s.avgTx, s.avgRx]
  }

  function DecodeStats(b: seq<byte>): Stats
    requires |b| == STATS_SIZE
  {
    Stats(b[..6], b[6], b[7])
  }

  const REQUEST_SIZE := 18

  function EncodeRequest(r: LinkStatsRequest): (b: seq<byte>)
    ensures |b| == REQUEST_SIZE
  {
    [r.reqType, r.reqId] + r.nid + [r.lid, r.tlFlag, r.mgmtFlag] + r.daSa
  }

  function EncodeHead(h: ConfirmHead): (b: seq<byte>)
    ensures |b| == CONFIRM_HEAD_SIZE
  {
    [h.reqId, h.rspType]
  }

  function EncodeReceive(r: Receive): (b: seq<byte>)
    ensures |b| == RECEIVE_SIZE
  {
    Le16(r.beaconPeriods) + Le32(r.msdus) + Le32(r.octets) + Le32(r.segOk) + Le32(r.segMissed)
    + Le32(r.pbs) + Le32(r.bursts) + Le32(r.mpdus) + Le32(r.icvFails)
  }

  function EncodeTransmit(t: Transmit): (b: seq<byte>)
    ensures |b| == TRANSMIT_SIZE
  {
    Le16(t.beaconPeriods) + Le32(t.msdus) + Le32(t.octets) + Le32(t.segs) + Le32(t.segOk)
    + Le32(t.segDropped) + Le32(t.pbs) + Le32(t.mpdus) + Le32(t.bursts) + Le32(t.sacks) + [t.latBins]
  }

  // ----- where the fields are -----

  /** The fields of a station record, byte by byte. */
  lemma StationLayout(s: Station)
    ensures var b := EncodeStation(s);
            && b[..6] == s.mac && b[6] == s.tei && b[7] == s.sameNetwork && b[8] % 16 == s.snid && b[8] / 16 == s.access
            && b[9] == s.flags && b[10] == s.signalLevel && b[11] == s.averageBle
  {
    assert EncodeStation(s)[..6] == s.mac;
  }

  lemma NetworkLayout(n: Network)
    ensures var b := EncodeNetwork(n);
            && b[..7] == n.nid && b[7] % 16 == n.snid && b[7] / 16 == n.access && b[8] == n.hybridMode
            && b[9] == n.numSlots && b[10] == n.coordinating && b[11] + 0x100 * (b[12] as int) == n.offset
  {
    assert EncodeNetwork(n)[..7] == n.nid;
  }

  lemma NwInfoLayout(n: NwInfo)
    ensures var b := EncodeNwInfo(n);
            && b[..7] == n.nid && b[7] == n.snid && b[8] == n.tei && b[9] == n.role && b[10..16] == n.bmMac
            && b[16] == n.access && b[17] == n.numCoordinated
  {
    assert EncodeNwInfo(n)[..7] == n.nid && EncodeNwInfo(n)[10..16] == n.bmMac;
  }

  lemma StatsLayout(s: Stats)
    ensures var b := EncodeStats(s); b[..6] == s.da && b[6] == s.avgTx && b[7] == s.avgRx
  {
    assert EncodeStats(s)[..6] == s.da;
  }

  // ----- records and bytes correspond one to one -----

  lemma StationRoundTrip(s: Station, b: seq<byte>)
    requires |b| == STATION_SIZE
    ensures DecodeStation(EncodeStation(s)) == s && EncodeStation(DecodeStation(b)) == b
  {
    assert EncodeStation(s)[..6] == s.mac;
  }

  lemma NetworkRoundTrip(n: Network, b: seq<byte>)
    requires |b| == NETWORK_SIZE
    ensures DecodeNetwork(EncodeNetwork(n)) == n && EncodeNetwork(DecodeNetwork(b)) == b
  {
    assert EncodeNetwork(n)[..7] == n.nid;
  }

  /** Bytes come back from a network-info record exactly if the four unused bits are zero. */
  lemma NwInfoRoundTrip(n: NwInfo, b: seq<byte>)
    requires |b| == NWINFO_SIZE
    ensures DecodeNwInfo(EncodeNwInfo(n)) == n
    ensures EncodeNwInfo(DecodeNwInfo(b)) == b <==> b[7] < 16
  {
    assert EncodeNwInfo(n)[..7] == n.nid && EncodeNwInfo(n)[10..16] == n.bmMac;
    assert EncodeNwInfo(DecodeNwInfo(b))[7] == b[7] % 16;
  }

  lemma StatsRoundTrip(s: Stats, b: seq<byte>)
    requires |b| == STATS_SIZE
    ensures DecodeStats(EncodeStats(s)) == s && EncodeStats(DecodeStats(b)) == b
  {
    assert EncodeStats(s)[..6] == s.da;
  }
}
