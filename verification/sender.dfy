/** The sending half of the codec: `ieee1901_2010_message_send` and the frames it emits. */
module Sender {
  import opened CTypes
  import opened Codec

  const MIN_MSG_SIZE := 60
  const MAX_MSG_SIZE := 1500

  datatype Oper = Request | Confirm | Indication | Response
  {
    function Code(): (c: byte)
      ensures c < 4
    {
      match this
      case Request => 0
      case Confirm => 1
      case Indication => 2
      case Response => 3
    }
  }

  /** Bitwise or of two-bit numbers. */
  function OrTwoBits(a: nat, b: nat): (r: nat)
    requires a < 4 && b < 4
    ensures r < 4
  {
    (if a % 2 == 1 || b % 2 == 1 then 1 else 0) + (if 2 <= a || 2 <= b then 2 else 0)
  }

  /** `type | oper`: the operation only reaches the two low bits. */
  function OrOper(base: uint16, oper: Oper): uint16 {
    base - base % 4 + OrTwoBits(base % 4, oper.Code())
  }

  function Header(oda: Mac, osa: Mac, mmv: byte, mmtype: uint16): (h: seq<byte>)
    ensures |h| == HEADER_SIZE
  {
    oda + osa + [0x88, 0xe1, mmv, mmtype % 0x100, mmtype / 0x100, 0, 0]
  }

  function Padding(len: nat): nat {
    if HEADER_SIZE + len < MIN_MSG_SIZE then MIN_MSG_SIZE - (HEADER_SIZE + len) else 0
  }

  /** Header, payload, and zeros up to the minimum size. */
  function Frame(oda: Mac, osa: Mac, mmv: byte, base: uint16, oper: Oper, payload: seq<byte>): seq<byte> {
    Header(oda, osa, mmv, OrOper(base, oper)) + payload + Zeros(Padding(|payload|))
  }

  /** A socket, as the trace of the frames handed to it. */
  class Socket {
    var sent: seq<seq<byte>>

    constructor ()
      ensures sent == []
    {
      sent := [];
    }

    /** write(2) and writev(2): `written` is what the call returns. */
    method Write(bytes: seq<byte>, written: int) returns (rc: int)
      modifies this
      ensures sent == old(sent) + [bytes] && rc == written
    {
      sent := sent + [bytes];
      rc := written;
    }
  }

  /** The header fields, written into a zeroed frame. */
  method FillHeader(frame: array<byte>, oda: Mac, osa: Mac, mmv: byte, mmtype: uint16)
    requires frame.Length == MIN_MSG_SIZE && forall i :: 0 <= i < MIN_MSG_SIZE ==> frame[i] == 0
    modifies frame
    ensures frame[..] == Header(oda, osa, mmv, mmtype) + Zeros(MIN_MSG_SIZE - HEADER_SIZE)
  {
    forall i | 0 <= i < 6 {
      frame[i] := oda[i];
    }
    forall i | 0 <= i < 6 {
      frame[6 + i] := osa[i];
    }
    frame[12], frame[13] := 0x88, 0xe1;
    frame[14] := mmv;
    frame[15], frame[16] := mmtype % 0x100, mmtype / 0x100;
    frame[17], frame[18] := 0, 0;
  }

  method MessageSend(fd: Socket, oda: Mac, osa: Mac, mmv: byte, base: uint16, oper: Oper,
                     payload: array?<byte>, len: nat, written: int)
    returns (rc: int)
    requires payload != null ==> len <= payload.Length
    modifies fd
    ensures len != 0 && (payload == null || MAX_MSG_SIZE - HEADER_SIZE < len) ==>
              rc == -EINVAL && fd.sent == old(fd.sent)
    ensures len == 0 ==> rc == written && fd.sent == old(fd.sent) + [Frame(oda, osa, mmv, base, oper, [])]
    ensures payload != null && 0 < len <= MAX_MSG_SIZE - HEADER_SIZE ==>
              rc == written && fd.sent == old(fd.sent) + [Frame(oda, osa, mmv, base, oper, old(payload[..len]))]
  {
    var frame := new byte[MIN_MSG_SIZE](_ => 0);
    var pad := new byte[MIN_MSG_SIZE](_ => 0);
    var mmtype := OrOper(base, oper);
    FillHeader(frame, oda, osa, mmv, mmtype);
    var hdr := frame[..HEADER_SIZE];
    assert hdr == frame[..][..HEADER_SIZE] == Header(oda, osa, mmv, mmtype);

    if len == 0 {
      assert hdr + [] == hdr;
      rc := fd.Write(frame[..], written);
      return;
    }
    if payload == null {
      return -EINVAL;
    }
    if MAX_MSG_SIZE - HEADER_SIZE < len {
      return -EINVAL;
    }
    var iov := [hdr, payload[..len]];
    var apduLen := HEADER_SIZE + len;
    if apduLen < MIN_MSG_SIZE {
      iov := iov + [pad[..MIN_MSG_SIZE - apduLen]];
      assert iov[2] == Zeros(Padding(len));
      rc := fd.Write(iov[0] + iov[1] + iov[2], written);
    } else {
      assert iov[0] + iov[1] == iov[0] + iov[1] + Zeros(0);
      rc := fd.Write(iov[0] + iov[1], written);
    }
  }

  /** Every frame the sender emits has max(60, 19 + len) bytes, so it passes the receivers' gate,
      and within the sender's limit it fits their 1500-byte buffer. */
  lemma FrameSize(oda: Mac, osa: Mac, mmv: byte, base: uint16, oper: Oper, payload: seq<byte>)
    ensures |Frame(oda, osa, mmv, base, oper, payload)| == Max(MIN_MSG_SIZE, HEADER_SIZE + |payload|)
    ensures MIN_MSG_SIZE <= |Frame(oda, osa, mmv, base, oper, payload)|
    ensures |Frame(oda, osa, mmv, base, oper, payload)| <= MAX_MSG_SIZE <==> |payload| <= MAX_MSG_SIZE - HEADER_SIZE
  {
  }

  /** Splitting an `mmtype` at its two low bits gives back the type and the operation exactly if
      the type is a multiple of 4. */
  lemma TypeAndOperRecovered(base: uint16, oper: Oper)
    ensures var mmtype := OrOper(base, oper);
            mmtype - mmtype % 4 == base && mmtype % 4 == oper.Code() <==> base % 4 == 0
  {
    var low := base % 4;
    assert (base - low) % 4 == 0;
  }

  /** Bit `k` of a number. */
  predicate Bit(x: nat, k: nat) {
    if k == 0 then x % 2 == 1 else Bit(x / 2, k - 1)
  }

  /** The operations are the numbers 0 to 3 of table 6-58 of IEEE 1901-2010. */
  lemma OperCodes(oper: Oper)
    ensures oper.Code() == match oper case Request => 0 case Confirm => 1 case Indication => 2 case Response => 3
  {
  }

  lemma Halves(q: nat, m: nat)
    requires m < 4
    ensures (4 * q + m) % 2 == m % 2 && (4 * q + m) / 2 == 2 * q + m / 2 && (2 * q + m / 2) % 2 == m / 2
  {
    ModUnique(4 * q + m, 2 * q + m / 2, m % 2, 2);
    ModUnique(2 * q + m / 2, q, m / 2, 2);
  }

  lemma LowBits(x: nat)
    ensures (Bit(x, 0) <==> x % 4 % 2 == 1) && (Bit(x, 1) <==> x % 4 / 2 == 1)
  {
    Halves(x / 4, x % 4);
    assert Bit(x, 1) == Bit(x / 2, 0);
  }

  /** Combining a type and an operation is a bitwise or, also for types that are no multiples of 4. */
  lemma OrBitwise(base: uint16, oper: Oper, k: nat)
    ensures Bit(OrOper(base, oper), k) <==> Bit(base, k) || Bit(oper.Code(), k)
  {
    var x := OrOper(base, oper);
    assert x / 4 == base / 4 && x % 4 == OrTwoBits(base % 4, oper.Code());
    if k < 2 {
      LowBits(x);
      LowBits(base);
      LowBits(oper.Code());
    } else {
      HighBit(x, k);
      HighBit(base, k);
      HighBit(oper.Code(), k);
      NoBits(k - 2);
    }
  }

  lemma HighBit(x: nat, k: nat)
    requires 2 <= k
    ensures Bit(x, k) == Bit(x / 4, k - 2)
  {
    assert x / 2 / 2 == x / 4;
    assert Bit(x, k) == Bit(x / 2, k - 1) == Bit(x / 2 / 2, k - 2);
  }

  lemma {:induction false} NoBits(k: nat)
    ensures !Bit(0, k)
  {
    if 0 < k {
      NoBits(k - 1);
    }
  }

  lemma ConfirmType(base: uint16)
    requires base % 4 == 0
    ensures OrOper(base, Confirm) == base + CONFIRM
  {
  }

  /** Hence two sends of such types are told apart by their `mmtype`. */
  lemma TypeAndOperUnique(base: uint16, oper: Oper, base': uint16, oper': Oper)
    requires base % 4 == 0 && base' % 4 == 0 && OrOper(base, oper) == OrOper(base', oper')
    ensures base == base' && oper == oper'
  {
    TypeAndOperRecovered(base, oper);
    TypeAndOperRecovered(base', oper');
  }

  /** The dispatcher reads back from an emitted frame what the sender put in. */
  lemma HeaderReadBack(oda: Mac, osa: Mac, mmv: byte, base: uint16, oper: Oper, payload: seq<byte>)
    ensures var f := Frame(oda, osa, mmv, base, oper, payload);
            && HEADER_SIZE <= |f| && f[..6] == oda && Osa(f) == osa && EtherType(f) == ETHERTYPE
            && MmType(f) == OrOper(base, oper) && FragmentCount(f) == 0
            && f[HEADER_SIZE..] == payload + Zeros(Padding(|payload|))
  {
    var f := Frame(oda, osa, mmv, base, oper, payload);
    var h := Header(oda, osa, mmv, OrOper(base, oper));
    assert f == h + (payload + Zeros(Padding(|payload|)));
    assert f[..HEADER_SIZE] == h;
    assert f[..6] == h[..6] && f[6..12] == h[6..12];
    assert forall i :: 0 <= i < HEADER_SIZE ==> f[i] == h[i];
  }
}
