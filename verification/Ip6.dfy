/**
 The IPv6 layer of proto_ip6.c: data packets. Neighbor discovery is in module Ndp.
 */
module Ip6 {
  import opened Bytes
  import opened Checksum
  import Mac

  const HDRSIZE: nat := 40
  /** Where the IPv6 header and its payload start in a frame. */
  const AT: nat := Mac.HDRSIZE
  const PLOAD: nat := AT + HDRSIZE

  const VERSION: byte := 6
  const HOPLIMIT: byte := 255
  const NH_ICMPV6: byte := 58

  type Ip6Addr = s: seq<byte> | |s| == 16
    witness [0, 0, 0, 0, 0, 0, 0, 0, 0, 0, 0, 0, 0, 0, 0, 0]

  datatype Ip6Cfg = Ip6Cfg(src: Ip6Addr, dst: Ip6Addr, nh: byte, mac: Mac.MacCfg)

  /** NET_IP6_PUT_HEADER_COMMON */
  function HeaderCommon(len: nat, nh: byte): (r: seq<byte>)
    ensures |r| == 8
  {
    [VERSION * 16, 0, 0, 0] + Be16(len) + [nh, HOPLIMIT]
  }

  function Header(c: Ip6Cfg, len: nat): (r: seq<byte>)
    ensures |r| == HDRSIZE
  {
    HeaderCommon(len, c.nh) + c.src + c.dst
  }

  function Packet(c: Ip6Cfg, payload: seq<byte>): seq<byte> {
    Header(c, |payload|) + payload
  }

  function Frame(c: Ip6Cfg, payload: seq<byte>): seq<byte> {
    Mac.Frame(c.mac, Packet(c, payload))
  }

  /** Everything in front of the payload. */
  function Headers(c: Ip6Cfg, len: nat): (r: seq<byte>)
    ensures |r| == PLOAD
  {
    Mac.Header(c.mac) + Header(c, len)
  }

  // ---------------------------------------------------------------- pseudo-header

  /** The pseudo-header of section 8.1 of RFC 8200. */
  function PseudoHeader(src: Ip6Addr, dst: Ip6Addr, len: nat, nh: byte): (r: seq<byte>)
    ensures |r| == 40
  {
    src + dst + PseudoTail(len, nh)
  }

  /** A 32-bit length, three zero bytes and the next header. */
  function PseudoTail(len: nat, nh: byte): (r: seq<byte>)
    ensures |r| == 8
  {
    [0, 0] + Be16(len) + [0, 0] + [0, nh]
  }

  /** The checksum test a receiver of an upper-layer message makes. */
  predicate ChecksumIsValid(src: Ip6Addr, dst: Ip6Addr, nh: byte, message: seq<byte>) {
    SumIsValid(WordSum(PseudoHeader(src, dst, |message|, nh) + message))
  }

  lemma PseudoHeaderSum(src: Ip6Addr, dst: Ip6Addr, len: u16, nh: byte, message: seq<byte>)
    ensures WordSum(PseudoHeader(src, dst, len, nh) + message)
            == WordSum(src) + WordSum(dst) + len + nh + WordSum(message)
  {
    WordSumConcat(PseudoHeader(src, dst, len, nh), message);
    WordSumConcat(src + dst, PseudoTail(len, nh));
    WordSumConcat(src, dst);
    PseudoTailSum(len, nh);
  }

  lemma PseudoTailSum(len: u16, nh: byte)
    ensures WordSum(PseudoTail(len, nh)) == len + nh
  {
    var length, last := Be16(len), [0, nh];
    WordSumConcat([0, 0] + length + [0, 0], last);
    WordSumConcat([0, 0] + length, [0, 0]);
    WordSumConcat([0, 0], length);
    WordSumOfWord([0, 0]);
    WordSumOfWord(length);
    WordSumOfWord(last);
    GetPutBe16(len, length, 0);
  }

  // ---------------------------------------------------------------- receive

  /** The parts of an IPv6 packet that starts at `AT` in a frame. */
  predicate HasHeader(frame: seq<byte>) {
    |frame| >= PLOAD
  }

  function PayloadLength(frame: seq<byte>): u16
    requires HasHeader(frame)
  {
    GetBe16(frame, AT + 4)
  }

  function NextHeader(frame: seq<byte>): byte
    requires HasHeader(frame)
  {
    frame[AT + 6]
  }

  function Source(frame: seq<byte>): Ip6Addr
    requires HasHeader(frame)
  {
    frame[AT + 8..AT + 24]
  }

  function Destination(frame: seq<byte>): Ip6Addr
    requires HasHeader(frame)
  {
    frame[AT + 24..AT + 40]
  }

  /** The checks before any address is looked at: zero, or the error to return. */
  function HeaderStatus(c: Ip6Cfg, frame: seq<byte>): (r: int)
    ensures r <= 0
    ensures r == 0 ==> HasHeader(frame) && PLOAD + PayloadLength(frame) <= |frame|
  {
    var m := Mac.Receive(c.mac, frame);
    if m.status < 0 then m.status
    else if !HasHeader(frame) then NET_EOVERFLOW
    else if frame[AT] / 16 != VERSION then NET_EPROTO
    else if PayloadLength(frame) > |frame| - PLOAD then NET_EOVERFLOW
    else 0
  }

  /** The bytes the IPv6 header declares as payload. */
  function Payload(frame: seq<byte>): seq<byte>
    requires HasHeader(frame) && PLOAD + PayloadLength(frame) <= |frame|
  {
    frame[PLOAD..PLOAD + PayloadLength(frame)]
  }
}
