/**
 Neighbor discovery in proto_ip6.c: which solicitations are answered, and with what.
 */
module Ndp {
  import opened Bytes
  import opened Checksum
  import opened Ip6
  import Mac

  const ICMPV6_HDRSIZE: nat := 4
  const NS_HDRSIZE: nat := 20
  const NA_HDRSIZE: nat := 20
  const LLA_OPT_SIZE: nat := 8

  const TYPE_NS: byte := 135
  const TYPE_NA: byte := 136

  /** The length of the advertisement behind its IPv6 header, and of the whole frame. */
  const NA_LEN: nat := ICMPV6_HDRSIZE + NA_HDRSIZE + LLA_OPT_SIZE
  const NA_FRAME_LEN: nat := PLOAD + NA_LEN

  /**
   What the guard of _net_icmpv6_send_na asks of `buflen`: it forgets the four bytes of
   the ICMPv6 header.
   */
  const NA_GUARD: nat := PLOAD + NA_HDRSIZE + LLA_OPT_SIZE

  const UNSPECIFIED: Ip6Addr := [0, 0, 0, 0, 0, 0, 0, 0, 0, 0, 0, 0, 0, 0, 0, 0]
  const ALL_NODES: Ip6Addr := [0xFF, 2, 0, 0, 0, 0, 0, 0, 0, 0, 0, 0, 0, 0, 0, 1]

  /** The link-local address with the interface identifier of `addr`. */
  function LinkLocal(addr: Ip6Addr): Ip6Addr {
    [0xFE, 0x80, 0, 0, 0, 0, 0, 0] + addr[8..]
  }

  /** The solicited-node multicast address of `addr`, section 2.7.1 of RFC 4291. */
  function SolicitedNode(addr: Ip6Addr): Ip6Addr {
    [0xFF, 2, 0, 0, 0, 0, 0, 0, 0, 0, 0, 1, 0xFF] + addr[13..]
  }

  datatype Match = NoMatch | Unicast | AllNodes | SolicitedNodes | LinkLocalMatch

  /** NET_IP6_CMP_ADDR */
  predicate CmpAddr(theirs: Ip6Addr, ours: Ip6Addr): (r: bool)
    ensures r <==> theirs == ours
  {
    && theirs[0] == ours[0] && theirs[1] == ours[1] && theirs[2] == ours[2] && theirs[3] == ours[3]
    && theirs[4] == ours[4] && theirs[5] == ours[5] && theirs[6] == ours[6] && theirs[7] == ours[7]
    && theirs[8] == ours[8] && theirs[9] == ours[9] && theirs[10] == ours[10] && theirs[11] == ours[11]
    && theirs[12] == ours[12] && theirs[13] == ours[13] && theirs[14] == ours[14] && theirs[15] == ours[15]
  }

  /** NET_IP6_CMP_LLADDR */
  predicate CmpLlAddr(theirs: Ip6Addr, ours: Ip6Addr): (r: bool)
    ensures r <==> theirs == LinkLocal(ours)
  {
    && theirs[0] == 0xFE && theirs[1] == 0x80 && theirs[2] == 0 && theirs[3] == 0
    && theirs[4] == 0 && theirs[5] == 0 && theirs[6] == 0 && theirs[7] == 0
    && theirs[8] == ours[8] && theirs[9] == ours[9] && theirs[10] == ours[10] && theirs[11] == ours[11]
    && theirs[12] == ours[12] && theirs[13] == ours[13] && theirs[14] == ours[14] && theirs[15] == ours[15]
  }

  /** _net_icmpv6_match_addr */
  function MatchAddr(ours: Ip6Addr, dst: Ip6Addr): (m: Match)
    ensures m == if dst == ours then Unicast
                 else if dst == LinkLocal(ours) then LinkLocalMatch
                 else if dst == ALL_NODES then AllNodes
                 else if dst == SolicitedNode(ours) then SolicitedNodes
                 else NoMatch
  {
    if CmpAddr(dst, ours) then Unicast
    else if CmpLlAddr(dst, ours) then LinkLocalMatch
    else if (dst[0] == 0xFF && dst[1] == 0x02 && dst[2] == 0 && dst[3] == 0 && dst[4] == 0 && dst[5] == 0
             && dst[6] == 0 && dst[7] == 0 && dst[8] == 0 && dst[9] == 0 && dst[10] == 0) then
      if dst[11] == 0 && dst[12] == 0 && dst[13] == 0 && dst[14] == 0 && dst[15] == 1 then
        assert dst == ALL_NODES;
        AllNodes
      else if dst[11] == 1 && dst[12] == 0xFF && dst[13] == ours[13] && dst[14] == ours[14] && dst[15] == ours[15] then
        assert dst == SolicitedNode(ours);
        SolicitedNodes
      else NoMatch
    else NoMatch
  }

  // ---------------------------------------------------------------- the request

  /** The result of _net_ip6_process_icmpv6, which is never a success. */
  function Status(c: Ip6Cfg, dst: Ip6Addr, msg: seq<byte>): (r: int)
    ensures r < 0
  {
    if |msg| < ICMPV6_HDRSIZE then NET_EOVERFLOW
    else if msg[0] == TYPE_NS && !MatchAddr(c.src, dst).NoMatch? && |msg| < ICMPV6_HDRSIZE + NS_HDRSIZE
    then NET_EOVERFLOW
    else NET_EAGAIN
  }

  /** A neighbor solicitation, sent to an address we listen to, for an address of ours. */
  predicate Solicits(c: Ip6Cfg, dst: Ip6Addr, msg: seq<byte>) {
    && |msg| >= ICMPV6_HDRSIZE + NS_HDRSIZE
    && msg[0] == TYPE_NS
    && (dst == c.src || dst == LinkLocal(c.src) || dst == ALL_NODES || dst == SolicitedNode(c.src))
    && (Target(msg) == c.src || Target(msg) == LinkLocal(c.src))
  }

  function Target(msg: seq<byte>): Ip6Addr
    requires |msg| >= ICMPV6_HDRSIZE + NS_HDRSIZE
  {
    msg[8..24]
  }

  // ---------------------------------------------------------------- the answer

  function AdvertisementBody(c: Ip6Cfg, tgt: Ip6Addr): (r: seq<byte>)
    ensures |r| == NA_HDRSIZE + LLA_OPT_SIZE
  {
    [0x60, 0, 0, 0] + tgt + [2, 1] + c.mac.src
  }

  function AdvertisementMessage(c: Ip6Cfg, tgt: Ip6Addr, cksum: u16): (r: seq<byte>)
    ensures |r| == NA_LEN
  {
    [TYPE_NA, 0] + Be16(cksum) + AdvertisementBody(c, tgt)
  }

  function AdvertisementCksum(c: Ip6Cfg, dst: Ip6Addr, tgt: Ip6Addr): u16 {
    CksumField(WordSum(LinkLocal(c.src)) + WordSum(dst) + NA_LEN + NH_ICMPV6
               + WordSum(AdvertisementMessage(c, tgt, 0)))
  }

  function AdvertisementHeader(c: Ip6Cfg, dst: Ip6Addr): (r: seq<byte>)
    ensures |r| == HDRSIZE
  {
    HeaderCommon(NA_LEN, NH_ICMPV6) + LinkLocal(c.src) + dst
  }

  function Advertisement(c: Ip6Cfg, dst: Ip6Addr, tgt: Ip6Addr): (r: seq<byte>)
    ensures |r| == HDRSIZE + NA_LEN
  {
    AdvertisementHeader(c, dst) + AdvertisementMessage(c, tgt, AdvertisementCksum(c, dst, tgt))
  }

  /** The address printed for a `dst_addr` argument, which is null for an unknown peer. */
  function PrintedDst(dst: Option<Ip6Addr>): Ip6Addr {
    match dst
    case None => ALL_NODES
    case Some(addr) => addr
  }

  /** To whom the answer to a solicitation from `src` goes. */
  function ReplyTo(src: Ip6Addr): Ip6Addr {
    if src == UNSPECIFIED then ALL_NODES else src
  }

  function ReplyFrame(c: Ip6Cfg, src: Ip6Addr, tgt: Ip6Addr): (r: seq<byte>)
    ensures |r| == NA_FRAME_LEN
  {
    Mac.Frame(c.mac, Advertisement(c, ReplyTo(src), tgt))
  }

  // ---------------------------------------------------------------- printing the answer

  function Unsummed(c: Ip6Cfg, dst: Ip6Addr, tgt: Ip6Addr): (r: seq<byte>)
    ensures |r| == HDRSIZE + NA_LEN
  {
    AdvertisementHeader(c, dst) + AdvertisementMessage(c, tgt, 0)
  }

  /** The sum _net_icmpv6_fix_cksum takes over a packet starting at `at`. */
  function PacketSum(b: seq<byte>, at: nat, payloadlen: nat): nat
    requires 4 <= payloadlen < 0x1_0000 && at + HDRSIZE + payloadlen <= |b|
  {
    WordSum(b[at + 8..at + 40]) + GetBe16(b, at + 4) + NH_ICMPV6 + WordSum(b[at + 40..at + 40 + payloadlen])
  }

  lemma UnsummedSum(c: Ip6Cfg, dst: Ip6Addr, tgt: Ip6Addr, before: seq<byte>, at: nat)
    requires at + HDRSIZE + NA_LEN <= |before|
    ensures CksumField(PacketSum(Splice(before, at, Unsummed(c, dst, tgt)), at, NA_LEN))
            == AdvertisementCksum(c, dst, tgt)
  {
    var packet := Unsummed(c, dst, tgt);
    SliceInSplice(before, at, packet, 4, 6);
    SliceInSplice(before, at, packet, 8, 40);
    SliceInSplice(before, at, packet, 40, 72);
    assert packet[4..6] == Be16(NA_LEN);
    GetPutBe16(NA_LEN, Splice(before, at, packet), at + 4);
    assert packet[8..40] == LinkLocal(c.src) + dst;
    WordSumConcat(LinkLocal(c.src), dst);
    assert packet[40..72] == AdvertisementMessage(c, tgt, 0);
  }

  lemma SummedPacket(c: Ip6Cfg, dst: Ip6Addr, tgt: Ip6Addr, before: seq<byte>, at: nat)
    requires at + HDRSIZE + NA_LEN <= |before|
    ensures var cksum := AdvertisementCksum(c, dst, tgt);
            Splice(Splice(before, at, Unsummed(c, dst, tgt)), at + HDRSIZE + 2, Be16(cksum))
            == Splice(before, at, Advertisement(c, dst, tgt))
  {
    var cksum := AdvertisementCksum(c, dst, tgt);
    var head, body := AdvertisementHeader(c, dst) + [TYPE_NA, 0], AdvertisementBody(c, tgt);
    SpliceField(before, at, head, Be16(0), Be16(cksum), body);
    assert Unsummed(c, dst, tgt) == head + Be16(0) + body;
    assert Advertisement(c, dst, tgt) == head + Be16(cksum) + body;
  }
}
