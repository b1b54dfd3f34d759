/**
 What the answer to a neighbor solicitation carries, and which multicast destinations
 reach the network layer at all.
 */
module NdpProperties {
  import opened Bytes
  import opened Checksum
  import opened Ip6
  import Ip6Layer
  import Mac
  import Ndp
  import opened Serial
  import SerialFraming

  /** The fields of the advertisement in a frame. */
  predicate IsAdvertisement(frame: seq<byte>) {
    && |frame| == Ndp.NA_FRAME_LEN
    && frame[AT] / 16 == VERSION
    && PayloadLength(frame) == Ndp.NA_LEN
    && NextHeader(frame) == NH_ICMPV6
    && frame[AT + 7] == HOPLIMIT
    && Payload(frame)[0] == Ndp.TYPE_NA && Payload(frame)[1] == 0
  }

  lemma AdvertisementSum(c: Ip6Cfg, tgt: Ip6Addr, field: u16)
    ensures WordSum(Ndp.AdvertisementMessage(c, tgt, field))
            == WordSum(Ndp.AdvertisementMessage(c, tgt, 0)) + field
  {
    FieldSum([Ndp.TYPE_NA, 0], field, Ndp.AdvertisementBody(c, tgt));
    FieldSum([Ndp.TYPE_NA, 0], 0, Ndp.AdvertisementBody(c, tgt));
  }

  /** The checksum of every advertisement is valid and never zero. */
  lemma AdvertisementIsValid(c: Ip6Cfg, dst: Ip6Addr, tgt: Ip6Addr)
    ensures var field := Ndp.AdvertisementCksum(c, dst, tgt);
            && field != 0
            && ChecksumIsValid(Ndp.LinkLocal(c.src), dst, NH_ICMPV6, Ndp.AdvertisementMessage(c, tgt, field))
  {
    var src, field := Ndp.LinkLocal(c.src), Ndp.AdvertisementCksum(c, dst, tgt);
    var t := WordSum(src) + WordSum(dst) + Ndp.NA_LEN + NH_ICMPV6
             + WordSum(Ndp.AdvertisementMessage(c, tgt, 0));
    CksumFieldValidity(t, t);
    AdvertisementSum(c, tgt, field);
    PseudoHeaderSum(src, dst, Ndp.NA_LEN, NH_ICMPV6, Ndp.AdvertisementMessage(c, tgt, field));
  }

  /** Where the parts of an advertisement are in its frame. */
  lemma AdvertisementParts(c: Ip6Cfg, dst: Ip6Addr, tgt: Ip6Addr)
    ensures var frame := Mac.Frame(c.mac, Ndp.Advertisement(c, dst, tgt));
            && IsAdvertisement(frame)
            && Source(frame) == Ndp.LinkLocal(c.src)
            && Destination(frame) == dst
            && Payload(frame) == Ndp.AdvertisementMessage(c, tgt, Ndp.AdvertisementCksum(c, dst, tgt))
  {
    var packet := Ndp.Advertisement(c, dst, tgt);
    var frame := Mac.Frame(c.mac, packet);
    assert frame[AT..AT + |packet|] == packet;
    assert packet[4..6] == Be16(Ndp.NA_LEN) && packet[8..24] == Ndp.LinkLocal(c.src) && packet[24..40] == dst;
    WordOfPart(frame, AT, packet, 4, Ndp.NA_LEN);
    ByteOfPart(frame, AT, packet, 0);
    ByteOfPart(frame, AT, packet, 6);
    ByteOfPart(frame, AT, packet, 7);
    SliceOfPart(frame, AT, packet, 8, 24);
    SliceOfPart(frame, AT, packet, 24, 40);
    SliceOfPart(frame, AT, packet, 40, 72);
  }

  /**
   The answer to a solicitation: it advertises the solicited target with our link-layer
   address, carries the address of the solicitor as its IPv6 destination, or all nodes if
   the solicitor has none, and a checksum that section 2.3 of RFC 4443 accepts. Its flags
   and its Ethernet destination are always the same.
   */
  lemma ReplyAnswers(c: Ip6Cfg, frame: seq<byte>)
    requires Ip6Layer.IsSolicitation(c, frame)
    ensures var reply := Ip6Layer.Reply(c, frame);
            && IsAdvertisement(reply)
            && reply[..14] == c.mac.dst + c.mac.src + c.mac.ethertype
            && Payload(reply)[4..8] == [0x60, 0, 0, 0]
            && Ndp.Target(Payload(reply)) == Ndp.Target(Payload(frame))
            && Payload(reply)[24..] == [2, 1] + c.mac.src
            && Destination(reply) == (if Source(frame) == Ndp.UNSPECIFIED then Ndp.ALL_NODES else Source(frame))
            && Source(reply) == Ndp.LinkLocal(c.src)
            && ChecksumIsValid(Source(reply), Destination(reply), NH_ICMPV6, Payload(reply))
  {
    var dst, tgt := Ndp.ReplyTo(Source(frame)), Ndp.Target(Payload(frame));
    AdvertisementParts(c, dst, tgt);
    AdvertisementIsValid(c, dst, tgt);
    var message := Ndp.AdvertisementMessage(c, tgt, Ndp.AdvertisementCksum(c, dst, tgt));
    ReplyFlags(c, dst, tgt);
    assert message[8..24] == tgt && message[24..] == [2, 1] + c.mac.src;
  }

  lemma ReplyFlags(c: Ip6Cfg, dst: Ip6Addr, tgt: Ip6Addr)
    ensures Ndp.AdvertisementMessage(c, tgt, Ndp.AdvertisementCksum(c, dst, tgt))[4..8] == [0x60, 0, 0, 0]
    ensures Mac.Frame(c.mac, Ndp.Advertisement(c, dst, tgt))[..14] == c.mac.dst + c.mac.src + c.mac.ethertype
  {
  }

  /** The solicited flag of an advertisement. */
  predicate SolicitedFlag(reply: seq<byte>)
    requires IsAdvertisement(reply)
  {
    Payload(reply)[4] / 0x40 % 2 == 1
  }

  /**
   Section 7.2.4 of RFC 4861 sets the solicited flag exactly when the solicitation has a
   source address. The answer does so only in that case; it sets the flag in the other, too.
   */
  lemma SolicitedFlagIsRightIff(c: Ip6Cfg, frame: seq<byte>)
    requires Ip6Layer.IsSolicitation(c, frame)
    ensures IsAdvertisement(Ip6Layer.Reply(c, frame))
    ensures (SolicitedFlag(Ip6Layer.Reply(c, frame)) <==> Source(frame) != Ndp.UNSPECIFIED)
            <==> Source(frame) != Ndp.UNSPECIFIED
  {
    ReplyAnswers(c, frame);
    var reply := Ip6Layer.Reply(c, frame);
    assert Payload(reply)[4] == Payload(reply)[4..8][0];
  }

  /** The Ethernet address the answer should have, section 7 of RFC 2464 for all nodes. */
  function ReplyStation(frame: seq<byte>): Mac.MacAddr
    requires HasHeader(frame)
  {
    if Source(frame) == Ndp.UNSPECIFIED then EthernetGroup(Ndp.ALL_NODES) else frame[6..12]
  }

  /** The answer gets to the station that asked, or to the group, only if that is the configured peer. */
  lemma ReplyReachesIff(c: Ip6Cfg, frame: seq<byte>)
    requires Ip6Layer.IsSolicitation(c, frame)
    ensures Ip6Layer.Reply(c, frame)[..6] == ReplyStation(frame) <==> c.mac.dst == ReplyStation(frame)
  {
    ReplyAnswers(c, frame);
    var reply := Ip6Layer.Reply(c, frame);
    assert reply[..6] == reply[..14][..6] == c.mac.dst;
  }

  // ---------------------------------------------------------------- the guard

  /** What the guard of _net_icmpv6_send_na is for: an answer that is sent stays within `buflen`. */
  lemma AnswerStaysInsideIff(c: Ip6Cfg, frame: seq<byte>, buflen: u16)
    requires Ip6Layer.IsSolicitation(c, frame) && |frame| <= buflen
    ensures (buflen >= Ndp.NA_GUARD ==> |Ip6Layer.Reply(c, frame)| <= buflen) <==> !(82 <= buflen < 86)
  {
  }

  /** A solicitation of 78 bytes that a buffer of 82 holds; the answer takes 86. */
  lemma AnswerIsTooLong(c: Ip6Cfg, peer: Mac.MacAddr, src: Ip6Addr) returns (frame: seq<byte>)
    requires c.mac.suffixes == Suffixes(c.src)
    ensures |frame| == 78 && ReadCall(Line(frame), 82).Frame() == frame
    ensures Ip6Layer.IsSolicitation(c, frame) && 82 >= Ndp.NA_GUARD
    ensures |Ip6Layer.Reply(c, frame)| == 86
  {
    var msg := [Ndp.TYPE_NS, 0, 0, 0, 0, 0, 0, 0] + c.src;
    frame := Multicast(peer, c.mac.ethertype, src, Ndp.ALL_NODES, msg, []);
    assert Ndp.Target(msg) == c.src;
    MulticastSolicitationIsAnswered(c, peer, src, Ndp.ALL_NODES, msg, []);
    SerialFraming.ReadInvertsWrite(frame, "", 82);
    assert Line(frame) + "" == Line(frame);
  }

  // ---------------------------------------------------------------- link-layer filter

  /** NET_IP6_L2_MCSUFFIXES: the suffixes registered for an address. */
  function Suffixes(addr: Ip6Addr): seq<Mac.Suffix> {
    [[0, 0, 0, 1], [0xFF, addr[13], addr[14], addr[15]]]
  }

  /** The Ethernet address of a multicast group, section 7 of RFC 2464. */
  function EthernetGroup(dst: Ip6Addr): Mac.MacAddr {
    [0x33, 0x33] + dst[12..]
  }

  /** The link filter lets through every group that the network layer listens to. */
  lemma LinkFilterCovers(c: Ip6Cfg, dst: Ip6Addr)
    requires c.mac.suffixes == Suffixes(c.src)
    requires var m := Ndp.MatchAddr(c.src, dst); m.AllNodes? || m.SolicitedNodes?
    ensures Mac.Admits(c.mac, EthernetGroup(dst))
  {
    var group := EthernetGroup(dst);
    assert group[2..6] == dst[12..];
    if Ndp.MatchAddr(c.src, dst).AllNodes? {
      assert dst[12..] == c.mac.suffixes[0];
    } else {
      assert Ndp.SolicitedNode(c.src)[12..] == c.mac.suffixes[1];
    }
  }

  /** With that table, the groups let through are the two derived from our address. */
  lemma LinkFilterAdmits(c: Ip6Cfg, l2addr: Mac.MacAddr)
    requires c.mac.suffixes == Suffixes(c.src)
    ensures Mac.Admits(c.mac, l2addr) <==>
              || l2addr == c.mac.src
              || l2addr == EthernetGroup(Ndp.ALL_NODES)
              || l2addr == EthernetGroup(Ndp.SolicitedNode(c.src))
  {
    assert EthernetGroup(Ndp.ALL_NODES) == [0x33, 0x33] + c.mac.suffixes[0];
    assert EthernetGroup(Ndp.SolicitedNode(c.src)) == [0x33, 0x33] + c.mac.suffixes[1];
    assert l2addr == [l2addr[0], l2addr[1]] + l2addr[2..6];
    assert ([0x33, 0x33] + c.mac.suffixes[0])[2..6] == c.mac.suffixes[0];
    assert ([0x33, 0x33] + c.mac.suffixes[1])[2..6] == c.mac.suffixes[1];
  }

  /** An IPv6 packet as a neighbor multicasts it, with trailing link-layer bytes. */
  function Multicast(peer: Mac.MacAddr, ethertype: Mac.EtherType, src: Ip6Addr, dst: Ip6Addr,
                     msg: seq<byte>, padding: seq<byte>): seq<byte>
  {
    (EthernetGroup(dst) + peer + ethertype) + (HeaderCommon(|msg|, NH_ICMPV6) + src + dst) + msg + padding
  }

  /**
   A solicitation for one of our addresses that a neighbor multicasts to a group we listen
   to passes the link filter and is answered.
   */
  lemma MulticastSolicitationIsAnswered(c: Ip6Cfg, peer: Mac.MacAddr, src: Ip6Addr, dst: Ip6Addr,
                                                           msg: seq<byte>, padding: seq<byte>)
    requires c.mac.suffixes == Suffixes(c.src)
    requires dst == Ndp.ALL_NODES || dst == Ndp.SolicitedNode(c.src)
    requires Ndp.Solicits(c, dst, msg) && |msg| < 0x1_0000
    ensures var frame := Multicast(peer, c.mac.ethertype, src, dst, msg, padding);
            Ip6Layer.IsSolicitation(c, frame) && Source(frame) == src && Payload(frame) == msg
  {
    hide Ndp.Solicits, Mac.Admits;
    var frame := Multicast(peer, c.mac.ethertype, src, dst, msg, padding);
    var header := HeaderCommon(|msg|, NH_ICMPV6) + src + dst;
    MulticastParts(EthernetGroup(dst), peer, c.mac.ethertype, header, msg, padding);
    LinkFilterAdmits(c, EthernetGroup(dst));
    assert header[4..6] == Be16(|msg|) && header[8..24] == src && header[24..40] == dst;
    WordOfPart(frame, AT, header, 4, |msg|);
    ByteOfPart(frame, AT, header, 0);
    ByteOfPart(frame, AT, header, 6);
    SliceOfPart(frame, AT, header, 8, 24);
    SliceOfPart(frame, AT, header, 24, 40);
  }

  lemma MulticastParts(group: Mac.MacAddr, peer: Mac.MacAddr, ethertype: Mac.EtherType,
                                          header: seq<byte>, msg: seq<byte>, padding: seq<byte>)
    requires |header| == PLOAD - AT
    ensures var frame := (group + peer + ethertype) + header + msg + padding;
            && frame[..6] == group && frame[12..14] == ethertype
            && frame[AT..PLOAD] == header && frame[PLOAD..PLOAD + |msg|] == msg
  {
  }
}
