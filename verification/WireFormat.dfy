/**
 What the layers below CoAP accept and send, byte for byte, in the numbers of the standards
 and of the headers of the source. Nothing here is stated through a constant or a
 condition of another module.
 */
module WireFormat {
  import opened Bytes
  import opened Checksum
  import opened Serial
  import SerialFraming
  import W5500
  import Mac
  import Ip6
  import Ip6Layer
  import Ndp
  import NdpProperties
  import Udp

  // ---------------------------------------------------------------- words and sums

  /** Network byte order. */
  lemma BigEndian(v: u16, hi: byte, lo: byte)
    ensures Be16(v) == [v / 256, v % 256]
    ensures Word(hi, lo) == 256 * hi + lo && GetBe16([hi, lo], 0) == 256 * hi + lo
  {
  }

  /** The example of section 3 of RFC 1071. */
  lemma ChecksumExample()
    ensures Fold(WordSum([0x00, 0x01, 0xF2, 0x03, 0xF4, 0xF5, 0xF6, 0xF7])) == 0xDDF2
    ensures Finalize(0xDDF2) == 0x220D
  {
    var d := [0x00, 0x01, 0xF2, 0x03, 0xF4, 0xF5, 0xF6, 0xF7];
    assert d[2..] == [0xF2, 0x03, 0xF4, 0xF5, 0xF6, 0xF7];
    assert d[2..][2..] == [0xF4, 0xF5, 0xF6, 0xF7];
    WordSumConcat([0x00, 0x01], [0xF2, 0x03, 0xF4, 0xF5, 0xF6, 0xF7]);
    WordSumConcat([0xF2, 0x03], [0xF4, 0xF5, 0xF6, 0xF7]);
    WordSumConcat([0xF4, 0xF5], [0xF6, 0xF7]);
    WordSumOfWord([0x00, 0x01]);
    WordSumOfWord([0xF2, 0x03]);
    WordSumOfWord([0xF4, 0xF5]);
    WordSumOfWord([0xF6, 0xF7]);
    assert d == [0x00, 0x01] + ([0xF2, 0x03] + ([0xF4, 0xF5] + [0xF6, 0xF7]));
    assert [0xF2, 0x03] + ([0xF4, 0xF5] + [0xF6, 0xF7]) == [0xF2, 0x03, 0xF4, 0xF5, 0xF6, 0xF7];
    assert [0xF4, 0xF5] + [0xF6, 0xF7] == [0xF4, 0xF5, 0xF6, 0xF7];
  }

  /** The pseudo-header of section 8.1 of RFC 8200. */
  lemma PseudoHeaderBytes(src: Ip6.Ip6Addr, dst: Ip6.Ip6Addr, len: u16, nh: byte)
    ensures Ip6.PseudoHeader(src, dst, len, nh)
            == src + dst + [0, 0, len / 256, len % 256, 0, 0, 0, nh]
  {
    BigEndian(len, 0, 0);
    assert Ip6.PseudoTail(len, nh) == [0, 0, len / 256, len % 256, 0, 0, 0, nh];
  }

  // ---------------------------------------------------------------- serial line

  /** The digits are upper case. */
  lemma HexAlphabet(v: byte, c: char)
    ensures v < 16 ==> HexDigit(v) == "0123456789ABCDEF"[v]
    ensures IsHexDigit(c) <==> c in "0123456789ABCDEF"
    ensures v < 16 && c == "0123456789ABCDEF"[v] ==> HexValue(c) == v
  {
    var digits := "0123456789ABCDEF";
    if IsHexDigit(c) {
      assert digits[HexValue(c)] == c;
    }
  }

  /** One line, character for character. */
  lemma LineExample()
    ensures Line([0x0A, 0xBC, 0xDE, 0xF1]) == "P: 0ABCDEF1\n"
  {
    var d := [0x0A, 0xBC, 0xDE, 0xF1];
    assert d[1..] == [0xBC, 0xDE, 0xF1] && d[1..][1..] == [0xDE, 0xF1] && d[1..][1..][1..] == [0xF1];
    assert Hex([0xF1]) == "F1" && [0xF1][1..] == [];
    assert Hex([0xDE, 0xF1]) == "DE" + "F1";
    assert Hex([0xBC, 0xDE, 0xF1]) == "BC" + ("DE" + "F1");
    assert Hex(d) == "0A" + ("BC" + ("DE" + "F1"));
  }

  /** A line that breaks off announces nothing, unless the buffer is full before. */
  lemma {:induction false} UnfinishedLine(d: Decoder, input: string, room: nat)
    requires '\n' !in input
    ensures var r := ReadFrom(d, input, room);
            && (|r.stored| < room ==> r.timeout && r.Frame() == [] && r.rest == "")
            && (|r.stored| == room ==> !r.timeout && r.Frame() == r.stored)
    decreases |input|
  {
    if room > 0 && input != [] {
      assert input[0] in input;
      UnfinishedLine(Advance(d, input[0]), input[1..], if Stores(d, input[0]) then room - 1 else room);
    }
  }

  // ---------------------------------------------------------------- W5500

  /** An entry of the receive memory, and the slot of an address in its 2048 bytes. */
  lemma RingLayout(frame: seq<byte>, address: nat)
    requires |frame| + 2 < 0x1_0000
    ensures W5500.Entry(frame) == [(|frame| + 2) / 256, (|frame| + 2) % 256] + frame
    ensures W5500.Slot(address) == address % 2048
  {
    BigEndian(|frame| + 2, 0, 0);
  }

  // ---------------------------------------------------------------- Ethernet

  /** The frame is long enough, of our type, and for us or a registered group. */
  predicate LinkAccepts(c: Mac.MacCfg, frame: seq<byte>) {
    && |frame| >= 14
    && frame[12..14] == c.ethertype
    && (frame[..6] == c.src || (frame[0] == 0x33 && frame[1] == 0x33 && frame[2..6] in c.suffixes))
  }

  lemma EthernetAcceptsIff(c: Mac.MacCfg, frame: seq<byte>)
    ensures var w := Mac.Receive(c, frame);
            && (w.status == 0 <==> LinkAccepts(c, frame))
            && (w.status == 0 ==> w == Window(0, 14, |frame| - 14))
            && (w.status != 0 ==> w == Window(-1, 0, 0))
  {
    if |frame| >= 14 {
      assert frame[..6][0] == frame[0] && frame[..6][1] == frame[1] && frame[..6][2..6] == frame[2..6];
    }
  }

  /** With the suffixes of our address, the groups are 33:33:00:00:00:01 and 33:33:ff and its last three bytes. */
  lemma EthernetGroups(c: Mac.MacCfg, addr: Ip6.Ip6Addr, frame: seq<byte>)
    requires c.suffixes == NdpProperties.Suffixes(addr)
    ensures LinkAccepts(c, frame) <==>
              && |frame| >= 14 && frame[12..14] == c.ethertype
              && (|| frame[..6] == c.src
                  || frame[..6] == [0x33, 0x33, 0, 0, 0, 1]
                  || frame[..6] == [0x33, 0x33, 0xFF, addr[13], addr[14], addr[15]])
  {
    if |frame| >= 14 {
      var l2addr := frame[..6];
      assert l2addr == [frame[0], frame[1]] + frame[2..6];
      assert frame[2..6] in c.suffixes <==>
               frame[2..6] == [0, 0, 0, 1] || frame[2..6] == [0xFF, addr[13], addr[14], addr[15]];
      assert [0x33, 0x33, 0, 0, 0, 1][2..6] == [0, 0, 0, 1];
      assert [0x33, 0x33, 0xFF, addr[13], addr[14], addr[15]][2..6] == [0xFF, addr[13], addr[14], addr[15]];
      assert l2addr[2..6] == frame[2..6] && l2addr[0] == frame[0] && l2addr[1] == frame[1];
      assert [0x33, 0x33] + [0, 0, 0, 1] == [0x33, 0x33, 0, 0, 0, 1];
      assert [0x33, 0x33] + [0xFF, addr[13], addr[14], addr[15]] == [0x33, 0x33, 0xFF, addr[13], addr[14], addr[15]];
    }
  }

  // ---------------------------------------------------------------- IPv6

  /** A complete IPv6 packet in a frame for us. */
  predicate PacketArrives(c: Ip6.Ip6Cfg, frame: seq<byte>) {
    && LinkAccepts(c.mac, frame)
    && |frame| >= 54 && frame[14] / 16 == 6 && GetBe16(frame, 18) <= |frame| - 54
  }

  /** A data packet is handed up exactly when next header and both addresses are those of the connection. */
  lemma Ip6AcceptsIff(c: Ip6.Ip6Cfg, frame: seq<byte>)
    ensures var w := Ip6Layer.Receive(c, frame);
            && (w.status == 0 <==> PacketArrives(c, frame) && frame[20] == c.nh && c.nh != 58
                                   && frame[22..38] == c.dst && frame[38..54] == c.src)
            && (w.status == 0 ==> w == Window(0, 54, GetBe16(frame, 18)))
            && (w.status != 0 ==> w.offset == 0 && w.len == 0)
  {
    EthernetAcceptsIff(c.mac, frame);
  }

  /** The error for every other frame. */
  lemma Ip6Errors(c: Ip6.Ip6Cfg, frame: seq<byte>)
    ensures var status := Ip6Layer.Receive(c, frame).status;
            && (!LinkAccepts(c.mac, frame) ==> status == -1)
            && (LinkAccepts(c.mac, frame) && |frame| < 54 ==> status == -3)
            && (LinkAccepts(c.mac, frame) && |frame| >= 54 && frame[14] / 16 != 6 ==> status == -5)
            && (LinkAccepts(c.mac, frame) && |frame| >= 54 && frame[14] / 16 == 6 ==>
                  GetBe16(frame, 18) > |frame| - 54 ==> status == -3)
            && (PacketArrives(c, frame) && frame[20] != 58 && status != 0 ==> status == -1)
  {
    EthernetAcceptsIff(c.mac, frame);
  }

  // ---------------------------------------------------------------- neighbor discovery

  /** Our address, our link-local address, ff02::1 or our solicited-node address. */
  predicate ListensTo(ours: Ip6.Ip6Addr, dst: seq<byte>) {
    || dst == ours
    || dst == [0xFE, 0x80, 0, 0, 0, 0, 0, 0] + ours[8..]
    || dst == [0xFF, 2, 0, 0, 0, 0, 0, 0, 0, 0, 0, 0, 0, 0, 0, 1]
    || dst == [0xFF, 2, 0, 0, 0, 0, 0, 0, 0, 0, 0, 1, 0xFF] + ours[13..]
  }

  /** A packet is answered exactly when it is a neighbor solicitation (type 135) for an address of ours. */
  lemma SolicitationIff(c: Ip6.Ip6Cfg, frame: seq<byte>)
    ensures Ip6Layer.IsSolicitation(c, frame) <==>
              && PacketArrives(c, frame) && frame[20] == 58
              && GetBe16(frame, 18) >= 24 && frame[54] == 135
              && ListensTo(c.src, frame[38..54])
              && (frame[62..78] == c.src || frame[62..78] == [0xFE, 0x80, 0, 0, 0, 0, 0, 0] + c.src[8..])
  {
    EthernetAcceptsIff(c.mac, frame);
    if PacketArrives(c, frame) && GetBe16(frame, 18) >= 24 {
      var msg := Ip6.Payload(frame);
      SliceOfPart(frame, 54, msg, 8, 24);
      assert msg[0] == frame[54];
    }
  }

  /** What the caller is told of an ICMPv6 packet, never a success. */
  lemma IcmpStatus(c: Ip6.Ip6Cfg, frame: seq<byte>)
    requires PacketArrives(c, frame) && frame[20] == 58
    ensures var tooShort := GetBe16(frame, 18) < 4
                            || (frame[54] == 135 && ListensTo(c.src, frame[38..54]) && GetBe16(frame, 18) < 24);
            Ip6Layer.Receive(c, frame) == Window(if tooShort then -3 else -1, 0, 0)
  {
    EthernetAcceptsIff(c.mac, frame);
    if GetBe16(frame, 18) >= 4 {
      assert Ip6.Payload(frame)[0] == frame[54];
    }
  }

  /** The answer, byte for byte but for its checksum: a neighbor advertisement, type 136. */
  lemma ReplyBytes(c: Ip6.Ip6Cfg, frame: seq<byte>) returns (cksum: seq<byte>)
    requires Ip6Layer.IsSolicitation(c, frame)
    ensures |cksum| == 2
    ensures var unspecified := [0, 0, 0, 0, 0, 0, 0, 0, 0, 0, 0, 0, 0, 0, 0, 0];
            var allNodes := [0xFF, 2, 0, 0, 0, 0, 0, 0, 0, 0, 0, 0, 0, 0, 0, 1];
            Ip6Layer.Reply(c, frame)
            == c.mac.dst + c.mac.src + c.mac.ethertype
               + [0x60, 0, 0, 0, 0, 32, 58, 255]
               + ([0xFE, 0x80, 0, 0, 0, 0, 0, 0] + c.src[8..])
               + (if frame[22..38] == unspecified then allNodes else frame[22..38])
               + [136, 0] + cksum + [0x60, 0, 0, 0] + frame[62..78] + [2, 1] + c.mac.src
    ensures Ip6Layer.Reply(c, frame)[54] == 136 && Ip6Layer.Reply(c, frame)[55] == 0
  {
    SolicitationIff(c, frame);
    var dst, tgt := Ndp.ReplyTo(Ip6.Source(frame)), Ndp.Target(Ip6.Payload(frame));
    cksum := Be16(Ndp.AdvertisementCksum(c, dst, tgt));
    SliceOfPart(frame, 54, Ip6.Payload(frame), 8, 24);
    AdvertisementBytes(c, dst, tgt, cksum);
  }

  lemma AdvertisementBytes(c: Ip6.Ip6Cfg, dst: Ip6.Ip6Addr, tgt: Ip6.Ip6Addr, cksum: seq<byte>)
    requires cksum == Be16(Ndp.AdvertisementCksum(c, dst, tgt))
    ensures Mac.Frame(c.mac, Ndp.Advertisement(c, dst, tgt))
            == c.mac.dst + c.mac.src + c.mac.ethertype
               + [0x60, 0, 0, 0, 0, 32, 58, 255]
               + ([0xFE, 0x80, 0, 0, 0, 0, 0, 0] + c.src[8..]) + dst
               + [136, 0] + cksum + [0x60, 0, 0, 0] + tgt + [2, 1] + c.mac.src
  {
    assert Ip6.HeaderCommon(32, 58) == [0x60, 0, 0, 0, 0, 32, 58, 255];
  }

  // ---------------------------------------------------------------- UDP

  /** A datagram is handed up exactly when it comes from the peer's port to ours and claims no more than there is. */
  lemma UdpAcceptsIff(c: Udp.UdpCfg, frame: seq<byte>)
    ensures var v, w := Ip6Layer.Receive(c.ip6, frame), Udp.Receive(c, frame);
            && (w.status == 0 <==>
                  && v.status == 0 && v.len >= 8
                  && GetBe16(frame, 54) == c.dport && GetBe16(frame, 56) == c.sport && GetBe16(frame, 58) <= v.len)
            && (w.status == 0 ==> w == Window(0, 62, v.len - 8))
            && (v.status != 0 ==> w == Window(v.status, 0, 0))
            && (v.status == 0 && v.len < 8 ==> w == Window(-3, 0, 0))
            && (v.status == 0 && v.len >= 8 && (GetBe16(frame, 54) != c.dport || GetBe16(frame, 56) != c.sport)
                ==> w == Window(-1, 0, 0))
            && (v.status == 0 && v.len >= 8 && GetBe16(frame, 54) == c.dport && GetBe16(frame, 56) == c.sport ==>
                  GetBe16(frame, 58) > v.len ==> w == Window(-3, 54, v.len))
  {
    Ip6AcceptsIff(c.ip6, frame);
    Ip6Status(c.ip6, frame);
  }

  /** net_udp_connect leaves the cached sum alone while a port is missing. */
  lemma ConnectNeedsPorts(c: Udp.UdpCfg)
    ensures c.sport == 0 || c.dport == 0 ==> Udp.Connected(c) == c
    ensures c.sport != 0 && c.dport != 0 ==>
              Udp.Connected(c) == c.(cksum := Fold(WordSum(c.ip6.src + c.ip6.dst + [0, c.ip6.nh])))
  {
    WordSumConcat(c.ip6.src + c.ip6.dst, [0, c.ip6.nh]);
    WordSumConcat(c.ip6.src, c.ip6.dst);
    WordSumOfWord([0, c.ip6.nh]);
  }

  lemma Ip6Status(c: Ip6.Ip6Cfg, frame: seq<byte>)
    ensures Ip6Layer.Receive(c, frame).status <= 0
  {
  }
}
