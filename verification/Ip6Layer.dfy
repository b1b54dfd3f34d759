/**
 The context of proto_ip6.c with its methods.
 */
module Ip6Layer {
  import opened Bytes
  import opened Checksum
  import opened Serial
  import opened Ip6
  import Mac
  import Ndp

  /** The window net_ip6_recv opens on a received frame. */
  function Receive(c: Ip6Cfg, frame: seq<byte>): Window {
    var status := HeaderStatus(c, frame);
    if status < 0 then Window(status, 0, 0)
    else if NextHeader(frame) == NH_ICMPV6 then
      Window(Ndp.Status(c, Destination(frame), Payload(frame)), 0, 0)
    else if NextHeader(frame) == c.nh && Source(frame) == c.dst && Destination(frame) == c.src then
      Window(NET_STATUS_OK, PLOAD, PayloadLength(frame))
    else Window(NET_EAGAIN, 0, 0)
  }

  /** The frame is a neighbor solicitation for us. */
  predicate IsSolicitation(c: Ip6Cfg, frame: seq<byte>) {
    && HeaderStatus(c, frame) == 0
    && NextHeader(frame) == NH_ICMPV6
    && Ndp.Solicits(c, Destination(frame), Payload(frame))
  }

  /** The answer to it. */
  function Reply(c: Ip6Cfg, frame: seq<byte>): (r: seq<byte>)
    requires IsSolicitation(c, frame)
    ensures |r| == Ndp.NA_FRAME_LEN
  {
    Ndp.ReplyFrame(c, Source(frame), Ndp.Target(Payload(frame)))
  }

  /** An answered frame is never handed up, so a success means the frame is still in the buffer. */
  lemma SuccessLeavesFrame(c: Ip6Cfg, frame: seq<byte>)
    requires Receive(c, frame).status >= 0
    ensures !IsSolicitation(c, frame)
    ensures PLOAD + Receive(c, frame).len <= |frame| && Receive(c, frame).offset == PLOAD
  {
  }

  /** What a call of net_ip6_recv leaves in the buffer and on the wire. */
  ghost predicate Answered(c: Ip6Cfg, frame: seq<byte>, buflen: u16,
                           before: seq<byte>, after: seq<byte>, sentBefore: string, sentAfter: string)
  {
    if IsSolicitation(c, frame) && buflen >= Ndp.NA_GUARD then
      && |before| >= Ndp.NA_FRAME_LEN
      && after == Splice(before, 0, Reply(c, frame))
      && sentAfter == sentBefore + Line(Reply(c, frame))
    else after == before && sentAfter == sentBefore
  }

  /**
   The memory from the start of the buffer on holds the answer that the guard lets through;
   the guard itself does not make sure of it.
   */
  predicate AnswerHasRoom(c: Ip6Cfg, frame: seq<byte>, buflen: u16, room: nat) {
    IsSolicitation(c, frame) && buflen >= Ndp.NA_GUARD ==> room >= Ndp.NA_FRAME_LEN
  }

  class NetIp6 {
    var src: Ip6Addr
    var dst: Ip6Addr
    var nh: byte
    const lower: Mac.NetMac

    constructor (lower: Mac.NetMac)
      ensures this.lower == lower
    {
      this.lower := lower;
    }

    function Cfg(): Ip6Cfg
      reads this, lower
    {
      Ip6Cfg(src, dst, nh, lower.Cfg())
    }

    function PloadPos(): nat {
      lower.PloadPos() + HDRSIZE
    }

    method SetSourceAddr(addr: Ip6Addr)
      modifies this
      ensures Cfg() == old(Cfg()).(src := addr)
    {
      src := addr;
    }

    method SetDestinationAddr(addr: Ip6Addr)
      modifies this
      ensures Cfg() == old(Cfg()).(dst := addr)
    {
      dst := addr;
    }

    method SetNextHeader(value: byte)
      modifies this
      ensures Cfg() == old(Cfg()).(nh := value)
    {
      nh := value;
    }

    /** The sum over the parts of the pseudo-header known before any packet. */
    method GetL3Cksum() returns (sum: u16)
      ensures sum == Fold(WordSum(src) + WordSum(dst) + nh)
    {
      sum := CksumSum(0, src);
      sum := CksumSum(sum, dst, WordSum(src));
      sum := CksumSum(sum, [0, nh], WordSum(src) + WordSum(dst));
      WordSumOfWord([0, nh]);
    }

    method Send(buffer: array<byte>, buflen: u16, dataoffset: u16, datalen: u16) returns (errno: int)
      requires dataoffset >= PLOAD ==> PLOAD + datalen <= buffer.Length && PLOAD + datalen < 0x1_0000
      modifies buffer, lower.lower`output
      ensures dataoffset < PLOAD ==>
                && errno == NET_EOVERFLOW
                && buffer[..] == old(buffer[..])
                && lower.lower.output == old(lower.lower.output)
      ensures dataoffset >= PLOAD ==>
                && errno == NET_STATUS_OK
                && buffer[..] == Splice(old(buffer[..]), 0, Headers(Cfg(), datalen))
                && lower.lower.output
                   == old(lower.lower.output) + Line(Frame(Cfg(), old(buffer[PLOAD..PLOAD + datalen])))
    {
      var cursor := lower.PloadPos();
      if dataoffset < cursor + HDRSIZE {
        return NET_EOVERFLOW;
      }
      ghost var before := buffer[..];
      ghost var trail := Trail(before, AT, []);
      cursor, trail := PutHeaderCommon(buffer, cursor, datalen, nh, trail);
      cursor, trail := PutData(buffer, cursor, src, trail);
      cursor, trail := PutData(buffer, cursor, dst, trail);
      ghost var header := Header(Cfg(), datalen);
      assert trail.done == header;
      SliceFromSplice(before, AT, header, PLOAD + datalen);
      SplicePrepend(before, 0, Mac.Header(lower.Cfg()), header);
      errno := lower.Send(buffer, buflen, dataoffset - HDRSIZE, datalen + HDRSIZE);
    }

    /** The macro NET_IP6_PUT_HEADER_COMMON. */
    static method PutHeaderCommon(buffer: array<byte>, cursor: nat, len: nat, nh: byte, ghost trail: Trail)
      returns (next: nat, ghost printed: Trail)
      requires cursor + 8 <= buffer.Length && cursor == trail.Next() && trail.Leaves(buffer[..])
      modifies buffer
      ensures printed == trail.(done := trail.done + HeaderCommon(len, nh))
      ensures next == cursor + 8 == printed.Next() && printed.Leaves(buffer[..])
    {
      next, printed := PutByte(buffer, cursor, VERSION * 16, trail);
      next, printed := PutByte(buffer, next, 0, printed);
      next, printed := PutShort(buffer, next, 0, printed);
      next, printed := PutShort(buffer, next, len, printed);
      next, printed := PutByte(buffer, next, nh, printed);
      next, printed := PutByte(buffer, next, HOPLIMIT, printed);
      assert printed.done == trail.done + HeaderCommon(len, nh);
    }

    // -------------------------------------------------------------- neighbor discovery

    /** _net_icmpv6_fix_cksum; `at` is where the IPv6 header starts. */
    static method FixIcmpCksum(buffer: array<byte>, at: nat, payloadlen: nat)
      requires 4 <= payloadlen < 0x1_0000 && at + HDRSIZE + payloadlen <= buffer.Length
      modifies buffer
      ensures buffer[..] == Splice(old(buffer[..]), at + HDRSIZE + 2,
                                   Be16(CksumField(old(Ndp.PacketSum(buffer[..], at, payloadlen)))))
    {
      var sum := SumPacket(buffer, at, payloadlen);
      sum := Finalize(sum);
      if sum == 0 {
        sum := 0xFFFF;
      }
      buffer[at + HDRSIZE + 2] := sum / 0x100 % 0x100;
      buffer[at + HDRSIZE + 3] := sum % 0x100;
    }

    static method SumPacket(buffer: array<byte>, at: nat, payloadlen: nat) returns (sum: u16)
      requires 4 <= payloadlen < 0x1_0000 && at + HDRSIZE + payloadlen <= buffer.Length
      ensures sum == Fold(Ndp.PacketSum(buffer[..], at, payloadlen))
    {
      ghost var b := buffer[..];
      sum := CksumSum(0, buffer[at + 8..at + 40]);
      ghost var t: nat := WordSum(b[at + 8..at + 40]);
      sum := CksumSum(sum, buffer[at + 4..at + 6], t);
      WordSumOfWord(b[at + 4..at + 6]);
      t := t + GetBe16(b, at + 4);
      sum := CksumSum(sum, [0, NH_ICMPV6], t);
      WordSumOfWord([0, NH_ICMPV6]);
      sum := CksumSum(sum, buffer[at + 40..at + 40 + payloadlen], t + NH_ICMPV6);
    }

    /**
     _net_icmpv6_send_na. The guard counts four bytes too few, so the caller has to
     provide room for the whole frame whenever the guard lets it through.
     */
    method SendNa(buffer: array<byte>, buflen: u16, dataoffset: u16,
                  dst_addr: Option<Ip6Addr>, tgt_addr: Ip6Addr)
      returns (errno: int)
      requires dataoffset == AT
      requires buflen >= Ndp.NA_GUARD ==> buffer.Length >= Ndp.NA_FRAME_LEN
      modifies buffer, lower.lower`output
      ensures buflen < Ndp.NA_GUARD ==>
                && errno == NET_EOVERFLOW
                && buffer[..] == old(buffer[..])
                && lower.lower.output == old(lower.lower.output)
      ensures buflen >= Ndp.NA_GUARD ==>
                var packet := Ndp.Advertisement(Cfg(), Ndp.PrintedDst(dst_addr), tgt_addr);
                var frame := Mac.Frame(lower.Cfg(), packet);
                && errno == NET_STATUS_OK
                && buffer[..] == Splice(old(buffer[..]), 0, frame)
                && lower.lower.output == old(lower.lower.output) + Line(frame)
    {
      if buflen < dataoffset + HDRSIZE + Ndp.NA_HDRSIZE + Ndp.LLA_OPT_SIZE {
        return NET_EOVERFLOW;
      }
      ghost var before, dst := buffer[..], Ndp.PrintedDst(dst_addr);
      ghost var packet := Ndp.Advertisement(Cfg(), dst, tgt_addr);
      PrintNa(buffer, dataoffset, dst_addr, tgt_addr);
      Ndp.UnsummedSum(Cfg(), dst, tgt_addr, before, AT);
      FixIcmpCksum(buffer, dataoffset, Ndp.NA_LEN);
      Ndp.SummedPacket(Cfg(), dst, tgt_addr, before, AT);
      SliceFromSplice(before, AT, packet, Ndp.NA_FRAME_LEN);
      SplicePrepend(before, 0, Mac.Header(lower.Cfg()), packet);
      errno := lower.Send(buffer, buflen, dataoffset, HDRSIZE + Ndp.NA_LEN);
    }

    /** The fields of the advertisement, the checksum left zero. */
    method PrintNa(buffer: array<byte>, at: nat, dst_addr: Option<Ip6Addr>, tgt_addr: Ip6Addr)
      requires at + HDRSIZE + Ndp.NA_LEN <= buffer.Length
      modifies buffer
      ensures buffer[..] == Splice(old(buffer[..]), at, Ndp.Unsummed(Cfg(), Ndp.PrintedDst(dst_addr), tgt_addr))
    {
      ghost var trail := Trail(buffer[..], at, []);
      var cursor := at;
      cursor, trail := PutHeaderCommon(buffer, cursor, Ndp.NA_LEN, NH_ICMPV6, trail);
      cursor, trail := PutNaAddresses(buffer, cursor, dst_addr, trail);
      assert trail.done == Ndp.AdvertisementHeader(Cfg(), Ndp.PrintedDst(dst_addr));
      cursor, trail := PutNaMessage(buffer, cursor, tgt_addr, trail);
    }

    method PutNaAddresses(buffer: array<byte>, cursor: nat, dst_addr: Option<Ip6Addr>, ghost trail: Trail)
      returns (next: nat, ghost printed: Trail)
      requires cursor + 32 <= buffer.Length && cursor == trail.Next() && trail.Leaves(buffer[..])
      modifies buffer
      ensures printed == trail.(done := trail.done + (Ndp.LinkLocal(src) + Ndp.PrintedDst(dst_addr)))
      ensures next == cursor + 32 == printed.Next() && printed.Leaves(buffer[..])
    {
      next, printed := PutShort(buffer, cursor, 0xFE80, trail);
      next, printed := PutShort(buffer, next, 0, printed);
      next, printed := PutShort(buffer, next, 0, printed);
      next, printed := PutShort(buffer, next, 0, printed);
      next, printed := PutData(buffer, next, src[8..], printed);
      assert printed.done == trail.done + Ndp.LinkLocal(src);
      match dst_addr {
        case Some(addr) =>
          next, printed := PutData(buffer, next, addr, printed);
        case None =>
          next, printed := PutAllNodes(buffer, next, printed);
      }
      assert printed.done == trail.done + (Ndp.LinkLocal(src) + Ndp.PrintedDst(dst_addr));
    }

    static method PutAllNodes(buffer: array<byte>, cursor: nat, ghost trail: Trail)
      returns (next: nat, ghost printed: Trail)
      requires cursor + 16 <= buffer.Length && cursor == trail.Next() && trail.Leaves(buffer[..])
      modifies buffer
      ensures printed == trail.(done := trail.done + Ndp.ALL_NODES)
      ensures next == cursor + 16 == printed.Next() && printed.Leaves(buffer[..])
    {
      next, printed := PutShort(buffer, cursor, 0xFF02, trail);
      next, printed := PutShort(buffer, next, 0, printed);
      next, printed := PutShort(buffer, next, 0, printed);
      next, printed := PutShort(buffer, next, 0, printed);
      next, printed := PutShort(buffer, next, 0, printed);
      next, printed := PutShort(buffer, next, 0, printed);
      next, printed := PutShort(buffer, next, 0, printed);
      next, printed := PutShort(buffer, next, 0x0001, printed);
      assert printed.done == trail.done + Ndp.ALL_NODES;
    }

    method PutNaMessage(buffer: array<byte>, cursor: nat, tgt_addr: Ip6Addr, ghost trail: Trail)
      returns (next: nat, ghost printed: Trail)
      requires cursor + Ndp.NA_LEN <= buffer.Length && cursor == trail.Next() && trail.Leaves(buffer[..])
      modifies buffer
      ensures printed == trail.(done := trail.done + Ndp.AdvertisementMessage(Cfg(), tgt_addr, 0))
      ensures next == cursor + Ndp.NA_LEN == printed.Next() && printed.Leaves(buffer[..])
    {
      next, printed := PutByte(buffer, cursor, Ndp.TYPE_NA, trail);
      next, printed := PutByte(buffer, next, 0, printed);
      next, printed := PutShort(buffer, next, 0, printed);
      next, printed := PutShort(buffer, next, 0x6000, printed);
      next, printed := PutShort(buffer, next, 0, printed);
      next, printed := PutData(buffer, next, tgt_addr, printed);
      next, printed := PutByte(buffer, next, 2, printed);
      next, printed := PutByte(buffer, next, 1, printed);
      next, printed := PutData(buffer, next, lower.src, printed);
      assert printed.done == trail.done + Ndp.AdvertisementMessage(Cfg(), tgt_addr, 0);
    }

    /** _net_ip6_process_icmpv6; the two addresses are given by where they start in the buffer. */
    method ProcessIcmpv6(buffer: array<byte>, buflen: u16, dataoffset: u16, datalen: u16,
                         src_addr: nat, dst_addr: nat,
                         ghost source: Ip6Addr, ghost dest: Ip6Addr, ghost msg: seq<byte>)
      returns (errno: int)
      requires dataoffset == PLOAD && dataoffset + datalen <= buffer.Length
      requires src_addr == AT + 8 && dst_addr == AT + 24
      requires buffer[src_addr..src_addr + 16] == source && buffer[dst_addr..dst_addr + 16] == dest
      requires buffer[dataoffset..dataoffset + datalen] == msg
      requires Ndp.Solicits(Cfg(), dest, msg) && buflen >= Ndp.NA_GUARD ==> buffer.Length >= Ndp.NA_FRAME_LEN
      modifies buffer, lower.lower`output
      ensures errno == Ndp.Status(Cfg(), dest, msg)
      ensures if Ndp.Solicits(Cfg(), dest, msg) && buflen >= Ndp.NA_GUARD then
                var reply := Ndp.ReplyFrame(Cfg(), source, Ndp.Target(msg));
                && buffer[..] == Splice(old(buffer[..]), 0, reply)
                && lower.lower.output == old(lower.lower.output) + Line(reply)
              else
                buffer[..] == old(buffer[..]) && lower.lower.output == old(lower.lower.output)
    {
      if datalen < Ndp.ICMPV6_HDRSIZE {
        return NET_EOVERFLOW;
      }
      if buffer[dataoffset] == Ndp.TYPE_NS {
        var ours := Ndp.MatchAddr(src, buffer[dst_addr..dst_addr + 16]);
        if ours.NoMatch? {
          return NET_EAGAIN;
        }
        if datalen < Ndp.ICMPV6_HDRSIZE + Ndp.NS_HDRSIZE {
          return NET_EOVERFLOW;
        }
        SliceOfPart(buffer[..], PLOAD, msg, 8, 24);
        ProcessTarget(buffer, buflen, dataoffset, src_addr, source, Ndp.Target(msg));
      }
      return NET_EAGAIN;
    }

    /** The part of the handler behind the length check: read the target and answer. */
    method ProcessTarget(buffer: array<byte>, buflen: u16, dataoffset: u16, src_addr: nat,
                         ghost source: Ip6Addr, ghost target: Ip6Addr)
      requires dataoffset == PLOAD && dataoffset + 24 <= buffer.Length
      requires src_addr == AT + 8 && buffer[src_addr..src_addr + 16] == source
      requires buffer[dataoffset + 8..dataoffset + 24] == target
      requires (target == src || target == Ndp.LinkLocal(src)) && buflen >= Ndp.NA_GUARD ==>
                 buffer.Length >= Ndp.NA_FRAME_LEN
      modifies buffer, lower.lower`output
      ensures if (target == src || target == Ndp.LinkLocal(src)) && buflen >= Ndp.NA_GUARD then
                var reply := Ndp.ReplyFrame(Cfg(), source, target);
                && buffer[..] == Splice(old(buffer[..]), 0, reply)
                && lower.lower.output == old(lower.lower.output) + Line(reply)
              else
                buffer[..] == old(buffer[..]) && lower.lower.output == old(lower.lower.output)
    {
      var cursor := dataoffset + Ndp.ICMPV6_HDRSIZE + 4;
      var tgt_addr: Ip6Addr := buffer[cursor..cursor + 16];
      if !Ndp.CmpAddr(tgt_addr, src) && !Ndp.CmpLlAddr(tgt_addr, src) {
        return;
      }
      var src_addr_copy: Ip6Addr := buffer[src_addr..src_addr + 16];
      if src_addr_copy != Ndp.UNSPECIFIED {
        var _ := SendNa(buffer, buflen, dataoffset - HDRSIZE, Some(src_addr_copy), tgt_addr);
      } else {
        var _ := SendNa(buffer, buflen, dataoffset - HDRSIZE, None, tgt_addr);
      }
    }

    method Recv(buffer: array<byte>, buflen: u16) returns (errno: int, dataoffset: nat, datalen: nat)
      requires buflen <= buffer.Length
      requires AnswerHasRoom(Cfg(), ReadCall(lower.lower.input, buflen).Frame(), buflen, buffer.Length)
      modifies buffer, lower.lower`input, lower.lower`output
      ensures var r := ReadCall(old(lower.lower.input), buflen);
              && Window(errno, dataoffset, datalen) == Receive(Cfg(), r.Frame())
              && lower.lower.input == r.rest
              && Answered(Cfg(), r.Frame(), buflen, Splice(old(buffer[..]), 0, r.stored), buffer[..],
                          old(lower.lower.output), lower.lower.output)
    {
      ghost var frame := ReadCall(lower.lower.input, buflen).Frame();
      errno, dataoffset, datalen := lower.Recv(buffer, buflen);
      if errno < 0 {
        dataoffset, datalen := 0, 0;
        return;
      }
      assert buffer[..|frame|] == frame;
      errno, dataoffset, datalen := Process(buffer, buflen, dataoffset, datalen, frame);
    }

    /** net_ip6_recv from where the lower layer has delivered `frame`. */
    method Process(buffer: array<byte>, buflen: u16, macoffset: nat, maclen: nat, ghost frame: seq<byte>)
      returns (errno: int, dataoffset: nat, datalen: nat)
      requires |frame| <= buffer.Length && buffer[..|frame|] == frame
      requires Window(NET_STATUS_OK, macoffset, maclen) == Mac.Receive(lower.Cfg(), frame)
      requires AnswerHasRoom(Cfg(), frame, buflen, buffer.Length)
      modifies buffer, lower.lower`output
      ensures Window(errno, dataoffset, datalen) == Receive(Cfg(), frame)
      ensures Answered(Cfg(), frame, buflen, old(buffer[..]), buffer[..],
                       old(lower.lower.output), lower.lower.output)
    {
      var nexthdr, length;
      errno, nexthdr, length := ReadHeader(buffer, macoffset, maclen, frame);
      dataoffset, datalen := 0, 0;
      if errno < 0 {
        return;
      }
      var src_addr, dst_addr := macoffset + 8, macoffset + 24;
      ghost var source, dest, msg := Source(frame), Destination(frame), Payload(frame);
      SliceOfPart(buffer[..], 0, frame, AT + 8, AT + 24);
      SliceOfPart(buffer[..], 0, frame, AT + 24, AT + 40);
      if nexthdr == NH_ICMPV6 {
        SliceOfPart(buffer[..], 0, frame, PLOAD, PLOAD + length);
        errno := ProcessIcmpv6(buffer, buflen, macoffset + HDRSIZE, length, src_addr, dst_addr, source, dest, msg);
      } else if nexthdr == nh {
        if (Ndp.CmpAddr(buffer[src_addr..src_addr + 16], dst)
            && Ndp.CmpAddr(buffer[dst_addr..dst_addr + 16], src))
        {
          return NET_STATUS_OK, macoffset + HDRSIZE, length;
        }
        errno := NET_EAGAIN;
      } else {
        errno := NET_EAGAIN;
      }
    }

    /** The first part of net_ip6_recv: parse the header and check version and length. */
    method ReadHeader(buffer: array<byte>, dataoffset: nat, datalen: nat, ghost frame: seq<byte>)
      returns (errno: int, nexthdr: byte, length: u16)
      requires |frame| <= buffer.Length && buffer[..|frame|] == frame
      requires Window(NET_STATUS_OK, dataoffset, datalen) == Mac.Receive(lower.Cfg(), frame)
      ensures errno == HeaderStatus(Cfg(), frame)
      ensures errno == 0 ==> nexthdr == NextHeader(frame) && length == PayloadLength(frame)
    {
      nexthdr, length := 0, 0;
      if datalen < HDRSIZE {
        return NET_EOVERFLOW, nexthdr, length;
      }
      var version := buffer[dataoffset];
      length := Word(buffer[dataoffset + 4], buffer[dataoffset + 5]);
      nexthdr := buffer[dataoffset + 6];
      assert version == frame[AT] && length == PayloadLength(frame) && nexthdr == NextHeader(frame);
      if version / 16 != VERSION {
        return NET_EPROTO, nexthdr, length;
      }
      if length > datalen - HDRSIZE {
        return NET_EOVERFLOW, nexthdr, length;
      }
      errno := NET_STATUS_OK;
    }
  }
}
