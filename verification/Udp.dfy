/**
 The UDP layer of proto_udp.c.
 */
module Udp {
  import opened Bytes
  import opened Checksum
  import opened Serial
  import Ip6
  import Ip6Layer

  const HDRSIZE: nat := 8
  const AT: nat := Ip6.PLOAD
  const PLOAD: nat := AT + HDRSIZE

  /** `cksum` is the part of the checksum computed by the last net_udp_connect. */
  datatype UdpCfg = UdpCfg(sport: u16, dport: u16, cksum: u16, ip6: Ip6.Ip6Cfg)

  /** A datagram of `len` bytes up to its payload, with a given checksum field. */
  function Header(c: UdpCfg, len: nat, field: u16): (r: seq<byte>)
    ensures |r| == HDRSIZE
  {
    Be16(c.sport) + Be16(c.dport) + Be16(len) + Be16(field)
  }

  function Unsummed(c: UdpCfg, payload: seq<byte>): (r: seq<byte>)
    ensures |r| == HDRSIZE + |payload|
  {
    Header(c, HDRSIZE + |payload|, 0) + payload
  }

  /** The checksum field of the datagram: the cached sum, the length, and the datagram itself. */
  function Field(c: UdpCfg, payload: seq<byte>): u16 {
    CksumField(c.cksum + HDRSIZE + |payload| + WordSum(Unsummed(c, payload)))
  }

  function Datagram(c: UdpCfg, payload: seq<byte>): (r: seq<byte>)
    ensures |r| == HDRSIZE + |payload|
  {
    Header(c, HDRSIZE + |payload|, Field(c, payload)) + payload
  }

  function Frame(c: UdpCfg, payload: seq<byte>): seq<byte> {
    Ip6.Frame(c.ip6, Datagram(c, payload))
  }

  /** The frame up to the payload. */
  function Headers(c: UdpCfg, payload: seq<byte>): (r: seq<byte>)
    ensures |r| == PLOAD
  {
    Ip6.Headers(c.ip6, HDRSIZE + |payload|) + Header(c, HDRSIZE + |payload|, Field(c, payload))
  }

  lemma FrameIsHeadersAndPayload(c: UdpCfg, payload: seq<byte>)
    ensures Frame(c, payload) == Headers(c, payload) + payload
  {
  }

  /** The sum _net_udp_fix_cksum takes over a datagram starting at `at`. */
  function DatagramSum(cksum: u16, b: seq<byte>, at: nat, udplen: nat): nat
    requires HDRSIZE <= udplen && at + udplen <= |b|
  {
    cksum + GetBe16(b, at + 4) + WordSum(b[at..at + udplen])
  }

  lemma UnsummedSum(c: UdpCfg, payload: seq<byte>, b: seq<byte>, at: nat)
    requires at + HDRSIZE + |payload| <= |b| && HDRSIZE + |payload| < 0x1_0000
    requires b[at..at + HDRSIZE + |payload|] == Unsummed(c, payload)
    ensures CksumField(DatagramSum(c.cksum, b, at, HDRSIZE + |payload|)) == Field(c, payload)
  {
    var d := Unsummed(c, payload);
    assert b[at + 4] == d[4] && b[at + 5] == d[5];
    assert b[at + 4..at + 6] == Be16(|d|);
    GetPutBe16(|d|, b, at + 4);
  }

  /** net_udp_connect: refresh the cached sum, unless a port is missing. */
  function Connected(c: UdpCfg): UdpCfg {
    if c.sport == 0 || c.dport == 0 then c
    else c.(cksum := Fold(WordSum(c.ip6.src) + WordSum(c.ip6.dst) + c.ip6.nh))
  }

  /** The window net_udp_recv opens; a datagram that claims too many bytes keeps the IPv6 window. */
  function Receive(c: UdpCfg, frame: seq<byte>): Window {
    var w := Ip6Layer.Receive(c.ip6, frame);
    if w.status < 0 then Window(w.status, 0, 0)
    else if w.len < HDRSIZE then Window(NET_EOVERFLOW, 0, 0)
    else if GetBe16(frame, w.offset) != c.dport || GetBe16(frame, w.offset + 2) != c.sport then
      Window(NET_EAGAIN, 0, 0)
    else if w.len < GetBe16(frame, w.offset + 4) then Window(NET_EOVERFLOW, w.offset, w.len)
    else Window(NET_STATUS_OK, w.offset + HDRSIZE, w.len - HDRSIZE)
  }

  /** A success means the frame is still in the buffer, and its window inside it. */
  lemma {:induction false} SuccessLeavesFrame(c: UdpCfg, frame: seq<byte>)
    requires Receive(c, frame).status >= 0
    ensures !Ip6Layer.IsSolicitation(c.ip6, frame)
    ensures Receive(c, frame).offset == PLOAD && PLOAD + Receive(c, frame).len <= |frame|
  {
    Ip6Layer.SuccessLeavesFrame(c.ip6, frame);
  }

  class NetUdp {
    var sport: u16
    var dport: u16
    var cksum: u16
    const lower: Ip6Layer.NetIp6

    constructor (lower: Ip6Layer.NetIp6)
      ensures this.lower == lower
    {
      this.lower := lower;
    }

    function Cfg(): UdpCfg
      reads this, lower, lower.lower
    {
      UdpCfg(sport, dport, cksum, lower.Cfg())
    }

    function PloadPos(): nat {
      lower.PloadPos() + HDRSIZE
    }

    method SetSourcePort(port: u16)
      modifies this
      ensures Cfg() == old(Cfg()).(sport := port)
    {
      sport := port;
    }

    method SetDestinationPort(port: u16)
      modifies this
      ensures Cfg() == old(Cfg()).(dport := port)
    {
      dport := port;
    }

    method Connect() returns (errno: int)
      modifies this
      ensures errno == if sport == 0 || dport == 0 then NET_ECONFIG else NET_STATUS_OK
      ensures Cfg() == Connected(old(Cfg()))
    {
      if sport == 0 {
        return NET_ECONFIG;
      }
      if dport == 0 {
        return NET_ECONFIG;
      }
      errno := NET_STATUS_OK;
      cksum := lower.GetL3Cksum();
    }

    /** _net_udp_fix_cksum; `at` is where the UDP header starts. */
    static method FixCksum(precomputed: u16, buffer: array<byte>, at: nat, udplen: nat)
      requires HDRSIZE <= udplen < 0x1_0000 && at + udplen <= buffer.Length
      modifies buffer
      ensures buffer[..] == Splice(old(buffer[..]), at + 6,
                                   Be16(CksumField(old(DatagramSum(precomputed, buffer[..], at, udplen)))))
    {
      ghost var b := buffer[..];
      var sum := CksumSum(precomputed, buffer[at + 4..at + 6]);
      WordSumOfLength(b[at + 4..at + 6]);
      sum := CksumSum(sum, buffer[at..at + udplen], precomputed + GetBe16(b, at + 4));
      sum := Finalize(sum);
      if sum == 0 {
        sum := 0xFFFF;
      }
      buffer[at + 6] := sum / 0x100 % 0x100;
      buffer[at + 7] := sum % 0x100;
    }

    static lemma {:induction false} WordSumOfLength(d: seq<byte>)
      requires |d| == 2
      ensures WordSum(d) == GetBe16(d, 0)
    {
      WordSumOfWord(d);
    }

    method Send(buffer: array<byte>, buflen: u16, dataoffset: u16, datalen: u16) returns (errno: int)
      requires dataoffset >= PLOAD ==> PLOAD + datalen <= buffer.Length && PLOAD + datalen < 0x1_0000
      modifies buffer, lower.lower.lower`output
      ensures dataoffset < PLOAD ==>
                && errno == NET_EOVERFLOW
                && buffer[..] == old(buffer[..])
                && lower.lower.lower.output == old(lower.lower.lower.output)
      ensures dataoffset >= PLOAD ==>
                var payload := old(buffer[PLOAD..PLOAD + datalen]);
                && errno == NET_STATUS_OK
                && buffer[..] == Splice(old(buffer[..]), 0, Headers(Cfg(), payload))
                && lower.lower.lower.output == old(lower.lower.lower.output) + Line(Frame(Cfg(), payload))
    {
      var at := lower.PloadPos();
      if dataoffset < at + HDRSIZE {
        return NET_EOVERFLOW;
      }
      ghost var before, payload := buffer[..], buffer[PLOAD..PLOAD + datalen];
      PrintHeader(buffer, at, HDRSIZE + datalen);
      SliceFromSplice(before, AT, Header(Cfg(), HDRSIZE + datalen, 0), PLOAD + datalen);
      UnsummedSum(Cfg(), payload, buffer[..], AT);
      FixCksum(cksum, buffer, at, HDRSIZE + datalen);
      HeaderSummed(Cfg(), payload, before);
      ghost var header := Header(Cfg(), HDRSIZE + datalen, Field(Cfg(), payload));
      SliceFromSplice(before, AT, header, PLOAD + datalen);
      SplicePrepend(before, 0, Ip6.Headers(lower.Cfg(), HDRSIZE + datalen), header);
      errno := lower.Send(buffer, buflen, dataoffset - HDRSIZE, datalen + HDRSIZE);
    }

    method PrintHeader(buffer: array<byte>, at: nat, len: nat)
      requires at + HDRSIZE <= buffer.Length
      modifies buffer
      ensures buffer[..] == Splice(old(buffer[..]), at, Header(Cfg(), len, 0))
    {
      ghost var trail := Trail(buffer[..], at, []);
      var cursor := at;
      cursor, trail := PutShort(buffer, cursor, sport, trail);
      cursor, trail := PutShort(buffer, cursor, dport, trail);
      cursor, trail := PutShort(buffer, cursor, len, trail);
      cursor, trail := PutShort(buffer, cursor, 0, trail);
      assert trail.done == Header(Cfg(), len, 0);
    }

    static lemma HeaderSummed(c: UdpCfg, payload: seq<byte>, before: seq<byte>)
      requires PLOAD + |payload| <= |before|
      ensures var len := HDRSIZE + |payload|;
              Splice(Splice(before, AT, Header(c, len, 0)), AT + 6, Be16(Field(c, payload)))
              == Splice(before, AT, Header(c, len, Field(c, payload)))
    {
      var len, ports := HDRSIZE + |payload|, Be16(c.sport) + Be16(c.dport) + Be16(HDRSIZE + |payload|);
      SpliceField(before, AT, ports, Be16(0), Be16(Field(c, payload)), []);
      assert Header(c, len, 0) == ports + Be16(0) + [];
      assert Header(c, len, Field(c, payload)) == ports + Be16(Field(c, payload)) + [];
    }

    method Recv(buffer: array<byte>, buflen: u16) returns (errno: int, dataoffset: nat, datalen: nat)
      requires buflen <= buffer.Length
      requires Ip6Layer.AnswerHasRoom(lower.Cfg(), ReadCall(lower.lower.lower.input, buflen).Frame(), buflen,
                                      buffer.Length)
      modifies buffer, lower.lower.lower`input, lower.lower.lower`output
      ensures var r := ReadCall(old(lower.lower.lower.input), buflen);
              && Window(errno, dataoffset, datalen) == Receive(Cfg(), r.Frame())
              && lower.lower.lower.input == r.rest
              && Ip6Layer.Answered(lower.Cfg(), r.Frame(), buflen, Splice(old(buffer[..]), 0, r.stored), buffer[..],
                                   old(lower.lower.lower.output), lower.lower.lower.output)
    {
      ghost var frame := ReadCall(lower.lower.lower.input, buflen).Frame();
      errno, dataoffset, datalen := lower.Recv(buffer, buflen);
      if errno < 0 {
        dataoffset, datalen := 0, 0;
        return;
      }
      Ip6Layer.SuccessLeavesFrame(lower.Cfg(), frame);
      assert buffer[..|frame|] == frame;
      errno, dataoffset, datalen := Process(buffer, dataoffset, datalen, frame);
    }

    /** net_udp_recv from where the lower layer has opened its window. */
    method Process(buffer: array<byte>, ip6offset: nat, ip6len: nat, ghost frame: seq<byte>)
      returns (errno: int, dataoffset: nat, datalen: nat)
      requires |frame| <= buffer.Length && buffer[..|frame|] == frame
      requires var w := Ip6Layer.Receive(lower.Cfg(), frame);
               w.status >= 0 && w.offset == ip6offset && w.len == ip6len && ip6offset + ip6len <= |frame|
      ensures Window(errno, dataoffset, datalen) == Receive(Cfg(), frame)
    {
      if ip6len < HDRSIZE {
        return NET_EOVERFLOW, 0, 0;
      }
      var source_port := Word(buffer[ip6offset], buffer[ip6offset + 1]);
      var destination_port := Word(buffer[ip6offset + 2], buffer[ip6offset + 3]);
      assert source_port == GetBe16(frame, ip6offset) && destination_port == GetBe16(frame, ip6offset + 2);
      if source_port != dport || destination_port != sport {
        return NET_EAGAIN, 0, 0;
      }
      var length := Word(buffer[ip6offset + 4], buffer[ip6offset + 5]);
      assert length == GetBe16(frame, ip6offset + 4);
      if ip6len < length {
        return NET_EOVERFLOW, ip6offset, ip6len;
      }
      return NET_STATUS_OK, ip6offset + HDRSIZE, ip6len - HDRSIZE;
    }
  }
}
