/**
 The Ethernet layer of proto_mac.c.
 */
module Mac {
  import opened Bytes
  import opened Serial

  const HDRSIZE: nat := 14

  type MacAddr = s: seq<byte> | |s| == 6 witness [0, 0, 0, 0, 0, 0]
  type EtherType = s: seq<byte> | |s| == 2 witness [0, 0]
  type Suffix = s: seq<byte> | |s| == 4 witness [0, 0, 0, 0]

  /** The settings of a context. */
  datatype MacCfg = MacCfg(src: MacAddr, dst: MacAddr, ethertype: EtherType, suffixes: seq<Suffix>)

  function Header(c: MacCfg): (r: seq<byte>)
    ensures |r| == HDRSIZE
  {
    c.dst + c.src + c.ethertype
  }

  function Frame(c: MacCfg, payload: seq<byte>): seq<byte> {
    Header(c) + payload
  }

  /** NET_MAC_CMP_ADDR */
  predicate CmpAddr(theirs: MacAddr, ours: MacAddr): (r: bool)
    ensures r <==> theirs == ours
  {
    && theirs[0] == ours[0] && theirs[1] == ours[1] && theirs[2] == ours[2]
    && theirs[3] == ours[3] && theirs[4] == ours[4] && theirs[5] == ours[5]
  }

  /** NET_MAC_CMP_IP6MCAST */
  predicate CmpIp6Mcast(l2addr: MacAddr, suffix: Suffix): (r: bool)
    ensures r <==> l2addr[2..6] == suffix
  {
    && l2addr[2] == suffix[0] && l2addr[3] == suffix[1]
    && l2addr[4] == suffix[2] && l2addr[5] == suffix[3]
  }

  /** The destinations the receive filter lets through. */
  predicate Admits(c: MacCfg, l2addr: MacAddr) {
    l2addr == c.src || (l2addr[0] == 0x33 == l2addr[1] && l2addr[2..6] in c.suffixes)
  }

  /** The window net_mac_recv opens on a received frame. */
  function Receive(c: MacCfg, frame: seq<byte>): Window {
    if |frame| >= HDRSIZE && frame[12..14] == c.ethertype && Admits(c, frame[..6])
    then Window(NET_STATUS_OK, HDRSIZE, |frame| - HDRSIZE)
    else Window(NET_EAGAIN, 0, 0)
  }

  class NetMac {
    var src: MacAddr
    var dst: MacAddr
    var ethertype: EtherType
    var suffixes: seq<Suffix>
    const lower: HwSerial

    constructor (lower: HwSerial)
      ensures this.lower == lower
    {
      this.lower := lower;
    }

    function Cfg(): MacCfg
      reads this
    {
      MacCfg(src, dst, ethertype, suffixes)
    }

    function PloadPos(): nat {
      HDRSIZE
    }

    method SetSourceAddr(addr: MacAddr)
      modifies this
      ensures Cfg() == old(Cfg()).(src := addr)
    {
      src := addr;
    }

    method SetDestinationAddr(addr: MacAddr)
      modifies this
      ensures Cfg() == old(Cfg()).(dst := addr)
    {
      dst := addr;
    }

    method SetEtherType(value: u16)
      modifies this
      ensures Cfg() == old(Cfg()).(ethertype := Be16(value))
    {
      ethertype := [value / 0x100 % 0x100, value % 0x100];
    }

    method SetIp6Mcast(table: seq<Suffix>)
      modifies this
      ensures Cfg() == old(Cfg()).(suffixes := table)
    {
      suffixes := table;
    }

    /** The destination tests of net_mac_recv, with its loop over the multicast suffixes. */
    method Filter(l2addr: MacAddr) returns (admitted: bool)
      ensures admitted <==> Admits(Cfg(), l2addr)
    {
      if CmpAddr(l2addr, src) {
        return true;
      }
      if l2addr[0] == 0x33 && l2addr[1] == 0x33 {
        for i := 0 to |suffixes|
          invariant l2addr[2..6] !in suffixes[..i]
        {
          if CmpIp6Mcast(l2addr, suffixes[i]) {
            return true;
          }
        }
      }
      return false;
    }

    method Recv(buffer: array<byte>, buflen: u16) returns (errno: int, dataoffset: nat, datalen: nat)
      requires buflen <= buffer.Length
      modifies buffer, lower`input
      ensures var r := ReadCall(old(lower.input), buflen);
              && Window(errno, dataoffset, datalen) == Receive(Cfg(), r.Frame())
              && lower.input == r.rest
              && buffer[..] == Splice(old(buffer[..]), 0, r.stored)
    {
      ghost var frame := ReadCall(lower.input, buflen).Frame();
      var length := lower.Read(buffer, buflen);
      assert buffer[..length] == frame;
      errno, dataoffset, datalen := Examine(buffer, length, frame);
    }

    /** The tests on the bytes received. */
    method Examine(buffer: array<byte>, length: u16, ghost frame: seq<byte>)
      returns (errno: int, dataoffset: nat, datalen: nat)
      requires length <= buffer.Length && buffer[..length] == frame
      ensures Window(errno, dataoffset, datalen) == Receive(Cfg(), frame)
    {
      errno, dataoffset, datalen := NET_EAGAIN, 0, 0;
      if length < HDRSIZE {
        return;
      }
      assert frame[12..14] == [buffer[12], buffer[13]];
      if buffer[12] != ethertype[0] || buffer[13] != ethertype[1] {
        return;
      }
      var l2addr: MacAddr := buffer[..6];
      assert l2addr == frame[..6];
      var admitted := Filter(l2addr);
      if admitted {
        errno, dataoffset, datalen := NET_STATUS_OK, HDRSIZE, length - HDRSIZE;
      }
    }

    method Send(buffer: array<byte>, buflen: u16, dataoffset: u16, datalen: u16) returns (errno: int)
      requires dataoffset >= HDRSIZE ==> HDRSIZE + datalen <= buffer.Length && HDRSIZE + datalen < 0x1_0000
      modifies buffer, lower`output
      ensures dataoffset < HDRSIZE ==>
                && errno == NET_EOVERFLOW
                && buffer[..] == old(buffer[..])
                && lower.output == old(lower.output)
      ensures dataoffset >= HDRSIZE ==>
                && errno == NET_STATUS_OK
                && buffer[..] == Splice(old(buffer[..]), 0, Header(Cfg()))
                && lower.output == old(lower.output) + Line(Frame(Cfg(), old(buffer[HDRSIZE..HDRSIZE + datalen])))
    {
      if dataoffset < HDRSIZE {
        return NET_EOVERFLOW;
      }
      var cursor := 0;
      ghost var before := buffer[..];
      ghost var trail := Trail(before, 0, []);
      cursor, trail := PutData(buffer, cursor, dst, trail);
      cursor, trail := PutData(buffer, cursor, src, trail);
      cursor, trail := PutData(buffer, cursor, ethertype, trail);
      assert trail.done == Header(Cfg());
      SliceFromSplice(before, 0, Header(Cfg()), HDRSIZE + datalen);
      var sent := lower.Write(buffer, HDRSIZE + datalen);
      errno := if sent == HDRSIZE + datalen then NET_STATUS_OK else NET_EAGAIN;
    }
  }
}
