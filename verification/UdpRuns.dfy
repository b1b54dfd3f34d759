/**
 The UDP checksum over runs: the address part of the sum is cached by net_udp_connect, so
 whether a datagram is valid depends on what happened since.
 */
module UdpRuns {
  import opened Bytes
  import opened Checksum
  import Ip6
  import opened Udp

  /** The part of the pseudo-header sum that net_udp_connect caches. */
  function AddressSum(c: UdpCfg): nat {
    WordSum(c.ip6.src) + WordSum(c.ip6.dst) + c.ip6.nh
  }

  /** The test of section 8.1 of RFC 8200 on the datagram sent for a payload. */
  predicate SendsValid(c: UdpCfg, payload: seq<byte>) {
    Field(c, payload) != 0 && Ip6.ChecksumIsValid(c.ip6.src, c.ip6.dst, c.ip6.nh, Datagram(c, payload))
  }

  /** The cached sum is that of the current addresses and next header, up to its representation. */
  predicate CacheIsFresh(c: UdpCfg) {
    c.cksum % 0xFFFF == AddressSum(c) % 0xFFFF
  }

  lemma DatagramWords(c: UdpCfg, payload: seq<byte>)
    ensures WordSum(Datagram(c, payload)) == WordSum(Unsummed(c, payload)) + Field(c, payload)
  {
    var front := Be16(c.sport) + Be16(c.dport) + Be16(HDRSIZE + |payload|);
    assert Datagram(c, payload) == front + Be16(Field(c, payload)) + payload;
    assert Unsummed(c, payload) == front + Be16(0) + payload;
    FieldSum(front, Field(c, payload), payload);
    FieldSum(front, 0, payload);
  }

  /** A datagram is valid exactly when the cache is fresh, whatever its payload. */
  lemma ValidIffFresh(c: UdpCfg, payload: seq<byte>)
    requires HDRSIZE + |payload| < 0x1_0000
    ensures SendsValid(c, payload) <==> CacheIsFresh(c)
  {
    var rest := HDRSIZE + |payload| + WordSum(Unsummed(c, payload));
    CksumFieldValidity(c.cksum + rest, AddressSum(c) + rest);
    CongruentSums(c.cksum, AddressSum(c), rest);
    DatagramWords(c, payload);
    Ip6.PseudoHeaderSum(c.ip6.src, c.ip6.dst, HDRSIZE + |payload|, c.ip6.nh, Datagram(c, payload));
  }

  lemma CongruentSums(a: nat, b: nat, n: nat)
    ensures (a + n) % 0xFFFF == (b + n) % 0xFFFF <==> a % 0xFFFF == b % 0xFFFF
  {
    Shifted(a, n);
    Shifted(b, n);
    var r, s, m := a % 0xFFFF, b % 0xFFFF, n % 0xFFFF;
    assert (r + m) % 0xFFFF == if r + m < 0xFFFF then r + m else r + m - 0xFFFF;
    assert (s + m) % 0xFFFF == if s + m < 0xFFFF then s + m else s + m - 0xFFFF;
  }

  lemma Shifted(a: nat, n: nat)
    ensures (a + n) % 0xFFFF == (a % 0xFFFF + n % 0xFFFF) % 0xFFFF
  {
    var p, q := a / 0xFFFF, n / 0xFFFF;
    assert a + n == 0xFFFF * (p + q) + (a % 0xFFFF + n % 0xFFFF);
  }

  // ---------------------------------------------------------------- runs

  datatype Op =
    | SetSourceAddr(addr: Ip6.Ip6Addr)
    | SetDestinationAddr(addr: Ip6.Ip6Addr)
    | SetNextHeader(nh: byte)
    | SetSourcePort(port: u16)
    | SetDestinationPort(port: u16)
    | Connect
    | Transfer  // a send or a receive: neither changes a setting
  {
    /** The operations that make a cached sum stale. */
    predicate ChangesAddresses() {
      SetSourceAddr? || SetDestinationAddr? || SetNextHeader?
    }
  }

  /** The settings after an operation, as the methods of the contexts state it. */
  function Apply(c: UdpCfg, op: Op): UdpCfg {
    match op
    case SetSourceAddr(a) => c.(ip6 := c.ip6.(src := a))
    case SetDestinationAddr(a) => c.(ip6 := c.ip6.(dst := a))
    case SetNextHeader(nh) => c.(ip6 := c.ip6.(nh := nh))
    case SetSourcePort(p) => c.(sport := p)
    case SetDestinationPort(p) => c.(dport := p)
    case Connect => Connected(c)
    case Transfer => c
  }

  function Run(c: UdpCfg, ops: seq<Op>): UdpCfg
    decreases |ops|
  {
    if ops == [] then c else Apply(Run(c, ops[..|ops| - 1]), ops[|ops| - 1])
  }

  predicate NoneChangesAddresses(ops: seq<Op>) {
    forall op :: op in ops ==> !op.ChangesAddresses()
  }

  lemma FoldIsCongruent(t: nat)
    ensures Fold(t) % 0xFFFF == t % 0xFFFF
  {
    if t > 0 {
      var q, r := (t - 1) / 0xFFFF, (t - 1) % 0xFFFF;
      assert t == 0xFFFF * q + (r + 1);
    }
  }

  lemma ConnectRefreshes(c: UdpCfg)
    requires c.sport != 0 && c.dport != 0
    ensures CacheIsFresh(Connected(c))
  {
    FoldIsCongruent(AddressSum(c));
  }

  /** Operations other than the address and next-header setters keep a fresh cache fresh. */
  lemma {:induction false} RunKeepsFresh(c: UdpCfg, ops: seq<Op>)
    requires CacheIsFresh(c) && NoneChangesAddresses(ops)
    ensures CacheIsFresh(Run(c, ops))
    decreases |ops|
  {
    if ops != [] {
      var before := Run(c, ops[..|ops| - 1]);
      RunKeepsFresh(c, ops[..|ops| - 1]);
      assert ops[|ops| - 1] in ops;
      if ops[|ops| - 1].Connect? && before.sport != 0 && before.dport != 0 {
        ConnectRefreshes(before);
      }
    }
  }

  lemma {:induction false} RunConcat(c: UdpCfg, a: seq<Op>, b: seq<Op>)
    ensures Run(c, a + b) == Run(Run(c, a), b)
    decreases |b|
  {
    if b == [] {
      assert a + b == a;
    } else {
      var n := |b| - 1;
      RunConcat(c, a, b[..n]);
      assert (a + b)[..|a + b| - 1] == a + b[..n] && (a + b)[|a + b| - 1] == b[n];
    }
  }

  /**
   In any run, if no address or next-header setter came after the last successful connect,
   every datagram sent is valid, whatever its payload.
   */
  lemma {:induction false} ValidAfterConnect(c: UdpCfg, before: seq<Op>, since: seq<Op>, payload: seq<byte>)
    requires Run(c, before).sport != 0 && Run(c, before).dport != 0
    requires NoneChangesAddresses(since)
    requires HDRSIZE + |payload| < 0x1_0000
    ensures SendsValid(Run(c, before + [Connect] + since), payload)
  {
    RunConcat(c, before, [Connect]);
    assert [Connect][..0] == [] && Run(Run(c, before), []) == Run(c, before);
    assert Run(Run(c, before), [Connect]) == Connected(Run(c, before));
    ConnectRefreshes(Run(c, before));
    RunConcat(c, before + [Connect], since);
    RunKeepsFresh(Run(c, before + [Connect]), since);
    ValidIffFresh(Run(c, before + [Connect] + since), payload);
  }
}
