/**
 A CoAP context over runs: the header-size cache, the response code and the message IDs.
 */
module CoapRuns {
  import opened Bytes
  import opened Coap
  import CoapPrinter
  import Udp

  function Run(s: CoapState, ops: seq<Op>): CoapState
    decreases |ops|
  {
    if ops == [] then s else Apply(Run(s, ops[..|ops| - 1]), ops[|ops| - 1])
  }

  // ---------------------------------------------------------------- the header-size cache

  /** The cache is empty or holds what would be computed now. */
  predicate Coherent(s: CoapState) {
    s.hdrsize == 0 || s.hdrsize == FreshSize(s)
  }

  /** The guard net_coap_set_token lacks: a new token length only while nothing is cached. */
  predicate KeepsCache(s: CoapState, op: Op) {
    op.SetToken? && |op.token| != |s.token| ==> s.hdrsize == 0
  }

  /** Exactly the operations within the guard keep the cache coherent. */
  lemma StepKeepsCoherent(s: CoapState, op: Op)
    requires Coherent(s)
    ensures Coherent(Apply(s, op)) <==> KeepsCache(s, op)
  {
    if op.SetToken? {
      TokenChangesSize(s, op.token);
    }
  }

  lemma TokenChangesSize(s: CoapState, token: Token)
    ensures FreshSize(s.(token := token)) == FreshSize(s) <==> |token| == |s.token|
  {
    var rest := BASE_HDRSIZE + StringsSize(s.uriPath) + StringsSize(s.uriQuery)
                + (if s.contentType != 0 then CoapPrinter.OptLen(1) else 0) + 1;
    assert FreshSize(s) == (rest + |s.token|) % 0x1_0000;
    assert FreshSize(s.(token := token)) == (rest + |token|) % 0x1_0000;
    var q, r := rest / 0x1_0000, rest % 0x1_0000;
    assert rest + |token| == 0x1_0000 * q + (r + |token|);
    assert rest + |s.token| == 0x1_0000 * q + (r + |s.token|);
  }

  predicate AllKeepCache(s: CoapState, ops: seq<Op>) {
    forall i :: 0 <= i < |ops| ==> KeepsCache(Run(s, ops[..i]), ops[i])
  }

  /** Over every run within the guard the cache is empty or fresh. */
  lemma {:induction false} RunKeepsCoherent(s: CoapState, ops: seq<Op>)
    requires Coherent(s) && AllKeepCache(s, ops)
    ensures Coherent(Run(s, ops))
    decreases |ops|
  {
    if ops != [] {
      var n := |ops| - 1;
      assert forall i :: 0 <= i < n ==> ops[..n][..i] == ops[..i] && ops[..n][i] == ops[i];
      assert AllKeepCache(s, ops[..n]);
      RunKeepsCoherent(s, ops[..n]);
      StepKeepsCoherent(Run(s, ops[..n]), ops[n]);
    }
  }

  // ---------------------------------------------------------------- transactions

  /** The status net_coap_recv returns, and the Code and Message ID fields it read. */
  function Status(s: CoapState, op: Op): int
    requires op.Recv?
  {
    Receive(s, op.cfg, op.frame).status
  }

  /** A message was accepted: handed up, or taken as an acknowledgement. */
  predicate Accepts(s: CoapState, op: Op) {
    op.Recv? && (Status(s, op) == NET_STATUS_OK || Status(s, op) == STATUS_ACK)
  }

  lemma AcceptedHasHeader(s: CoapState, op: Op)
    requires op.Recv? && Status(s, op) >= 0
    ensures Udp.Receive(op.cfg, op.frame).status >= 0 && |Datagram(op.cfg, op.frame)| >= BASE_HDRSIZE
  {
  }

  /** The Code field of an accepted message. */
  function Code(s: CoapState, op: Op): byte
    requires Accepts(s, op)
  {
    AcceptedHasHeader(s, op);
    Datagram(op.cfg, op.frame)[1]
  }

  /** The code of the last message accepted since the last send; zero if there is none. */
  function LastAccepted(s: CoapState, ops: seq<Op>): byte
    decreases |ops|
  {
    if ops == [] then 0
    else
      var before, op := Run(s, ops[..|ops| - 1]), ops[|ops| - 1];
      if op.Send? then 0
      else if Accepts(before, op) then Code(before, op)
      else LastAccepted(s, ops[..|ops| - 1])
  }

  lemma {:induction false} ResponseCodeIsLastAccepted(s: CoapState, ops: seq<Op>)
    requires s.responseCode == 0
    ensures Run(s, ops).responseCode == LastAccepted(s, ops)
    decreases |ops|
  {
    if ops != [] {
      var before, op := Run(s, ops[..|ops| - 1]), ops[|ops| - 1];
      ResponseCodeIsLastAccepted(s, ops[..|ops| - 1]);
      if op.Recv? {
        ReceiveEffect(before, op);
      }
    }
  }

  /** A receive changes the response code when it accepts, and nothing else ever. */
  lemma ReceiveEffect(s: CoapState, op: Op)
    requires op.Recv?
    ensures Apply(s, op) == if Accepts(s, op) then s.(responseCode := Code(s, op)) else s
  {
  }

  /** How many sends there are in a run. */
  function Sends(ops: seq<Op>): nat
    decreases |ops|
  {
    if ops == [] then 0 else Sends(ops[..|ops| - 1]) + if ops[|ops| - 1].Send? then 1 else 0
  }

  lemma {:induction false} MessageIdCountsSends(s: CoapState, ops: seq<Op>)
    ensures Run(s, ops).lastMessageId == (s.lastMessageId + Sends(ops)) % 0x1_0000
    decreases |ops|
  {
    if ops != [] {
      var n := |ops| - 1;
      MessageIdCountsSends(s, ops[..n]);
      if ops[n].Send? {
        var t: nat := s.lastMessageId + Sends(ops[..n]);
        WrapAdd(t, 1);
      }
    }
  }

  /** The Message IDs printed by the sends of a run, in order. */
  function SentIds(s: CoapState, ops: seq<Op>): (r: seq<u16>)
    ensures |r| == Sends(ops)
    decreases |ops|
  {
    if ops == [] then []
    else
      SentIds(s, ops[..|ops| - 1])
      + if ops[|ops| - 1].Send? then [GetBe16(FixedHeader(Run(s, ops)), 2)] else []
  }

  lemma {:induction false} SentIdsCount(s: CoapState, ops: seq<Op>, i: nat)
    requires i < Sends(ops)
    ensures SentIds(s, ops)[i] == (s.lastMessageId + i + 1) % 0x1_0000
    decreases |ops|
  {
    var n := |ops| - 1;
    if ops[n].Send? && i == Sends(ops) - 1 {
      MessageIdCountsSends(s, ops);
      assert FixedHeader(Run(s, ops))[2..4] == Be16(Run(s, ops).lastMessageId);
      GetPutBe16(Run(s, ops).lastMessageId, FixedHeader(Run(s, ops)), 2);
    } else {
      SentIdsCount(s, ops[..n], i);
    }
  }

  /** Two sends fewer than 65536 apart carry different Message IDs, section 4.4 of RFC 7252. */
  lemma {:induction false} MessageIdsDiffer(s: CoapState, ops: seq<Op>, i: nat, j: nat)
    requires i < j < Sends(ops)
    ensures SentIds(s, ops)[i] == SentIds(s, ops)[j] <==> (j - i) % 0x1_0000 == 0
  {
    SentIdsCount(s, ops, i);
    SentIdsCount(s, ops, j);
    var a := s.lastMessageId + i + 1;
    var q, r := a / 0x1_0000, a % 0x1_0000;
    var p, t := (j - i) / 0x1_0000, (j - i) % 0x1_0000;
    assert a + (j - i) == 0x1_0000 * (q + p) + (r + t);
  }

  /** A datagram of `kind` that the context takes for the answer to its Message ID `id`. */
  predicate Acknowledges(m: seq<byte>, kind: byte, id: u16) {
    && |m| >= BASE_HDRSIZE
    && m[0] / 64 == VERSION && m[0] / 16 % 4 == kind
    && m[1] == EMPTY && GetBe16(m, 2) == id
  }

  /** When an acknowledgement or a reset is reported, whatever went before. */
  lemma AckIff(s: CoapState, ops: seq<Op>, op: Op)
    requires op.Recv?
    ensures var accepted, id := Udp.Receive(op.cfg, op.frame).status >= 0, (s.lastMessageId + Sends(ops)) % 0x1_0000;
            && (Status(Run(s, ops), op) == STATUS_ACK
                <==> accepted && Acknowledges(Datagram(op.cfg, op.frame), ACKNOWLEDGE, id))
            && (Status(Run(s, ops), op) == STATUS_RST
                <==> accepted && Acknowledges(Datagram(op.cfg, op.frame), RESET, id))
  {
    MessageIdCountsSends(s, ops);
    if Udp.Receive(op.cfg, op.frame).status >= 0 {
      ParseAckIff(Run(s, ops), Datagram(op.cfg, op.frame));
    }
  }

  lemma ParseAckIff(s: CoapState, m: seq<byte>)
    ensures Parse(s, m).status == STATUS_ACK <==> Acknowledges(m, ACKNOWLEDGE, s.lastMessageId)
    ensures Parse(s, m).status == STATUS_RST <==> Acknowledges(m, RESET, s.lastMessageId)
  {
  }

  /**
   An acknowledgement or a reset is reported only for an empty message that carries the
   current Message ID: that of the last send of the run, or the initial one if there was no
   send. It is the identifier of a send of the run exactly when there was one.
   */
  lemma {:induction false} AckMatchesLastSend(s: CoapState, ops: seq<Op>, op: Op)
    requires op.Recv? && (Status(Run(s, ops), op) == STATUS_ACK || Status(Run(s, ops), op) == STATUS_RST)
    ensures Udp.Receive(op.cfg, op.frame).status >= 0
    ensures var m, ids := Datagram(op.cfg, op.frame), SentIds(s, ops);
            && |m| >= BASE_HDRSIZE
            && m[1] == EMPTY
            && GetBe16(m, 2) == (s.lastMessageId + Sends(ops)) % 0x1_0000
            && (GetBe16(m, 2) in ids <==> Sends(ops) > 0)
            && (Sends(ops) > 0 ==> GetBe16(m, 2) == ids[|ids| - 1])
    ensures Apply(Run(s, ops), op).responseCode
            == if Status(Run(s, ops), op) == STATUS_ACK then 0 else Run(s, ops).responseCode
  {
    AckIff(s, ops, op);
    if Sends(ops) > 0 {
      SentIdsCount(s, ops, Sends(ops) - 1);
    }
  }

  /**
   Four bytes with the current Message ID are taken for an acknowledgement, even before the
   first send.
   */
  lemma AckOfCurrentId(s: CoapState, m: seq<byte>)
    requires |m| == BASE_HDRSIZE && m[0] == 0x60 && m[1] == EMPTY && GetBe16(m, 2) == s.lastMessageId
    ensures Parse(s, m) == Outcome(STATUS_ACK, EMPTY, 0, 0)
  {
  }

  /** A new context, whose counter is zero, has not sent what these four bytes acknowledge. */
  lemma AckWithoutSend(s: CoapState)
    requires s.lastMessageId == 0
    ensures Parse(s, [0x60, 0, 0, 0]) == Outcome(STATUS_ACK, 0, 0, 0) && 0 !in SentIds(s, [])
  {
    AckOfCurrentId(s, [0x60, 0, 0, 0]);
  }
}
