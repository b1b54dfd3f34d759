# Verified model of the arduino_ipv6 network stack

A Dafny model of the CoAP / UDP / IPv6 / Ethernet stack and of the two hardware layers below
it. Every layer prints and parses its header in one shared packet buffer, an `array<byte>`
with a window given by an offset and a length. Each context of the C sources is a class that
holds a reference to the class of the layer below; its methods write the buffer and the serial
port in place, and their contracts tie the new state to functions over byte sequences. What
the protocol promises is then proved about those functions, for all inputs, all settings and
all runs.

| file | models |
|---|---|
| `Bytes.dfy`, `Checksum.dfy` | the cursor macros and the Internet checksum of `net_utils.h` |
| `Serial.dfy`, `SerialFraming.dfy` | the hex-line framing of `platform.cpp` |
| `W5500.dfy` | the receive pointer arithmetic of `hw_w5500.c` |
| `Mac.dfy` | `proto_mac.c` |
| `Ip6.dfy`, `Ndp.dfy`, `Ip6Layer.dfy`, `NdpProperties.dfy` | `proto_ip6.c`: packets, neighbor discovery, the context, properties |
| `Udp.dfy`, `UdpRuns.dfy` | `proto_udp.c` and its checksum over runs |
| `CoapOptions.dfy`, `CoapPrinter.dfy`, `CoapDelimiting.dfy` | `proto_coap.c`: option format and loop, printed options, when the loop finds their end |
| `Coap.dfy`, `CoapLayer.dfy`, `CoapRuns.dfy` | `proto_coap.c`: messages, the context, runs |
| `WireFormat.dfy`, `CoapFormat.dfy` | what is accepted and sent, byte for byte, in the numbers of the headers and standards |
| `RoundTrip.dfy`, `CoapTruncation.dfy`, `EndToEnd.dfy` | the layers together |

Conventions. `byte` and `u16` are bounded integers; every 8-bit and 16-bit truncation of the
source that can happen is written as `% 0x100` or `% 0x1_0000`, and bit operations are written
as division and remainder. A C string is the sequence of its bytes, and a null string table is
the empty list. A pointer into the packet buffer is an index. The `*dataoffset` and `*datalen`
parameters of the receive functions are out-parameters. Preconditions of the send methods only
say that what is printed and sent lies inside the buffer and that lengths fit 16 bits, which
the C code leaves to its callers. A statement block of a long C function is sometimes a method
of its own.

## What is proved

* **Checksum.** `_net_cksum_sum` computes the closed form ((T - 1) mod 65535) + 1 (0 for T = 0)
  of the sum T of the 16-bit words, independent of word order and of cuts at even offsets. A
  UDP datagram is valid under section 8.1 of RFC 8200 exactly when the sum cached by
  `net_udp_connect` is that of the present addresses, and over every run it is valid if no
  address or next-header setter came after the last successful connect.
* **Options.** The option loop of `net_coap_recv` accepts exactly the grammar of section 3.1 of
  RFC 7252, unless a 16-bit extended length wraps; the printed options follow an exact
  recurrence, and are read back with their registered numbers exactly when there are at most
  two and the first is not Uri-Query. The loop finds the end of printed options under an exact
  condition on the paths, the content type and the bytes of the queries.
* **Context over runs.** The header-size cache, the response code and the Message IDs; when an
  acknowledgement or a reset is reported.
* **Neighbor discovery.** When a solicitation is answered, and that the answer built over the
  request carries the right target, IPv6 destination and checksum; when its flags, its
  Ethernet destination and its size are right.
* **Round trips.** Serial line, Ethernet, IPv6, UDP and CoAP, one by one and as a whole stack,
  with the exact condition for a CoAP message to arrive as it was sent: for a message that
  is handed down whole, and for any cached header size.
  `EndToEnd.Conversation` runs the methods of two stacks through a request and a response.
* **Formats.** For every layer, exactly which frames are accepted, with the window of each and
  the error for every other one, and the bytes of what is sent: stated over the bytes with
  literal values, apart from the constants and conditions the methods are specified by.
* **Hardware.** Streams of serial lines of any kind are decoded in order; the W5500 ring is a
  FIFO whatever arrives between the calls.

## Facts about the code

* `options_delta` holds the previous delta instead of the previous option number
  (proto_coap.c:25). Deltas of 13 or more are never extended, so they collide with the reserved
  nibbles (`CoapPrinter.DeltaRecurrence`, `CoapPrinter.ReadsBackIff`). A first Uri-Query with
  delta 15 is always rejected (`RoundTrip.QueryIsRejected`). With delta 14 the peer takes the
  next two bytes for an extended delta; `RoundTrip.ParseRoundTrip` and
  `CoapDelimiting.SkippableFrom14` say exactly when it still finds the payload, and
  `CoapDelimiting.QueryWithDelta14` shows a payload that is lost without an error.
* `NET_COAP_OPTLEN` counts one extension byte where two are printed from 269 bytes on
  (proto_coap.c:20-21), so a message with such options is handed down too short.
  `CoapTruncation.LongOptionsOutcome` states what the peer makes of a readable one, and
  `CoapTruncation.PayloadArrivesIff` that it then finds another window than the sender's.
  `CoapTruncation.FreshWindowIff` is the exact condition for every context: the loop has to
  come to a marker as many bytes early as there are such options.
  `CoapTruncation.FalseMarkerIsFound` is an unreadable context for which it does, at the last
  byte of a query; the payload is then complete exactly when its first byte is 0xFF
  (`CoapTruncation.OneByteIsMarker`).
* `net_coap_set_token` leaves a stale header size (proto_coap.c:100-106):
  `CoapRuns.StepKeepsCoherent` names the operations that keep the cache right. With a size that
  is not that of the printed head, the peer does not find the sender's window
  (`CoapTruncation.RightSizeIff`).
* A context that has not sent anything takes an empty message with its initial Message ID for
  an acknowledgement or a reset: for a new context `60 00 00 00` is enough
  (`CoapRuns.AckIff`, `CoapRuns.AckWithoutSend`).
* A token of 16 bytes or more is printed whole with a truncated length field:
  `RoundTrip.LongTokenIsRejected`.
* `net_coap_recv` consumes the payload marker without subtracting it from the length
  (proto_coap.c:251-261), so a payload of n bytes is reported as n + 1.
* The result of the room check in `net_coap_send` is discarded (proto_coap.c:377), so there is
  no error path to model.
* The guard of `_net_icmpv6_send_na` counts 68 bytes where 72 are written (proto_ip6.c:527-528
  and 597-598): with `buflen` from 82 to 85 the answer is longer than the buffer
  (`NdpProperties.AnswerStaysInsideIff`, `NdpProperties.AnswerIsTooLong`). The array of the
  model stands for the memory from the start of the buffer on, and a receive asks for the room
  of the answer (`Ip6Layer.AnswerHasRoom`) only when a solicitation for us is about to be
  answered.
* The solicited flag of an advertisement is set even when it goes to all nodes (every caller
  passes `true`, proto_ip6.c:494-499); section 7.2.4 of RFC 4861 asks for zero there:
  `NdpProperties.SolicitedFlagIsRightIff`.
* The answer to a solicitation always goes to the configured Ethernet peer, whoever asked
  (proto_ip6.c:596-598), and to 33:33:00:00:00:01 only if that is configured as the peer:
  `NdpProperties.ReplyReachesIff`.
* After an extended option length the option loop insists on one more byte, even when the
  16-bit length has wrapped to zero (proto_coap.c:296-313): `CoapOptions.StepOnHead`.
* One error return of `net_udp_recv` leaves its window open (proto_udp.c:137-139):
  `RoundTrip.OpenWindowOnError`.
* The window of `net_udp_recv` follows the IPv6 length (proto_udp.c:142-143): bytes behind the
  datagram are handed up with it (`RoundTrip.WindowIsDatagramIff`, `RoundTrip.WrongUdpLengths`).
* When the buffer of `serial_read` is full, the rest of the line is read like a line of its own,
  so that one line can deliver two frames (`SerialFraming.TwoFramesInOneLine`).

## Model

| member | source | states |
|---|---|---|
| `Bytes.PutByte` | net_utils.h:23-27 | the byte is appended at the cursor and nothing else in the buffer changes |
| `Bytes.PutShort` | net_utils.h:29-34 | the two big-endian bytes of a 16-bit value are appended at the cursor |
| `Bytes.PutData` | net_utils.h:45-49 | the data is appended at the cursor |
| `Bytes.GetPutBe16` | net_utils.h:58-63 | reading a word back gives the value that was put |
| `Bytes.PutGetBe16` | net_utils.h:29-34 | putting a word that was read gives the same two bytes |
| `Checksum.CksumSum` | net_utils.h:97-118 | the loop with its carry folding and odd tail computes the closed form of the sum, also when chained |
| `Checksum.FoldStep` | net_utils.h:103-106 | one addition with end-around carry is exact and stays within 16 bits |
| `Checksum.ChainedSum` | net_utils.h:97-118 | a sum may be cut at any even offset and continued |
| `Checksum.OrderIndependent` | net_utils.h:97-118 | section 2 of RFC 1071: data with the same words in any order, an odd tail padded, gives the same sum |
| `Checksum.OddTail` | net_utils.h:110-116 | an odd last byte counts as if a zero byte followed |
| `Checksum.CksumFieldValidity` | net_utils.h:120-128 | the stored field is never 0 and makes a sum valid if and only if it was computed from a congruent one |
| `WireFormat.BigEndian` | net_utils.h:29-34 | words are stored and read high byte first |
| `WireFormat.ChecksumExample` | net_utils.h:97-128 | the example of section 3 of RFC 1071 |
| `Serial.HwSerial.Read` | platform.cpp:148-235 | returned length, buffer and characters left after one call, on every input; bytes past the stored ones are untouched |
| `Serial.HwSerial.Write` | platform.cpp:313-348 | exactly one line is written and the length is returned |
| `SerialFraming.ReadInvertsWrite` | platform.cpp:148-348 | the reader returns what the writer printed; a line of exactly the buffer size leaves its newline, a longer one its remaining digits |
| `SerialFraming.LeftoverIsSkipped` | platform.cpp:156-232 | the call after an oversized frame drops the rest of its line |
| `SerialFraming.LineIsRead` | platform.cpp:148-235 | any line, well formed or not, announces the byte pairs up to its first flaw; if they fill the buffer, the rest of the line stays |
| `SerialFraming.OtherLineIsSkipped` | platform.cpp:172-231 | a line that does not start with `P:` is consumed and announces nothing |
| `SerialFraming.StreamIsDecoded` | platform.cpp:148-235 | a stream of frames and lines of any kind and size is decoded in order, one call per line and one more for every time it fills the buffer |
| `SerialFraming.TwoFramesInOneLine` | platform.cpp:148-235 | a line that delivers two frames |
| `SerialFraming.OneLinePerCall` | platform.cpp:148-235 | with room to spare for every line that is one line per call |
| `WireFormat.HexAlphabet` | platform.cpp:156-232 | the digits are 0 to 9 and A to F, upper case only |
| `WireFormat.LineExample` | platform.cpp:313-348 | one printed line, character for character |
| `WireFormat.UnfinishedLine` | platform.cpp:148-235 | a line that breaks off announces nothing unless the buffer was full before |
| `W5500.HwW5500.Recv` | hw_w5500.c:327-390 | one call delivers the first frame of the ring and moves the pointer behind it, or leaves pointer and queue alone |
| `W5500.HwW5500.ReadMemory` | hw_w5500.c:371-373 | a read through the 16-bit address delivers consecutive bytes of the ring across its end |
| `W5500.CallsAreFifo` | hw_w5500.c:327-390 | successive calls return the frames in order; after them the pointer has moved by the sum of (length + 2) modulo 65536 |
| `W5500.OversizedBlocks` | hw_w5500.c:363-368 | a frame larger than the buffer keeps pointer and queue unchanged for any number of calls |
| `W5500.ArrivalIsAppended` | hw_w5500.c:327-390 | a frame stored behind the others joins the queue |
| `W5500.RunIsFifo` | hw_w5500.c:327-390 | over any interleaving of arrivals and calls the frames taken and those left are the old queue and the arrivals in order; the pointer moves by the entries taken |
| `WireFormat.RingLayout` | hw_w5500.c:345-373 | an entry is the total length, high byte first, and the frame; addresses are taken modulo 2048 |
| `Mac.NetMac.Filter` | proto_mac.c:92-103 | the tests and the loop admit exactly our address and the 33:33 addresses of the table |
| `Mac.NetMac.Recv` | proto_mac.c:72-114 | window and status for every frame |
| `Mac.NetMac.Send` | proto_mac.c:116-149 | the frame on the line is header and payload; too small an offset changes nothing |
| `Mac.CmpAddr` | proto_mac.c:15-21 | the byte-wise test is equality of addresses |
| `Mac.CmpIp6Mcast` | proto_mac.c:26-30 | the byte-wise test is equality of the last four bytes with the suffix |
| `WireFormat.EthernetAcceptsIff` | proto_mac.c:82-113 | the window opens at byte 14 if and only if length and type fit and the destination is ours or a 33:33 address of the table; otherwise -1 and an empty window |
| `WireFormat.EthernetGroups` | proto_ip6.h:22-27 | with the suffixes of our address the groups are the two of section 7 of RFC 2464 |
| `Ip6.PseudoHeaderSum` | proto_ip6.c:361-373 | summing addresses, length, next header and message is summing the pseudo-header of section 8.1 of RFC 8200 with the message |
| `WireFormat.PseudoHeaderBytes` | proto_ip6.c:361-373 | the bytes of the pseudo-header of section 8.1 of RFC 8200 |
| `WireFormat.Ip6AcceptsIff` | proto_ip6.c:198-273 | a packet is handed up if and only if the link accepts it, version and length fit, next header and both addresses are those of the connection |
| `WireFormat.Ip6Errors` | proto_ip6.c:198-273 | the error for each test that fails |
| `Ip6Layer.NetIp6.GetL3Cksum` | proto_ip6.c:155-165 | the folded sum of both addresses and the next header |
| `Ip6Layer.NetIp6.Send` | proto_ip6.c:276-307 | the frame on the line is Ethernet header, IPv6 header and payload; the payload is not touched |
| `Ip6Layer.NetIp6.Recv` | proto_ip6.c:178-274 | window and status for every frame; an answer is sent exactly for a solicitation for us when the guard allows it, otherwise wire and buffer are unchanged |
| `Ip6Layer.NetIp6.ReadHeader` | proto_ip6.c:195-235 | the header checks and their errors |
| `Ip6Layer.NetIp6.ProcessIcmpv6` | proto_ip6.c:396-513 | status, and the one frame sent in place of the request exactly when the packet solicits one of our addresses |
| `Ip6Layer.NetIp6.ProcessTarget` | proto_ip6.c:459-500 | the answer goes out for our two addresses only, to the original source although the request is overwritten |
| `Ip6Layer.NetIp6.SendNa` | proto_ip6.c:515-599 | the advertisement, checksum included, replaces the request and is sent; the guard that fails changes nothing |
| `Ip6Layer.NetIp6.FixIcmpCksum` | proto_ip6.c:361-379 | only the checksum field is rewritten, with the value for the whole packet |
| `Ndp.MatchAddr` | proto_ip6.c:319-359 | the byte tests classify exactly our address, our link-local address, all-nodes and our solicited-node address |
| `Ndp.CmpLlAddr` | proto_ip6.c:50-66 | the byte tests are equality with the link-local address of our interface identifier |
| `Ndp.UnsummedSum` | proto_ip6.c:361-374 | the sum taken over the printed packet is that of its pseudo-header and message |
| `Ndp.SummedPacket` | proto_ip6.c:376-378 | storing the field completes the advertisement and moves no other byte |
| `NdpProperties.AdvertisementIsValid` | proto_ip6.c:361-379 | section 2.3 of RFC 4443: the checksum of every advertisement is valid and not zero |
| `NdpProperties.ReplyAnswers` | proto_ip6.c:474-500 | the answer carries the solicited target and our link-layer address, has the solicitor or all nodes as IPv6 destination, and is valid; its flags and its Ethernet header, with the configured peer as destination, are fixed |
| `WireFormat.SolicitationIff` | proto_ip6.c:409-467 | a frame is answered if and only if it is a type 135 message of 24 bytes or more, to one of the four destinations, for one of our two addresses |
| `WireFormat.IcmpStatus` | proto_ip6.c:409-510 | the error for every ICMPv6 message |
| `WireFormat.ReplyBytes` | proto_ip6.c:532-599 | every byte of the answer but its checksum, type 136 |
| `NdpProperties.SolicitedFlagIsRightIff` | proto_ip6.c:566-572 | section 7.2.4 of RFC 4861: the solicited flag is right if and only if the solicitor has an address |
| `NdpProperties.ReplyReachesIff` | proto_ip6.c:592-598 | the answer goes to the station that asked, or to the all-nodes group, if and only if that is the configured peer |
| `NdpProperties.AnswerStaysInsideIff` | proto_ip6.c:526-530 | an answer that passes the guard stays within `buflen` if and only if `buflen` is not 82 to 85 |
| `NdpProperties.AnswerIsTooLong` | proto_ip6.c:526-530 | a solicitation of 78 bytes received with 82 is answered with 86 |
| `NdpProperties.LinkFilterCovers` | proto_ip6.h:22-27 | every group the network layer listens to passes the link filter built from our address |
| `NdpProperties.LinkFilterAdmits` | proto_mac.c:92-103 | with that table the filter admits our address and the two groups, and nothing else |
| `NdpProperties.MulticastSolicitationIsAnswered` | proto_ip6.c:422-500 | a solicitation multicast to a group of ours, padded or not, gets through both layers and is answered |
| `Udp.NetUdp.Connect` | proto_udp.c:67-89 | a missing port is an error that keeps the cached sum; otherwise the sum is that of the present addresses |
| `Udp.NetUdp.FixCksum` | proto_udp.c:34-52 | only the checksum field is rewritten, from cached sum, length and datagram |
| `Udp.NetUdp.Send` | proto_udp.c:154-197 | the frame on the line is all headers, checksum included, and the payload, which is not touched |
| `Udp.NetUdp.Recv` | proto_udp.c:96-152 | window and status for every frame, and the effect of the layers below |
| `Udp.NetUdp.Process` | proto_udp.c:111-145 | the length and port tests and their windows, the open one included |
| `WireFormat.UdpAcceptsIff` | proto_udp.c:105-151 | a datagram is handed up if and only if both ports match and its length field is covered; the window or error for every other one |
| `WireFormat.ConnectNeedsPorts` | proto_udp.c:67-89 | the cached sum stays while a port is missing, and is that of addresses and next header otherwise |
| `UdpRuns.ValidIffFresh` | proto_udp.c:34-52 | whatever the payload, the datagram is valid if and only if the cached sum is congruent to that of the present addresses |
| `UdpRuns.RunKeepsFresh` | proto_udp.c:54-89 | operations other than the address and next-header setters keep the cache fresh |
| `UdpRuns.ValidAfterConnect` | proto_udp.c:80-86 | in every run, datagrams sent after the last successful connect are valid if no such setter came in between |
| `CoapOptions.DecodeIsTheFormat` | proto_coap.c:249-329 | section 3.1 of RFC 7252: a byte string has at most one reading as options and payload, and the reference parser finds it |
| `CoapOptions.WellFormedIffDecodes` | proto_coap.c:249-329 | a body belongs to the grammar if and only if the reference parser accepts it |
| `CoapOptions.StepFollowsFormat` | proto_coap.c:263-328 | one turn of the loop skips exactly one option of the grammar, unless the 16-bit length wraps |
| `CoapOptions.WalkDecidesFormat` | proto_coap.c:249-332 | the loop accepts exactly the grammar if it meets no wrapping length, and stops where the payload starts |
| `CoapOptions.WrapIsAccepted` | proto_coap.c:312-313 | a concrete body outside the grammar that the loop accepts because the length wraps |
| `CoapFormat.OptionBytes` | proto_coap.c:263-328 | the bytes of every option of section 3.1 of RFC 7252 |
| `CoapFormat.StepOnShortLength` | proto_coap.c:263-328 | one turn of the loop over the bytes, for a length below 13 |
| `CoapFormat.StepOnExtendedLength` | proto_coap.c:293-328 | the same for an extended length, added up in 16 bits |
| `CoapFormat.StepOnReservedLength` | proto_coap.c:316-319 | the same for the reserved length |
| `CoapFormat.WalkStops` | proto_coap.c:249-262 | the end of the loop at the last byte, at a marker, and at an error |
| `CoapPrinter.PrintConcat` | proto_coap.c:393-412 | the printed options are those of the parts, the second continuing from the last delta of the first |
| `CoapPrinter.PrintedSize` | proto_coap.c:20-37 | the printed bytes number the size formula plus one for each option of 269 bytes or more |
| `CoapPrinter.PathDeltas` | proto_coap.c:23-37 | Uri-Path deltas alternate between 11 and 0 |
| `CoapPrinter.QueryDeltas` | proto_coap.c:23-37 | Uri-Query deltas stay below 16, and below 13 from a start in 3..12 |
| `CoapPrinter.DeltaRecurrence` | proto_coap.c:393-412 | every delta fits four bits; all are below 13 if and only if there is no query or an odd number of options in front |
| `CoapPrinter.PrintIsFormat` | proto_coap.c:23-37 | while deltas are below 13 the printed bytes are the encoding of the format, extended lengths included |
| `CoapPrinter.ReadsBackIff` | proto_coap.c:23-37 | a reader of the format gets the registered option numbers if and only if there are at most two options and the first is not Uri-Query |
| `CoapPrinter.QueryFirstIsMisread` | proto_coap.c:25-28 | a message that starts with Uri-Query is never read back |
| `CoapPrinter.ThirdIsMisread` | proto_coap.c:25-28 | the third option is never read with its number |
| `CoapFormat.PrintedOptionBytes` | proto_coap.c:23-37 | the bytes of every printed option |
| `CoapFormat.PrintedSteps` | proto_coap.c:393-412 | all deltas and values of a message in closed form |
| `CoapFormat.SentValues` | proto_coap.c:393-412 | when all deltas fit, a reader finds the payload and the paths, the content type and the queries as option values, in this order |
| `CoapFormat.SentNumbers` | proto_coap.h:55-57 | a reader finds the numbers 11, 12 and 15 in a message of at most two options, the first not a query |
| `CoapFormat.ContentTypeExample` | proto_coap.c:402-404 | content type 50 alone is printed as C1 32 |
| `CoapDelimiting.StopsIffSkippable` | proto_coap.c:249-332 | the loop stops at the payload if and only if it skips its way to exactly the end of the options |
| `CoapDelimiting.SkippableIffOptions` | proto_coap.c:249-332 | short of a wrapping length, that is the case for the lists of options of section 3.1 of RFC 7252 and nothing else |
| `CoapDelimiting.SkippableIffDelimited` | proto_coap.c:23-37 | the exact condition on what is printed: deltas that fit, or a first query with delta 14 that leads the loop back |
| `CoapDelimiting.SkippableFrom14` | proto_coap.c:273-321 | after an option with delta 14 the loop goes on from a byte determined by its length and first two bytes |
| `CoapDelimiting.SingleQueryLands` | proto_coap.c:273-321 | for a single query: never below 15 bytes, otherwise by its first two bytes and what follows the landing point |
| `CoapDelimiting.QueryWithDelta14` | proto_coap.c:273-281 | a path, a content type and a query that give an error without payload and lose a payload of one byte |
| `CoapDelimiting.PrefixHasNoPayload` | proto_coap.c:249-332 | options cut short never make the loop find a payload |
| `CoapDelimiting.CutIsAcceptedIff` | proto_coap.c:249-332 | options cut short are accepted if and only if whole options are left |
| `CoapDelimiting.FindsPayloadIff` | proto_coap.c:249-332 | the loop finds a payload if and only if it skips up to a marker right in front of it |
| `CoapDelimiting.StopIsUnique` | proto_coap.c:249-332 | behind options it can skip there is no second marker it could stop at |
| `CoapDelimiting.LandsOnFalseMarker` | proto_coap.c:273-321 | a query from which the loop comes to its last byte, which looks like a marker |
| `CoapLayer.SkipOption` | proto_coap.c:263-328 | cursor and length after one option, or the error |
| `CoapLayer.SkipOptions` | proto_coap.c:249-332 | the loop stops where the walk stops; consumed and remaining bytes always add up, and the remaining bytes are the termination measure |
| `CoapLayer.PutOption` | proto_coap.c:23-37 | header, extension and value of one option, and the new delta |
| `CoapLayer.NetCoap.ComputeHdrSize` | proto_coap.c:59-90 | the size formula, every addition in 16 bits |
| `CoapLayer.NetCoap.PloadPos` | proto_coap.c:156-163 | the cache is filled if empty, and the position is behind it |
| `CoapLayer.NetCoap.SetToken` | proto_coap.c:100-106 | the token is replaced and the cached size kept |
| `CoapLayer.NetCoap.SetContentType` | proto_coap.c:132-143 | the cache is dropped only when the option comes or goes |
| `CoapLayer.NetCoap.Send` | proto_coap.c:350-424 | context, buffer and line after a send, for any cached size and any option lengths |
| `CoapLayer.NetCoap.PrintMessageHead` | proto_coap.c:379-419 | header, token, all options in order and the marker are printed, nothing else changes |
| `CoapLayer.NetCoap.Recv` | proto_coap.c:165-348 | status, window and context for every frame, and the effect of the layers below |
| `CoapLayer.NetCoap.ParseMessage` | proto_coap.c:186-347 | the parse of one message and the response code kept |
| `CoapLayer.NetCoap.AcceptAck` | proto_coap.c:213-226 | acknowledgement and reset are matched by Message ID and empty code |
| `CoapFormat.ParseAcceptsIff` | proto_coap.c:186-336 | a message is handed up if and only if it has version 1, type 1 and our token and its options end; with its code, offset and length |
| `CoapFormat.ParseErrors` | proto_coap.c:186-347 | status and response code for every other message; type 0 gives -4 |
| `CoapFormat.ReceivedMessage` | proto_coap.c:177-181 | the window and the context after a receive, and the errors of the lower layer |
| `CoapFormat.ResponseExample` | proto_coap.c:227-336 | a response that is accepted as type 1 and refused as type 0 |
| `CoapFormat.FixedHeaderBytes` | proto_coap.c:379-388 | the bytes of the fixed header |
| `CoapFormat.SetterEffect` | proto_coap.c:92-143 | each setter changes its own setting and nothing else does |
| `CoapFormat.CacheEffect` | proto_coap.c:92-163 | what every operation does to the cached header size |
| `CoapFormat.LastSetterCounts` | proto_coap.c:92-143 | over every run the setting in force is the one set last |
| `CoapRuns.StepKeepsCoherent` | proto_coap.c:92-143 | an operation keeps the cached size empty or fresh if and only if it does not change the token length under a filled cache |
| `CoapRuns.RunKeepsCoherent` | proto_coap.c:59-163 | over every run within that guard the cached size is empty or fresh |
| `CoapRuns.ResponseCodeIsLastAccepted` | proto_coap.c:334-360 | after any run the response code is that of the last message accepted since the last send, or 0 |
| `CoapRuns.MessageIdCountsSends` | proto_coap.c:356 | the last Message ID is the number of sends, in 16 bits |
| `CoapRuns.MessageIdsDiffer` | proto_coap.c:356 | section 4.4 of RFC 7252: two sends carry the same Message ID if and only if they are a multiple of 65536 apart |
| `CoapRuns.AckIff` | proto_coap.c:213-226 | over every run: exactly when an acknowledgement or a reset is reported |
| `CoapRuns.AckMatchesLastSend` | proto_coap.c:213-226 | it is an empty message with the current Message ID, which is that of the last send of the run, and of any send if and only if there was one |
| `CoapRuns.AckWithoutSend` | proto_coap.c:213-226 | four bytes that a new context takes for an acknowledgement |
| `RoundTrip.FrameLayout` | proto_udp.c:154-197 | the frame is the four headers and the payload without gap or overlap |
| `RoundTrip.FrameFields` | proto_ip6.c:276-307 | every field at its place in the frame, each length field equal to the bytes behind it |
| `RoundTrip.Ip6RoundTrip` | proto_ip6.c:178-307 | the mirrored peer gets the payload window back under any padding, unless the next header is ICMPv6 |
| `RoundTrip.UdpRoundTrip` | proto_udp.c:96-197 | the mirrored peer gets offset, length and payload back under any padding if and only if the next header is not ICMPv6 |
| `RoundTrip.WindowsNest` | proto_coap.c:343-347 | each layer's window is inside the one below, the CoAP one after discounting the marker; a CoAP result other than OK has an empty window |
| `RoundTrip.OpenWindowOnError` | proto_udp.c:137-139 | exactly when a UDP error leaves a window open |
| `RoundTrip.WindowIsDatagramIff` | proto_udp.c:131-145 | the window is that of the datagram if and only if the UDP and IPv6 length fields agree |
| `RoundTrip.UdpLengthField` | proto_udp.c:131-145 | the outcome for a datagram of a mirrored context with any length field |
| `RoundTrip.WrongUdpLengths` | proto_udp.c:131-145 | a frame whose surplus byte is handed up, and one whose error leaves the window open |
| `RoundTrip.PrintedHeadSize` | proto_coap.c:373-419 | the printed head has the computed header size, less an absent marker, plus one byte per long option |
| `RoundTrip.HeadFields` | proto_coap.c:379-419 | version, type, token length, code, Message ID, token, options and marker at their places |
| `RoundTrip.MessageIsHeadAndPayload` | proto_coap.c:373-423 | what is handed down is the head and the payload placed at the payload position; k long options overwrite its first k bytes, and cut the head where the payload is shorter |
| `RoundTrip.MessageIsWholeIff` | proto_coap.c:20-21 | head and payload are handed down whole if and only if no option has 269 bytes or more |
| `RoundTrip.SentBodyIsReadIff` | proto_coap.c:379-419 | a reader of section 3.1 of RFC 7252 finds the sender's payload if and only if the options are delimited and no length wraps; with fitting deltas it finds the printed options |
| `RoundTrip.AcceptedIffWellFormed` | proto_coap.c:227-336 | with the right token, a message is accepted exactly when its body belongs to the grammar, with the unique payload offset |
| `RoundTrip.ParseRoundTrip` | proto_coap.c:186-336 | the peer accepts a sent message with the sender's method, head length and payload length if and only if it is non-confirmable, its token has less than 16 bytes and its options are delimited |
| `RoundTrip.OtherTokenIsIgnored` | proto_coap.c:234-245 | a peer with another token ignores a message whose token length fits its field |
| `RoundTrip.LongTokenIsRejected` | proto_coap.c:234-245 | a message with a token of 16 bytes or more is not accepted by a peer with the same token |
| `RoundTrip.QueryIsRejected` | proto_coap.c:283-286 | without content type and with an even number of paths, any Uri-Query makes the peer report a protocol error |
| `RoundTrip.ShortQueryIsMisread` | proto_coap.c:273-281 | a single short query with delta 14 takes the marker and the first payload byte with it: the exact outcome |
| `RoundTrip.CoapRoundTrip` | proto_coap.c:165-424 | from the characters on the line to the CoAP window: method, position and payload of the sender, if and only if the message is readable |
| `CoapTruncation.SenderWindowIff` | proto_coap.c:350-424 | for every context and cached size: the peer finds the sender's window if and only if the loop comes to a marker right before the payload position |
| `CoapTruncation.EmptyWindowIff` | proto_coap.c:350-424 | the same for a message without a payload, which has to end where the loop comes out |
| `CoapTruncation.RightSizeIff` | proto_coap.c:100-106 | a readable message gives the sender's window if and only if the cached size is that of the printed head |
| `CoapTruncation.FreshWindowIff` | proto_coap.c:20-21 | with a fresh size, in terms of the printed options and the number of long ones |
| `CoapTruncation.PayloadArrivesIff` | proto_coap.c:20-21 | a readable message with a payload, in a coherent context, gives the peer the sender's window if and only if no option has 269 bytes or more |
| `CoapTruncation.FalseMarkerIsFound` | proto_coap.c:20-21 | an unreadable context with a long query whose window arrives nevertheless |
| `CoapTruncation.PayloadIsKeptIff` | proto_coap.c:20-21 | the bytes at the payload position are the payload if and only if it starts with the bytes of the head printed over it |
| `CoapTruncation.OneByteIsMarker` | proto_coap.c:20-21 | with one long option that byte is the marker |
| `CoapTruncation.LongOptionsOutcome` | proto_coap.c:368-423 | the exact outcome of a readable message with k long options: payload without its first k bytes, an error, or a cut head, accepted if and only if what is left can be skipped |
| `CoapTruncation.SkippableIffWhole` | proto_coap.c:249-332 | with fitting deltas that is when whole options are left |
| `CoapTruncation.LongPathIsRejected` | proto_coap.c:368-423 | a request without payload and with one path of 269 bytes is cut, and the peer reports an error |
| `CoapTruncation.EmptyPathIsLost` | proto_coap.c:368-423 | with an empty path behind it, the peer accepts a request for the first path alone |
| `EndToEnd.SentMessage` | tests.c:658-664 | with the right cached size the message is the head and the whole payload |
| `EndToEnd.CoherentIsSendable` | proto_coap.c:59-90 | a coherent context without long options has that size |
| `EndToEnd.SendPayload` | tests.c:658-664 | payload position, copy and send put exactly that frame on the line |
| `EndToEnd.ReceivePayload` | tests.c:703-705 | receiving that line gives success, the method and the payload, and answers nothing |
| `EndToEnd.Exchange` | tests.c:694-705 | the methods of both stacks in sequence move the payload from one buffer to the other at the same position, and leave both contexts and lines as stated |
| `EndToEnd.Conversation` | tests.c:694-705 | a request and its response: each side gets code and payload of the other |
| `EndToEnd.AnswerSolicitation` | proto_ip6.c:178-274 | the method run on a line with a solicitation: one advertisement on the line and in the buffer if `buflen` is at least 82, otherwise none; -1 and an empty window |
| `EndToEnd.ReceiveOther` | proto_ip6.c:178-274 | on any other line nothing is sent and the frame stays in the buffer |

## Left out

- Timing: the delays and the 500 ms limit of the serial reader; all input is available at once, and running out of it stands for the timeout.
- `serial_signal`, `serial_wait_for_signal` and the debug printers: test control; their lines are covered as lines of another format.
- The W5500 apart from the receive path: register set-up, PHY, polling and sending. The ring is modelled with the 2 KB the chip has after reset, and frames arrive between calls only.
- W5500.HwW5500.Recv: the SPI transfers are replaced by reads of registers and ring memory.
- The CoAP stack runs over the serial layer only, as `config.h` selects; the W5500 is modelled on its own.
- Receive-side checksum checks, retransmission, confirmable replies, router and neighbor advertisements: the code has none.
- Checksum.CksumSum: an empty range is excluded, as every caller passes at least two bytes.
- CoapLayer.NetCoap.Send: a head or payload that does not fit the buffer is excluded, because the code writes without a check.
- Ip6Layer.NetIp6.SendNa: an answer that runs past the memory behind the buffer is excluded, because writing there has no defined result; the receive methods ask for that room only when an answer is due.
- Ip6Layer.NetIp6.Recv: excludes a solicitation for us that passes the guard but whose answer does not fit the memory, as for `SendNa`.
- Ip6Layer.NetIp6.ProcessIcmpv6: excludes a solicitation for us that passes the guard but whose answer does not fit the memory, as for `SendNa`.
- Ip6Layer.NetIp6.ProcessTarget: excludes a solicitation for us that passes the guard but whose answer does not fit the memory, as for `SendNa`.
- Udp.NetUdp.Recv: excludes a solicitation for us that passes the guard but whose answer does not fit the memory, as for `SendNa`.
- CoapLayer.NetCoap.Recv: excludes a solicitation for us that passes the guard but whose answer does not fit the memory, as for `SendNa`.
- RoundTrip.ParseRoundTrip: a peer with another token is covered by `RoundTrip.OtherTokenIsIgnored`, except for a sender's token of 16 bytes or more, where the peer may take part of it for options.
- Pointers to tokens, strings and suffix tables that the caller changes later: the setters take the contents at the time of the call.
- `solicited` is not a parameter of `SendNa`, since every caller passes `true`.
