/**
 The receive side of hw_w5500.c: frames in the receive memory of the chip, read through a
 16-bit pointer that wraps.

 The chip lays every frame out as a 2-byte total length and the data. The ghost field
 `queue` lists the frames that are in the memory.
 */
module W5500 {
  import opened Bytes

  /** The receive memory of socket 0 after reset. */
  const RX_SIZE: nat := 2048

  function Entry(frame: seq<byte>): (r: seq<byte>)
    ensures |r| == |frame| + 2
  {
    Be16(|frame| + 2) + frame
  }

  function Layout(queue: seq<seq<byte>>): seq<byte> {
    if queue == [] then [] else Entry(queue[0]) + Layout(queue[1..])
  }

  /** Where an address points to in the memory. */
  function Slot(address: nat): nat {
    address % RX_SIZE
  }

  lemma SlotIgnoresWrap(a: nat, i: nat)
    ensures Slot(a % 0x1_0000 + i) == Slot(a + i)
  {
    var q := a / 0x1_0000;
    assert a + i == RX_SIZE * (32 * q) + (a % 0x1_0000 + i);
  }

  /** The effect of one call on the frames and the pointer, and the bytes delivered. */
  datatype Delivery = Delivery(frame: seq<byte>, queue: seq<seq<byte>>, pointer: u16)

  function Step(queue: seq<seq<byte>>, pointer: u16, buflen: nat): Delivery {
    if queue == [] || |queue[0]| > buflen then Delivery([], queue, pointer)
    else Delivery(queue[0], queue[1..], (pointer + |queue[0]| + 2) % 0x1_0000)
  }

  /** The bytes at consecutive addresses from `address` on. */
  function ReadAt(memory: seq<byte>, address: nat, n: nat): (r: seq<byte>)
    requires |memory| == RX_SIZE
    ensures |r| == n
  {
    seq(n, i requires 0 <= i => memory[Slot(address + i)])
  }

  /** The memory holds the frames of `queue` from `pointer` on. */
  ghost predicate Holds(memory: seq<byte>, pointer: u16, queue: seq<seq<byte>>) {
    && |memory| == RX_SIZE
    && |Layout(queue)| <= RX_SIZE
    && ReadAt(memory, pointer, |Layout(queue)|) == Layout(queue)
  }

  class HwW5500 {
    var rxrd: u16
    var rxwr: u16
    const memory: array<byte>
    ghost var queue: seq<seq<byte>>

    ghost predicate Valid()
      reads this, memory
    {
      Holds(memory[..], rxrd, queue) && rxwr == (rxrd + |Layout(queue)|) % 0x1_0000
    }

    constructor ()
      ensures Valid() && queue == [] && fresh(memory)
    {
      rxrd, rxwr, queue := 0, 0, [];
      memory := new byte[RX_SIZE](_ => 0);
    }

    /** Sn_RX_RSR: the bytes received and not read yet. */
    function ReceivedSize(): u16
      reads this
    {
      (rxwr - rxrd) % 0x1_0000
    }

    lemma ReceivedSizeIsTotal()
      requires Valid()
      ensures ReceivedSize() == |Layout(queue)|
    {
      var t := rxrd + |Layout(queue)|;
      assert rxwr == if t < 0x1_0000 then t else t - 0x1_0000;
    }

    /** A read command on the receive memory, through a 16-bit address. */
    method ReadMemory(address: nat, buffer: array<byte>, n: nat)
      requires memory.Length == RX_SIZE && n <= buffer.Length && buffer != memory
      modifies buffer
      ensures buffer[..] == Splice(old(buffer[..]), 0, ReadAt(memory[..], address, n))
    {
      for i := 0 to n
        invariant forall j :: 0 <= j < i ==> buffer[j] == memory[Slot(address + j)]
        invariant buffer[n..] == old(buffer[n..])
        invariant memory[..] == old(memory[..])
      {
        SlotIgnoresWrap(address + i, 0);
        buffer[i] := memory[Slot((address + i) % 0x1_0000)];
      }
      assert buffer[..n] == ReadAt(memory[..], address, n);
    }

    method Recv(buffer: array<byte>, buflen: u16) returns (length: u16)
      requires Valid() && buflen <= buffer.Length && buffer != memory
      modifies this, buffer
      ensures Valid()
      ensures var d := Step(old(queue), old(rxrd), buflen);
              && queue == d.queue && rxrd == d.pointer
              && length == |d.frame|
              && buffer[..] == Splice(old(buffer[..]), 0, d.frame)
    {
      ReceivedSizeIsTotal();
      if ReceivedSize() < 2 {
        return 0;
      }
      length := ReadLength();
      if length > buflen {
        return 0;
      }
      Take(buffer, length);
    }

    /** Copy the first frame and move the pointer behind its entry. */
    method Take(buffer: array<byte>, length: u16)
      requires Valid() && queue != [] && length == |queue[0]| <= buffer.Length && buffer != memory
      modifies this, buffer
      ensures Valid()
      ensures rxrd == (old(rxrd) + length + 2) % 0x1_0000 && queue == old(queue)[1..]
      ensures buffer[..] == Splice(old(buffer[..]), 0, old(queue)[0])
    {
      ghost var chip := memory[..];
      ghost var next := FirstEntry(chip, rxrd, queue);
      WrapAdd(rxrd + length + 2, |Layout(queue[1..])|);
      var address := rxrd + 2;
      ReadMemory(address, buffer, length);
      address := address + length;
      Advance(address, chip);
    }

    /** Write the pointer back behind the first entry and signal the chip. */
    method Advance(address: nat, ghost chip: seq<byte>)
      requires memory[..] == chip && queue != []
      requires address == rxrd + |queue[0]| + 2
      requires Holds(chip, address % 0x1_0000, queue[1..])
      requires rxwr == (address % 0x1_0000 + |Layout(queue[1..])|) % 0x1_0000
      modifies this
      ensures Valid()
      ensures rxrd == address % 0x1_0000 && queue == old(queue)[1..]
    {
      rxrd, queue := address % 0x1_0000, queue[1..];
    }

    /** The first two bytes of an entry, less the two bytes themselves. */
    method ReadLength() returns (length: u16)
      requires Valid() && |Layout(queue)| >= 2
      ensures queue != [] && length == |queue[0]|
    {
      ghost var total := |queue[0]| + 2;
      ghost var next := FirstEntry(memory[..], rxrd, queue);
      var rxlen := new byte[2];
      ReadMemory(rxrd, rxlen, 2);
      ghost var read := rxlen[..];
      assert read[0..2] == Be16(total);
      GetPutBe16(total, read, 0);
      length := (Word(rxlen[0], rxlen[1]) - 2) % 0x1_0000;
    }
  }

  lemma ReadAtParts(memory: seq<byte>, address: nat, n: nat, lo: nat, hi: nat)
    requires |memory| == RX_SIZE && lo <= hi <= n
    ensures ReadAt(memory, address, n)[lo..hi] == ReadAt(memory, address + lo, hi - lo)
    ensures ReadAt(memory, (address + lo) % 0x1_0000, hi - lo) == ReadAt(memory, address + lo, hi - lo)
  {
    var a, b := ReadAt(memory, (address + lo) % 0x1_0000, hi - lo), ReadAt(memory, address + lo, hi - lo);
    forall i | 0 <= i < hi - lo ensures a[i] == b[i] {
      SlotIgnoresWrap(address + lo, i);
    }
  }

  /** The first entry in the memory, and the layout of the other frames behind it. */
  lemma FirstEntry(memory: seq<byte>, pointer: u16, queue: seq<seq<byte>>) returns (next: u16)
    requires Holds(memory, pointer, queue) && |Layout(queue)| >= 2
    ensures queue != [] && |Layout(queue)| == |queue[0]| + 2 + |Layout(queue[1..])|
    ensures next == (pointer + |queue[0]| + 2) % 0x1_0000
    ensures ReadAt(memory, pointer, 2) == Be16(|queue[0]| + 2)
    ensures ReadAt(memory, pointer + 2, |queue[0]|) == queue[0]
    ensures Holds(memory, next, queue[1..])
  {
    var n, total := |queue[0]| + 2, |Layout(queue)|;
    next := (pointer + n) % 0x1_0000;
    var layout := Layout(queue);
    assert layout[0..2] == Be16(n) && layout[2..n] == queue[0] && layout[n..total] == Layout(queue[1..]);
    ReadAtParts(memory, pointer, total, 0, 2);
    ReadAtParts(memory, pointer, total, 2, n);
    ReadAtParts(memory, pointer, total, n, total);
  }

  // ---------------------------------------------------------------- runs

  function TotalSize(frames: seq<seq<byte>>): nat {
    if frames == [] then 0 else |frames[0]| + 2 + TotalSize(frames[1..])
  }

  /** The frames delivered by `calls` calls in a row, and what is left. */
  function Calls(queue: seq<seq<byte>>, pointer: u16, buflen: nat, calls: nat): (seq<seq<byte>>, seq<seq<byte>>, u16)
    decreases calls
  {
    if calls == 0 then ([], queue, pointer)
    else
      var d := Step(queue, pointer, buflen);
      var (frames, rest, last) := Calls(d.queue, d.pointer, buflen, calls - 1);
      ([d.frame] + frames, rest, last)
  }

  /** Fitting frames come out in order, and the pointer moves by their entries, modulo 65536. */
  lemma {:induction false} CallsAreFifo(queue: seq<seq<byte>>, pointer: u16, buflen: nat, calls: nat)
    requires calls <= |queue|
    requires forall i :: 0 <= i < calls ==> |queue[i]| <= buflen
    ensures Calls(queue, pointer, buflen, calls)
            == (queue[..calls], queue[calls..], (pointer + TotalSize(queue[..calls])) % 0x1_0000)
    decreases calls
  {
    if calls > 0 {
      var d := Step(queue, pointer, buflen);
      CallsAreFifo(d.queue, d.pointer, buflen, calls - 1);
      assert queue[..calls] == [queue[0]] + queue[1..][..calls - 1];
      assert queue[..calls][1..] == queue[1..][..calls - 1];
      WrapAdd(pointer + |queue[0]| + 2, TotalSize(queue[1..][..calls - 1]));
    }
  }

  /** A frame larger than the buffer stays where it is and blocks the queue. */
  lemma {:induction false} OversizedBlocks(queue: seq<seq<byte>>, pointer: u16, buflen: nat, calls: nat)
    requires queue != [] && |queue[0]| > buflen
    ensures var (frames, rest, last) := Calls(queue, pointer, buflen, calls);
            rest == queue && last == pointer && forall f :: f in frames ==> f == []
    decreases calls
  {
    if calls > 0 {
      OversizedBlocks(queue, pointer, buflen, calls - 1);
    }
  }

  // ---------------------------------------------------------------- arrivals

  lemma {:induction false} LayoutOfAppended(queue: seq<seq<byte>>, frame: seq<byte>)
    ensures Layout(queue + [frame]) == Layout(queue) + Entry(frame)
  {
    if queue == [] {
      LayoutOfFirst(frame, []);
      assert [frame] + [] == queue + [frame];
    } else {
      LayoutOfAppended(queue[1..], frame);
      LayoutOfFirst(queue[0], queue[1..] + [frame]);
      assert [queue[0]] + (queue[1..] + [frame]) == queue + [frame];
      Associates(Entry(queue[0]), Layout(queue[1..]), Entry(frame));
    }
  }

  lemma {:induction false} LayoutOfFirst(frame: seq<byte>, queue: seq<seq<byte>>)
    ensures Layout([frame] + queue) == Entry(frame) + Layout(queue)
  {
    assert ([frame] + queue)[1..] == queue;
  }

  lemma ReadAtConcat(memory: seq<byte>, address: nat, n: nat, m: nat)
    requires |memory| == RX_SIZE
    ensures ReadAt(memory, address, n + m) == ReadAt(memory, address, n) + ReadAt(memory, address + n, m)
  {
  }

  /** A frame the chip stores behind the others, leaving those as they are, joins the queue. */
  lemma {:induction false} ArrivalIsAppended(memory: seq<byte>, pointer: u16, queue: seq<seq<byte>>, frame: seq<byte>)
    requires |memory| == RX_SIZE && |Layout(queue)| + |frame| + 2 <= RX_SIZE
    requires ReadAt(memory, pointer, |Layout(queue)|) == Layout(queue)
    requires ReadAt(memory, pointer + |Layout(queue)|, |frame| + 2) == Entry(frame)
    ensures Holds(memory, pointer, queue + [frame])
  {
    LayoutOfAppended(queue, frame);
    ReadAtConcat(memory, pointer, |Layout(queue)|, |frame| + 2);
  }

  datatype Event = Arrival(frame: seq<byte>) | Call

  /** The frames taken off the queue during `events`, and queue and pointer after them. */
  function Run(queue: seq<seq<byte>>, pointer: u16, buflen: nat, events: seq<Event>)
    : (seq<seq<byte>>, seq<seq<byte>>, u16)
    decreases |events|
  {
    if events == [] then ([], queue, pointer)
    else
      match events[0]
      case Arrival(frame) => Run(queue + [frame], pointer, buflen, events[1..])
      case Call =>
        var d := Step(queue, pointer, buflen);
        var (taken, rest, last) := Run(d.queue, d.pointer, buflen, events[1..]);
        (if |d.queue| == |queue| then taken else [d.frame] + taken, rest, last)
  }

  function Arrivals(events: seq<Event>): seq<seq<byte>> {
    if events == [] then []
    else (if events[0].Arrival? then [events[0].frame] else []) + Arrivals(events[1..])
  }

  /** The frames taken and those left are the queue and the arrivals; the pointer is behind those taken. */
  predicate Conserves(queue: seq<seq<byte>>, pointer: u16, arrived: seq<seq<byte>>,
                      taken: seq<seq<byte>>, rest: seq<seq<byte>>, last: u16)
  {
    taken + rest == queue + arrived && last == (pointer + TotalSize(taken)) % 0x1_0000
  }

  /**
   Whatever arrives between the calls, nothing is lost, repeated or reordered, and only
   frames that fit are taken.
   */
  lemma {:induction false} RunIsFifo(queue: seq<seq<byte>>, pointer: u16, buflen: nat, events: seq<Event>)
    ensures var (taken, rest, last) := Run(queue, pointer, buflen, events);
            && Conserves(queue, pointer, Arrivals(events), taken, rest, last)
            && forall f :: f in taken ==> |f| <= buflen
    decreases |events|
  {
    if events != [] {
      var others := events[1..];
      match events[0] {
        case Arrival(frame) =>
          RunIsFifo(queue + [frame], pointer, buflen, others);
          assert queue + [frame] + Arrivals(others) == queue + ([frame] + Arrivals(others));
        case Call =>
          var d := Step(queue, pointer, buflen);
          var (taken, rest, last) := Run(d.queue, d.pointer, buflen, others);
          RunIsFifo(d.queue, d.pointer, buflen, others);
          assert [] + Arrivals(others) == Arrivals(others);
          if |d.queue| != |queue| {
            TakenIsFirst(queue, pointer, Arrivals(others), taken, rest, last);
          }
      }
    }
  }

  lemma TakenIsFirst(queue: seq<seq<byte>>, pointer: u16, arrived: seq<seq<byte>>,
                                        taken: seq<seq<byte>>, rest: seq<seq<byte>>, last: u16)
    requires queue != []
    requires Conserves(queue[1..], (pointer + |queue[0]| + 2) % 0x1_0000, arrived, taken, rest, last)
    ensures Conserves(queue, pointer, arrived, [queue[0]] + taken, rest, last)
  {
    assert [queue[0]] + taken + rest == [queue[0]] + (queue[1..] + arrived) == queue + arrived;
    assert ([queue[0]] + taken)[1..] == taken;
    WrapAdd(pointer + |queue[0]| + 2, TotalSize(taken));
  }
}
