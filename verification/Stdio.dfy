/**
Output buffering: the chunk writer of the C library, the byte-by-byte writer of fprintf, and fflush
(section 7.21.3 of ISO C11).
*/
module Stdio {
  import opened Machine
  import opened Arith

  const NEWLINE: Byte := 0x0A

  datatype Mode = Unbuffered | LineBuffered | FullyBuffered

  // ----- the writers as functions

  /** Bytes handed to the device and bytes still in the buffer. */
  datatype Output = Output(sent: seq<Byte>, pending: seq<Byte>) {
    /** Everything written so far, in order. */
    function Total(): seq<Byte> { sent + pending }

    function Flushed(): Output { Output(sent + pending, []) }
  }

  /** Fill the buffer chunk by chunk; flush when it is full, or per chunk while a newline is ahead. */
  function WriteChunks(o: Output, data: seq<Byte>, size: nat, line: bool): Output
    requires size > 0 && |o.pending| <= size
    decreases |data|, |o.pending|
  {
    if data == [] then o
    else
      var n := Least(|data|, size - |o.pending|);
      var filled := Output(o.sent, o.pending + data[..n]);
      WriteChunks(if |filled.pending| == size || (line && NEWLINE in data) then filled.Flushed() else filled, data[n..],
          size, line)
  }

  /** Store one byte: make room first, and flush a line that ends with it. */
  function WriteByte(o: Output, c: Byte, size: nat, line: bool): Output
    requires size > 0
  {
    var room := if |o.pending| >= size then o.Flushed() else o;
    var stored := Output(room.sent, room.pending + [c]);
    if c == NEWLINE && line then stored.Flushed() else stored
  }

  function WriteBytes(o: Output, data: seq<Byte>, size: nat, line: bool): Output
    requires size > 0
  {
    if data == [] then o
    else WriteByte(WriteBytes(o, data[..|data| - 1], size, line), data[|data| - 1], size, line)
  }

  // ----- what both keep

  /** The state after one round of the chunk loop. */
  function OneChunk(o: Output, data: seq<Byte>, size: nat, line: bool): (r: Output)
    requires size > 0 && |o.pending| <= size && data != []
    ensures |r.pending| < size
  {
    var filled := Output(o.sent, o.pending + data[..ChunkSize(o, data, size)]);
    if |filled.pending| == size || (line && NEWLINE in data) then filled.Flushed() else filled
  }

  function ChunkSize(o: Output, data: seq<Byte>, size: nat): (n: nat)
    requires |o.pending| <= size
    ensures n <= |data| && |o.pending| + n <= size
  {
    Least(|data|, size - |o.pending|)
  }

  lemma ChunkStep(o: Output, data: seq<Byte>, size: nat, line: bool)
    requires size > 0 && |o.pending| <= size && data != []
    ensures WriteChunks(o, data, size, line) ==
      WriteChunks(OneChunk(o, data, size, line), data[ChunkSize(o, data, size)..], size, line)
    ensures OneChunk(o, data, size, line).Total() == o.Total() + data[..ChunkSize(o, data, size)]
  {
    var part := data[..ChunkSize(o, data, size)];
    assert o.sent + (o.pending + part) == o.Total() + part;
    assert o.sent + (o.pending + part) + [] == o.Total() + part;
  }

  lemma {:induction false} ChunksConserve(o: Output, data: seq<Byte>, size: nat, line: bool)
    requires size > 0 && |o.pending| <= size
    ensures WriteChunks(o, data, size, line).Total() == o.Total() + data
    ensures |o.pending| < size || data != [] ==> |WriteChunks(o, data, size, line).pending| < size
    decreases |data|, |o.pending|
  {
    if data == [] {
      assert o.Total() + [] == o.Total();
    } else {
      hide WriteChunks, OneChunk, ChunkSize, Output.Total;
      var n := ChunkSize(o, data, size);
      var next := OneChunk(o, data, size, line);
      ChunkStep(o, data, size, line);
      ChunkAdvances(o, data, size);
      ChunksConserve(next, data[n..], size, line);
      Resplit(o.Total(), data, n);
    }
  }

  lemma Resplit(front: seq<Byte>, data: seq<Byte>, n: nat)
    requires n <= |data|
    ensures front + data[..n] + data[n..] == front + data
  {
  }

  lemma ChunkAdvances(o: Output, data: seq<Byte>, size: nat)
    requires |o.pending| <= size
    ensures ChunkSize(o, data, size) == 0 ==> data == [] || |o.pending| == size
  {
  }

  lemma {:induction false} BytesConserve(o: Output, data: seq<Byte>, size: nat, line: bool)
    requires size > 0 && |o.pending| <= size
    ensures WriteBytes(o, data, size, line).Total() == o.Total() + data
    ensures |WriteBytes(o, data, size, line).pending| <= size
  {
    if data == [] {
      assert o.Total() + [] == o.Total();
    } else {
      var front := data[..|data| - 1];
      BytesConserve(o, front, size, line);
      ByteConserves(WriteBytes(o, front, size, line), data[|data| - 1], size, line);
      assert data == front + [data[|data| - 1]];
      assert o.Total() + front + [data[|data| - 1]] == o.Total() + data;
    }
  }

  lemma ByteConserves(o: Output, c: Byte, size: nat, line: bool)
    requires size > 0
    ensures WriteByte(o, c, size, line).Total() == o.Total() + [c]
  {
    var room := if |o.pending| >= size then o.Flushed() else o;
    assert room.Total() == o.Total();
    assert room.sent + (room.pending + [c]) == room.Total() + [c];
  }

  /** A line-buffered stream never keeps a newline between calls. */
  lemma {:induction false} ChunksHoldNoNewline(o: Output, data: seq<Byte>, size: nat)
    requires size > 0 && |o.pending| <= size && NEWLINE !in o.pending
    ensures NEWLINE !in WriteChunks(o, data, size, true).pending
    decreases |data|, |o.pending|
  {
    if data != [] {
      var n := Least(|data|, size - |o.pending|);
      var filled := Output(o.sent, o.pending + data[..n]);
      var next := if |filled.pending| == size || NEWLINE in data then filled.Flushed() else filled;
      ChunksHoldNoNewline(next, data[n..], size);
    }
  }

  lemma {:induction false} BytesHoldNoNewline(o: Output, data: seq<Byte>, size: nat)
    requires size > 0 && NEWLINE !in o.pending
    ensures NEWLINE !in WriteBytes(o, data, size, true).pending
  {
    if data != [] {
      BytesHoldNoNewline(o, data[..|data| - 1], size);
    }
  }

  /** Fully buffered, only whole buffers are sent: what is pending is the remainder of the total. */
  lemma {:induction false} ChunksSendWholeBuffers(o: Output, data: seq<Byte>, size: nat)
    requires size > 0 && |o.pending| < size
    ensures |WriteChunks(o, data, size, false).pending| == (|o.pending| + |data|) % size
    decreases |data|
  {
    if data == [] {
      Remainder(0, |o.pending|, size);
    } else {
      var n := Least(|data|, size - |o.pending|);
      var filled := Output(o.sent, o.pending + data[..n]);
      if |filled.pending| == size {
        ChunksSendWholeBuffers(filled.Flushed(), data[n..], size);
        PlusSize(|data| - n, size);
      } else {
        assert data[n..] == [];
        Remainder(0, |o.pending| + |data|, size);
      }
    }
  }

  /** The byte writer makes room only when a byte comes: at least one byte stays, and whole buffers are sent. */
  lemma {:induction false} BytesSendWholeBuffers(o: Output, data: seq<Byte>, size: nat)
    requires size > 0 && |o.pending| <= size
    ensures var n := |o.pending| + |data|;
      |WriteBytes(o, data, size, false).pending| == if n == 0 then 0 else (n - 1) % size + 1
  {
    var n := |o.pending| + |data|;
    if data != [] {
      BytesSendWholeBuffers(o, data[..|data| - 1], size);
      if n > 1 {
        NextRemainder(n - 2, size);
      } else {
        SmallRemainder(0, size);
      }
    } else if n > 0 {
      SmallRemainder(n - 1, size);
    }
  }

  lemma SmallRemainder(r: nat, size: nat)
    requires r < size
    ensures r % size == r
  {
    DivisionUnique(r, size, 0, r);
  }

  lemma NextRemainder(n: nat, size: nat)
    requires size > 0
    ensures (n + 1) % size == if n % size + 1 == size then 0 else n % size + 1
  {
    var q, r := n / size, n % size;
    assert n == size * q + r;
    if r + 1 == size {
      assert n + 1 == size * (q + 1);
      MultipleRemainder(size, q + 1);
    } else {
      DivisionUnique(n + 1, size, q, r + 1);
    }
  }

  // ----- when nothing is sent

  /** Data that leaves room in the buffer, on a line-buffered stream without a newline in it, stays there. */
  lemma ChunksStay(o: Output, data: seq<Byte>, size: nat, line: bool)
    requires |o.pending| + |data| < size && (line ==> NEWLINE !in data)
    ensures WriteChunks(o, data, size, line) == Output(o.sent, o.pending + data)
  {
    assert o.pending + [] == o.pending;
    assert data[..|data|] == data && data[|data|..] == [];
  }

  /** Data with a newline that fits is sent with all that was pending, also what follows its last newline. */
  lemma ChunksWithLine(o: Output, data: seq<Byte>, size: nat)
    requires size > 0 && |o.pending| + |data| <= size && NEWLINE in data
    ensures WriteChunks(o, data, size, true) == Output(o.sent + o.pending + data, [])
  {
    assert data[..|data|] == data && data[|data|..] == [];
    assert o.sent + (o.pending + data) == o.sent + o.pending + data;
  }

  /** The byte writer keeps data that fits, on a line-buffered stream when it holds no newline. */
  lemma {:induction false} BytesStay(o: Output, data: seq<Byte>, size: nat, line: bool)
    requires size > 0 && |o.pending| + |data| <= size && (line ==> NEWLINE !in data)
    ensures WriteBytes(o, data, size, line) == Output(o.sent, o.pending + data)
  {
    if data == [] {
      assert o.pending + [] == o.pending;
    } else {
      var front, c := data[..|data| - 1], data[|data| - 1];
      assert data == front + [c] && c in data && forall b :: b in front ==> b in data;
      BytesStay(o, front, size, line);
      assert o.pending + front + [c] == o.pending + data;
    }
  }

  /** It sends everything up to the last newline and keeps what follows. */
  lemma BytesAfterLine(o: Output, front: seq<Byte>, rest: seq<Byte>, size: nat)
    requires size > 0 && |o.pending| <= size && |rest| <= size && NEWLINE !in rest
    ensures WriteBytes(o, front + [NEWLINE] + rest, size, true) == Output(o.Total() + front + [NEWLINE], rest)
  {
    var line := front + [NEWLINE];
    BytesJoin(o, line, rest, size, true);
    BytesConserve(o, line, size, true);
    var r := WriteBytes(o, line, size, true);
    assert line[..|front|] == front;
    assert r == WriteByte(WriteBytes(o, front, size, true), NEWLINE, size, true);
    assert r.pending == [];
    assert r.sent + [] == r.sent;
    assert o.Total() + line == o.Total() + front + [NEWLINE];
    BytesStay(r, rest, size, true);
    assert [] + rest == rest;
  }

  lemma {:induction false} BytesJoin(o: Output, a: seq<Byte>, b: seq<Byte>, size: nat, line: bool)
    requires size > 0
    ensures WriteBytes(o, a + b, size, line) == WriteBytes(WriteBytes(o, a, size, line), b, size, line)
  {
    if b == [] {
      assert a + [] == a;
    } else {
      var front := b[..|b| - 1];
      BytesJoin(o, a, front, size, line);
      assert (a + b)[..|a + b| - 1] == a + front;
    }
  }

  lemma Remainder(q: nat, r: nat, size: nat)
    requires r < size
    ensures (q * size + r) % size == r
  {
    if q > 0 {
      Remainder(q - 1, r, size);
      PlusSize((q - 1) * size + r, size);
      assert q * size + r == (q - 1) * size + r + size;
    }
  }

  // ----- whole runs

  datatype Op = Write(data: seq<Byte>) | Flush

  function Step(o: Output, op: Op, size: nat, line: bool, bytewise: bool): (r: Output)
    requires size > 0 && |o.pending| <= size
    ensures |r.pending| <= size
  {
    match op
    case Flush => o.Flushed()
    case Write(data) =>
      if bytewise then BytesConserve(o, data, size, line); WriteBytes(o, data, size, line)
      else ChunksConserve(o, data, size, line); WriteChunks(o, data, size, line)
  }

  function Run(o: Output, ops: seq<Op>, size: nat, line: bool, bytewise: bool): (r: Output)
    requires size > 0 && |o.pending| <= size
    ensures |r.pending| <= size
  {
    if ops == [] then o
    else Step(Run(o, ops[..|ops| - 1], size, line, bytewise), ops[|ops| - 1], size, line, bytewise)
  }

  function Written(ops: seq<Op>): seq<Byte> {
    if ops == [] then []
    else Written(ops[..|ops| - 1]) + match ops[|ops| - 1] { case Write(data) => data case Flush => [] }
  }

  /** Over every run of writes and flushes, sent and pending bytes are everything written, in order. */
  lemma {:induction false} RunConserves(ops: seq<Op>, size: nat, line: bool, bytewise: bool)
    requires size > 0
    ensures Run(Output([], []), ops, size, line, bytewise).Total() == Written(ops)
  {
    if ops != [] {
      var front, last := ops[..|ops| - 1], ops[|ops| - 1];
      RunConserves(front, size, line, bytewise);
      var o := Run(Output([], []), front, size, line, bytewise);
      match last
      case Flush =>
        assert o.Flushed().Total() == o.Total();
        assert Written(front) + [] == Written(front);
      case Write(data) =>
        ChunksConserve(o, data, size, line);
        BytesConserve(o, data, size, line);
    }
  }

  /** With any buffer sizes and modes the two writers have sent the same bytes once both are flushed. */
  lemma WritersAgree(ops: seq<Op>, size: nat, line: bool, size': nat, line': bool)
    requires size > 0 && size' > 0
    ensures Run(Output([], []), ops + [Flush], size, line, false) ==
      Run(Output([], []), ops + [Flush], size', line', true)
    ensures Run(Output([], []), ops + [Flush], size, line, false) == Output(Written(ops), [])
  {
    RunConserves(ops, size, line, false);
    RunConserves(ops, size', line', true);
    assert (ops + [Flush])[..|ops|] == ops;
  }

  // ----- devices that accept less, or fail

  /** How many bytes call number k to the device accepts; negative when it fails. */
  type Device = nat -> int

  /** One hand-over of the buffer: the number of the call and how many bytes were offered. */
  datatype Offer = Offer(call: nat, size: nat)

  /** A buffered stream on a device: what the device got, what is pending, and all bytes taken into the buffer. */
  datatype Sink =
    Sink(sent: seq<Byte>, pending: seq<Byte>, taken: seq<Byte>, calls: nat, drains: seq<Offer>, error: bool)
  {
    function Out(): Output { Output(sent, pending) }
  }

  const EMPTY := Sink([], [], [], 0, [], false)

  datatype Outcome = Outcome(sink: Sink, ok: bool)

  /** Hand over the whole buffer and forget it, however much was accepted. */
  function Drained(dev: Device, s: Sink): Outcome {
    var a := dev(s.calls);
    var next := s.(calls := s.calls + 1, drains := s.drains + [Offer(s.calls, |s.pending|)]);
    if a < 0 then Outcome(next.(error := true), false)
    else Outcome(next.(sent := s.sent + s.pending[..Least(a, |s.pending|)], pending := []), true)
  }

  function FlushTo(dev: Device, s: Sink): Outcome {
    if s.pending == [] then Outcome(s, true) else Drained(dev, s)
  }

  function Stored(s: Sink, data: seq<Byte>): Sink {
    s.(pending := s.pending + data, taken := s.taken + data)
  }

  /** One round of the chunk loop. */
  function ChunkTo(dev: Device, s: Sink, data: seq<Byte>, size: nat, line: bool): (r: Outcome)
    requires size > 0 && |s.pending| <= size && data != []
    ensures |r.sink.pending| <= size && (r.ok ==> |r.sink.pending| < size)
  {
    var filled := Stored(s, data[..Least(|data|, size - |s.pending|)]);
    if |filled.pending| == size || (line && NEWLINE in data) then FlushTo(dev, filled) else Outcome(filled, true)
  }

  function ChunksTo(dev: Device, s: Sink, data: seq<Byte>, size: nat, line: bool): (r: Outcome)
    requires size > 0 && |s.pending| <= size
    ensures |r.sink.pending| <= size
    decreases |data|, |s.pending|
  {
    if data == [] then Outcome(s, true)
    else
      var r := ChunkTo(dev, s, data, size, line);
      if r.ok then ChunksTo(dev, r.sink, data[Least(|data|, size - |s.pending|)..], size, line) else r
  }

  function ByteTo(dev: Device, s: Sink, c: Byte, size: nat, line: bool): (r: Outcome)
    requires size > 0 && |s.pending| <= size
    ensures |r.sink.pending| <= size
  {
    var room := if |s.pending| >= size then Drained(dev, s) else Outcome(s, true);
    if !room.ok then room
    else
      var stored := Stored(room.sink, [c]);
      if c == NEWLINE && line then Drained(dev, stored) else Outcome(stored, true)
  }

  function BytesTo(dev: Device, s: Sink, data: seq<Byte>, size: nat, line: bool): (r: Outcome)
    requires size > 0 && |s.pending| <= size
    ensures |r.sink.pending| <= size
  {
    if data == [] then Outcome(s, true)
    else
      var b := BytesTo(dev, s, data[..|data| - 1], size, line);
      if b.ok then ByteTo(dev, b.sink, data[|data| - 1], size, line) else b
  }

  // ----- what is lost

  /** The bytes that an offer loses: those a short write leaves over. */
  function LostIn(dev: Device, d: Offer): nat {
    if 0 <= dev(d.call) < d.size then d.size - dev(d.call) else 0
  }

  function Lost(dev: Device, drains: seq<Offer>): nat {
    if drains == [] then 0 else Lost(dev, drains[..|drains| - 1]) + LostIn(dev, drains[|drains| - 1])
  }

  /** Every offer failed as a whole or was accepted as a whole. */
  ghost predicate NoShortWrite(dev: Device, drains: seq<Offer>) {
    forall k :: 0 <= k < |drains| ==> dev(drains[k].call) < 0 || dev(drains[k].call) >= drains[k].size
  }

  lemma {:induction false} LostNothingIff(dev: Device, drains: seq<Offer>)
    ensures Lost(dev, drains) == 0 <==> NoShortWrite(dev, drains)
  {
    if drains != [] {
      LostNothingIff(dev, drains[..|drains| - 1]);
    }
  }

  /** Every byte taken was sent, is pending or was lost; as long as nothing was lost, all of them are there in order. */
  ghost predicate Accounted(dev: Device, s: Sink) {
    && |s.sent| + Lost(dev, s.drains) + |s.pending| == |s.taken|
    && (Lost(dev, s.drains) == 0 ==> s.sent + s.pending == s.taken)
  }

  lemma LostGrows(dev: Device, drains: seq<Offer>, d: Offer)
    ensures Lost(dev, drains + [d]) == Lost(dev, drains) + LostIn(dev, d)
  {
    assert (drains + [d])[..|drains|] == drains;
  }

  lemma DrainedAccounted(dev: Device, s: Sink)
    requires Accounted(dev, s)
    ensures Accounted(dev, Drained(dev, s).sink)
  {
    LostGrows(dev, s.drains, Offer(s.calls, |s.pending|));
    var a := dev(s.calls);
    if a >= |s.pending| {
      assert s.pending[..|s.pending|] == s.pending;
      assert s.sent + s.pending + [] == s.sent + s.pending;
    }
  }

  lemma StoredAccounted(dev: Device, s: Sink, data: seq<Byte>)
    requires Accounted(dev, s)
    ensures Accounted(dev, Stored(s, data))
  {
    assert s.sent + (s.pending + data) == s.sent + s.pending + data;
  }

  lemma ChunkAccounted(dev: Device, s: Sink, data: seq<Byte>, size: nat, line: bool)
    requires size > 0 && |s.pending| <= size && data != [] && Accounted(dev, s)
    ensures var r := ChunkTo(dev, s, data, size, line);
      && Accounted(dev, r.sink) && (r.ok ==> r.sink.error == s.error) && (!r.ok ==> r.sink.error)
      && r.sink.taken == s.taken + data[..Least(|data|, size - |s.pending|)]
  {
    hide Accounted;
    var filled := Stored(s, data[..Least(|data|, size - |s.pending|)]);
    StoredAccounted(dev, s, data[..Least(|data|, size - |s.pending|)]);
    DrainedAccounted(dev, filled);
  }

  /** The chunk writer keeps the account; it takes all the data unless the device fails. */
  lemma {:induction false} ChunksAccounted(dev: Device, s: Sink, data: seq<Byte>, size: nat, line: bool)
    requires size > 0 && |s.pending| <= size && Accounted(dev, s)
    ensures var r := ChunksTo(dev, s, data, size, line);
      && Accounted(dev, r.sink) && (r.ok ==> r.sink.error == s.error) && (!r.ok ==> r.sink.error)
      && (r.ok ==> r.sink.taken == s.taken + data)
    decreases |data|, |s.pending|
  {
    hide Accounted, ChunkTo;
    if data == [] {
      assert s.taken + [] == s.taken;
    } else {
      var n := Least(|data|, size - |s.pending|);
      ChunkAccounted(dev, s, data, size, line);
      var r := ChunkTo(dev, s, data, size, line);
      if r.ok {
        ChunksAccounted(dev, r.sink, data[n..], size, line);
        assert s.taken + data[..n] + data[n..] == s.taken + data;
      }
    }
  }

  lemma ByteAccounted(dev: Device, s: Sink, c: Byte, size: nat, line: bool)
    requires size > 0 && |s.pending| <= size && Accounted(dev, s)
    ensures var r := ByteTo(dev, s, c, size, line);
      && Accounted(dev, r.sink) && (r.ok ==> r.sink.error == s.error) && (!r.ok ==> r.sink.error)
      && (r.ok ==> r.sink.taken == s.taken + [c])
  {
    hide Accounted;
    DrainedAccounted(dev, s);
    var room := if |s.pending| >= size then Drained(dev, s) else Outcome(s, true);
    StoredAccounted(dev, room.sink, [c]);
    DrainedAccounted(dev, Stored(room.sink, [c]));
  }

  lemma {:induction false} BytesAccounted(dev: Device, s: Sink, data: seq<Byte>, size: nat, line: bool)
    requires size > 0 && |s.pending| <= size && Accounted(dev, s)
    ensures var r := BytesTo(dev, s, data, size, line);
      && Accounted(dev, r.sink) && (r.ok ==> r.sink.error == s.error) && (!r.ok ==> r.sink.error)
      && (r.ok ==> r.sink.taken == s.taken + data)
  {
    hide Accounted, ByteTo;
    if data == [] {
      assert s.taken + [] == s.taken;
    } else {
      var front, c := data[..|data| - 1], data[|data| - 1];
      BytesAccounted(dev, s, front, size, line);
      var b := BytesTo(dev, s, front, size, line);
      if b.ok {
        ByteAccounted(dev, b.sink, c, size, line);
        assert s.taken + front + [c] == s.taken + data by { assert front + [c] == data; }
      }
    }
  }

  function StepTo(dev: Device, s: Sink, op: Op, size: nat, line: bool, bytewise: bool): (r: Sink)
    requires size > 0 && |s.pending| <= size
    ensures |r.pending| <= size
  {
    match op
    case Flush => if s.error then s else FlushTo(dev, s).sink
    case Write(data) =>
      if bytewise then BytesTo(dev, s, data, size, line).sink
      else if s.error then s
      else ChunksTo(dev, s, data, size, line).sink
  }

  function RunTo(dev: Device, ops: seq<Op>, size: nat, line: bool, bytewise: bool): (r: Sink)
    requires size > 0
    ensures |r.pending| <= size
  {
    if ops == [] then EMPTY
    else StepTo(dev, RunTo(dev, ops[..|ops| - 1], size, line, bytewise), ops[|ops| - 1], size, line, bytewise)
  }

  lemma RunSnoc(dev: Device, ops: seq<Op>, op: Op, size: nat, line: bool, bytewise: bool)
    requires size > 0
    ensures RunTo(dev, ops + [op], size, line, bytewise)
      == StepTo(dev, RunTo(dev, ops, size, line, bytewise), op, size, line, bytewise)
  {
    assert (ops + [op])[..|ops|] == ops;
  }

  lemma {:induction false} RunAccounted(dev: Device, ops: seq<Op>, size: nat, line: bool, bytewise: bool)
    requires size > 0
    ensures var s := RunTo(dev, ops, size, line, bytewise);
      Accounted(dev, s) && (!s.error ==> s.taken == Written(ops))
  {
    if ops != [] {
      var s := RunTo(dev, ops[..|ops| - 1], size, line, bytewise);
      RunAccounted(dev, ops[..|ops| - 1], size, line, bytewise);
      hide Accounted, BytesTo, ChunksTo;
      match ops[|ops| - 1]
      case Flush =>
        DrainedAccounted(dev, s);
        assert s.taken + [] == s.taken;
      case Write(data) =>
        BytesAccounted(dev, s, data, size, line);
        ChunksAccounted(dev, s, data, size, line);
    }
  }

  /** On any device, over every run: what was taken is all sent or pending if and only if no write was short. */
  lemma NothingLostIff(dev: Device, ops: seq<Op>, size: nat, line: bool, bytewise: bool)
    requires size > 0
    ensures var s := RunTo(dev, ops, size, line, bytewise);
      s.Out().Total() == s.taken <==> NoShortWrite(dev, s.drains)
  {
    hide RunTo, Lost;
    var s := RunTo(dev, ops, size, line, bytewise);
    RunAccounted(dev, ops, size, line, bytewise);
    LostNothingIff(dev, s.drains);
  }

  /** A run without a failure ends, once flushed, with the device holding everything written exactly in that case. */
  lemma DeliveredIff(dev: Device, ops: seq<Op>, size: nat, line: bool, bytewise: bool)
    requires size > 0 && !RunTo(dev, ops + [Flush], size, line, bytewise).error
    ensures var s := RunTo(dev, ops + [Flush], size, line, bytewise);
      s.pending == [] && (s.sent == Written(ops) <==> NoShortWrite(dev, s.drains))
  {
    var all := ops + [Flush];
    assert all[..|ops|] == ops && Written(ops) + [] == Written(ops);
    var s := RunTo(dev, all, size, line, bytewise);
    RunSnoc(dev, ops, Flush, size, line, bytewise);
    hide RunTo, Lost;
    NothingLostIff(dev, all, size, line, bytewise);
    RunAccounted(dev, all, size, line, bytewise);
    assert s.sent + [] == s.sent;
  }

  /** A flush keeps the bytes of the stream if and only if the device fails or accepts them all. */
  lemma FlushKeepsIff(dev: Device, s: Sink)
    ensures FlushTo(dev, s).sink.Out().Total() == s.Out().Total() <==> dev(s.calls) < 0 || dev(s.calls) >= |s.pending|
  {
    var r := FlushTo(dev, s).sink;
    if dev(s.calls) >= |s.pending| {
      assert s.pending[..|s.pending|] == s.pending && s.sent + s.pending + [] == s.sent + s.pending;
    } else if dev(s.calls) >= 0 {
      assert |r.Out().Total()| < |s.Out().Total()|;
    }
  }

  /** Ten bytes, flushed to a device that takes three: seven are lost, and no error is reported. */
  lemma ShortWriteLoses(dev: Device, data: seq<Byte>)
    requires |data| == 10 && dev(0) == 3
    ensures var s := RunTo(dev, [Write(data), Flush], 16, false, false);
      !s.error && s.taken == data && s.sent == data[..3] && s.pending == []
  {
    assert [] + [Write(data)] == [Write(data)] && [Write(data)] + [Flush] == [Write(data), Flush];
    RunSnoc(dev, [], Write(data), 16, false, false);
    RunSnoc(dev, [Write(data)], Flush, 16, false, false);
    var one := RunTo(dev, [Write(data)], 16, false, false);
    assert one == StepTo(dev, EMPTY, Write(data), 16, false, false);
    assert data[..10] == data && data[10..] == [] && [] + data == data;
    assert ChunkTo(dev, EMPTY, data, 16, false) == Outcome(Stored(EMPTY, data), true);
    assert ChunksTo(dev, Stored(EMPTY, data), [], 16, false) == Outcome(Stored(EMPTY, data), true);
    assert one == Stored(EMPTY, data);
    assert [] + data[..3] == data[..3];
  }

  // ----- devices that accept everything

  ghost predicate Accepting(dev: Device, size: nat) {
    forall k: nat :: dev(k) >= size
  }

  /** On an accepting device the writers never fail, lose nothing, and are the writers above. */
  lemma {:induction false} AcceptedChunks(dev: Device, s: Sink, data: seq<Byte>, size: nat, line: bool)
    requires size > 0 && |s.pending| <= size && Accepting(dev, size)
    ensures var r := ChunksTo(dev, s, data, size, line);
      && r.ok && r.sink.Out() == WriteChunks(s.Out(), data, size, line)
      && Lost(dev, r.sink.drains) == Lost(dev, s.drains)
    decreases |data|, |s.pending|
  {
    if data != [] {
      hide Lost;
      var n := Least(|data|, size - |s.pending|);
      var r := ChunkTo(dev, s, data, size, line);
      AcceptedDrain(dev, Stored(s, data[..n]), size);
      ChunkStep(s.Out(), data, size, line);
      assert s.sent + (s.pending + data[..n])[..0] == s.sent;
      assert r.sink.Out() == OneChunk(s.Out(), data, size, line);
      hide WriteChunks, ChunkTo, OneChunk, Drained;
      AcceptedChunks(dev, r.sink, data[n..], size, line);
    }
  }

  lemma AcceptedDrain(dev: Device, s: Sink, size: nat)
    requires |s.pending| <= size && Accepting(dev, size)
    ensures var r := Drained(dev, s);
      r.ok && r.sink.Out() == s.Out().Flushed() && Lost(dev, r.sink.drains) == Lost(dev, s.drains)
  {
    LostGrows(dev, s.drains, Offer(s.calls, |s.pending|));
    assert s.pending[..|s.pending|] == s.pending;
  }

  lemma AcceptedByte(dev: Device, s: Sink, c: Byte, size: nat, line: bool)
    requires size > 0 && |s.pending| <= size && Accepting(dev, size)
    ensures var r := ByteTo(dev, s, c, size, line);
      && r.ok && r.sink.Out() == WriteByte(s.Out(), c, size, line)
      && Lost(dev, r.sink.drains) == Lost(dev, s.drains)
  {
    hide Drained, Lost;
    AcceptedDrain(dev, s, size);
    var room := if |s.pending| >= size then Drained(dev, s) else Outcome(s, true);
    AcceptedDrain(dev, Stored(room.sink, [c]), size);
  }

  lemma {:induction false} AcceptedBytes(dev: Device, s: Sink, data: seq<Byte>, size: nat, line: bool)
    requires size > 0 && |s.pending| <= size && Accepting(dev, size)
    ensures var r := BytesTo(dev, s, data, size, line);
      && r.ok && r.sink.Out() == WriteBytes(s.Out(), data, size, line)
      && Lost(dev, r.sink.drains) == Lost(dev, s.drains)
  {
    if data != [] {
      hide ByteTo, WriteByte, Lost;
      AcceptedBytes(dev, s, data[..|data| - 1], size, line);
      AcceptedByte(dev, BytesTo(dev, s, data[..|data| - 1], size, line).sink, data[|data| - 1], size, line);
    }
  }

  // ----- the streams

  class Stream {
    const fd: int
    const openMode: nat
    const mode: Mode
    const buffer: array<Byte>
    var bufPos: nat
    var error: bool

    /** The device, what it got, and how often it was called. */
    const accept: Device
    var calls: nat
    var sent: seq<Byte>

    /** Bytes taken into the buffer or written directly, and every time the buffer was handed over. */
    ghost var history: seq<Byte>
    ghost var drains: seq<Offer>

    ghost function State(): Sink
      reads this, buffer
      requires bufPos <= buffer.Length
    {
      Sink(sent, buffer[..bufPos], history, calls, drains, error)
    }

    ghost predicate Valid()
      reads this, buffer
    {
      && 0 < buffer.Length < 0x1_0000_0000 && bufPos <= buffer.Length
      && Accounted(accept, State())
    }

    /** Nothing taken in is lost exactly when no write to the device was short. */
    lemma NothingLostIff()
      requires Valid()
      ensures sent + buffer[..bufPos] == history <==> NoShortWrite(accept, drains)
    {
      hide Lost;
      LostNothingIff(accept, drains);
    }

    ghost function Now(): Output
      reads this, buffer
      requires bufPos <= buffer.Length
    {
      Output(sent, buffer[..bufPos])
    }

    /** The bytes that short writes lost. */
    ghost function Dropped(): nat
      reads this
    {
      Lost(accept, drains)
    }

    /** The device accepts whatever it is given. */
    ghost predicate Generous() {
      Accepting(accept, 0x1_0000_0000)
    }

    constructor (fd: int, openMode: nat, mode: Mode, size: nat, accept: Device)
      requires 0 < size < 0x1_0000_0000
      ensures Valid() && fresh(buffer) && buffer.Length == size && State() == EMPTY
      ensures this.fd == fd && this.openMode == openMode && this.mode == mode && this.accept == accept
    {
      this.fd, this.openMode, this.mode, this.accept := fd, openMode, mode, accept;
      buffer := new Byte[size](_ => 0);
      bufPos, error, calls, sent := 0, false, 0, [];
      history, drains := [], [];
    }

    /** The write system call. */
    method SysWrite(data: seq<Byte>) returns (n: int)
      modifies this`calls, this`sent
      ensures calls == old(calls) + 1
      ensures accept(old(calls)) < 0 ==> n == -1 && sent == old(sent)
      ensures accept(old(calls)) >= 0 ==> n == Least(accept(old(calls)), |data|) && sent == old(sent) + data[..n]
    {
      var a := accept(calls);
      calls := calls + 1;
      if a < 0 {
        return -1;
      }
      n := if a < |data| then a else |data|;
      sent := sent + data[..n];
    }

    /** Hand the whole buffer to the device and forget it, however much was accepted. */
    method Drain() returns (ok: bool)
      requires Valid()
      modifies this
      ensures Valid() && Outcome(State(), ok) == Drained(accept, old(State()))
    {
      hide Accounted;
      ghost var s := State();
      DrainedAccounted(accept, s);
      drains := drains + [Offer(calls, bufPos)];
      var n := SysWrite(buffer[..bufPos]);
      assert buffer[..bufPos] == s.pending;
      if n < 0 {
        error := true;
        return false;
      }
      bufPos := 0;
      ok := true;
    }

    method Fflush() returns (r: int)
      requires Valid()
      modifies this
      ensures Valid() && history == old(history)
      ensures old(error) ==> r == -1 && State() == old(State())
      ensures !old(error) && (fd < 0 || mode == Unbuffered) ==> r == 0 && State() == old(State())
      ensures !old(error) && fd >= 0 && mode != Unbuffered ==>
        Outcome(State(), r == 0) == FlushTo(accept, old(State())) && (r == 0 || r == -1)
      ensures !old(error) && fd >= 0 && mode != Unbuffered ==>
        (Now().Total() == old(Now()).Total() <==> accept(old(calls)) < 0 || accept(old(calls)) >= old(bufPos))
    {
      hide Accounted;
      if error {
        return -1;
      }
      if fd < 0 || mode == Unbuffered {
        return 0;
      }
      FlushKeepsIff(accept, State());
      if bufPos > 0 {
        var ok := Drain();
        if !ok {
          return -1;
        }
      }
      r := 0;
    }

    method CopyIn(data: seq<Byte>)
      requires Valid() && bufPos + |data| <= buffer.Length
      modifies this`bufPos, this`history, buffer
      ensures Valid() && State() == Stored(old(State()), data)
    {
      StoredAccounted(accept, State(), data);
      hide Accounted;
      var i := 0;
      while i < |data|
        invariant 0 <= i <= |data| && bufPos == old(bufPos) && history == old(history)
        invariant buffer[..bufPos + i] == old(buffer[..bufPos]) + data[..i]
      {
        buffer[bufPos + i] := data[i];
        i := i + 1;
        assert buffer[..bufPos + i] == buffer[..bufPos + i - 1] + [data[i - 1]];
      }
      assert data[..i] == data;
      bufPos := bufPos + |data|;
      history := history + data;
    }

    /** The C library's writer: unbuffered streams write through, others chunk by chunk. */
    method WriteBuffer(data: seq<Byte>) returns (r: int)
      requires Valid() && |data| < 0x8000_0000 && (mode == Unbuffered ==> bufPos == 0)
      modifies this, buffer
      ensures Valid() && (mode == Unbuffered ==> bufPos == 0)
      ensures old(error) || fd < 0 ==> r == -1 && State() == old(State())
      ensures !old(error) && fd >= 0 && mode != Unbuffered ==>
        var w := ChunksTo(accept, old(State()), data, buffer.Length, mode == LineBuffered);
        State() == w.sink && r == (if w.ok then |data| else -1)
      ensures !old(error) && fd >= 0 && mode == Unbuffered ==> WrittenThrough(old(State()), data, r)
      ensures !old(error) && fd >= 0 ==>
        (r == -1 && error) || (r >= 0 && !error && r <= |data| && history == old(history) + data[..r])
      ensures Generous() && !old(error) && fd >= 0 ==> r == |data| && Dropped() == old(Dropped())
      ensures Generous() && !old(error) && fd >= 0 && mode != Unbuffered ==>
        Now() == WriteChunks(old(Now()), data, buffer.Length, mode == LineBuffered)
      ensures Generous() && !old(error) && fd >= 0 && mode == Unbuffered ==> sent == old(sent) + data
    {
      hide Accounted, ChunksTo, WriteChunks, Lost;
      assert data[..|data|] == data;
      if error || fd < 0 {
        return -1;
      }
      if mode == Unbuffered {
        r := WriteThrough(data);
        return;
      }
      ChunksAccounted(accept, State(), data, buffer.Length, mode == LineBuffered);
      if Generous() {
        AcceptedChunks(accept, State(), data, buffer.Length, mode == LineBuffered);
      }
      r := WriteInChunks(data);
    }

    /** One system call got the data, and r tells how much of it arrived. */
    ghost predicate WrittenThrough(was: Sink, data: seq<Byte>, r: int)
      reads this, buffer
      requires bufPos <= buffer.Length
    {
      var a := accept(was.calls);
      var called := was.(calls := was.calls + 1);
      if a < 0 then r == -1 && State() == called.(error := true)
      else r == Least(a, |data|) && State() == called.(sent := was.sent + data[..r], taken := was.taken + data[..r])
    }

    method WriteThrough(data: seq<Byte>) returns (r: int)
      requires Valid() && !error && bufPos == 0 && |data| < 0x8000_0000
      modifies this
      ensures Valid() && bufPos == 0 && drains == old(drains)
      ensures WrittenThrough(old(State()), data, r)
    {
      assert buffer[..0] == [];
      r := SysWrite(data);
      if r < 0 {
        error := true;
        return -1;
      }
      history := history + data[..r];
      assert sent + [] == sent && old(sent) + [] == old(sent);
    }

    /** The buffered loop. */
    method WriteInChunks(data: seq<Byte>) returns (r: int)
      requires Valid() && !error && fd >= 0 && mode != Unbuffered && |data| < 0x8000_0000
      modifies this, buffer
      ensures Valid()
      ensures var w := ChunksTo(accept, old(State()), data, buffer.Length, mode == LineBuffered);
        State() == w.sink && r == if w.ok then |data| else -1
    {
      hide Accounted, ChunkTo;
      ghost var start, size, line := State(), buffer.Length, mode == LineBuffered;
      var rest := data;
      r := 0;
      while |rest| > 0
        invariant Valid() && !error
        invariant 0 <= r <= |data| && rest == data[r..]
        invariant ChunksTo(accept, start, data, size, line) == ChunksTo(accept, State(), rest, size, line)
        decreases |rest|, bufPos
      {
        ghost var before := State();
        var n, ok := Round(rest);
        assert Outcome(State(), ok) == ChunkTo(accept, before, rest, size, line);
        if !ok {
          return -1;
        }
        rest := rest[n..];
        r := r + n;
      }
    }

    /** One round: copy what fits and flush if the buffer is full or a newline is still to be written. */
    method Round(rest: seq<Byte>) returns (n: nat, ok: bool)
      requires Valid() && !error && fd >= 0 && mode != Unbuffered && |rest| > 0
      modifies this, buffer
      ensures Valid() && n == Least(|rest|, buffer.Length - old(bufPos))
      ensures Outcome(State(), ok) == ChunkTo(accept, old(State()), rest, buffer.Length, mode == LineBuffered)
      ensures ok ==> !error && (n == 0 ==> bufPos < old(bufPos))
    {
      hide Accounted;
      var newline := false;
      if mode == LineBuffered {
        newline := HasNewline(rest);
      }
      var space := buffer.Length - bufPos;
      n := if |rest| < space then |rest| else space;
      CopyIn(rest[..n]);
      if bufPos == buffer.Length || newline {
        var f := Fflush();
        if f < 0 {
          return n, false;
        }
      }
      ok := true;
    }

    method HasNewline(data: seq<Byte>) returns (found: bool)
      ensures found <==> NEWLINE in data
    {
      var i := 0;
      while i < |data|
        invariant 0 <= i <= |data| && NEWLINE !in data[..i]
      {
        if data[i] == NEWLINE {
          return true;
        }
        i := i + 1;
      }
      found := false;
    }

    /** The writer inside fprintf; `isStdout` is whether the stream is stdout. */
    method WriteBufferBytewise(data: seq<Byte>, isStdout: bool) returns (r: int)
      requires Valid()
      modifies this, buffer
      ensures Valid()
      ensures openMode % 4 == 0 ==> r == -1 && State() == old(State())
      ensures openMode % 4 != 0 ==>
        var w := BytesTo(accept, old(State()), data, buffer.Length, isStdout);
        State() == w.sink && r == (if w.ok then |data| else -1)
      ensures openMode % 4 != 0 ==>
        (r == -1 && error) || (r == |data| && error == old(error) && history == old(history) + data)
      ensures Generous() && openMode % 4 != 0 ==>
        && r == |data| && Dropped() == old(Dropped())
        && Now() == WriteBytes(old(Now()), data, buffer.Length, isStdout)
    {
      if openMode % 4 == 0 {
        return -1;
      }
      hide Accounted, ByteTo, Lost, WriteBytes;
      ghost var start, size := State(), buffer.Length;
      BytesAccounted(accept, start, data, size, isStdout);
      if Generous() {
        AcceptedBytes(accept, start, data, size, isStdout);
      }
      r := WriteInBytes(data, isStdout);
      assert data[..|data|] == data;
    }

    /** The byte loop. */
    method WriteInBytes(data: seq<Byte>, isStdout: bool) returns (r: int)
      requires Valid()
      modifies this, buffer
      ensures Valid()
      ensures var w := BytesTo(accept, old(State()), data, buffer.Length, isStdout);
        State() == w.sink && r == if w.ok then |data| else -1
    {
      hide Accounted, ByteTo;
      ghost var start, size := State(), buffer.Length;
      var i := 0;
      assert data[..0] == [];
      while i < |data|
        invariant 0 <= i <= |data| && Valid()
        invariant Outcome(State(), true) == BytesTo(accept, start, data[..i], size, isStdout)
      {
        var ok := PutByte(data[i], isStdout);
        BytesStep(accept, start, data, i, size, isStdout);
        if !ok {
          BytesStop(accept, start, data, i + 1, size, isStdout);
          return -1;
        }
        i := i + 1;
      }
      assert data[..i] == data;
      r := |data|;
    }

    method PutByte(c: Byte, isStdout: bool) returns (ok: bool)
      requires Valid()
      modifies this, buffer
      ensures Valid() && Outcome(State(), ok) == ByteTo(accept, old(State()), c, buffer.Length, isStdout)
    {
      hide Accounted;
      if bufPos >= buffer.Length {
        ok := Drain();
        if !ok {
          return false;
        }
      }
      CopyIn([c]);
      if c == NEWLINE && isStdout {
        ok := Drain();
        if !ok {
          return false;
        }
      }
      ok := true;
    }
  }

  lemma BytesStep(dev: Device, s: Sink, data: seq<Byte>, i: nat, size: nat, line: bool)
    requires size > 0 && |s.pending| <= size && i < |data| && BytesTo(dev, s, data[..i], size, line).ok
    ensures BytesTo(dev, s, data[..i + 1], size, line)
      == ByteTo(dev, BytesTo(dev, s, data[..i], size, line).sink, data[i], size, line)
  {
    assert data[..i + 1][..i] == data[..i];
  }

  /** After a failure the byte loop stops. */
  lemma {:induction false} BytesStop(dev: Device, s: Sink, data: seq<Byte>, i: nat, size: nat, line: bool)
    requires size > 0 && |s.pending| <= size && i <= |data| && !BytesTo(dev, s, data[..i], size, line).ok
    ensures BytesTo(dev, s, data, size, line) == BytesTo(dev, s, data[..i], size, line)
  {
    if i < |data| {
      var front := data[..|data| - 1];
      assert front[..i] == data[..i];
      BytesStop(dev, s, front, i, size, line);
    } else {
      assert data[..i] == data;
    }
  }
}
