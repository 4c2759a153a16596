/** Fragmentation and reassembly of GLINK messages (q8b/kernel/bsp/npu_pas.c). */
module GlinkMessage {
  import opened Bytes
  import opened Options
  import opened GlinkRing

  const CHUNK: nat := 8192
  const MESSAGE_MAX: nat := 16384
  const RX_MAX: nat := 65536
  const QRTR_RX_MAX: nat := 4096

  function ChunkLen(data: seq<byte>, off: nat): nat
    requires off <= |data|
  {
    if |data| - off > CHUNK then CHUNK else |data| - off
  }

  /** The frame glink_send_data emits for the chunk at off. */
  function ChunkFrame(cid: nat, iid: nat, data: seq<byte>, off: nat): seq<byte>
    requires off < |data|
  {
    var n := ChunkLen(data, off);
    Padded(DataHeader(if off == 0 then 9 else 12, cid, iid, n, |data| - off - n), data[off..off + n])
  }

  /** All frames of a message from off on. */
  function MessageBytes(cid: nat, iid: nat, data: seq<byte>, off: nat): seq<byte>
    requires off <= |data|
    decreases |data| - off
  {
    if off == |data| then []
    else ChunkFrame(cid, iid, data, off) + MessageBytes(cid, iid, data, off + ChunkLen(data, off))
  }

  datatype RxStep = Wait | Broken | Took(buf: seq<byte>, message: Option<seq<byte>>, used: nat)

  /** What glink_handle_rx_data does with the data frame at the front of u, with `buf` so far. */
  function RxData(buf: seq<byte>, u: seq<byte>, max: nat): RxStep {
    if |u| < 16 then Wait else
    var chunk, left := Le32(u, 8), Le32(u, 12);
    if |buf| + chunk > max || |u| < 16 + chunk then Broken else
    var whole := buf + u[16..16 + chunk];
    var used := (16 + chunk + 7) / 8 * 8;
    if left == 0 then Took([], Some(whole), used) else Took(whole, None, used)
  }

  /** The messages a receiver completes, in order, while data frames last. */
  function Received(buf: seq<byte>, u: seq<byte>, max: nat): seq<seq<byte>>
    decreases |u|
  {
    match RxData(buf, u, max)
    case Took(buf', message, used) =>
      if used > |u| then []
      else (if message.Some? then [message.value] else []) + Received(buf', u[used..], max)
    case _ => []
  }

  lemma DataHeaderFields(cmd: nat, cid: nat, iid: nat, size: nat, left: nat, rest: seq<byte>)
    requires cmd < 0x1_0000 && size < 0x1_0000_0000 && left < 0x1_0000_0000
    ensures var u := DataHeader(cmd, cid, iid, size, left) + rest;
            && Le16(u, 0) == cmd && Le16(u, 2) == cid % 0x1_0000
            && Le32(u, 8) == size && Le32(u, 12) == left && u[16..] == rest
  {
    var u := DataHeader(cmd, cid, iid, size, left) + rest;
    assert u[0..2] == Put16(cmd);
    assert u[2..4] == Put16(cid);
    assert u[8..12] == Put32(size);
    assert u[12..16] == Put32(left);
    Le16At(u, 0, cmd);
    Le16At(u, 2, cid);
    Le32At(u, 8, size);
    Le32At(u, 12, left);
  }

  lemma HeaderLength(cmd: nat, cid: nat, iid: nat, size: nat, left: nat)
    ensures |DataHeader(cmd, cid, iid, size, left)| == 16
  {
  }

  // One chunk: its bytes are appended, and it completes the message exactly when it is the last.
  lemma ChunkReceived(cid: nat, iid: nat, data: seq<byte>, off: nat, buf: seq<byte>, rest: seq<byte>, max: nat)
    requires off < |data| < 0x1_0000_0000 && |buf| + ChunkLen(data, off) <= max
    ensures var n := ChunkLen(data, off);
            var whole := buf + data[off..off + n];
            var frame := ChunkFrame(cid, iid, data, off);
            RxData(buf, frame + rest, max)
            == if off + n == |data| then Took([], Some(whole), |frame|) else Took(whole, None, |frame|)
  {
    hide Le32, Le16, ChunkFrame;
    var n := ChunkLen(data, off);
    ChunkFrameShape(cid, iid, data, off, rest);
    var u := ChunkFrame(cid, iid, data, off) + rest;
    assert RxData(buf, u, max).Took?;
  }

  lemma ChunkFrameShape(cid: nat, iid: nat, data: seq<byte>, off: nat, rest: seq<byte>)
    requires off < |data| < 0x1_0000_0000
    ensures var n := ChunkLen(data, off);
            var frame := ChunkFrame(cid, iid, data, off);
            var u := frame + rest;
            && |frame| == (16 + n + 7) / 8 * 8
            && Le16(u, 0) == (if off == 0 then 9 else 12) && Le16(u, 2) == cid % 0x1_0000
            && Le32(u, 8) == n && Le32(u, 12) == |data| - off - n && u[16..16 + n] == data[off..off + n]
  {
    hide Le32, Le16, DataHeader, Put16, Put32, ChunkFrame, Zeros, PadLen;
    var n := ChunkLen(data, off);
    var cmd, left := if off == 0 then 9 else 12, |data| - off - n;
    var body := data[off..off + n];
    var pad := Zeros(PadLen(16 + n));
    var header := DataHeader(cmd, cid, iid, n, left);
    HeaderLength(cmd, cid, iid, n, left);
    FrameParts(cid, iid, data, off);
    FourParts(header, body, pad, rest);
    DataHeaderFields(cmd, cid, iid, n, left, body + pad + rest);
  }

  lemma FrameParts(cid: nat, iid: nat, data: seq<byte>, off: nat)
    requires off < |data|
    ensures var n := ChunkLen(data, off);
            var header := DataHeader(if off == 0 then 9 else 12, cid, iid, n, |data| - off - n);
            && ChunkFrame(cid, iid, data, off) == header + data[off..off + n] + Zeros(PadLen(16 + n))
            && 16 + n + PadLen(16 + n) == (16 + n + 7) / 8 * 8
  {
    hide DataHeader;
    var n := ChunkLen(data, off);
    HeaderLength(if off == 0 then 9 else 12, cid, iid, n, |data| - off - n);
  }

  lemma FourParts(a: seq<byte>, b: seq<byte>, c: seq<byte>, d: seq<byte>)
    ensures a + b + c + d == a + (b + c + d) && (a + b + c + d)[|a|..|a| + |b|] == b
  {
  }

  /** Round trip: a receiver that starts empty rebuilds the message from the sender's frames, completes
      it with the last chunk and not before, and is ready for whatever follows. */
  lemma {:induction false} RoundTripFrom(cid: nat, iid: nat, data: seq<byte>, off: nat, rest: seq<byte>, max: nat)
    requires off < |data| <= max && |data| < 0x1_0000_0000
    ensures Received(data[..off], MessageBytes(cid, iid, data, off) + rest, max) == [data] + Received([], rest, max)
    decreases |data| - off
  {
    hide RxData, ChunkFrame;
    var n := ChunkLen(data, off);
    var frame := ChunkFrame(cid, iid, data, off);
    var tail := MessageBytes(cid, iid, data, off + n) + rest;
    var u := MessageBytes(cid, iid, data, off) + rest;
    assert u == frame + tail;
    assert data[..off] + data[off..off + n] == data[..off + n];
    ChunkReceived(cid, iid, data, off, data[..off], tail, max);
    assert u[|frame|..] == tail;
    if off + n == |data| {
      assert data[..off + n] == data;
      assert tail == rest;
    } else {
      RoundTripFrom(cid, iid, data, off + n, rest, max);
    }
  }

  lemma MessageRoundTrip(cid: nat, iid: nat, data: seq<byte>, rest: seq<byte>)
    requires 1 <= |data| <= MESSAGE_MAX
    ensures Received([], MessageBytes(cid, iid, data, 0) + rest, RX_MAX) == [data] + Received([], rest, RX_MAX)
  {
    assert data[..0] == [];
    RoundTripFrom(cid, iid, data, 0, rest, RX_MAX);
  }

  /** The chunk loop of glink_send_data.  The consumer may take drains(k) bytes before chunk k; a full
      ring stops the message after some chunks. */
  method SendChunks(ring: Ring, cid: nat, iid: nat, data: seq<byte>, drains: nat -> nat)
    returns (ok: bool, ghost off: nat)
    requires ring.Valid()
    modifies ring, ring.buf
    ensures ring.Valid() && off <= |data| && (ok <==> off == |data|)
    ensures ring.produced + MessageBytes(cid, iid, data, off) == old(ring.produced) + MessageBytes(cid, iid, data, 0)
  {
    hide MessageBytes, ChunkFrame, Ring.Valid;
    var pos := 0;
    var k := 0;
    while pos < |data|
      invariant pos <= |data| && ring.Valid()
      invariant ring.produced + MessageBytes(cid, iid, data, pos)
                == old(ring.produced) + MessageBytes(cid, iid, data, 0)
    {
      Drain(ring, drains(k));
      ghost var before := ring.produced;
      ok := SendChunk(ring, cid, iid, data, pos);
      if !ok {
        return false, pos;
      }
      FirstChunk(cid, iid, data, pos, before);
      pos, k := pos + ChunkLen(data, pos), k + 1;
    }
    return true, pos;
  }

  method SendChunk(ring: Ring, cid: nat, iid: nat, data: seq<byte>, pos: nat) returns (ok: bool)
    requires ring.Valid() && pos < |data|
    modifies ring, ring.buf
    ensures ring.Valid() && ring.taken == old(ring.taken)
    ensures ok <==> old(|ring.Unread()|) + |ChunkFrame(cid, iid, data, pos)| + FIFO_RESERVE <= ring.buf.Length
    ensures ring.produced == if ok then old(ring.produced) + ChunkFrame(cid, iid, data, pos) else old(ring.produced)
  {
    hide Padded, DataHeader, Ring.Valid;
    var n := ChunkLen(data, pos);
    ok := ring.TxDataFrame(if pos == 0 then 9 else 12, cid, iid, data[pos..pos + n], |data| - pos - n);
  }

  lemma FirstChunk(cid: nat, iid: nat, data: seq<byte>, off: nat, before: seq<byte>)
    requires off < |data|
    ensures before + MessageBytes(cid, iid, data, off)
            == before + ChunkFrame(cid, iid, data, off) + MessageBytes(cid, iid, data, off + ChunkLen(data, off))
  {
    hide ChunkFrame;
  }

  method Drain(ring: Ring, n: nat)
    requires ring.Valid()
    modifies ring
    ensures ring.Valid() && ring.produced == old(ring.produced)
  {
    ring.UsedIsUnread();
    if n <= ring.Used() {
      ring.Consume(n);
    }
  }

  /** The span a non-data frame occupies before rounding; None when the poll loop stops at it. */
  function FrameSpan(cmd: nat, p2: nat, avail: nat): Option<nat> {
    if cmd == 2 then
      var name := if p2 % 0x1_0000 >= 64 then 63 else p2 % 0x1_0000;
      if avail < 8 + name then None else Some(8 + (name + 7) / 8 * 8)
    else if cmd == 5 then
      if p2 > 32 || avail < 8 + p2 * 8 then None else Some(8 + p2 * 8)
    else Some(8)
  }

  // Rounding a span up to a word stays within a whole number of words.
  lemma SpanFits(cmd: nat, p2: nat, avail: nat)
    requires 8 <= avail && avail % 8 == 0
    ensures var span := FrameSpan(cmd, p2, avail);
            span.Some? ==> (span.value + 7) / 8 * 8 <= avail && (span.value + 7) / 8 * 8 % 8 == 0
  {
  }

  class Receiver {
    const ring: Ring
    const rx: array<byte>
    const qrtrRx: array<byte>
    const qrtrCid: nat
    var rxLen: nat
    var qrtrLen: nat

    /** The producer publishes in multiples of 8. */
    ghost predicate Valid()
      reads this, ring, ring.buf
    {
      && ring.Valid() && |ring.Unread()| % 8 == 0
      && rx.Length == RX_MAX && qrtrRx.Length == QRTR_RX_MAX
      && rx != qrtrRx && rx != ring.buf && qrtrRx != ring.buf
      && rxLen <= RX_MAX && qrtrLen <= QRTR_RX_MAX
    }

    constructor (fifo: Ring, remoteQrtr: nat)
      requires fifo.Valid() && |fifo.Unread()| % 8 == 0
      ensures Valid() && ring == fifo && qrtrCid == remoteQrtr && rxLen == qrtrLen == 0
    {
      ring, qrtrCid, rxLen, qrtrLen := fifo, remoteQrtr, 0, 0;
      rx := new byte[RX_MAX](_ => 0);
      qrtrRx := new byte[QRTR_RX_MAX](_ => 0);
    }

    predicate OnQrtr(cid: nat) { qrtrCid != 0 && cid == qrtrCid }

    ghost function Partial(cid: nat): seq<byte>
      requires Valid()
      reads this, ring, ring.buf, rx, qrtrRx
    {
      if OnQrtr(cid) then qrtrRx[..qrtrLen] else rx[..rxLen]
    }

    function Max(cid: nat): nat { if OnQrtr(cid) then QRTR_RX_MAX else RX_MAX }

    // Append a chunk to the channel's buffer; a finished message leaves it empty.
    method Append(cid: nat, chunk: seq<byte>, last: bool) returns (message: Option<seq<byte>>)
      requires Valid() && |Partial(cid)| + |chunk| <= Max(cid)
      modifies `rxLen, `qrtrLen, rx, qrtrRx
      ensures Valid()
      ensures last ==> message == Some(old(Partial(cid)) + chunk) && Partial(cid) == []
      ensures !last ==> message == None && Partial(cid) == old(Partial(cid)) + chunk
    {
      message := None;
      if OnQrtr(cid) {
        var n := qrtrLen;
        forall i | 0 <= i < |chunk| { qrtrRx[n + i] := chunk[i]; }
        qrtrLen := n + |chunk|;
        assert qrtrRx[..qrtrLen] == old(Partial(cid)) + chunk;
        if last {
          message, qrtrLen := Some(qrtrRx[..qrtrLen]), 0;
        }
      } else {
        var n := rxLen;
        forall i | 0 <= i < |chunk| { rx[n + i] := chunk[i]; }
        rxLen := n + |chunk|;
        assert rx[..rxLen] == old(Partial(cid)) + chunk;
        if last {
          message, rxLen := Some(rx[..rxLen]), 0;
        }
      }
    }

    // The size and remainder fields of the front data frame, once it is checked.
    method Inspect(cid: nat) returns (r: int, chunk: nat, left: nat)
      requires Valid()
      ensures r == 0 <==> |ring.Unread()| < 16
      ensures |ring.Unread()| >= 16 ==> chunk == Le32(ring.Unread(), 8) && left == Le32(ring.Unread(), 12)
      ensures r == -1 <==> |ring.Unread()| >= 16 && (|Partial(cid)| + chunk > Max(cid) || |ring.Unread()| < 16 + chunk)
      ensures r == 0 || r == -1 || r == 1
    {
      hide Ring.Holds, Le32;
      ring.UsedIsUnread();
      var avail := ring.Used();
      if avail < 16 {
        return 0, 0, 0;
      }
      var h := ring.Peek(8, 8);
      WordsOf(ring.Unread(), h);
      chunk, left := Le32(h, 0), Le32(h, 4);
      var room := if OnQrtr(cid) then QRTR_RX_MAX - qrtrLen else RX_MAX - rxLen;
      return if chunk > room || avail < 16 + chunk then -1 else 1, chunk, left;
    }

    // Move one checked chunk from the ring to the channel's buffer.
    method TakeChunk(cid: nat, chunk: nat, last: bool) returns (message: Option<seq<byte>>)
      requires Valid() && 16 + chunk <= |ring.Unread()| && |Partial(cid)| + chunk <= Max(cid)
      modifies ring, `rxLen, `qrtrLen, rx, qrtrRx
      ensures Valid() && ring.produced == old(ring.produced) && ring.taken == old(ring.taken) + (16 + chunk + 7) / 8 * 8
      ensures var whole := old(Partial(cid)) + old(ring.Unread()[16..16 + chunk]);
              if last then message == Some(whole) && Partial(cid) == [] else message == None && Partial(cid) == whole
    {
      hide Ring.Holds;
      ring.UsedIsUnread();
      var body := ring.Peek(16, chunk);
      ring.Consume((16 + chunk + 7) / 8 * 8);
      message := Append(cid, body, last);
    }

    /** glink_handle_rx_data: consumes the front data frame as RxData says, on the ring and in place. */
    method HandleRxData(cid: nat) returns (r: int, message: Option<seq<byte>>)
      requires Valid()
      modifies ring, `rxLen, `qrtrLen, rx, qrtrRx
      ensures Valid() && ring.produced == old(ring.produced)
      ensures match old(RxData(Partial(cid), ring.Unread(), Max(cid)))
              case Wait => r == 0 && message == None && ring.taken == old(ring.taken)
                  && Partial(cid) == old(Partial(cid))
              case Broken => r == -1 && message == None && ring.taken == old(ring.taken)
                  && Partial(cid) == old(Partial(cid))
              case Took(buf, done, used) =>
                r == 1 && message == done && Partial(cid) == buf && ring.taken == old(ring.taken) + used
    {
      hide Receiver.Valid, Receiver.Partial, Le32, Ring.Unread;
      var chunk, left;
      r, chunk, left := Inspect(cid);
      message := None;
      if r == 1 {
        message := TakeChunk(cid, chunk, left == 0);
      }
    }

    /** One pass of glink_poll over the RX ring, as far as framing goes: however the frames are formed,
        the tail moves by whole words and never past the head. */
    method PollPass() returns (stop: bool, message: Option<seq<byte>>)
      requires Valid()
      modifies ring, `rxLen, `qrtrLen, rx, qrtrRx
      ensures Valid() && ring.produced == old(ring.produced) && old(ring.taken) <= ring.taken <= |ring.produced|
      ensures old(|ring.Unread()|) < 8 ==> stop && ring.taken == old(ring.taken)
      ensures var u := old(ring.Unread());
              |u| < 8 || (Le16(u, 0) != 9 && Le16(u, 0) != 12) ==>
                  message == None && unchanged(`rxLen, `qrtrLen, rx, qrtrRx)
      ensures var u := old(ring.Unread());
              |u| >= 8 && Le16(u, 0) != 9 && Le16(u, 0) != 12 ==>
                var span := FrameSpan(Le16(u, 0), Le32(u, 4), |u|);
                stop == span.None? && ring.taken == old(ring.taken) + if span.Some? then (span.value + 7) / 8 * 8 else 0
      ensures var u := old(ring.Unread());
              |u| >= 8 && (Le16(u, 0) == 9 || Le16(u, 0) == 12) ==>
                var cid := Le16(u, 2);
                match old(RxData(Partial(cid), ring.Unread(), Max(cid)))
                case Wait => !stop && message == None && ring.taken == old(ring.taken)
                    && Partial(cid) == old(Partial(cid))
                case Broken => stop && message == None && ring.taken == old(ring.taken)
                    && Partial(cid) == old(Partial(cid))
                case Took(buf, done, used) =>
                  !stop && message == done && Partial(cid) == buf && ring.taken == old(ring.taken) + used
    {
      hide Ring.Holds, Le32, Le16, FrameSpan, RxData, Receiver.Partial;
      ring.UsedIsUnread();
      var avail := ring.Used();
      if avail < 8 {
        return true, None;
      }
      var h := ring.Peek(0, 8);
      FrontWords(ring.Unread(), h);
      var cmd, p1, p2 := Le16(h, 0), Le16(h, 2), Le32(h, 4);
      if cmd == 9 || cmd == 12 {
        var r;
        r, message := HandleRxData(p1);
        return r < 0, message;
      }
      var span := FrameSpan(cmd, p2, avail);
      SpanFits(cmd, p2, avail);
      if span.None? {
        return true, None;
      }
      ring.Consume((span.value + 7) / 8 * 8);
      return false, None;
    }
  }

  lemma FrontWords(u: seq<byte>, h: seq<byte>)
    requires 8 <= |u| && h == u[0..8]
    ensures Le16(h, 0) == Le16(u, 0) && Le16(h, 2) == Le16(u, 2) && Le32(h, 4) == Le32(u, 4)
  {
  }

  lemma WordsOf(u: seq<byte>, h: seq<byte>)
    requires 16 <= |u| && h == u[8..16]
    ensures Le32(h, 0) == Le32(u, 8) && Le32(h, 4) == Le32(u, 12)
  {
  }
}
