/** A sender and a receiver on one GLINK ring: the chunk loop of glink_send_data at one end and glink_poll at the
    other (q8b/kernel/bsp/npu_pas.c), in any interleaving. */
module GlinkExchange {
  import opened Bytes
  import opened Options
  import opened GlinkRing
  import opened GlinkMessage

  /** The chunk of a message at an offset. */
  datatype Chunk = Chunk(data: seq<byte>, off: nat)

  predicate ChunkOk(c: Chunk) { c.off < |c.data| <= MESSAGE_MAX }

  function Part(c: Chunk): seq<byte>
    requires ChunkOk(c)
  {
    c.data[c.off..c.off + ChunkLen(c.data, c.off)]
  }

  predicate Last(c: Chunk)
    requires ChunkOk(c)
  {
    c.off + ChunkLen(c.data, c.off) == |c.data|
  }

  predicate ChunksOk(cs: seq<Chunk>) { forall i :: 0 <= i < |cs| ==> ChunkOk(cs[i]) }

  /** The frames of the chunks, one after the other. */
  ghost function Frames(cid: nat, iid: nat, cs: seq<Chunk>): seq<byte>
    requires ChunksOk(cs)
  {
    if cs == [] then [] else ChunkFrame(cid, iid, cs[0].data, cs[0].off) + Frames(cid, iid, cs[1..])
  }

  /** What reassembling the chunks after `buf` leaves in the buffer. */
  ghost function Left(buf: seq<byte>, cs: seq<Chunk>): seq<byte>
    requires ChunksOk(cs)
    decreases |cs|
  {
    if cs == [] then buf else Left(if Last(cs[0]) then [] else buf + Part(cs[0]), cs[1..])
  }

  /** The messages it completes. */
  ghost function Whole(buf: seq<byte>, cs: seq<Chunk>): seq<seq<byte>>
    requires ChunksOk(cs)
    decreases |cs|
  {
    if cs == [] then []
    else if Last(cs[0]) then [buf + Part(cs[0])] + Whole([], cs[1..])
    else Whole(buf + Part(cs[0]), cs[1..])
  }

  /** The buffer never outgrows its size on the way. */
  ghost predicate Fits(buf: seq<byte>, cs: seq<Chunk>, max: nat)
    requires ChunksOk(cs)
    decreases |cs|
  {
    |buf| <= max && (cs != [] ==>
      && |buf| + |Part(cs[0])| <= max
      && Fits(if Last(cs[0]) then [] else buf + Part(cs[0]), cs[1..], max))
  }

  lemma {:induction false} OneMore(cid: nat, iid: nat, buf: seq<byte>, cs: seq<Chunk>, c: Chunk, max: nat)
    requires ChunksOk(cs) && ChunkOk(c)
    ensures ChunksOk(cs + [c])
    ensures Frames(cid, iid, cs + [c]) == Frames(cid, iid, cs) + ChunkFrame(cid, iid, c.data, c.off)
    ensures Left(buf, cs + [c]) == if Last(c) then [] else Left(buf, cs) + Part(c)
    ensures Whole(buf, cs + [c]) == Whole(buf, cs) + if Last(c) then [Left(buf, cs) + Part(c)] else []
    ensures Fits(buf, cs, max) && |Left(buf, cs)| + |Part(c)| <= max ==> Fits(buf, cs + [c], max)
    decreases |cs|
  {
    hide ChunkFrame, ChunkLen;
    if cs == [] {
      assert cs + [c] == [c] && [c][1..] == [];
    } else {
      OneMore(cid, iid, if Last(cs[0]) then [] else buf + Part(cs[0]), cs[1..], c, max);
      assert (cs + [c])[1..] == cs[1..] + [c];
    }
  }

  /** The sender starts a message, pushes its next chunk, or the receiver makes a pass. */
  datatype Step = Begin(data: seq<byte>) | Push | Pass

  // What connects the two ends: the unread bytes are the frames in flight, and reassembling them gives the messages
  // pushed whole and not delivered yet, and the part of the current one.
  ghost predicate InTouch(r: Receiver, cid: nat, iid: nat, flight: seq<Chunk>, cur: seq<byte>, off: nat,
                          pushed: seq<seq<byte>>, delivered: seq<seq<byte>>)
    reads r, r.ring, r.ring.buf, r.rx, r.qrtrRx
  {
    && r.Valid() && ChunksOk(flight) && r.ring.Unread() == Frames(cid, iid, flight)
    && off <= |cur| <= MESSAGE_MAX
    && Left(r.Partial(cid), flight) == (if off < |cur| then cur[..off] else [])
    && delivered + Whole(r.Partial(cid), flight) == pushed
    && Fits(r.Partial(cid), flight, r.Max(cid))
  }

  method PushChunk(r: Receiver, cid: nat, iid: nat, ghost flight: seq<Chunk>, cur: seq<byte>, off: nat,
                   ghost pushed: seq<seq<byte>>, ghost delivered: seq<seq<byte>>)
    returns (ok: bool, off': nat, ghost flight': seq<Chunk>, ghost pushed': seq<seq<byte>>)
    requires InTouch(r, cid, iid, flight, cur, off, pushed, delivered) && off < |cur| && MESSAGE_MAX <= r.Max(cid)
    modifies r.ring, r.ring.buf
    ensures InTouch(r, cid, iid, flight', cur, off', pushed', delivered)
    ensures if ok then off' == off + ChunkLen(cur, off) else off' == off
    ensures pushed' == if ok && off' == |cur| then pushed + [cur] else pushed
  {
    hide Frames, Left, Whole, Fits, ChunkFrame, Ring.Holds;
    var c := Chunk(cur, off);
    FrameWords(cid, iid, cur, off);
    DropAppend(r.ring.produced, r.ring.taken, ChunkFrame(cid, iid, cur, off));
    OneMore(cid, iid, r.Partial(cid), flight, c, r.Max(cid));
    Joined(cur, off);
    ok := SendChunk(r.ring, cid, iid, cur, off);
    if !ok {
      return false, off, flight, pushed;
    }
    return true, off + ChunkLen(cur, off), flight + [c], if Last(c) then pushed + [cur] else pushed;
  }

  lemma FrameWords(cid: nat, iid: nat, data: seq<byte>, off: nat)
    requires off < |data|
    ensures |ChunkFrame(cid, iid, data, off)| % 8 == 0
  {
  }

  lemma Joined(cur: seq<byte>, off: nat)
    requires off < |cur|
    ensures var n := ChunkLen(cur, off);
            cur[..off] + cur[off..off + n] == cur[..off + n] && (off + n == |cur| ==> cur[..off + n] == cur)
  {
  }

  // One pass over a ring with frames in flight takes the first of them.
  method TakePass(r: Receiver, cid: nat, iid: nat, ghost flight: seq<Chunk>, ghost cur: seq<byte>, ghost off: nat,
                  ghost pushed: seq<seq<byte>>, delivered: seq<seq<byte>>)
    returns (delivered': seq<seq<byte>>, ghost flight': seq<Chunk>)
    requires InTouch(r, cid, iid, flight, cur, off, pushed, delivered) && cid < 0x1_0000
    modifies r.ring, r`rxLen, r`qrtrLen, r.rx, r.qrtrRx
    ensures InTouch(r, cid, iid, flight', cur, off, pushed, delivered')
    ensures flight' == if flight == [] then [] else flight[1..]
  {
    hide Left, Whole, Fits, Frames, ChunkFrame, Le16, Le32, Ring.Holds, RxData;
    NoFrames(r.Partial(cid), cid, iid, flight);
    if flight != [] {
      Front(r.Partial(cid), cid, iid, flight, r.Max(cid));
      Fold(r.Partial(cid), flight, r.Max(cid));
    }
    ghost var u := r.ring.Unread();
    var stop, message := r.PollPass();
    delivered' := if message.Some? then delivered + [message.value] else delivered;
    if flight != [] {
      Requeue(delivered, if message.Some? then [message.value] else [], Whole(r.Partial(cid), flight[1..]));
    }
    flight' := if flight == [] then [] else flight[1..];
    assert flight == [] ==> r.ring.Unread() == u && r.Partial(cid) == old(r.Partial(cid));
    assert flight != [] ==> r.ring.Unread() == u[|ChunkFrame(cid, iid, flight[0].data, flight[0].off)|..];
    assert delivered' + Whole(r.Partial(cid), flight') == pushed;
  }

  lemma Requeue(a: seq<seq<byte>>, b: seq<seq<byte>>, c: seq<seq<byte>>)
    ensures a + (b + c) == (a + b) + c && a + [] == a
  {
  }

  function After(buf: seq<byte>, c: Chunk): seq<byte>
    requires ChunkOk(c)
  {
    if Last(c) then [] else buf + Part(c)
  }

  // The first frame in flight, as the receiver sees it.
  lemma Front(buf: seq<byte>, cid: nat, iid: nat, cs: seq<Chunk>, max: nat)
    requires ChunksOk(cs) && cs != [] && cid < 0x1_0000 && Fits(buf, cs, max)
    ensures var u, frame := Frames(cid, iid, cs), ChunkFrame(cid, iid, cs[0].data, cs[0].off);
            && 8 <= |u| && (Le16(u, 0) == 9 || Le16(u, 0) == 12) && Le16(u, 2) == cid && |frame| <= |u|
            && RxData(buf, u, max)
               == Took(After(buf, cs[0]), if Last(cs[0]) then Some(buf + Part(cs[0])) else None, |frame|)
            && u[|frame|..] == Frames(cid, iid, cs[1..])
  {
    hide ChunkFrame, Le16, Le32, RxData, Frames, Fits;
    FirstFrame(buf, cid, iid, cs, max);
    var rest := Frames(cid, iid, cs[1..]);
    ChunkFrameShape(cid, iid, cs[0].data, cs[0].off, rest);
    ChunkReceived(cid, iid, cs[0].data, cs[0].off, buf, rest, max);
  }

  lemma FirstFrame(buf: seq<byte>, cid: nat, iid: nat, cs: seq<Chunk>, max: nat)
    requires ChunksOk(cs) && cs != [] && Fits(buf, cs, max)
    ensures Frames(cid, iid, cs) == ChunkFrame(cid, iid, cs[0].data, cs[0].off) + Frames(cid, iid, cs[1..])
    ensures |buf| + ChunkLen(cs[0].data, cs[0].off) <= max
  {
    hide ChunkFrame;
  }

  lemma Fold(buf: seq<byte>, cs: seq<Chunk>, max: nat)
    requires ChunksOk(cs) && cs != [] && Fits(buf, cs, max)
    ensures Left(buf, cs) == Left(After(buf, cs[0]), cs[1..]) && Fits(After(buf, cs[0]), cs[1..], max)
    ensures Whole(buf, cs) == (if Last(cs[0]) then [buf + Part(cs[0])] else []) + Whole(After(buf, cs[0]), cs[1..])
  {
  }

  /** Any interleaving of one sender and one receiver on a ring: what is delivered is, in order, what was pushed
      whole, lagging behind by the frames in flight; with the ring read empty and no message under way every message
      begun has been delivered, exactly once.  A push that the ring refuses ends the run, as it ends the send. */
  method Exchange(r: Receiver, cid: nat, iid: nat, steps: seq<Step>)
    returns (ok: bool, sent: seq<seq<byte>>, delivered: seq<seq<byte>>, ghost flight: seq<Chunk>, ghost busy: bool)
    requires r.Valid() && r.ring.Unread() == [] && r.Partial(cid) == [] && cid < 0x1_0000 && MESSAGE_MAX <= r.Max(cid)
    requires forall k :: 0 <= k < |steps| && steps[k].Begin? ==> 1 <= |steps[k].data| <= MESSAGE_MAX
    modifies r.ring, r.ring.buf, r`rxLen, r`qrtrLen, r.rx, r.qrtrRx
    ensures r.Valid() && ChunksOk(flight) && r.ring.Unread() == Frames(cid, iid, flight)
    ensures |sent| >= (if busy then 1 else 0)
    ensures delivered + Whole(r.Partial(cid), flight) == if busy then sent[..|sent| - 1] else sent
    ensures r.ring.Unread() == [] && !busy ==> delivered == sent
  {
    hide Left, Whole, Fits, Frames;
    Nothing(cid, iid);
    ok, sent, delivered, flight, busy := true, [], [], [], false;
    var cur, off: nat := [], 0;
    ghost var pushed: seq<seq<byte>> := [];
    var k := 0;
    while ok && k < |steps|
      invariant k <= |steps| && InTouch(r, cid, iid, flight, cur, off, pushed, delivered)
      invariant busy == (off < |cur|) && sent == pushed + if busy then [cur] else []
      invariant MESSAGE_MAX <= r.Max(cid)
    {
      match steps[k] {
        case Begin(data) =>
          if off == |cur| {
            cur, off, sent, busy := data, 0, sent + [data], true;
          }
        case Push =>
          if off < |cur| {
            ok, off, flight, pushed := PushChunk(r, cid, iid, flight, cur, off, pushed, delivered);
            busy := off < |cur|;
          }
        case Pass =>
          delivered, flight := TakePass(r, cid, iid, flight, cur, off, pushed, delivered);
      }
      k := k + 1;
    }
    NoFrames(r.Partial(cid), cid, iid, flight);
  }

  lemma Nothing(cid: nat, iid: nat)
    ensures Frames(cid, iid, []) == [] && Left([], []) == [] && Whole([], []) == []
    ensures forall max: nat :: Fits([], [], max)
  {
  }

  lemma NoFrames(buf: seq<byte>, cid: nat, iid: nat, cs: seq<Chunk>)
    requires ChunksOk(cs)
    ensures Frames(cid, iid, cs) == [] <==> cs == []
    ensures cs == [] ==> Whole(buf, cs) == []
  {
  }
}
