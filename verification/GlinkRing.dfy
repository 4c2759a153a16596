/** The GLINK shared-memory FIFOs of q8b/kernel/bsp/npu_pas.c.  One side publishes at `head`, the other
    consumes at `tail`; `produced` is everything ever published and `taken` how much of it was consumed. */
module GlinkRing {
  import opened Bytes

  const FIFO_RESERVE: nat := 16
  const FIFO_MAX: nat := 16384

  /** Position i bytes after p in a ring of len bytes. */
  function At(p: nat, i: nat, len: nat): nat {
    if p + i < len then p + i else p + i - len
  }

  function PadLen(n: nat): nat { (8 - n % 8) % 8 }

  /** A frame as the peer sees it: header, payload, zeros up to a multiple of 8. */
  function Padded(header: seq<byte>, data: seq<byte>): (f: seq<byte>)
    ensures |f| % 8 == 0 && |header| + |data| <= |f| < |header| + |data| + 8
  {
    header + data + Zeros(PadLen(|header| + |data|))
  }

  function Header(cmd: nat, p1: nat, p2: nat): seq<byte> {
    Put16(cmd) + Put16(p1) + Put32(p2)
  }

  function DataHeader(cmd: nat, cid: nat, iid: nat, size: nat, left: nat): seq<byte> {
    Header(cmd, cid, iid) + Put32(size) + Put32(left)
  }

  datatype TxEvent =
    | Frame(cmd: nat, p1: nat, p2: nat, data: seq<byte>)
    | Data(cmd: nat, cid: nat, iid: nat, data: seq<byte>, left: nat)
    | Take(n: nat)

  function FrameOf(e: TxEvent): seq<byte>
    requires !e.Take?
  {
    match e
    case Frame(cmd, p1, p2, data) => Padded(Header(cmd, p1, p2), data)
    case Data(cmd, cid, iid, data, left) => Padded(DataHeader(cmd, cid, iid, |data|, left), data)
  }

  /** The frames among events that were accepted, one after the other. */
  function Accepted(events: seq<TxEvent>, ok: seq<bool>): seq<byte>
    requires |events| == |ok| && forall k :: 0 <= k < |ok| && ok[k] ==> !events[k].Take?
  {
    if ok == [] then [] else
    var n := |ok| - 1;
    Accepted(events[..n], ok[..n]) + if ok[n] then FrameOf(events[n]) else []
  }

  lemma AtCompose(p: nat, a: nat, b: nat, len: nat)
    requires p < len && a + b < len
    ensures At(At(p, a, len), b, len) == At(p, a + b, len)
  {
  }

  lemma AtAligned(p: nat, i: nat, len: nat)
    requires p < len && i <= len && len % 8 == 0
    ensures At(p, i, len) % 8 == (p + i) % 8 && At(p, i, len) < len
  {
    if p + i >= len {
      WordSum(len, p + i - len);
    }
  }

  lemma AlignedShift(p: nat, i: nat, n: nat, len: nat)
    requires p < len && i + n <= len && len % 8 == 0 && At(p, i, len) % 8 == 0
    ensures At(p, i + n, len) % 8 == n % 8 && At(p, i + n, len) < len
  {
    hide At;
    AtAligned(p, i, len);
    AtAligned(p, i + n, len);
    WordSum(p + i, n);
  }

  lemma WordSum(a: nat, n: nat)
    requires a % 8 == 0
    ensures (a + n) % 8 == n % 8
  {
  }

  lemma NextByte(p: nat, m: nat, len: nat)
    requires p < len && len % 8 == 0 && p % 8 == m % 8
    ensures At(p, 1, len) % 8 == (m + 1) % 8
  {
  }

  lemma PadProgress(n: nat, k: nat)
    requires k <= PadLen(n)
    ensures (n + k) % 8 == 0 <==> k == PadLen(n)
  {
  }

  lemma ZerosExtend(q: seq<byte>, k: nat)
    ensures q + Zeros(k) + [0] == q + Zeros(k + 1) && q + Zeros(0) == q
  {
  }

  lemma DropAppend(a: seq<byte>, k: nat, b: seq<byte>)
    requires k <= |a|
    ensures (a + b)[k..] == a[k..] + b
  {
  }

  /** glink_ring_add */
  method RingAdd(p: nat, n: nat, len: nat) returns (r: nat, ghost laps: nat)
    requires len > 0
    ensures r < len && p + n == r + laps * len
    ensures p < len && n <= len ==> r == At(p, n, len)
  {
    r, laps := p + n, 0;
    while r >= len
      invariant r >= 0 && p + n == r + laps * len
      invariant p < len && n <= len ==> r == p + n || r == p + n - len
    {
      r, laps := r - len, laps + 1;
    }
  }

  // The position n bytes after p, less than a lap away.
  method Advance(p: nat, n: nat, len: nat) returns (r: nat)
    requires p < len && n <= len
    ensures r == At(p, n, len) < len
  {
    ghost var laps;
    r, laps := RingAdd(p, n, len);
  }

  class Ring {
    const buf: array<byte>
    var head: nat
    var tail: nat
    ghost var produced: seq<byte>
    ghost var taken: nat

    ghost function Unread(): seq<byte>
      requires taken <= |produced|
      reads this
    {
      produced[taken..]
    }

    // The bytes from tail on are q.
    ghost predicate Holds(q: seq<byte>)
      requires tail < buf.Length
      reads `tail, buf
    {
      |q| < buf.Length && forall i :: 0 <= i < |q| ==> buf[At(tail, i, buf.Length)] == q[i]
    }

    /** The ring is a byte queue: its cells from tail to head are the bytes published and not yet
        consumed, in order; it is never completely full, and head stays on a frame boundary. */
    ghost predicate Valid()
      reads this, buf
    {
      && 0 < buf.Length && buf.Length % 8 == 0
      && head < buf.Length && tail < buf.Length && head % 8 == 0
      && taken <= |produced|
      && Holds(Unread()) && head == At(tail, |Unread()|, buf.Length)
    }

    /** glink_ring_used */
    function Used(): (n: nat)
      requires head < buf.Length && tail < buf.Length
      reads this
    {
      if head >= tail then head - tail else buf.Length - tail + head
    }

    /** A full ring never looks empty: the distance of the indices is the number of unread bytes. */
    lemma UsedIsUnread()
      requires Valid()
      ensures Used() == |Unread()| < buf.Length
      ensures head == tail <==> Unread() == []
    {
    }

    constructor (cells: array<byte>, initialTail: nat)
      requires 0 < cells.Length && cells.Length % 8 == 0 && initialTail < cells.Length
      ensures Valid() && buf == cells && head == 0 && tail == initialTail && taken == 0
    {
      buf, head, tail, taken := cells, 0, initialTail, 0;
      produced := if initialTail == 0 then [] else cells[initialTail..];
    }

    /** glink_ring_copy */
    method Copy(pos: nat, n: nat) returns (dst: seq<byte>)
      requires pos < buf.Length && n <= buf.Length
      ensures |dst| == n && forall i :: 0 <= i < n ==> dst[i] == buf[At(pos, i, buf.Length)]
    {
      var first := if pos + n > buf.Length then buf.Length - pos else n;
      dst := buf[pos..pos + first] + buf[..n - first];
    }

    // Read n unread bytes, off bytes behind tail.
    method Peek(off: nat, n: nat) returns (dst: seq<byte>)
      requires Valid() && off + n <= |Unread()|
      ensures dst == Unread()[off..off + n]
    {
      ghost var laps;
      var pos;
      pos, laps := RingAdd(tail, off, buf.Length);
      dst := Copy(pos, n);
      forall i | 0 <= i < n
        ensures dst[i] == Unread()[off + i]
      {
        AtCompose(tail, off, i, buf.Length);
      }
    }

    /** glink_ring_write */
    method Write(pos: nat, src: seq<byte>)
      requires pos < buf.Length && |src| < buf.Length
      modifies buf
      ensures forall i :: 0 <= i < |src| ==> buf[At(pos, i, buf.Length)] == src[i]
      ensures forall i :: |src| <= i < buf.Length ==> buf[At(pos, i, buf.Length)] == old(buf[At(pos, i, buf.Length)])
    {
      var first := if pos + |src| > buf.Length then buf.Length - pos else |src|;
      forall i | 0 <= i < first { buf[pos + i] := src[i]; }
      forall i | 0 <= i < |src| - first { buf[i] := src[first + i]; }
    }

    // Write a piece of a frame behind q without publishing it.
    method Stage(pos: nat, src: seq<byte>, ghost q: seq<byte>) returns (next: nat)
      requires 0 < buf.Length && tail < buf.Length && Holds(q) && pos == At(tail, |q|, buf.Length)
      requires |q| + |src| < buf.Length
      modifies buf
      ensures Holds(q + src) && next == At(tail, |q| + |src|, buf.Length) == At(pos, |src|, buf.Length) < buf.Length
    {
      Write(pos, src);
      forall i | 0 <= i < |q + src|
        ensures buf[At(tail, i, buf.Length)] == (q + src)[i]
      {
        if i >= |q| {
          AtCompose(tail, |q|, i - |q|, buf.Length);
        } else {
          var k := if tail <= pos then buf.Length + i - |q| else i + buf.Length - |q|;
          assert At(pos, k, buf.Length) == At(tail, i, buf.Length);
        }
      }
      AtCompose(tail, |q|, |src|, buf.Length);
      ghost var laps;
      next, laps := RingAdd(pos, |src|, buf.Length);
    }

    // while(head & 7): zero bytes up to the next multiple of 8.
    method StagePad(pos: nat, n: nat, ghost q: seq<byte>) returns (next: nat)
      requires 0 < buf.Length && buf.Length % 8 == 0 && tail < buf.Length && Holds(q)
                && pos == At(tail, |q|, buf.Length)
      requires |q| + PadLen(n) < buf.Length && pos % 8 == n % 8
      modifies buf
      ensures Holds(q + Zeros(PadLen(n))) && next % 8 == 0 && next == At(tail, |q| + PadLen(n), buf.Length) < buf.Length
    {
      hide Holds, Zeros, At, PadLen;
      next := pos;
      ghost var k := 0;
      ZerosExtend(q, 0);
      PadProgress(n, 0);
      AtAligned(tail, |q|, buf.Length);
      while next % 8 != 0
        invariant k <= PadLen(n) && Holds(q + Zeros(k)) && next == At(tail, |q| + k, buf.Length) < buf.Length
        invariant next % 8 == (n + k) % 8 && (next % 8 == 0 <==> k == PadLen(n))
        decreases PadLen(n) - k
      {
        NextByte(next, n + k, buf.Length);
        ZerosExtend(q, k);
        next := Stage(next, [0], q + Zeros(k));
        k := k + 1;
        PadProgress(n, k);
      }
    }

    // The common part of the two frame writers.
    method Emit(header: seq<byte>, data: seq<byte>) returns (ok: bool)
      requires Valid() && |header| % 8 == 0 && header != []
      modifies buf, `head, `produced
      ensures Valid()
      ensures ok <==> buf.Length - old(|Unread()|) >= |Padded(header, data)| + FIFO_RESERVE
      ensures ok ==> produced == old(produced) + Padded(header, data)
      ensures !ok ==> unchanged(buf, `head, `produced)
    {
      UsedIsUnread();
      var total := (|header| + |data| + 7) / 8 * 8;
      assert total == |Padded(header, data)|;
      if buf.Length - Used() < total + FIFO_RESERVE {
        return false;
      }
      hide Padded, Holds, Zeros, At;
      ghost var q := Unread();
      Publish(header, data, q);
      return true;
    }

    method Publish(header: seq<byte>, data: seq<byte>, ghost q: seq<byte>)
      requires Valid() && q == Unread() && |q| + |Padded(header, data)| < buf.Length
      modifies buf, `head, `produced
      ensures Valid() && produced == old(produced) + Padded(header, data)
    {
      hide Holds, At, PadLen, Zeros;
      var pos := Stage(head, header, q);
      if data != [] {
        pos := Stage(pos, data, q + header);
      }
      ghost var body := q + header + data;
      assert data == [] ==> body == q + header;
      AlignedShift(tail, |q|, |header| + |data|, buf.Length);
      pos := StagePad(pos, |header| + |data|, body);
      assert body + Zeros(PadLen(|header| + |data|)) == q + Padded(header, data);
      DropAppend(produced, taken, Padded(header, data));
      head := pos;
      produced := produced + Padded(header, data);
    }

    /** glink_tx_frame; the caller has checked that the edge is up. */
    method TxFrame(cmd: nat, p1: nat, p2: nat, data: seq<byte>) returns (ok: bool)
      requires Valid()
      modifies buf, `head, `produced
      ensures Valid()
      ensures ok <==> && |data| <= FIFO_MAX
                      && old(|Unread()|) + |Padded(Header(cmd, p1, p2), data)| + FIFO_RESERVE <= buf.Length
      ensures produced == if ok then old(produced) + Padded(Header(cmd, p1, p2), data) else old(produced)
      ensures !ok ==> unchanged(buf, `head)
    {
      if |data| > FIFO_MAX {
        return false;
      }
      ok := Emit(Header(cmd, p1, p2), data);
    }

    /** glink_tx_data_frame */
    method TxDataFrame(cmd: nat, cid: nat, iid: nat, data: seq<byte>, left: nat) returns (ok: bool)
      requires Valid()
      modifies buf, `head, `produced
      ensures Valid()
      ensures ok <==> && |data| <= FIFO_MAX
                      && var frame := Padded(DataHeader(cmd, cid, iid, |data|, left), data);
                         old(|Unread()|) + |frame| + FIFO_RESERVE <= buf.Length
      ensures produced == if ok then old(produced) + Padded(DataHeader(cmd, cid, iid, |data|, left), data)
                else old(produced)
      ensures !ok ==> unchanged(buf, `head)
    {
      if |data| > FIFO_MAX {
        return false;
      }
      ok := Emit(DataHeader(cmd, cid, iid, |data|, left), data);
    }

    // The rest of the queue, seen from the position n bytes on.
    lemma AfterTaking(n: nat)
      requires Valid() && n <= |Unread()|
      ensures var t := At(tail, n, buf.Length);
              && t < buf.Length && head == At(t, |Unread()| - n, buf.Length)
              && forall i :: 0 <= i < |Unread()| - n ==> buf[At(t, i, buf.Length)] == Unread()[n + i]
    {
      forall i | 0 <= i <= |Unread()| - n
        ensures At(At(tail, n, buf.Length), i, buf.Length) == At(tail, n + i, buf.Length)
      {
        AtCompose(tail, n, i, buf.Length);
      }
    }

    /** The other side consumes n unread bytes. */
    method Consume(n: nat)
      requires Valid() && n <= |Unread()|
      modifies `tail, `taken
      ensures Valid() && taken == old(taken) + n && Unread() == old(Unread())[n..]
    {
      hide At;
      AfterTaking(n);
      var next := Advance(tail, n, buf.Length);
      tail, taken := next, taken + n;
    }

    method TxStep(e: TxEvent) returns (ok: bool)
      requires Valid()
      modifies this, buf
      ensures Valid() && taken >= old(taken)
      ensures ok ==> !e.Take?
      ensures produced == old(produced) + if ok then FrameOf(e) else []
      ensures !e.Take? && |e.data| <= FIFO_MAX && old(|Unread()|) + |FrameOf(e)| + FIFO_RESERVE <= buf.Length ==> ok
    {
      ok := false;
      match e {
        case Frame(cmd, p1, p2, data) =>
          ok := TxFrame(cmd, p1, p2, data);
        case Data(cmd, cid, iid, data, left) =>
          ok := TxDataFrame(cmd, cid, iid, data, left);
        case Take(n) =>
          if n <= Used() {
            UsedIsUnread();
            Consume(n);
          }
      }
    }

    /** Any interleaving of frame writes and consumer advances: the consumer sees exactly the accepted
        frames, zero-padded, one after the other, and what it has not seen is still in the ring. */
    method RunTx(events: seq<TxEvent>) returns (ok: seq<bool>)
      requires Valid()
      modifies this, buf
      ensures Valid() && taken >= old(taken)
      ensures |ok| == |events| && forall k :: 0 <= k < |ok| && ok[k] ==> !events[k].Take?
      ensures produced == old(produced) + Accepted(events, ok)
    {
      hide Holds, FrameOf, Valid;
      ok := [];
      for i := 0 to |events|
        invariant Valid() && taken >= old(taken)
        invariant |ok| == i && forall k :: 0 <= k < i && ok[k] ==> !events[k].Take?
        invariant produced == old(produced) + Accepted(events[..i], ok)
      {
        var one := TxStep(events[i]);
        assert events[..i + 1][..i] == events[..i] && (ok + [one])[..i] == ok;
        ok := ok + [one];
      }
      assert events[..|events|] == events;
    }
  }
}
