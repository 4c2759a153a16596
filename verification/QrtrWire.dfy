/** The QRTR decoder and the SSCTL shutdown messages of q8b/include/q8b_qrtr_wire.h. */
module QrtrWire {
  import opened Bytes
  import opened Options

  const CONTROL_PORT: nat := 0xFFFF_FFFE
  const CLIENT_PORT: nat := 0x4000
  const UINT32_MAX: nat := 0xFFFF_FFFF

  datatype Packet = Packet(kind: nat, srcNode: nat, srcPort: nat, dstNode: nat, dstPort: nat, confirm: bool,
                           size: nat, data: seq<byte>)

  function Widen(port: nat): nat { if port == 0xFFFE then CONTROL_PORT else port }

  // The fields of a version 1 or version 3 header, and its length.
  function Fields(p: seq<byte>): Option<(nat, Packet)> {
    if p == [] then None
    else if p[0] == 1 then
      if |p| < 32 || Le32(p, 0) != 1 then None
      else Some((32, Packet(Le32(p, 4), Le32(p, 8), Le32(p, 12), Le32(p, 24), Le32(p, 28), Le32(p, 16) != 0,
          Le32(p, 20), [])))
    else if p[0] == 3 then
      if |p| < 16 then None
      else Some((16 + (p[3] as int),
          Packet(p[1] as int, Le16(p, 8), Widen(Le16(p, 10)), Le16(p, 12), Widen(Le16(p, 14)),
                                            p[2] % 2 == 1, Le32(p, 4), [])))
    else None
  }

  /** q8b_qrtr_decode */
  function Decode(p: seq<byte>): Option<Packet> {
    var f := Fields(p);
    if f.None? then None else
    var (hdr, v0) := f.value;
    var v := if v0.dstPort == 0xFFFF then v0.(dstPort := CONTROL_PORT) else v0;
    if hdr > |p| || v.size == 0 || v.size > UINT32_MAX - 3 || (v.size + 3) / 4 * 4 != |p| - hdr then None
    else if (v.kind == 4 || v.kind == 7) && v.size < 20 then None
    else if v.dstPort != CONTROL_PORT && v.kind != 1 && v.kind != 7 then None
    else Some(v.(data := p[hdr..]))
  }

  /** A decoded packet's payload is what the header announces, padded to a word. */
  lemma DecodedPayload(p: seq<byte>)
    requires Decode(p).Some?
    ensures var v := Decode(p).value;
            0 < v.size <= |v.data| < v.size + 4 && |v.data| % 4 == 0 && v.data == p[|p| - |v.data|..]
  {
  }

  function HeaderWords(node: nat, port: nat): seq<nat> { [1, 1, 1, CLIENT_PORT, 0, 7, node, port] }

  function WordBytes(ws: seq<nat>): (b: seq<byte>)
    ensures |b| == 4 * |ws|
  {
    if ws == [] then [] else WordBytes(ws[..|ws| - 1]) + Put32(ws[|ws| - 1])
  }

  /** The request as it stands on the wire: eight header words, a QMI header and one byte of padding. */
  function RequestBytes(node: nat, port: nat, txn: nat): seq<byte> {
    WordBytes(HeaderWords(node, port)) + [0, txn % 0x100, txn / 0x100 % 0x100, 0x21, 0, 0, 0, 0]
  }

  /** q8b_qrtr_put32 */
  method PutWord(packet: array<byte>, at: nat, v: nat)
    requires at + 4 <= packet.Length
    modifies packet
    ensures packet[..] == old(packet[..at]) + Put32(v) + old(packet[at + 4..])
  {
    var w := Put32(v);
    hide Put32;
    for i := 0 to 4
      invariant forall k :: 0 <= k < i ==> packet[at + k] == w[k]
      invariant forall k :: 0 <= k < packet.Length && !(at <= k < at + i) ==> packet[k] == old(packet[k])
    {
      packet[at + i] := w[i];
    }
    assert packet[..at] == old(packet[..at]) && packet[at..at + 4] == w && packet[at + 4..] == old(packet[at + 4..]);
    assert packet[..] == packet[..at] + packet[at..at + 4] + packet[at + 4..];
  }

  lemma EightWords(node: nat, port: nat)
    ensures |HeaderWords(node, port)| == 8 && WordBytes(HeaderWords(node, port)[..0]) == []
  {
  }

  lemma NextWord(was: seq<byte>, ws: seq<nat>, i: nat)
    requires i < |ws| == 8 && was == WordBytes(ws[..i]) + Zeros(40 - 4 * i)
    ensures was[..4 * i] + Put32(ws[i]) + was[4 * i + 4..] == WordBytes(ws[..i + 1]) + Zeros(40 - 4 * (i + 1))
  {
    assert ws[..i + 1][..i] == ws[..i];
    assert WordBytes(ws[..i + 1]) == WordBytes(ws[..i]) + Put32(ws[i]);
    hide Put32, WordBytes;
    assert Zeros(40 - 4 * i)[4..] == Zeros(40 - 4 * (i + 1));
  }

  /** q8b_ssctl_shutdown_request, filling the caller's buffer. */
  method ShutdownRequest(packet: array<byte>, node: nat, port: nat, txn: nat)
    requires packet.Length == 40
    modifies packet
    ensures packet[..] == RequestBytes(node, port, txn)
  {
    hide Put32, WordBytes, HeaderWords;
    forall i | 0 <= i < 40 { packet[i] := 0; }
    var hdr := HeaderWords(node, port);
    EightWords(node, port);
    for i := 0 to 8
      invariant packet[..] == WordBytes(hdr[..i]) + Zeros(40 - 4 * i)
    {
      ghost var was := packet[..];
      PutWord(packet, 4 * i, hdr[i]);
      NextWord(was, hdr, i);
    }
    assert hdr[..8] == hdr;
    packet[33], packet[34], packet[35] := txn % 0x100, txn / 0x100 % 0x100, 0x21;
    assert packet[..] == packet[..32] + packet[32..];
  }

  lemma {:induction false} WordAt(ws: seq<nat>, k: nat, rest: seq<byte>)
    requires k < |ws|
    ensures Le32(WordBytes(ws) + rest, 4 * k) == ws[k] % 0x1_0000_0000
  {
    var n := |ws| - 1;
    var b := WordBytes(ws) + rest;
    if k == n {
      assert b[4 * k..4 * k + 4] == Put32(ws[k]);
      Le32At(b, 4 * k, ws[k]);
    } else {
      WordAt(ws[..n], k, Put32(ws[n]) + rest);
      assert b == WordBytes(ws[..n]) + (Put32(ws[n]) + rest);
    }
  }

  /** Decoding an encoded request recovers its fields for every node, port and transaction; only the
      port 0xFFFF is remapped to the control port. */
  lemma RequestRoundTrip(node: nat, port: nat, txn: nat)
    requires node <= UINT32_MAX && port <= UINT32_MAX && txn < 0x1_0000
    ensures var v := Decode(RequestBytes(node, port, txn));
            && v.Some? && v.value.kind == 1 && v.value.srcNode == 1 && v.value.srcPort == CLIENT_PORT
                && !v.value.confirm
            && v.value.dstNode == node && v.value.dstPort == (if port == 0xFFFF then CONTROL_PORT else port)
            && v.value.size == 7 && |v.value.data| == 8
            && v.value.data[0] == 0 && Le16(v.value.data, 1) == txn && Le16(v.value.data, 3) == 0x21
                && Le16(v.value.data, 5) == 0
  {
    hide Le32, WordBytes;
    var ws := HeaderWords(node, port);
    var tail: seq<byte> := [0, txn % 0x100, txn / 0x100 % 0x100, 0x21, 0, 0, 0, 0];
    var p := RequestBytes(node, port, txn);
    WordAt(ws, 0, tail);
    WordAt(ws, 1, tail);
    WordAt(ws, 2, tail);
    WordAt(ws, 3, tail);
    WordAt(ws, 4, tail);
    WordAt(ws, 5, tail);
    WordAt(ws, 6, tail);
    WordAt(ws, 7, tail);
    assert p[0] == 1 by { FirstByte(p); }
    assert p[32..] == tail;
  }

  lemma FirstByte(p: seq<byte>)
    requires 4 <= |p| && Le32(p, 0) == 1
    ensures p[0] == 1
  {
  }

  // ---- TLVs ----

  datatype Tlv = Tlv(kind: byte, val: seq<byte>)

  function TlvBytes(t: Tlv): seq<byte> { [t.kind] + Put16(|t.val|) + t.val }

  function Tiling(ts: seq<Tlv>): seq<byte> {
    if ts == [] then [] else TlvBytes(ts[0]) + Tiling(ts[1..])
  }

  predicate Encodable(ts: seq<Tlv>) {
    forall i :: 0 <= i < |ts| ==> |ts[i].val| < 0x1_0000
  }

  function Results(ts: seq<Tlv>): seq<seq<byte>> {
    if ts == [] then [] else (if ts[0].kind == 2 then [ts[0].val] else []) + Results(ts[1..])
  }

  /** d is tiled by TLVs of which exactly one is a result, the four bytes v. */
  ghost predicate Reply(d: seq<byte>, v: seq<byte>) {
    |v| == 4 && exists ts: seq<Tlv> :: Encodable(ts) && Tiling(ts) == d && Results(ts) == [v]
  }

  /** Two 16-bit words as a signed 32-bit status, error code in the high half. */
  function Status(v: seq<byte>): int
    requires |v| == 4
  {
    var w := Le16(v, 0) * 0x1_0000 + Le16(v, 2);
    if w < 0x8000_0000 then w else w - 0x1_0000_0000
  }

  lemma {:induction false} TilingAppend(ts: seq<Tlv>, t: Tlv)
    ensures Tiling(ts + [t]) == Tiling(ts) + TlvBytes(t)
  {
    hide TlvBytes;
    if ts == [] {
      assert ts + [t] == [t] && [t][1..] == [];
    } else {
      TilingAppend(ts[1..], t);
      assert (ts + [t])[1..] == ts[1..] + [t];
      Associate(TlvBytes(ts[0]), Tiling(ts[1..]), TlvBytes(t));
    }
  }

  lemma Associate(a: seq<byte>, b: seq<byte>, c: seq<byte>)
    ensures a + (b + c) == (a + b) + c
  {
  }

  lemma {:induction false} ResultsSplit(ts: seq<Tlv>, k: nat)
    requires k <= |ts|
    ensures Results(ts) == Results(ts[..k]) + Results(ts[k..])
  {
    if k > 0 {
      ResultsSplit(ts[1..], k - 1);
      assert ts[1..][..k - 1] == ts[..k][1..] && ts[1..][k - 1..] == ts[k..];
    }
  }

  // A TLV is determined by the bytes that start with it.
  lemma FirstTlv(t: Tlv, rest: seq<byte>, d: seq<byte>)
    requires |t.val| < 0x1_0000 && d == TlvBytes(t) + rest
    ensures 3 + |t.val| <= |d| && d[0] == t.kind && Le16(d, 1) == |t.val| && d[3..3 + |t.val|] == t.val
              && d[3 + |t.val|..] == rest
  {
    assert d[1..3] == Put16(|t.val|);
    Le16At(d, 1, |t.val|);
  }

  // Tilings are prefix-free: one that starts like ts continues with what is left.
  lemma {:induction false} TilingPrefix(ts: seq<Tlv>, rest: seq<byte>, us: seq<Tlv>)
    requires Encodable(ts) && Encodable(us) && Tiling(ts) + rest == Tiling(us)
    ensures |ts| <= |us| && us[..|ts|] == ts && Tiling(us[|ts|..]) == rest
  {
    if ts == [] {
      assert us[0..] == us;
    } else {
      hide TlvBytes;
      var d := Tiling(us);
      assert d == TlvBytes(ts[0]) + (Tiling(ts[1..]) + rest);
      FirstTlv(ts[0], Tiling(ts[1..]) + rest, d);
      assert us != [];
      FirstTlv(us[0], Tiling(us[1..]), d);
      assert ts[0] == us[0];
      TilingPrefix(ts[1..], rest, us[1..]);
      assert us == [us[0]] + us[1..] && ts == [ts[0]] + ts[1..];
      assert us[1..][|ts| - 1..] == us[|ts|..];
    }
  }

  // What the loop knows after some TLVs: their bytes end at pos, and at most one result was seen.
  ghost predicate Scanned(d: seq<byte>, pos: nat, ts: seq<Tlv>, found: Option<seq<byte>>) {
    && pos <= |d| && Encodable(ts) && Tiling(ts) == d[..pos]
    && Results(ts) == (if found.Some? then [found.value] else []) && (found.Some? ==> |found.value| == 4)
  }

  // A tiling of d would have to continue ts, so its results start with those of ts and the next TLV.
  lemma NextOfTiling(d: seq<byte>, pos: nat, ts: seq<Tlv>, us: seq<Tlv>) returns (t: Tlv, vs: seq<Tlv>)
    requires pos < |d| && Encodable(ts) && Tiling(ts) == d[..pos] && Encodable(us) && Tiling(us) == d
    ensures |t.val| < 0x1_0000 && d[pos..] == TlvBytes(t) + Tiling(vs)
    ensures Results(us) == Results(ts) + (if t.kind == 2 then [t.val] else []) + Results(vs)
  {
    hide TlvBytes;
    assert d == d[..pos] + d[pos..];
    TilingPrefix(ts, d[pos..], us);
    ResultsSplit(us, |ts|);
    var ws := us[|ts|..];
    t, vs := ws[0], ws[1..];
  }

  /** The TLV loop of q8b_ssctl_shutdown_result: the status of a well-formed reply, which is 0 only for
      four zero bytes, and -1 for anything else. */
  method ScanResult(d: seq<byte>) returns (result: int)
    ensures forall v | Reply(d, v) :: result == Status(v)
    ensures result != -1 ==> exists v :: Reply(d, v)
    ensures result == 0 <==> Reply(d, [0, 0, 0, 0])
  {
    hide Tiling, Results, Encodable, Status, Scanned, Reply, Le16;
    var pos := 0;
    var found: Option<seq<byte>> := None;
    ghost var ts := [];
    NothingScanned(d);
    while pos < |d|
      invariant pos <= |d| && Scanned(d, pos, ts, found)
    {
      Continues(d, pos, ts, found);
      if |d| - pos < 3 {
        return -1;
      }
      var kind, len := d[pos], Le16(d, pos + 1);
      if len > |d| - pos - 3 || (kind == 2 && (found.Some? || len != 4)) {
        return -1;
      }
      var val := d[pos + 3..pos + 3 + len];
      ScanOne(d, pos, ts, found);
      ts := ts + [Tlv(kind, val)];
      if kind == 2 {
        found := Some(val);
      }
      pos := pos + 3 + len;
    }
    Verdict(d, ts, found);
    if found.Some? {
      StatusZero(found.value);
    }
    return if found.Some? then Status(found.value) else -1;
  }

  lemma NothingScanned(d: seq<byte>)
    ensures Scanned(d, 0, [], None)
  {
  }

  lemma ScanOne(d: seq<byte>, pos: nat, ts: seq<Tlv>, found: Option<seq<byte>>)
    requires Scanned(d, pos, ts, found) && pos + 3 <= |d| && pos + 3 + Le16(d, pos + 1) <= |d|
    requires d[pos] == 2 ==> found.None? && Le16(d, pos + 1) == 4
    ensures var val := d[pos + 3..pos + 3 + Le16(d, pos + 1)];
            Scanned(d, pos + 3 + |val|, ts + [Tlv(d[pos], val)], if d[pos] == 2 then Some(val) else found)
  {
    var val := d[pos + 3..pos + 3 + Le16(d, pos + 1)];
    var t := Tlv(d[pos], val);
    TlvAt(d, pos);
    hide TlvBytes, Tiling, Results, Encodable;
    TilingAppend(ts, t);
    ResultsAppend(ts, t);
  }

  lemma ResultsAppend(ts: seq<Tlv>, t: Tlv)
    requires Encodable(ts) && |t.val| < 0x1_0000
    ensures Encodable(ts + [t]) && Results(ts + [t]) == Results(ts) + if t.kind == 2 then [t.val] else []
  {
    ResultsSplit(ts + [t], |ts|);
    assert (ts + [t])[..|ts|] == ts && (ts + [t])[|ts|..] == [t] && [t][1..] == [];
  }

  lemma TlvAt(d: seq<byte>, pos: nat)
    requires pos + 3 <= |d| && pos + 3 + Le16(d, pos + 1) <= |d|
    ensures var val := d[pos + 3..pos + 3 + Le16(d, pos + 1)];
            d[..pos + 3 + |val|] == d[..pos] + TlvBytes(Tlv(d[pos], val))
  {
    var val := d[pos + 3..pos + 3 + Le16(d, pos + 1)];
    assert Put16(|val|) == d[pos + 1..pos + 3];
  }

  // A well-formed reply passes every check of the loop at its next TLV.
  lemma Continues(d: seq<byte>, pos: nat, ts: seq<Tlv>, found: Option<seq<byte>>)
    requires Scanned(d, pos, ts, found) && pos < |d|
    ensures (exists v :: Reply(d, v)) ==>
                           && pos + 3 <= |d| && pos + 3 + Le16(d, pos + 1) <= |d|
                           && (d[pos] == 2 ==> found.None? && Le16(d, pos + 1) == 4)
  {
    if v: seq<byte> :| Reply(d, v) {
      var us: seq<Tlv> :| Encodable(us) && Tiling(us) == d && Results(us) == [v];
      var t, vs := NextOfTiling(d, pos, ts, us);
      FirstTlv(t, Tiling(vs), d[pos..]);
      assert Le16(d[pos..], 1) == Le16(d, pos + 1);
      if t.kind == 2 {
        assert Results(us)[|Results(ts)|] == t.val;
      }
    }
  }

  lemma Verdict(d: seq<byte>, ts: seq<Tlv>, found: Option<seq<byte>>)
    requires Scanned(d, |d|, ts, found)
    ensures forall v :: Reply(d, v) <==> found == Some(v)
    ensures found.Some? ==> |found.value| == 4
  {
    assert d[..|d|] == d;
    forall us: seq<Tlv> | Encodable(us) && Tiling(us) == d
      ensures us == ts
    {
      TilingPrefix(ts, [], us);
      assert Tiling(ts) + [] == Tiling(us);
      EmptyTiling(us[|ts|..]);
    }
  }

  lemma EmptyTiling(ts: seq<Tlv>)
    requires Tiling(ts) == []
    ensures ts == []
  {
  }

  lemma StatusZero(v: seq<byte>)
    requires |v| == 4
    ensures Status(v) == 0 <==> v == [0, 0, 0, 0]
  {
  }

  /** q8b_ssctl_shutdown_result: None for unrelated traffic, otherwise the verdict on the reply. */
  method ShutdownResult(p: Packet, node: nat, port: nat, txn: nat) returns (r: Option<int>)
    requires p.size <= |p.data|
    ensures r.Some? <==> && p.kind == 1 && p.srcNode == node && p.srcPort == port && p.dstNode == 1
                         && p.dstPort == CLIENT_PORT && p.size >= 7 && p.data[0] == 2
                         && Le16(p.data, 1) == txn && Le16(p.data, 3) == 0x21
    ensures r.Some? ==> (r.value == 0 <==> Le16(p.data, 5) == p.size - 7 && Reply(p.data[7..p.size], [0, 0, 0, 0]))
    ensures r.Some? && Le16(p.data, 5) == p.size - 7 ==> forall v | Reply(p.data[7..p.size], v) :: r.value == Status(v)
    ensures r.Some? && r.value != -1 ==> Le16(p.data, 5) == p.size - 7 && exists v :: Reply(p.data[7..p.size], v)
  {
    if p.kind != 1 || p.srcNode != node || p.srcPort != port || p.dstNode != 1 || p.dstPort != CLIENT_PORT || p.size < 7
       || p.data[0] != 2 || Le16(p.data, 1) != txn || Le16(p.data, 3) != 0x21 {
      return None;
    }
    if Le16(p.data, 5) != p.size - 7 {
      return Some(-1);
    }
    var result := ScanResult(p.data[7..p.size]);
    return Some(result);
  }
}
