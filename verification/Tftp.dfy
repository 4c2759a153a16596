/** The windowed TFTP client of q8b/efi/main.c (RFC 1350 with the options of RFC 2347, RFC 2348, RFC 2349
    and RFC 7440). */
module Tftp {
  import opened Bytes
  import opened Options

  const OP_DATA: nat := 3
  const OP_ERROR: nat := 5
  const OP_OACK: nat := 6
  const TWO16: nat := 0x1_0000
  const TWO32: nat := 0x1_0000_0000

  // Option names as they stand in the packet.
  const BLKSIZE: seq<byte> := [98, 108, 107, 115, 105, 122, 101]
  const WINDOWSIZE: seq<byte> := [119, 105, 110, 100, 111, 119, 115, 105, 122, 101]
  const TSIZE: seq<byte> := [116, 115, 105, 122, 101]

  datatype Params = Params(blksize: nat, window: nat, tsize: nat)

  /** be16_ */
  function Be16(b: seq<byte>, off: nat): nat
    requires off + 2 <= |b|
  {
    0x100 * (b[off] as int) + (b[off + 1] as int)
  }

  function PutBe16(v: nat): seq<byte> { [v / 0x100 % 0x100, v % 0x100] }

  // ---- OACK ----

  function IsDigit(c: byte): bool { 48 <= c <= 57 }

  /** dec_: leading decimal digits, in 32-bit arithmetic. */
  function DecFrom(v: nat, s: seq<byte>): nat
    decreases |s|
  {
    if s == [] || !IsDigit(s[0]) then v else DecFrom((v * 10 + ((s[0] as int) - 48)) % TWO32, s[1..])
  }

  function Dec(s: seq<byte>): nat { DecFrom(0, s) }

  function Decimal(v: nat): seq<byte> {
    if v < 10 then [48 + v] else Decimal(v / 10) + [48 + v % 10]
  }

  // Index of the first NUL at or after p, at most end.
  function StrEnd(b: seq<byte>, p: nat, end: nat): (q: nat)
    requires end <= |b|
    ensures p <= q && (p <= end ==> q <= end)
    ensures forall i :: p <= i < q ==> i < end && b[i] != 0
    ensures q < end ==> b[q] == 0
    decreases end - p
  {
    if p < end && b[p] != 0 then StrEnd(b, p + 1, end) else p
  }

  function CString(b: seq<byte>, p: nat): seq<byte> {
    if p <= |b| then b[p..StrEnd(b, p, |b|)] else []
  }

  function Apply(o: Params, name: seq<byte>, val: seq<byte>): Params {
    if name == BLKSIZE then o.(blksize := Dec(val))
    else if name == WINDOWSIZE then o.(window := Dec(val))
    else if name == TSIZE then o.(tsize := Dec(val))
    else o
  }

  /** The option loop: pkt is the receive buffer, len the packet length. */
  function ParseFrom(pkt: seq<byte>, len: nat, p: nat, o: Params): Params
    requires len <= |pkt|
    decreases len - p
  {
    if p < len && pkt[p] != 0 then
      var val := StrEnd(pkt, p, len) + 1;
      ParseFrom(pkt, len, StrEnd(pkt, val, len) + 1, Apply(o, CString(pkt, p), CString(pkt, val)))
    else o
  }

  function Sane(o: Params): Params {
    Params(if o.blksize < 8 || o.blksize > 1468 then 512 else o.blksize, if o.window == 0 then 1 else o.window, o.tsize)
  }

  method SkipString(pkt: seq<byte>, p: nat, end: nat) returns (q: nat)
    requires end <= |pkt|
    ensures q == StrEnd(pkt, p, end)
  {
    q := p;
    while q < end && pkt[q] != 0
      invariant p <= q && StrEnd(pkt, q, end) == StrEnd(pkt, p, end)
    {
      q := q + 1;
    }
  }

  method ParseOack(pkt: seq<byte>, len: nat, o: Params) returns (r: Params)
    requires len <= |pkt|
    ensures r == Sane(ParseFrom(pkt, len, 2, o))
  {
    hide Apply, StrEnd, CString;
    r := o;
    var p: nat := 2;
    while p < len && pkt[p] != 0
      invariant ParseFrom(pkt, len, p, r) == ParseFrom(pkt, len, 2, o)
      decreases len - p
    {
      var name := CString(pkt, p);
      var q := SkipString(pkt, p, len);
      var val := CString(pkt, q + 1);
      q := SkipString(pkt, q + 1, len);
      r := Apply(r, name, val);
      p := q + 1;
    }
    r := Sane(r);
  }

  datatype Opt = Opt(name: seq<byte>, val: seq<byte>)

  predicate NoNul(s: seq<byte>) { forall i :: 0 <= i < |s| ==> s[i] != 0 }

  predicate OptOk(o: Opt) { o.name != [] && NoNul(o.name) && NoNul(o.val) }

  function Encode(opts: seq<Opt>): seq<byte> {
    if opts == [] then [] else opts[0].name + [0] + opts[0].val + [0] + Encode(opts[1..])
  }

  function ApplyAll(o: Params, opts: seq<Opt>): Params
    decreases |opts|
  {
    if opts == [] then o else ApplyAll(Apply(o, opts[0].name, opts[0].val), opts[1..])
  }

  lemma {:induction false} StrEndIs(b: seq<byte>, p: nat, q: nat, end: nat)
    requires p <= q < end <= |b| && b[q] == 0 && forall i :: p <= i < q ==> b[i] != 0
    ensures StrEnd(b, p, end) == q
    decreases q - p
  {
    if p < q {
      StrEndIs(b, p + 1, q, end);
    }
  }

  /** Whatever options a server acknowledges, in whatever order, the parser applies exactly those. */
  lemma {:induction false} ParseEncoded(pre: seq<byte>, opts: seq<Opt>, junk: seq<byte>, o: Params)
    requires forall k :: 0 <= k < |opts| ==> OptOk(opts[k])
    ensures var pkt := pre + Encode(opts) + junk;
            ParseFrom(pkt, |pre + Encode(opts)|, |pre|, o) == ApplyAll(o, opts)
    decreases |opts|
  {
    hide StrEnd, CString, Apply, OptOk, ParseFrom, Encode;
    if opts == [] {
      ParseNothing(pre, junk, o);
    } else {
      var first, rest := opts[0], opts[1..];
      var front := pre + first.name + [0] + first.val + [0];
      Regroup(pre, opts);
      FirstOption(pre, first, Encode(rest), junk);
      ParseStep(front + Encode(rest) + junk, |front + Encode(rest)|, |pre|, o);
      ParseEncoded(front, rest, junk, Apply(o, first.name, first.val));
    }
  }

  lemma ParseNothing(pre: seq<byte>, junk: seq<byte>, o: Params)
    ensures ParseFrom(pre + Encode([]) + junk, |pre + Encode([])|, |pre|, o) == o
  {
  }

  lemma Regroup(pre: seq<byte>, opts: seq<Opt>)
    requires opts != []
    ensures pre + Encode(opts) == pre + opts[0].name + [0] + opts[0].val + [0] + Encode(opts[1..])
  {
    var rest := Encode(opts[1..]);
    assert Encode(opts) == opts[0].name + [0] + opts[0].val + [0] + rest;
    hide Encode;
    SixParts(pre, opts[0].name, [0], opts[0].val, [0], rest);
  }

  lemma SixParts(a: seq<byte>, b: seq<byte>, c: seq<byte>, d: seq<byte>, e: seq<byte>, f: seq<byte>)
    ensures a + (b + c + d + e + f) == a + b + c + d + e + f
  {
    assert a + (b + c + d + e + f) == a + (b + c + d + e) + f;
    assert a + (b + c + d + e) == a + (b + c + d) + e;
    assert a + (b + c + d) == a + (b + c) + d;
    assert a + (b + c) == a + b + c;
  }

  lemma ParseStep(pkt: seq<byte>, len: nat, p: nat, o: Params)
    requires p < len <= |pkt| && pkt[p] != 0
    ensures var val := StrEnd(pkt, p, len) + 1;
            ParseFrom(pkt, len, p, o) == ParseFrom(pkt, len, StrEnd(pkt, val, len) + 1,
                Apply(o, CString(pkt, p), CString(pkt, val)))
  {
  }

  // The two strings of the option at the front are found where they stand.
  lemma FirstOption(pre: seq<byte>, o: Opt, rest: seq<byte>, junk: seq<byte>)
    requires OptOk(o)
    ensures var front := pre + o.name + [0] + o.val + [0];
            var pkt, len := front + rest + junk, |front + rest|;
            var val := |pre| + |o.name| + 1;
            && |pre| < len && pkt[|pre|] != 0
            && StrEnd(pkt, |pre|, len) == val - 1 && StrEnd(pkt, val, len) == |front| - 1
            && CString(pkt, |pre|) == o.name && CString(pkt, val) == o.val
  {
    hide StrEnd, CString, OptOk;
    var front := pre + o.name + [0] + o.val + [0];
    var pkt, len := front + rest + junk, |front + rest|;
    assert pkt == front + (rest + junk);
    NamePlaced(pre, o.name, o.val, rest + junk, pkt);
    StringsAt(pkt, len, |pre|, |pre| + |o.name|, |front| - 1, o);
  }

  lemma StringsAt(pkt: seq<byte>, len: nat, p: nat, q: nat, r: nat, o: Opt)
    requires OptOk(o) && p <= q < r < len <= |pkt|
    requires pkt[p..q] == o.name && pkt[q] == 0 && pkt[q + 1..r] == o.val && pkt[r] == 0
    ensures pkt[p] != 0 && StrEnd(pkt, p, len) == q && StrEnd(pkt, q + 1, len) == r
    ensures CString(pkt, p) == o.name && CString(pkt, q + 1) == o.val
  {
    hide StrEnd;
    assert forall i :: p <= i < q ==> pkt[i] == pkt[p..q][i - p];
    assert forall i :: q + 1 <= i < r ==> pkt[i] == pkt[q + 1..r][i - (q + 1)];
    StrEndIs(pkt, p, q, len);
    StrEndIs(pkt, p, q, |pkt|);
    StrEndIs(pkt, q + 1, r, len);
    StrEndIs(pkt, q + 1, r, |pkt|);
  }

  lemma NamePlaced(pre: seq<byte>, name: seq<byte>, val: seq<byte>, rest: seq<byte>, pkt: seq<byte>)
    requires pkt == pre + name + [0] + val + [0] + rest
    ensures var p, q, r := |pre|, |pre| + |name|, |pre| + |name| + 1 + |val|;
            r < |pkt| && pkt[p..q] == name && pkt[q] == 0 && pkt[q + 1..r] == val && pkt[r] == 0
  {
  }

  lemma {:induction false} DecDecimal(v: nat, s: seq<byte>)
    requires s == [] || !IsDigit(s[0])
    ensures Dec(Decimal(v) + s) == v % TWO32
  {
    DecDecimalThen(v, s);
  }

  lemma {:induction false} DecDecimalThen(v: nat, s: seq<byte>)
    ensures Dec(Decimal(v) + s) == DecFrom(v % TWO32, s)
  {
    if v < 10 {
      assert (Decimal(v) + s)[1..] == s;
    } else {
      var d: seq<byte> := [48 + v % 10];
      assert Decimal(v) + s == Decimal(v / 10) + (d + s);
      DecDecimalThen(v / 10, d + s);
      assert (d + s)[1..] == s;
      NextDigit(v);
    }
  }

  lemma NextDigit(v: nat)
    ensures (v / 10 % TWO32 * 10 + v % 10) % TWO32 == v % TWO32
  {
    var k := v / 10 / TWO32;
    assert v / 10 == k * TWO32 + v / 10 % TWO32;
    assert v == (v / 10 % TWO32 * 10 + v % 10) + 10 * k * TWO32;
    WrapMultiple(v / 10 % TWO32 * 10 + v % 10, 10 * k);
  }

  lemma {:induction false} WrapMultiple(a: nat, k: nat)
    ensures (a + k * TWO32) % TWO32 == a % TWO32
    decreases k
  {
    if k > 0 {
      WrapMultiple(a, k - 1);
      assert a + k * TWO32 == a + (k - 1) * TWO32 + TWO32;
    }
  }

  lemma {:induction false} DecimalDigits(v: nat)
    ensures NoNul(Decimal(v))
  {
    if v >= 10 {
      DecimalDigits(v / 10);
    }
  }

  /** An option of a server that serves `size` bytes in blocks of blk and windows of win; options the client
      does not know may say anything. */
  predicate Honest(o: Opt, blk: nat, win: nat, size: nat) {
    && OptOk(o) && (o.name == BLKSIZE ==> o.val == Decimal(blk))
    && (o.name == WINDOWSIZE ==> o.val == Decimal(win)) && (o.name == TSIZE ==> o.val == Decimal(size))
  }

  predicate AllHonest(opts: seq<Opt>, blk: nat, win: nat, size: nat) {
    forall k :: 0 <= k < |opts| ==> Honest(opts[k], blk, win, size)
  }

  predicate Has(opts: seq<Opt>, name: seq<byte>) {
    exists k :: 0 <= k < |opts| && opts[k].name == name
  }

  /** Any list of honest options, complete or not, in any order, in an OACK: what it acknowledges is read back, the
      transfer size modulo 2^32, and everything else stays as it was. */
  lemma OackRoundTrip(opts: seq<Opt>, blk: nat, win: nat, size: nat, junk: seq<byte>, o: Params)
    requires 8 <= blk <= 1468 && 0 < win < TWO32 && AllHonest(opts, blk, win, size)
    requires 8 <= o.blksize <= 1468 && 0 < o.window
    ensures var pre := PutBe16(OP_OACK);
            Sane(ParseFrom(pre + Encode(opts) + junk, |pre + Encode(opts)|, 2, o))
            == Params(if Has(opts, BLKSIZE) then blk else o.blksize, if Has(opts, WINDOWSIZE) then win else o.window,
                      if Has(opts, TSIZE) then size % TWO32 else o.tsize)
  {
    hide Decimal, Encode, ParseFrom, Dec, Has;
    ParseEncoded(PutBe16(OP_OACK), opts, junk, o);
    ApplyHonest(opts, blk, win, size, o);
  }

  lemma {:induction false} ApplyHonest(opts: seq<Opt>, blk: nat, win: nat, size: nat, o: Params)
    requires blk < TWO32 && win < TWO32 && AllHonest(opts, blk, win, size)
    ensures ApplyAll(o, opts)
            == Params(if Has(opts, BLKSIZE) then blk else o.blksize, if Has(opts, WINDOWSIZE) then win else o.window,
                      if Has(opts, TSIZE) then size % TWO32 else o.tsize)
    decreases |opts|
  {
    if opts != [] {
      hide Has, Dec, Decimal, AllHonest;
      var first, rest := opts[0], opts[1..];
      FirstHonest(opts, blk, win, size);
      HasFirst(opts, BLKSIZE);
      HasFirst(opts, WINDOWSIZE);
      HasFirst(opts, TSIZE);
      ReadHonest(first, blk, win, size, o);
      ApplyHonest(rest, blk, win, size, Apply(o, first.name, first.val));
    }
  }

  lemma FirstHonest(opts: seq<Opt>, blk: nat, win: nat, size: nat)
    requires opts != [] && AllHonest(opts, blk, win, size)
    ensures Honest(opts[0], blk, win, size) && AllHonest(opts[1..], blk, win, size)
  {
  }

  lemma HasFirst(opts: seq<Opt>, name: seq<byte>)
    requires opts != []
    ensures Has(opts, name) <==> opts[0].name == name || Has(opts[1..], name)
  {
    if k :| 1 <= k < |opts| && opts[k].name == name {
      assert opts[1..][k - 1].name == name;
    }
  }

  lemma ReadHonest(first: Opt, blk: nat, win: nat, size: nat, o: Params)
    requires blk < TWO32 && win < TWO32 && Honest(first, blk, win, size)
    ensures Apply(o, first.name, first.val)
            == Params(if first.name == BLKSIZE then blk else o.blksize,
                      if first.name == WINDOWSIZE then win else o.window,
                      if first.name == TSIZE then size % TWO32 else o.tsize)
  {
    hide Decimal, Dec;
    assert |BLKSIZE| == 7 && |WINDOWSIZE| == 10 && |TSIZE| == 5;
    DecDecimal(blk, []);
    DecDecimal(win, []);
    DecDecimal(size, []);
    assert Decimal(blk) + [] == Decimal(blk) && Decimal(win) + [] == Decimal(win);
    assert Decimal(size) + [] == Decimal(size);
  }

  // ---- The receive loop ----

  datatype Event = Timeout | Packet(pkt: seq<byte>, len: nat)
  predicate EventOk(e: Event) { e.Packet? ==> e.len <= |e.pkt| }

  datatype Outcome = Running | Failed | Done(size: nat)

  /** The test that ends the transfer after a stored block. */
  predicate Finished(dlen: nat, p: Params, total: nat) {
    dlen < p.blksize || (p.tsize != 0 && total >= p.tsize)
  }

  class Client {
    const out: array<byte>
    const maxSize: nat
    var params: Params
    var stored: nat
    var lastAck: nat
    var expected: nat
    var total: nat
    var gotOack: bool
    var retries: nat

    /** Block numbers are the stored count modulo 2^16, and the count itself never wraps. */
    ghost predicate Valid()
      reads this
    {
      && maxSize <= out.Length && maxSize < 8 * TWO32
      && 8 <= params.blksize <= 1468 && stored * 8 <= maxSize
      && lastAck == stored % TWO16 && expected == (stored + 1) % TWO16
    }

    constructor (buffer: array<byte>, max: nat)
      requires max <= buffer.Length && max < 8 * TWO32
      ensures Valid() && out == buffer && maxSize == max && total == 0 && stored == 0 && !gotOack
      ensures params == Params(512, 1, 0)
    {
      out, maxSize, params := buffer, max, Params(512, 1, 0);
      stored, lastAck, expected, total, gotOack, retries := 0, 0, 1, 0, false, 0;
    }

    /** A DATA packet is stored when its number is the expected one and it fits. */
    predicate Expected(e: Event)
      requires EventOk(e)
      reads this
    {
      e.Packet? && e.len >= 4 && Be16(e.pkt, 0) == OP_DATA && Be16(e.pkt, 2) == expected
    }

    /** Where the next block goes. */
    function Offset(): nat
      reads `stored, `params
    {
      stored * params.blksize
    }

    lemma NextFits(dlen: nat)
      requires Valid() && Offset() + dlen <= maxSize
      ensures dlen >= params.blksize ==> (stored + 1) * 8 <= maxSize
    {
      NextStored(stored, params.blksize, dlen, maxSize);
    }

    method Write(off: nat, data: seq<byte>)
      requires off + |data| <= out.Length
      modifies out
      ensures out[off..off + |data|] == data
      ensures forall i :: 0 <= i < out.Length && !(off <= i < off + |data|) ==> out[i] == old(out[i])
    {
      forall i | 0 <= i < |data| { out[off + i] := data[i]; }
    }

    // Store the next block at its offset.
    method Store(off: nat, data: seq<byte>)
      requires Valid() && off + |data| <= maxSize && (|data| >= params.blksize ==> (stored + 1) * 8 <= maxSize)
      modifies `stored, `lastAck, `expected, `total, out
      ensures total == old(total) + |data| && stored == old(stored) + 1
      ensures |data| >= params.blksize ==> Valid()
      ensures lastAck == stored % TWO16 && expected == (stored + 1) % TWO16
      ensures out[off..off + |data|] == data
      ensures forall i :: 0 <= i < out.Length && !(off <= i < off + |data|) ==> out[i] == old(out[i])
    {
      Write(off, data);
      total, stored := total + |data|, stored + 1;
      lastAck := expected;
      expected := (expected + 1) % TWO16;
    }

    /** One turn of the receive loop, for any packet: writes stay below max_size, every ACK sent names
        the last contiguous block (or 0, for an OACK), and only an expected block changes the state. */
    method Handle(e: Event) returns (r: Outcome, ack: Option<nat>)
      requires Valid() && EventOk(e)
      modifies this, out
      ensures r == Running ==> Valid()
      ensures forall i :: maxSize <= i < out.Length ==> out[i] == old(out[i])
      ensures ack.Some? ==>
                ack.value == lastAck || (ack.value == 0 && e.Packet? && e.len >= 4 && Be16(e.pkt, 0) == OP_OACK)
      ensures e.Packet? && e.len >= 4 && Be16(e.pkt, 0) == OP_DATA && !old(Expected(e)) ==> ack == Some(lastAck)
      ensures e.Packet? && e.len >= 4 && Be16(e.pkt, 0) == OP_OACK ==> ack == Some(0)
      ensures e.Timeout? && r == Running ==> ack == if stored == 0 && !gotOack then None else Some(lastAck)
      ensures retries == if e.Timeout? then old(retries) + 1 else 0
      ensures !old(Expected(e)) ==>
                (r == Failed <==>
                   if e.Timeout? then retries > 8 else e.len >= 4 && Be16(e.pkt, 0) == OP_ERROR)
      ensures lastAck == stored % TWO16 && expected == (stored + 1) % TWO16
      ensures old(Expected(e)) && old(Offset()) + e.len - 4 > maxSize ==>
                r == Failed && stored == old(stored) && total == old(total) && out[..] == old(out[..])
      ensures old(Expected(e)) && old(Offset()) + e.len - 4 <= maxSize ==>
                var off, dlen := old(Offset()), e.len - 4;
                && stored == old(stored) + 1 && total == old(total) + dlen && params == old(params)
                    && gotOack == old(gotOack)
                && out[off..off + dlen] == e.pkt[4..e.len]
                && (forall i :: 0 <= i < out.Length && !(off <= i < off + dlen) ==> out[i] == old(out[i]))
                && r == (if Finished(dlen, params, total) then Done(total) else Running)
                && (ack.Some? <==> Finished(dlen, params, total) || (params.window != 0 && stored % params.window == 0))
      ensures !old(Expected(e)) ==>
                && stored == old(stored) && total == old(total) && out[..] == old(out[..]) && !r.Done?
                && (if e.Packet? && e.len >= 4 && Be16(e.pkt, 0) == OP_OACK
                    then gotOack && params == Sane(ParseFrom(e.pkt, e.len, 2, old(params)))
                    else gotOack == old(gotOack) && params == old(params))
    {
      hide ParseFrom, Client.Offset;
      ack := None;
      if e.Timeout? {
        retries := retries + 1;
        if retries > 8 {
          return Failed, None;
        }
        return Running, if stored == 0 && !gotOack then None else Some(lastAck);
      }
      retries := 0;
      if e.len < 4 {
        return Running, None;
      }
      var op := Be16(e.pkt, 0);
      if op == OP_ERROR {
        return Failed, None;
      }
      if op == OP_OACK {
        params := ParseOack(e.pkt, e.len, params);
        gotOack := true;
        return Running, Some(0);
      }
      if op != OP_DATA {
        return Running, None;
      }
      if Be16(e.pkt, 2) != expected {
        return Running, Some(lastAck);
      }
      var dlen := e.len - 4;
      var off := Offset();
      if off + dlen > maxSize {
        return Failed, None;
      }
      NextFits(dlen);
      Store(off, e.pkt[4..e.len]);
      var finished := Finished(dlen, params, total);
      if finished || (params.window != 0 && stored % params.window == 0) {
        ack := Some(lastAck);
      }
      r := if finished then Done(total) else Running;
    }

    /** How far an honest transfer of s.file has come: the buffer holds a prefix of the file. */
    ghost predicate Holding(s: Server)
      reads this, out
    {
      && total <= |s.file| && total <= out.Length && out[..total] == s.file[..total]
    }

    ghost predicate InStep(s: Server)
      reads this, out
    {
      && Valid() && ServerOk(s) && Holding(s) && total == stored * s.blk
      && (if gotOack then s.reply.Some? && params == Negotiated(s)
          else params == DEFAULTS && (s.reply.Some? ==> stored == 0))
      && (params.tsize != 0 ==> total < params.tsize)
    }

    // The expected block arrives.
    method StepNext(s: Server, e: Event) returns (r: Outcome)
      requires InStep(s) && Delivers(s, stored, gotOack, e) && EventOk(e) && Expected(e)
      modifies this, out
      ensures Holding(s) && (r == Running ==> InStep(s))
      ensures r.Done? ==> r.size == total && (total == |s.file| <==> !Sized(s) || SizeFaithful(|s.file|))
      ensures lastAck == stored % TWO16
      ensures forall i :: maxSize <= i < out.Length ==> out[i] == old(out[i])
    {
      hide ParseFrom, Finished, ServerOk, Encode, DataBytes, Block, Delivers, SizeFaithful, Negotiated, Sized, Acks;
      ghost var before, at := out[..], total;
      ExpectedIsNext(s, stored, gotOack, e);
      Unanswered(s);
      BlockEnds(s, stored);
      var ack;
      r, ack := Handle(e);
      if r != Failed {
        PrefixGrows(before, out[..], s.file, at, total);
        CompletesWhole(s, e.len - 4, params, total);
      }
    }

    // Anything else arrives, or nothing does.
    method StepOther(s: Server, e: Event) returns (r: Outcome)
      requires InStep(s) && Delivers(s, stored, gotOack, e) && EventOk(e) && !Expected(e)
      modifies this, out
      ensures Holding(s) && (r == Running ==> InStep(s)) && !r.Done? && lastAck == stored % TWO16
      ensures forall i :: maxSize <= i < out.Length ==> out[i] == old(out[i])
    {
      hide ParseFrom, Finished, ServerOk, Encode, DataBytes, Has, Block, Delivers;
      if e.Packet? && e.len >= 4 && Be16(e.pkt, 0) == OP_OACK {
        OackParsed(s, stored, gotOack, e, params);
      }
      var ack;
      r, ack := Handle(e);
      assert out[..total] == out[..][..total];
    }

    /** One event of an honest but lossy, duplicating and reordering network. */
    method Step(s: Server, e: Event) returns (r: Outcome)
      requires InStep(s) && Delivers(s, stored, gotOack, e) && EventOk(e)
      modifies this, out
      ensures Holding(s) && (r == Running ==> InStep(s))
      ensures r.Done? ==> r.size == total && (total == |s.file| <==> !Sized(s) || SizeFaithful(|s.file|))
      ensures lastAck == stored % TWO16
      ensures forall i :: maxSize <= i < out.Length ==> out[i] == old(out[i])
    {
      hide Delivers, SizeFaithful;
      if Expected(e) {
        r := StepNext(s, e);
      } else {
        r := StepOther(s, e);
      }
    }

    /** Any run over such a network, whatever it delivers next (`net` may look at the client): the buffer
        is always a prefix of the file, the last acknowledgement is the stored count modulo 2^16, nothing is
        written past max_size, and a completed transfer has the whole file if and only if the server announced
        no size or the size survives its 32-bit decoding. */
    method Run(s: Server, net: (nat, nat, bool) -> Event, turns: nat) returns (r: Outcome)
      requires InStep(s)
      requires forall t, k, oack :: Delivers(s, k, oack, net(t, k, oack)) && EventOk(net(t, k, oack))
      modifies this, out
      ensures Holding(s)
      ensures r.Done? ==> r.size == total && (out[..total] == s.file <==> !Sized(s) || SizeFaithful(|s.file|))
      ensures lastAck == stored % TWO16
      ensures forall i :: maxSize <= i < out.Length ==> out[i] == old(out[i])
    {
      hide Delivers, SizeFaithful;
      r := Running;
      var t := 0;
      while r == Running && t < turns
        invariant Holding(s) && (r == Running ==> InStep(s))
        invariant r.Done? ==> r.size == total && (total == |s.file| <==> !Sized(s) || SizeFaithful(|s.file|))
        invariant lastAck == stored % TWO16
        invariant forall i :: maxSize <= i < out.Length ==> out[i] == old(out[i])
      {
        var e := net(t, stored, gotOack);
        r := Step(s, e);
        t := t + 1;
      }
      assert s.file[..|s.file|] == s.file;
    }
  }

  const DEFAULTS := Params(512, 1, 0)

  /** A server: the file, its block and window sizes, and the options it acknowledges, if it sends an OACK at all. */
  datatype Server = Server(file: seq<byte>, blk: nat, win: nat, reply: Option<seq<Opt>>)

  predicate Acks(s: Server, name: seq<byte>) { s.reply.Some? && Has(s.reply.value, name) }

  /** It announces the size of the file. */
  predicate Sized(s: Server) { Acks(s, TSIZE) }

  /** It says what it does, and what it does not say is the default. */
  predicate ServerOk(s: Server) {
    && 8 <= s.blk <= 1468 && 0 < s.win < TWO32
    && (s.reply.Some? ==> AllHonest(s.reply.value, s.blk, s.win, |s.file|))
    && (!Acks(s, BLKSIZE) ==> s.blk == DEFAULTS.blksize) && (!Acks(s, WINDOWSIZE) ==> s.win == DEFAULTS.window)
  }

  function Negotiated(s: Server): Params { Params(s.blk, s.win, if Sized(s) then |s.file| % TWO32 else 0) }

  lemma Unanswered(s: Server)
    requires ServerOk(s)
    ensures (s.reply.None? ==> Negotiated(s) == DEFAULTS) && Negotiated(s).blksize == s.blk <= 1468
  {
  }

  /** Block n of the file, counted from 1; the last one is short. */
  function Block(s: Server, n: nat): seq<byte>
    requires 1 <= n && (n - 1) * s.blk <= |s.file|
  {
    var from := (n - 1) * s.blk;
    s.file[from..if from + s.blk <= |s.file| then from + s.blk else |s.file|]
  }

  function DataBytes(s: Server, n: nat): seq<byte>
    requires 1 <= n && (n - 1) * s.blk <= |s.file|
  {
    PutBe16(OP_DATA) + PutBe16(n % TWO16) + Block(s, n)
  }

  function OackBytes(s: Server): seq<byte>
    requires s.reply.Some?
  {
    PutBe16(OP_OACK) + Encode(s.reply.value)
  }

  /** What may arrive: nothing, strays and errors, the OACK again, or any block less than 2^16 away
      from the next one, early, late or repeated. */
  ghost predicate Delivers(s: Server, stored: nat, gotOack: bool, e: Event) {
    match e
    case Timeout => true
    case Packet(pkt, len) =>
      && len <= |pkt|
      && (|| len < 4 || (Be16(pkt, 0) != OP_DATA && Be16(pkt, 0) != OP_OACK)
          || (s.reply.Some? && pkt[..len] == OackBytes(s))
          || ((s.reply.Some? ==> gotOack) && exists n: nat :: IsBlock(s, n, stored, pkt[..len])))
  }

  ghost predicate IsBlock(s: Server, n: nat, stored: nat, bytes: seq<byte>) {
    && 1 <= n && (n - 1) * s.blk <= |s.file| && stored + 1 < n + TWO16 && n < stored + 1 + TWO16
    && bytes == DataBytes(s, n)
  }

  /** The transfer size survives its 32-bit decoding. */
  predicate SizeFaithful(size: nat) {
    size < TWO32 || size % TWO32 == 0
  }

  // Of all the packets that may arrive, only the next block carries the expected number.
  lemma ExpectedIsNext(s: Server, stored: nat, gotOack: bool, e: Event)
    requires Delivers(s, stored, gotOack, e) && e.Packet? && 4 <= e.len <= |e.pkt|
    requires Be16(e.pkt, 0) == OP_DATA && Be16(e.pkt, 2) == (stored + 1) % TWO16
    ensures (s.reply.Some? ==> gotOack) && stored * s.blk <= |s.file| && e.pkt[4..e.len] == Block(s, stored + 1)
  {
    hide Encode, Block, DataBytes, Be16, PutBe16;
    var b := e.pkt[..e.len];
    HeadSame(e.pkt, e.len);
    if s.reply.Some? {
      FirstWord(OP_OACK, Encode(s.reply.value));
    }
    var n: nat :| IsBlock(s, n, stored, b);
    DataNumber(s, n);
    SameBlock(n, stored + 1);
    assert e.pkt[4..e.len] == b[4..];
  }

  lemma HeadSame(pkt: seq<byte>, len: nat)
    requires 4 <= len <= |pkt|
    ensures Be16(pkt[..len], 0) == Be16(pkt, 0) && Be16(pkt[..len], 2) == Be16(pkt, 2)
  {
  }

  lemma FirstWord(v: nat, rest: seq<byte>)
    requires v < TWO16
    ensures |PutBe16(v) + rest| >= 2 && Be16(PutBe16(v) + rest, 0) == v
  {
    assert (PutBe16(v) + rest)[..2] == PutBe16(v);
  }

  lemma DataNumber(s: Server, n: nat)
    requires 1 <= n && (n - 1) * s.blk <= |s.file|
    ensures var b := DataBytes(s, n); |b| >= 4 && Be16(b, 2) == n % TWO16 && b[4..] == Block(s, n)
  {
    hide Block;
    var b := DataBytes(s, n);
    assert b[2..4] == PutBe16(n % TWO16);
  }

  lemma SameBlock(n: nat, m: nat)
    requires n % TWO16 == m % TWO16 && n < m + TWO16 && m < n + TWO16
    ensures n == m
  {
  }

  // An OACK that arrives is the server's, and reading it again changes nothing.
  lemma OackParsed(s: Server, stored: nat, gotOack: bool, e: Event, o: Params)
    requires Delivers(s, stored, gotOack, e) && ServerOk(s) && e.Packet? && 4 <= e.len <= |e.pkt|
    requires Be16(e.pkt, 0) == OP_OACK && (o == DEFAULTS || o == Negotiated(s))
    ensures s.reply.Some? && Sane(ParseFrom(e.pkt, e.len, 2, o)) == Negotiated(s)
  {
    hide Encode, ParseFrom, Block, Has, AllHonest;
    var b, junk := e.pkt[..e.len], e.pkt[e.len..];
    assert b[0] == e.pkt[0] && b[1] == e.pkt[1];
    forall n: nat | 1 <= n && (n - 1) * s.blk <= |s.file|
      ensures DataBytes(s, n)[1] == 3
    {
    }
    assert e.pkt == OackBytes(s) + junk;
    SentOack(s, junk, o);
  }

  lemma SentOack(s: Server, junk: seq<byte>, o: Params)
    requires ServerOk(s) && s.reply.Some? && (o == DEFAULTS || o == Negotiated(s))
    ensures Sane(ParseFrom(OackBytes(s) + junk, |OackBytes(s)|, 2, o)) == Negotiated(s)
  {
    hide Encode, ParseFrom, Has, AllHonest;
    OackRoundTrip(s.reply.value, s.blk, s.win, |s.file|, junk, o);
  }

  lemma BlockEnds(s: Server, stored: nat)
    requires stored * s.blk <= |s.file|
    ensures var from := stored * s.blk;
            var b := Block(s, stored + 1);
            && from + |b| <= |s.file| && b == s.file[from..from + |b|] && |b| <= s.blk
            && (|b| < s.blk ==> from + |b| == |s.file|)
            && (|b| == s.blk ==> from + |b| == (stored + 1) * s.blk)
  {
  }

  /** The end test after a stored block: it fires at the end of the file, and earlier exactly when an announced
      size was cut short by its 32-bit decoding. */
  lemma CompletesWhole(s: Server, dlen: nat, p: Params, total: nat)
    requires p == Negotiated(s) && s.blk <= 1468 && dlen <= s.blk && dlen <= total <= |s.file|
    requires p.tsize != 0 ==> total - dlen < p.tsize
    requires dlen < s.blk ==> total == |s.file|
    ensures Finished(dlen, p, total) ==> (total == |s.file| <==> !Sized(s) || SizeFaithful(|s.file|))
    ensures !Finished(dlen, p, total) ==> dlen >= s.blk && (p.tsize != 0 ==> total < p.tsize)
  {
  }

  lemma PrefixGrows(before: seq<byte>, after: seq<byte>, file: seq<byte>, at: nat, total: nat)
    requires at <= total <= |file| && |before| == |after| && total <= |after| && before[..at] == file[..at]
    requires after[at..total] == file[at..total] && forall i :: 0 <= i < at ==> after[i] == before[i]
    ensures after[..total] == file[..total]
  {
    forall i | 0 <= i < total
      ensures after[i] == file[i]
    {
      if i < at {
        assert before[..at][i] == file[..at][i];
      } else {
        assert after[at..total][i - at] == file[at..total][i - at];
      }
    }
  }

  // The block counter stays within the buffer.
  lemma NextStored(k: nat, blk: nat, len: nat, max: nat)
    requires blk >= 8 && k * blk + len <= max
    ensures len >= blk ==> (k + 1) * 8 <= max
  {
    assert k * 8 <= k * blk;
  }

  /** A file one byte longer than 4 GiB, from a server that announces its size, whatever else it acknowledges: the
      client reports completion after the first block. */
  method OversizedFileStopsEarly(s: Server) returns (c: Client, r: Outcome)
    requires ServerOk(s) && Sized(s) && |s.file| == TWO32 + 1
    ensures r == Done(s.blk) && c.out.Length >= s.blk && c.out[..s.blk] == s.file[..s.blk] != s.file
  {
    hide Encode, ParseFrom, Decimal, Has, AllHonest;
    var buffer := new byte[4096];
    c := new Client(buffer, 4096);
    var oack := OackBytes(s);
    SentOack(s, [], c.params);
    FirstWord(OP_OACK, Encode(s.reply.value));
    assert oack + [] == oack;
    EncodedLength(s.reply.value);
    var ack;
    r, ack := c.Handle(Packet(oack, |oack|));
    var data := DataBytes(s, 1);
    DataNumber(s, 1);
    FirstWord(OP_DATA, PutBe16(1) + Block(s, 1));
    assert data == PutBe16(OP_DATA) + (PutBe16(1) + Block(s, 1));
    r, ack := c.Handle(Packet(data, |data|));
    assert s.file[0..s.blk] == s.file[..s.blk];
  }

  lemma EncodedLength(opts: seq<Opt>)
    requires Has(opts, TSIZE)
    ensures |Encode(opts)| >= 2
  {
  }
}
