/** The NPU syscall door of q8b/kernel/bsp/npu_pas.c: PAS lifecycle, FastRPC session, DMA mappings and
    requests in flight.  The DSP, secure monitor, MMIO, TLB and DMA allocator are the environment:
    each of their answers is a parameter, so a contract holds for every way they may answer. */
module NpuTransport {
  import opened Bytes
  import opened Options
  import opened Ownership
  import opened SubmitCheck
  import opened Backing
  import opened Smmu
  import Wire = FastRpcWire

  datatype Rc = Ok | Busy | Unsupported | Invalid | Failed

  const MAX_FW: nat := 0x80_0000
  const MAX_DMA: nat := 0x200_0000
  const META_SIZE: nat := 0x4000
  const NSP0_SPAN: nat := 0x1E0_0000
  const DUMP_CHUNK: nat := 0x10_0000

  datatype Response = Response(ctx: nat, rv: int)

  /** q8b_frpc_map_reply, as decoded from a completed packet. */
  datatype MapReply = MapReply(apAddr: nat, size: nat, dspVaddr: nat)

  /** A GIC sample of the watchdog line; None when the distributor cannot be read. */
  datatype Sample = Sample(pending: bool)

  /** One look at the DSP: the watchdog sample and its own fatal flag. */
  datatype Health = Health(sample: Option<Sample>, fatal: bool)

  // pas_prepared, pas_init_done, pas_mem_done, pas_auth_done
  datatype PasSteps = PasSteps(prepared: bool, init: bool, mem: bool, auth: bool)

  const NO_STEPS := PasSteps(false, false, false, false)

  function Aligned(size: nat): nat { (size + 0xFFF) / PAGE * PAGE }

  /** owned_dma: the caller owns `capacity` bytes at pa. */
  predicate OwnedDma(pa: nat, len: nat, max: nat, capacity: nat) {
    0 < len <= max && pa % PAGE == 0 && len <= capacity
  }

  predicate Matches(m: MapRecord, session: nat, pa: nat, size: nat) {
    m.used && m.session == session && m.pa == pa && size <= m.size
  }

  /** The record an unmap of this address names. */
  predicate Names(m: MapRecord, session: nat, iova: nat, size: nat) {
    m.used && m.session == session && m.iova == iova && size <= m.size
  }

  /** The first matching record from i on. */
  ghost function FirstFrom(maps: seq<MapRecord>, i: nat, session: nat, pa: nat, size: nat): (k: nat)
    requires i <= |maps|
    ensures i <= k <= |maps| && (k < |maps| ==> Matches(maps[k], session, pa, size))
    ensures forall j :: i <= j < k ==> !Matches(maps[j], session, pa, size)
    decreases |maps| - i
  {
    if i == |maps| || Matches(maps[i], session, pa, size) then i else FirstFrom(maps, i + 1, session, pa, size)
  }

  function AfterRelease(m: MapRecord, isStuck: bool): MapRecord {
    if m.used && !isStuck then NO_RECORD else m
  }

  predicate Idle(pending: seq<Pending>) {
    forall k :: 0 <= k < |pending| ==> pending[k].ctx == 0
  }

  /** Contexts, once issued, keep their boot epoch and their snapshot. */
  ghost predicate History(issued: map<nat, nat>, held: map<nat, seq<MapRecord>>,
                          issued': map<nat, nat>, held': map<nat, seq<MapRecord>>)
  {
    && (forall c :: c in issued ==> c in issued' && issued'[c] == issued[c])
    && (forall c :: c in issued && c in held ==> c in held' && held'[c] == held[c])
  }

  lemma HistoryKept(issued: map<nat, nat>, held: map<nat, seq<MapRecord>>)
    ensures History(issued, held, issued, held)
  {
  }

  predicate Answers(r: Response, p: Pending) {
    p.ctx != 0 && p.ctx == r.ctx && !p.done
  }

  /** The request a response answers, if any, becomes done; everything else stays. */
  function Completed(pending: seq<Pending>, r: Response): seq<Pending> {
    seq(|pending|, k requires 0 <= k < |pending| =>
      if Answers(r, pending[k]) then pending[k].(retval := r.rv, done := true) else pending[k])
  }

  /** A batch of responses, in order. */
  function Delivered(pending: seq<Pending>, rs: seq<Response>): seq<Pending> {
    if rs == [] then pending else Completed(Delivered(pending, rs[..|rs| - 1]), rs[|rs| - 1])
  }

  predicate Unfinished(p: Pending) { p.ctx != 0 && !p.done && p.handle != 3 }

  predicate AnyUnfinished(pending: seq<Pending>) {
    exists k :: 0 <= k < |pending| && Unfinished(pending[k])
  }

  /** A slot is free, and none holds this payload. */
  predicate Vacant(pending: seq<Pending>, pa: nat) {
    && (forall k :: 0 <= k < |pending| ==> !(pending[k].ctx != 0 && pending[k].pa == pa))
    && (exists k :: 0 <= k < |pending| && pending[k].ctx == 0)
  }

  lemma VacantSame(before: seq<Pending>, after: seq<Pending>, pa: nat)
    requires |before| == |after| && forall k :: 0 <= k < |before| ==> SameRequest(before[k], after[k])
    ensures Vacant(before, pa) <==> Vacant(after, pa)
  {
  }

  predicate Wanted(p: Pending, pa: nat, size: nat) { p.ctx != 0 && p.pa == pa && p.size == size }

  // A syscall with everything the environment answers while it runs.
  datatype Op =
    | OpMmap(sess: nat, pfn: nat, size: nat, capacity: nat, pinOk: bool, cpu: nat -> bool, tlbi: bool, retry: bool)
    | OpMunmap(sid: nat, iova: nat, size: nat, tlbi: bool, unpinOk: bool)
    | OpSubmit(pa: nat, payload: seq<byte>, capacity: nat, sample: Option<Sample>, remoteFatal: bool,
               early: seq<Response>, intent: bool, late: seq<Response>, sent: bool)
    | OpPoll(pa: nat, size: nat, capacity: nat, sample: Option<Sample>, remoteFatal: bool, rs: seq<Response>,
             reply: Option<MapReply>, release: Option<(nat, nat)>)
    | OpSession(arg: nat, sample: Option<Sample>, remoteFatal: bool, ready: bool, items: bool, opens: bool,
                rs: seq<Response>, again: Health, againReady: bool, intent: bool, probe: bool, bits: nat,
                cpu: nat -> bool, setup: bool, hw: bool)
    | OpClose(arg: nat, hw: bool, stuck: set<nat>)
    | OpInit(pa: nat, size: nat, capacity: nat, sample: Option<Sample>, power: bool, scm: bool)
    | OpMem(argsOk: bool, scm: bool)
    | OpAuth(argsOk: bool, scm: bool, sample: Option<Sample>, remoteFatal: bool, ready: bool,
             items: bool, opens: bool, rs: seq<Response>)
    | OpBoot(owned: bool, image: bool, metaFits: bool, sample: Option<Sample>, power: bool, calls: (bool, bool, bool),
             stage: bool, later: Option<Sample>, remoteFatal: bool, ready: bool, items: bool, opens: bool,
             rs: seq<Response>)
    | OpStop(sample: Option<Sample>, remoteFatal: bool, rs: seq<Response>, during: Option<Health>, sysmon: bool,
             last: Option<Health>, stopAck: bool, scm: bool, hw: bool, stuck: set<nat>, power: bool)
    | OpStatus(sample: Option<Sample>, remoteFatal: bool)
    | OpSmmuCheck(probe: bool, bits: nat, cpu: nat -> bool, setup: bool, hw: bool, hwStop: bool)
    | OpDump(pa: nat, offset: nat, size: nat, capacity: nat)

  predicate OpOk(op: Op) {
    && (op.OpMmap? ==> op.size <= Wire.UINT32_MAX)
    && (op.OpSession? || op.OpSmmuCheck? ==> op.bits in {32, 36, 40, 42, 44, 48})
  }

  // The operations the recovery latch refuses outright.
  predicate Restarts(op: Op) {
    op.OpInit? || op.OpMem? || op.OpAuth? || op.OpBoot? || op.OpSession? || op.OpSubmit?
  }

  predicate RequestOp(op: Op) { op.OpSubmit? || op.OpPoll? }

  predicate StartOp(op: Op) { op.OpInit? || op.OpMem? || op.OpAuth? || op.OpBoot? }

  /** An accepted request stays as it is until POLL consumes it or the DSP is shut down. */
  predicate StaysAccepted(before: Pending, after: Pending, op: Op, stopped: bool) {
    before.ctx != 0 ==>
      SameRequest(before, after) || (op.OpPoll? && op.pa == before.pa && after == NO_REQUEST) || (op.OpStop? && stopped)
  }

  /** The step's own failure: an unmap of the record's address, or the mapping of its buffer. */
  predicate Unbacks(op: Op, rc: Rc, m: MapRecord) {
    rc == Failed && ((op.OpMunmap? && op.iova == m.iova) || (op.OpMmap? && op.pfn * PAGE == m.pa))
  }

  // Record m, in slot j, was already unbacked.
  ghost predicate MarkKept(maps: seq<MapRecord>, unbacked: set<nat>, j: nat, m: MapRecord) {
    j in unbacked && j < |maps| && SameWindow(maps[j], m)
  }

  ghost predicate MarksKept(maps: seq<MapRecord>, unbacked: set<nat>, maps': seq<MapRecord>, unbacked': set<nat>) {
    forall j :: 0 <= j < |maps'| && j in unbacked' ==> MarkKept(maps, unbacked, j, maps'[j])
  }

  /** A record is unbacked after a step only if it was before, or the step failed on it. */
  ghost predicate MarksFrom(op: Op, rc: Rc, maps: seq<MapRecord>, unbacked: set<nat>,
                            maps': seq<MapRecord>, unbacked': set<nat>)
  {
    forall j :: 0 <= j < |maps'| && j in unbacked' ==>
      MarkKept(maps, unbacked, j, maps'[j]) || Unbacks(op, rc, maps'[j])
  }

  /** A record is unbacked after a run only if it was before, or some call of the run failed on it. */
  ghost predicate MarksRun(ops: seq<Op>, rcs: seq<Rc>, maps: seq<MapRecord>, unbacked: set<nat>,
                           maps': seq<MapRecord>, unbacked': set<nat>)
  {
    forall j :: 0 <= j < |maps'| && j in unbacked' ==>
      || MarkKept(maps, unbacked, j, maps'[j])
      || exists i :: 0 <= i < |rcs| && i < |ops| && Unbacks(ops[i], rcs[i], maps'[j])
  }

  lemma MarksStart(ops: seq<Op>, maps: seq<MapRecord>, unbacked: set<nat>)
    ensures MarksRun(ops, [], maps, unbacked, maps, unbacked)
  {
  }

  lemma MarksOn(ops: seq<Op>, rcs: seq<Rc>, rc: Rc, m0: seq<MapRecord>, u0: set<nat>, m1: seq<MapRecord>, u1: set<nat>,
                m2: seq<MapRecord>, u2: set<nat>)
    requires |rcs| < |ops| && MarksRun(ops, rcs, m0, u0, m1, u1) && MarksFrom(ops[|rcs|], rc, m1, u1, m2, u2)
    ensures MarksRun(ops, rcs + [rc], m0, u0, m2, u2)
  {
    var rcs' := rcs + [rc];
    forall j | 0 <= j < |m2| && j in u2 && !MarkKept(m0, u0, j, m2[j])
      ensures exists i :: 0 <= i < |rcs'| && i < |ops| && Unbacks(ops[i], rcs'[i], m2[j])
    {
      if Unbacks(ops[|rcs|], rc, m2[j]) {
        assert Unbacks(ops[|rcs|], rcs'[|rcs|], m2[j]);
      } else {
        assert MarkKept(m1, u1, j, m2[j]);
        assert !MarkKept(m0, u0, j, m1[j]);
        var i :| 0 <= i < |rcs| && i < |ops| && Unbacks(ops[i], rcs[i], m1[j]);
        assert Unbacks(ops[i], rcs'[i], m2[j]);
      }
    }
  }

  // A request that was kept holds the windows it held.
  lemma SameWindows(p: Pending, maps: seq<MapRecord>, held: map<nat, seq<MapRecord>>, p': Pending,
                    maps': seq<MapRecord>, held': map<nat, seq<MapRecord>>)
    requires Holds(p, maps, held) && Holds(p', maps', held') && SameRequest(p, p') && held'[p.ctx] == held[p.ctx]
    ensures forall j :: j in p.maps ==> j < MAP_MAX && SameWindow(maps[j], maps'[j])
  {
  }

  lemma MarksSame(op: Op, maps: seq<MapRecord>, unbacked: set<nat>)
    ensures forall rc :: MarksFrom(op, rc, maps, unbacked, maps, unbacked)
  {
  }

  lemma NoneMarked(op: Op, rc: Rc, maps: seq<MapRecord>, unbacked: set<nat>, maps': seq<MapRecord>,
                   unbacked': set<nat>)
    requires MarksKept(maps, unbacked, maps', unbacked')
    ensures MarksFrom(op, rc, maps, unbacked, maps', unbacked')
  {
  }

  // Only record i is touched, and if it is marked the step has a reason.
  lemma OneMarked(op: Op, rc: Rc, maps: seq<MapRecord>, unbacked: set<nat>, maps': seq<MapRecord>,
                  unbacked': set<nat>, i: nat)
    requires i < |maps| && |maps'| == |maps| && maps' == maps[i := maps'[i]] && unbacked' <= unbacked + {i}
    requires i in unbacked' ==> MarkKept(maps, unbacked, i, maps'[i]) || Unbacks(op, rc, maps'[i])
    ensures MarksFrom(op, rc, maps, unbacked, maps', unbacked')
  {
  }

  lemma WindowsMarked(op: Op, rc: Rc, maps: seq<MapRecord>, unbacked: set<nat>, maps': seq<MapRecord>)
    requires |maps'| == |maps| && forall i :: 0 <= i < |maps| ==> SameWindow(maps[i], maps'[i])
    ensures MarksFrom(op, rc, maps, unbacked, maps', unbacked)
  {
  }

  lemma IdleHoldsNothing(pending: seq<Pending>)
    requires Idle(pending)
    ensures forall j :: !InFlight(pending, j)
  {
  }

  /** The watchdog line, once armed, is seen pending. */
  predicate Barks(armed: bool, sample: Option<Sample>) { armed && sample.Some? && sample.value.pending }

  // Whether the FastRPC channel is open after glink_ping, where the edge and the channel were as given.
  predicate ChannelUp(glinkReady: bool, channelOpen: bool, items: bool, opens: bool) {
    if glinkReady then channelOpen || opens else if items then opens else channelOpen
  }

  predicate Cursor(iova: nat) { IOVA_BASE <= iova <= IOVA_TOP && iova % PAGE == 0 }

  class Transport {
    const smmu: Tables
    const hostVa: nat -> nat // dma_v_addr

    var recovery: bool
    var booted: bool
    var steps: PasSteps
    var dumpAvailable: bool
    var armed: bool
    var tripped: bool

    var session: nat
    var pd: nat
    var sequence: nat
    var maps: seq<MapRecord>
    var nextIova: nat
    var glinkReady: bool
    var channelOpen: bool
    var pending: seq<Pending>

    var pins: multiset<nat> // dma_pin counts, per buffer

    ghost var held: map<nat, seq<MapRecord>>  // ctx -> ownership table when it was accepted
    ghost var issuedAt: map<nat, nat>         // ctx -> boot epoch it was issued in
    ghost var epoch: nat                      // successful secure shutdowns so far
    ghost var pasCalls: nat                   // PAS init, mem-setup and auth calls made
    ghost var callsAtStop: nat                // pasCalls at the last successful shutdown
    ghost var unbacked: set<nat>              // used records without translation

    ghost predicate Valid()
      reads this, smmu, smmu.mem, smmu.l2, smmu.l3
    {
      Tracked() && CursorOk()
    }

    // All of it but the allocation cursor, which lags behind while a record is being published.
    ghost predicate Tracked()
      reads `maps, `pins, `pending, `held, `sequence, `issuedAt, `epoch, `booted, `glinkReady, `tripped, `recovery,
            `pasCalls, `callsAtStop, `dumpAvailable, `steps, smmu, smmu.mem, smmu.l2, smmu.l3
    {
      && smmu.Valid()
      && Owns(maps, smmu.tlb, pins)
      && Retained(pending, maps, held)
      && ContextsOk() && LifecycleOk()
      && (Idle(pending) || smmu.ready)
    }

    /** How session, records and translation agree, beside Valid(). */
    ghost predicate Consistent()
      reads `maps, `unbacked, `session, `booted, `recovery, smmu
    {
      Coherent(maps, smmu.flat, unbacked, smmu.ready, session, booted, recovery)
    }

    ghost predicate CursorOk()
      reads `nextIova, `recovery, `maps
    {
      && Cursor(nextIova)
      && (!recovery ==> BelowCursor(maps, nextIova))
    }

    // Contexts are never reused, and what is pending belongs to this boot.
    ghost predicate ContextsOk()
      reads `sequence, `issuedAt, `epoch, `pending, `booted, `glinkReady
    {
      && sequence <= Wire.UINT32_MAX && |issuedAt| == sequence
      && (forall c :: c in issuedAt ==> 1 <= c / 16 <= sequence && issuedAt[c] <= epoch)
      && (forall k :: 0 <= k < |pending| && pending[k].ctx != 0 ==>
            pending[k].ctx in issuedAt && issuedAt[pending[k].ctx] == epoch && booted && glinkReady)
    }

    ghost predicate LifecycleOk()
      reads `tripped, `recovery, `pasCalls, `callsAtStop, `dumpAvailable, `epoch, `steps
    {
      && (tripped ==> recovery)
      && callsAtStop <= pasCalls
      && (dumpAvailable ==> epoch > 0 && pasCalls == callsAtStop)
      && (steps.init || steps.mem ==> pasCalls > callsAtStop)
    }

    constructor (tables: Tables, va: nat -> nat)
      requires tables.Valid() && tables.tlb == {} && !tables.ready
      ensures Valid() && Consistent() && smmu == tables && hostVa == va
      ensures !recovery && !booted && !dumpAvailable && session == 0 && pasCalls == 0 && epoch == 0
    {
      smmu, hostVa := tables, va;
      recovery, booted, steps := false, false, NO_STEPS;
      dumpAvailable, armed, tripped := false, false, false;
      session, pd, sequence, nextIova := 0, 0, 0, IOVA_BASE;
      glinkReady, channelOpen := false, false;
      maps := seq(MAP_MAX, _ => NO_RECORD);
      pending := NO_REQUESTS;
      pins, held, issuedAt, epoch, pasCalls, callsAtStop, unbacked := multiset{}, map[], map[], 0, 0, 0, {};
      NoPins(seq(MAP_MAX, _ => NO_RECORD));
    }

    static lemma {:induction false} NoPins(maps: seq<MapRecord>)
      requires forall i :: 0 <= i < |maps| ==> !maps[i].used
      ensures PinsOf(maps) == multiset{}
    {
      if maps != [] {
        NoPins(maps[..|maps| - 1]);
      }
    }

    // npu_frpc_map_lookup: the first matching slot, MAP_MAX if there is none.
    method FindMapping(sess: nat, pa: nat, size: nat) returns (i: nat)
      requires |maps| == MAP_MAX
      ensures i <= MAP_MAX && (i < MAP_MAX ==> Matches(maps[i], sess, pa, size))
      ensures forall j :: 0 <= j < i ==> !Matches(maps[j], sess, pa, size)
    {
      i := 0;
      while i < MAP_MAX && !Matches(maps[i], sess, pa, size)
        invariant i <= MAP_MAX && forall j :: 0 <= j < i ==> !Matches(maps[j], sess, pa, size)
      {
        i := i + 1;
      }
    }

    method FindFree() returns (i: nat)
      requires |maps| == MAP_MAX
      ensures i <= MAP_MAX && (i < MAP_MAX ==> !maps[i].used)
      ensures forall j :: 0 <= j < i ==> maps[j].used
    {
      i := 0;
      while i < MAP_MAX && maps[i].used
        invariant i <= MAP_MAX && forall j :: 0 <= j < i ==> maps[j].used
      {
        i := i + 1;
      }
    }

    // The checks of npu_frpc_map on its arguments.
    ghost predicate Admissible(sess: nat, pfn: nat, size: nat, capacity: nat)
      reads `recovery, `session, smmu
    {
      && !recovery && smmu.ready && sess == session && size != 0
      && Aligned(size) <= Wire.UINT32_MAX && OwnedDma(pfn * PAGE, Aligned(size), MAX_DMA, capacity)
    }

    ghost function FirstMatch(sess: nat, pfn: nat, size: nat): (i: nat)
      requires |maps| == MAP_MAX
      reads `maps
      ensures i <= MAP_MAX && (i < MAP_MAX ==> Matches(maps[i], sess, pfn * PAGE, size))
      ensures forall j :: 0 <= j < i ==> !Matches(maps[j], sess, pfn * PAGE, size)
    {
      FirstFrom(maps, 0, sess, pfn * PAGE, size)
    }

    /** npu_frpc_map.  A new buffer is pinned and recorded before it is published; a failed publish
        keeps both and latches recovery. */
    method Mmap(sess: nat, pfn: nat, size: nat, capacity: nat, pinOk: bool, cpu: nat -> bool, tlbi: bool, retry: bool)
      returns (rc: Rc, devaddr: nat, ghost slot: nat)
      requires Valid() && Consistent() && size <= Wire.UINT32_MAX
      modifies this`recovery, this`maps, this`nextIova, this`pins, this`unbacked, smmu, smmu.mem, smmu.l2, smmu.l3
      ensures Valid() && Consistent()
      ensures old(recovery) ==> rc == Unsupported && recovery
      ensures slot < MAP_MAX && maps == old(maps)[slot := maps[slot]]
      ensures smmu.ready == old(smmu.ready) && smmu.paBits == old(smmu.paBits)
      ensures rc == Ok ==> (Translated(maps[slot], smmu.flat) <==> slot !in unbacked)
      ensures rc == Ok ==> Matches(maps[slot], session, pfn * PAGE, size) && sess == session
                           && devaddr == DevAddr(maps[slot].iova) && recovery == old(recovery)
      ensures rc == Ok && old(maps)[slot].used ==>
                && maps[slot] == old(maps)[slot].(refs := old(maps)[slot].refs + 1)
                && unchanged(`nextIova, `pins) && smmu.flat == old(smmu.flat) && smmu.tlb == old(smmu.tlb)
      ensures rc == Ok && !old(maps)[slot].used ==>
                && maps[slot] == MapRecord(true, pfn * PAGE, Aligned(size), old(nextIova), 0, sess, 1)
                && nextIova == old(nextIova) + Aligned(size) && pins == old(pins) + multiset{pfn * PAGE}
                && smmu.flat == old(smmu.flat) + RangeMap(old(nextIova) / PAGE, pfn, Pages(size))
      ensures rc != Ok ==> smmu.flat == old(smmu.flat) && nextIova == old(nextIova)
      ensures rc != Ok && recovery == old(recovery) ==> unchanged(`maps, `pins) && smmu.tlb == old(smmu.tlb)
      ensures rc == Ok ==> old(Admissible(sess, pfn, size, capacity))
      ensures old(Admissible(sess, pfn, size, capacity) && FirstMatch(sess, pfn, size) < MAP_MAX) ==>
                var m := old(maps)[old(FirstMatch(sess, pfn, size))];
                if m.refs == Wire.UINT32_MAX then rc == Busy else rc == Ok && slot == old(FirstMatch(sess, pfn, size))
      ensures old(Admissible(sess, pfn, size, capacity) && FirstMatch(sess, pfn, size) == MAP_MAX) ==>
                if Aligned(size) > IOVA_TOP - old(nextIova) then rc == Failed
                else if forall i :: 0 <= i < MAP_MAX ==> old(maps)[i].used then rc == Busy
                else if !pinOk then rc == Unsupported
                else && rc in {Ok, Failed} && !old(maps)[slot].used && maps[slot].used && (recovery <==> rc == Failed)
                     && (rc == Ok ==> tlbi && pfn * PAGE + Aligned(size) <= Pow2(smmu.paBits))
                     && (Room(old(smmu.free), smmu.paBits, cpu, 2 * Pages(size)) ==>
                           (rc == Ok <==> tlbi && pfn * PAGE + Aligned(size) <= Pow2(smmu.paBits)))
      ensures rc != Ok && recovery != old(recovery) ==>
                && rc == Failed && slot !in old(unbacked) && !InFlight(pending, slot)
                && !old(maps)[slot].used && pins == old(pins) + multiset{pfn * PAGE}
                && maps[slot] == MapRecord(true, pfn * PAGE, Aligned(size), old(nextIova), 0, sess, 1)
      ensures unbacked == if rc != Ok && recovery != old(recovery) then old(unbacked) + {slot} else old(unbacked)
      ensures rc == Ok && !old(maps)[slot].used ==> slot !in unbacked
    {
      hide Transport.Tracked, CursorOk, RangeMap, Coherent, Room, Pow2, Translated, InFlight, Aligned, Pages, OwnedDma;
      Rounding(pfn, size);
      Sized();
      devaddr, slot := 0, 0;
      if recovery || !smmu.ready || sess != session || size == 0 {
        return Unsupported, 0, 0;
      }
      var pa, aligned := pfn * PAGE, Aligned(size);
      if aligned > Wire.UINT32_MAX || !OwnedDma(pa, aligned, MAX_DMA, capacity) {
        return Invalid, 0, 0;
      }
      var i := FindMapping(sess, pa, size);
      if i < MAP_MAX {
        if maps[i].refs == Wire.UINT32_MAX {
          return Busy, 0, 0;
        }
        Touch(i, maps[i].(refs := maps[i].refs + 1));
        Recounted(old(maps), i, maps[i]);
        BackedRecord(i);
        return Ok, DevAddr(maps[i].iova), i;
      }
      if aligned > IOVA_TOP - nextIova {
        return Failed, 0, 0;
      }
      i := FindFree();
      if i == MAP_MAX {
        return Busy, 0, 0;
      }
      if !pinOk {
        return Unsupported, 0, 0;
      }
      slot := i;
      rc := Publish(i, pa, aligned, sess, cpu, tlbi, retry);
      if rc == Ok {
        devaddr := DevAddr(maps[i].iova);
        BackedRecord(i);
      }
    }

    lemma BackedRecord(i: nat)
      requires Valid() && Consistent() && smmu.ready && i < MAP_MAX && maps[i].used
      ensures Translated(maps[i], smmu.flat) <==> i !in unbacked
    {
      Sized();
      BackedExactly(maps, smmu.flat, unbacked, i);
    }

    static lemma Rounding(pfn: nat, size: nat)
      ensures pfn * PAGE % PAGE == 0 && pfn * PAGE / PAGE == pfn
      ensures Aligned(size) % PAGE == 0 && Aligned(size) / PAGE == Pages(size) && (size > 0 ==> 0 < size <= Aligned(size))
    {
    }

    // A reference count says nothing about translation or DSP addresses.
    lemma Recounted(before: seq<MapRecord>, i: nat, r: MapRecord)
      requires Coherent(before, smmu.flat, unbacked, smmu.ready, session, booted, recovery)
      requires i < |before| && r == before[i].(refs := r.refs)
      ensures Coherent(before[i := r], smmu.flat, unbacked, smmu.ready, session, booted, recovery)
    {
      CoherentTouch(before, smmu.flat, unbacked, smmu.ready, session, booted, recovery, i, r);
    }

    lemma Sized()
      requires Valid()
      ensures |maps| == MAP_MAX && |pending| == PENDING_MAX
      ensures forall i :: 0 <= i < MAP_MAX ==> RecordOk(maps[i])
    {
    }

    // Change a reference count or DSP address of one record.
    method Touch(i: nat, r: MapRecord)
      requires Valid() && i < MAP_MAX && SameWindow(maps[i], r) && RecordOk(r)
      modifies this`maps
      ensures Valid() && maps == old(maps)[i := r]
    {
      hide Tables.Valid, Owns, Retained, ContextsOk, LifecycleOk;
      Sized();
      RecordTouched(maps, smmu.tlb, pins, i, r);
      RetainedUpdate(pending, maps, held, i, r);
      maps := maps[i := r];
    }

    // Pin and record a buffer in the free slot i, then publish it; until that is done the record is unbacked.
    method Publish(i: nat, pa: nat, aligned: nat, sess: nat, cpu: nat -> bool, tlbi: bool, retry: bool)
      returns (rc: Rc)
      requires Valid() && Consistent() && !recovery && smmu.ready && i < MAP_MAX && !maps[i].used
      requires pa % PAGE == 0 && aligned % PAGE == 0 && 0 < aligned <= IOVA_TOP - nextIova
      modifies this`recovery, this`maps, this`nextIova, this`pins, this`unbacked, smmu, smmu.mem, smmu.l2, smmu.l3
      ensures Valid() && Consistent() && rc in {Ok, Failed} && i !in old(unbacked) && !InFlight(pending, i)
      ensures unbacked == if rc == Ok then old(unbacked) else old(unbacked) + {i}
      ensures smmu.ready && smmu.paBits == old(smmu.paBits)
      ensures rc == Ok ==> tlbi && pa + aligned <= Pow2(smmu.paBits)
      ensures Room(old(smmu.free), smmu.paBits, cpu, 2 * (aligned / PAGE)) && tlbi
              && pa + aligned <= Pow2(smmu.paBits) ==>
                rc == Ok
      ensures maps == old(maps)[i := MapRecord(true, pa, aligned, old(nextIova), 0, sess, 1)]
      ensures pins == old(pins) + multiset{pa} && (recovery <==> rc != Ok)
      ensures nextIova == if rc == Ok then old(nextIova) + aligned else old(nextIova)
      ensures smmu.flat == if rc == Ok then old(smmu.flat) + RangeMap(old(nextIova) / PAGE, pa / PAGE, aligned / PAGE)
                           else old(smmu.flat)
    {
      hide Transport.Tracked, RangeMap, RangeKeys, Coherent, Room, Pow2, InFlight, BelowCursor, Cursor, RecordOk;
      Sized();
      var r := MapRecord(true, pa, aligned, nextIova, 0, sess, 1);
      Enter(i, r);
      var mapped := MapRecorded(i, cpu, tlbi, retry);
      if !mapped {
        KeepUnpublished();
        return Failed;
      }
      nextIova := nextIova + aligned;
      return Ok;
    }

    // dma_pin succeeded: the record goes in.
    method Enter(i: nat, r: MapRecord)
      requires Valid() && Consistent() && !recovery && smmu.ready && i < MAP_MAX && !maps[i].used
      requires r.used && r.refs == 1 && r.dspVaddr == 0 && r.iova == nextIova
      requires r.pa % PAGE == 0 && r.size % PAGE == 0 && 0 < r.size <= IOVA_TOP - nextIova
      modifies this`maps, this`pins, this`unbacked
      ensures Tracked() && Consistent() && |maps| == MAP_MAX && i !in old(unbacked) && !InFlight(pending, i)
      ensures maps == old(maps)[i := r] && pins == old(pins) + multiset{r.pa} && unbacked == old(unbacked) + {i}
      ensures RangeKeys(r.iova / PAGE, r.size / PAGE) !! smmu.flat.Keys
      ensures RecordOk(r) && Cursor(r.iova) && Cursor(r.iova + r.size) && BelowCursor(maps, r.iova + r.size)
    {
      hide Tables.Valid, Owns, Retained, ContextsOk, LifecycleOk, RangeKeys, Coherent, InFlight, Idle, BelowCursor,
           Cursor, RecordOk;
      Entered(i, r);
      maps, pins, unbacked := maps[i := r], pins + multiset{r.pa}, unbacked + {i};
    }

    // The record and its pin stay until full teardown.
    method KeepUnpublished()
      requires Tracked() && Consistent() && Cursor(nextIova)
      modifies this`recovery
      ensures Valid() && Consistent() && recovery
    {
      hide Tables.Valid, Owns, Retained, ContextsOk, Coherent, Idle, Cursor, BelowCursor;
      CoherentLater(maps, smmu.flat, unbacked, smmu.ready, session, booted, recovery, booted, true);
      recovery := true;
    }

    // q8b_npu_smmu_map of a buffer that is pinned and recorded: the device reaches nothing that is not.
    method MapRecorded(i: nat, cpu: nat -> bool, tlbi: bool, retry: bool) returns (mapped: bool)
      requires Tracked() && Consistent() && smmu.ready
      requires i < |maps| == MAP_MAX && maps[i].used && RecordOk(maps[i])
      requires RangeKeys(maps[i].iova / PAGE, maps[i].size / PAGE) !! smmu.flat.Keys
      modifies this`unbacked, smmu, smmu.mem, smmu.l2, smmu.l3
      ensures Tracked() && Consistent()
      ensures smmu.ready && smmu.paBits == old(smmu.paBits)
      ensures unbacked == if mapped then old(unbacked) - {i} else old(unbacked)
      ensures var m := maps[i];
              && smmu.flat == (if mapped then old(smmu.flat) + RangeMap(m.iova / PAGE, m.pa / PAGE, m.size / PAGE)
                               else old(smmu.flat))
              && (mapped ==> tlbi && m.pa + m.size <= Pow2(smmu.paBits))
              && (Room(old(smmu.free), smmu.paBits, cpu, 2 * (m.size / PAGE)) && tlbi
                  && m.pa + m.size <= Pow2(smmu.paBits) ==>
                    mapped)
    {
      hide Tables.Valid, Owns, Retained, ContextsOk, LifecycleOk, Idle, RangeMap, RangeKeys, Live, Coherent, Room, Pow2,
           Pages, MapArgsOk;
      var m := maps[i];
      PageArgs(m.pa, m.iova, m.size, smmu.paBits);
      mapped := smmu.Map(m.pa, m.iova, m.size, cpu, tlbi, retry);
      RecordReached(maps, old(smmu.tlb), pins, i, smmu.tlb);
      if mapped {
        CoherentPublish(maps, old(smmu.flat), unbacked, session, booted, recovery, i, smmu.tlb, pins);
        unbacked := unbacked - {i};
      }
    }

    // The SMMU asks of whole pages below the top of the IOVA window only that the output address size reaches them.
    static lemma PageArgs(pa: nat, iova: nat, size: nat, bits: nat)
      requires pa % PAGE == 0 && iova % PAGE == 0 && size % PAGE == 0 && 0 < size && iova + size <= IOVA_TOP
      ensures Pages(size) == size / PAGE && (MapArgsOk(bits, pa, iova, size) <==> pa + size <= Pow2(bits))
    {
      hide Pow2;
    }

    // A pinned buffer may be recorded, unbacked, in a free slot above the cursor.
    lemma Entered(i: nat, r: MapRecord)
      requires Valid() && Consistent() && !recovery && smmu.ready && i < MAP_MAX && !maps[i].used
      requires r.used && r.refs == 1 && r.dspVaddr == 0 && r.iova == nextIova
      requires r.pa % PAGE == 0 && r.size % PAGE == 0 && 0 < r.size <= IOVA_TOP - nextIova
      ensures Owns(maps[i := r], smmu.tlb, pins + multiset{r.pa}) && Retained(pending, maps[i := r], held)
      ensures Coherent(maps[i := r], smmu.flat, unbacked + {i}, true, session, booted, recovery) && i !in unbacked
      ensures RangeKeys(r.iova / PAGE, r.size / PAGE) !! smmu.flat.Keys && !InFlight(pending, i)
      ensures |maps| == MAP_MAX && RecordOk(r) && Cursor(r.iova) && Cursor(r.iova + r.size)
      ensures BelowCursor(maps[i := r], r.iova + r.size)
    {
      hide Tables.Valid, Owns, Retained, ContextsOk, LifecycleOk, Live, Coherent, Untranslated, InFlight, Idle,
           RangeKeys;
      Sized();
      FreeSlotNotHeld(i);
      Fresh(r);
      RecordAdded(maps, smmu.tlb, pins, i, r);
      RetainedUpdate(pending, maps, held, i, r);
      CoherentAdd(maps, smmu.flat, unbacked, session, booted, recovery, i, r);
    }

    // A record above the cursor meets no live page.
    lemma Fresh(r: MapRecord)
      requires Valid() && r.used && RecordOk(r) && BelowCursor(maps, r.iova)
      ensures RangeKeys(r.iova / PAGE, r.size / PAGE) !! smmu.flat.Keys && Untranslated(r, smmu.flat)
    {
      forall v | v in smmu.flat
        ensures !InRange(v, r.iova / PAGE, r.size / PAGE)
      {
        assert CoveredBy(maps, (v, smmu.flat[v]).0, (v, smmu.flat[v]).1);
        var j :| 0 <= j < |maps| && Translates(maps[j], v, smmu.flat[v]);
        assert RecordOk(maps[j]);
      }
    }

    lemma FreeSlotNotHeld(i: nat)
      requires Valid() && i < MAP_MAX && !maps[i].used
      ensures !InFlight(pending, i)
    {
      forall k | 0 <= k < |pending| && pending[k].ctx != 0
        ensures i !in pending[k].maps
      {
        assert Holds(pending[k], maps, held);
      }
    }

    // npu_frpc_map_in_flight
    method MapInFlight(i: nat) returns (busy: bool)
      requires |pending| == PENDING_MAX
      ensures busy <==> InFlight(pending, i)
    {
      for j := 0 to PENDING_MAX
        invariant forall k :: 0 <= k < j ==> !(pending[k].ctx != 0 && i in pending[k].maps)
      {
        if pending[j].ctx != 0 && i in pending[j].maps {
          return true;
        }
      }
      return false;
    }

    method AnyUsed() returns (any: bool)
      requires |maps| == MAP_MAX
      ensures any <==> exists i :: 0 <= i < MAP_MAX && maps[i].used
    {
      for j := 0 to MAP_MAX
        invariant forall i :: 0 <= i < j ==> !maps[i].used
      {
        if maps[j].used {
          return true;
        }
      }
      return false;
    }

    /** npu_frpc_unmap.  The last reference is dropped only when no accepted request holds the record,
        its pages are out of the device's reach and the pin is released. */
    method Munmap(sid: nat, iova: nat, size: nat, tlbi: bool, unpinOk: bool) returns (rc: Rc, ghost slot: nat)
      requires Valid() && Consistent()
      modifies this`recovery, this`maps, this`nextIova, this`pins, this`unbacked, smmu, smmu.mem, smmu.l2, smmu.l3
      ensures Valid() && Consistent() && (old(recovery) ==> recovery)
      ensures slot < MAP_MAX && maps == old(maps)[slot := maps[slot]]
      ensures rc == Failed ==>
                var keys := RangeKeys(iova / PAGE, old(maps)[slot].size / PAGE);
                if keys <= old(smmu.flat).Keys
                then smmu.flat == old(smmu.flat) - keys && unbacked == old(unbacked) + {slot}
                     && !InFlight(pending, slot)
                else smmu.flat == old(smmu.flat) && unbacked == old(unbacked)
      ensures rc == Ok ==> unbacked == if old(maps)[slot].refs > 1 then old(unbacked) else old(unbacked) - {slot}
      ensures rc in {Busy, Invalid, Unsupported} ==> unbacked == old(unbacked)
      ensures rc == Failed ==> slot in unbacked
      ensures rc == Ok ==>
                && var m := old(maps)[slot];
                && m.used && m.session == session != 0 && m.iova == iova && size <= m.size && recovery == old(recovery)
                && if m.refs > 1
                   then && maps[slot] == m.(refs := m.refs - 1) && unchanged(`pins, `nextIova)
                        && smmu.flat == old(smmu.flat) && smmu.tlb == old(smmu.tlb)
                   else && !maps[slot].used && !InFlight(pending, slot) && pins == old(pins) - multiset{m.pa}
                        && smmu.flat == old(smmu.flat) - RangeKeys(iova / PAGE, m.size / PAGE)
                        && smmu.tlb == Live(smmu.flat)
                        && nextIova == (if NoneUsed(maps) then IOVA_BASE else old(nextIova))
      ensures rc != Ok ==> unchanged(`maps, `pins, `nextIova)
      ensures var known := old(smmu.ready) && sid == SID && size != 0 && session != 0;
              && (rc == Unsupported <==> !known)
              && (rc == Invalid <==> known && forall i :: 0 <= i < MAP_MAX ==>
                  !Names(old(maps)[i], session, iova, size))
              && (known && rc != Invalid ==>
                    && Names(old(maps)[slot], session, iova, size)
                    && forall i :: 0 <= i < slot ==> !Names(old(maps)[i], session, iova, size))
              && (rc == Busy <==> known && rc != Invalid && old(maps)[slot].refs == 1 && InFlight(pending, slot))
              && (known && rc != Invalid && old(maps)[slot].refs > 1 ==> rc == Ok)
      ensures rc == Failed && tlbi && unpinOk ==>
                !(RangeKeys(iova / PAGE, old(maps)[slot].size / PAGE) <= old(smmu.flat).Keys)
      ensures rc == Ok && old(maps)[slot].refs == 1 ==> tlbi && unpinOk
      ensures smmu.ready == old(smmu.ready) && (!tlbi || unpinOk ==> recovery == old(recovery))
      ensures rc in {Busy, Invalid, Unsupported} ==>
                unchanged(`recovery) && smmu.flat == old(smmu.flat) && smmu.tlb == old(smmu.tlb)
    {
      hide Tables.Valid, Owns, Retained, ContextsOk, RangeKeys, Live, Coherent;
      Sized();
      slot := 0;
      if !smmu.ready || sid != SID || size == 0 || session == 0 {
        return Unsupported, 0;
      }
      var i := 0;
      while i < MAP_MAX && !Names(maps[i], session, iova, size)
        invariant i <= MAP_MAX && forall j :: 0 <= j < i ==> !Names(maps[j], session, iova, size)
      {
        i := i + 1;
      }
      if i == MAP_MAX {
        return Invalid, 0;
      }
      slot := i;
      var m := maps[i];
      var busy := MapInFlight(i);
      if m.refs == 1 && busy {
        return Busy, i;
      }
      if m.refs > 1 {
        Touch(i, m.(refs := m.refs - 1));
        Recounted(old(maps), i, maps[i]);
        return Ok, i;
      }
      if i !in unbacked {
        ClearedIfBacked(i);
      }
      rc := Retire(i, tlbi, unpinOk);
    }

    // Only an unbacked record's unmap is refused by the SMMU.
    lemma ClearedIfBacked(i: nat)
      requires Consistent() && smmu.ready && i < |maps| && maps[i].used && i !in unbacked
      ensures RangeKeys(maps[i].iova / PAGE, maps[i].size / PAGE) <= smmu.flat.Keys
    {
      assert BackedAt(maps[i], smmu.flat, i in unbacked);
    }

    /** The last unmap: unpublish record i, then give up its pin.  Any failure keeps the record; one that comes
        after its pages were cleared leaves it unbacked. */
    method Retire(i: nat, tlbi: bool, unpinOk: bool) returns (rc: Rc)
      requires Valid() && Consistent() && smmu.ready && i < MAP_MAX && maps[i].used && !InFlight(pending, i)
      modifies this`recovery, this`maps, this`nextIova, this`pins, this`unbacked, smmu, smmu.mem, smmu.l2, smmu.l3
      ensures Valid() && Consistent() && rc in {Ok, Failed} && smmu.ready
      ensures var keys := RangeKeys(old(maps)[i].iova / PAGE, old(maps)[i].size / PAGE);
              var cleared := keys <= old(smmu.flat).Keys;
              && (rc == Ok <==> cleared && tlbi && unpinOk)
              && smmu.flat == (if cleared then old(smmu.flat) - keys else old(smmu.flat))
              && unbacked == (if rc == Ok then old(unbacked) - {i} else if cleared then old(unbacked) + {i}
                  else old(unbacked))
              && (recovery <==> old(recovery) || (cleared && tlbi && !unpinOk))
      ensures rc == Ok ==>
                && maps == old(maps)[i := old(maps)[i].(used := false, refs := 0)]
                && pins == old(pins) - multiset{old(maps)[i].pa} && smmu.tlb == Live(smmu.flat)
                && nextIova == if NoneUsed(maps) then IOVA_BASE else old(nextIova)
      ensures rc != Ok ==> unchanged(`maps, `pins, `nextIova)
    {
      hide Tables.Valid, Owns, Retained, ContextsOk, RangeKeys, Live, InRange, Coherent;
      Sized();
      Records();
      var m := maps[i];
      ghost var cleared := RangeKeys(m.iova / PAGE, m.size / PAGE) <= smmu.flat.Keys;
      var unmapped := smmu.Unmap(m.iova, m.size, tlbi);
      ReachShrinks(maps, old(smmu.tlb), pins, smmu.tlb);
      if cleared {
        CoherentClear(maps, old(smmu.flat), unbacked, session, booted, recovery, i);
        unbacked := unbacked + {i};
      }
      if !unmapped {
        return Failed;
      }
      if !unpinOk {
        CoherentLater(maps, smmu.flat, unbacked, smmu.ready, session, booted, recovery, booted, true);
        recovery := true;
        return Failed;
      }
      ClearedUnreachable(old(smmu.flat), m.iova / PAGE, m.size / PAGE);
      FreeRecord(i, m.(used := false, refs := 0));
      assert unbacked == old(unbacked) - {i};
      return Ok;
    }

    // Drop record i, and restart the cursor after the last one.
    method FreeRecord(i: nat, r: MapRecord)
      requires Valid() && Consistent() && smmu.ready && i < MAP_MAX && maps[i].used && !InFlight(pending, i) && !r.used
      requires forall e :: e in smmu.tlb ==> !InRange(e.0, maps[i].iova / PAGE, maps[i].size / PAGE)
      modifies this`maps, this`nextIova, this`pins, this`unbacked
      ensures Valid() && Consistent() && maps == old(maps)[i := r] && pins == old(pins) - multiset{old(maps)[i].pa}
      ensures unbacked == old(unbacked) - {i} && nextIova == if NoneUsed(maps) then IOVA_BASE else old(nextIova)
    {
      hide Transport.Tracked, CursorOk, InRange, Coherent, NoneUsed, InFlight;
      Sized();
      CoherentDrop(maps, smmu.flat, unbacked, session, booted, recovery, i, r);
      Drop(i, r);
      unbacked := unbacked - {i};
      RewindIfEmpty();
    }

    method RewindIfEmpty()
      requires Valid()
      modifies this`nextIova
      ensures Valid() && nextIova == if NoneUsed(maps) then IOVA_BASE else old(nextIova)
    {
      hide Tables.Valid, Owns, Retained, ContextsOk, LifecycleOk;
      Sized();
      var any := AnyUsed();
      if !any {
        nextIova := IOVA_BASE;
      }
    }

    lemma Records()
      requires Valid()
      ensures Disjoint(maps) && forall i :: 0 <= i < |maps| ==> RecordOk(maps[i])
    {
    }

    // Release the pin of a record the device cannot reach any more.
    method Drop(i: nat, r: MapRecord)
      requires Valid() && i < MAP_MAX && maps[i].used && !InFlight(pending, i) && !r.used
      requires forall e :: e in smmu.tlb ==> !InRange(e.0, maps[i].iova / PAGE, maps[i].size / PAGE)
      modifies this`maps, this`pins
      ensures Valid() && maps == old(maps)[i := r] && pins == old(pins) - multiset{old(maps)[i].pa}
    {
      hide Tables.Valid, Owns, Retained, ContextsOk, LifecycleOk, InRange;
      Sized();
      RecordRemoved(maps, smmu.tlb, pins, i, r, smmu.tlb);
      RetainedUpdate(pending, maps, held, i, r);
      maps, pins := maps[i := r], pins - multiset{maps[i].pa};
    }

    // One round of the release loop.
    method ReleaseOne(i: nat, isStuck: bool)
      requires Valid() && i < MAP_MAX && smmu.tlb == {} && Idle(pending)
      modifies this`recovery, this`maps, this`pins
      ensures Valid() && maps == old(maps)[i := AfterRelease(old(maps)[i], isStuck)]
      ensures recovery == (old(recovery) || (old(maps)[i].used && isStuck))
    {
      hide Tables.Valid, Owns, Retained, ContextsOk;
      Sized();
      if maps[i].used {
        if isStuck {
          recovery := true;
        } else {
          Drop(i, NO_RECORD);
        }
      }
    }

    // The cursor restarts once no record is left.
    method Rewind()
      requires Valid() && forall i :: 0 <= i < MAP_MAX ==> !maps[i].used
      modifies this`nextIova
      ensures Valid() && nextIova == IOVA_BASE && pins == multiset{}
    {
      nextIova := IOVA_BASE;
      NoPins(maps);
    }

    /** npu_frpc_release_maps, once nothing is reachable and nothing is in flight: every pin that can
        be released is, with its record; the others stay recorded and latch recovery. */
    method ReleaseMaps(stuck: set<nat>) returns (ok: bool)
      requires Valid() && smmu.tlb == {} && Idle(pending)
      modifies this`recovery, this`maps, this`nextIova, this`pins
      ensures Valid()
      ensures forall i :: 0 <= i < MAP_MAX ==> maps[i] == AfterRelease(old(maps)[i], i in stuck)
      ensures ok <==> forall i :: 0 <= i < MAP_MAX && old(maps)[i].used ==> i !in stuck
      ensures ok ==> nextIova == IOVA_BASE && recovery == old(recovery) && pins == multiset{} && NoneUsed(maps)
      ensures !ok ==> recovery && nextIova == old(nextIova)
    {
      hide Tables.Valid, Owns, Retained, ContextsOk, CursorOk, AfterRelease;
      Sized();
      ok := true;
      for i := 0 to MAP_MAX
        invariant Valid() && |maps| == MAP_MAX && nextIova == old(nextIova)
        invariant forall j :: 0 <= j < i ==> maps[j] == AfterRelease(old(maps)[j], j in stuck)
        invariant forall j :: i <= j < MAP_MAX ==> maps[j] == old(maps)[j]
        invariant ok <==> forall j :: 0 <= j < i && old(maps)[j].used ==> j !in stuck
        invariant recovery == (old(recovery) || !ok)
      {
        if maps[i].used && i in stuck {
          ok := false;
        }
        ReleaseOne(i, i in stuck);
      }
      if ok {
        NoneLeft(old(maps), maps, stuck);
        Rewind();
      }
    }

    static lemma NoneLeft(before: seq<MapRecord>, after: seq<MapRecord>, stuck: set<nat>)
      requires |before| == |after| == MAP_MAX
      requires forall j :: 0 <= j < MAP_MAX ==> after[j] == AfterRelease(before[j], j in stuck)
      requires forall j :: 0 <= j < MAP_MAX && before[j].used ==> j !in stuck
      ensures forall j :: 0 <= j < MAP_MAX ==> !after[j].used
    {
    }

    // Tear translation down and, if that worked, give every buffer back.
    method TearDown(hw: bool, stuck: set<nat>) returns (ok: bool)
      requires Valid() && Idle(pending) && DspDistinct(maps)
      modifies this`recovery, this`maps, this`nextIova, this`pins, this`unbacked, smmu, smmu.mem, smmu.l2, smmu.l3
      ensures Valid() && !smmu.ready && DspDistinct(maps) && MarksKept(old(maps), old(unbacked), maps, unbacked)
      ensures ok <==> (hw || !old(smmu.cbOwned)) && forall i :: 0 <= i < MAP_MAX && old(maps)[i].used ==> i !in stuck
      ensures ok ==> smmu.tlb == {} && pins == multiset{} && NoneUsed(maps) && unbacked == {}
      ensures recovery == (old(recovery) || ((hw || !old(smmu.cbOwned)) && !ok))
      ensures !ok ==> recovery || (unchanged(`maps, `pins, `unbacked) && smmu.tlb == old(smmu.tlb))
      ensures !hw && old(smmu.cbOwned) ==> unchanged(`maps, `pins, `unbacked) && smmu.tlb == old(smmu.tlb)
    {
      hide Tables.Valid, Owns, Retained, ContextsOk, CursorOk, LifecycleOk, DspDistinct;
      Sized();
      ok := smmu.Stop(hw);
      if ok {
        ReachShrinks(maps, old(smmu.tlb), pins, smmu.tlb);
        ok := ReleaseMaps(stuck);
        Sized();
        DspReleased(old(maps), maps, stuck);
        unbacked := if ok then {} else set i | i in unbacked && i < MAP_MAX && maps[i].used;
      }
    }

    static lemma DspReleased(before: seq<MapRecord>, after: seq<MapRecord>, stuck: set<nat>)
      requires |before| == |after| == MAP_MAX && DspDistinct(before)
      requires forall j :: 0 <= j < MAP_MAX ==> after[j] == AfterRelease(before[j], j in stuck)
      ensures DspDistinct(after)
    {
    }

    /** FRPC_CLOSE */
    method Close(arg: nat, hw: bool, stuck: set<nat>) returns (rc: Rc)
      requires Valid() && Consistent()
      modifies this`recovery, this`maps, this`nextIova, this`pins, this`unbacked, this`pd, this`session,
               smmu, smmu.mem, smmu.l2, smmu.l3
      ensures Valid() && Consistent() && (old(recovery) ==> recovery)
      ensures MarksKept(old(maps), old(unbacked), maps, unbacked)
      ensures rc == Ok ==> session == 0 && pins == multiset{} && smmu.tlb == {} && recovery == old(recovery)
      ensures rc == Ok ==> forall i :: 0 <= i < MAP_MAX ==> !maps[i].used
      ensures rc == Invalid <==> arg != old(session)
      ensures rc == Busy <==> arg == old(session) && !Idle(pending)
      ensures rc == Ok <==> && arg == old(session) && Idle(pending) && (hw || !old(smmu.cbOwned))
                            && forall i :: 0 <= i < MAP_MAX && old(maps)[i].used ==> i !in stuck
      ensures !Idle(pending) ==>
                rc in {Invalid, Busy} && unchanged(`maps, `pins, `session, `recovery, `unbacked)
                && smmu.tlb == old(smmu.tlb)
      ensures rc == Failed && !hw && old(smmu.cbOwned) ==>
                unchanged(`maps, `pins, `session) && smmu.tlb == old(smmu.tlb)
    {
      hide Tables.Valid, Owns, Retained, ContextsOk, LifecycleOk, CursorOk, Backed, DspDistinct;
      Sized();
      if arg != session {
        return Invalid;
      }
      for k := 0 to PENDING_MAX
        invariant forall j :: 0 <= j < k ==> pending[j].ctx == 0
      {
        if pending[k].ctx != 0 {
          return Busy;
        }
      }
      var down := TearDown(hw, stuck);
      Sized();
      if !down {
        return Failed;
      }
      pd, session := 0, 0;
      return Ok;
    }

    /** The response half of glink_handle_rx_data: at most one request completes, and a response to a
        request of an earlier boot completes none. */
    method HandleResponse(r: Response) returns (matched: bool)
      requires Valid()
      modifies this`pending
      ensures Valid() && pending == Completed(old(pending), r)
      ensures matched <==> exists k :: 0 <= k < PENDING_MAX && Answers(r, old(pending)[k])
      ensures forall k, l | 0 <= k < PENDING_MAX && 0 <= l < PENDING_MAX ::
                Answers(r, old(pending)[k]) && Answers(r, old(pending)[l]) ==> k == l
      ensures r.ctx in issuedAt && issuedAt[r.ctx] < epoch ==> !matched && unchanged(`pending)
    {
      hide Tables.Valid, Owns, LifecycleOk, CursorOk, Holds;
      matched := false;
      for i := 0 to PENDING_MAX
        invariant !matched && unchanged(`pending) && Valid()
        invariant forall k :: 0 <= k < i ==> !Answers(r, pending[k])
      {
        var p := pending[i];
        if Answers(r, p) {
          matched := true;
          var after := pending[i := p.(retval := r.rv, done := true)];
          RetainedResponse(pending, maps, held, after);
          pending := after;
          return;
        }
      }
    }

    // Responses arrive in any number and order while a poll loop runs.
    method Deliver(rs: seq<Response>)
      requires Valid()
      modifies this`pending
      ensures Valid() && |pending| == |old(pending)| && pending == Delivered(old(pending), rs)
      ensures forall k :: 0 <= k < |pending| ==> SameRequest(old(pending)[k], pending[k])
    {
      hide Tables.Valid, Owns, Retained, ContextsOk, LifecycleOk, CursorOk;
      Sized();
      for i := 0 to |rs|
        invariant Valid() && |pending| == PENDING_MAX && pending == Delivered(old(pending), rs[..i])
        invariant forall k :: 0 <= k < PENDING_MAX ==> SameRequest(old(pending)[k], pending[k])
      {
        var matched := HandleResponse(rs[i]);
        assert rs[..i + 1][..i] == rs[..i];
      }
      assert rs[..|rs|] == rs;
    }

    /** npu_smp2p_refresh_state with npu_watchdog_refresh: an armed, pending watchdog trips for good. */
    method RefreshState(sample: Option<Sample>, remoteFatal: bool) returns (fatal: bool)
      requires Valid()
      modifies this`tripped, this`recovery
      ensures Valid()
      ensures tripped == (old(tripped) || (armed && sample.Some? && sample.value.pending))
      ensures recovery == (old(recovery) || tripped)
      ensures fatal == (remoteFatal || tripped)
    {
      hide Tables.Valid, Owns, Retained, ContextsOk;
      if armed && sample.Some? && sample.value.pending {
        tripped := true;
      }
      if tripped {
        recovery := true;
      }
      return remoteFatal || tripped;
    }

    /** npu_watchdog_prepare */
    method WatchdogPrepare(sample: Option<Sample>) returns (ok: bool)
      requires Valid()
      modifies this`armed, this`tripped, this`recovery
      ensures Valid() && armed == ok
      ensures tripped == (old(tripped) || (sample.Some? && sample.value.pending))
      ensures ok <==> sample.Some? && !tripped
      ensures recovery == (old(recovery) || !ok)
    {
      hide Tables.Valid, Owns, Retained, ContextsOk;
      armed := false;
      if sample.Some? && sample.value.pending {
        tripped := true;
      }
      if sample.None? || tripped {
        recovery := true;
        return false;
      }
      armed := true;
      return true;
    }

    // q8b_frpc_next_context; 0 when the sequence is exhausted.
    method IssueContext() returns (ctx: nat)
      requires Valid()
      modifies this`sequence, this`issuedAt
      ensures Valid()
      ensures ctx == 0 <==> old(sequence) == Wire.UINT32_MAX
      ensures ctx == 0 ==> unchanged(`sequence, `issuedAt)
      ensures ctx != 0 ==> ctx !in old(issuedAt) && issuedAt == old(issuedAt)[ctx := epoch]
      ensures ctx != 0 ==> forall k :: 0 <= k < |pending| ==> pending[k].ctx != ctx
    {
      hide Tables.Valid, Owns, Retained, LifecycleOk, CursorOk;
      var next := Wire.NextContext(sequence, pd);
      if next.None? {
        return 0;
      }
      sequence, ctx := next.value.0, next.value.1;
      issuedAt := issuedAt[ctx := epoch];
    }

    // A free request slot, provided no accepted request uses the same packet buffer.
    method FindSlot(pa: nat) returns (rc: Rc, slot: nat)
      requires |pending| == PENDING_MAX
      ensures rc in {Ok, Busy, Invalid}
      ensures rc == Invalid <==> exists k :: 0 <= k < PENDING_MAX && pending[k].ctx != 0 && pending[k].pa == pa
      ensures rc == Ok <==> Vacant(pending, pa)
      ensures rc == Ok ==> slot < PENDING_MAX && pending[slot].ctx == 0
    {
      rc, slot := Busy, 0;
      for i := 0 to PENDING_MAX
        invariant forall k :: 0 <= k < i ==> !(pending[k].ctx != 0 && pending[k].pa == pa)
        invariant rc == Ok ==> slot < i && pending[slot].ctx == 0
        invariant rc == Busy ==> forall k :: 0 <= k < i ==> pending[k].ctx != 0
        invariant rc in {Ok, Busy}
      {
        if pending[i].ctx != 0 && pending[i].pa == pa {
          return Invalid, 0;
        }
        if pending[i].ctx == 0 {
          rc, slot := Ok, i;
        }
      }
    }

    // Record an accepted request together with the mappings it holds.
    method Accept(slot: nat, p: Pending)
      requires Valid() && slot < PENDING_MAX && pending[slot].ctx == 0 && booted && glinkReady && smmu.ready
      requires p.ctx in issuedAt && issuedAt[p.ctx] == epoch && p.ctx != 0
      requires forall k :: 0 <= k < PENDING_MAX && pending[k].ctx != 0 ==>
                pending[k].ctx != p.ctx && pending[k].pa != p.pa
      requires forall j :: j in p.maps ==> j < MAP_MAX && maps[j].used
      requires exists j :: j in p.maps && 0 <= j < MAP_MAX && maps[j].pa == p.pa && p.size <= maps[j].size
      modifies this`pending, this`held
      ensures Valid() && pending == old(pending)[slot := p] && held == old(held)[p.ctx := maps]
    {
      hide Tables.Valid, Owns, Retained, LifecycleOk, CursorOk;
      Sized();
      RetainedAccept(pending, maps, held, slot, p);
      pending, held := pending[slot := p], held[p.ctx := maps];
    }

    method Forget(slot: nat)
      requires Valid() && slot < PENDING_MAX
      modifies this`pending
      ensures Valid() && pending == old(pending)[slot := NO_REQUEST]
    {
      hide Tables.Valid, Owns, Retained, LifecycleOk, CursorOk;
      Sized();
      RetainedClear(pending, maps, held, slot);
      pending := pending[slot := NO_REQUEST];
    }

    // Hand an accepted request to the DSP; a failed send withdraws it.
    method Send(slot: nat, p: Pending, late: seq<Response>, sent: bool) returns (rc: Rc)
      requires Valid() && slot < PENDING_MAX && pending[slot].ctx == 0 && booted && glinkReady && smmu.ready
      requires p.ctx in issuedAt && issuedAt[p.ctx] == epoch && p.ctx != 0
      requires forall k :: 0 <= k < PENDING_MAX && pending[k].ctx != 0 ==>
                pending[k].ctx != p.ctx && pending[k].pa != p.pa
      requires forall j :: j in p.maps ==> j < MAP_MAX && maps[j].used
      requires exists j :: j in p.maps && 0 <= j < MAP_MAX && maps[j].pa == p.pa && p.size <= maps[j].size
      modifies this`pending, this`held
      ensures Valid() && rc == if sent then Ok else Busy
      ensures forall k :: 0 <= k < PENDING_MAX && k != slot ==> SameRequest(old(pending)[k], pending[k])
      ensures if sent then SameRequest(p, pending[slot]) else pending[slot] == NO_REQUEST
      ensures held == old(held)[p.ctx := maps]
    {
      hide Tables.Valid, Owns, Retained, ContextsOk, LifecycleOk, CursorOk;
      Sized();
      Accept(slot, p);
      Deliver(late);
      if !sent {
        Forget(slot);
        return Busy;
      }
      return Ok;
    }

    /** What SUBMIT demands of a packet, its buffer and the mapping the buffer was found in. */
    ghost predicate Acceptable(pa: nat, payload: seq<byte>, capacity: nat, i: nat)
      reads `maps, `session
    {
      && 16 <= |payload| && OwnedDma(pa, |payload|, MAX_FW, capacity) && hostVa(pa) != 0
      && i < |maps| && Matches(maps[i], session, pa, |payload|)
      && (forall j :: 0 <= j < i ==> !Matches(maps[j], session, pa, |payload|))
      && PacketOk(maps, session, hostVa, payload)
    }

    ghost predicate Submittable(pa: nat, payload: seq<byte>, capacity: nat)
      reads `maps, `session
    {
      exists i :: Acceptable(pa, payload, capacity, i) && MessageOwned(payload, i)
    }

    method CheckRequest(pa: nat, payload: seq<byte>, capacity: nat)
      returns (rc: Rc, i: nat, mask: set<nat>, owned: bool)
      requires |maps| == MAP_MAX
      ensures rc == Ok ==> Acceptable(pa, payload, capacity, i)
      ensures rc == Ok ==> mask == BufferMask(maps, pa, |payload|) + PacketMask(maps, session, hostVa, payload)
      ensures rc == Ok && owned <==> Submittable(pa, payload, capacity)
    {
      hide PacketOk, PacketMask, BufferMask, Matches, MessageOwned;
      var size := |payload|;
      if size < 16 || !OwnedDma(pa, size, MAX_FW, capacity) || hostVa(pa) == 0 {
        return Invalid, 0, {}, false;
      }
      i := FindMapping(session, pa, size);
      if i == MAP_MAX {
        return Unsupported, 0, {}, false;
      }
      var ok, unsupported, args := CheckPacket(maps, session, hostVa, payload);
      if !ok {
        return if unsupported then Unsupported else Invalid, 0, {}, false;
      }
      assert Acceptable(pa, payload, capacity, i);
      owned := FindMessageOwner(payload, i);
      return Ok, i, BufferMask(maps, pa, size) + args, owned;
    }

    // The checks on the packet itself and its context.
    method PreparePacket(pa: nat, payload: seq<byte>, capacity: nat)
      returns (rc: Rc, ctx: nat, mask: set<nat>, ghost i: nat)
      requires Valid()
      modifies this`pd, this`sequence, this`issuedAt
      ensures Valid() && History(old(issuedAt), held, issuedAt, held)
      ensures rc == Ok <==> old(sequence) != Wire.UINT32_MAX && Submittable(pa, payload, capacity)
      ensures rc == Ok ==>
                && Acceptable(pa, payload, capacity, i) && ctx != 0 && ctx !in old(issuedAt)
                && issuedAt == old(issuedAt)[ctx := epoch] && (forall k :: 0 <= k < |pending| ==> pending[k].ctx != ctx)
                && mask == BufferMask(maps, pa, |payload|) + PacketMask(maps, session, hostVa, payload)
    {
      hide Tables.Valid, Owns, Retained, ContextsOk, LifecycleOk, CursorOk, PacketOk, PacketMask, BufferMask,
           Submittable, MessageOwned, Le32;
      Sized();
      ctx, mask, i := 0, {}, 0;
      var checked, found, bits, owned := CheckRequest(pa, payload, capacity);
      if checked != Ok {
        return checked, 0, {}, 0;
      }
      var handle, sc := Le32(payload, 8), Le32(payload, 12);
      if handle == 1 && (sc / 0x100_0000 % 0x20 == 6 || sc / 0x100_0000 % 0x20 == 7) {
        pd := 1;
      }
      ctx := IssueContext();
      if ctx == 0 {
        return Failed, 0, {}, 0;
      }
      return if owned then Ok else Invalid, ctx, bits, found;
    }

    // The checks, and the hand-over.
    method SubmitPacket(slot: nat, pa: nat, payload: seq<byte>, capacity: nat, late: seq<Response>, sent: bool)
      returns (rc: Rc)
      requires Valid() && slot < PENDING_MAX && pending[slot].ctx == 0 && booted && glinkReady && smmu.ready
      requires forall k :: 0 <= k < PENDING_MAX && pending[k].ctx != 0 ==> pending[k].pa != pa
      modifies this`pending, this`held, this`pd, this`sequence, this`issuedAt
      ensures Valid()
      ensures forall k :: 0 <= k < PENDING_MAX && k != slot ==> SameRequest(old(pending)[k], pending[k])
      ensures rc != Ok ==> pending[slot].ctx == 0
      ensures rc == Ok ==>
                && pending[slot].ctx != 0 && pending[slot].ctx !in old(issuedAt)
                && pending[slot].pa == pa && pending[slot].size == |payload| && held[pending[slot].ctx] == maps
                && PacketOk(maps, session, hostVa, payload)
                && pending[slot].maps == BufferMask(maps, pa, |payload|) + PacketMask(maps, session, hostVa, payload)
      ensures rc == Ok <==> sent && old(sequence) != Wire.UINT32_MAX && Submittable(pa, payload, capacity)
      ensures History(old(issuedAt), old(held), issuedAt, held)
    {
      hide Tables.Valid, Owns, Retained, ContextsOk, LifecycleOk, CursorOk, PacketOk, PacketMask, BufferMask,
           Submittable, Le32;
      Sized();
      var ctx, mask;
      ghost var i;
      rc, ctx, mask, i := PreparePacket(pa, payload, capacity);
      if rc != Ok {
        return;
      }
      MaskHolds(maps, session, hostVa, payload, pa, i);
      rc := Send(slot, Pending(ctx, pa, |payload|, mask, Le32(payload, 8), Le32(payload, 12), 0, false), late, sent);
    }

    // The message the DSP gets, rounded up to pages, must stay inside the caller's mappings.
    ghost predicate MessageOwned(payload: seq<byte>, i: nat)
      reads `maps, `session
    {
      var meta := Wire.MetadataOffset(payload);
      i < |maps| && meta <= |payload|
          && IovaOwned(maps, session, DevAddr(maps[i].iova) + meta, Aligned(|payload| - meta))
    }

    /** The message window never wraps, so an owned one lies inside a record. */
    lemma MessageInside(payload: seq<byte>, i: nat)
      requires Valid() && i < |maps| && maps[i].used && |payload| <= MAX_FW && MessageOwned(payload, i)
      ensures var meta := Wire.MetadataOffset(payload);
              OwnedWindow(maps, session, DevAddr(maps[i].iova) + meta, Aligned(|payload| - meta))
    {
      hide Tables.Valid, Owns, Retained, CursorOk, LifecycleOk, ContextsOk, IovaOwned, OwnedWindow;
      Records();
      var meta := Wire.MetadataOffset(payload);
      OwnedInside(maps, session, DevAddr(maps[i].iova) + meta, Aligned(|payload| - meta));
    }

    method FindMessageOwner(payload: seq<byte>, i: nat) returns (owned: bool)
      requires i < |maps|
      ensures owned <==> MessageOwned(payload, i)
    {
      var meta := Wire.MetadataOffset(payload);
      owned := FindOwner(maps, session, DevAddr(maps[i].iova) + meta, Aligned(|payload| - meta));
    }

    /** npu_frpc_submit.  `early` and `late` are the responses polled before the checks and while
        sending, `intent` says whether a remote intent is available, `sent` whether sending succeeds. */
    method Submit(pa: nat, payload: seq<byte>, capacity: nat, sample: Option<Sample>, remoteFatal: bool,
                  early: seq<Response>, intent: bool, late: seq<Response>, sent: bool)
      returns (rc: Rc, ghost slot: nat)
      requires Valid()
      modifies this`tripped, this`recovery, this`pending, this`held, this`pd, this`sequence, this`issuedAt
      ensures Valid() && slot < PENDING_MAX
      ensures forall k :: 0 <= k < PENDING_MAX && k != slot ==> SameRequest(old(pending)[k], pending[k])
      ensures rc != Ok ==>
                SameRequest(old(pending)[slot], pending[slot]) || old(pending)[slot].ctx == pending[slot].ctx == 0
      ensures rc == Ok ==>
                && old(pending)[slot].ctx == 0 && pending[slot].ctx != 0 && pending[slot].ctx !in old(issuedAt)
                && pending[slot].pa == pa && pending[slot].size == |payload| && held[pending[slot].ctx] == maps
                && PacketOk(maps, session, hostVa, payload)
                && pending[slot].maps == BufferMask(maps, pa, |payload|) + PacketMask(maps, session, hostVa, payload)
      ensures rc == Ok <==>
                && !remoteFatal && !tripped && booted && smmu.ready && glinkReady && channelOpen && intent && sent
                && Vacant(old(pending), pa) && old(sequence) != Wire.UINT32_MAX && Submittable(pa, payload, capacity)
      ensures History(old(issuedAt), old(held), issuedAt, held) && (old(recovery) ==> recovery)
    {
      hide Transport.Valid, PacketOk, PacketMask, BufferMask, Transport.Submittable, History, Delivered, Vacant;
      HistoryKept(issuedAt, held);
      slot := 0;
      Sized();
      var fatal := RefreshState(sample, remoteFatal);
      if fatal {
        return Failed, 0;
      }
      if glinkReady {
        Deliver(early);
      }
      Sized();
      VacantSame(old(pending), pending, pa);
      var found, free := FindSlot(pa);
      slot := free;
      if found != Ok {
        return found, 0;
      }
      if !booted || !smmu.ready || !glinkReady || !channelOpen {
        return Unsupported, free;
      }
      if !intent {
        return Busy, free;
      }
      rc := SubmitPacket(free, pa, payload, capacity, late, sent);
    }

    // A DSP address that no other used record has.
    method SetDsp(i: nat, dspVaddr: nat)
      requires Valid() && Consistent() && i < MAP_MAX
      requires dspVaddr != 0 ==> forall j :: 0 <= j < MAP_MAX && j != i && maps[j].used ==> maps[j].dspVaddr != dspVaddr
      modifies this`maps
      ensures Valid() && Consistent() && maps == old(maps)[i := old(maps)[i].(dspVaddr := dspVaddr)]
    {
      hide Tables.Valid, Owns, Retained, ContextsOk, LifecycleOk, CursorOk, Coherent;
      Sized();
      SessionRules();
      var r := maps[i].(dspVaddr := dspVaddr);
      DspTouched(maps, i, r);
      CoherentTouch(maps, smmu.flat, unbacked, smmu.ready, session, booted, recovery, i, r);
      Touch(i, r);
    }

    /** npu_frpc_record_dsp_mmap: at most one record learns a DSP address, one no other live record has. */
    method RecordDspMmap(reply: MapReply) returns (ghost slot: nat)
      requires Valid() && Consistent()
      modifies this`maps
      ensures Valid() && Consistent() && slot < MAP_MAX
      ensures maps == old(maps)[slot := old(maps)[slot].(dspVaddr := maps[slot].dspVaddr)]
      ensures maps != old(maps) ==>
                maps[slot].dspVaddr == reply.dspVaddr && maps[slot].used && DevAddr(maps[slot].iova) == reply.apAddr
      ensures maps != old(maps) ==> forall j :: 0 <= j < MAP_MAX && j != slot && maps[j].used ==>
                maps[j].dspVaddr != reply.dspVaddr
    {
      hide Tables.Valid, Owns, Retained, ContextsOk, LifecycleOk, CursorOk, Coherent;
      Sized();
      slot := 0;
      for i := 0 to MAP_MAX
        invariant unchanged(`maps) && Valid() && Consistent() && slot == 0
      {
        var m := maps[i];
        if m.used && m.session == session && reply.apAddr == DevAddr(m.iova) && reply.size <= m.size {
          for j := 0 to MAP_MAX
            invariant unchanged(`maps) && Valid() && Consistent()
            invariant forall k :: 0 <= k < j && k != i && maps[k].used ==> maps[k].dspVaddr != reply.dspVaddr
          {
            if j != i && maps[j].used && maps[j].dspVaddr == reply.dspVaddr {
              return;
            }
          }
          slot := i;
          SetDsp(i, reply.dspVaddr);
          return;
        }
      }
    }

    /** npu_frpc_release_dsp_mmap */
    method ReleaseDspMmap(dspVaddr: nat, size: nat) returns (ghost slot: nat)
      requires Valid() && Consistent()
      modifies this`maps
      ensures Valid() && Consistent() && slot < MAP_MAX
      ensures maps == old(maps)[slot := old(maps)[slot].(dspVaddr := maps[slot].dspVaddr)]
      ensures maps != old(maps) ==> old(maps)[slot].dspVaddr == dspVaddr && maps[slot].dspVaddr == 0
    {
      hide Tables.Valid, Owns, Retained, ContextsOk, LifecycleOk, CursorOk, Coherent;
      Sized();
      slot := 0;
      if dspVaddr == 0 || size == 0 {
        return;
      }
      for i := 0 to MAP_MAX
        invariant unchanged(`maps) && Valid() && Consistent() && slot == 0
      {
        var m := maps[i];
        if m.used && m.session == session && m.dspVaddr == dspVaddr && size <= m.size {
          slot := i;
          SetDsp(i, 0);
          return;
        }
      }
    }

    /** npu_frpc_poll.  Only a completed request is consumed, and only while the DSP is healthy;
        `reply` and `release` are what the completed packet says about DSP-side mappings. */
    method Poll(pa: nat, size: nat, capacity: nat, sample: Option<Sample>, remoteFatal: bool, rs: seq<Response>,
                reply: Option<MapReply>, release: Option<(nat, nat)>)
      returns (rc: Rc, ghost slot: nat)
      requires Valid() && Consistent()
      modifies this`tripped, this`recovery, this`pending, this`maps
      ensures Valid() && Consistent() && slot < PENDING_MAX && (old(recovery) ==> recovery)
      ensures forall k :: 0 <= k < PENDING_MAX && k != slot ==> SameRequest(old(pending)[k], pending[k])
      ensures rc != Ok ==> SameRequest(old(pending)[slot], pending[slot]) && unchanged(`maps)
      ensures rc == Ok ==> Wanted(old(pending)[slot], pa, size) && pending[slot] == NO_REQUEST && !tripped
      ensures booted && session != 0 && OwnedDma(pa, size, MAX_FW, capacity) && !remoteFatal && !tripped ==>
                var now := if glinkReady then Delivered(old(pending), rs) else old(pending);
                && |now| == PENDING_MAX
                && rc == (if !Wanted(now[slot], pa, size) then Invalid else if now[slot].done then Ok else Busy)
                && (rc == Invalid ==> forall k :: 0 <= k < PENDING_MAX ==> !Wanted(now[k], pa, size))
      ensures !(booted && session != 0 && OwnedDma(pa, size, MAX_FW, capacity) && !remoteFatal && !tripped) ==> rc != Ok
      ensures forall i :: 0 <= i < MAP_MAX ==> maps[i] == old(maps)[i].(dspVaddr := maps[i].dspVaddr)
    {
      hide Tables.Valid, Owns, Retained, ContextsOk, LifecycleOk, CursorOk, Coherent;
      Sized();
      slot := 0;
      if !booted || session == 0 {
        return Unsupported, 0;
      }
      if !OwnedDma(pa, size, MAX_FW, capacity) {
        return Invalid, 0;
      }
      var fatal := RefreshState(sample, remoteFatal);
      CoherentLater(maps, smmu.flat, unbacked, smmu.ready, session, booted, old(recovery), booted, recovery);
      if fatal {
        return Failed, 0;
      }
      if glinkReady {
        Deliver(rs);
      }
      rc, slot := Collect(pa, size, reply, release);
    }

    // The slot loop of POLL: the request named, if it is complete, is taken out.
    method Collect(pa: nat, size: nat, reply: Option<MapReply>, release: Option<(nat, nat)>)
      returns (rc: Rc, ghost slot: nat)
      requires Valid() && Consistent()
      modifies this`pending, this`maps
      ensures Valid() && Consistent() && slot < PENDING_MAX == |old(pending)|
      ensures var p := old(pending)[slot];
              rc == (if !Wanted(p, pa, size) then Invalid else if p.done then Ok else Busy)
      ensures rc == Invalid ==> forall k :: 0 <= k < PENDING_MAX ==> !Wanted(old(pending)[k], pa, size)
      ensures rc != Ok ==> unchanged(`maps, `pending)
      ensures rc == Ok ==> pending == old(pending)[slot := NO_REQUEST]
      ensures forall i :: 0 <= i < MAP_MAX ==> maps[i] == old(maps)[i].(dspVaddr := maps[i].dspVaddr)
    {
      hide Tables.Valid, Owns, Retained, ContextsOk, LifecycleOk, CursorOk, Coherent;
      Sized();
      var i := 0;
      while i < PENDING_MAX && !Wanted(pending[i], pa, size)
        invariant i <= PENDING_MAX && forall k :: 0 <= k < i ==> !Wanted(pending[k], pa, size)
      {
        i := i + 1;
      }
      if i == PENDING_MAX {
        return Invalid, 0;
      }
      if !pending[i].done {
        return Busy, i;
      }
      if pending[i].retval == 0 {
        NoteDspMaps(reply, release);
      }
      Forget(i);
      return Ok, i;
    }

    method NoteDspMaps(reply: Option<MapReply>, release: Option<(nat, nat)>)
      requires Valid() && Consistent()
      modifies this`maps
      ensures Valid() && Consistent()
      ensures forall i :: 0 <= i < MAP_MAX ==> maps[i] == old(maps)[i].(dspVaddr := maps[i].dspVaddr)
    {
      hide Tables.Valid, Owns, Retained, ContextsOk, LifecycleOk, CursorOk, Coherent;
      Sized();
      if reply.Some? {
        var learnt := RecordDspMmap(reply.value);
      }
      if release.Some? {
        var dropped := ReleaseDspMmap(release.value.0, release.value.1);
      }
    }

    // memset(&npu_glink, 0, ..), then `ready` as given.
    method ResetGlink(ready: bool)
      requires Valid() && (ready ==> Idle(pending))
      modifies this`glinkReady, this`channelOpen, this`pending
      ensures Valid() && Idle(pending) && |pending| == PENDING_MAX && glinkReady == ready && !channelOpen
    {
      hide Tables.Valid, Owns, Retained, CursorOk, LifecycleOk;
      NothingRetained(maps, held);
      glinkReady, channelOpen, pending := ready, false, NO_REQUESTS;
    }

    lemma NothingPending()
      requires Valid() && (!glinkReady || !booted)
      ensures Idle(pending)
    {
    }

    // glink_ping: the edge is set up once per boot; later calls only poll.
    method GlinkPing(items: bool, opens: bool, rs: seq<Response>)
      requires Valid()
      modifies this`glinkReady, this`channelOpen, this`pending
      ensures Valid() && |pending| == |old(pending)|
      ensures forall k :: 0 <= k < |pending| && old(pending)[k].ctx != 0 ==> SameRequest(old(pending)[k], pending[k])
      ensures forall k :: 0 <= k < |pending| && old(pending)[k].ctx == 0 ==> pending[k].ctx == 0
      ensures channelOpen == ChannelUp(old(glinkReady), old(channelOpen), items, opens)
    {
      hide Tables.Valid, Owns, Retained, LifecycleOk, CursorOk, ContextsOk;
      Sized();
      if !glinkReady {
        if !items {
          return;
        }
        NothingPending();
        ResetGlink(true);
      }
      Deliver(rs);
      channelOpen := channelOpen || opens;
    }

    // The bookkeeping of a successful secure shutdown.
    method ResetLifecycle()
      requires Valid() && Idle(pending)
      modifies this`booted, this`dumpAvailable, this`armed, this`steps, this`epoch, this`callsAtStop
      ensures Valid() && !booted && dumpAvailable && !armed && steps == NO_STEPS
      ensures epoch == old(epoch) + 1 && callsAtStop == pasCalls
    {
      hide Tables.Valid, Owns, Retained, CursorOk;
      ClearSteps();
      NextEpoch();
      dumpAvailable := true;
    }

    method ClearSteps()
      requires Valid() && Idle(pending)
      modifies this`booted, this`armed, this`steps, this`callsAtStop
      ensures Valid() && !booted && !armed && steps == NO_STEPS && callsAtStop == pasCalls
    {
      hide Tables.Valid, Owns, Retained, CursorOk;
      booted, armed, steps, callsAtStop := false, false, NO_STEPS, pasCalls;
    }

    ghost method NextEpoch()
      requires Valid() && Idle(pending)
      modifies this`epoch
      ensures Valid() && epoch == old(epoch) + 1
    {
      hide Tables.Valid, Owns, Retained, CursorOk;
      epoch := epoch + 1;
    }

    // Any request that has not completed, other than the blocking listener's, is evidence of a crash.
    method NoteIncomplete()
      requires Valid()
      modifies this`recovery
      ensures Valid()
      ensures recovery == (old(recovery) || AnyUnfinished(pending))
    {
      hide Tables.Valid, Owns, Retained, ContextsOk;
      Sized();
      for i := 0 to PENDING_MAX
        invariant Valid() && recovery == (old(recovery) || exists k :: 0 <= k < i && Unfinished(pending[k]))
      {
        if Unfinished(pending[i]) {
          recovery := true;
        }
      }
    }

    // One secure-monitor call of the init, mem-setup or auth kind.
    ghost method CountCall()
      requires Valid() && !dumpAvailable
      modifies this`pasCalls
      ensures Valid() && pasCalls == old(pasCalls) + 1 > callsAtStop
    {
      pasCalls := pasCalls + 1;
    }

    method SetSteps(next: PasSteps)
      requires Valid() && (next.init || next.mem ==> pasCalls > callsAtStop)
      modifies this`steps
      ensures Valid() && steps == next
    {
      hide Tables.Valid, Owns, Retained, ContextsOk, CursorOk;
      steps := next;
    }

    method Latch()
      requires Valid()
      modifies this`recovery
      ensures Valid() && recovery
    {
      hide Tables.Valid, Owns, Retained, ContextsOk;
      recovery := true;
    }

    method DropSnapshot()
      requires Valid()
      modifies this`dumpAvailable
      ensures Valid() && !dumpAvailable
    {
      hide Tables.Valid, Owns, Retained, ContextsOk, CursorOk;
      dumpAvailable := false;
    }

    /** PAS_INIT with npu_pas_prepare: the old snapshot is gone before anything is attempted. */
    method PasInit(pa: nat, size: nat, capacity: nat, sample: Option<Sample>, power: bool, scm: bool) returns (rc: Rc)
      requires Valid()
      modifies this`dumpAvailable, this`armed, this`tripped, this`recovery, this`steps, this`pasCalls
      ensures Valid()
      ensures rc == Ok ==> steps.init && steps.prepared && !dumpAvailable && pasCalls == old(pasCalls) + 1
      ensures rc == Invalid <==> !OwnedDma(pa, size, META_SIZE, capacity)
      ensures rc == Invalid ==> unchanged(this)
      ensures rc == Ok <==> rc != Invalid && (old(steps.prepared) || (sample.Some? && !tripped && power)) && scm
      ensures rc == Failed && !old(steps.prepared) && !steps.prepared ==> recovery && pasCalls == old(pasCalls)
      ensures old(pasCalls) <= pasCalls && (rc != Invalid ==> !dumpAvailable)
    {
      hide Tables.Valid, Owns, Retained, ContextsOk, CursorOk, LifecycleOk;
      if !OwnedDma(pa, size, META_SIZE, capacity) {
        return Invalid;
      }
      DropSnapshot();
      if !steps.prepared {
        var clean := WatchdogPrepare(sample);
        if !clean {
          return Failed;
        }
        if !power {
          Latch();
          return Failed;
        }
        Prepared();
      }
      CountCall();
      if !scm {
        return Failed;
      }
      SetSteps(steps.(init := true));
      return Ok;
    }

    method Prepared()
      requires Valid()
      modifies this`steps
      ensures Valid() && steps == old(steps).(prepared := true)
    {
      hide Tables.Valid, Owns, Retained, ContextsOk, CursorOk;
      steps := steps.(prepared := true);
    }

    /** PAS_MEM */
    method PasMem(argsOk: bool, scm: bool) returns (rc: Rc)
      requires Valid()
      modifies this`steps, this`pasCalls
      ensures Valid()
      ensures rc == Ok <==> old(steps.init) && argsOk && scm
      ensures steps == (if rc == Ok then old(steps).(mem := true) else old(steps))
      ensures pasCalls == old(pasCalls) + if rc == Invalid then 0 else 1
      ensures rc == Invalid <==> !old(steps.init) || !argsOk
      ensures rc == Invalid ==> unchanged(this)
    {
      if !steps.init || !argsOk {
        return Invalid;
      }
      CountCall();
      if !scm {
        return Failed;
      }
      SetSteps(steps.(mem := true));
      return Ok;
    }

    lemma SnapshotGone()
      requires Valid() && (steps.init || steps.mem)
      ensures !dumpAvailable
    {
    }

    // After authentication: npu_wait_for_ready, then the GLINK edge.
    method BringUp(sample: Option<Sample>, remoteFatal: bool, ready: bool, items: bool, opens: bool, rs: seq<Response>)
      returns (rc: Rc)
      requires Valid()
      modifies this`booted, this`tripped, this`recovery, this`glinkReady, this`channelOpen, this`pending
      ensures Valid() && booted && |pending| == |old(pending)|
      ensures rc == Ok <==> !remoteFatal && !tripped && ready
      ensures rc == Ok ==> recovery == old(recovery)
      ensures rc != Ok ==> rc == Failed && recovery
      ensures forall k :: 0 <= k < |pending| && old(pending)[k].ctx != 0 ==> SameRequest(old(pending)[k], pending[k])
    {
      hide Tables.Valid, Owns, Retained, CursorOk, LifecycleOk;
      booted := true;
      var fatal := RefreshState(sample, remoteFatal);
      if fatal || !ready {
        Latch();
        return Failed;
      }
      GlinkPing(items, opens, rs);
      return Ok;
    }

    /** PAS_AUTH */
    method PasAuth(argsOk: bool, scm: bool, sample: Option<Sample>, remoteFatal: bool, ready: bool,
                   items: bool, opens: bool, rs: seq<Response>) returns (rc: Rc)
      requires Valid()
      modifies this`booted, this`steps, this`pasCalls, this`tripped, this`recovery, this`glinkReady, this`channelOpen,
          this`pending
      ensures Valid() && |pending| == |old(pending)|
      ensures rc == Ok ==> steps.auth
      ensures booted == (old(booted) || (rc != Invalid && scm))
      ensures rc == Ok <==> old(steps.mem) && argsOk && scm && !remoteFatal && !tripped && ready
      ensures rc == Invalid <==> !old(steps.mem) || !argsOk
      ensures rc == Failed && scm ==> recovery
      ensures pasCalls == old(pasCalls) + if rc == Invalid then 0 else 1
      ensures rc == Invalid ==> unchanged(this)
      ensures forall k :: 0 <= k < |pending| && old(pending)[k].ctx != 0 ==> SameRequest(old(pending)[k], pending[k])
    {
      hide Tables.Valid, Owns, Retained, CursorOk, LifecycleOk, ContextsOk;
      if !steps.mem || !argsOk {
        return Invalid;
      }
      SnapshotGone();
      CountCall();
      if !scm {
        return Failed;
      }
      SetSteps(steps.(auth := true));
      rc := BringUp(sample, remoteFatal, ready, items, opens, rs);
    }

    /** PAS_BOOT with stage_and_boot; `calls` answers the three secure-monitor calls in turn. */
    method PasBoot(owned: bool, image: bool, metaFits: bool, sample: Option<Sample>, power: bool,
                   calls: (bool, bool, bool), stage: bool, late: Option<Sample>, remoteFatal: bool, ready: bool,
                   items: bool, opens: bool, rs: seq<Response>) returns (rc: Rc)
      requires Valid()
      modifies this`booted, this`dumpAvailable, this`armed, this`pasCalls, this`tripped, this`recovery,
          this`glinkReady, this`channelOpen, this`pending
      ensures Valid() && |pending| == |old(pending)|
      ensures old(booted) ==> rc == Ok && unchanged(this)
      ensures rc == Ok ==> booted
      ensures rc == Ok <==>
                old(booted) || (&& owned && image && metaFits && sample.Some? && power && calls == (true, true, true)
                                            && stage && !remoteFatal && !tripped && ready)
      ensures pasCalls > old(pasCalls) ==> !dumpAvailable && !old(booted)
      ensures forall k :: 0 <= k < |pending| && old(pending)[k].ctx != 0 ==> SameRequest(old(pending)[k], pending[k])
    {
      hide Tables.Valid, Owns, Retained, CursorOk, LifecycleOk, ContextsOk;
      if booted {
        return Ok;
      }
      if !owned || !image {
        return Invalid;
      }
      DropSnapshot();
      if !metaFits {
        return Invalid;
      }
      var clean := WatchdogPrepare(sample);
      if !clean {
        return Failed;
      }
      if !power {
        Latch();
        return Failed;
      }
      CountCall();
      if !calls.0 {
        return Failed;
      }
      CountCall();
      if !calls.1 {
        return Failed;
      }
      if !stage {
        return Invalid;
      }
      CountCall();
      if !calls.2 {
        return Failed;
      }
      rc := BringUp(late, remoteFatal, ready, items, opens, rs);
    }

    /** PAS_STOP.  Mappings and requests survive until the secure monitor has stopped the DSP. */
    method PasStop(sample: Option<Sample>, remoteFatal: bool, rs: seq<Response>, during: Option<Health>, sysmon: bool,
                   last: Option<Health>, stopAck: bool, scm: bool, hw: bool, stuck: set<nat>, power: bool)
      returns (rc: Rc)
      requires Valid() && Consistent()
      modifies this, smmu, smmu.mem, smmu.l2, smmu.l3
      ensures Valid() && Consistent() && unchanged(`pasCalls, `issuedAt, `held)
      ensures MarksKept(old(maps), old(unbacked), maps, unbacked) && (Idle(pending) || unchanged(`unbacked))
      ensures rc == Ok ==> !booted && smmu.tlb == {} && pins == multiset{} && Idle(pending) && NoneUsed(maps)
      ensures rc == Ok <==> (old(booted) ==> scm && power) && old(Releasable(hw, stuck))
      ensures old(booted) && !scm ==>
                && rc == Failed && booted && epoch == old(epoch)
                && unchanged(`maps, `pins, `session, `unbacked) && smmu.tlb == old(smmu.tlb)
                && |pending| == |old(pending)| && forall k :: 0 <= k < |pending| ==>
                    SameRequest(old(pending)[k], pending[k])
      ensures old(booted) && scm ==>
                !booted && dumpAvailable && epoch == old(epoch) + 1 && Idle(pending) && session == 0
      ensures old(booted) ==>
                recovery == (|| old(recovery) || remoteFatal || tripped || (!sysmon && !stopAck)
                             || AnyUnfinished(old(pending)) || (scm && !old(Releasable(hw, stuck))))
      ensures !old(booted) ==> unchanged(`booted, `pending, `epoch) && (old(recovery) ==> recovery)
    {
      hide Tables.Valid, Owns, Retained, CursorOk, LifecycleOk, ContextsOk, Backed, DspDistinct;
      Sized();
      if !booted {
        NothingPending();
        var done := TearDown(hw, stuck);
        return if done then Ok else Failed;
      }
      RequestStop(sample, remoteFatal, rs, during, sysmon, last, stopAck);
      if !scm {
        return Failed;
      }
      rc := Quiesced(hw, stuck, power);
    }

    // Translation goes down with this answer of the hardware, and every used record's pin can be released.
    ghost predicate Releasable(hw: bool, stuck: set<nat>)
      requires |maps| == MAP_MAX
      reads `maps, smmu
    {
      (hw || !smmu.cbOwned) && forall i :: 0 <= i < MAP_MAX && maps[i].used ==> i !in stuck
    }

    // The DSP has stopped: forget the transport, then take translation and mappings down.
    method Quiesced(hw: bool, stuck: set<nat>, power: bool) returns (rc: Rc)
      requires Valid() && DspDistinct(maps)
      modifies this, smmu, smmu.mem, smmu.l2, smmu.l3
      ensures Valid() && Consistent() && unchanged(`pasCalls, `issuedAt, `held, `tripped)
      ensures MarksKept(old(maps), old(unbacked), maps, unbacked)
      ensures !booted && dumpAvailable && epoch == old(epoch) + 1 && Idle(pending) && session == 0
      ensures recovery == (old(recovery) || !old(Releasable(hw, stuck)))
      ensures rc == Ok ==> smmu.tlb == {} && pins == multiset{} && NoneUsed(maps)
      ensures rc == Ok <==> power && old(Releasable(hw, stuck))
    {
      hide Transport.Tracked, CursorOk, Backed, DspDistinct, MarksKept, NoneUsed, Idle;
      Sized();
      ResetGlink(false);
      session, pd := 0, 0;
      ResetLifecycle();
      var done := TearDown(hw, stuck);
      if !done {
        Latch();
        return Failed;
      }
      return if power then Ok else Failed;
    }

    // A look at the DSP inside a waiting loop: only the last one matters, and only if it shows a fault.
    method Observe(h: Option<Health>)
      requires Valid()
      modifies this`recovery, this`tripped
      ensures Valid() && recovery == (old(recovery) || (h.Some? && tripped))
      ensures tripped == (old(tripped) || (h.Some? && armed && h.value.sample.Some? && h.value.sample.value.pending))
    {
      if h.Some? {
        var fatal := RefreshState(h.value.sample, h.value.fatal);
      }
    }

    // Ask the DSP to stop, first through sysmon and then through SMP2P; failing to is remembered.
    method RequestStop(sample: Option<Sample>, remoteFatal: bool, rs: seq<Response>, during: Option<Health>,
                       sysmon: bool, last: Option<Health>, stopAck: bool)
      requires Valid()
      modifies this`recovery, this`tripped, this`pending
      ensures Valid() && |pending| == |old(pending)|
      ensures forall k :: 0 <= k < |pending| ==> SameRequest(old(pending)[k], pending[k])
      ensures recovery == (old(recovery) || remoteFatal || tripped || (!sysmon && !stopAck)
                || AnyUnfinished(old(pending)))
    {
      hide Tables.Valid, Owns, Retained, CursorOk, LifecycleOk, ContextsOk;
      NoteIncomplete();
      var fatal := RefreshState(sample, remoteFatal);
      if fatal {
        Latch();
      }
      var acknowledged := false;
      Sized();
      if !recovery {
        Deliver(rs);
        Observe(during);
        acknowledged := sysmon;
      }
      if !acknowledged {
        Observe(last);
        if !stopAck {
          Latch();
        }
      }
    }

    /** The health and channel checks of FRPC_SESSION pass, before the channel is opened and again after it. */
    predicate Healthy(sample: Option<Sample>, remoteFatal: bool, ready: bool, items: bool, opens: bool, again: Health,
                      againReady: bool)
      reads `tripped, `armed, `glinkReady, `channelOpen
    {
      && !tripped && !Barks(armed, sample) && !remoteFatal && ready && ChannelUp(glinkReady, channelOpen, items, opens)
      && !Barks(armed, again.sample) && !again.fatal && againReady
    }

    method TransportReady(sample: Option<Sample>, remoteFatal: bool, ready: bool, items: bool, opens: bool,
                          rs: seq<Response>, again: Health, againReady: bool)
      returns (ok: bool)
      requires Valid()
      modifies this`tripped, this`recovery, this`glinkReady, this`channelOpen, this`pending
      ensures Valid() && |pending| == |old(pending)| && (old(recovery) ==> recovery)
      ensures ok <==> old(Healthy(sample, remoteFatal, ready, items, opens, again, againReady))
      ensures ok ==> recovery == old(recovery)
      ensures forall k :: 0 <= k < |pending| && old(pending)[k].ctx != 0 ==> SameRequest(old(pending)[k], pending[k])
    {
      hide Tables.Valid, Owns, Retained, CursorOk, LifecycleOk, ContextsOk, Idle;
      Sized();
      var fatal := RefreshState(sample, remoteFatal);
      if fatal || !ready {
        return false;
      }
      if !glinkReady || !channelOpen {
        GlinkPing(items, opens, rs);
        if !channelOpen {
          return false;
        }
      }
      fatal := RefreshState(again.sample, again.fatal);
      return !fatal && againReady;
    }

    // q8b_npu_smmu_enable, with nothing in flight.
    method Translate(probe: bool, bits: nat, cpu: nat -> bool, setup: bool, hw: bool) returns (ok: bool)
      requires Valid() && !smmu.ready && bits in {32, 36, 40, 42, 44, 48}
      modifies smmu, smmu.mem, smmu.l2, smmu.l3
      ensures Valid() && smmu.flat == old(smmu.flat) && smmu.tlb == old(smmu.tlb) && smmu.ready == ok
      ensures ok ==> probe && setup && old(smmu.root) == 0 && smmu.paBits == bits
      ensures probe && setup && old(smmu.root) == 0 && Room(old(smmu.free), bits, cpu, 1) ==> ok
    {
      hide Tables.Valid, Owns, Retained, CursorOk, LifecycleOk, ContextsOk, Room;
      ok := smmu.Enable(probe, bits, cpu, setup, hw);
    }

    /** FRPC_SESSION, which the recovery latch refuses. */
    method Session(arg: nat, sample: Option<Sample>, remoteFatal: bool, ready: bool, items: bool, opens: bool,
                   rs: seq<Response>, again: Health, againReady: bool, intent: bool, probe: bool, bits: nat,
                   cpu: nat -> bool, setup: bool, hw: bool) returns (rc: Rc)
      requires Valid() && Consistent() && !recovery && bits in {32, 36, 40, 42, 44, 48}
      modifies this`tripped, this`recovery, this`glinkReady, this`channelOpen, this`pending, this`pd, this`session,
               smmu, smmu.mem, smmu.l2, smmu.l3
      ensures Valid() && Consistent() && |pending| == |old(pending)|
      ensures var open := && old(session) == 0 && arg == SID && booted && intent
                          && old(Healthy(sample, remoteFatal, ready, items, opens, again, againReady));
              && (rc == Busy <==> old(session) != 0)
              && (rc == Ok ==> open && probe && setup && old(smmu.root) == 0)
              && (open && probe && setup && old(smmu.root) == 0 && Room(old(smmu.free), bits, cpu, 1) ==> rc == Ok)
      ensures rc == Ok ==> session == SID && smmu.ready && smmu.paBits == bits && !recovery
      ensures rc != Ok ==> session == old(session)
      ensures smmu.flat == old(smmu.flat) && smmu.tlb == old(smmu.tlb)
      ensures forall k :: 0 <= k < |pending| && old(pending)[k].ctx != 0 ==> SameRequest(old(pending)[k], pending[k])
    {
      hide Transport.Tracked, CursorOk, SameRequest, Coherent, Room, Healthy;
      RequestsSame();
      SessionRules();
      if session != 0 {
        return Busy;
      }
      if arg != SID || !booted {
        return Unsupported;
      }
      var up := TransportReady(sample, remoteFatal, ready, items, opens, rs, again, againReady);
      CoherentLater(maps, smmu.flat, unbacked, smmu.ready, session, booted, old(recovery), booted, recovery);
      if !up || !intent {
        return Unsupported;
      }
      CoherentOpened(maps, smmu.flat, unbacked, booted, SID);
      var enabled := Translate(probe, bits, cpu, setup, hw);
      if !enabled {
        return Unsupported;
      }
      pd, session := 0, SID;
      return Ok;
    }

    lemma SessionRules()
      requires Consistent()
      ensures (smmu.ready ==> session != 0) && (session != 0 ==> booted) && DspDistinct(maps)
    {
    }

    lemma RequestsSame()
      ensures forall k :: 0 <= k < |pending| ==> SameRequest(pending[k], pending[k])
    {
    }

    /** SMMU_CHECK */
    method SmmuCheck(probe: bool, bits: nat, cpu: nat -> bool, setup: bool, hw: bool, hw': bool) returns (rc: Rc)
      requires Valid() && Consistent() && bits in {32, 36, 40, 42, 44, 48}
      modifies smmu, smmu.mem, smmu.l2, smmu.l3
      ensures Valid() && Consistent()
      ensures rc == Failed && !hw' && smmu.cbOwned ==> smmu.flat == old(smmu.flat) && smmu.tlb == old(smmu.tlb)
      ensures rc != Busy && (hw' || !smmu.cbOwned) ==> smmu.tlb == {} && smmu.flat == map[]
      ensures booted || session != 0 ==> rc == Busy && smmu.flat == old(smmu.flat) && smmu.tlb == old(smmu.tlb)
      ensures rc == Ok ==> smmu.tlb == {} && smmu.flat == map[]
    {
      hide Tables.Valid, Owns, Retained, CursorOk, LifecycleOk, ContextsOk;
      if booted || session != 0 {
        return Busy;
      }
      NothingPending();
      var enabled := smmu.Enable(probe, bits, cpu, setup, hw);
      var stopped := smmu.Stop(hw');
      ReachShrinks(maps, old(smmu.tlb), pins, smmu.tlb);
      return if enabled && stopped then Ok else Failed;
    }

    /** DUMP_READ: carveout memory may be read only with the DSP stopped and no boot attempt since. */
    method DumpRead(pa: nat, offset: nat, size: nat, capacity: nat) returns (rc: Rc)
      requires Valid()
      ensures rc == Ok ==> !booted && epoch > 0 && pasCalls == callsAtStop
      ensures dumpAvailable && !booted && steps == NO_STEPS ==>
                (rc == Ok <==> && 0 < size <= DUMP_CHUNK && size % 4096 == 0 && offset % 4096 == 0
                               && offset + size <= NSP0_SPAN && pa % PAGE == 0 && size <= capacity)
      ensures rc == Ok ==>
                0 < size <= DUMP_CHUNK && size % 4096 == 0 && offset % 4096 == 0 && offset + size <= NSP0_SPAN
    {
      if !dumpAvailable || booted || steps != NO_STEPS {
        return Unsupported;
      }
      if size == 0 || size > DUMP_CHUNK || size % 4096 != 0 || offset % 4096 != 0 || offset + size > NSP0_SPAN
         || !OwnedDma(pa, size, DUMP_CHUNK, capacity) {
        return Invalid;
      }
      return Ok;
    }

    // Operations that touch no record, session or translation.
    lemma Latched(booted': bool, recovery': bool)
      requires Coherent(maps, smmu.flat, unbacked, smmu.ready, session, booted', recovery')
      requires (booted' ==> booted) && (recovery' ==> recovery)
      ensures Consistent()
    {
      CoherentLater(maps, smmu.flat, unbacked, smmu.ready, session, booted', recovery', booted, recovery);
    }

    /** What every operation keeps, against the state before it: the latch and the PAS calls, the history of contexts,
        accepted requests, and which records are unbacked. */
    ghost predicate Since(op: Op, rc: Rc, recovery': bool, pasCalls': nat, issuedAt': map<nat, nat>,
                          held': map<nat, seq<MapRecord>>, epoch': nat, pending': seq<Pending>, maps': seq<MapRecord>,
                          unbacked': set<nat>)
      reads `recovery, `pasCalls, `issuedAt, `held, `epoch, `pending, `maps, `unbacked
    {
      && (recovery' ==> recovery && pasCalls == pasCalls')
      && History(issuedAt', held', issuedAt, held)
      && |pending| == |pending'| && epoch >= epoch'
      && (forall k :: 0 <= k < |pending| ==> StaysAccepted(pending'[k], pending[k], op, epoch > epoch'))
      && (forall j :: InFlight(pending, j) ==> (j in unbacked <==> j in unbacked'))
      && MarksFrom(op, rc, maps', unbacked', maps, unbacked)
    }

    // The dispatcher, in parts.
    method ControlMmap(op: Op) returns (rc: Rc)
      requires Valid() && Consistent() && OpOk(op) && op.OpMmap?
      modifies this, smmu, smmu.mem, smmu.l2, smmu.l3
      ensures Valid() && Consistent()
      ensures Since(op, rc, old(recovery), old(pasCalls), old(issuedAt), old(held), old(epoch), old(pending),
                    old(maps), old(unbacked))
    {
      hide Transport.Valid, Coherent, History, RangeMap, RangeKeys, Live, SameRequest, OwnedDma, InFlight,
           Transport.FirstMatch, Transport.Admissible, Room, Pow2, Translated, Matches, NoneUsed, DevAddr, Aligned,
           Pages, MarksFrom, StaysAccepted;
      HistoryKept(issuedAt, held);
      RequestsSame();
      Sized();
      Stayed(pending, pending, op);
      var devaddr: nat;
      ghost var slot: nat;
      rc, devaddr, slot := Mmap(op.sess, op.pfn, op.size, op.capacity, op.pinOk, op.cpu, op.tlbi, op.retry);
      Sized();
      OneMarked(op, rc, old(maps), old(unbacked), maps, unbacked, slot);
    }

    method ControlMunmap(op: Op) returns (rc: Rc)
      requires Valid() && Consistent() && op.OpMunmap?
      modifies this, smmu, smmu.mem, smmu.l2, smmu.l3
      ensures Valid() && Consistent()
      ensures Since(op, rc, old(recovery), old(pasCalls), old(issuedAt), old(held), old(epoch), old(pending),
                    old(maps), old(unbacked))
    {
      hide Transport.Valid, Coherent, History, RangeMap, RangeKeys, Live, SameRequest, OwnedDma, InFlight,
           Transport.FirstMatch, Transport.Admissible, Room, Pow2, Translated, Matches, NoneUsed, DevAddr, Aligned,
           Pages, MarksFrom, StaysAccepted;
      HistoryKept(issuedAt, held);
      RequestsSame();
      Sized();
      Stayed(pending, pending, op);
      ghost var slot: nat;
      rc, slot := Munmap(op.sid, op.iova, op.size, op.tlbi, op.unpinOk);
      Sized();
      OneMarked(op, rc, old(maps), old(unbacked), maps, unbacked, slot);
    }

    method ControlRequests(op: Op) returns (rc: Rc)
      requires Valid() && Consistent() && OpOk(op) && RequestOp(op)
      modifies this, smmu, smmu.mem, smmu.l2, smmu.l3
      ensures Valid() && Consistent()
      ensures Since(op, rc, old(recovery), old(pasCalls), old(issuedAt), old(held), old(epoch), old(pending),
                    old(maps), old(unbacked))
    {
      hide Transport.Valid, Coherent, Owns, History, PacketOk, PacketMask, BufferMask, RangeMap, RangeKeys, Live,
           SameRequest, Delivered, Vacant, Names, AnyUnfinished, OwnedDma, InFlight, Transport.FirstMatch,
           Transport.Admissible, Transport.Submittable, Transport.Releasable, Room, Pow2, Translated,
           Matches, NoneUsed, Idle, DevAddr, MarksFrom, MarksKept, Aligned, Pages;
      HistoryKept(issuedAt, held);
      RequestsSame();
      MarksSame(op, maps, unbacked);
      Sized();
      match op {
      case OpSubmit(pa, payload, capacity, sample, remoteFatal, early, intent, late, sent) =>
        if session == 0 || |payload| == 0 || |payload| > MAX_FW || pa % PAGE != 0 {
          return Invalid;
        }
        ghost var slot: nat;
        rc, slot := Submit(pa, payload, capacity, sample, remoteFatal, early, intent, late, sent);
        Latched(old(booted), old(recovery));
      case OpPoll(pa, size, capacity, sample, remoteFatal, rs, reply, release) =>
        if session == 0 || size == 0 || size > MAX_FW || pa % PAGE != 0 {
          return Invalid;
        }
        ghost var slot: nat;
        rc, slot := Poll(pa, size, capacity, sample, remoteFatal, rs, reply, release);
        Sized();
        WindowsMarked(op, rc, old(maps), old(unbacked), maps);
      }
      Sized();
    }

    method ControlStart(op: Op) returns (rc: Rc)
      requires Valid() && Consistent() && OpOk(op) && StartOp(op) && !recovery
      modifies this, smmu, smmu.mem, smmu.l2, smmu.l3
      ensures Valid() && Consistent()
      ensures Since(op, rc, old(recovery), old(pasCalls), old(issuedAt), old(held), old(epoch), old(pending),
                    old(maps), old(unbacked))
    {
      hide Transport.Valid, Coherent, Owns, History, PacketOk, PacketMask, BufferMask, RangeMap, RangeKeys, Live,
           SameRequest, Delivered, Vacant, Names, AnyUnfinished, OwnedDma, InFlight, Transport.FirstMatch,
           Transport.Admissible, Transport.Submittable, Transport.Releasable, Room, Pow2, Translated,
           Matches, NoneUsed, Idle, DevAddr, MarksFrom, MarksKept, Aligned, Pages, StaysAccepted;
      HistoryKept(issuedAt, held);
      RequestsSame();
      MarksSame(op, maps, unbacked);
      Sized();
      match op {
      case OpInit(pa, size, capacity, sample, power, scm) =>
        rc := PasInit(pa, size, capacity, sample, power, scm);
        Latched(old(booted), old(recovery));
      case OpMem(argsOk, scm) =>
        rc := PasMem(argsOk, scm);
      case OpAuth(argsOk, scm, sample, remoteFatal, ready, items, opens, rs) =>
        rc := PasAuth(argsOk, scm, sample, remoteFatal, ready, items, opens, rs);
        Latched(old(booted), old(recovery));
      case OpBoot(owned, image, metaFits, sample, power, calls, stage, later, remoteFatal, ready, items, opens, rs) =>
        rc := PasBoot(owned, image, metaFits, sample, power, calls, stage, later, remoteFatal, ready, items, opens, rs);
        Latched(old(booted), old(recovery));
      }
      Sized();
      Stayed(old(pending), pending, op);
    }

    // Requests that keep everything but their completion stay accepted, whatever the operation.
    static lemma Stayed(before: seq<Pending>, after: seq<Pending>, op: Op)
      requires |before| == |after|
      requires forall k :: 0 <= k < |after| && before[k].ctx != 0 ==> SameRequest(before[k], after[k])
      ensures forall k, stopped :: 0 <= k < |after| ==> StaysAccepted(before[k], after[k], op, stopped)
    {
    }

    method ControlDown(op: Op) returns (rc: Rc)
      requires Valid() && Consistent() && (op.OpClose? || op.OpStop?)
      modifies this, smmu, smmu.mem, smmu.l2, smmu.l3
      ensures Valid() && Consistent()
      ensures Since(op, rc, old(recovery), old(pasCalls), old(issuedAt), old(held), old(epoch), old(pending),
                    old(maps), old(unbacked))
    {
      hide Transport.Valid, Coherent, History, SameRequest, AnyUnfinished, InFlight, Transport.Releasable, NoneUsed,
           Idle, MarksFrom, MarksKept;
      HistoryKept(issuedAt, held);
      RequestsSame();
      Sized();
      match op {
      case OpStop(sample, remoteFatal, rs, during, sysmon, last, stopAck, scm, hw, stuck, power) =>
        rc := PasStop(sample, remoteFatal, rs, during, sysmon, last, stopAck, scm, hw, stuck, power);
      case OpClose(arg, hw, stuck) =>
        rc := Close(arg, hw, stuck);
      }
      Sized();
      NoneMarked(op, rc, old(maps), old(unbacked), maps, unbacked);
      if Idle(pending) {
        IdleHoldsNothing(pending);
      }
    }

    method ControlRest(op: Op) returns (rc: Rc)
      requires Valid() && Consistent() && OpOk(op)
      requires op.OpStatus? || op.OpSmmuCheck? || op.OpDump? || (op.OpSession? && !recovery)
      modifies this, smmu, smmu.mem, smmu.l2, smmu.l3
      ensures Valid() && Consistent()
      ensures Since(op, rc, old(recovery), old(pasCalls), old(issuedAt), old(held), old(epoch), old(pending),
                    old(maps), old(unbacked))
    {
      hide Transport.Valid, Coherent, Owns, History, PacketOk, PacketMask, BufferMask, RangeMap, RangeKeys, Live,
           SameRequest, Delivered, Vacant, Names, AnyUnfinished, OwnedDma, InFlight, Transport.FirstMatch,
           Transport.Admissible, Transport.Submittable, Transport.Releasable, Room, Pow2, Translated,
           Matches, NoneUsed, Idle, DevAddr, MarksFrom, MarksKept, Aligned, Pages;
      HistoryKept(issuedAt, held);
      RequestsSame();
      MarksSame(op, maps, unbacked);
      Sized();
      match op {
      case OpSession(arg, sample, remoteFatal, ready, items, opens, rs, again, againReady, intent, probe, bits,
                     cpu, setup, hw) =>
        rc := Session(arg, sample, remoteFatal, ready, items, opens, rs, again, againReady, intent, probe, bits,
                      cpu, setup, hw);
      case OpStatus(sample, remoteFatal) =>
        if booted {
          var fatal := RefreshState(sample, remoteFatal);
        }
        Latched(old(booted), old(recovery));
        rc := Ok;
      case OpSmmuCheck(probe, bits, cpu, setup, hw, hwStop) =>
        rc := SmmuCheck(probe, bits, cpu, setup, hw, hwStop);
      case OpDump(pa, offset, size, capacity) =>
        rc := DumpRead(pa, offset, size, capacity);
      }
      Sized();
    }

    /** platform_control_npu: one syscall, in any state, with any environment. */
    method Control(op: Op) returns (rc: Rc)
      requires Valid() && Consistent() && OpOk(op)
      modifies this, smmu, smmu.mem, smmu.l2, smmu.l3
      ensures Valid() && Consistent()
      ensures old(recovery) ==> recovery && pasCalls == old(pasCalls)
      ensures History(old(issuedAt), old(held), issuedAt, held)
      ensures |pending| == |old(pending)| && epoch >= old(epoch)
      ensures forall k :: 0 <= k < |pending| ==> StaysAccepted(old(pending)[k], pending[k], op, epoch > old(epoch))
      ensures forall j :: InFlight(pending, j) ==> (j in unbacked <==> j in old(unbacked))
      ensures MarksFrom(op, rc, old(maps), old(unbacked), maps, unbacked)
      ensures old(recovery) && Restarts(op) ==> rc == Failed && unchanged(this)
    {
      hide Transport.Valid, History, Coherent, SameRequest, InFlight, MarksFrom, StaysAccepted;
      HistoryKept(issuedAt, held);
      RequestsSame();
      MarksSame(op, maps, unbacked);
      Stayed(pending, pending, op);
      if recovery && Restarts(op) {
        return Failed;
      }
      if op.OpMmap? {
        rc := ControlMmap(op);
      } else if op.OpMunmap? {
        rc := ControlMunmap(op);
      } else if op.OpClose? || op.OpStop? {
        rc := ControlDown(op);
      } else if RequestOp(op) {
        rc := ControlRequests(op);
      } else if StartOp(op) {
        rc := ControlStart(op);
      } else {
        rc := ControlRest(op);
      }
    }

    /** MMAP of a new buffer, MUNMAP whose TLB sync fails, MMAP of the buffer again: the second MMAP succeeds with the
        first one's address, and not one page of the window is translated. */
    method RemapAfterFailedSync(pfn: nat, size: nat, capacity: nat, cpu: nat -> bool)
      returns (first: nat, again: nat, ghost slot: nat)
      requires Valid() && Consistent() && size <= Wire.UINT32_MAX && Admissible(session, pfn, size, capacity)
      requires FirstMatch(session, pfn, size) == MAP_MAX && exists i :: 0 <= i < MAP_MAX && !maps[i].used
      requires Aligned(size) <= IOVA_TOP - nextIova && pfn * PAGE + Aligned(size) <= Pow2(smmu.paBits)
      requires Room(smmu.free, smmu.paBits, cpu, 2 * Pages(size))
      modifies this`recovery, this`maps, this`nextIova, this`pins, this`unbacked, smmu, smmu.mem, smmu.l2, smmu.l3
      ensures Valid() && Consistent() && !recovery && smmu.ready
      ensures again == first && slot < MAP_MAX && maps[slot].used && DevAddr(maps[slot].iova) == again
      ensures Matches(maps[slot], session, pfn * PAGE, size) && Untranslated(maps[slot], smmu.flat)
    {
      hide Transport.Valid, Coherent, Room, Pow2, RangeMap, RangeKeys, Live, InFlight, FirstFrom, Translated,
          Untranslated;
      SessionRules();
      FreeSlotsNotHeld();
      var rc;
      rc, first, slot := Mmap(session, pfn, size, capacity, true, cpu, true, true);
      Sized();
      RangeAdded(old(smmu.flat), old(nextIova) / PAGE, pfn, Pages(size));
      UnmapWithoutSync(first % 0x1_0000_0000, size, slot);
      ghost var slot2;
      rc, again, slot2 := Mmap(session, pfn, size, capacity, true, cpu, true, true);
      MarkedUntranslated(slot);
    }

    // The last unmap of a backed record, when the TLB sync does not complete: the record stays and is unbacked.
    method UnmapWithoutSync(iova: nat, size: nat, ghost slot: nat)
      requires Valid() && Consistent() && smmu.ready && session != 0 && size != 0
      requires slot < MAP_MAX && Names(maps[slot], session, iova, size) && maps[slot].refs == 1
                && !InFlight(pending, slot)
      requires RangeKeys(iova / PAGE, maps[slot].size / PAGE) <= smmu.flat.Keys
      modifies this`recovery, this`maps, this`nextIova, this`pins, this`unbacked, smmu, smmu.mem, smmu.l2, smmu.l3
      ensures Valid() && Consistent() && smmu.ready && unchanged(`maps, `recovery) && slot in unbacked
    {
      hide Transport.Valid, Coherent, RangeMap, RangeKeys, Live, InFlight;
      Sized();
      OnlyAt(slot);
      var rc;
      ghost var other;
      rc, other := Munmap(SID, iova, size, false, true);
    }

    lemma FreeSlotsNotHeld()
      requires Valid()
      ensures forall i :: 0 <= i < MAP_MAX && !maps[i].used ==> !InFlight(pending, i)
    {
      forall i | 0 <= i < MAP_MAX && !maps[i].used
        ensures !InFlight(pending, i)
      {
        FreeSlotNotHeld(i);
      }
    }

    // An address names one record.
    lemma OnlyAt(slot: nat)
      requires Valid() && slot < MAP_MAX && maps[slot].used
      ensures forall i, sess, size :: 0 <= i < MAP_MAX && Names(maps[i], sess, maps[slot].iova, size) ==> i == slot
    {
      Records();
    }

    lemma MarkedUntranslated(i: nat)
      requires Consistent() && smmu.ready && i in unbacked
      ensures i < |maps| && maps[i].used && Untranslated(maps[i], smmu.flat)
    {
      assert BackedAt(maps[i], smmu.flat, i in unbacked);
    }

    /** What Valid() means for the device: whatever its page walk or TLB yields, for any page, lies in
        exactly one used record, which names the frame and holds a pin. */
    lemma DeviceReachIsOwned(v: nat, f: nat)
      requires Valid() && v < 0x800_0000 && (smmu.Walk(v) == Some(f) || (v, f) in smmu.tlb)
      ensures exists i :: 0 <= i < MAP_MAX && Translates(maps[i], v, f) && maps[i].pa in pins
                          && OnlyOwner(maps, i, v)
    {
      if smmu.Walk(v) == Some(f) {
        smmu.WalkIsFlat(v);
      }
      ExactlyOneOwner(maps, smmu.tlb, pins, v, f);
    }

    /** A window MMAP returned, or a request in flight uses, is translated page by page unless its record is
        unbacked. */
    lemma BackedWindow(i: nat, v: nat)
      requires Valid() && Consistent() && smmu.ready
      requires i < |maps| && maps[i].used && InRange(v, maps[i].iova / PAGE, maps[i].size / PAGE)
      ensures smmu.Walk(v) == if i in unbacked then None else Some(maps[i].pa / PAGE + (v - maps[i].iova / PAGE))
    {
      hide Tables.Valid, Tables.Walk, Owns, Retained, CursorOk, ContextsOk, LifecycleOk, DspDistinct;
      Records();
      assert BackedAt(maps[i], smmu.flat, i in unbacked);
      assert v in smmu.flat || v !in smmu.flat;
      smmu.WalkIsFlat(v);
    }

    // What the device finds at page v of a record's window.
    static function Shown(m: MapRecord, marked: bool, v: nat): Option<nat>
      requires m.iova / PAGE <= v
    {
      if marked then None else Some(m.pa / PAGE + (v - m.iova / PAGE))
    }

    // The windows of requests in flight are walked as their records say.
    ghost predicate AllShown()
      requires smmu.Shape()
      reads `pending, `maps, `unbacked, smmu, smmu.mem
    {
      forall k, j, v :: && 0 <= k < |pending| && pending[k].ctx != 0 && j in pending[k].maps && j < |maps|
                        && InRange(v, maps[j].iova / PAGE, maps[j].size / PAGE) ==>
        smmu.Walk(v) == Shown(maps[j], j in unbacked, v)
    }

    lemma InFlightShown()
      requires Valid() && Consistent()
      ensures AllShown()
    {
      hide Tables.Owned, Tables.Conserved, Tables.Linked, Tables.Flattened, Tables.Walk, Owns, Retained, CursorOk,
           ContextsOk, LifecycleOk, Coherent, Shown;
      forall k, j, v | && 0 <= k < |pending| && pending[k].ctx != 0 && j in pending[k].maps && j < |maps|
                       && InRange(v, maps[j].iova / PAGE, maps[j].size / PAGE)
        ensures smmu.Walk(v) == Shown(maps[j], j in unbacked, v)
      {
        InFlightWalk(k, j, v);
      }
    }

    lemma InFlightWalk(k: nat, j: nat, v: nat)
      requires Valid() && Consistent() && k < |pending| && pending[k].ctx != 0 && j in pending[k].maps && j < |maps|
      requires InRange(v, maps[j].iova / PAGE, maps[j].size / PAGE)
      ensures smmu.Walk(v) == Shown(maps[j], j in unbacked, v)
    {
      hide Tables.Valid, Tables.Walk, Owns, CursorOk, ContextsOk, LifecycleOk, Coherent;
      assert Holds(pending[k], maps, held);
      BackedWindow(j, v);
    }

    // A request of before is as it was, and the records it holds are marked as they were.
    ghost predicate Kept(before: Pending, k: nat, unbacked': set<nat>)
      requires k < |pending|
      reads `pending, `unbacked
    {
      SameRequest(before, pending[k]) && forall j :: j in before.maps ==> (j in unbacked <==> j in unbacked')
    }

    /** Request k is as it was, its records have the windows they had, and the device walks every page of them as
        before. */
    twostate predicate Survives(k: nat)
      requires old(Valid()) && Valid() && k < PENDING_MAX
      reads this, smmu, smmu.mem, smmu.l2, smmu.l3
    {
      && SameRequest(old(pending)[k], pending[k])
      && forall j, v :: && j in old(pending)[k].maps && j < MAP_MAX
                        && InRange(v, old(maps)[j].iova / PAGE, old(maps)[j].size / PAGE) ==>
           SameWindow(old(maps)[j], maps[j]) && smmu.Walk(v) == old(smmu.Walk(v))
    }

    // One syscall after another.
    method Steps(ops: seq<Op>) returns (rcs: seq<Rc>)
      requires Valid() && Consistent() && forall i :: 0 <= i < |ops| ==> OpOk(ops[i])
      modifies this, smmu, smmu.mem, smmu.l2, smmu.l3
      ensures Valid() && Consistent() && |rcs| == |ops|
      ensures old(recovery) ==> recovery && pasCalls == old(pasCalls)
      ensures History(old(issuedAt), old(held), issuedAt, held)
      ensures |pending| == |old(pending)| && epoch >= old(epoch)
      ensures MarksRun(ops, rcs, old(maps), old(unbacked), maps, unbacked)
      ensures forall k :: 0 <= k < |pending| && old(pending)[k].ctx != 0 ==>
                || Kept(old(pending)[k], k, old(unbacked))
                || (exists op :: op in ops && op.OpPoll? && op.pa == old(pending)[k].pa)
                || (epoch > old(epoch) && exists op :: op in ops && op.OpStop?)
    {
      hide Transport.Valid, Coherent, History, OpOk, MarksFrom, MarksRun, MarkKept;
      HistoryKept(issuedAt, held);
      MarksStart(ops, maps, unbacked);
      rcs := [];
      for i := 0 to |ops|
        invariant Valid() && Consistent() && |rcs| == i
        invariant old(recovery) ==> recovery && pasCalls == old(pasCalls)
        invariant History(old(issuedAt), old(held), issuedAt, held)
        invariant |pending| == |old(pending)| && epoch >= old(epoch)
        invariant MarksRun(ops, rcs, old(maps), old(unbacked), maps, unbacked)
        invariant forall k :: 0 <= k < |pending| && old(pending)[k].ctx != 0 ==>
                    || Kept(old(pending)[k], k, old(unbacked))
                    || (exists op :: op in ops[..i] && op.OpPoll? && op.pa == old(pending)[k].pa)
                    || (epoch > old(epoch) && exists op :: op in ops[..i] && op.OpStop?)
      {
        ghost var issued, snapshots, records, marks := issuedAt, held, maps, unbacked;
        var rc := Control(ops[i]);
        MarksOn(ops, rcs, rc, old(maps), old(unbacked), records, marks, maps, unbacked);
        HistoryOn(old(issuedAt), old(held), issued, snapshots, issuedAt, held);
        rcs := rcs + [rc];
        assert ops[..i + 1] == ops[..i] + [ops[i]];
      }
      assert ops[..|ops|] == ops;
    }

    /** Any run of syscalls keeps every guarantee of Valid() and Consistent(); once latched, it never restarts the
        DSP.  A request in flight before the run is in flight after it, with its windows and their translation, unless
        a POLL named its payload or a shutdown succeeded.  A record is unbacked only if it was before the run, or
        some call failed on it. */
    method Run(ops: seq<Op>) returns (rcs: seq<Rc>)
      requires Valid() && Consistent() && forall i :: 0 <= i < |ops| ==> OpOk(ops[i])
      modifies this, smmu, smmu.mem, smmu.l2, smmu.l3
      ensures Valid() && Consistent() && |rcs| == |ops|
      ensures old(recovery) ==> recovery && pasCalls == old(pasCalls)
      ensures History(old(issuedAt), old(held), issuedAt, held) && epoch >= old(epoch)
      ensures forall k :: 0 <= k < PENDING_MAX && old(pending)[k].ctx != 0 ==>
                || Survives(k)
                || (exists op :: op in ops && op.OpPoll? && op.pa == old(pending)[k].pa)
                || (epoch > old(epoch) && exists op :: op in ops && op.OpStop?)
      ensures MarksRun(ops, rcs, old(maps), old(unbacked), maps, unbacked)
    {
      hide Transport.Tracked, Coherent, MarksRun;
      Sized();
      InFlightShown();
      Requests();
      rcs := Steps(ops);
      Sized();
      InFlightShown();
      Requests();
      forall k | 0 <= k < PENDING_MAX && old(pending)[k].ctx != 0 && Kept(old(pending)[k], k, old(unbacked))
        ensures Survives(k)
      {
        SameWindows(old(pending)[k], old(maps), old(held), pending[k], maps, held);
      }
    }

    // A request in flight holds its records, under a context that was issued.
    lemma Requests()
      requires Valid()
      ensures forall k :: 0 <= k < |pending| && pending[k].ctx != 0 ==>
                Holds(pending[k], maps, held) && pending[k].ctx in issuedAt
    {
    }

    static lemma HistoryOn(i0: map<nat, nat>, h0: map<nat, seq<MapRecord>>, i1: map<nat, nat>,
                           h1: map<nat, seq<MapRecord>>, i2: map<nat, nat>, h2: map<nat, seq<MapRecord>>)
      requires History(i0, h0, i1, h1) && History(i1, h1, i2, h2)
      ensures History(i0, h0, i2, h2)
    {
    }
  }
}
