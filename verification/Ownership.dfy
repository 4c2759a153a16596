/** The ownership table of q8b/kernel/bsp/npu_pas.c (npu_frpc_maps): which DMA buffer is published at
    which device address, and the facts about it that no operation may break. */
module Ownership {
  import opened Smmu

  const MAP_MAX: nat := 64
  const PENDING_MAX: nat := 4
  const IOVA_BASE: nat := 0x1000_0000
  const IOVA_TOP: nat := 0xF000_0000

  datatype MapRecord = MapRecord(used: bool, pa: nat, size: nat, iova: nat, dspVaddr: nat, session: nat, refs: nat)

  // An accepted request; ctx == 0 marks an empty slot.  `maps` is the saved 64-bit mapping mask.
  datatype Pending = Pending(ctx: nat, pa: nat, size: nat, maps: set<nat>, handle: nat, sc: nat,
                             retval: int, done: bool)

  const NO_RECORD := MapRecord(false, 0, 0, 0, 0, 0, 0)
  const NO_REQUEST := Pending(0, 0, 0, {}, 0, 0, 0, false)
  const NO_REQUESTS: seq<Pending> := [NO_REQUEST, NO_REQUEST, NO_REQUEST, NO_REQUEST]

  predicate RecordOk(m: MapRecord) {
    m.used ==>
      && 0 < m.size && m.size % PAGE == 0 && m.pa % PAGE == 0 && m.iova % PAGE == 0
      && IOVA_BASE <= m.iova && m.iova + m.size <= IOVA_TOP && 1 <= m.refs <= 0xFFFF_FFFF
  }

  /** The record says that device page v is backed by frame f. */
  predicate Translates(m: MapRecord, v: nat, f: nat) {
    m.used && InRange(v, m.iova / PAGE, m.size / PAGE) && f == m.pa / PAGE + (v - m.iova / PAGE)
  }

  predicate Apart(a: MapRecord, b: MapRecord) {
    a.used && b.used ==> a.iova + a.size <= b.iova || b.iova + b.size <= a.iova
  }

  // Equal in everything the device and the allocator can see.
  predicate SameWindow(a: MapRecord, b: MapRecord) {
    a.used == b.used && a.pa == b.pa && a.size == b.size && a.iova == b.iova
  }

  predicate Disjoint(maps: seq<MapRecord>) {
    forall i, j :: 0 <= i < j < |maps| ==> Apart(maps[i], maps[j])
  }

  predicate CoveredBy(maps: seq<MapRecord>, v: nat, f: nat) {
    exists i :: 0 <= i < |maps| && Translates(maps[i], v, f)
  }

  predicate Covered(reach: set<(nat, nat)>, maps: seq<MapRecord>) {
    forall e :: e in reach ==> CoveredBy(maps, e.0, e.1)
  }

  /** One pin per used record, on the buffer the record names. */
  function PinsOf(maps: seq<MapRecord>): multiset<nat> {
    if maps == [] then multiset{} else PinsOf(maps[..|maps| - 1]) + PinOf(maps[|maps| - 1])
  }

  function PinOf(m: MapRecord): multiset<nat> {
    if m.used then multiset{m.pa} else multiset{}
  }

  /** Reachable translations are recorded, records do not overlap, and pins count records. */
  predicate Owns(maps: seq<MapRecord>, reach: set<(nat, nat)>, pins: multiset<nat>) {
    && |maps| == MAP_MAX
    && (forall i :: 0 <= i < |maps| ==> RecordOk(maps[i]))
    && Disjoint(maps)
    && Covered(reach, maps)
    && pins == PinsOf(maps)
  }

  /** Every live record below the allocation cursor, so that a new one cannot overlap it. */
  predicate BelowCursor(maps: seq<MapRecord>, cursor: nat) {
    forall i :: 0 <= i < |maps| && maps[i].used ==> maps[i].iova + maps[i].size <= cursor
  }

  // Putting r in place of record i, stated with sums only.
  lemma {:induction false} PinsExchange(maps: seq<MapRecord>, i: nat, r: MapRecord)
    requires i < |maps|
    ensures PinOf(maps[i]) <= PinsOf(maps)
    ensures PinsOf(maps[i := r]) + PinOf(maps[i]) == PinsOf(maps) + PinOf(r)
  {
    hide PinOf;
    var n := |maps| - 1;
    var rest := maps[..n];
    if i == n {
      assert maps[i := r][..n] == rest;
      Rearranged(PinsOf(rest), PinOf(r), PinOf(maps[n]));
    } else {
      PinsExchange(rest, i, r);
      assert maps[i := r][..n] == rest[i := r];
      Carried(PinsOf(rest[i := r]), PinOf(maps[i]), PinsOf(rest), PinOf(r), PinOf(maps[n]));
    }
  }

  lemma Rearranged(a: multiset<nat>, b: multiset<nat>, c: multiset<nat>)
    ensures (a + b) + c == (a + c) + b && c <= a + c
  {
  }

  lemma Carried(a: multiset<nat>, b: multiset<nat>, c: multiset<nat>, d: multiset<nat>, e: multiset<nat>)
    requires a + b == c + d && b <= c
    ensures (a + e) + b == (c + e) + d && b <= c + e
  {
    Rearranged(a, e, b);
    Rearranged(c, e, d);
  }

  lemma PinsUpdate(maps: seq<MapRecord>, i: nat, r: MapRecord)
    requires i < |maps|
    ensures PinOf(maps[i]) <= PinsOf(maps)
    ensures PinsOf(maps[i := r]) == PinsOf(maps) - PinOf(maps[i]) + PinOf(r)
  {
    hide PinOf, PinsOf;
    PinsExchange(maps, i, r);
    Difference(PinsOf(maps[i := r]), PinOf(maps[i]), PinsOf(maps), PinOf(r));
  }

  lemma Difference(a: multiset<nat>, b: multiset<nat>, c: multiset<nat>, d: multiset<nat>)
    requires a + b == c + d && b <= c
    ensures a == c - b + d
  {
    forall x: nat
      ensures a[x] == (c - b + d)[x]
    {
      assert (a + b)[x] == (c + d)[x];
    }
  }

  function Naming(maps: seq<MapRecord>, pa: nat): set<nat> {
    set i | 0 <= i < |maps| && maps[i].used && maps[i].pa == pa
  }

  lemma NamingExtends(maps: seq<MapRecord>, pa: nat)
    requires maps != []
    ensures var n := |maps| - 1;
            n !in Naming(maps[..n], pa)
            && Naming(maps, pa) == if maps[n].used && maps[n].pa == pa then Naming(maps[..n], pa) + {n}
                else Naming(maps[..n], pa)
  {
    var n := |maps| - 1;
    assert forall i :: 0 <= i < n ==> maps[..n][i] == maps[i];
  }

  /** A buffer's pin count is the number of used records that name it. */
  lemma {:induction false} PinsCount(maps: seq<MapRecord>, pa: nat)
    ensures PinsOf(maps)[pa] == |Naming(maps, pa)|
  {
    if maps == [] {
      assert Naming(maps, pa) == {};
    } else {
      hide Naming;
      PinsCount(maps[..|maps| - 1], pa);
      NamingExtends(maps, pa);
    }
  }

  /** No used record but i has page v in its window. */
  predicate OnlyOwner(maps: seq<MapRecord>, i: nat, v: nat) {
    forall j :: 0 <= j < |maps| && maps[j].used && InRange(v, maps[j].iova / PAGE, maps[j].size / PAGE) ==> j == i
  }

  /** A page the device can reach belongs to one record and no other. */
  lemma ExactlyOneOwner(maps: seq<MapRecord>, reach: set<(nat, nat)>, pins: multiset<nat>, v: nat, f: nat)
    requires Owns(maps, reach, pins) && (v, f) in reach
    ensures exists i :: 0 <= i < MAP_MAX && Translates(maps[i], v, f) && maps[i].pa in pins
                        && OnlyOwner(maps, i, v)
  {
    assert CoveredBy(maps, (v, f).0, (v, f).1);
    var i :| 0 <= i < |maps| && Translates(maps[i], v, f);
    PinsUpdate(maps, i, NO_RECORD);
    assert maps[i].pa in PinOf(maps[i]);
    forall j | 0 <= j < MAP_MAX && j != i && maps[j].used
      ensures !InRange(v, maps[j].iova / PAGE, maps[j].size / PAGE)
    {
      PagesApart(maps, i, j, v);
    }
  }

  lemma PagesApart(maps: seq<MapRecord>, i: nat, j: nat, v: nat)
    requires Disjoint(maps) && i < |maps| && j < |maps| && i != j
    requires maps[i].used && RecordOk(maps[i]) && maps[j].used && RecordOk(maps[j])
    requires InRange(v, maps[i].iova / PAGE, maps[i].size / PAGE)
    ensures !InRange(v, maps[j].iova / PAGE, maps[j].size / PAGE)
  {
    assert if i < j then Apart(maps[i], maps[j]) else Apart(maps[j], maps[i]);
  }

  lemma DisjointUpdate(maps: seq<MapRecord>, i: nat, r: MapRecord)
    requires Disjoint(maps) && i < |maps|
    requires forall j :: 0 <= j < |maps| && j != i ==> Apart(maps[j], r)
    ensures Disjoint(maps[i := r])
  {
    hide Apart;
    var maps' := maps[i := r];
    forall a, b | 0 <= a < b < |maps|
      ensures Apart(maps'[a], maps'[b])
    {
      assert Apart(maps[a], maps[b]);
      if a == i {
        ApartSymmetric(maps[b], r);
      }
    }
  }

  lemma ApartSymmetric(a: MapRecord, b: MapRecord)
    requires Apart(a, b)
    ensures Apart(b, a)
  {
  }

  lemma CoveredUpdate(maps: seq<MapRecord>, i: nat, r: MapRecord, reach: set<(nat, nat)>, reach': set<(nat, nat)>)
    requires Covered(reach, maps) && i < |maps|
    requires forall e :: e in reach' && e !in reach ==> Translates(r, e.0, e.1)
    requires forall e :: e in reach' && Translates(maps[i], e.0, e.1) ==> Translates(r, e.0, e.1)
    ensures Covered(reach', maps[i := r])
  {
    hide Translates;
    var maps' := maps[i := r];
    forall e | e in reach'
      ensures CoveredBy(maps', e.0, e.1)
    {
      if e in reach {
        assert CoveredBy(maps, e.0, e.1);
        var j :| 0 <= j < |maps| && Translates(maps[j], e.0, e.1);
        assert Translates(maps'[j], e.0, e.1);
      } else {
        assert Translates(maps'[i], e.0, e.1);
      }
    }
  }

  // Recording a pinned buffer in a free slot above every other record.
  lemma RecordAdded(maps: seq<MapRecord>, reach: set<(nat, nat)>, pins: multiset<nat>, i: nat, r: MapRecord)
    requires Owns(maps, reach, pins) && i < MAP_MAX && !maps[i].used
    requires r.used && RecordOk(r) && BelowCursor(maps, r.iova)
    ensures Owns(maps[i := r], reach, pins + multiset{r.pa})
  {
    hide PinsOf, Disjoint, Covered;
    PinsUpdate(maps, i, r);
    CoveredUpdate(maps, i, r, reach, reach);
    DisjointUpdate(maps, i, r);
  }

  // Publishing the pages of a recorded buffer, all or some.
  lemma RecordReached(maps: seq<MapRecord>, reach: set<(nat, nat)>, pins: multiset<nat>, i: nat,
                      reach': set<(nat, nat)>)
    requires Owns(maps, reach, pins) && i < MAP_MAX && maps[i].used
    requires reach' <= reach + Live(RangeMap(maps[i].iova / PAGE, maps[i].pa / PAGE, maps[i].size / PAGE))
    ensures Owns(maps, reach', pins)
  {
    hide PinsOf, Disjoint, Covered;
    CoveredUpdate(maps, i, maps[i], reach, reach');
    assert maps[i := maps[i]] == maps;
  }

  // Dropping a record none of whose pages is reachable any more.
  lemma RecordRemoved(maps: seq<MapRecord>, reach: set<(nat, nat)>, pins: multiset<nat>,
                      i: nat, r: MapRecord, reach': set<(nat, nat)>)
    requires Owns(maps, reach, pins) && i < MAP_MAX && maps[i].used && !r.used
    requires reach' <= reach
    requires forall e :: e in reach' ==> !InRange(e.0, maps[i].iova / PAGE, maps[i].size / PAGE)
    ensures Owns(maps[i := r], reach', pins - multiset{maps[i].pa})
  {
    hide PinsOf, Disjoint, Covered;
    PinsUpdate(maps, i, r);
    CoveredUpdate(maps, i, r, reach, reach');
    DisjointUpdate(maps, i, r);
  }

  // Reference counts and DSP addresses are invisible to the device and the allocator.
  lemma RecordTouched(maps: seq<MapRecord>, reach: set<(nat, nat)>, pins: multiset<nat>, i: nat, r: MapRecord)
    requires Owns(maps, reach, pins) && i < MAP_MAX && SameWindow(maps[i], r) && RecordOk(r)
    ensures Owns(maps[i := r], reach, pins)
  {
    hide PinsOf, Covered;
    PinsUpdate(maps, i, r);
    CoveredUpdate(maps, i, r, reach, reach);
    forall j | 0 <= j < |maps| && j != i
      ensures Apart(maps[j], r)
    {
      assert j < i ==> Apart(maps[j], maps[i]);
      assert i < j ==> Apart(maps[i], maps[j]);
    }
    DisjointUpdate(maps, i, r);
  }

  lemma ReachShrinks(maps: seq<MapRecord>, reach: set<(nat, nat)>, pins: multiset<nat>, reach': set<(nat, nat)>)
    requires Owns(maps, reach, pins) && reach' <= reach
    ensures Owns(maps, reach', pins)
  {
    forall e | e in reach'
      ensures CoveredBy(maps, e.0, e.1)
    {
    }
  }

  /** Requests in flight: distinct, and each keeps the mappings it was accepted with (held[ctx] is
      the ownership table at acceptance). */
  predicate Retained(pending: seq<Pending>, maps: seq<MapRecord>, held: map<nat, seq<MapRecord>>) {
    && |pending| == PENDING_MAX
    && (forall k, l :: 0 <= k < l < |pending| && pending[k].ctx != 0 && pending[l].ctx != 0 ==>
          pending[k].ctx != pending[l].ctx && pending[k].pa != pending[l].pa)
    && (forall k :: 0 <= k < |pending| && pending[k].ctx != 0 ==> Holds(pending[k], maps, held))
  }

  predicate Holds(p: Pending, maps: seq<MapRecord>, held: map<nat, seq<MapRecord>>) {
    && p.ctx in held && |held[p.ctx]| == MAP_MAX && |maps| == MAP_MAX
    && (exists j :: j in p.maps && 0 <= j < MAP_MAX && maps[j].pa == p.pa && p.size <= maps[j].size)
    && (forall j :: j in p.maps ==> j < MAP_MAX && maps[j].used && SameWindow(maps[j], held[p.ctx][j]))
  }

  predicate InFlight(pending: seq<Pending>, i: nat) {
    exists k :: 0 <= k < |pending| && pending[k].ctx != 0 && i in pending[k].maps
  }

  // Only the window of a record matters to the requests that hold it.
  lemma RetainedUpdate(pending: seq<Pending>, maps: seq<MapRecord>, held: map<nat, seq<MapRecord>>, i: nat,
                       r: MapRecord)
    requires Retained(pending, maps, held) && |maps| == MAP_MAX && i < MAP_MAX
    requires SameWindow(maps[i], r) || !InFlight(pending, i)
    ensures Retained(pending, maps[i := r], held)
  {
    var maps' := maps[i := r];
    forall k | 0 <= k < |pending| && pending[k].ctx != 0
      ensures Holds(pending[k], maps', held)
    {
      var p := pending[k];
      assert Holds(p, maps, held);
      var j :| j in p.maps && 0 <= j < MAP_MAX && maps[j].pa == p.pa && p.size <= maps[j].size;
      assert maps'[j].pa == p.pa && p.size <= maps'[j].size;
    }
  }

  /** A response touches only the result of a request. */
  predicate SameRequest(a: Pending, b: Pending) {
    b == a.(retval := b.retval, done := b.done)
  }

  lemma RetainedResponse(pending: seq<Pending>, maps: seq<MapRecord>, held: map<nat, seq<MapRecord>>,
                         pending': seq<Pending>)
    requires Retained(pending, maps, held) && |pending'| == |pending|
    requires forall k :: 0 <= k < |pending| ==> SameRequest(pending[k], pending'[k])
    ensures Retained(pending', maps, held)
  {
    forall k | 0 <= k < |pending'| && pending'[k].ctx != 0
      ensures Holds(pending'[k], maps, held)
    {
      assert Holds(pending[k], maps, held);
    }
  }

  lemma RetainedAccept(pending: seq<Pending>, maps: seq<MapRecord>, held: map<nat, seq<MapRecord>>, slot: nat,
                       p: Pending)
    requires Retained(pending, maps, held) && |maps| == MAP_MAX && slot < PENDING_MAX && p.ctx != 0
    requires forall k :: 0 <= k < PENDING_MAX && k != slot && pending[k].ctx != 0 ==>
              pending[k].ctx != p.ctx && pending[k].pa != p.pa
    requires forall j :: j in p.maps ==> j < MAP_MAX && maps[j].used
    requires exists j :: j in p.maps && 0 <= j < MAP_MAX && maps[j].pa == p.pa && p.size <= maps[j].size
    ensures Retained(pending[slot := p], maps, held[p.ctx := maps])
  {
    var pending', held' := pending[slot := p], held[p.ctx := maps];
    assert Holds(p, maps, held');
    forall k | 0 <= k < PENDING_MAX && pending'[k].ctx != 0
      ensures Holds(pending'[k], maps, held')
    {
      if k != slot {
        assert Holds(pending[k], maps, held);
      }
    }
  }

  lemma RetainedClear(pending: seq<Pending>, maps: seq<MapRecord>, held: map<nat, seq<MapRecord>>, slot: nat)
    requires Retained(pending, maps, held) && slot < PENDING_MAX
    ensures Retained(pending[slot := NO_REQUEST], maps, held)
  {
    var pending' := pending[slot := NO_REQUEST];
    forall k | 0 <= k < PENDING_MAX && pending'[k].ctx != 0
      ensures Holds(pending'[k], maps, held)
    {
      assert Holds(pending[k], maps, held);
    }
  }

  lemma NothingRetained(maps: seq<MapRecord>, held: map<nat, seq<MapRecord>>)
    ensures Retained(NO_REQUESTS, maps, held)
  {
  }
}
