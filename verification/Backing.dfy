/** Which ownership records of q8b/kernel/bsp/npu_pas.c have translations behind them.  The record of an
    unmap whose TLB sync failed stays in the table although its pages are gone: it is unbacked. */
module Backing {
  import opened Ownership
  import opened Smmu

  /** Every page of the record's window is translated to the record's frames. */
  ghost predicate Translated(m: MapRecord, flat: map<nat, nat>) {
    forall v: nat {:trigger v in flat} :: InRange(v, m.iova / PAGE, m.size / PAGE) ==>
      v in flat && flat[v] == m.pa / PAGE + (v - m.iova / PAGE)
  }

  /** No page of the record's window is translated. */
  ghost predicate Untranslated(m: MapRecord, flat: map<nat, nat>) {
    forall v: nat {:trigger v in flat} :: InRange(v, m.iova / PAGE, m.size / PAGE) ==> v !in flat
  }

  ghost predicate BackedAt(m: MapRecord, flat: map<nat, nat>, unbacked: bool) {
    if unbacked then Untranslated(m, flat) else Translated(m, flat)
  }

  /** Used records are translated whole, except the unbacked ones, which are not at all. */
  ghost predicate Backed(maps: seq<MapRecord>, flat: map<nat, nat>, unbacked: set<nat>) {
    && (forall i :: i in unbacked ==> i < |maps| && maps[i].used)
    && (forall i :: 0 <= i < |maps| && maps[i].used ==> BackedAt(maps[i], flat, i in unbacked))
  }

  lemma NotBoth(m: MapRecord, flat: map<nat, nat>)
    requires m.used && RecordOk(m)
    ensures !(Translated(m, flat) && Untranslated(m, flat))
  {
    var v := m.iova / PAGE;
    assert InRange(v, m.iova / PAGE, m.size / PAGE);
    assert v in flat || v !in flat;
  }

  /** Unbacked means exactly that the window is not translated. */
  lemma BackedExactly(maps: seq<MapRecord>, flat: map<nat, nat>, unbacked: set<nat>, i: nat)
    requires Backed(maps, flat, unbacked) && i < |maps| && maps[i].used && RecordOk(maps[i])
    ensures Translated(maps[i], flat) <==> i !in unbacked
  {
    NotBoth(maps[i], flat);
  }

  predicate NoneUsed(maps: seq<MapRecord>) {
    forall i :: 0 <= i < |maps| ==> !maps[i].used
  }

  // A record is added before its pages are published: it starts out unbacked.
  lemma BackedAdd(maps: seq<MapRecord>, flat: map<nat, nat>, unbacked: set<nat>, i: nat, r: MapRecord)
    requires Backed(maps, flat, unbacked) && i < |maps| && !maps[i].used && r.used && Untranslated(r, flat)
    ensures Backed(maps[i := r], flat, unbacked + {i})
  {
    var maps' := maps[i := r];
    forall j | 0 <= j < |maps| && j != i && maps'[j].used
      ensures BackedAt(maps'[j], flat, j in unbacked + {i})
    {
      assert BackedAt(maps[j], flat, j in unbacked);
    }
  }

  // What changes outside a record's window does not touch it.
  lemma OtherWindow(m: MapRecord, flat: map<nat, nat>, flat': map<nat, nat>, unbacked: bool, r: MapRecord)
    requires BackedAt(m, flat, unbacked)
    requires forall v: nat :: InRange(v, m.iova / PAGE, m.size / PAGE) ==> !InRange(v, r.iova / PAGE, r.size / PAGE)
    requires forall v: nat :: !InRange(v, r.iova / PAGE, r.size / PAGE) ==> Lookup(flat', v) == Lookup(flat, v)
    ensures BackedAt(m, flat', unbacked)
  {
    forall v: nat | InRange(v, m.iova / PAGE, m.size / PAGE)
      ensures Lookup(flat', v) == Lookup(flat, v)
    {
    }
  }

  // The pages of no other used record.
  lemma OthersApart(maps: seq<MapRecord>, i: nat, j: nat)
    requires Disjoint(maps) && i < |maps| && j < |maps| && i != j && maps[i].used && maps[j].used
    requires RecordOk(maps[i]) && RecordOk(maps[j])
    ensures forall v: nat :: InRange(v, maps[j].iova / PAGE, maps[j].size / PAGE) ==>
              !InRange(v, maps[i].iova / PAGE, maps[i].size / PAGE)
  {
    forall v: nat | InRange(v, maps[j].iova / PAGE, maps[j].size / PAGE)
      ensures !InRange(v, maps[i].iova / PAGE, maps[i].size / PAGE)
    {
      PagesApart(maps, j, i, v);
    }
  }

  // Publishing a record's pages backs it, and leaves every other record as it was.
  lemma BackedPublish(maps: seq<MapRecord>, flat: map<nat, nat>, unbacked: set<nat>, i: nat)
    requires Backed(maps, flat, unbacked) && i < |maps| && maps[i].used && Disjoint(maps)
    requires forall j :: 0 <= j < |maps| ==> RecordOk(maps[j])
    ensures var m := maps[i];
            Backed(maps, flat + RangeMap(m.iova / PAGE, m.pa / PAGE, m.size / PAGE), unbacked - {i})
  {
    var flat' := flat + RangeMap(maps[i].iova / PAGE, maps[i].pa / PAGE, maps[i].size / PAGE);
    forall j | 0 <= j < |maps| && maps[j].used && j != i
      ensures BackedAt(maps[j], flat', j in unbacked)
    {
      assert BackedAt(maps[j], flat, j in unbacked);
      OthersApart(maps, i, j);
      OtherWindow(maps[j], flat, flat', j in unbacked, maps[i]);
    }
  }

  // Clearing a record's pages leaves every other record as it was.
  lemma BackedClear(maps: seq<MapRecord>, flat: map<nat, nat>, unbacked: set<nat>, i: nat)
    requires Backed(maps, flat, unbacked) && i < |maps| && maps[i].used && Disjoint(maps)
    requires forall j :: 0 <= j < |maps| ==> RecordOk(maps[j])
    ensures Backed(maps, flat - RangeKeys(maps[i].iova / PAGE, maps[i].size / PAGE), unbacked + {i})
  {
    var flat' := flat - RangeKeys(maps[i].iova / PAGE, maps[i].size / PAGE);
    forall j | 0 <= j < |maps| && maps[j].used && j != i
      ensures BackedAt(maps[j], flat', j in unbacked)
    {
      assert BackedAt(maps[j], flat, j in unbacked);
      OthersApart(maps, i, j);
      OtherWindow(maps[j], flat, flat', j in unbacked, maps[i]);
    }
  }

  lemma BackedDrop(maps: seq<MapRecord>, flat: map<nat, nat>, unbacked: set<nat>, i: nat, r: MapRecord)
    requires Backed(maps, flat, unbacked) && i < |maps| && !r.used
    ensures Backed(maps[i := r], flat, unbacked - {i})
  {
  }

  lemma BackedTouch(maps: seq<MapRecord>, flat: map<nat, nat>, unbacked: set<nat>, i: nat, r: MapRecord)
    requires Backed(maps, flat, unbacked) && i < |maps| && SameWindow(maps[i], r)
    ensures Backed(maps[i := r], flat, unbacked)
  {
    assert maps[i].used ==> BackedAt(maps[i], flat, i in unbacked);
  }

  /** No two used records have the same nonzero DSP address. */
  predicate DspDistinct(maps: seq<MapRecord>) {
    forall i, j :: 0 <= i < j < |maps| && maps[i].used && maps[j].used && maps[i].dspVaddr != 0 ==>
      maps[i].dspVaddr != maps[j].dspVaddr
  }

  /** How session, records and translation agree.  While the SMMU is ready each used record is backed unless it is
      marked; without the recovery latch, records live only in a session. */
  ghost predicate Coherent(maps: seq<MapRecord>, flat: map<nat, nat>, unbacked: set<nat>,
                           ready: bool, session: nat, booted: bool, recovery: bool)
  {
    && (session != 0 ==> booted) && (ready ==> session != 0) && DspDistinct(maps)
    && (!recovery && session == 0 ==> NoneUsed(maps) && unbacked == {})
    && (ready ==> Backed(maps, flat, unbacked))
  }

  // Latching recovery, or booting, asks for less.
  lemma CoherentLater(maps: seq<MapRecord>, flat: map<nat, nat>, unbacked: set<nat>, ready: bool, session: nat,
                      booted: bool, recovery: bool, booted': bool, recovery': bool)
    requires Coherent(maps, flat, unbacked, ready, session, booted, recovery)
    requires (recovery ==> recovery') && (booted ==> booted')
    ensures Coherent(maps, flat, unbacked, ready, session, booted', recovery')
  {
  }

  // Without a session, and without the latch, there is nothing to back when the SMMU is enabled.
  lemma CoherentOpened(maps: seq<MapRecord>, flat: map<nat, nat>, unbacked: set<nat>, booted: bool, opening: nat)
    requires Coherent(maps, flat, unbacked, false, 0, booted, false) && booted && opening != 0
    ensures Coherent(maps, flat, unbacked, true, opening, booted, false)
  {
  }

  lemma CoherentTouch(maps: seq<MapRecord>, flat: map<nat, nat>, unbacked: set<nat>, ready: bool, session: nat,
                      booted: bool, recovery: bool, i: nat, r: MapRecord)
    requires Coherent(maps, flat, unbacked, ready, session, booted, recovery)
    requires i < |maps| && SameWindow(maps[i], r) && DspDistinct(maps[i := r])
    ensures Coherent(maps[i := r], flat, unbacked, ready, session, booted, recovery)
  {
    hide Backed;
    if ready {
      BackedTouch(maps, flat, unbacked, i, r);
    }
  }

  lemma CoherentAdd(maps: seq<MapRecord>, flat: map<nat, nat>, unbacked: set<nat>, session: nat, booted: bool,
                    recovery: bool, i: nat, r: MapRecord)
    requires Coherent(maps, flat, unbacked, true, session, booted, recovery) && i < |maps| && !maps[i].used
    requires r.used && r.dspVaddr == 0 && Untranslated(r, flat)
    ensures Coherent(maps[i := r], flat, unbacked + {i}, true, session, booted, recovery) && i !in unbacked
  {
    BackedAdd(maps, flat, unbacked, i, r);
    DspTouched(maps, i, r);
  }

  lemma CoherentPublish(maps: seq<MapRecord>, flat: map<nat, nat>, unbacked: set<nat>, session: nat, booted: bool,
                        recovery: bool, i: nat, reach: set<(nat, nat)>, pins: multiset<nat>)
    requires Coherent(maps, flat, unbacked, true, session, booted, recovery) && i < |maps| && maps[i].used
    requires Owns(maps, reach, pins)
    ensures var m := maps[i];
            var flat' := flat + RangeMap(m.iova / PAGE, m.pa / PAGE, m.size / PAGE);
            Coherent(maps, flat', unbacked - {i}, true, session, booted, recovery)
  {
    hide Backed;
    BackedPublish(maps, flat, unbacked, i);
  }

  lemma CoherentClear(maps: seq<MapRecord>, flat: map<nat, nat>, unbacked: set<nat>, session: nat, booted: bool,
                      recovery: bool, i: nat)
    requires Coherent(maps, flat, unbacked, true, session, booted, recovery) && i < |maps| && maps[i].used
    requires Disjoint(maps) && forall j :: 0 <= j < |maps| ==> RecordOk(maps[j])
    ensures var flat' := flat - RangeKeys(maps[i].iova / PAGE, maps[i].size / PAGE);
            Coherent(maps, flat', unbacked + {i}, true, session, booted, recovery)
  {
    hide Backed;
    BackedClear(maps, flat, unbacked, i);
  }

  lemma CoherentDrop(maps: seq<MapRecord>, flat: map<nat, nat>, unbacked: set<nat>, session: nat, booted: bool,
                     recovery: bool, i: nat, r: MapRecord)
    requires Coherent(maps, flat, unbacked, true, session, booted, recovery) && i < |maps| && !r.used
    ensures Coherent(maps[i := r], flat, unbacked - {i}, true, session, booted, recovery)
  {
    hide Backed;
    BackedDrop(maps, flat, unbacked, i, r);
  }

  lemma DspTouched(maps: seq<MapRecord>, i: nat, r: MapRecord)
    requires DspDistinct(maps) && i < |maps|
    requires r.used && r.dspVaddr != 0 ==>
               forall j :: 0 <= j < |maps| && j != i && maps[j].used ==> maps[j].dspVaddr != r.dspVaddr
    ensures DspDistinct(maps[i := r])
  {
  }
}
