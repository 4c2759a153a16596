/** The argument checks npu_frpc_submit makes before a packet may reach the DSP
    (q8b/kernel/bsp/npu_pas.c), and what the saved mapping mask then guarantees. */
module SubmitCheck {
  import opened Bytes
  import opened Ownership
  import Wire = FastRpcWire

  const SID: nat := 3
  const MAX_RBUFS: nat := 32
  const TWO32: nat := 0x1_0000_0000
  const TWO64: nat := 0x1_0000_0000_0000_0000

  datatype Arg = Arg(pv: nat, len: nat, listNum: nat, pageIndex: nat, pageAddr: nat, pageSize: nat)

  /** (SID << 32) | iova */
  function DevAddr(iova: nat): nat { SID * TWO32 + iova }

  function ArgAt(payload: seq<byte>, meta: nat, n: nat, i: nat): Arg
    requires i < n && meta + n * 40 <= |payload|
  {
    var list, page := meta + n * 16 + i * 8, meta + n * 24 + i * 16;
    Arg(Le64(payload, meta + i * 16), Le64(payload, meta + i * 16 + 8),
        Le32(payload, list), Le32(payload, list + 4),
        Le64(payload, page), Le64(payload, page + 8))
  }

  /** A SID|IOVA range inside the record's window. */
  predicate SidCovers(m: MapRecord, a: nat, size: nat) {
    && a / TWO32 == SID
    && var iova := a % TWO32;
    && IOVA_BASE <= iova < IOVA_TOP && size <= IOVA_TOP - iova
    && m.iova <= iova && iova + size <= m.iova + m.size
  }

  // A DSP virtual range, compared in 64-bit arithmetic.
  predicate DspCovers(m: MapRecord, a: nat, size: nat) {
    && m.dspVaddr != 0 && m.dspVaddr <= a && size <= Wire.UINT64_MAX - m.dspVaddr
    && (a + size) % TWO64 <= (m.dspVaddr + m.size) % TWO64
  }

  /** npu_frpc_iova_owned. */
  predicate IovaOwned(maps: seq<MapRecord>, session: nat, a: nat, size: nat) {
    && size != 0
    && exists j :: 0 <= j < |maps| && maps[j].used && maps[j].session == session
                   && (SidCovers(maps[j], a, size) || DspCovers(maps[j], a, size))
  }

  /** The DSP range lies inside the record's. */
  predicate DspInside(m: MapRecord, a: nat, size: nat) {
    m.dspVaddr != 0 && m.dspVaddr <= a && a + size <= m.dspVaddr + m.size
  }

  /** The window lies inside one record of the session, in SID|IOVA or in DSP addresses. */
  predicate OwnedWindow(maps: seq<MapRecord>, session: nat, a: nat, size: nat) {
    exists j :: 0 <= j < |maps| && maps[j].used && maps[j].session == session
                && (SidCovers(maps[j], a, size) || DspInside(maps[j], a, size))
  }

  // The DSP range of no used record runs past 64 bits.
  predicate NoneWraps(maps: seq<MapRecord>) {
    forall j :: 0 <= j < |maps| && maps[j].used ==> maps[j].dspVaddr + maps[j].size < TWO64
  }

  /** The wrapping comparison means containment exactly when the window's end does not wrap or the record's does too,
      and it misses no contained window of a record whose end does not wrap. */
  lemma DspCoversExactly(m: MapRecord, a: nat, size: nat)
    requires a < TWO64 && 0 < size < TWO64
    ensures DspCovers(m, a, size) ==> (DspInside(m, a, size) <==> a + size < TWO64 || m.dspVaddr + m.size >= TWO64)
    ensures DspInside(m, a, size) && m.dspVaddr + m.size < TWO64 ==> DspCovers(m, a, size)
  {
  }

  /** npu_frpc_iova_owned answers containment exactly for windows that do not wrap.  One that wraps is in no record,
      and may be accepted all the same. */
  lemma OwnedExactly(maps: seq<MapRecord>, session: nat, a: nat, size: nat)
    requires a < TWO64 && 0 < size < TWO64 && NoneWraps(maps)
    ensures a + size < TWO64 ==> (IovaOwned(maps, session, a, size) <==> OwnedWindow(maps, session, a, size))
    ensures a + size >= TWO64 ==> !OwnedWindow(maps, session, a, size)
  {
    hide SidCovers, DspCovers, DspInside;
    forall j | 0 <= j < |maps| && maps[j].used
      ensures a + size < TWO64 ==> (DspCovers(maps[j], a, size) <==> DspInside(maps[j], a, size))
      ensures a + size >= TWO64 ==> !SidCovers(maps[j], a, size) && !DspInside(maps[j], a, size)
    {
      DspCoversExactly(maps[j], a, size);
      Beyond(maps[j], a, size);
    }
  }

  lemma Beyond(m: MapRecord, a: nat, size: nat)
    requires m.dspVaddr + m.size < TWO64
    ensures a + size >= TWO64 ==> !SidCovers(m, a, size) && !DspInside(m, a, size)
    ensures DspCovers(m, a, size) && a + size < TWO64 ==> DspInside(m, a, size)
  {
  }

  /** Whatever the records, an owned window that does not wrap lies inside one. */
  lemma OwnedInside(maps: seq<MapRecord>, session: nat, a: nat, size: nat)
    requires IovaOwned(maps, session, a, size) && a + size < TWO64
    ensures OwnedWindow(maps, session, a, size)
  {
    hide SidCovers, DspCovers, DspInside;
    var j :| 0 <= j < |maps| && maps[j].used && maps[j].session == session
             && (SidCovers(maps[j], a, size) || DspCovers(maps[j], a, size));
    DspCoversExactly(maps[j], a, size);
  }

  /** The bit the mask loop sets for a record. */
  predicate MaskBit(m: MapRecord, pageAddr: nat, pageSize: nat) {
    m.used && DevAddr(m.iova) <= pageAddr && pageAddr + pageSize <= DevAddr(m.iova) + m.size
  }

  function MaskFor(maps: seq<MapRecord>, pageAddr: nat, pageSize: nat): set<nat> {
    set j | 0 <= j < |maps| && MaskBit(maps[j], pageAddr, pageSize)
  }

  predicate Paired(m: MapRecord, session: nat, a: Arg, hostVa: nat -> nat) {
    && m.used && m.session == session
    && Wire.BufferMatches(a.pv, a.len, a.pageAddr, a.pageSize, hostVa(m.pa), DevAddr(m.iova), m.dspVaddr, m.size)
  }

  predicate ArgOk(maps: seq<MapRecord>, session: nat, hostVa: nat -> nat, host: bool, a: Arg, i: nat) {
    && (a.len != 0 && !host ==> a.pv != 0 && IovaOwned(maps, session, a.pv, a.len))
    && a.pageIndex == i && a.listNum <= 1 && (a.len != 0 <==> a.listNum != 0) && (a.len != 0 <==> a.pageSize != 0)
    && (a.pageSize != 0 ==> a.pageAddr != 0 && IovaOwned(maps, session, a.pageAddr, a.pageSize))
    && (a.len != 0 && host ==> exists j :: 0 <= j < |maps| && Paired(maps[j], session, a, hostVa))
  }

  function ArgMask(maps: seq<MapRecord>, payload: seq<byte>, meta: nat, n: nat, k: nat): set<nat>
    requires k <= n && meta + n * 40 <= |payload|
  {
    if k == 0 then {} else
    var a := ArgAt(payload, meta, n, k - 1);
    ArgMask(maps, payload, meta, n, k - 1) + if a.pageSize != 0 then MaskFor(maps, a.pageAddr, a.pageSize) else {}
  }

  method FindOwner(maps: seq<MapRecord>, session: nat, a: nat, size: nat) returns (owned: bool)
    ensures owned <==> IovaOwned(maps, session, a, size)
    ensures owned && a + size < TWO64 ==> OwnedWindow(maps, session, a, size)
  {
    hide DspInside;
    if size == 0 {
      return false;
    }
    for i := 0 to |maps|
      invariant forall j :: 0 <= j < i && maps[j].used && maps[j].session == session ==>
                  !SidCovers(maps[j], a, size) && !DspCovers(maps[j], a, size)
    {
      var m := maps[i];
      if m.used && m.session == session && (SidCovers(m, a, size) || DspCovers(m, a, size)) {
        if a + size < TWO64 {
          OwnedInside(maps, session, a, size);
        }
        return true;
      }
    }
    return false;
  }

  method CollectMask(maps: seq<MapRecord>, pageAddr: nat, pageSize: nat) returns (mask: set<nat>)
    ensures mask == MaskFor(maps, pageAddr, pageSize)
  {
    mask := {};
    for j := 0 to |maps|
      invariant mask == MaskFor(maps[..j], pageAddr, pageSize)
    {
      var m := maps[j];
      var begin := DevAddr(m.iova);
      if m.used && pageAddr >= begin && pageAddr - begin <= m.size && pageSize <= m.size - (pageAddr - begin) {
        mask := mask + {j};
      }
      assert maps[..j + 1][j] == maps[j] && forall k :: 0 <= k < j ==> maps[..j + 1][k] == maps[..j][k];
    }
    assert maps[..|maps|] == maps;
  }

  method FindPair(maps: seq<MapRecord>, session: nat, a: Arg, hostVa: nat -> nat) returns (paired: bool)
    ensures paired <==> exists j :: 0 <= j < |maps| && Paired(maps[j], session, a, hostVa)
  {
    for i := 0 to |maps|
      invariant forall j :: 0 <= j < i ==> !Paired(maps[j], session, a, hostVa)
    {
      if Paired(maps[i], session, a, hostVa) {
        return true;
      }
    }
    return false;
  }

  /** The two argument loops: the packet passes exactly when every argument does, and the mask
      collects the records around every page window. */
  method CheckArgs(maps: seq<MapRecord>, session: nat, hostVa: nat -> nat, payload: seq<byte>, meta: nat, n: nat)
    returns (ok: bool, mask: set<nat>)
    requires 4 <= |payload| && meta + n * 40 <= |payload|
    ensures ok <==> forall i :: 0 <= i < n ==>
                      ArgOk(maps, session, hostVa, Wire.HostPointers(Le32(payload, 0)), ArgAt(payload, meta, n, i), i)
    ensures ok ==> mask == ArgMask(maps, payload, meta, n, n)
  {
    hide ArgAt, IovaOwned, MaskFor, Paired;
    var host := Wire.HostPointers(Le32(payload, 0));
    mask := {};
    for i := 0 to n
      invariant forall j :: 0 <= j < i ==>
                  var a := ArgAt(payload, meta, n, j);
                  a.len != 0 && !host ==> a.pv != 0 && IovaOwned(maps, session, a.pv, a.len)
    {
      var a := ArgAt(payload, meta, n, i);
      var owned := FindOwner(maps, session, a.pv, a.len);
      if a.len != 0 && !host && (a.pv == 0 || !owned) {
        assert !ArgOk(maps, session, hostVa, host, a, i);
        return false, {};
      }
    }
    for i := 0 to n
      invariant forall j :: 0 <= j < i ==> ArgOk(maps, session, hostVa, host, ArgAt(payload, meta, n, j), j)
      invariant mask == ArgMask(maps, payload, meta, n, i)
    {
      var a := ArgAt(payload, meta, n, i);
      var passed, bits := CheckPages(maps, session, hostVa, host, a, i);
      if !passed {
        return false, {};
      }
      mask := mask + bits;
    }
    return true, mask;
  }

  // One round of the page-list loop.
  method CheckPages(maps: seq<MapRecord>, session: nat, hostVa: nat -> nat, host: bool, a: Arg, i: nat)
    returns (ok: bool, bits: set<nat>)
    requires a.len != 0 && !host ==> a.pv != 0 && IovaOwned(maps, session, a.pv, a.len)
    ensures ok <==> ArgOk(maps, session, hostVa, host, a, i)
    ensures ok ==> bits == if a.pageSize != 0 then MaskFor(maps, a.pageAddr, a.pageSize) else {}
  {
    bits := {};
    if a.pageIndex != i || a.listNum > 1 || (a.len != 0) != (a.listNum != 0) || (a.len != 0) != (a.pageSize != 0) {
      return false, {};
    }
    if a.pageSize != 0 {
      var owned := FindOwner(maps, session, a.pageAddr, a.pageSize);
      if a.pageAddr == 0 || !owned {
        return false, {};
      }
      bits := CollectMask(maps, a.pageAddr, a.pageSize);
    }
    if a.len != 0 && host {
      var paired := FindPair(maps, session, a, hostVa);
      if !paired {
        return false, {};
      }
    }
    return true, bits;
  }

  /** Host-pointer arguments: the mask holds the record an argument was matched to, and the window
      the DSP gets is the page closure of the argument's bytes in that record. */
  lemma HostArgHeld(maps: seq<MapRecord>, session: nat, hostVa: nat -> nat, a: Arg, i: nat)
    requires ArgOk(maps, session, hostVa, true, a, i) && a.len != 0
    requires forall j :: 0 <= j < |maps| ==> RecordOk(maps[j])
    ensures exists j :: j in MaskFor(maps, a.pageAddr, a.pageSize) && Paired(maps[j], session, a, hostVa)
                        && var off := Wire.BufferOffset(a.pv, hostVa(maps[j].pa), DevAddr(maps[j].iova),
                            maps[j].dspVaddr, maps[j].size);
                        off.Some? && off.value + a.len <= maps[j].size
                        && Wire.IsPageClosure(a.pageAddr, a.pageSize, DevAddr(maps[j].iova) + off.value, a.len)
  {
    hide Wire.BufferMatches, Wire.IsPageClosure;
    var j :| 0 <= j < |maps| && Paired(maps[j], session, a, hostVa);
    var m := maps[j];
    Wire.BufferMatchesExactly(a.pv, a.len, a.pageAddr, a.pageSize, hostVa(m.pa), DevAddr(m.iova), m.dspVaddr, m.size);
    assert RecordOk(m);
    assert j in MaskFor(maps, a.pageAddr, a.pageSize);
  }

  /** For any other page window the mask bit means containment in SID|IOVA space: a window owned in
      that form is always held, and a window that is only owned as a DSP address never is. */
  lemma PageWindowHeldIff(maps: seq<MapRecord>, a: nat, size: nat)
    requires size != 0 && forall j :: 0 <= j < |maps| ==> RecordOk(maps[j])
    ensures MaskFor(maps, a, size) != {} <==> exists j :: 0 <= j < |maps| && maps[j].used && SidCovers(maps[j], a, size)
  {
    forall j | 0 <= j < |maps|
      ensures MaskBit(maps[j], a, size) <==> maps[j].used && SidCovers(maps[j], a, size)
    {
      assert RecordOk(maps[j]);
    }
    if j :| 0 <= j < |maps| && maps[j].used && SidCovers(maps[j], a, size) {
      assert j in MaskFor(maps, a, size);
    }
    if MaskFor(maps, a, size) != {} {
      var j :| j in MaskFor(maps, a, size);
      assert maps[j].used && SidCovers(maps[j], a, size);
    }
  }

  /** A window that wraps: accepted, as an argument and as a page window, though it lies in no record and no bit of
      the mask holds anything for it. */
  lemma DspWraps(hostVa: nat -> nat)
    ensures var maps := [MapRecord(true, 0x8000_0000, 0x1000, IOVA_BASE, 0x4000, SID, 1)];
            var a := TWO64 - 0x1000;
            && RecordOk(maps[0]) && NoneWraps(maps)
            && ArgOk(maps, SID, hostVa, false, Arg(a, 0x2000, 1, 0, a, 0x2000), 0)
            && !OwnedWindow(maps, SID, a, 0x2000) && MaskFor(maps, a, 0x2000) == {}
  {
    var maps := [MapRecord(true, 0x8000_0000, 0x1000, IOVA_BASE, 0x4000, SID, 1)];
    assert DspCovers(maps[0], TWO64 - 0x1000, 0x2000);
  }

  /** A window owned only as a DSP address: accepted, and held by no bit of the mask. */
  lemma DspOnlyWindow()
    ensures var maps := [MapRecord(true, 0x8000_0000, 0x1000, IOVA_BASE, 0x4000, SID, 1)];
            RecordOk(maps[0]) && IovaOwned(maps, SID, 0x4000, 0x1000) && MaskFor(maps, 0x4000, 0x1000) == {}
  {
    var maps := [MapRecord(true, 0x8000_0000, 0x1000, IOVA_BASE, 0x4000, SID, 1)];
    assert DspCovers(maps[0], 0x4000, 0x1000);
  }

  function ScalarCount(sc: nat): nat { sc / 0x1_0000 % 0x100 + sc / 0x100 % 0x100 }

  /** What a packet must satisfy once its buffer is known to be mapped. */
  predicate PacketOk(maps: seq<MapRecord>, session: nat, hostVa: nat -> nat, payload: seq<byte>) {
    var meta := Wire.MetadataOffset(payload);
    && meta != 0
    && var word, sc := Le32(payload, 0), Le32(payload, 12);
    var n := ScalarCount(sc);
    && Wire.SessionId(word) == session && sc % 0x100 == 0 && n <= MAX_RBUFS && meta + n * 40 + 384 <= |payload|
    && forall i :: 0 <= i < n ==>
         ArgOk(maps, session, hostVa, Wire.HostPointers(word), ArgAt(payload, meta, n, i), i)
  }

  /** The records around every page window of a packet that passed. */
  function PacketMask(maps: seq<MapRecord>, session: nat, hostVa: nat -> nat, payload: seq<byte>): set<nat>
    requires PacketOk(maps, session, hostVa, payload)
  {
    var n := ScalarCount(Le32(payload, 12));
    ArgMask(maps, payload, Wire.MetadataOffset(payload), n, n)
  }

  // The records of the packet's own buffer.
  function BufferMask(maps: seq<MapRecord>, pa: nat, size: nat): set<nat> {
    set j | 0 <= j < |maps| && maps[j].used && maps[j].pa == pa && size <= maps[j].size
  }

  lemma {:induction false} ArgMaskUsed(maps: seq<MapRecord>, payload: seq<byte>, meta: nat, n: nat, k: nat)
    requires k <= n && meta + n * 40 <= |payload|
    ensures forall j :: j in ArgMask(maps, payload, meta, n, k) ==> j < |maps| && maps[j].used
  {
    if k != 0 {
      ArgMaskUsed(maps, payload, meta, n, k - 1);
    }
  }

  lemma {:induction false} ArgMaskCollects(maps: seq<MapRecord>, payload: seq<byte>, meta: nat, n: nat, k: nat, i: nat)
    requires i < k <= n && meta + n * 40 <= |payload|
    ensures var a := ArgAt(payload, meta, n, i);
            a.pageSize != 0 ==> MaskFor(maps, a.pageAddr, a.pageSize) <= ArgMask(maps, payload, meta, n, k)
  {
    if i < k - 1 {
      ArgMaskCollects(maps, payload, meta, n, k - 1, i);
    }
  }

  /** Every nonempty argument of a host-pointer packet is held through its matched record. */
  lemma PacketHoldsHostArgs(maps: seq<MapRecord>, session: nat, hostVa: nat -> nat, payload: seq<byte>, i: nat)
    requires PacketOk(maps, session, hostVa, payload) && Wire.HostPointers(Le32(payload, 0))
    requires i < ScalarCount(Le32(payload, 12)) && forall j :: 0 <= j < |maps| ==> RecordOk(maps[j])
    ensures var a := ArgAt(payload, Wire.MetadataOffset(payload), ScalarCount(Le32(payload, 12)), i);
            a.len != 0 ==> exists j ::
                j in PacketMask(maps, session, hostVa, payload) && j < |maps| && Paired(maps[j], session, a, hostVa)
  {
    hide ArgAt, MaskFor;
    var meta, n := Wire.MetadataOffset(payload), ScalarCount(Le32(payload, 12));
    var a := ArgAt(payload, meta, n, i);
    if a.len != 0 {
      HostArgHeld(maps, session, hostVa, a, i);
      ArgMaskCollects(maps, payload, meta, n, n, i);
      ArgMaskUsed(maps, payload, meta, n, n);
    }
  }

  /** Both windows of an argument that passed, where they do not wrap, lie inside a record of the session. */
  predicate ArgInside(maps: seq<MapRecord>, session: nat, host: bool, a: Arg) {
    && (a.pageSize != 0 && a.pageAddr + a.pageSize < TWO64 ==> OwnedWindow(maps, session, a.pageAddr, a.pageSize))
    && (!host && a.len != 0 && a.pv + a.len < TWO64 ==> OwnedWindow(maps, session, a.pv, a.len))
  }

  lemma PacketInside(maps: seq<MapRecord>, session: nat, hostVa: nat -> nat, payload: seq<byte>)
    requires PacketOk(maps, session, hostVa, payload)
    ensures var n := ScalarCount(Le32(payload, 12));
            forall i :: 0 <= i < n ==>
              ArgInside(maps, session, Wire.HostPointers(Le32(payload, 0)),
                        ArgAt(payload, Wire.MetadataOffset(payload), n, i))
  {
    hide ArgAt, IovaOwned, OwnedWindow, Paired;
    var host := Wire.HostPointers(Le32(payload, 0));
    var meta, n := Wire.MetadataOffset(payload), ScalarCount(Le32(payload, 12));
    forall i | 0 <= i < n
      ensures ArgInside(maps, session, host, ArgAt(payload, meta, n, i))
    {
      var a := ArgAt(payload, meta, n, i);
      assert ArgOk(maps, session, hostVa, host, a, i);
      if a.pageSize != 0 && a.pageAddr + a.pageSize < TWO64 {
        OwnedInside(maps, session, a.pageAddr, a.pageSize);
      }
      if !host && a.len != 0 && a.pv + a.len < TWO64 {
        OwnedInside(maps, session, a.pv, a.len);
      }
    }
  }

  /** The packet checks of npu_frpc_submit, from the metadata offset to the last page list. */
  method CheckPacket(maps: seq<MapRecord>, session: nat, hostVa: nat -> nat, payload: seq<byte>)
    returns (ok: bool, unsupported: bool, mask: set<nat>)
    requires 16 <= |payload|
    ensures ok <==> PacketOk(maps, session, hostVa, payload)
    ensures ok ==> mask == PacketMask(maps, session, hostVa, payload)
    ensures ok ==>
              var n := ScalarCount(Le32(payload, 12));
              forall i :: 0 <= i < n ==>
                ArgInside(maps, session, Wire.HostPointers(Le32(payload, 0)),
                          ArgAt(payload, Wire.MetadataOffset(payload), n, i))
    ensures unsupported ==> !ok
  {
    hide ArgOk, ArgAt, ArgMask, ArgInside;
    ok, unsupported, mask := false, false, {};
    var meta := Wire.MetadataOffset(payload);
    if meta == 0 || Wire.SessionId(Le32(payload, 0)) != session {
      return;
    }
    var sc := Le32(payload, 12);
    if sc % 0x100 != 0 {
      unsupported := true;
      return;
    }
    var n := ScalarCount(sc);
    if n > MAX_RBUFS || meta + n * 40 + 384 > |payload| {
      return;
    }
    ok, mask := CheckArgs(maps, session, hostVa, payload, meta, n);
    if ok {
      PacketInside(maps, session, hostVa, payload);
    }
  }

  lemma MaskHolds(maps: seq<MapRecord>, session: nat, hostVa: nat -> nat, payload: seq<byte>, pa: nat, i: nat)
    requires PacketOk(maps, session, hostVa, payload)
    requires i < |maps| && maps[i].used && maps[i].pa == pa && |payload| <= maps[i].size
    ensures var mask := BufferMask(maps, pa, |payload|) + PacketMask(maps, session, hostVa, payload);
            i in mask && forall j :: j in mask ==> j < |maps| && maps[j].used
  {
    hide ArgOk, ArgAt, ArgMask;
    var n := ScalarCount(Le32(payload, 12));
    ArgMaskUsed(maps, payload, Wire.MetadataOffset(payload), n, n);
  }
}
