/** The stage-1 translation tables that q8b/kernel/bsp/npu_smmu.c builds for the NPU.

    Tables live in DMA page frames (`mem`, 512 words each) and are linked by physical address; the
    driver's own bookkeeping is the frame number of each table.  `flat` is the page map that the tree
    of tables stands for and `tlb` is the worst case of what the device may hold: every translation
    that has been live since the last completed invalidate and sync. */
module Smmu {
  import opened Options

  // Which table a DMA frame is used for.
  datatype Role = Root | Mid(ri: nat) | Leaf(ri: nat, mi: nat)

  const PAGE: nat := 0x1000
  const IOVA_PAGES: nat := 0x10_0000
  const TABLE_BITS: nat := 0x3
  const LEAF_BITS: nat := 0xE43 // PTE_TABLE | PTE_AP_UNPRIV | PTE_SH_OS | PTE_AF | PTE_NG

  /** pt_addr(pa) | bits: the address field is bits 12..47 and the flags sit below it. */
  function Entry(frame: nat, bits: nat): nat {
    frame % 0x10_0000_0000 * PAGE + bits
  }

  predicate IsValid(entry: nat) {
    entry % 2 == 1
  }

  function EntryFrame(entry: nat): nat {
    entry % 0x1_0000_0000_0000 / PAGE
  }

  lemma EntryRoundTrip(frame: nat, bits: nat)
    requires frame < 0x10_0000_0000 && bits < PAGE && bits % 2 == 1
    ensures IsValid(Entry(frame, bits)) && EntryFrame(Entry(frame, bits)) == frame
  {
    var e := frame * PAGE + bits;
    assert frame % 0x10_0000_0000 == frame && e == Entry(frame, bits);
    assert e % 0x1_0000_0000_0000 == e;
    Quotient(e, frame, bits);
    Parity(frame * 0x800, bits);
  }

  lemma Quotient(e: nat, q: nat, r: nat)
    requires e == q * PAGE + r && r < PAGE
    ensures e / PAGE == q
  {
  }

  lemma Parity(k: nat, bits: nat)
    ensures (2 * k + bits) % 2 == bits % 2
  {
  }

  function RootIndex(vp: nat): nat { vp / 0x4_0000 % 512 }
  function MidIndex(vp: nat): nat { vp / 512 % 512 }
  function LeafIndex(vp: nat): nat { vp % 512 }

  lemma IndicesIdentify(p: nat, q: nat)
    requires p < IOVA_PAGES && q < IOVA_PAGES && p != q
    ensures RootIndex(p) < 4
    ensures RootIndex(p) == RootIndex(q) && MidIndex(p) == MidIndex(q) ==> LeafIndex(p) != LeafIndex(q)
  {
    FromIndices(p);
    FromIndices(q);
  }

  // A page number is its three indices put together.
  lemma FromIndices(p: nat)
    requires p < IOVA_PAGES
    ensures RootIndex(p) == p / 0x4_0000 < 4
    ensures p == (RootIndex(p) * 512 + MidIndex(p)) * 512 + LeafIndex(p)
  {
    var m := p / 512;
    assert p == m * 512 + p % 512 && m == m / 512 * 512 + m % 512;
    assert p / 0x4_0000 == m / 512;
  }

  lemma PackedIndices(p: nat)
    requires p < IOVA_PAGES
    ensures var idx := RootIndex(p) * 512 + MidIndex(p);
            idx < 2048 && idx / 512 == RootIndex(p) && idx % 512 == MidIndex(p)
  {
  }

  /** Whole pages covering `size` bytes. */
  function Pages(size: nat): nat { (size + 0xFFF) / PAGE }

  function Lookup(m: map<nat, nat>, vp: nat): Option<nat> {
    if vp in m then Some(m[vp]) else None
  }

  predicate InRange(p: nat, vp: nat, n: nat) {
    vp <= p < vp + n
  }

  /** The page map of n consecutive pages from vp onto n consecutive frames. */
  function RangeMap(vp: nat, frame: nat, n: nat): map<nat, nat> {
    map p: nat | vp <= p < vp + n && InRange(p, vp, n) :: frame + (p - vp)
  }

  function RangeKeys(vp: nat, n: nat): set<nat> {
    set p: nat | vp <= p < vp + n && InRange(p, vp, n)
  }

  function Live(m: map<nat, nat>): set<(nat, nat)> {
    set p | p in m :: (p, m[p])
  }

  lemma RangeExtends(vp: nat, frame: nat, n: nat)
    ensures RangeMap(vp, frame, n + 1) == RangeMap(vp, frame, n)[vp + n := frame + n]
    ensures RangeKeys(vp, n + 1) == RangeKeys(vp, n) + {vp + n}
    ensures Live(RangeMap(vp, frame, n + 1)) == Live(RangeMap(vp, frame, n)) + {(vp + n, frame + n)}
  {
    var m, m' := RangeMap(vp, frame, n), RangeMap(vp, frame, n + 1);
    forall p: nat | p in m'
      ensures (p, m'[p]) in Live(m) + {(vp + n, frame + n)}
    {
      assert p == vp + n || (p in m && m[p] == m'[p]);
    }
  }

  lemma EmptyRange(m: map<nat, nat>, vp: nat, frame: nat)
    ensures RangeMap(vp, frame, 0) == map[] && RangeKeys(vp, 0) == {} && Live(RangeMap(vp, frame, 0)) == {}
    ensures RangeKeys(vp, 0) !! m.Keys && m + RangeMap(vp, frame, 0) == m
  {
  }

  lemma RangeGrows(vp: nat, frame: nat, k: nat, n: nat)
    requires k <= n
    ensures Live(RangeMap(vp, frame, k)) <= Live(RangeMap(vp, frame, n))
    ensures k < n ==> InRange(vp + k, vp, n) && vp + k in RangeKeys(vp, n)
  {
    forall p: nat | p in RangeMap(vp, frame, k)
      ensures p in RangeMap(vp, frame, n) && RangeMap(vp, frame, n)[p] == RangeMap(vp, frame, k)[p]
    {
    }
  }

  lemma PublishedRange(m: map<nat, nat>, vp: nat, frame: nat, n: nat)
    requires RangeKeys(vp, n) !! m.Keys
    ensures (m + RangeMap(vp, frame, n)) - RangeKeys(vp, n) == m
    ensures vp + n in m + RangeMap(vp, frame, n) ==> vp + n in m
    ensures vp + n !in m + RangeMap(vp, frame, n) ==> RangeKeys(vp, n + 1) !! m.Keys
    ensures (m + RangeMap(vp, frame, n))[vp + n := frame + n] == m + RangeMap(vp, frame, n + 1)
  {
    RangeExtends(vp, frame, n);
  }

  lemma RangeAdded(m: map<nat, nat>, vp: nat, frame: nat, n: nat)
    ensures RangeKeys(vp, n) <= (m + RangeMap(vp, frame, n)).Keys
  {
  }

  lemma ClearedUnreachable(m: map<nat, nat>, vp: nat, n: nat)
    ensures forall e :: e in Live(m - RangeKeys(vp, n)) ==> !InRange(e.0, vp, n)
  {
  }

  predicate MapArgsOk(paBits: nat, pa: nat, iova: nat, size: nat) {
    && size != 0 && pa % PAGE == 0 && iova % PAGE == 0
    && pa + Pages(size) * PAGE <= Pow2(paBits)
    && iova + Pages(size) * PAGE <= IOVA_PAGES * PAGE
  }

  predicate UnmapArgsOk(iova: nat, size: nat) {
    size != 0 && iova % PAGE == 0 && iova + Pages(size) * PAGE <= IOVA_PAGES * PAGE
  }

  function Pow2(n: nat): nat {
    if n == 0 then 1 else 2 * Pow2(n - 1)
  }

  lemma Pow2Bound(n: nat)
    requires n <= 48
    ensures Pow2(n) <= 0x1_0000_0000_0000
    decreases 48 - n
  {
    if n < 48 {
      Pow2Bound(n + 1);
    } else {
      assert Pow2(8) == 0x100 && Pow2(16) == 0x1_0000 && Pow2(24) == 0x100_0000;
      assert Pow2(32) == 0x1_0000_0000 && Pow2(40) == 0x100_0000_0000;
    }
  }

  predicate Reachable(f: nat, bits: nat) { bits == 0 || (f + 1) * PAGE <= Pow2(bits) }

  /** At least n free frames, all of them within the output address size and mappable for the CPU. */
  predicate Room(free: set<nat>, bits: nat, cpu: nat -> bool, n: nat) {
    |free| >= n && forall f :: f in free ==> Reachable(f, bits) && cpu(f)
  }

  /** At most k frames were taken. */
  predicate Spent(before: set<nat>, after: set<nat>, k: nat) { after <= before && |after| + k >= |before| }

  lemma RoomLeft(before: set<nat>, after: set<nat>, bits: nat, cpu: nat -> bool, n: nat, k: nat)
    requires Spent(before, after, k)
    ensures Room(before, bits, cpu, n + k) ==> Room(after, bits, cpu, n)
  {
  }

  lemma SpentMore(a: set<nat>, b: set<nat>, c: set<nat>, k: nat, m: nat)
    requires Spent(a, b, k) && Spent(b, c, m)
    ensures Spent(a, c, k + m)
  {
  }

  class Tables {
    const mem: array2<nat>
    const l2: array<nat>
    const l3: array2<nat>
    var root: nat // frame numbers; 0 means not allocated
    var ready: bool
    var cbOwned: bool
    var paBits: nat
    var free: set<nat> // frames dma_alloc may still hand out
    ghost const pool: set<nat>
    ghost var owner: map<nat, Role>
    ghost var flat: map<nat, nat>
    ghost var tlb: set<(nat, nat)>

    ghost predicate Shape()
    {
      && mem.Length1 == 512 && 0 < mem.Length0 <= 0x10_0000_0000
      && l2.Length == 4 && l3.Length0 == 4 && l3.Length1 == 512
      && mem != l3
    }

    // Every frame has one role, so distinct tables never share a frame.
    ghost predicate Owned()
      requires Shape()
      reads `root, `free, `owner, l2, l3
    {
      && (forall f :: f in owner ==> 0 < f < mem.Length0)
      && (forall f :: f in free ==> 0 < f < mem.Length0 && f !in owner)
      && (root != 0 ==> root in owner && owner[root] == Root)
      && (forall i :: 0 <= i < 4 && l2[i] != 0 ==> root != 0 && l2[i] in owner && owner[l2[i]] == Mid(i))
      && (forall i, j :: 0 <= i < 4 && 0 <= j < 512 && l3[i, j] != 0 ==>
            l2[i] != 0 && l3[i, j] in owner && owner[l3[i, j]] == Leaf(i, j))
    }

    // No frame is lost: each one of the pool is free or is the table its role names.
    ghost predicate Conserved()
      requires Shape()
      reads `root, `free, `owner, l2, l3
    {
      && free + owner.Keys == pool
      && forall f :: f in owner ==> TableAt(owner[f]) == f
    }

    ghost function TableAt(role: Role): nat
      requires Shape()
      reads `root, l2, l3
    {
      match role
      case Root => root
      case Mid(i) => if i < 4 then l2[i] else 0
      case Leaf(i, j) => if i < 4 && j < 512 then l3[i, j] else 0
    }

    // Descriptors in memory link exactly the tables the driver has recorded.
    ghost predicate Linked()
      requires Shape()
      reads `root, mem, l2, l3
    {
      && (forall i :: 0 < root < mem.Length0 && 0 <= i < 512 ==>
            if i < 4 && l2[i] != 0 then mem[root, i] == Entry(l2[i], TABLE_BITS) else !IsValid(mem[root, i]))
      && (forall i, j :: 0 <= i < 4 && 0 <= j < 512 && 0 < l2[i] < mem.Length0 ==>
            if l3[i, j] != 0 then mem[l2[i], j] == Entry(l3[i, j], TABLE_BITS) else !IsValid(mem[l2[i], j]))
    }

    // The leaf descriptor the recorded tables hold for a page, 0 when there is no leaf table.
    ghost function LeafWord(vp: nat): nat
      requires Shape()
      reads mem, l3
    {
      var t := if RootIndex(vp) < 4 then l3[RootIndex(vp), MidIndex(vp)] else 0;
      if 0 < t < mem.Length0 then mem[t, LeafIndex(vp)] else 0
    }

    ghost predicate Flattened()
      requires Shape()
      reads `flat, mem, l3
    {
      && (forall vp :: vp in flat ==> vp < IOVA_PAGES)
      && (forall vp :: 0 <= vp < IOVA_PAGES ==>
            (vp in flat <==> IsValid(LeafWord(vp)))
            && (vp in flat ==> flat[vp] == EntryFrame(LeafWord(vp))))
    }

    ghost predicate Valid()
      reads this, mem, l2, l3
    {
      && Shape() && Owned() && Conserved() && Linked() && Flattened()
      && (forall vp :: vp in flat ==> (vp, flat[vp]) in tlb)
      && (root == 0 ==> tlb == {} && !ready)
      && (cbOwned <==> root != 0)
      && (root != 0 ==> paBits <= 48)
    }

    /** What the hardware finds for page vp, walking physical memory from the root table. */
    ghost function Walk(vp: nat): Option<nat>
      requires Shape()
      reads `root, mem
    {
      if root == 0 || root >= mem.Length0 then None else
      var d0 := mem[root, RootIndex(vp)];
      if !IsValid(d0) || EntryFrame(d0) >= mem.Length0 then None else
      var d1 := mem[EntryFrame(d0), MidIndex(vp)];
      if !IsValid(d1) || EntryFrame(d1) >= mem.Length0 then None else
      var d2 := mem[EntryFrame(d1), LeafIndex(vp)];
      if IsValid(d2) then Some(EntryFrame(d2)) else None
    }

    /** The tree refines the flat page map on every page of the 39-bit device address space: below
        4 GiB the walk finds exactly what `flat` says, and above it nothing. */
    lemma WalkIsFlat(vp: nat)
      requires Valid() && vp < 0x800_0000
      ensures Walk(vp) == Lookup(flat, vp)
    {
      hide Conserved;
      if root != 0 {
        var i, j := RootIndex(vp), MidIndex(vp);
        assert i < 4 <==> vp < IOVA_PAGES;
        if i < 4 && l2[i] != 0 {
          EntryRoundTrip(l2[i], TABLE_BITS);
          if l3[i, j] != 0 {
            EntryRoundTrip(l3[i, j], TABLE_BITS);
            assert Walk(vp) == if IsValid(LeafWord(vp)) then Some(EntryFrame(LeafWord(vp))) else None;
          }
        }
      }
    }

    constructor (dma: array2<nat>, frames: set<nat>)
      requires dma.Length1 == 512 && 0 < dma.Length0 <= 0x10_0000_0000
      requires forall f :: f in frames ==> 0 < f < dma.Length0
      ensures Valid() && fresh(l2) && fresh(l3) && mem == dma
      ensures flat == map[] && tlb == {} && !ready && root == 0 && free == pool == frames
    {
      mem := dma;
      l2 := new nat[4](i => 0);
      l3 := new nat[4, 512]((i, j) => 0);
      root, ready, cbOwned, paBits, free := 0, false, false, 0, frames;
      pool := frames;
      owner, flat, tlb := map[], map[], {};
      new;
      assert forall vp :: LeafWord(vp) == 0;
    }

    /** dma_pt_alloc: any free frame, cleared, if the output address size can reach it and the CPU can map it (`cpu`);
        0 otherwise. */
    method AllocTable(ghost role: Role, cpu: nat -> bool) returns (f: nat)
      requires Valid() && TableAt(role) == 0
      modifies `free, `owner, mem
      ensures f == 0 ==> Valid() && unchanged(`free, `owner, mem)
      ensures f != 0 ==> f in old(free) && free == old(free) - {f} && Reachable(f, paBits) && cpu(f) && Pending(f, role)
      ensures Room(old(free), paBits, cpu, 1) ==> f != 0
    {
      hide Linked, Flattened, Pow2;
      if free == {} {
        return 0;
      }
      f :| f in free;
      if !Reachable(f, paBits) || !cpu(f) {
        return 0;
      }
      ClearFrame(f);
      free := free - {f};
      owner := owner[f := role];
    }

    // Clearing a frame that is no table changes no translation.
    method ClearFrame(f: nat)
      requires Valid() && f in free
      modifies mem
      ensures Valid() && forall j :: 0 <= j < 512 ==> mem[f, j] == 0
    {
      forall j | 0 <= j < 512 { mem[f, j] := 0; }
      assert forall vp: nat :: vp < IOVA_PAGES ==> LeafWord(vp) == old(LeafWord(vp));
    }

    // Rewriting a word of a leaf table disturbs neither the links nor any other page's leaf word.
    twostate lemma LeafWordIsolated(vp: nat)
      requires old(Shape() && Owned() && Linked()) && Shape() && Owned()
      requires vp < IOVA_PAGES && l3[RootIndex(vp), MidIndex(vp)] != 0
      requires unchanged(l2, l3, `root, `owner)
      requires forall f, j :: 0 <= f < mem.Length0 && 0 <= j < 512 && mem[f, j] != old(mem[f, j]) ==>
                 f == l3[RootIndex(vp), MidIndex(vp)] && j == LeafIndex(vp)
      ensures Linked()
      ensures forall p: nat :: p < IOVA_PAGES && p != vp ==> LeafWord(p) == old(LeafWord(p))
    {
      var t := l3[RootIndex(vp), MidIndex(vp)];
      forall p: nat | p < IOVA_PAGES && p != vp
        ensures LeafWord(p) == old(LeafWord(p))
      {
        IndicesIdentify(p, vp);
        assert l3[RootIndex(p), MidIndex(p)] == t ==> owner[t] == Leaf(RootIndex(p), MidIndex(p));
      }
    }

    lemma TablesInBounds(i: nat, j: nat)
      requires Valid() && i < 4 && j < 512
      ensures Shape() && root < mem.Length0 && l2[i] < mem.Length0 && l3[i, j] < mem.Length0
      ensures l3[i, j] != 0 ==> l2[i] != 0 && root != 0
    {
    }

    // Store one leaf descriptor; a device walk may cache a valid one at once.
    method WriteLeaf(vp: nat, word: nat)
      requires Valid() && vp < IOVA_PAGES && l3[RootIndex(vp), MidIndex(vp)] != 0
      modifies mem, `flat, `tlb
      ensures Valid()
      ensures IsValid(word) ==> flat == old(flat)[vp := EntryFrame(word)]
      ensures IsValid(word) ==> tlb == old(tlb) + {(vp, EntryFrame(word))}
      ensures !IsValid(word) ==> flat == old(flat) - {vp} && tlb == old(tlb)
    {
      hide Owned, Conserved, Linked;
      TablesInBounds(RootIndex(vp), MidIndex(vp));
      mem[l3[RootIndex(vp), MidIndex(vp)], LeafIndex(vp)] := word;
      if IsValid(word) {
        flat, tlb := flat[vp := EntryFrame(word)], tlb + {(vp, EntryFrame(word))};
      } else {
        flat := flat - {vp};
      }
      LeafWordIsolated(vp);
      assert LeafWord(vp) == word;
    }

    // Everything Valid() says but for frame f, just allocated for `role` and not linked yet.
    ghost predicate Pending(f: nat, role: Role)
      reads this, mem, l2, l3
    {
      && Shape() && Owned() && Linked() && Flattened()
      && 0 < f < mem.Length0 && f in owner && owner[f] == role && TableAt(role) == 0
      && (forall j :: 0 <= j < 512 ==> mem[f, j] == 0)
      && free + owner.Keys == pool
      && (forall g :: g in owner && g != f ==> TableAt(owner[g]) == g)
      && (forall vp :: vp in flat ==> (vp, flat[vp]) in tlb)
      && (root == 0 ==> tlb == {} && !ready)
      && (cbOwned <==> root != 0)
      && (root != 0 ==> paBits <= 48)
    }

    // Take the empty table f as the root; the context bank is ours from here on.
    method LinkRoot(f: nat)
      requires Pending(f, Root) && root == 0 && paBits <= 48
      modifies `root, `cbOwned
      ensures Valid() && root == f && cbOwned
    {
      root, cbOwned := f, true;
      assert Owned() && Conserved();
    }

    // Hang the empty middle table f below the root.
    method LinkMid(ri: nat, f: nat)
      requires ri < 4 && Pending(f, Mid(ri)) && root != 0
      modifies mem, l2
      ensures Valid() && l2[ri] == f
    {
      mem[root, ri] := Entry(f, TABLE_BITS);
      l2[ri] := f;
      assert Owned() && Conserved();
      assert Linked();
      assert forall vp: nat :: vp < IOVA_PAGES ==> LeafWord(vp) == old(LeafWord(vp));
    }

    // Hang the empty leaf table f below a middle table.
    method LinkLeaf(ri: nat, mi: nat, f: nat)
      requires ri < 4 && mi < 512 && Pending(f, Leaf(ri, mi)) && root != 0 && l2[ri] != 0
      modifies mem, l3
      ensures Valid() && l3[ri, mi] == f
      ensures forall i, j :: 0 <= i < 4 && 0 <= j < 512 && !(i == ri && j == mi) ==> l3[i, j] == old(l3[i, j])
    {
      mem[l2[ri], mi] := Entry(f, TABLE_BITS);
      l3[ri, mi] := f;
      assert Owned() && Conserved();
      assert Linked();
      assert forall vp: nat :: vp < IOVA_PAGES ==> LeafWord(vp) == old(LeafWord(vp));
    }

    // The middle table below root entry ri, made on demand.
    method EnsureMid(ri: nat, create: bool, cpu: nat -> bool) returns (ok: bool)
      requires Valid() && root != 0 && ri < 4
      modifies `free, `owner, mem, l2
      ensures Valid() && ok == (l2[ri] != 0) && Spent(old(free), free, 1)
      ensures !create || old(l2[ri]) != 0 ==> unchanged(`free, `owner, mem, l2)
      ensures create && Room(old(free), paBits, cpu, 1) ==> ok
    {
      hide Owned, Conserved, Linked, Flattened, Room;
      if l2[ri] == 0 && create {
        var f := AllocTable(Mid(ri), cpu);
        if f != 0 {
          LinkMid(ri, f);
        }
      }
      ok := l2[ri] != 0;
    }

    // The leaf table below a middle table, made on demand.
    method EnsureLeaf(ri: nat, mi: nat, create: bool, cpu: nat -> bool) returns (table: nat)
      requires Valid() && root != 0 && ri < 4 && mi < 512 && l2[ri] != 0
      modifies `free, `owner, mem, l3
      ensures Valid() && table == l3[ri, mi] && Spent(old(free), free, 1)
      ensures !create || old(l3[ri, mi]) != 0 ==> unchanged(`free, `owner, mem, l3)
      ensures forall i, j :: 0 <= i < 4 && 0 <= j < 512 && !(i == ri && j == mi) ==> l3[i, j] == old(l3[i, j])
      ensures create && Room(old(free), paBits, cpu, 1) ==> table != 0
    {
      LeafLinked(ri, mi);
      hide Owned, Conserved, Linked, Flattened, Room;
      if !IsValid(mem[l2[ri], mi]) && create {
        var f := AllocTable(Leaf(ri, mi), cpu);
        if f != 0 {
          LinkLeaf(ri, mi, f);
        }
      }
      return l3[ri, mi];
    }

    lemma LeafLinked(ri: nat, mi: nat)
      requires Valid() && ri < 4 && mi < 512 && l2[ri] != 0
      ensures l2[ri] < mem.Length0 && (IsValid(mem[l2[ri], mi]) <==> l3[ri, mi] != 0)
    {
    }

    /** find_l3: the leaf table for a (root, middle) index pair, made on demand; 0 on failure. */
    method FindL3(idx: nat, create: bool, cpu: nat -> bool) returns (table: nat)
      requires Valid() && root != 0
      modifies `free, `owner, mem, l2, l3
      ensures Valid() && flat == old(flat)
      ensures table != 0 ==> idx < 2048 && table == l3[idx / 512, idx % 512]
      ensures !create || (idx < 2048 && old(l3[idx / 512, idx % 512]) != 0) ==>
                unchanged(`free, `owner, mem, l2, l3)
                && table == if idx < 2048 then l3[idx / 512, idx % 512] else 0
      ensures forall i, j :: 0 <= i < 4 && 0 <= j < 512 && old(l3[i, j]) != 0 ==> l3[i, j] == old(l3[i, j])
      ensures create && idx < 2048 && Room(old(free), paBits, cpu, 2) ==> table != 0
      ensures Spent(old(free), free, 2)
    {
      hide Tables.Valid, Room;
      var ri, mi := idx / 512, idx % 512;
      if ri >= 4 {
        return 0;
      }
      TablesInBounds(ri, mi);
      ghost var start := free;
      RoomEnough(start, paBits, cpu);
      var ok := EnsureMid(ri, create, cpu);
      RoomLeft(start, free, paBits, cpu, 1, 1);
      if !ok {
        return 0;
      }
      ghost var middle := free;
      table := EnsureLeaf(ri, mi, create, cpu);
      SpentMore(start, middle, free, 1, 1);
    }

    static lemma RoomEnough(free: set<nat>, bits: nat, cpu: nat -> bool)
      ensures Room(free, bits, cpu, 2) ==> Room(free, bits, cpu, 1)
    {
    }

    // A completed TLBIASID and sync: only translations that are still live can be cached again.
    method CompleteSync()
      requires Valid()
      modifies `tlb
      ensures Valid() && tlb == Live(flat) && tlb <= old(tlb)
    {
      tlb := Live(flat);
    }

    ghost predicate HasTable(p: nat)
      reads l3
    {
      RootIndex(p) < l3.Length0 && MidIndex(p) < l3.Length1 && l3[RootIndex(p), MidIndex(p)] != 0
    }

    // The leaf table of a page and the word in it that decides whether the page is mapped.
    lemma LeafOf(p: nat)
      requires Valid() && p < IOVA_PAGES
      ensures Shape() && RootIndex(p) < 4 && MidIndex(p) < 512 && LeafIndex(p) < 512
      ensures l3[RootIndex(p), MidIndex(p)] < mem.Length0
      ensures var t := l3[RootIndex(p), MidIndex(p)]; p in flat <==> t != 0 && IsValid(mem[t, LeafIndex(p)])
    {
      FromIndices(p);
    }

    // Publish one page, refusing a page that is already mapped or has no room for its tables.
    method PublishPage(p: nat, frame: nat, cpu: nat -> bool) returns (ok: bool)
      requires Valid() && root != 0 && p < IOVA_PAGES && frame < 0x10_0000_0000
      modifies `flat, `tlb, `free, `owner, mem, l2, l3
      ensures Valid()
      ensures ok ==> p !in old(flat)
      ensures ok ==> flat == old(flat)[p := frame] && tlb == old(tlb) + {(p, frame)}
      ensures !ok ==> flat == old(flat) && tlb == old(tlb)
      ensures old(HasTable(p)) || Room(old(free), paBits, cpu, 2) ==> (ok <==> p !in old(flat))
      ensures Spent(old(free), free, 2)
      ensures forall q :: old(HasTable(q)) ==> HasTable(q)
    {
      hide Tables.Valid, RootIndex, MidIndex, LeafIndex, Entry, EntryFrame, IsValid, Room;
      PackedIndices(p);
      LeafOf(p);
      var t := FindL3(RootIndex(p) * 512 + MidIndex(p), true, cpu);
      if t == 0 {
        return false;
      }
      LeafOf(p);
      if IsValid(mem[t, LeafIndex(p)]) {
        return false;
      }
      EntryRoundTrip(frame, LEAF_BITS);
      WriteLeaf(p, Entry(frame, LEAF_BITS));
      return true;
    }

    // Clear one page; a page without a leaf table has nothing to clear.
    method ClearPage(p: nat) returns (found: bool)
      requires Valid() && root != 0 && p < IOVA_PAGES
      modifies `flat, `tlb, `free, `owner, mem, l2, l3
      ensures Valid() && unchanged(`tlb, `free, `owner, l2, l3)
      ensures flat == old(flat) - {p}
      ensures p in old(flat) ==> found
    {
      hide Tables.Valid, RootIndex, MidIndex, LeafIndex;
      PackedIndices(p);
      LeafOf(p);
      var t := FindL3(RootIndex(p) * 512 + MidIndex(p), false, _ => false);
      if t != 0 {
        WriteLeaf(p, 0);
      }
      return t != 0;
    }

    method ClearRange(vp: nat, n: nat)
      requires Valid() && root != 0 && vp + n <= IOVA_PAGES
      modifies `flat, `tlb, `free, `owner, mem, l2, l3
      ensures Valid() && unchanged(`tlb, `free, `owner, l2, l3)
      ensures flat == old(flat) - RangeKeys(vp, n)
    {
      hide Owned, Conserved, Linked, Flattened;
      var k := 0;
      while k < n
        invariant k <= n && Valid() && unchanged(`tlb, `free, `owner, l2, l3)
        invariant flat == old(flat) - RangeKeys(vp, k)
      {
        var found := ClearPage(vp + k);
        RangeExtends(vp, 0, k);
        k := k + 1;
      }
    }

    static lemma RoomForTwo(before: set<nat>, after: set<nat>, bits: nat, cpu: nat -> bool, n: nat, k: nat)
      requires Spent(before, after, 2 * k) && k < n
      ensures Room(before, bits, cpu, 2 * n) ==> Room(after, bits, cpu, 2)
    {
    }

    static lemma NothingSpent(free: set<nat>)
      ensures Spent(free, free, 0)
    {
    }

    // The publishing loop of map: all n pages, or none after rolling back.
    method PublishRange(vp: nat, frame: nat, n: nat, cpu: nat -> bool) returns (ok: bool)
      requires Valid() && root != 0 && vp + n <= IOVA_PAGES && frame + n <= 0x10_0000_0000
      modifies `flat, `tlb, `free, `owner, mem, l2, l3
      ensures Valid()
      ensures ok ==> RangeKeys(vp, n) !! old(flat).Keys && flat == old(flat) + RangeMap(vp, frame, n)
      ensures ok ==> tlb == old(tlb) + Live(RangeMap(vp, frame, n))
      ensures !ok ==> flat == old(flat)
      ensures !ok ==> tlb <= old(tlb) + Live(RangeMap(vp, frame, n))
      ensures Room(old(free), paBits, cpu, 2 * n) || old(forall p :: InRange(p, vp, n) ==> HasTable(p)) ==>
                (ok <==> RangeKeys(vp, n) !! old(flat).Keys)
    {
      hide *;
      var k := 0;
      EmptyRange(old(flat), vp, frame);
      NothingSpent(free);
      while k < n
        invariant k <= n && Valid()
        invariant RangeKeys(vp, k) !! old(flat).Keys
        invariant flat == old(flat) + RangeMap(vp, frame, k)
        invariant tlb == old(tlb) + Live(RangeMap(vp, frame, k))
        invariant forall q :: old(HasTable(q)) ==> HasTable(q)
        invariant Spent(old(free), free, 2 * k)
      {
        RoomForTwo(old(free), free, paBits, cpu, n, k);
        ghost var had := free;
        PublishedRange(old(flat), vp, frame, k);
        var published := PublishPage(vp + k, frame + k, cpu);
        if !published {
          RangeGrows(vp, frame, k, n);
          ClearRange(vp, k);
          return false;
        }
        RangeExtends(vp, frame, k);
        SpentMore(old(free), had, free, 2 * k, 2);
        k := k + 1;
      }
      return true;
    }

    /** q8b_npu_smmu_map.  `tlbi` says whether the invalidate and sync after publishing complete,
        `retry` whether the best-effort ones after a failed publish do. */
    method Map(pa: nat, iova: nat, size: nat, cpu: nat -> bool, tlbi: bool, retry: bool) returns (ok: bool)
      requires Valid()
      modifies `flat, `tlb, `free, `owner, mem, l2, l3
      ensures Valid()
      ensures ok ==> ready && tlbi && MapArgsOk(paBits, pa, iova, size)
      ensures ok ==> RangeKeys(iova / PAGE, Pages(size)) !! old(flat).Keys
      ensures ok ==> flat == old(flat) + RangeMap(iova / PAGE, pa / PAGE, Pages(size)) && tlb == Live(flat)
      ensures !ok ==> flat == old(flat)
      ensures tlb <= old(tlb) + Live(RangeMap(iova / PAGE, pa / PAGE, Pages(size)))
      ensures !ready || !MapArgsOk(paBits, pa, iova, size) ==>
                !ok && unchanged(`flat, `tlb, `free, `owner, mem, l2, l3)
      ensures Room(old(free), paBits, cpu, 2 * Pages(size))
              || old(forall p :: InRange(p, iova / PAGE, Pages(size)) ==> HasTable(p)) ==>
                (ok <==> ready && tlbi && MapArgsOk(paBits, pa, iova, size)
                         && RangeKeys(iova / PAGE, Pages(size)) !! old(flat).Keys)
    {
      hide Owned, Conserved, Linked, Flattened, RangeMap, RangeKeys, Live, HasTable;
      if !ready || size == 0 || pa % PAGE != 0 || iova % PAGE != 0 {
        return false;
      }
      var n := Pages(size);
      if pa + n * PAGE > Pow2(paBits) || iova + n * PAGE > IOVA_PAGES * PAGE {
        return false;
      }
      Pow2Bound(paBits);
      var vp, frame := iova / PAGE, pa / PAGE;
      var published := PublishRange(vp, frame, n, cpu);
      if !published {
        return false;
      }
      if tlbi {
        CompleteSync();
        return true;
      }
      PublishedRange(old(flat), vp, frame, n);
      ClearRange(vp, n);
      if retry {
        CompleteSync();
      }
      return false;
    }

    // One step of the validation loop of unmap.
    method PageMapped(p: nat) returns (mapped: bool)
      requires Valid() && root != 0 && p < IOVA_PAGES
      modifies `free, `owner, mem, l2, l3
      ensures Valid() && unchanged(`free, `owner, mem, l2, l3)
      ensures mapped <==> p in flat
    {
      hide Tables.Valid, RootIndex, MidIndex, LeafIndex, IsValid;
      PackedIndices(p);
      LeafOf(p);
      var t := FindL3(RootIndex(p) * 512 + MidIndex(p), false, _ => false);
      mapped := t != 0 && IsValid(mem[t, LeafIndex(p)]);
    }

    method RangeMapped(vp: nat, n: nat) returns (mapped: bool)
      requires Valid() && root != 0 && vp + n <= IOVA_PAGES
      modifies `free, `owner, mem, l2, l3
      ensures Valid() && unchanged(`free, `owner, mem, l2, l3)
      ensures mapped <==> RangeKeys(vp, n) <= flat.Keys
    {
      hide Owned, Conserved, Linked, Flattened;
      var k := 0;
      while k < n
        invariant k <= n && Valid() && unchanged(`free, `owner, mem, l2, l3)
        invariant RangeKeys(vp, k) <= flat.Keys
      {
        var one := PageMapped(vp + k);
        RangeExtends(vp, 0, k);
        RangeGrows(vp, 0, k, n);
        if !one {
          return false;
        }
        k := k + 1;
      }
      return true;
    }

    /** q8b_npu_smmu_unmap: the whole range is validated before any descriptor is cleared.  When
        `tlbi` fails the descriptors are gone but the device may still hold the translations. */
    method Unmap(iova: nat, size: nat, tlbi: bool) returns (ok: bool)
      requires Valid()
      modifies `flat, `tlb, `free, `owner, mem, l2, l3
      ensures Valid()
      ensures var accepted := ready && UnmapArgsOk(iova, size) && RangeKeys(iova / PAGE, Pages(size)) <= old(flat).Keys;
              && (ok <==> accepted && tlbi)
              && (!accepted ==> unchanged(`flat, `tlb, `free, `owner, mem, l2, l3))
              && (accepted ==> flat == old(flat) - RangeKeys(iova / PAGE, Pages(size)))
              && (accepted ==> tlb == if tlbi then Live(flat) else old(tlb))
              && tlb <= old(tlb)
    {
      hide Owned, Conserved, Linked, Flattened, RangeKeys, Live;
      if !ready || size == 0 || iova % PAGE != 0 {
        return false;
      }
      var n := Pages(size);
      if iova + n * PAGE > IOVA_PAGES * PAGE {
        return false;
      }
      var vp := iova / PAGE;
      var mapped := RangeMapped(vp, n);
      if !mapped {
        return false;
      }
      ClearRange(vp, n);
      if !tlbi {
        return false;
      }
      CompleteSync();
      return true;
    }

    // Hand every table page back to the DMA pool.
    method FreeTables()
      requires Valid()
      modifies `free
      ensures free == pool && forall f :: f in pool ==> 0 < f < mem.Length0
    {
      hide Linked, Flattened;
      if root != 0 {
        free := free + {root};
      }
      var r := 0;
      while r < 4
        invariant r <= 4
        invariant old(free) <= free <= pool && (root != 0 ==> root in free)
        invariant forall i :: 0 <= i < r && l2[i] != 0 ==> l2[i] in free
        invariant forall i, j :: 0 <= i < r && 0 <= j < 512 && l3[i, j] != 0 ==> l3[i, j] in free
      {
        var i := 0;
        while i < 512
          invariant i <= 512
          invariant old(free) <= free <= pool && (root != 0 ==> root in free)
          invariant forall k :: 0 <= k < r && l2[k] != 0 ==> l2[k] in free
          invariant forall k, j :: 0 <= k < r && 0 <= j < 512 && l3[k, j] != 0 ==> l3[k, j] in free
          invariant forall j :: 0 <= j < i && l3[r, j] != 0 ==> l3[r, j] in free
        {
          if l3[r, i] != 0 {
            free := free + {l3[r, i]};
          }
          i := i + 1;
        }
        if l2[r] != 0 {
          free := free + {l2[r]};
        }
        r := r + 1;
      }
      forall f | f in owner ensures f in free {
        assert TableAt(owner[f]) == f != 0;
      }
    }

    /** q8b_npu_smmu_stop: translation is switched off and every cached entry is gone before the
        table pages are released; if the hardware does not confirm (`hw`) everything is kept. */
    method Stop(hw: bool) returns (ok: bool)
      requires Valid()
      modifies this, l2, l3
      ensures Valid() && !ready
      ensures ok <==> !old(cbOwned) || hw
      ensures ok ==> root == 0 && flat == map[] && tlb == {} && free == pool
      ensures !ok ==> unchanged(`root, `cbOwned, `paBits, `flat, `tlb, `free, `owner, l2, l3)
    {
      ready := false;
      if cbOwned && !hw {
        return false;
      }
      FreeTables();
      Reset();
      return true;
    }

    // memset(&smmu, 0, ..)
    method Reset()
      requires Shape() && !ready && free == pool && forall f :: f in pool ==> 0 < f < mem.Length0
      modifies this, l2, l3
      ensures Valid() && root == 0 && !cbOwned && !ready && flat == map[] && tlb == {} && free == pool
    {
      forall i | 0 <= i < 4 { l2[i] := 0; }
      forall i, j | 0 <= i < 4 && 0 <= j < 512 { l3[i, j] := 0; }
      root, cbOwned, paBits, owner, flat, tlb := 0, false, 0, map[], map[], {};
      assert forall vp :: LeafWord(vp) == 0;
    }

    /** q8b_npu_smmu_enable.  `probe` and `setup` say whether the register steps before and after
        the root table is allocated succeed, `bits` is the probed output size, `hw` is for the
        teardown of a failed setup. */
    method Enable(probe: bool, bits: nat, cpu: nat -> bool, setup: bool, hw: bool) returns (ok: bool)
      requires Valid() && bits in {32, 36, 40, 42, 44, 48}
      modifies this, mem, l2, l3
      ensures Valid() && flat == old(flat) && tlb == old(tlb)
      ensures ok ==> ready && root != 0
      ensures !old(ready) && !(probe && setup) ==> !ok
      ensures old(ready) ==> ok && unchanged(this, mem, l2, l3)
      ensures !old(ready) && old(root) != 0 ==> !ok && unchanged(this, mem, l2, l3)
      ensures !ok ==> !ready
      ensures ok && !old(ready) ==> paBits == bits && Spent(old(free), free, 1)
      ensures !old(ready) && old(root) == 0 && probe && setup && Room(old(free), bits, cpu, 1) ==> ok
    {
      hide Owned, Conserved, Linked, Flattened, Room, Pow2;
      if ready {
        return true;
      }
      if root != 0 {
        return false;
      }
      if probe {
        paBits := bits;
        var f := AllocTable(Root, cpu);
        if f != 0 {
          LinkRoot(f);
          if setup {
            ready := true;
            return true;
          }
        }
      }
      var stopped := Stop(hw);
      return false;
    }
  }
}
