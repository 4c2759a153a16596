/** The boot memory planner of q8b/kernel/bsp/hw_info_arch.c: exclusions, the DMA and shared-memory pools,
    and the ranges handed to the page allocator. */
module BootMemory {
  import opened MemoryPool
  import opened Options

  const MAX_RESV: nat := 32
  const MAX_EXCL: nat := MAX_RESV + 5

  datatype Region = Region(base: nat, size: nat)

  function Saturate(r: Region): Range {
    Range(r.base, if r.size > UINT64_MAX - r.base then UINT64_MAX else r.base + r.size)
  }

  /** The nonempty regions, as ranges. */
  function Ranges(rs: seq<Region>): seq<Range>
  {
    if rs == [] then [] else
    var n := |rs| - 1;
    Ranges(rs[..n]) + if rs[n].size != 0 && rs[n].base <= UINT64_MAX then [Saturate(rs[n])] else []
  }

  lemma {:induction false} RangesCover(rs: seq<Region>, i: nat)
    requires i < |rs| && rs[i].size != 0 && rs[i].base <= UINT64_MAX
    ensures Saturate(rs[i]) in Ranges(rs)
  {
    var n := |rs| - 1;
    if i < n {
      RangesCover(rs[..n], i);
    }
  }

  /** No byte of [c, c + size) lies in a region. */
  predicate ClearOf(c: nat, size: nat, rs: seq<Region>) {
    forall r :: r in rs && r.size != 0 && r.base <= UINT64_MAX ==> !Overlaps(c, size, Saturate(r))
  }

  lemma {:induction false} ClearRanges(c: nat, size: nat, rs: seq<Region>)
    ensures Clear(c, size, Ranges(rs)) <==> ClearOf(c, size, rs)
  {
    if rs != [] {
      var n := |rs| - 1;
      ClearRanges(c, size, rs[..n]);
      assert rs == rs[..n] + [rs[n]];
      var last := if rs[n].size != 0 && rs[n].base <= UINT64_MAX then [Saturate(rs[n])] else [];
      ClearJoined(c, size, Ranges(rs[..n]), last);
      ClearSplit(c, size, rs[..n], rs[n]);
      ClearLast(c, size, rs[n], last);
    }
  }

  lemma ClearSplit(c: nat, size: nat, rs: seq<Region>, r: Region)
    ensures ClearOf(c, size, rs + [r]) <==>
              ClearOf(c, size, rs) && (r.size != 0 && r.base <= UINT64_MAX ==> !Overlaps(c, size, Saturate(r)))
  {
    assert forall x :: x in rs + [r] <==> x in rs || x == r;
  }

  lemma ClearLast(c: nat, size: nat, r: Region, last: seq<Range>)
    requires last == if r.size != 0 && r.base <= UINT64_MAX then [Saturate(r)] else []
    ensures Clear(c, size, last) <==> (r.size != 0 && r.base <= UINT64_MAX ==> !Overlaps(c, size, Saturate(r)))
  {
    if last != [] {
      assert last[0] == Saturate(r);
    }
  }

  lemma ClearJoined(c: nat, size: nat, a: seq<Range>, b: seq<Range>)
    ensures Clear(c, size, a + b) <==> Clear(c, size, a) && Clear(c, size, b)
  {
    assert forall i :: 0 <= i < |a| ==> (a + b)[i] == a[i];
    assert forall i :: 0 <= i < |b| ==> (a + b)[|a| + i] == b[i];
  }

  predicate Excluded(ex: seq<Range>, a: nat) {
    exists i :: 0 <= i < |ex| && In(a, ex[i])
  }

  /** memory_exclusions: every nonempty region is recorded; the array cap drops none. */
  method Exclusions(fixed: seq<Region>, resv: seq<Region>) returns (ex: array<Range>, n: nat)
    requires |fixed| <= 5 && forall r :: r in fixed || r in resv ==> r.base <= UINT64_MAX
    ensures fresh(ex) && ex.Length == MAX_EXCL && n <= MAX_EXCL
    ensures |resv| <= MAX_RESV ==> ex[..n] == Ranges(fixed + resv)
    ensures ex[..n] == Ranges(fixed + if |resv| <= MAX_RESV then resv else resv[..MAX_RESV])
  {
    ex := new Range[MAX_EXCL](_ => Range(0, 0));
    n := 0;
    var all := fixed + if |resv| <= MAX_RESV then resv else resv[..MAX_RESV];
    for i := 0 to |all|
      invariant n <= i && ex[..n] == Ranges(all[..i])
    {
      assert all[..i + 1][..i] == all[..i];
      if all[i].size != 0 && n < MAX_EXCL {
        ex[n] := Saturate(all[i]);
        n := n + 1;
        assert ex[..n][..n - 1] == Ranges(all[..i]);
      }
    }
    assert all[..|all|] == all;
  }

  predicate WellFormed(ex: seq<Range>) {
    forall i :: 0 <= i < |ex| ==> ex[i].base <= ex[i].top
  }

  lemma {:induction false} RangesWellFormed(rs: seq<Region>)
    ensures WellFormed(Ranges(rs)) && |Ranges(rs)| <= |rs|
  {
    if rs != [] {
      RangesWellFormed(rs[..|rs| - 1]);
    }
  }

  predicate SortedByBase(s: seq<Range>) {
    forall i, j :: 0 <= i < j < |s| ==> s[i].base <= s[j].base
  }

  /** The insertion sort of kalloc_arch, in place. */
  method SortByBase(ex: array<Range>, n: nat)
    requires n <= ex.Length
    modifies ex
    ensures SortedByBase(ex[..n])
    ensures multiset(ex[..n]) == old(multiset(ex[..n]))
  {
    hide SortedByBase, Inserted;
    var i := 1;
    ghost var cur := ex[..n];
    SortedShort(if n == 0 then cur else cur[..1]);
    while i < n
      invariant 1 <= i && (i <= n || n == 0) && cur == ex[..n]
      invariant SortedByBase(if n == 0 then cur else cur[..i])
      invariant multiset(cur) == old(multiset(ex[..n]))
    {
      var p := InsertNext(ex, i, n);
      InsertedPermutes(cur, i, p);
      InsertedSorted(cur, i, p);
      cur := ex[..n];
      i := i + 1;
    }
    assert n > 0 ==> cur[..i] == cur;
  }

  lemma SortedShort(s: seq<Range>)
    requires |s| <= 1
    ensures SortedByBase(s)
  {
  }

  // Insert ex[i] into the sorted prefix before it.
  method InsertNext(ex: array<Range>, i: nat, n: nat) returns (p: nat)
    requires 1 <= i < n <= ex.Length
    modifies ex
    ensures p <= i && ex[..n] == Inserted(old(ex[..n]), i, p)
    ensures p > 0 ==> old(ex[p - 1]).base <= old(ex[i]).base
    ensures forall k :: p <= k < i ==> old(ex[i]).base < old(ex[k]).base
  {
    var key := ex[i];
    p := i;
    while p > 0 && ex[p - 1].base > key.base
      invariant p <= i
      invariant forall k :: 0 <= k < p ==> ex[k] == old(ex[k])
      invariant forall k :: p < k <= i ==> ex[k] == old(ex[k - 1])
      invariant forall k :: i < k < n ==> ex[k] == old(ex[k])
      invariant forall k :: p <= k < i ==> key.base < old(ex[k]).base
    {
      ex[p] := ex[p - 1];
      p := p - 1;
    }
    ex[p] := key;
    InsertedAt(old(ex[..n]), ex[..n], i, p);
  }

  lemma InsertedAt(s: seq<Range>, t: seq<Range>, i: nat, p: nat)
    requires p <= i < |s| == |t| && t[p] == s[i]
    requires forall k :: 0 <= k < p ==> t[k] == s[k]
    requires forall k :: p < k <= i ==> t[k] == s[k - 1]
    requires forall k :: i < k < |s| ==> t[k] == s[k]
    ensures t == Inserted(s, i, p)
  {
  }

  lemma InsertedSorted(s: seq<Range>, i: nat, p: nat)
    requires p <= i < |s| && SortedByBase(s[..i])
    requires p > 0 ==> s[p - 1].base <= s[i].base
    requires forall k :: p <= k < i ==> s[i].base < s[k].base
    ensures SortedByBase(Inserted(s, i, p)[..i + 1])
  {
    var t := Inserted(s, i, p)[..i + 1];
    assert forall k :: 0 <= k < i ==> s[..i][k] == s[k];
    assert forall k :: 0 <= k <= i ==> t[k] == if k < p then s[k] else if k == p then s[i] else s[k - 1];
  }

  /** s with its element at i moved down to position p. */
  function Inserted(s: seq<Range>, i: nat, p: nat): seq<Range>
    requires p <= i < |s|
  {
    s[..p] + [s[i]] + s[p..i] + s[i + 1..]
  }

  lemma InsertedPermutes(s: seq<Range>, i: nat, p: nat)
    requires p <= i < |s|
    ensures multiset(Inserted(s, i, p)) == multiset(s)
  {
    assert s == s[..p] + s[p..i] + [s[i]] + s[i + 1..];
  }

  /** How often address a is handed out. */
  function Count(ps: seq<Range>, a: nat): nat {
    if ps == [] then 0 else Count(ps[..|ps| - 1], a) + if In(a, ps[|ps| - 1]) then 1 else 0
  }

  lemma CountOne(ps: seq<Range>, r: Range)
    ensures forall a: nat :: Count(ps + [r], a) == Count(ps, a) + if In(a, r) then 1 else 0
  {
    assert (ps + [r])[..|ps|] == ps;
  }

  lemma {:induction false} CountAppend(ps: seq<Range>, qs: seq<Range>, a: nat)
    ensures Count(ps + qs, a) == Count(ps, a) + Count(qs, a)
  {
    if qs == [] {
      assert ps + qs == ps;
    } else {
      var n := |qs| - 1;
      assert (ps + qs)[..|ps + qs| - 1] == ps + qs[..n];
      CountAppend(ps, qs[..n], a);
    }
  }

  /** How many usable descriptors cover a. */
  function RamCount(ds: seq<Descriptor>, a: nat): nat {
    if ds == [] then 0 else RamCount(ds[..|ds| - 1], a) + if InUsable(a, ds[|ds| - 1]) then 1 else 0
  }

  lemma {:induction false} RamCountPositive(ds: seq<Descriptor>, a: nat)
    ensures RamCount(ds, a) > 0 <==> Ram(ds, a)
  {
    if ds != [] {
      var n := |ds| - 1;
      RamCountPositive(ds[..n], a);
      assert forall i :: 0 <= i < n ==> ds[..n][i] == ds[i];
    }
  }

  // Handed out so far below the cursor: everything the first i exclusions leave.
  ghost predicate CarvedUpTo(ps: seq<Range>, ex: seq<Range>, i: nat, base: nat, top: nat, cur: nat)
    requires i <= |ex|
  {
    && base <= cur
    && (forall a: nat :: Count(ps, a) == if base <= a < cur && a < top && !Excluded(ex[..i], a) then 1 else 0)
    && (forall a: nat :: base <= a < cur && a < top && !Excluded(ex[..i], a) ==> !Excluded(ex, a))
    && (forall j :: 0 <= j < i && ex[j].base < top ==> ex[j].top <= cur)
  }

  /** The cursor loop of kalloc_arch over one range: each byte outside every exclusion is handed out
      once and each excluded byte never. */
  method Carve(base: nat, top: nat, ex: seq<Range>) returns (ps: seq<Range>)
    requires base < top && SortedByBase(ex) && WellFormed(ex)
    ensures forall a: nat :: Count(ps, a) == if base <= a < top && !Excluded(ex, a) then 1 else 0
  {
    ps := [];
    var cur: nat := base;
    for i := 0 to |ex|
      invariant CarvedUpTo(ps, ex, i, base, top, cur)
    {
      ps, cur := CarveStep(ps, ex, i, base, top, cur);
    }
    assert ex[..|ex|] == ex;
    if cur < top {
      CountOne(ps, Range(cur, top));
      ps := ps + [Range(cur, top)];
    }
  }

  method CarveStep(ps: seq<Range>, ex: seq<Range>, i: nat, base: nat, top: nat, cur: nat)
    returns (ps': seq<Range>, cur': nat)
    requires i < |ex| && SortedByBase(ex) && WellFormed(ex) && CarvedUpTo(ps, ex, i, base, top, cur)
    ensures CarvedUpTo(ps', ex, i + 1, base, top, cur')
  {
    ps', cur' := ps, cur;
    var x := ex[i];
    ExcludedStep(ex, i);
    assert forall a: nat :: In(a, x) ==> Excluded(ex, a);
    assert forall a: nat :: cur <= a < top ==> !Excluded(ex[..i], a);
    if x.top <= cur || x.base >= top {
      return;
    }
    if x.base > cur {
      CountOne(ps, Range(cur, x.base));
      ps' := ps + [Range(cur, x.base)];
    }
    cur' := x.top;
    forall a: nat | cur <= a < cur' && a < top && !Excluded(ex[..i + 1], a)
      ensures !Excluded(ex, a)
    {
      forall j | 0 <= j < |ex|
        ensures !In(a, ex[j])
      {
        assert j <= i ==> ex[..i + 1][j] == ex[j];
        assert !In(a, ex[..i + 1][i]);
      }
    }
    forall a: nat
      ensures Count(ps', a) == if base <= a < cur' && a < top && !Excluded(ex[..i + 1], a) then 1 else 0
    {
      assert Excluded(ex[..i + 1], a) <==> Excluded(ex[..i], a) || In(a, x);
      assert Count(ps', a) == Count(ps, a) + if cur <= a < x.base then 1 else 0;
    }
  }

  lemma ExcludedStep(ex: seq<Range>, i: nat)
    requires i < |ex|
    ensures forall a: nat :: Excluded(ex[..i + 1], a) <==> Excluded(ex[..i], a) || In(a, ex[i])
  {
    assert forall j :: 0 <= j < i ==> ex[..i][j] == ex[..i + 1][j] == ex[j];
    assert ex[..i + 1][i] == ex[i];
    forall a: nat | Excluded(ex[..i], a) || In(a, ex[i])
      ensures Excluded(ex[..i + 1], a)
    {
      if j :| 0 <= j < i && In(a, ex[..i][j]) {
        assert In(a, ex[..i + 1][j]);
      } else {
        assert In(a, ex[..i + 1][i]);
      }
    }
  }

  /** The descriptor test kalloc_arch makes for itself, in 64-bit arithmetic. */
  function KallocRange(d: Descriptor): Option<Range> {
    if !UsableKind(d.kind) || d.pages == 0 || d.pages > UINT64_MAX / 4096 then None else
    var top := (d.start + d.pages * 4096) % (UINT64_MAX + 1);
    if top < d.start then None else Some(Range(d.start, top))
  }

  /** Both tests accept the same descriptors. */
  lemma KallocRangeAgrees(d: Descriptor)
    requires d.start <= UINT64_MAX
    ensures KallocRange(d) == Usable(d)
  {
    if d.pages <= UINT64_MAX / 4096 {
      var sum := d.start + d.pages * 4096;
      assert sum % (UINT64_MAX + 1) == if sum <= UINT64_MAX then sum else sum - (UINT64_MAX + 1);
    }
  }

  // The bytes of one descriptor that lie in the window and outside every exclusion, once each.
  method CarveDescriptor(d: Descriptor, ex: seq<Range>, low: nat, high: nat) returns (ps: seq<Range>)
    requires SortedByBase(ex) && WellFormed(ex) && d.start <= UINT64_MAX
    ensures forall a: nat :: Count(ps, a) == if InUsable(a, d) && low <= a < high && !Excluded(ex, a) then 1 else 0
  {
    KallocRangeAgrees(d);
    var r := KallocRange(d);
    if r.None? {
      return [];
    }
    var base, top := Max(r.value.base, low), Min(r.value.top, high);
    if top <= base {
      return [];
    }
    ps := Carve(base, top, ex);
  }

  lemma SamePermutation(s: seq<Range>, t: seq<Range>)
    requires multiset(s) == multiset(t)
    ensures forall a: nat :: Excluded(s, a) <==> Excluded(t, a)
    ensures WellFormed(s) ==> WellFormed(t)
  {
    forall r
      ensures r in s <==> r in t
    {
      assert r in multiset(s) <==> r in multiset(t);
    }
    forall a: nat
      ensures Excluded(s, a) <==> Excluded(t, a)
    {
      if i :| 0 <= i < |s| && In(a, s[i]) {
        assert s[i] in t;
      }
      if i :| 0 <= i < |t| && In(a, t[i]) {
        assert t[i] in s;
      }
    }
    forall i | WellFormed(s) && 0 <= i < |t|
      ensures t[i].base <= t[i].top
    {
      assert t[i] in s;
    }
  }

  class Planner {
    const descriptors: seq<Descriptor>
    const mapValid: bool
    const boot: seq<Region>   // RAM disk, frame buffer, GPU zap page
    const resv: seq<Region>   // firmware reservations
    const page: nat
    const allocBase: nat
    const allocTop: nat
    var dma: Region
    var shm: Region

    ghost predicate Valid()
      reads this
    {
      && |boot| <= 3 && (mapValid ==> |resv| <= MAX_RESV) && 0 < allocBase
      && dma.base <= UINT64_MAX && shm.base <= UINT64_MAX && dma.size <= UINT64_MAX && shm.size <= UINT64_MAX
      && (forall r :: r in boot || r in resv ==> r.base <= UINT64_MAX)
      && (forall d :: d in descriptors ==> d.start <= UINT64_MAX)
    }

    /** Everything that must stay out of the pools and the heap. */
    ghost function Regions(): seq<Region>
      reads this
    {
      RegionsWith(dma, shm)
    }

    ghost function RegionsWith(d: Region, s: Region): seq<Region> {
      [d, s] + boot + if |resv| <= MAX_RESV then resv else resv[..MAX_RESV]
    }

    /** c is a place for a pool, given where the pools are so far. */
    ghost predicate Place(c: nat, size: nat, d: Region, s: Region)
      requires page > 0
    {
      Placeable(c, size, page, descriptors, Ranges(RegionsWith(d, s)), allocBase, Min(allocTop, DMA32_LIMIT))
    }

    // Boot-time and firmware regions: all the exclusions there are before a pool is placed.
    ghost function Firmware(): seq<Region> {
      boot + if |resv| <= MAX_RESV then resv else resv[..MAX_RESV]
    }

    /** c is a place for a pool of this size: aligned RAM in the window, clear of firmware and of `others`. */
    ghost predicate Free(c: nat, size: nat, others: seq<Region>)
      requires page > 0
    {
      && AlignedTo(c, page) && allocBase <= c && c + size <= Min(allocTop, DMA32_LIMIT)
      && ClearOf(c, size, others + Firmware()) && forall a :: c <= a < c + size ==> Ram(descriptors, a)
    }

    // A pool that is not placed yet is excluded at address zero, which costs the places below its size.
    lemma PlaceIsFree(c: nat, size: nat, d: Region, s: Region, others: seq<Region>)
      requires page > 0 && size > 0 && d.size <= UINT64_MAX && s.size <= UINT64_MAX && s.base == 0
      requires others == if d.base == 0 then [] else [d]
      ensures Place(c, size, d, s) <==> Free(c, size, others) && s.size <= c && (d.base == 0 ==> d.size <= c)
    {
      ClearRanges(c, size, RegionsWith(d, s));
      assert forall r :: r in RegionsWith(d, s) <==> r == d || r == s || r in Firmware();
      assert forall r :: r in others + Firmware() <==> r in others || r in Firmware();
    }

    ghost predicate Allocable(a: nat)
      reads this
    {
      allocBase <= a < allocTop && !Excluded(Ranges(Regions()), a)
    }

    constructor (ds: seq<Descriptor>, valid: bool, fixed: seq<Region>, reserved: seq<Region>, pageSize: nat,
                 low: nat, high: nat, dmaSize: nat, shmSize: nat)
      requires |fixed| <= 3 && (valid ==> |reserved| <= MAX_RESV) && 0 < low
      requires dmaSize <= UINT64_MAX && shmSize <= UINT64_MAX
      requires forall r :: r in fixed || r in reserved ==> r.base <= UINT64_MAX
      requires forall d :: d in ds ==> d.start <= UINT64_MAX
      ensures Valid() && dma == Region(0, dmaSize) && shm == Region(0, shmSize)
      ensures descriptors == ds && mapValid == valid && boot == fixed && resv == reserved
      ensures page == pageSize && allocBase == low && allocTop == high
    {
      descriptors, mapValid, boot, resv, page, allocBase, allocTop := ds, valid, fixed, reserved, pageSize, low, high;
      dma, shm := Region(0, dmaSize), Region(0, shmSize);
    }

    method Search(size: nat) returns (c: nat)
      requires Valid()
      ensures c != 0 ==> SizesOk(size, page) && Place(c, size, dma, shm)
      ensures c <= UINT64_MAX
      ensures SizesOk(size, page) ==> forall d: nat :: Place(d, size, dma, shm) ==> c != 0 && c <= d
    {
      var ex, n := Exclusions([dma, shm] + boot, resv);
      c := FindPool(size, page, descriptors, ex[..n], allocBase, allocTop);
    }

    /** c is the lowest free place not below `floor`, or 0 because there is none. */
    ghost predicate LowestFrom(c: nat, size: nat, others: seq<Region>, floor: nat)
      requires page > 0
    {
      && (c != 0 ==> Free(c, size, others) && floor <= c)
      && forall d: nat :: Free(d, size, others) && floor <= d ==> c != 0 && c <= d
    }

    /** arch_reserve_memory_pools: both pools lie in usable RAM below 4 GiB, clear of every firmware exclusion and
        of each other; false means the boot halts.  Each pool is at the lowest free place that is not below the
        size of a pool still unplaced, since an unplaced pool is excluded at address zero. */
    method ReservePools() returns (ok: bool)
      requires Valid()
      modifies this
      ensures Valid() && dma.size == old(dma.size) && shm.size == old(shm.size)
      ensures ok ==> mapValid && dma.base != 0 && PoolOk(dma)
      ensures ok && shm.size != 0 ==>
                shm.base != 0 && PoolOk(shm) && !Overlaps(shm.base, shm.size, Range(dma.base, dma.base + dma.size))
      ensures mapValid ==> (ok <==> dma.base != 0 && (shm.size != 0 ==> shm.base != 0))
      ensures mapValid && SizesOk(dma.size, page) ==> LowestFrom(dma.base, dma.size, [], Max(dma.size, shm.size))
      ensures mapValid && dma.base != 0 && shm.size != 0 && SizesOk(shm.size, page) ==>
                LowestFrom(shm.base, shm.size, [dma], shm.size)
      ensures mapValid && !SizesOk(dma.size, page) ==> !ok
    {
      if !mapValid {
        return false;
      }
      dma, shm := dma.(base := 0), shm.(base := 0);
      var c := PlaceDma();
      dma := dma.(base := c);
      ok := c != 0;
      if shm.size != 0 {
        c := PlaceShm();
        shm := shm.(base := c);
        ok := ok && c != 0;
      }
    }

    method PlaceDma() returns (c: nat)
      requires Valid() && mapValid && dma.base == 0 && shm.base == 0
      ensures c <= UINT64_MAX && (c != 0 ==> PoolOk(Region(c, dma.size)))
      ensures SizesOk(dma.size, page) ==> LowestFrom(c, dma.size, [], Max(dma.size, shm.size))
      ensures !SizesOk(dma.size, page) ==> c == 0
    {
      hide Ranges, Placeable;
      c := Search(dma.size);
      if SizesOk(dma.size, page) {
        forall d: nat
          ensures Place(d, dma.size, dma, shm) <==> Free(d, dma.size, []) && Max(dma.size, shm.size) <= d
        {
          PlaceIsFree(d, dma.size, dma, shm, []);
        }
        if c != 0 {
          FreeIsOk(c, dma.size, []);
        }
      }
    }

    method PlaceShm() returns (c: nat)
      requires Valid() && mapValid && shm.base == 0 && shm.size != 0
      ensures c <= UINT64_MAX
      ensures dma.base != 0 && c != 0 ==> PoolOk(Region(c, shm.size))
      ensures dma.base != 0 && dma.size != 0 && c != 0 ==> !Overlaps(c, shm.size, Saturate(dma))
      ensures dma.base != 0 && SizesOk(shm.size, page) ==> LowestFrom(c, shm.size, [dma], shm.size)
    {
      hide Ranges, Placeable;
      c := Search(shm.size);
      if dma.base != 0 && SizesOk(shm.size, page) {
        forall d: nat
          ensures Place(d, shm.size, dma, shm) <==> Free(d, shm.size, [dma]) && shm.size <= d
        {
          PlaceIsFree(d, shm.size, dma, shm, [dma]);
        }
        if c != 0 {
          FreeIsOk(c, shm.size, [dma]);
        }
      }
    }

    lemma FreeIsOk(c: nat, size: nat, others: seq<Region>)
      requires Valid() && mapValid && page > 0 && Free(c, size, others)
      ensures PoolOk(Region(c, size))
      ensures forall r :: r in others && r.size != 0 && r.base <= UINT64_MAX ==> !Overlaps(c, size, Saturate(r))
    {
      assert forall r :: r in boot || r in resv ==> r in others + Firmware();
    }

    /** The unplaced pools cost nothing, so that each pool is at the lowest free place and failure means that there
        is none, exactly when no free place lies below their sizes; a window that starts above both is enough. */
    lemma LowestIff(c: nat, size: nat, others: seq<Region>, floor: nat)
      requires page > 0 && LowestFrom(c, size, others, floor)
      ensures LowestFrom(c, size, others, 0) <==> forall d: nat :: Free(d, size, others) ==> floor <= d
      ensures floor <= allocBase ==> LowestFrom(c, size, others, 0)
    {
    }

    /** A pool in RAM, below 4 GiB, in the window, clear of the boot-time and firmware regions. */
    ghost predicate PoolOk(p: Region)
      requires Valid()
      reads this
    {
      && allocBase <= p.base && p.base + p.size <= Min(allocTop, DMA32_LIMIT)
      && (forall a :: p.base <= a < p.base + p.size ==> Ram(descriptors, a))
      && forall r :: r in boot || r in resv ==> r.size != 0 ==> !Overlaps(p.base, p.size, Saturate(r))
    }

    /** kalloc_arch: an address reaches the page allocator exactly as often as usable descriptors cover
        it, if it is in the window and in no exclusion, and never otherwise. */
    method HeapRanges() returns (out: seq<Range>)
      requires Valid()
      ensures mapValid ==> forall a: nat :: Count(out, a) == if Allocable(a) then RamCount(descriptors, a) else 0
      ensures !mapValid ==> forall a: nat :: Count(out, a) == if Allocable(a) then 1 else 0
    {
      var ex, n := Exclusions([dma, shm] + boot, resv);
      RangesWellFormed(Regions());
      out := [];
      if allocTop <= allocBase {
        return;
      }
      SortByBase(ex, n);
      SamePermutation(Ranges(Regions()), ex[..n]);
      if !mapValid {
        out := Carve(allocBase, allocTop, ex[..n]);
        return;
      }
      out := CarveAll(ex[..n]);
    }

    method CarveAll(ex: seq<Range>) returns (out: seq<Range>)
      requires Valid() && SortedByBase(ex) && WellFormed(ex)
      ensures forall a: nat ::
                Count(out, a) == if allocBase <= a < allocTop && !Excluded(ex, a) then RamCount(descriptors, a) else 0
    {
      out := [];
      for m := 0 to |descriptors|
        invariant forall a: nat ::
                  Count(out, a) == if allocBase <= a < allocTop && !Excluded(ex, a) then RamCount(descriptors[..m], a)
                      else 0
      {
        assert descriptors[..m + 1][..m] == descriptors[..m];
        var ps := CarveDescriptor(descriptors[m], ex, allocBase, allocTop);
        forall a: nat
          ensures Count(out + ps, a)
                  == if allocBase <= a < allocTop && !Excluded(ex, a) then RamCount(descriptors[..m + 1], a) else 0
        {
          CountAppend(out, ps, a);
        }
        out := out + ps;
      }
      assert descriptors[..|descriptors|] == descriptors;
    }

    /** The heap never holds a byte of a pool. */
    lemma HeapMissesPool(out: seq<Range>, a: nat)
      requires Valid() && mapValid
      requires Count(out, a) == if Allocable(a) then RamCount(descriptors, a) else 0
      ensures (dma.size != 0 && In(a, Saturate(dma))) || (shm.size != 0 && In(a, Saturate(shm))) ==> Count(out, a) == 0
      ensures Count(out, a) > 0 ==> Ram(descriptors, a)
    {
      RamCountPositive(descriptors, a);
      if dma.size != 0 && In(a, Saturate(dma)) {
        RangesCover(Regions(), 0);
      } else if shm.size != 0 && In(a, Saturate(shm)) {
        RangesCover(Regions(), 1);
      }
    }
  }

  /** A window from 0x1000 and a DMA pool of 32 KiB: the free place at 0x1000 is passed over. */
  method UnplacedPoolHidesPlace() returns (p: Planner, ok: bool)
    ensures p.Valid() && p.page == 0x1000 && p.Free(0x1000, p.dma.size, []) && (p.dma.base == 0 || p.dma.base >= 0x8000)
  {
    p := new Planner([Descriptor(7, 0x1000, 0x100)], true, [], [], 0x1000, 0x1000, DMA32_LIMIT, 0x8000, 0);
    ok := p.ReservePools();
    PageIsPowerOfTwo();
    assert Usable(p.descriptors[0]) == Some(Range(0x1000, 0x10_1000));
    forall a | 0x1000 <= a < 0x9000
      ensures Ram(p.descriptors, a)
    {
      assert InUsable(a, p.descriptors[0]);
    }
    assert p.Firmware() == [];
  }

  /** Two descriptors of the same page hand it to the heap twice. */
  method RepeatedDescriptor() returns (out: seq<Range>)
    ensures Count(out, 0x1000) == 2
  {
    var d := Descriptor(7, 0x1000, 1);
    var p := new Planner([d, d], true, [], [], 0x1000, 0x1000, DMA32_LIMIT, 0, 0);
    out := p.HeapRanges();
    assert InUsable(0x1000, d);
    assert RamCount([d, d], 0x1000) == RamCount([d], 0x1000) + 1 by { assert [d, d][..1] == [d]; }
    assert RamCount([d], 0x1000) == RamCount([], 0x1000) + 1 by { assert [d][..0] == []; }
    assert Ranges(p.Regions()) == [] by {
      assert p.Regions() == [Region(0, 0), Region(0, 0)];
      assert p.Regions()[..1] == [Region(0, 0)] && [Region(0, 0)][..0] == [];
    }
  }
}
