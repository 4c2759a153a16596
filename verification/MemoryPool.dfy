/** Search for a page-aligned pool in usable RAM (q8b/kernel/bsp/memory_pool.h and find_memory_pool in
    q8b/kernel/bsp/hw_info_arch.c). */
module MemoryPool {
  import opened Options

  const UINT64_MAX: nat := 0xFFFF_FFFF_FFFF_FFFF
  const DMA32_LIMIT: nat := 0x1_0000_0000

  datatype Range = Range(base: nat, top: nat)

  /** A UEFI memory descriptor: type, first byte, 4 KiB pages. */
  datatype Descriptor = Descriptor(kind: nat, start: nat, pages: nat)

  predicate UsableKind(kind: nat) {
    kind == 1 || kind == 2 || kind == 3 || kind == 4 || kind == 7 || kind == 13
  }

  /** usable_descriptor */
  function Usable(d: Descriptor): Option<Range> {
    if UsableKind(d.kind) && d.pages != 0 && d.start + d.pages * 4096 <= UINT64_MAX
    then Some(Range(d.start, d.start + d.pages * 4096)) else None
  }

  predicate In(a: nat, r: Range) { r.base <= a < r.top }

  predicate InUsable(a: nat, d: Descriptor) {
    Usable(d).Some? && In(a, Usable(d).value)
  }

  /** Address a is usable RAM. */
  predicate Ram(ds: seq<Descriptor>, a: nat) {
    exists i :: 0 <= i < |ds| && InUsable(a, ds[i])
  }

  predicate Overlaps(c: nat, size: nat, x: Range) {
    x.base < x.top && x.base < c + size && c < x.top
  }

  predicate Clear(c: nat, size: nat, ex: seq<Range>) {
    forall i :: 0 <= i < |ex| ==> !Overlaps(c, size, ex[i])
  }

  predicate PowerOfTwo(n: nat) {
    n != 0 && (n == 1 || (n % 2 == 0 && PowerOfTwo(n / 2)))
  }

  predicate AlignedTo(a: nat, page: nat)
    requires page > 0
  {
    a % page == 0
  }

  predicate SizesOk(size: nat, page: nat) {
    size != 0 && PowerOfTwo(page) && AlignedTo(size, page)
  }

  // For a power of two this is (a + page - 1) & ~(page - 1).
  function AlignUp(a: nat, page: nat): nat
    requires page > 0
  {
    (a + page - 1) / page * page
  }

  lemma AlignUpLeast(a: nat, page: nat)
    requires page > 0
    ensures a <= AlignUp(a, page) < a + page && AlignedTo(AlignUp(a, page), page)
    ensures forall c: nat :: AlignedTo(c, page) && a <= c ==> AlignUp(a, page) <= c
  {
    var q := (a + page - 1) / page;
    DivMod(a + page - 1, page);
    MulMod(q, page);
    forall c: nat | AlignedTo(c, page) && a <= c
      ensures AlignUp(a, page) <= c
    {
      DivMod(c, page);
      if c / page <= q - 1 {
        MulMonotone(c / page, q - 1, page);
      } else {
        MulMonotone(q, c / page, page);
      }
    }
  }

  lemma MulMonotone(x: nat, y: nat, m: nat)
    requires x <= y
    ensures x * m <= y * m
  {
  }

  lemma WholePages(size: nat, page: nat)
    requires SizesOk(size, page)
    ensures 0 < page <= size
  {
    DivMod(size, page);
    MulMonotone(1, size / page, page);
  }

  lemma DivMod(a: nat, m: nat)
    requires m > 0
    ensures a == a / m * m + a % m && a % m < m
  {
  }

  lemma MulMod(q: nat, m: nat)
    requires m > 0
    ensures q * m % m == 0
  {
    DivMod(q * m, m);
    var d := q * m / m;
    assert (q - d) * m == q * m % m;
    SmallMultiple(q - d, m);
  }

  lemma SmallMultiple(k: int, m: int)
    requires 0 <= k * m < m
    ensures k * m == 0
  {
    assert k <= 0 || k * m >= m;
    assert k >= 0 || k * m <= -m;
  }

  function MaxTop(ds: seq<Descriptor>): (m: nat)
    ensures forall i :: 0 <= i < |ds| && Usable(ds[i]).Some? ==> Usable(ds[i]).value.top <= m
  {
    if ds == [] then 0 else
    var n := |ds| - 1;
    var rest := MaxTop(ds[..n]);
    assert forall i :: 0 <= i < n ==> ds[..n][i] == ds[i];
    if Usable(ds[n]).Some? && Usable(ds[n]).value.top > rest then Usable(ds[n]).value.top else rest
  }

  /** q8b_pool_extend: the result is the first address at or above top that is not usable RAM, so every
      touching descriptor is joined, in whatever order, and no gap is bridged. */
  method Extend(top: nat, ds: seq<Descriptor>) returns (end: nat)
    ensures top <= end && !Ram(ds, end)
    ensures forall a :: top <= a < end ==> Ram(ds, a)
  {
    end := top;
    var previous := end;
    var first := true;
    while first || end != previous
      invariant top <= end && (end <= top || end <= MaxTop(ds))
      invariant forall a :: top <= a < end ==> Ram(ds, a)
      invariant !first && end == previous ==> !Ram(ds, end)
      invariant first || previous <= end
      decreases first, MaxTop(ds) - end, end - previous
    {
      first, previous := false, end;
      for i := 0 to |ds|
        invariant previous <= end && (end <= top || end <= MaxTop(ds))
        invariant forall a :: top <= a < end ==> Ram(ds, a)
        invariant end == previous ==> forall j :: 0 <= j < i ==> !InUsable(end, ds[j])
      {
        var r := Usable(ds[i]);
        if r.Some? && r.value.base <= end && r.value.top > end {
          assert forall a :: end <= a < r.value.top ==> InUsable(a, ds[i]);
          end := r.value.top;
        }
      }
    }
  }

  /** A place for the pool in [base, top) clear of the exclusions. */
  predicate Fits(c: nat, base: nat, top: nat, size: nat, page: nat, ex: seq<Range>)
    requires page > 0
  {
    AlignedTo(c, page) && base <= c && c + size <= top && Clear(c, size, ex)
  }

  // The furthest end of an exclusion that overlaps the candidate at base, or base itself.
  method Blocked(base: nat, size: nat, ex: seq<Range>) returns (next: nat)
    ensures base <= next
    ensures next == base <==> Clear(base, size, ex)
    ensures next != base ==> exists i :: 0 <= i < |ex| && Overlaps(base, size, ex[i]) && ex[i].top == next
  {
    next := base;
    for i := 0 to |ex|
      invariant base <= next
      invariant next == base <==> forall j :: 0 <= j < i ==> !Overlaps(base, size, ex[j])
      invariant next != base ==> exists j :: 0 <= j < i && Overlaps(base, size, ex[j]) && ex[j].top == next
    {
      if ex[i].top > ex[i].base && ex[i].base < base + size && ex[i].top > base && ex[i].top > next {
        next := ex[i].top;
      }
    }
  }

  // No place below the end of an exclusion that blocks the lowest candidate.
  lemma BlockedSkips(base: nat, size: nat, ex: seq<Range>, i: nat, c: nat)
    requires i < |ex| && Overlaps(base, size, ex[i]) && base <= c && Clear(c, size, ex)
    ensures ex[i].top <= c
  {
    assert !Overlaps(c, size, ex[i]);
  }

  /** q8b_pool_candidate: the lowest place in [base, top), whatever the order and overlap of the
      exclusions; 0 when there is none (or when the place is address 0 itself). */
  method Candidate(base: nat, top: nat, size: nat, page: nat, ex: seq<Range>) returns (c: nat)
    requires top <= UINT64_MAX
    ensures !SizesOk(size, page) ==> c == 0
    ensures SizesOk(size, page) && c != 0 ==> Fits(c, base, top, size, page, ex)
    ensures SizesOk(size, page) && c != 0 ==> forall d: nat :: Fits(d, base, top, size, page, ex) ==> c <= d
    ensures SizesOk(size, page) && c == 0 ==>
              Fits(0, base, top, size, page, ex) || forall d: nat :: !Fits(d, base, top, size, page, ex)
  {
    if size == 0 || !PowerOfTwo(page) || !AlignedTo(size, page) {
      return 0;
    }
    WholePages(size, page);
    hide AlignUp, AlignedTo, PowerOfTwo, Overlaps;
    var b := base;
    while true
      invariant base <= b
      invariant forall d: nat :: Fits(d, base, top, size, page, ex) ==> b <= d
      decreases UINT64_MAX + 1 - b
    {
      AlignUpLeast(b, page);
      if b > UINT64_MAX - (page - 1) {
        return 0;
      }
      b := AlignUp(b, page);
      if b >= top || size > top - b {
        return 0;
      }
      var next := Blocked(b, size, ex);
      if next == b {
        return b;
      }
      var i :| 0 <= i < |ex| && Overlaps(b, size, ex[i]) && ex[i].top == next;
      forall d: nat | Fits(d, base, top, size, page, ex)
        ensures next <= d
      {
        BlockedSkips(b, size, ex, i, d);
      }
      b := next;
    }
  }

  /** A place for a pool: page-aligned, all of it usable RAM, clear of every exclusion, inside the
      window [low, high). */
  predicate Placeable(c: nat, size: nat, page: nat, ds: seq<Descriptor>, ex: seq<Range>, low: nat, high: nat)
    requires page > 0
  {
    Fits(c, low, high, size, page, ex) && forall a :: c <= a < c + size ==> Ram(ds, a)
  }

  function Min(a: nat, b: nat): nat { if a < b then a else b }
  function Max(a: nat, b: nat): nat { if a > b then a else b }

  // The search below one descriptor finds a place no higher than any place that starts in it.
  method SearchFrom(r: Range, size: nat, page: nat, ds: seq<Descriptor>, ex: seq<Range>, low: nat, high: nat)
    returns (c: nat)
    requires high <= UINT64_MAX && SizesOk(size, page)
    requires forall a :: In(a, r) ==> Ram(ds, a)
    ensures c != 0 ==> Placeable(c, size, page, ds, ex, low, high)
    ensures !Placeable(0, size, page, ds, ex, low, high) ==>
              forall d: nat :: In(d, r) && Placeable(d, size, page, ds, ex, low, high) ==> c != 0 && c <= d
  {
    var end := Extend(r.top, ds);
    c := Candidate(Max(r.base, low), Min(end, high), size, page, ex);
    assert forall a :: r.base <= a < end ==> Ram(ds, a);
    forall d: nat | In(d, r) && Placeable(d, size, page, ds, ex, low, high)
      ensures !Placeable(0, size, page, ds, ex, low, high) ==> c != 0 && c <= d
    {
      assert Fits(d, Max(r.base, low), Min(end, high), size, page, ex);
    }
  }

  /** best is the lowest place for a pool, or 0 and there is none. */
  ghost predicate Lowest(best: nat, size: nat, page: nat, ds: seq<Descriptor>, ex: seq<Range>, low: nat, high: nat)
    requires page > 0
  {
    && (best == 0 <==> forall c: nat :: !Placeable(c, size, page, ds, ex, low, high))
    && (best != 0 ==> Placeable(best, size, page, ds, ex, low, high))
    && (forall c: nat :: Placeable(c, size, page, ds, ex, low, high) ==> best <= c)
  }

  /** find_memory_pool: the lowest place for a pool in the allocable window below 4 GiB, for any order of
      descriptors and exclusions; 0 exactly when there is none.  This holds if and only if address 0 is no place,
      since 0 also says that nothing was found; a nonzero window base is enough. */
  method FindPool(size: nat, page: nat, ds: seq<Descriptor>, ex: seq<Range>, allocBase: nat, allocTop: nat)
    returns (best: nat)
    ensures !SizesOk(size, page) ==> best == 0
    ensures SizesOk(size, page) ==>
              var high := Min(allocTop, DMA32_LIMIT);
              && (Lowest(best, size, page, ds, ex, allocBase, high)
                  <==> !Placeable(0, size, page, ds, ex, allocBase, high))
              && (0 < allocBase ==> Lowest(best, size, page, ds, ex, allocBase, high))
              && (best != 0 ==> Placeable(best, size, page, ds, ex, allocBase, high))
  {
    best := 0;
    var high := Min(allocTop, DMA32_LIMIT);
    if !(size == 0 || !PowerOfTwo(page) || !AlignedTo(size, page)) {
      for m := 0 to |ds|
        invariant best != 0 ==> Placeable(best, size, page, ds, ex, allocBase, high)
        invariant !Placeable(0, size, page, ds, ex, allocBase, high) ==>
                    forall k, c: nat {:trigger InUsable(c, ds[k])} ::
                      0 <= k < m && InUsable(c, ds[k]) && Placeable(c, size, page, ds, ex, allocBase, high) ==>
                        best != 0 && best <= c
      {
        var r := Usable(ds[m]);
        if r.Some? {
          assert forall a :: In(a, r.value) ==> InUsable(a, ds[m]);
          var found := SearchFrom(r.value, size, page, ds, ex, allocBase, high);
          if found != 0 && (best == 0 || found < best) {
            best := found;
          }
        }
      }
      forall c: nat | Placeable(c, size, page, ds, ex, allocBase, high)
        ensures !Placeable(0, size, page, ds, ex, allocBase, high) ==> best != 0 && best <= c
      {
        assert Ram(ds, c);
        var k :| 0 <= k < |ds| && InUsable(c, ds[k]);
      }
    }
  }

  lemma PageIsPowerOfTwo()
    ensures PowerOfTwo(0x1000)
  {
    assert PowerOfTwo(16) && PowerOfTwo(0x100);
  }

  /** A window from address 0 with one page of RAM there: the search reports nothing, although the page is a place. */
  method PlaceAtZero() returns (best: nat)
    ensures var ds := [Descriptor(7, 0, 1)];
            best == 0 && Placeable(0, 0x1000, 0x1000, ds, [], 0, DMA32_LIMIT)
  {
    var ds := [Descriptor(7, 0, 1)];
    best := FindPool(0x1000, 0x1000, ds, [], 0, DMA32_LIMIT);
    PageIsPowerOfTwo();
    assert Usable(ds[0]) == Some(Range(0, 0x1000));
    assert forall a :: 0 <= a < 0x1000 ==> InUsable(a, ds[0]);
    OnlyPage(ds, best);
  }

  // One page of RAM has room for a page at its start only.
  lemma OnlyPage(ds: seq<Descriptor>, c: nat)
    requires ds == [Descriptor(7, 0, 1)]
    ensures Placeable(c, 0x1000, 0x1000, ds, [], 0, DMA32_LIMIT) ==> c == 0
  {
    assert Usable(ds[0]) == Some(Range(0, 0x1000));
    assert Ram(ds, c + 0xFFF) ==> c == 0;
  }
}
