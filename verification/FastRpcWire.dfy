/** Decoding of FastRPC packets (q8b/include/q8b_fastrpc_wire.h). */
module FastRpcWire {

  import opened Bytes
  import opened Options

  const UINT32_MAX: nat := 0xFFFF_FFFF
  const UINT64_MAX: nat := 0xFFFF_FFFF_FFFF_FFFF
  const METADATA_PAGE: nat := 4096

  // Session word: bit 31 selects page-aligned metadata, bit 30 host pointers.
  predicate PageAligned(session: nat) { session / 0x8000_0000 % 2 == 1 }
  predicate HostPointers(session: nat) { session / 0x4000_0000 % 2 == 1 }
  function SessionId(session: nat): nat { session % 0x4000_0000 }

  /** q8b_frpc_metadata_offset; 0 means malformed. */
  function MetadataOffset(payload: seq<byte>): nat {
    if |payload| < 16 then 0 else
    var offset := if PageAligned(Le32(payload, 0)) then METADATA_PAGE else 16;
    if offset <= |payload| then offset else 0
  }

  /** q8b_frpc_next_context: the next sequence number and the context made from it. */
  function NextContext(sequence: nat, pd: nat): Option<(nat, nat)> {
    if sequence >= UINT32_MAX then None else Some((sequence + 1, (sequence + 1) * 16 + pd % 2))
  }

  /** Where a pointer falls in a mapping known by a host, a DMA and a DSP address. */
  function BufferOffset(ptr: nat, hostBase: nat, dmaBase: nat, dspBase: nat, mapSize: nat): Option<nat> {
    if hostBase != 0 && hostBase <= ptr < hostBase + mapSize then Some(ptr - hostBase)
    else if dmaBase <= ptr < dmaBase + mapSize then Some(ptr - dmaBase)
    else if dspBase != 0 && dspBase <= ptr < dspBase + mapSize then Some(ptr - dspBase)
    else None
  }

  /** q8b_frpc_buffer_matches. */
  predicate BufferMatches(ptr: nat, len: nat, page: nat, pageSize: nat,
                          hostBase: nat, dmaBase: nat, dspBase: nat, mapSize: nat)
  {
    && ptr != 0 && len != 0 && mapSize != 0 && dmaBase != 0 && dmaBase % 4096 == 0
    && var off := BufferOffset(ptr, hostBase, dmaBase, dspBase, mapSize);
    && off.Some?
    && len <= mapSize - off.value && off.value + dmaBase <= UINT64_MAX
    && var first := dmaBase + off.value;
    && ptr % 4096 == first % 4096 && len <= UINT64_MAX - 8190
    && page == first / 4096 * 4096
    && pageSize == (first % 4096 + len + 4095) / 4096 * 4096
  }

  ghost predicate Touches(q: nat, first: nat, len: nat) {
    exists b: nat :: first <= b < first + len && PageOf(b) == q
  }

  function PageOf(b: nat): nat { b / 4096 }

  /** [page, page + pageSize) is made of exactly the pages that hold a byte of [first, first + len). */
  ghost predicate IsPageClosure(page: nat, pageSize: nat, first: nat, len: nat) {
    && page % 4096 == 0 && pageSize % 4096 == 0
    && forall q: nat {:trigger Touches(q, first, len)} ::
         page <= q * 4096 < page + pageSize <==> Touches(q, first, len)
  }

  lemma TouchedPages(q: nat, first: nat, len: nat)
    requires len > 0
    ensures Touches(q, first, len) <==> first / 4096 <= q <= (first + len - 1) / 4096
  {
    if first / 4096 <= q <= (first + len - 1) / 4096 {
      var b := if first / 4096 == q then first else q * 4096;
      assert PageOf(b) == q;
    }
  }

  lemma RoundedWindowIsClosure(first: nat, len: nat)
    requires len > 0
    ensures IsPageClosure(first / 4096 * 4096, (first % 4096 + len + 4095) / 4096 * 4096, first, len)
  {
    var page, pageSize := first / 4096 * 4096, (first % 4096 + len + 4095) / 4096 * 4096;
    forall q: nat
      ensures page <= q * 4096 < page + pageSize <==> Touches(q, first, len)
    {
      TouchedPages(q, first, len);
    }
  }

  lemma ClosureIsUnique(page: nat, pageSize: nat, first: nat, len: nat)
    requires len > 0 && IsPageClosure(page, pageSize, first, len)
    ensures page == first / 4096 * 4096 && pageSize == (first % 4096 + len + 4095) / 4096 * 4096
  {
    var lo, hi := first / 4096, (first + len - 1) / 4096;
    TouchedPages(lo, first, len);
    TouchedPages(hi, first, len);
    TouchedPages(hi + 1, first, len);
    TouchedPages(page / 4096, first, len);
  }

  /** An argument is accepted exactly when its bytes lie in the page-aligned mapping, without 64-bit overflow, and
      the page window it names is the page closure of those bytes; the window then lies inside the page-sized
      mapping, so a pointer into one mapping never authorises pages of another. */
  lemma BufferMatchesExactly(ptr: nat, len: nat, page: nat, pageSize: nat,
                             hostBase: nat, dmaBase: nat, dspBase: nat, mapSize: nat)
    ensures var off := BufferOffset(ptr, hostBase, dmaBase, dspBase, mapSize);
            BufferMatches(ptr, len, page, pageSize, hostBase, dmaBase, dspBase, mapSize)
            <==> && ptr != 0 && len != 0 && dmaBase != 0 && dmaBase % 4096 == 0
                 && off.Some? && off.value + len <= mapSize && ptr % 4096 == off.value % 4096
                 && dmaBase + off.value <= UINT64_MAX && len <= UINT64_MAX - 8190
                 && IsPageClosure(page, pageSize, dmaBase + off.value, len)
    ensures BufferMatches(ptr, len, page, pageSize, hostBase, dmaBase, dspBase, mapSize) && mapSize % 4096 == 0 ==>
              dmaBase <= page && page + pageSize <= dmaBase + mapSize
  {
    var off := BufferOffset(ptr, hostBase, dmaBase, dspBase, mapSize);
    if len != 0 && off.Some? && dmaBase % 4096 == 0 {
      SameOffset(dmaBase, off.value);
      RoundedWindowIsClosure(dmaBase + off.value, len);
      if IsPageClosure(page, pageSize, dmaBase + off.value, len) {
        ClosureIsUnique(page, pageSize, dmaBase + off.value, len);
      }
    }
  }

  lemma SameOffset(base: nat, off: nat)
    requires base % 4096 == 0
    ensures (base + off) % 4096 == off % 4096
  {
  }
}
