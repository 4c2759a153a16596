/** The ELF64 to PE32+ converter q8b/efi/mkpefi.py, with a PE loader as the reading of its output. */
module PeImage {
  import opened Bytes
  import opened Options

  const FILE_ALIGN: nat := 0x200
  const SEC_ALIGN: nat := 0x1000
  const PROGBITS: nat := 1
  const NOBITS: nat := 8
  const PE_OFF: nat := 0x80
  const OPT_OFF: nat := PE_OFF + 24
  const SECT_OFF: nat := OPT_OFF + 240
  const RELOC_SIZE: nat := 12
  const UINT32: nat := 0x1_0000_0000

  datatype Section = Section(name: seq<byte>, kind: nat, flags: nat, addr: nat, off: nat, size: nat)

  function Align(v: nat, a: nat): nat
    requires a > 0
  {
    (v + a - 1) / a * a
  }

  function Ascii(s: string): seq<byte> { seq(|s|, i requires 0 <= i < |s| => s[i] as int % 0x80) }

  predicate StartsWith(name: seq<byte>, prefix: string) { Ascii(prefix) <= name }

  predicate Exec(s: Section) { s.flags / 4 % 2 == 1 }

  /** The sections that are loaded. */
  predicate Kept(s: Section) {
    && (s.kind == PROGBITS || s.kind == NOBITS) && s.flags / 2 % 2 == 1 && s.size != 0
    && !StartsWith(s.name, ".note") && !StartsWith(s.name, ".comment") && !StartsWith(s.name, ".eh_frame")
  }

  function PeName(name: seq<byte>): (n: seq<byte>)
    ensures |n| <= 8
  {
    if name == Ascii(".rodata") then Ascii(".rdata") else if |name| <= 8 then name else name[..8]
  }

  // ---- The ELF file ----

  datatype Elf = Elf(entry: nat, machine: nat, secs: seq<Section>)

  /** The bytes at `at`, up to the first zero, are the name. */
  predicate NameAt(data: seq<byte>, at: nat, name: seq<byte>) {
    at + |name| < |data| && data[at..at + |name|] == name && 0 !in name && data[at + |name|] == 0
  }

  /** The section header at o, with its name in the string table at `names`, is s. */
  predicate HeaderAt(data: seq<byte>, o: nat, names: nat, s: Section) {
    && o + 64 <= |data| && NameAt(data, names + Le32(data, o), s.name)
    && s.kind == Le32(data, o + 4) && s.flags == Le64(data, o + 8) && s.addr == Le64(data, o + 16)
    && s.off == Le64(data, o + 24) && s.size == Le64(data, o + 32)
  }

  function RowOff(table: nat, rowSize: nat, i: nat): nat { table + i * rowSize }

  function HeaderOff(data: seq<byte>, i: nat): nat
    requires 0x40 <= |data|
  {
    RowOff(Le64(data, 0x28), Le16(data, 0x3A), i)
  }

  /** An ELF64 file with its whole section table, in which the string table has a header. */
  predicate IsElf64(data: seq<byte>) {
    && 0x40 <= |data| && data[..5] == [0x7F, 0x45, 0x4C, 0x46, 2]
    && (forall i :: 0 <= i < Le16(data, 0x3C) ==> HeaderOff(data, i) + 64 <= |data|)
    && Le16(data, 0x3E) < Le16(data, 0x3C)
  }

  // Where the section names are.
  function Names(data: seq<byte>): nat
    requires IsElf64(data)
  {
    Le64(data, HeaderOff(data, Le16(data, 0x3E)) + 24)
  }

  /** The contents of an ELF file; `decodes` says which names bytes.decode accepts. */
  predicate Describes(data: seq<byte>, decodes: seq<byte> -> bool, e: Elf) {
    && IsElf64(data) && e.machine == Le16(data, 0x12) && e.entry == Le64(data, 0x18)
    && |e.secs| == Le16(data, 0x3C)
    && forall i :: 0 <= i < |e.secs| ==>
         HeaderAt(data, HeaderOff(data, i), Names(data), e.secs[i]) && decodes(e.secs[i].name)
  }

  // data.index(0, start)
  method FindZero(data: seq<byte>, start: nat) returns (end: Option<nat>)
    ensures end.Some? ==> start <= end.value < |data| && NameAt(data, start, data[start..end.value])
    ensures end.None? ==> forall name :: !NameAt(data, start, name)
  {
    var i := start;
    while i < |data| && data[i] != 0
      invariant start <= i && forall j :: start <= j < i && j < |data| ==> data[j] != 0
    {
      i := i + 1;
    }
    return if i < |data| then Some(i) else None;
  }

  lemma NameUnique(data: seq<byte>, at: nat, a: seq<byte>, b: seq<byte>)
    requires NameAt(data, at, a) && NameAt(data, at, b)
    ensures a == b
  {
    if |a| < |b| {
      NotZero(data, at, b, |a|);
    } else if |b| < |a| {
      NotZero(data, at, a, |b|);
    }
  }

  lemma NotZero(data: seq<byte>, at: nat, name: seq<byte>, k: nat)
    requires NameAt(data, at, name) && k < |name|
    ensures data[at + k] != 0
  {
    assert data[at + k] == name[k];
  }

  lemma HeaderUnique(data: seq<byte>, o: nat, names: nat, s: Section, t: Section)
    requires HeaderAt(data, o, names, s) && HeaderAt(data, o, names, t)
    ensures s == t
  {
    hide NameAt;
    NameUnique(data, names + Le32(data, o), s.name, t.name);
  }

  // One section header with its name.
  method ReadHeader(data: seq<byte>, o: nat, names: nat, decodes: seq<byte> -> bool) returns (r: Option<Section>)
    requires o + 64 <= |data|
    ensures forall s :: r == Some(s) <==> HeaderAt(data, o, names, s) && decodes(s.name)
  {
    hide NameAt;
    var at := names + Le32(data, o);
    var end := FindZero(data, at);
    if end.None? {
      return None;
    }
    var s := Section(data[at..end.value], Le32(data, o + 4), Le64(data, o + 8), Le64(data, o + 16), Le64(data, o + 24),
                     Le64(data, o + 32));
    r := if decodes(s.name) then Some(s) else None;
    forall t | HeaderAt(data, o, names, t)
      ensures s == t
    {
      HeaderUnique(data, o, names, s, t);
    }
  }

  method CheckTable(data: seq<byte>) returns (ok: bool)
    ensures ok <==> IsElf64(data)
  {
    hide Le16, Le64, HeaderOff;
    if |data| < 0x40 || data[..5] != [0x7F, 0x45, 0x4C, 0x46, 2] {
      return false;
    }
    for i := 0 to Le16(data, 0x3C)
      invariant forall j :: 0 <= j < i ==> HeaderOff(data, j) + 64 <= |data|
    {
      if HeaderOff(data, i) + 64 > |data| {
        return false;
      }
    }
    return Le16(data, 0x3E) < Le16(data, 0x3C);
  }

  /** read_elf: the contents of the file, if it is an ELF64 file; any error Python raises is a refusal. */
  method ReadElf(data: seq<byte>, decodes: seq<byte> -> bool) returns (r: Option<Elf>)
    ensures forall e :: r == Some(e) <==> Describes(data, decodes, e)
  {
    hide IsElf64, Names, Le16, Le64, HeaderOff, HeaderAt;
    var ok := CheckTable(data);
    if !ok {
      return None;
    }
    ElfShape(data);
    var secs := [];
    for i := 0 to Le16(data, 0x3C)
      invariant |secs| == i && forall j :: 0 <= j < i ==>
                  HeaderAt(data, HeaderOff(data, j), Names(data), secs[j]) && decodes(secs[j].name)
    {
      var s := ReadHeader(data, HeaderOff(data, i), Names(data), decodes);
      if s.None? {
        return None;
      }
      secs := secs + [s.value];
    }
    r := Some(Elf(Le64(data, 0x18), Le16(data, 0x12), secs));
    forall e | Describes(data, decodes, e)
      ensures r == Some(e)
    {
      DescribesOne(data, decodes, e, r.value);
    }
  }

  lemma ElfShape(data: seq<byte>)
    requires IsElf64(data)
    ensures 0x40 <= |data| && forall i :: 0 <= i < Le16(data, 0x3C) ==> HeaderOff(data, i) + 64 <= |data|
  {
  }

  // A file has at most one set of contents.
  lemma DescribesOne(data: seq<byte>, decodes: seq<byte> -> bool, e: Elf, f: Elf)
    requires Describes(data, decodes, e) && Describes(data, decodes, f)
    ensures e == f
  {
    hide IsElf64, Names, Le16, Le64, HeaderOff, HeaderAt;
    forall i | 0 <= i < |e.secs|
      ensures e.secs[i] == f.secs[i]
    {
      ElfShape(data);
      HeaderUnique(data, HeaderOff(data, i), Names(data), e.secs[i], f.secs[i]);
    }
  }

  // ---- Selection and order ----

  function Insert(s: Section, done: seq<Section>): seq<Section> {
    if done == [] then [s]
    else if s.addr < done[0].addr then [s] + done
    else [done[0]] + Insert(s, done[1..])
  }

  predicate Ascending(ss: seq<Section>) {
    forall i, j :: 0 <= i < j < |ss| ==> ss[i].addr <= ss[j].addr
  }

  lemma {:induction false} InsertKeeps(s: Section, done: seq<Section>)
    ensures multiset(Insert(s, done)) == multiset(done) + multiset{s}
  {
    if done != [] {
      assert done == [done[0]] + done[1..];
      InsertKeeps(s, done[1..]);
    }
  }

  lemma {:induction false} InsertSorts(s: Section, done: seq<Section>)
    requires Ascending(done)
    ensures Ascending(Insert(s, done))
  {
    if done != [] && s.addr >= done[0].addr {
      var rest := Insert(s, done[1..]);
      InsertSorts(s, done[1..]);
      InsertKeeps(s, done[1..]);
      hide Insert;
      PrependSorts(done[0], rest, multiset(done[1..]) + multiset{s});
    }
  }

  lemma PrependSorts(x: Section, rest: seq<Section>, m: multiset<Section>)
    requires Ascending(rest) && multiset(rest) == m && forall s :: s in m ==> x.addr <= s.addr
    ensures Ascending([x] + rest)
  {
    forall j | 0 <= j < |rest|
      ensures x.addr <= rest[j].addr
    {
      assert rest[j] in multiset(rest);
    }
  }

  /** The sections at one address, in order. */
  ghost function Shelf(ss: seq<Section>, a: nat): seq<Section> {
    if ss == [] then [] else (if ss[0].addr == a then [ss[0]] else []) + Shelf(ss[1..], a)
  }

  ghost function KeptOf(ss: seq<Section>): seq<Section> {
    if ss == [] then [] else KeptOf(ss[..|ss| - 1]) + if Kept(ss[|ss| - 1]) then [ss[|ss| - 1]] else []
  }

  lemma {:induction false} ShelfAppend(ss: seq<Section>, s: Section, a: nat)
    ensures Shelf(ss + [s], a) == Shelf(ss, a) + if s.addr == a then [s] else []
  {
    if ss == [] {
      assert ss + [s] == [s] && [s][1..] == [];
    } else {
      assert (ss + [s])[1..] == ss[1..] + [s];
      ShelfAppend(ss[1..], s, a);
      Joined(if ss[0].addr == a then [ss[0]] else [], Shelf(ss[1..], a), if s.addr == a then [s] else []);
    }
  }

  lemma Joined(a: seq<Section>, b: seq<Section>, c: seq<Section>)
    ensures a + (b + c) == (a + b) + c
  {
  }

  lemma {:induction false} ShelfEmpty(ss: seq<Section>, a: nat)
    requires forall i :: 0 <= i < |ss| ==> ss[i].addr != a
    ensures Shelf(ss, a) == []
  {
    if ss != [] {
      ShelfEmpty(ss[1..], a);
    }
  }

  lemma {:induction false} InsertStable(s: Section, done: seq<Section>, a: nat)
    requires Ascending(done)
    ensures Shelf(Insert(s, done), a) == Shelf(done, a) + if s.addr == a then [s] else []
  {
    if done == [] {
      assert [s][1..] == [];
    } else if s.addr < done[0].addr {
      assert ([s] + done)[1..] == done;
      if s.addr == a {
        ShelfEmpty(done, a);
      }
    } else {
      InsertStable(s, done[1..], a);
      assert Insert(s, done)[1..] == Insert(s, done[1..]);
    }
  }

  lemma ShelvesKept(s: Section, keep: seq<Section>, kept: seq<Section>)
    requires Ascending(keep) && forall a :: Shelf(keep, a) == Shelf(kept, a)
    ensures forall a :: Shelf(Insert(s, keep), a) == Shelf(kept + [s], a)
  {
    hide Shelf, Insert;
    forall a: nat
      ensures Shelf(Insert(s, keep), a) == Shelf(kept + [s], a)
    {
      InsertStable(s, keep, a);
      ShelfAppend(kept, s, a);
    }
  }

  lemma KeptNone(ss: seq<Section>)
    ensures ss == [] ==> KeptOf(ss) == []
  {
  }

  lemma KeptStep(secs: seq<Section>, i: nat)
    requires i < |secs|
    ensures KeptOf(secs[..i + 1]) == if Kept(secs[i]) then KeptOf(secs[..i]) + [secs[i]] else KeptOf(secs[..i])
  {
    assert secs[..i + 1][..i] == secs[..i];
  }

  /** The filter and the stable sort by address. */
  method Select(secs: seq<Section>) returns (keep: seq<Section>)
    ensures Ascending(keep)
    ensures forall s :: multiset(keep)[s] == if Kept(s) then multiset(secs)[s] else 0
    ensures forall a :: Shelf(keep, a) == Shelf(KeptOf(secs), a)
  {
    hide Shelf, KeptOf, Insert;
    keep := [];
    assert KeptOf(secs[..0]) == [] by { KeptNone(secs[..0]); }
    for i := 0 to |secs|
      invariant Ascending(keep) && forall a :: Shelf(keep, a) == Shelf(KeptOf(secs[..i]), a)
      invariant forall s :: multiset(keep)[s] == if Kept(s) then multiset(secs[..i])[s] else 0
    {
      assert secs[..i + 1] == secs[..i] + [secs[i]];
      KeptStep(secs, i);
      if Kept(secs[i]) {
        InsertSorts(secs[i], keep);
        InsertKeeps(secs[i], keep);
        ShelvesKept(secs[i], keep, KeptOf(secs[..i]));
        keep := Insert(secs[i], keep);
      }
    }
    assert secs[..|secs|] == secs;
  }

  // ---- Layout ----

  function RawSize(s: Section): nat { if s.kind == NOBITS then 0 else s.size }

  /** Where the raw data of section i starts, packed in order from hdr on. */
  function RawOff(keep: seq<Section>, hdr: nat, i: nat): nat
    requires i <= |keep|
  {
    if i == 0 then hdr else RawOff(keep, hdr, i - 1) + Align(RawSize(keep[i - 1]), FILE_ALIGN)
  }

  function MaxEnd(keep: seq<Section>): nat {
    if keep == [] then 0 else
    var m := MaxEnd(keep[..|keep| - 1]);
    var e := keep[|keep| - 1].addr + keep[|keep| - 1].size;
    if m >= e then m else e
  }

  datatype Meta = Meta(s: Section, rawOff: nat, rawSize: nat)

  function MetaOf(keep: seq<Section>, hdr: nat, i: nat): Meta
    requires i < |keep|
  {
    if keep[i].kind == NOBITS then Meta(keep[i], 0, 0) else Meta(keep[i], RawOff(keep, hdr, i), keep[i].size)
  }

  /** The section layout loop. */
  method Layout(keep: seq<Section>, hdr: nat) returns (metas: seq<Meta>, rawEnd: nat, maxEnd: nat)
    ensures |metas| == |keep| && forall i :: 0 <= i < |keep| ==> metas[i] == MetaOf(keep, hdr, i)
    ensures rawEnd == RawOff(keep, hdr, |keep|) && maxEnd == MaxEnd(keep)
  {
    metas, rawEnd, maxEnd := [], hdr, 0;
    for i := 0 to |keep|
      invariant |metas| == i && forall k :: 0 <= k < i ==> metas[k] == MetaOf(keep, hdr, k)
      invariant rawEnd == RawOff(keep, hdr, i) && maxEnd == MaxEnd(keep[..i])
    {
      var s := keep[i];
      assert keep[..i + 1][..i] == keep[..i];
      if s.kind == NOBITS {
        metas := metas + [Meta(s, 0, 0)];
      } else {
        metas := metas + [Meta(s, rawEnd, s.size)];
        rawEnd := rawEnd + Align(s.size, FILE_ALIGN);
      }
      maxEnd := if maxEnd >= s.addr + s.size then maxEnd else s.addr + s.size;
    }
    assert keep[..|keep|] == keep;
  }

  lemma AlignUp(v: nat, a: nat)
    requires a == FILE_ALIGN || a == SEC_ALIGN
    ensures v <= Align(v, a) < v + a && Align(v, a) % a == 0
  {
  }

  predicate FileAligned(v: nat) { v % FILE_ALIGN == 0 }

  /** Raw ranges are file-aligned, start at or beyond the headers, and follow one another without overlap. */
  lemma {:induction false} RawRanges(keep: seq<Section>, hdr: nat, i: nat, j: nat)
    requires i < j <= |keep| && FileAligned(hdr)
    ensures hdr <= RawOff(keep, hdr, i) && FileAligned(RawOff(keep, hdr, i)) && FileAligned(RawOff(keep, hdr, j))
    ensures RawOff(keep, hdr, i) + RawSize(keep[i]) <= RawOff(keep, hdr, j)
    decreases i + j
  {
    hide Align, FileAligned, RawOff, RawSize;
    RawStep(keep, hdr, j - 1);
    if i + 1 < j {
      RawRanges(keep, hdr, i, j - 1);
    } else if i > 0 {
      RawRanges(keep, hdr, i - 1, i);
    } else {
      RawStart(keep, hdr);
    }
  }

  lemma RawStep(keep: seq<Section>, hdr: nat, j: nat)
    requires j < |keep|
    ensures RawOff(keep, hdr, j) + RawSize(keep[j]) <= RawOff(keep, hdr, j + 1)
    ensures FileAligned(RawOff(keep, hdr, j)) ==> FileAligned(RawOff(keep, hdr, j + 1))
  {
    var off, n := RawOff(keep, hdr, j), Align(RawSize(keep[j]), FILE_ALIGN);
    AlignUp(RawSize(keep[j]), FILE_ALIGN);
    hide Align, RawSize;
    if FileAligned(off) {
      SumAligned(off, n);
    }
  }

  lemma RawStart(keep: seq<Section>, hdr: nat)
    ensures RawOff(keep, hdr, 0) == hdr
  {
  }

  lemma SumAligned(a: nat, b: nat)
    requires FileAligned(a) && FileAligned(b)
    ensures FileAligned(a + b)
  {
  }

  lemma {:induction false} MaxEndCovers(keep: seq<Section>, i: nat)
    requires i < |keep|
    ensures keep[i].addr + keep[i].size <= MaxEnd(keep)
  {
    var n := |keep| - 1;
    if i < n {
      MaxEndCovers(keep[..n], i);
    }
  }

  // ---- Writing into the output ----

  function PackInto(out: seq<byte>, at: nat, b: seq<byte>): (r: seq<byte>)
    requires at + |b| <= |out|
  {
    out[..at] + b + out[at + |b|..]
  }

  function Min(a: nat, b: nat): nat { if a <= b then a else b }

  /** out[lo:hi] = b on a bytearray, which grows, shrinks or appends when the lengths disagree. */
  function Splice(out: seq<byte>, lo: nat, hi: nat, b: seq<byte>): seq<byte>
    requires lo <= hi
  {
    out[..Min(lo, |out|)] + b + out[Min(hi, |out|)..]
  }

  function Slice(data: seq<byte>, off: nat, size: nat): seq<byte> {
    data[Min(off, |data|)..Min(off + size, |data|)]
  }

  ghost predicate HasField(out: seq<byte>, at: nat, b: seq<byte>) {
    at + |b| <= |out| && out[at..at + |b|] == b
  }

  predicate Apart(at: nat, n: nat, at2: nat, n2: nat) { at + n <= at2 || at2 + n2 <= at }

  lemma PackKeeps(out: seq<byte>, at: nat, b: seq<byte>)
    requires at + |b| <= |out|
    ensures var r := PackInto(out, at, b);
            && |r| == |out| && HasField(r, at, b)
            && forall at2: nat, b2 {:trigger HasField(r, at2, b2)} ::
                HasField(out, at2, b2) && Apart(at, |b|, at2, |b2|) ==> HasField(r, at2, b2)
  {
    var r := PackInto(out, at, b);
    assert r[at..at + |b|] == b;
    forall at2: nat, b2 | HasField(out, at2, b2) && Apart(at, |b|, at2, |b2|)
      ensures HasField(r, at2, b2)
    {
      assert r[at2..at2 + |b2|] == out[at2..at2 + |b2|];
    }
  }

  lemma SpliceKeeps(out: seq<byte>, lo: nat, hi: nat, b: seq<byte>)
    requires lo <= hi
    ensures var r := Splice(out, lo, hi, b);
            forall at2: nat, b2 {:trigger HasField(r, at2, b2)} :: HasField(out, at2, b2) && at2 + |b2| <= lo ==>
                HasField(r, at2, b2)
  {
    var r := Splice(out, lo, hi, b);
    forall at2: nat, b2 | HasField(out, at2, b2) && at2 + |b2| <= lo
      ensures HasField(r, at2, b2)
    {
      assert r[at2..at2 + |b2|] == out[at2..at2 + |b2|];
    }
  }

  lemma SpliceExact(out: seq<byte>, lo: nat, hi: nat, b: seq<byte>)
    requires hi <= |out| && hi == lo + |b|
    ensures Splice(out, lo, hi, b) == PackInto(out, lo, b)
  {
  }

  // A field of a packed record is itself a field.
  lemma SubField(out: seq<byte>, at: nat, a: seq<byte>, b: seq<byte>, c: seq<byte>)
    requires HasField(out, at, a + b + c)
    ensures HasField(out, at + |a|, b)
  {
    var r := a + b + c;
    forall i | 0 <= i < |b|
      ensures out[at + |a| + i] == b[i]
    {
      assert out[at..at + |r|][|a| + i] == r[|a| + i];
    }
  }

  // ---- The plan of the output ----

  function HdrSize(n: nat): nat { Align(SECT_OFF + 40 * n, FILE_ALIGN) }

  /** Every number of the output that depends on the input. */
  datatype Plan = Plan(keep: seq<Section>, hdr: nat, relocRva: nat, relocRaw: nat, total: nat, imageSize: nat)

  function PlanOf(keep: seq<Section>): (p: Plan)
    ensures p.keep == keep
  {
    var hdr := HdrSize(|keep| + 1);
    var rva := Align(MaxEnd(keep), SEC_ALIGN);
    var raw := RawOff(keep, hdr, |keep|);
    Plan(keep, hdr, rva, raw, raw + Align(RELOC_SIZE, FILE_ALIGN), Align(rva + RELOC_SIZE, SEC_ALIGN))
  }

  function CodeSize(keep: seq<Section>): nat {
    if keep == [] then 0 else (if Exec(keep[0]) then RawSize(keep[0]) else 0) + CodeSize(keep[1..])
  }

  function InitSize(keep: seq<Section>): nat {
    if keep == [] then 0 else (if !Exec(keep[0]) then RawSize(keep[0]) else 0) + InitSize(keep[1..])
  }

  function BssSize(keep: seq<Section>): nat {
    if keep == [] then 0 else (if keep[0].kind == NOBITS then keep[0].size else 0) + BssSize(keep[1..])
  }

  function Machine(m: nat): Option<nat> { if m == 62 then Some(0x8664) else if m == 183 then Some(0xAA64) else None }

  /** What the converter insists on: a known machine, page-aligned sections and numbers that fit their fields. */
  predicate Accepted(keep: seq<Section>, entry: nat, machine: nat, subsystem: int) {
    && Machine(machine).Some? && keep != []
    && (forall s :: s in keep ==> s.addr % SEC_ALIGN == 0 && s.addr < UINT32 && s.size < UINT32)
    && |keep| + 1 < 0x1_0000 && entry < UINT32 && 0 <= subsystem < 0x1_0000
    && CodeSize(keep) < UINT32 && InitSize(keep) < UINT32 && BssSize(keep) < UINT32
    && PlanOf(keep).relocRaw < UINT32 && PlanOf(keep).imageSize < UINT32
  }

  function Put64(v: nat): (b: seq<byte>)
    ensures |b| == 8
  {
    Put32(v % UINT32) + Put32(v / UINT32)
  }

  function RelocData(keep: seq<Section>): (b: seq<byte>)
    requires keep != []
    ensures |b| == RELOC_SIZE
  {
    Put32(keep[0].addr) + Put32(12) + (Put16(0) + Put16(0))
  }

  /** A row of the section table with the file contents it points to. */
  datatype Row = Row(name: seq<byte>, vsize: nat, va: nat, rawSize: nat, rawOff: nat, chars: nat, content: seq<byte>)

  function Characteristics(s: Section): nat {
    if Exec(s) then 0x6000_0020 else if s.kind == NOBITS then 0xC000_0080 else 0x4000_0040
  }

  function RowOfMeta(m: Meta, data: seq<byte>): Row {
    Row(PeName(m.s.name), m.s.size, m.s.addr, m.rawSize, m.rawOff, Characteristics(m.s),
        Slice(data, m.s.off, m.rawSize))
  }

  function RowOf(p: Plan, data: seq<byte>, i: nat): (row: Row)
    requires i <= |p.keep| && p.keep != []
  {
    if i < |p.keep| then RowOfMeta(MetaOf(p.keep, p.hdr, i), data)
    else Row(Ascii(".reloc"), RELOC_SIZE, p.relocRva, RELOC_SIZE, p.relocRaw, 0x4200_0040, RelocData(p.keep))
  }

  function Coff(machine: nat, n: nat): seq<byte> {
    Put16(machine) + Put16(n) + (Put32(0) + Put32(0) + Put32(0) + Put16(240) + Put16(0x22))
  }

  /** Every header field in its place. */
  ghost predicate Headers(out: seq<byte>, p: Plan, entry: nat, machine: nat, subsystem: nat)
    requires p.keep != []
  {
    && HasField(out, 0, Ascii("MZ")) && HasField(out, 0x3C, Put32(PE_OFF))
    && HasField(out, PE_OFF, Ascii("PE") + [0, 0]) && HasField(out, PE_OFF + 4, Coff(machine, |p.keep| + 1))
    && HasField(out, OPT_OFF, Put16(0x20B)) && HasField(out, OPT_OFF + 2, [1])
    && HasField(out, OPT_OFF + 4, Put32(CodeSize(p.keep)) + Put32(InitSize(p.keep)) + Put32(BssSize(p.keep)))
    && HasField(out, OPT_OFF + 16, Put32(entry)) && HasField(out, OPT_OFF + 20, Put32(p.keep[0].addr))
    && HasField(out, OPT_OFF + 24, Put64(0x1_0000)) && HasField(out, OPT_OFF + 32, Put32(SEC_ALIGN) + Put32(FILE_ALIGN))
    && HasField(out, OPT_OFF + 40, Put16(6) + Put16(0) + Put16(0) + Put16(0) + Put16(6) + Put16(0))
    && HasField(out, OPT_OFF + 52, Put32(0) + Put32(p.imageSize) + (Put32(p.hdr) + Put32(0)))
    && HasField(out, OPT_OFF + 68, Put16(subsystem)) && HasField(out, OPT_OFF + 70, Put16(0))
    && HasField(out, OPT_OFF + 72, Put64(0x10_0000) + Put64(0x1000) + Put64(0) + Put64(0))
    && HasField(out, OPT_OFF + 104, Put32(0) + Put32(16))
    && HasField(out, OPT_OFF + 152, Put32(p.relocRva) + Put32(RELOC_SIZE))
  }

  function Numbers(row: Row): (b: seq<byte>)
    ensures |b| == 16
  {
    Put32(row.vsize) + Put32(row.va) + Put32(row.rawSize) + Put32(row.rawOff)
  }

  ghost predicate RowWritten(out: seq<byte>, i: nat, row: Row) {
    && HasField(out, SECT_OFF + 40 * i, row.name) && HasField(out, SECT_OFF + 40 * i + 8, Numbers(row))
    && HasField(out, SECT_OFF + 40 * i + 36, Put32(row.chars))
  }

  // ---- Header stage ----

  method WriteDosAndCoff(blank: seq<byte>, machine: nat, n: nat) returns (out: seq<byte>)
    requires |blank| >= SECT_OFF
    ensures |out| == |blank|
    ensures HasField(out, 0, Ascii("MZ")) && HasField(out, 0x3C, Put32(PE_OFF))
    ensures HasField(out, PE_OFF, Ascii("PE") + [0, 0]) && HasField(out, PE_OFF + 4, Coff(machine, n))
  {
    hide HasField, PackInto, Ascii;
    out := blank;
    var mz, pe := Ascii("MZ"), Ascii("PE") + [0, 0];
    AsciiLength();
    PackKeeps(out, 0, mz);
    out := PackInto(out, 0, mz);
    PackKeeps(out, 0x3C, Put32(PE_OFF));
    out := PackInto(out, 0x3C, Put32(PE_OFF));
    PackKeeps(out, PE_OFF, pe);
    out := PackInto(out, PE_OFF, pe);
    PackKeeps(out, PE_OFF + 4, Coff(machine, n));
    out := PackInto(out, PE_OFF + 4, Coff(machine, n));
  }

  lemma AsciiLength()
    ensures |Ascii("MZ")| == 2 && |Ascii("PE")| == 2 && |Ascii(".reloc")| == 6
  {
  }

  ghost predicate Keeps(was: seq<byte>, now: seq<byte>, limit: nat) {
    forall at: nat, b {:trigger HasField(now, at, b)} :: HasField(was, at, b) && at + |b| <= limit ==>
        HasField(now, at, b)
  }

  method WriteSizes(start: seq<byte>, p: Plan, entry: nat) returns (out: seq<byte>)
    requires |start| >= SECT_OFF && p.keep != []
    ensures |out| == |start| && Keeps(start, out, OPT_OFF)
    ensures HasField(out, OPT_OFF, Put16(0x20B)) && HasField(out, OPT_OFF + 2, [1])
    ensures HasField(out, OPT_OFF + 4, Put32(CodeSize(p.keep)) + Put32(InitSize(p.keep)) + Put32(BssSize(p.keep)))
    ensures HasField(out, OPT_OFF + 16, Put32(entry)) && HasField(out, OPT_OFF + 20, Put32(p.keep[0].addr))
    ensures HasField(out, OPT_OFF + 24, Put64(0x1_0000))
              && HasField(out, OPT_OFF + 32, Put32(SEC_ALIGN) + Put32(FILE_ALIGN))
  {
    hide HasField, PackInto, CodeSize, InitSize, BssSize, Put16, Put32, Put64;
    out := start;
    var sizes := Put32(CodeSize(p.keep)) + Put32(InitSize(p.keep)) + Put32(BssSize(p.keep));
    PackKeeps(out, OPT_OFF, Put16(0x20B));
    out := PackInto(out, OPT_OFF, Put16(0x20B));
    PackKeeps(out, OPT_OFF + 2, [1]);
    out := PackInto(out, OPT_OFF + 2, [1]);
    PackKeeps(out, OPT_OFF + 4, sizes);
    out := PackInto(out, OPT_OFF + 4, sizes);
    PackKeeps(out, OPT_OFF + 16, Put32(entry));
    out := PackInto(out, OPT_OFF + 16, Put32(entry));
    PackKeeps(out, OPT_OFF + 20, Put32(p.keep[0].addr));
    out := PackInto(out, OPT_OFF + 20, Put32(p.keep[0].addr));
    PackKeeps(out, OPT_OFF + 24, Put64(0x1_0000));
    out := PackInto(out, OPT_OFF + 24, Put64(0x1_0000));
    PackKeeps(out, OPT_OFF + 32, Put32(SEC_ALIGN) + Put32(FILE_ALIGN));
    out := PackInto(out, OPT_OFF + 32, Put32(SEC_ALIGN) + Put32(FILE_ALIGN));
  }

  method WriteImageFields(start: seq<byte>, p: Plan, subsystem: nat) returns (out: seq<byte>)
    requires |start| >= SECT_OFF
    ensures |out| == |start| && Keeps(start, out, OPT_OFF + 40)
    ensures HasField(out, OPT_OFF + 40, Put16(6) + Put16(0) + Put16(0) + Put16(0) + Put16(6) + Put16(0))
    ensures HasField(out, OPT_OFF + 52, Put32(0) + Put32(p.imageSize) + (Put32(p.hdr) + Put32(0)))
    ensures HasField(out, OPT_OFF + 68, Put16(subsystem)) && HasField(out, OPT_OFF + 70, Put16(0))
    ensures HasField(out, OPT_OFF + 72, Put64(0x10_0000) + Put64(0x1000) + Put64(0) + Put64(0))
    ensures HasField(out, OPT_OFF + 104, Put32(0) + Put32(16))
    ensures HasField(out, OPT_OFF + 152, Put32(p.relocRva) + Put32(RELOC_SIZE))
  {
    hide HasField, PackInto, Put16, Put32, Put64;
    out := start;
    var versions := Put16(6) + Put16(0) + Put16(0) + Put16(0) + Put16(6) + Put16(0);
    var image := Put32(0) + Put32(p.imageSize) + (Put32(p.hdr) + Put32(0));
    var stacks := Put64(0x10_0000) + Put64(0x1000) + Put64(0) + Put64(0);
    PackKeeps(out, OPT_OFF + 40, versions);
    out := PackInto(out, OPT_OFF + 40, versions);
    PackKeeps(out, OPT_OFF + 52, image);
    out := PackInto(out, OPT_OFF + 52, image);
    PackKeeps(out, OPT_OFF + 68, Put16(subsystem));
    out := PackInto(out, OPT_OFF + 68, Put16(subsystem));
    PackKeeps(out, OPT_OFF + 70, Put16(0));
    out := PackInto(out, OPT_OFF + 70, Put16(0));
    PackKeeps(out, OPT_OFF + 72, stacks);
    out := PackInto(out, OPT_OFF + 72, stacks);
    PackKeeps(out, OPT_OFF + 104, Put32(0) + Put32(16));
    out := PackInto(out, OPT_OFF + 104, Put32(0) + Put32(16));
    PackKeeps(out, OPT_OFF + 152, Put32(p.relocRva) + Put32(RELOC_SIZE));
    out := PackInto(out, OPT_OFF + 152, Put32(p.relocRva) + Put32(RELOC_SIZE));
  }

  method WriteHeaders(p: Plan, entry: nat, machine: nat, subsystem: nat) returns (out: seq<byte>)
    requires p.keep != [] && SECT_OFF <= p.total
    ensures |out| == p.total && Headers(out, p, entry, machine, subsystem)
  {
    hide HasField, CodeSize, InitSize, BssSize, Put16, Put32, Put64, Ascii, Coff;
    CoffLength(machine, |p.keep| + 1);
    AsciiLength();
    out := WriteDosAndCoff(Zeros(p.total), machine, |p.keep| + 1);
    out := WriteSizes(out, p, entry);
    out := WriteImageFields(out, p, subsystem);
  }

  lemma CoffLength(machine: nat, n: nat)
    ensures |Coff(machine, n)| == 20
  {
  }

  // ---- Section stage ----

  method WriteTableRow(start: seq<byte>, i: nat, row: Row) returns (out: seq<byte>)
    requires SECT_OFF + 40 * (i + 1) <= |start| && |row.name| <= 8
    ensures |out| == |start| && RowWritten(out, i, row)
    ensures Keeps(start, out, SECT_OFF + 40 * i)
    ensures forall at: nat, b {:trigger HasField(out, at, b)} ::
              HasField(start, at, b) && SECT_OFF + 40 * (i + 1) <= at ==> HasField(out, at, b)
  {
    hide HasField, PackInto, Put32, Numbers;
    out := start;
    var so := SECT_OFF + 40 * i;
    PackKeeps(out, so, row.name);
    out := PackInto(out, so, row.name);
    PackKeeps(out, so + 8, Numbers(row));
    out := PackInto(out, so + 8, Numbers(row));
    PackKeeps(out, so + 36, Put32(row.chars));
    out := PackInto(out, so + 36, Put32(row.chars));
  }

  /** Every section's file bytes are there. */
  predicate InFile(keep: seq<Section>, data: seq<byte>) {
    forall i :: 0 <= i < |keep| && RawSize(keep[i]) > 0 ==> keep[i].off + keep[i].size <= |data|
  }

  predicate Whole(row: Row) { |row.content| == row.rawSize }

  // A row's place in the file.
  ghost predicate Placed(p: Plan, i: nat, row: Row) {
    && SECT_OFF + 40 * (i + 1) <= p.hdr && |row.name| <= 8 && |row.content| <= row.rawSize
    && (row.rawSize > 0 ==> p.hdr <= row.rawOff && row.rawOff % FILE_ALIGN == 0 && row.rawOff + row.rawSize < p.total)
  }

  lemma HdrFits(n: nat, i: nat)
    requires i < n
    ensures SECT_OFF + 40 * (i + 1) <= HdrSize(n) && HdrSize(n) % FILE_ALIGN == 0
  {
    AlignUp(SECT_OFF + 40 * n, FILE_ALIGN);
  }

  lemma RowPlaced(keep: seq<Section>, data: seq<byte>, i: nat)
    requires i <= |keep| && keep != []
    ensures Placed(PlanOf(keep), i, RowOf(PlanOf(keep), data, i))
  {
    hide PeName, Align, Characteristics, RawOff, RelocData;
    HdrFits(|keep| + 1, i);
    AsciiLength();
    AlignUp(RELOC_SIZE, FILE_ALIGN);
    if i < |keep| {
      RawRanges(keep, HdrSize(|keep| + 1), i, |keep|);
    } else {
      RawRanges(keep, HdrSize(|keep| + 1), 0, |keep|);
    }
  }

  /** File data is stored in table order, without overlap. */
  lemma RowsInOrder(keep: seq<Section>, data: seq<byte>, k: nat, i: nat)
    requires k < i <= |keep|
    ensures var a, b := RowOf(PlanOf(keep), data, k), RowOf(PlanOf(keep), data, i);
            a.rawSize > 0 && b.rawSize > 0 ==> a.rawOff + a.rawSize <= b.rawOff
  {
    hide PeName, Align, Characteristics, RawOff, RelocData;
    HdrFits(|keep| + 1, i);
    RawRanges(keep, HdrSize(|keep| + 1), k, i);
  }

  lemma SpliceLength(out: seq<byte>, lo: nat, hi: nat, b: seq<byte>, limit: nat)
    requires lo <= hi < limit && |b| <= hi - lo && |out| <= limit
    ensures var r := Splice(out, lo, hi, b);
            |r| <= limit && |r| >= Min(|out|, lo) && (|r| == limit <==> |out| == limit && |b| == hi - lo)
    ensures |out| == limit && |b| == hi - lo ==> HasField(Splice(out, lo, hi, b), lo, b)
  {
    if |out| == limit && |b| == hi - lo {
      SpliceExact(out, lo, hi, b);
      PackKeeps(out, lo, b);
    }
  }

  /** One round of the section loop: the table row, then the section's bytes. */
  method WriteRow(start: seq<byte>, p: Plan, i: nat, row: Row) returns (out: seq<byte>)
    requires Placed(p, i, row) && p.hdr <= |start| <= p.total
    ensures p.hdr <= |out| <= p.total && (|out| == p.total <==> |start| == p.total && Whole(row))
    ensures RowWritten(out, i, row) && Keeps(start, out, SECT_OFF + 40 * i)
    ensures forall at: nat, b {:trigger HasField(out, at, b)} ::
              HasField(start, at, b) && p.hdr <= at && (row.rawSize > 0 ==> at + |b| <= row.rawOff) ==>
                  HasField(out, at, b)
    ensures |out| == p.total && row.rawSize > 0 ==> HasField(out, row.rawOff, row.content)
  {
    hide HasField, Splice, Put32, Numbers;
    out := WriteTableRow(start, i, row);
    if row.rawSize != 0 {
      SpliceKeeps(out, row.rawOff, row.rawOff + row.rawSize, row.content);
      SpliceLength(out, row.rawOff, row.rawOff + row.rawSize, row.content, p.total);
      out := Splice(out, row.rawOff, row.rawOff + row.rawSize, row.content);
    }
  }

  ghost predicate RowsWritten(out: seq<byte>, p: Plan, data: seq<byte>, n: nat)
    requires n <= |p.keep| + 1 && p.keep != []
  {
    forall k :: 0 <= k < n ==> RowWritten(out, k, RowOf(p, data, k))
  }

  ghost predicate ContentsWritten(out: seq<byte>, p: Plan, data: seq<byte>, n: nat)
    requires n <= |p.keep| + 1 && p.keep != []
  {
    forall k :: 0 <= k < n && RowOf(p, data, k).rawSize > 0 ==>
        HasField(out, RowOf(p, data, k).rawOff, RowOf(p, data, k).content)
  }

  ghost predicate AllWhole(p: Plan, data: seq<byte>, n: nat)
    requires n <= |p.keep| + 1 && p.keep != []
  {
    forall k :: 0 <= k < n ==> Whole(RowOf(p, data, k))
  }

  lemma HeadersKept(was: seq<byte>, now: seq<byte>, limit: nat, p: Plan, entry: nat, machine: nat, subsystem: nat)
    requires p.keep != [] && SECT_OFF <= limit && Keeps(was, now, limit) && Headers(was, p, entry, machine, subsystem)
    ensures Headers(now, p, entry, machine, subsystem)
  {
    hide HasField, CodeSize, InitSize, BssSize, Put16, Put32, Put64, Ascii, Coff;
    CoffLength(machine, |p.keep| + 1);
    AsciiLength();
  }

  lemma RowsKept(was: seq<byte>, now: seq<byte>, keep: seq<Section>, data: seq<byte>, n: nat)
    requires keep != [] && n <= |keep| && Keeps(was, now, SECT_OFF + 40 * n) && RowsWritten(was, PlanOf(keep), data, n)
    ensures RowsWritten(now, PlanOf(keep), data, n)
  {
    var p := PlanOf(keep);
    hide HasField, Put32, Numbers, PlanOf, RowOf;
    forall k | 0 <= k < n
      ensures RowWritten(now, k, RowOf(p, data, k))
    {
      RowPlaced(keep, data, k);
    }
  }

  lemma ContentsKept(was: seq<byte>, now: seq<byte>, keep: seq<Section>, data: seq<byte>, n: nat)
    requires keep != [] && n <= |keep| && ContentsWritten(was, PlanOf(keep), data, n)
    requires var p, row := PlanOf(keep), RowOf(PlanOf(keep), data, n);
             forall at: nat, b {:trigger HasField(now, at, b)} ::
                 HasField(was, at, b) && p.hdr <= at && (row.rawSize > 0 ==> at + |b| <= row.rawOff) ==>
                     HasField(now, at, b)
    ensures ContentsWritten(now, PlanOf(keep), data, n)
  {
    var p := PlanOf(keep);
    hide HasField, PlanOf, RowOf;
    forall k | 0 <= k < n && RowOf(p, data, k).rawSize > 0
      ensures HasField(now, RowOf(p, data, k).rawOff, RowOf(p, data, k).content)
    {
      RowPlaced(keep, data, k);
      RowsInOrder(keep, data, k, n);
    }
  }

  lemma PlanFits(keep: seq<Section>)
    ensures SECT_OFF <= PlanOf(keep).hdr <= PlanOf(keep).total
  {
    hide Align;
    HdrFits(|keep| + 1, 0);
    AlignUp(RELOC_SIZE, FILE_ALIGN);
    if keep != [] {
      RawRanges(keep, HdrSize(|keep| + 1), 0, |keep|);
    }
  }

  /** The section loop. */
  method WriteSections(start: seq<byte>, keep: seq<Section>, metas: seq<Meta>, data: seq<byte>, entry: nat,
                       machine: nat, subsystem: nat) returns (out: seq<byte>)
    requires |metas| == |keep| && forall i :: 0 <= i < |keep| ==> metas[i] == MetaOf(keep, PlanOf(keep).hdr, i)
    requires keep != [] && |start| == PlanOf(keep).total && Headers(start, PlanOf(keep), entry, machine, subsystem)
    ensures Headers(out, PlanOf(keep), entry, machine, subsystem) && RowsWritten(out, PlanOf(keep), data, |keep| + 1)
    ensures PlanOf(keep).hdr <= |out| <= PlanOf(keep).total
    ensures |out| == PlanOf(keep).total <==> AllWhole(PlanOf(keep), data, |keep| + 1)
    ensures |out| == PlanOf(keep).total ==> ContentsWritten(out, PlanOf(keep), data, |keep| + 1)
  {
    hide PlanOf, RowOfMeta, MetaOf, HasField, Numbers, Put32, Coff, RowWritten, Headers, Keeps, Ascii, RelocData;
    var p := PlanOf(keep);
    PlanFits(keep);
    out := start;
    for i := 0 to |keep| + 1
      invariant p.hdr <= |out| <= p.total
      invariant Headers(out, p, entry, machine, subsystem) && RowsWritten(out, p, data, i)
      invariant |out| == p.total <==> AllWhole(p, data, i)
      invariant |out| == p.total ==> ContentsWritten(out, p, data, i)
    {
      var row := if i < |keep| then RowOfMeta(metas[i], data) else RowOf(p, data, i);
      RowPlaced(keep, data, i);
      ghost var was := out;
      out := WriteRow(out, p, i, row);
      HeadersKept(was, out, SECT_OFF + 40 * i, p, entry, machine, subsystem);
      RowsKept(was, out, keep, data, i);
      if |out| == p.total {
        ContentsKept(was, out, keep, data, i);
      }
    }
  }

  lemma WholeIffInFile(keep: seq<Section>, data: seq<byte>)
    requires keep != []
    ensures AllWhole(PlanOf(keep), data, |keep| + 1) <==> InFile(keep, data)
  {
    hide PeName, Align, Characteristics, RawOff, RelocData;
    var p := PlanOf(keep);
    if AllWhole(p, data, |keep| + 1) {
      forall i | 0 <= i < |keep| && RawSize(keep[i]) > 0
        ensures keep[i].off + keep[i].size <= |data|
      {
        assert Whole(RowOf(p, data, i));
      }
    }
  }

  /** mkpefi's main: a file is written exactly for accepted input. Its headers and section table are always
      complete; the section data follows the plan if and only if the ELF file holds all of it. */
  method Convert(data: seq<byte>, secs: seq<Section>, entry: nat, machine: nat, subsystem: int)
    returns (keep: seq<Section>, r: Option<seq<byte>>)
    ensures Ascending(keep) && forall s :: multiset(keep)[s] == if Kept(s) then multiset(secs)[s] else 0
    ensures forall a :: Shelf(keep, a) == Shelf(KeptOf(secs), a)
    ensures r.Some? <==> Accepted(keep, entry, machine, subsystem)
    ensures r.Some? ==>
              && Headers(r.value, PlanOf(keep), entry, Machine(machine).value, subsystem)
              && RowsWritten(r.value, PlanOf(keep), data, |keep| + 1)
              && (|r.value| == PlanOf(keep).total <==> InFile(keep, data))
              && (InFile(keep, data) ==> Converted(r.value, data, keep, entry, machine, subsystem) && Loads(r.value))
    ensures r.Some? && InFile(keep, data) && OverlapFree(keep) ==>
              forall s, rva: nat :: s in keep && Covers(s, rva) ==>
                && (s.kind != NOBITS ==> s.off + s.size <= |data|)
                && LoadByte(r.value, Count(r.value), rva) == Some(ElfByte(data, s, rva))
  {
    hide Headers, HasField, RowsWritten, ContentsWritten, AllWhole, RawOff, MaxEnd, MetaOf, Align, InFile, Ascending,
        Kept, KeptOf, Shelf, Loads, LoadByte, Count, ElfByte, OverlapFree, Covers;
    keep := Select(secs);
    if !Accepted(keep, entry, machine, subsystem) {
      return keep, None;
    }
    var hdr := HdrSize(|keep| + 1);
    var metas, rawEnd, maxEnd := Layout(keep, hdr);
    var rva := Align(maxEnd, SEC_ALIGN);
    var p := Plan(keep, hdr, rva, rawEnd, rawEnd + Align(RELOC_SIZE, FILE_ALIGN), Align(rva + RELOC_SIZE, SEC_ALIGN));
    assert p == PlanOf(keep);
    PlanFits(keep);
    var out := WriteHeaders(p, entry, Machine(machine).value, subsystem);
    out := WriteSections(out, keep, metas, data, entry, Machine(machine).value, subsystem);
    WholeIffInFile(keep, data);
    if InFile(keep, data) {
      assert Converted(out, data, keep, entry, machine, subsystem);
      ReadBack(out, data, keep, entry, machine, subsystem);
    }
    return keep, Some(out);
  }

  /** The converter as a whole, from the file's bytes: what the ELF file has at an address of a loadable section, the
      PE file has there. */
  method Make(data: seq<byte>, decodes: seq<byte> -> bool, subsystem: int)
    returns (elf: Option<Elf>, keep: seq<Section>, r: Option<seq<byte>>)
    ensures forall e :: elf == Some(e) <==> Describes(data, decodes, e)
    ensures elf.None? ==> r.None?
    ensures elf.Some? ==>
              && Ascending(keep)
              && (forall s :: multiset(keep)[s] == if Kept(s) then multiset(elf.value.secs)[s] else 0)
              && (r.Some? <==> Accepted(keep, elf.value.entry, elf.value.machine, subsystem))
    ensures r.Some? && InFile(keep, data) ==>
              Converted(r.value, data, keep, elf.value.entry, elf.value.machine, subsystem) && Loads(r.value)
    ensures r.Some? && InFile(keep, data) && OverlapFree(keep) ==>
              forall s, rva: nat :: s in elf.value.secs && Kept(s) && Covers(s, rva) ==>
                && (s.kind != NOBITS ==> s.off + s.size <= |data|)
                && LoadByte(r.value, Count(r.value), rva) == Some(ElfByte(data, s, rva))
  {
    hide Describes, Ascending, Kept, Accepted, InFile, Converted, Loads, LoadByte, Count, ElfByte, OverlapFree, Covers,
         Shelf, KeptOf, Headers, RowsWritten, PlanOf;
    elf := ReadElf(data, decodes);
    if elf.None? {
      return None, [], None;
    }
    keep, r := Convert(data, elf.value.secs, elf.value.entry, elf.value.machine, subsystem);
    KeptIn(keep, elf.value.secs);
  }

  lemma KeptIn(keep: seq<Section>, secs: seq<Section>)
    requires forall s :: multiset(keep)[s] == if Kept(s) then multiset(secs)[s] else 0
    ensures forall s :: s in secs && Kept(s) ==> s in keep
  {
    forall s | s in secs && Kept(s)
      ensures s in keep
    {
      assert s in multiset(secs);
      assert s in multiset(keep);
    }
  }

  // ---- A PE loader ----

  datatype Entry = Entry(vsize: nat, va: nat, rawSize: nat, rawOff: nat)

  /** The headers of f can be read: a PE32+ file with its section table inside. */
  predicate Parses(f: seq<byte>) {
    && 0x40 <= |f| && f[0..2] == Ascii("MZ")
    && Le32(f, 0x3C) + 24 + 112 <= |f| && f[Le32(f, 0x3C)..Le32(f, 0x3C) + 4] == Ascii("PE") + [0, 0]
    && Le16(f, Opt(f)) == 0x20B
    && Table(f) + 40 * Count(f) <= |f|
  }

  function Opt(f: seq<byte>): nat
    requires 0x40 <= |f|
  {
    Le32(f, 0x3C) + 24
  }

  function Count(f: seq<byte>): nat
    requires 0x40 <= |f| && Opt(f) <= |f|
  {
    Le16(f, Opt(f) - 18)
  }

  function Table(f: seq<byte>): nat
    requires 0x40 <= |f| && Opt(f) <= |f|
  {
    Opt(f) + Le16(f, Opt(f) - 4)
  }

  function EntryAt(f: seq<byte>, i: nat): Entry
    requires Parses(f) && i < Count(f)
  {
    var o := Table(f) + 40 * i;
    Entry(Le32(f, o + 8), Le32(f, o + 12), Le32(f, o + 16), Le32(f, o + 20))
  }

  function SectionAlignment(f: seq<byte>): nat
    requires Parses(f)
  {
    Le32(f, Opt(f) + 32)
  }

  function FileAlignment(f: seq<byte>): nat
    requires Parses(f)
  {
    Le32(f, Opt(f) + 36)
  }

  function SizeOfImage(f: seq<byte>): nat
    requires Parses(f)
  {
    Le32(f, Opt(f) + 56)
  }

  function SizeOfHeaders(f: seq<byte>): nat
    requires Parses(f)
  {
    Le32(f, Opt(f) + 60)
  }

  predicate EntryLoads(f: seq<byte>, e: Entry)
    requires Parses(f) && SectionAlignment(f) > 0 && FileAlignment(f) > 0
  {
    && e.va % SectionAlignment(f) == 0 && e.va + e.vsize <= SizeOfImage(f)
    && (e.rawSize > 0 ==>
          SizeOfHeaders(f) <= e.rawOff && e.rawOff % FileAlignment(f) == 0 && e.rawOff + e.rawSize <= |f|)
  }

  /** What a loader checks before it maps the file. */
  predicate Loads(f: seq<byte>) {
    && Parses(f) && SectionAlignment(f) > 0 && FileAlignment(f) > 0 && SizeOfHeaders(f) <= |f|
    && forall i :: 0 <= i < Count(f) ==> EntryLoads(f, EntryAt(f, i))
  }

  /** The byte a loader leaves at an address after copying the headers, then the first n sections in table order. */
  function LoadByte(f: seq<byte>, n: nat, rva: nat): Option<byte>
    requires Loads(f) && n <= Count(f)
  {
    if n == 0 then if rva < SizeOfHeaders(f) then Some(f[rva]) else None
    else
      var e := EntryAt(f, n - 1);
      assert EntryLoads(f, e);
      if e.va <= rva < e.va + e.vsize then Some(if rva - e.va < e.rawSize then f[e.rawOff + (rva - e.va)] else 0)
      else LoadByte(f, n - 1, rva)
  }

  // ---- The output read back ----

  lemma Field16(out: seq<byte>, at: nat, v: nat)
    requires HasField(out, at, Put16(v)) && v < 0x1_0000
    ensures at + 2 <= |out| && Le16(out, at) == v
  {
    Le16At(out, at, v);
  }

  lemma Field32(out: seq<byte>, at: nat, v: nat)
    requires HasField(out, at, Put32(v)) && v < UINT32
    ensures at + 4 <= |out| && Le32(out, at) == v
  {
    Le32At(out, at, v);
  }

  /** The headers say what was planned. */
  lemma HeadersRead(out: seq<byte>, keep: seq<Section>, entry: nat, machine: nat, subsystem: nat)
    requires keep != [] && |keep| + 1 < 0x1_0000 && PlanOf(keep).imageSize < UINT32 && PlanOf(keep).hdr < UINT32
    requires Headers(out, PlanOf(keep), entry, machine, subsystem) && PlanOf(keep).hdr <= |out|
    ensures Parses(out) && Opt(out) == OPT_OFF && Count(out) == |keep| + 1 && Table(out) == SECT_OFF
    ensures SectionAlignment(out) == SEC_ALIGN && FileAlignment(out) == FILE_ALIGN
    ensures SizeOfImage(out) == PlanOf(keep).imageSize && SizeOfHeaders(out) == PlanOf(keep).hdr
  {
    var p := PlanOf(keep);
    PlanFits(keep);
    HdrFits(|keep| + 1, |keep|);
    AsciiLength();
    Field32(out, 0x3C, PE_OFF);
    assert out[0..2] == Ascii("MZ") && out[PE_OFF..PE_OFF + 4] == Ascii("PE") + [0, 0];
    hide PlanOf, HasField, Put16, Put32, Put64, Ascii, Le16, Le32, CodeSize, InitSize, BssSize;
    SubField(out, PE_OFF + 4, Put16(machine), Put16(|keep| + 1),
        Put32(0) + Put32(0) + Put32(0) + Put16(240) + Put16(0x22));
    Field16(out, PE_OFF + 6, |keep| + 1);
    CoffTail(machine, |keep| + 1);
    SubField(out, PE_OFF + 4, Put16(machine) + Put16(|keep| + 1) + Put32(0) + Put32(0) + Put32(0), Put16(240),
        Put16(0x22));
    Field16(out, PE_OFF + 20, 240);
    Field16(out, OPT_OFF, 0x20B);
    assert Put32(SEC_ALIGN) + Put32(FILE_ALIGN) == [] + Put32(SEC_ALIGN) + Put32(FILE_ALIGN)
        == Put32(SEC_ALIGN) + Put32(FILE_ALIGN) + [];
    SubField(out, OPT_OFF + 32, [], Put32(SEC_ALIGN), Put32(FILE_ALIGN));
    SubField(out, OPT_OFF + 32, Put32(SEC_ALIGN), Put32(FILE_ALIGN), []);
    Field32(out, OPT_OFF + 32, SEC_ALIGN);
    Field32(out, OPT_OFF + 36, FILE_ALIGN);
    SubField(out, OPT_OFF + 52, Put32(0), Put32(p.imageSize), Put32(p.hdr) + Put32(0));
    assert Put32(0) + Put32(p.imageSize) + (Put32(p.hdr) + Put32(0))
        == (Put32(0) + Put32(p.imageSize)) + Put32(p.hdr) + Put32(0);
    SubField(out, OPT_OFF + 52, Put32(0) + Put32(p.imageSize), Put32(p.hdr), Put32(0));
    Field32(out, OPT_OFF + 56, p.imageSize);
    Field32(out, OPT_OFF + 60, p.hdr);
  }

  lemma CoffTail(machine: nat, n: nat)
    ensures Coff(machine, n) == (Put16(machine) + Put16(n) + Put32(0) + Put32(0) + Put32(0)) + Put16(240) + Put16(0x22)
  {
    hide Put16, Put32;
  }

  predicate Fits(row: Row) { row.vsize < UINT32 && row.va < UINT32 && row.rawSize < UINT32 && row.rawOff < UINT32 }

  lemma RowRead(out: seq<byte>, i: nat, row: Row)
    requires Parses(out) && Table(out) == SECT_OFF && i < Count(out) && RowWritten(out, i, row) && Fits(row)
    ensures EntryAt(out, i) == Entry(row.vsize, row.va, row.rawSize, row.rawOff)
  {
    hide HasField, Put32, Le32, Le16, Parses;
    var o := SECT_OFF + 40 * i + 8;
    var a, b, c, d := Put32(row.vsize), Put32(row.va), Put32(row.rawSize), Put32(row.rawOff);
    assert Numbers(row) == [] + a + (b + c + d) == a + b + (c + d) == (a + b) + c + d == (a + b + c) + d + [];
    SubField(out, o, [], a, b + c + d);
    SubField(out, o, a, b, c + d);
    SubField(out, o, a + b, c, d);
    SubField(out, o, a + b + c, d, []);
    Field32(out, o, row.vsize);
    Field32(out, o + 4, row.va);
    Field32(out, o + 8, row.rawSize);
    Field32(out, o + 12, row.rawOff);
  }

  /** What the converter writes for accepted input whose section data is all there. */
  ghost predicate Converted(out: seq<byte>, data: seq<byte>, keep: seq<Section>, entry: nat, machine: nat,
                            subsystem: nat) {
    && Accepted(keep, entry, machine, subsystem) && InFile(keep, data) && |out| == PlanOf(keep).total
    && Headers(out, PlanOf(keep), entry, Machine(machine).value, subsystem)
    && RowsWritten(out, PlanOf(keep), data, |keep| + 1) && ContentsWritten(out, PlanOf(keep), data, |keep| + 1)
  }

  // Rows lie inside the image, and the relocation block beyond every section.
  lemma RowInImage(keep: seq<Section>, data: seq<byte>, i: nat, entry: nat, machine: nat, subsystem: int)
    requires Accepted(keep, entry, machine, subsystem) && i <= |keep|
    ensures var p, row := PlanOf(keep), RowOf(PlanOf(keep), data, i);
            Fits(row) && row.va % SEC_ALIGN == 0 && row.va + row.vsize <= p.imageSize
                && (i < |keep| ==> row.va + row.vsize <= p.relocRva)
  {
    hide CodeSize, InitSize, BssSize, RawOff, PeName, Characteristics, RelocData, MaxEnd, HdrSize;
    var p := PlanOf(keep);
    AlignUp(MaxEnd(keep), SEC_ALIGN);
    AlignUp(p.relocRva + RELOC_SIZE, SEC_ALIGN);
    HdrFits(|keep| + 1, i);
    if i < |keep| {
      assert keep[i] in keep;
      MaxEndCovers(keep, i);
      RawRanges(keep, p.hdr, i, |keep|);
    }
  }

  /** A PE loader accepts every converted file: raw ranges are file-aligned, inside the file and beyond the
      headers, and addresses are section-aligned and inside the image. */
  lemma ConvertedLoads(out: seq<byte>, data: seq<byte>, keep: seq<Section>, entry: nat, machine: nat, subsystem: nat)
    requires Converted(out, data, keep, entry, machine, subsystem)
    ensures Loads(out) && Count(out) == |keep| + 1 && SizeOfHeaders(out) == PlanOf(keep).hdr <= |out|
    ensures forall i :: 0 <= i <= |keep| ==>
              var row := RowOf(PlanOf(keep), data, i);
              EntryAt(out, i) == Entry(row.vsize, row.va, row.rawSize, row.rawOff)
  {
    hide Parses, Headers, PlanOf, RowOf, RowWritten, EntryAt, SectionAlignment, FileAlignment, SizeOfImage,
        SizeOfHeaders, Count, Table, Opt;
    var p := PlanOf(keep);
    PlanFits(keep);
    HdrBelow(keep);
    HeadersRead(out, keep, entry, Machine(machine).value, subsystem);
    forall i | 0 <= i <= |keep|
      ensures EntryLoads(out, EntryAt(out, i))
      ensures var row := RowOf(p, data, i); EntryAt(out, i) == Entry(row.vsize, row.va, row.rawSize, row.rawOff)
    {
      var row := RowOf(p, data, i);
      RowInImage(keep, data, i, entry, machine, subsystem);
      RowPlaced(keep, data, i);
      RowRead(out, i, row);
    }
  }

  lemma HdrBelow(keep: seq<Section>)
    requires keep != []
    ensures PlanOf(keep).hdr <= PlanOf(keep).relocRaw
  {
    HdrFits(|keep| + 1, 0);
    RawRanges(keep, HdrSize(|keep| + 1), 0, |keep|);
  }

  predicate Covers(s: Section, rva: nat) { s.addr <= rva < s.addr + s.size }

  predicate OverlapFree(keep: seq<Section>) {
    forall s, t :: s in keep && t in keep && s != t ==> s.addr + s.size <= t.addr || t.addr + t.size <= s.addr
  }

  /** The byte the ELF section has at an address. */
  function ElfByte(data: seq<byte>, s: Section, rva: nat): byte
    requires Covers(s, rva) && (s.kind != NOBITS ==> s.off + s.size <= |data|)
  {
    if s.kind == NOBITS then 0 else data[s.off + (rva - s.addr)]
  }

  // Row i loads its own section's bytes.
  lemma RowLoads(out: seq<byte>, data: seq<byte>, keep: seq<Section>, i: nat, rva: nat)
    requires keep != [] && i < |keep| && InFile(keep, data) && ContentsWritten(out, PlanOf(keep), data, |keep| + 1)
              && Covers(keep[i], rva)
    ensures var row := RowOf(PlanOf(keep), data, i);
            row.rawSize > 0 ==>
              && row.rawOff + row.rawSize <= |out| && rva - row.va < row.rawSize
              && out[row.rawOff + (rva - row.va)] == ElfByte(data, keep[i], rva)
    ensures RowOf(PlanOf(keep), data, i).rawSize == 0 ==> ElfByte(data, keep[i], rva) == 0
  {
    hide RawOff, PeName, Characteristics, RelocData, HdrSize, Align, MaxEnd;
    var row := RowOf(PlanOf(keep), data, i);
    if row.rawSize > 0 {
      assert HasField(out, row.rawOff, row.content);
      assert row.content == data[keep[i].off..keep[i].off + keep[i].size];
      assert out[row.rawOff..row.rawOff + |row.content|][rva - row.va] == row.content[rva - row.va];
    }
  }

  /** The memory image is preserved: at every address of every loaded section a PE loader places the byte the
      ELF file has there, zero for NOBITS. */
  lemma ImagePreserved(out: seq<byte>, data: seq<byte>, keep: seq<Section>, entry: nat, machine: nat, subsystem: nat,
                       s: Section, rva: nat)
    requires Converted(out, data, keep, entry, machine, subsystem) && OverlapFree(keep) && s in keep && Covers(s, rva)
    ensures Loads(out) && LoadByte(out, Count(out), rva) == Some(ElfByte(data, s, rva))
  {
    hide Loads, EntryAt, Count, Converted, PlanOf, RowOf;
    assert Accepted(keep, entry, machine, subsystem) by { ConvertedParts(out, data, keep, entry, machine, subsystem); }
    ConvertedLoads(out, data, keep, entry, machine, subsystem);
    RowInImage(keep, data, |keep|, entry, machine, subsystem);
    var i :| 0 <= i < |keep| && keep[i] == s;
    RowInImage(keep, data, i, entry, machine, subsystem);
    RowIs(keep, data, i);
    RowIs(keep, data, |keep|);
    assert PlanOf(keep).relocRva > rva;
    ScanRows(out, data, keep, entry, machine, subsystem, |keep|, i, rva);
  }

  lemma ReadBack(out: seq<byte>, data: seq<byte>, keep: seq<Section>, entry: nat, machine: nat, subsystem: nat)
    requires Converted(out, data, keep, entry, machine, subsystem)
    ensures Loads(out)
    ensures OverlapFree(keep) ==>
              forall s, rva: nat :: s in keep && Covers(s, rva) ==>
                && (s.kind != NOBITS ==> s.off + s.size <= |data|)
                && LoadByte(out, Count(out), rva) == Some(ElfByte(data, s, rva))
  {
    hide Converted, LoadByte;
    ConvertedLoads(out, data, keep, entry, machine, subsystem);
    if OverlapFree(keep) {
      forall s, rva: nat | s in keep && Covers(s, rva)
        ensures (s.kind != NOBITS ==> s.off + s.size <= |data|)
                  && LoadByte(out, Count(out), rva) == Some(ElfByte(data, s, rva))
      {
        SectionInFile(out, data, keep, entry, machine, subsystem, s);
        ImagePreserved(out, data, keep, entry, machine, subsystem, s, rva);
      }
    }
  }

  lemma SectionInFile(out: seq<byte>, data: seq<byte>, keep: seq<Section>, entry: nat, machine: nat, subsystem: nat,
                      s: Section)
    requires Converted(out, data, keep, entry, machine, subsystem) && s in keep && s.size > 0
    ensures s.kind != NOBITS ==> s.off + s.size <= |data|
  {
    var i :| 0 <= i < |keep| && keep[i] == s;
  }

  lemma RowIs(keep: seq<Section>, data: seq<byte>, i: nat)
    requires i <= |keep| && keep != []
    ensures var row := RowOf(PlanOf(keep), data, i);
            if i < |keep| then row.va == keep[i].addr && row.vsize == keep[i].size
            else row.va == PlanOf(keep).relocRva && row.vsize == RELOC_SIZE
  {
  }

  lemma ConvertedParts(out: seq<byte>, data: seq<byte>, keep: seq<Section>, entry: nat, machine: nat, subsystem: nat)
    requires Converted(out, data, keep, entry, machine, subsystem)
    ensures Accepted(keep, entry, machine, subsystem) && InFile(keep, data)
              && ContentsWritten(out, PlanOf(keep), data, |keep| + 1)
  {
  }

  lemma {:induction false} ScanRows(out: seq<byte>, data: seq<byte>, keep: seq<Section>, entry: nat, machine: nat,
                                    subsystem: nat, n: nat, i: nat, rva: nat)
    requires Converted(out, data, keep, entry, machine, subsystem) && OverlapFree(keep) && i < n <= |keep|
              && Covers(keep[i], rva)
    ensures Loads(out) && Count(out) == |keep| + 1 && LoadByte(out, n, rva) == Some(ElfByte(data, keep[i], rva))
  {
    hide Loads, EntryAt, Count, Converted, PlanOf, RowOf, ContentsWritten;
    ConvertedParts(out, data, keep, entry, machine, subsystem);
    ConvertedLoads(out, data, keep, entry, machine, subsystem);
    RowIs(keep, data, n - 1);
    if Covers(keep[n - 1], rva) {
      assert keep[n - 1] in keep && keep[i] in keep;
      assert keep[n - 1] == keep[i];
      RowLoads(out, data, keep, n - 1, rva);
    } else {
      ScanRows(out, data, keep, entry, machine, subsystem, n - 1, i, rva);
    }
  }

  /** The loader places nothing outside the sections but the headers and the relocation block. */
  lemma {:induction false} NothingElse(out: seq<byte>, data: seq<byte>, keep: seq<Section>, entry: nat, machine: nat,
                                       subsystem: nat, n: nat, rva: nat)
    requires Converted(out, data, keep, entry, machine, subsystem) && n <= |keep| + 1
    requires forall s :: s in keep ==> !Covers(s, rva)
    requires !(PlanOf(keep).relocRva <= rva < PlanOf(keep).relocRva + RELOC_SIZE)
    ensures Loads(out) && Count(out) == |keep| + 1 && PlanOf(keep).hdr <= |out|
    ensures LoadByte(out, n, rva) == if rva < PlanOf(keep).hdr then Some(out[rva]) else None
  {
    hide Loads, EntryAt, Count, Converted, PlanOf, RowOf, ContentsWritten, SizeOfHeaders;
    ConvertedParts(out, data, keep, entry, machine, subsystem);
    ConvertedLoads(out, data, keep, entry, machine, subsystem);
    if n > 0 {
      RowIs(keep, data, n - 1);
      if n - 1 < |keep| {
        assert keep[n - 1] in keep;
      }
      NothingElse(out, data, keep, entry, machine, subsystem, n - 1, rva);
    }
  }

  /** An ELF file that ends in the middle of a section: the converter accepts it and the output misses bytes. */
  method TruncatedElf() returns (keep: seq<Section>, r: Option<seq<byte>>)
    ensures r.Some? && |keep| == 1 && |r.value| != PlanOf(keep).total
  {
    var s := Section([0x2E, 0x78], PROGBITS, 2, 0x1000, 0, 8);
    var secs, data := [s], Zeros(4);
    keep, r := Convert(data, secs, 0x1000, 62, 10);
    OnlyOne(keep, s, secs);
    SmallPlan(keep);
  }

  lemma OnlyOne(keep: seq<Section>, s: Section, secs: seq<Section>)
    requires secs == [s] && Kept(s) && forall t :: multiset(keep)[t] == if Kept(t) then multiset(secs)[t] else 0
    ensures keep == [s]
  {
    assert multiset(keep) == multiset(secs);
    assert |multiset(keep)| == |keep| && |multiset(secs)| == 1;
    assert keep[0] in multiset(keep);
  }

  lemma SmallPlan(keep: seq<Section>)
    requires |keep| == 1 && keep[0].addr == 0x1000 && keep[0].size == 8 && keep[0].kind == PROGBITS
    ensures Accepted(keep, 0x1000, 62, 10)
  {
    var s := keep[0];
    assert keep == [s] && [s][..0] == [] && [s][1..] == [];
    assert RawSize(s) == 8;
    var hdr := HdrSize(2);
    assert MaxEnd([s]) == 0x1008;
    AlignUp(8, FILE_ALIGN);
    assert Align(8, FILE_ALIGN) == 0x200;
    assert RawOff(keep, hdr, 0) == hdr == 0x200;
  }
}
