/** Firmware staging into the DSP carveout (q8b/include/q8b_mdt_load.h). */
module MdtLoad {
  import opened Bytes

  /** An ELF32 program header; every field is a 32-bit word. */
  datatype Phdr = Phdr(kind: nat, offset: nat, vaddr: nat, paddr: nat, filesz: nat, memsz: nat, flags: nat, align: nat)

  const UINT32_MAX: nat := 0xFFFF_FFFF

  /** q8b_mdt_loadable: PT_LOAD, nonempty, not a hash segment. */
  predicate Loadable(p: Phdr) {
    p.kind == 1 && p.memsz != 0 && p.flags / 0x100_0000 % 8 != 2
  }

  predicate SegmentOk(p: Phdr, imageSize: nat, base: nat, capacity: nat) {
    && p.filesz <= p.memsz && base <= p.paddr
    && p.offset + p.filesz <= imageSize && p.paddr - base + p.memsz <= capacity
  }

  predicate LoadsOk(ph: seq<Phdr>, imageSize: nat, base: nat, capacity: nat) {
    && 0 < |ph| <= 32
    && (forall i :: 0 <= i < |ph| && Loadable(ph[i]) ==> SegmentOk(ph[i], imageSize, base, capacity))
    && (exists i :: 0 <= i < |ph| && Loadable(ph[i]))
  }

  /** q8b_mdt_validate_loads */
  method ValidateLoads(imageSize: nat, ph: seq<Phdr>, base: nat, capacity: nat) returns (ok: bool)
    ensures ok <==> LoadsOk(ph, imageSize, base, capacity)
  {
    if ph == [] || |ph| > 32 {
      return false;
    }
    var loads := 0;
    for i := 0 to |ph|
      invariant forall j :: 0 <= j < i && Loadable(ph[j]) ==> SegmentOk(ph[j], imageSize, base, capacity)
      invariant loads > 0 <==> exists j :: 0 <= j < i && Loadable(ph[j])
      invariant loads >= 0
    {
      var p := ph[i];
      if Loadable(p) {
        if p.filesz > p.memsz || p.paddr < base || p.offset + p.filesz > imageSize
            || p.paddr - base + p.memsz > capacity {
          return false;
        }
        loads := loads + 1;
      }
    }
    return loads > 0;
  }

  predicate Covers(p: Phdr, base: nat, x: nat) {
    Loadable(p) && p.paddr <= base + x < p.paddr + p.memsz
  }

  /** What carveout byte x must be: the file byte or BSS zero of the last loadable segment that covers it,
      and the old byte if none does. */
  function Staged(ph: seq<Phdr>, image: seq<byte>, base: nat, old_: byte, x: nat): byte
    requires forall i :: 0 <= i < |ph| && Loadable(ph[i]) ==> ph[i].offset + ph[i].filesz <= |image|
  {
    if ph == [] then old_ else
    var p := ph[|ph| - 1];
    if !Covers(p, base, x) then Staged(ph[..|ph| - 1], image, base, old_, x)
    else var k := base + x - p.paddr;
      if k < p.filesz then image[p.offset + k] else 0
  }

  /** q8b_mdt_stage: nothing is written unless every segment is valid, and then the carveout is exactly
      the image. */
  method Stage(destination: array<byte>, capacity: nat, image: seq<byte>, ph: seq<Phdr>, base: nat) returns (ok: bool)
    requires capacity <= destination.Length
    modifies destination
    ensures ok <==> LoadsOk(ph, |image|, base, capacity)
    ensures !ok ==> destination[..] == old(destination[..])
    ensures ok ==> forall x :: 0 <= x < destination.Length ==>
                     destination[x] == Staged(ph, image, base, old(destination[x]), x)
  {
    ok := ValidateLoads(|image|, ph, base, capacity);
    if !ok {
      return;
    }
    for i := 0 to |ph|
      invariant forall x :: 0 <= x < destination.Length ==>
                  destination[x] == Staged(ph[..i], image, base, old(destination[x]), x)
    {
      assert ph[..i + 1][..i] == ph[..i];
      if Loadable(ph[i]) {
        CopySegment(destination, image, ph[i], base);
      }
    }
    assert ph[..|ph|] == ph;
  }

  // The two inner loops: file bytes, then zeros.
  method CopySegment(destination: array<byte>, image: seq<byte>, p: Phdr, base: nat)
    requires SegmentOk(p, |image|, base, destination.Length) && Loadable(p)
    modifies destination
    ensures forall x :: 0 <= x < destination.Length ==>
              destination[x] == if Covers(p, base, x)
                                then (if base + x - p.paddr < p.filesz then image[p.offset + (base + x - p.paddr)]
                                    else 0)
                                else old(destination[x])
  {
    var offset := p.paddr - base;
    for k := 0 to p.filesz
      invariant forall x :: 0 <= x < destination.Length ==>
                  destination[x] == if offset <= x < offset + k then image[p.offset + (x - offset)]
                      else old(destination[x])
    {
      destination[offset + k] := image[p.offset + k];
    }
    for k := p.filesz to p.memsz
      invariant forall x :: 0 <= x < destination.Length ==>
                  destination[x] == if offset <= x < offset + p.filesz then image[p.offset + (x - offset)]
                                    else if offset <= x < offset + k then 0 else old(destination[x])
    {
      destination[offset + k] := 0;
    }
  }

  /** Later segments win, and bytes in no segment are kept. */
  lemma {:induction false} LastSegmentWins(ph: seq<Phdr>, image: seq<byte>, base: nat, old_: byte, x: nat, i: nat)
    requires forall j :: 0 <= j < |ph| && Loadable(ph[j]) ==> ph[j].offset + ph[j].filesz <= |image|
    requires i <= |ph| && forall j :: i <= j < |ph| ==> !Covers(ph[j], base, x)
    requires i > 0 ==> Covers(ph[i - 1], base, x)
    ensures Staged(ph, image, base, old_, x) ==
              if i == 0 then old_
              else
                var at := base + x - ph[i - 1].paddr;
                if at < ph[i - 1].filesz then image[ph[i - 1].offset + at] else 0
  {
    if i < |ph| {
      LastSegmentWins(ph[..|ph| - 1], image, base, old_, x, i);
    }
  }

  /** With 32-bit sizes no index the loops form can wrap. */
  lemma NoWrap(p: Phdr, imageSize: nat, base: nat, capacity: nat, k: nat)
    requires SegmentOk(p, imageSize, base, capacity) && imageSize <= UINT32_MAX && capacity <= UINT32_MAX && k < p.memsz
    ensures p.paddr - base + k < capacity && p.paddr - base + k < UINT32_MAX
    ensures k < p.filesz ==> p.offset + k < imageSize
  {
  }
}
