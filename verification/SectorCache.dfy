/** The read-ahead sector cache of raspi5/kernel/bsp/sd.c and raspix/kernel/bsp/sd.c over an unreliable card. */
module SectorCache {
  import opened Bytes

  const SMALL: nat := 8
  const LARGE: nat := 32
  const SECTOR: nat := 512
  const BUFFER: nat := LARGE * SECTOR
  const UINT32: nat := 0x1_0000_0000

  type Block = b: seq<byte> | |b| == SECTOR witness seq(SECTOR, _ => 0)

  /** What the card does with one transfer: how many blocks it moves, and what it leaves behind if it stops. */
  datatype Transfer = Transfer(moved: nat, noise: Block)

  /** The environment of one cached read: the allocator, the fill and the fallback transfer. */
  datatype Env = Env(alloc: bool, fill: Transfer, single: Transfer)

  predicate Int32(s: int) { -0x8000_0000 <= s < 0x8000_0000 }

  function Unsigned(s: int): nat { s % UINT32 }

  function Signed(u: nat): int { if u % UINT32 < 0x8000_0000 then u % UINT32 else u % UINT32 - UINT32 }

  // sector + (int32_t)i, with 32-bit wrap-around
  function Later(u: nat, i: nat): nat { (u + i) % UINT32 }

  lemma SignedLater(u: nat, i: nat)
    ensures Int32(Signed(u + i)) && Unsigned(Signed(u + i)) == Later(u, i)
  {
  }

  // Sector i of a byte buffer.
  function Slot(b: seq<byte>, i: nat): seq<byte>
    requires SECTOR * (i + 1) <= |b|
  {
    b[SECTOR * i..SECTOR * (i + 1)]
  }

  /** The first n sectors of b, from sector `first` of b on, are the card's sectors from u on. */
  ghost predicate Mirrors(disk: nat -> Block, b: seq<byte>, first: nat, u: nat, n: nat) {
    SECTOR * (first + n) <= |b| && forall i: nat {:trigger Slot(b, first + i)} {:trigger Later(u, i)} :: i < n ==>
        Slot(b, first + i) == disk(Later(u, i))
  }

  /** Only sectors [first, first + n) of a buffer may differ. */
  ghost predicate OutsideSame(was: seq<byte>, now: seq<byte>, first: nat, n: nat) {
    |was| == |now| && forall k :: 0 <= k < |was| && !(SECTOR * first <= k < SECTOR * (first + n)) ==> now[k] == was[k]
  }

  /** Copies sector `from` of src to sector `to` of dst. */
  method CopySector(src: seq<byte>, from: nat, dst: array<byte>, to: nat)
    requires SECTOR * (from + 1) <= |src| && SECTOR * (to + 1) <= dst.Length
    modifies dst
    ensures Slot(dst[..], to) == Slot(src, from)
    ensures OutsideSame(old(dst[..]), dst[..], to, 1)
  {
    for k := 0 to SECTOR
      invariant dst[SECTOR * to..SECTOR * to + k] == src[SECTOR * from..SECTOR * from + k]
      invariant forall j :: 0 <= j < dst.Length && !(SECTOR * to <= j < SECTOR * to + k) ==> dst[j] == old(dst[j])
    {
      dst[SECTOR * to + k] := src[SECTOR * from + k];
    }
  }

  // Writing the next sector extends what mirrors the card.
  lemma MirrorsMore(disk: nat -> Block, was: seq<byte>, now: seq<byte>, first: nat, u: nat, n: nat)
    requires Mirrors(disk, was, first, u, n) && OutsideSame(was, now, first + n, 1) && SECTOR * (first + n + 1) <= |was|
    requires Slot(now, first + n) == disk(Later(u, n))
    ensures Mirrors(disk, now, first, u, n + 1)
  {
    forall i: nat | i < n + 1
      ensures Slot(now, first + i) == disk(Later(u, i))
    {
      if i < n {
        assert Slot(now, first + i) == Slot(was, first + i);
      }
    }
  }

  lemma OutsideMore(a: seq<byte>, b: seq<byte>, c: seq<byte>, first: nat, n: nat)
    requires OutsideSame(a, b, first, n) && OutsideSame(b, c, first + n, 1)
    ensures OutsideSame(a, c, first, n + 1)
  {
  }

  lemma OutsideGrows(a: seq<byte>, b: seq<byte>, first: nat, n: nat, m: nat)
    requires OutsideSame(a, b, first, n) && n <= m
    ensures OutsideSame(a, b, first, m)
  {
  }

  lemma NothingRead(disk: nat -> Block, b: seq<byte>, u: nat)
    ensures Mirrors(disk, b, 0, u, 0) && OutsideSame(b, b, 0, 0)
  {
  }

  lemma OneMirrored(disk: nat -> Block, b: seq<byte>, to: nat, u: nat)
    requires Mirrors(disk, b, to, u, 1) && u < UINT32
    ensures Slot(b, to) == disk(u)
  {
    assert Slot(b, to + 0) == disk(Later(u, 0));
  }

  // The index of a cached sector lies inside the 32-sector buffer.
  lemma MirroredAt(disk: nat -> Block, b: seq<byte>, base: nat, n: nat, u: nat)
    requires Mirrors(disk, b, 0, base, n) && base <= u < base + n && u < UINT32
    ensures SECTOR * (u - base + 1) <= |b| && Slot(b, u - base) == disk(u)
  {
    assert Slot(b, 0 + (u - base)) == disk(Later(base, u - base));
  }

  /** The sectors of a buffer, labelled with the sectors of the card they answer for. */
  function Rows(b: seq<byte>, u: nat, n: nat): (rs: seq<Served>)
    requires SECTOR * n <= |b|
  {
    seq(n, k requires 0 <= k < n => Served(Later(u, k), Slot(b, k)))
  }

  lemma RowsMirrored(disk: nat -> Block, b: seq<byte>, u: nat, n: nat)
    requires Mirrors(disk, b, 0, u, n)
    ensures forall r :: r in Rows(b, u, n) ==> r.bytes == disk(r.sector)
  {
    forall k: nat | k < n
      ensures Rows(b, u, n)[k].bytes == disk(Rows(b, u, n)[k].sector)
    {
      assert Slot(b, 0 + k) == disk(Later(u, k));
    }
  }

  /** How often in a row the last reads each followed their predecessor, as the saturating counter keeps it. */
  ghost function RunOf(h: seq<int>): (n: nat)
    ensures n < UINT32
  {
    var k := |h| - 1;
    if k < 1 || h[k - 1] < 0 || h[k] != h[k - 1] + 1 then 0
    else if RunOf(h[..k]) < UINT32 - 1 then RunOf(h[..k]) + 1 else UINT32 - 1
  }

  /** The k reads before `sector` were the k sectors before it. */
  ghost predicate Consecutive(h: seq<int>, sector: int, k: nat) {
    k <= |h| && forall j :: |h| - k <= j < |h| ==> h[j] == sector - (|h| - j) >= 0
  }

  lemma {:induction false} RunIsConsecutive(h: seq<int>, k: nat)
    requires h != [] && k < UINT32 - 1 && h[|h| - 1] >= 0
    ensures RunOf(h) >= k <==> Consecutive(h, h[|h| - 1] + 1, k + 1)
    decreases k
  {
    var n := |h| - 1;
    if k > 0 && n >= 1 && h[n - 1] >= 0 && h[n] == h[n - 1] + 1 {
      var g := h[..n];
      RunIsConsecutive(g, k - 1);
      assert Consecutive(g, h[n], k) <==> Consecutive(h, h[n] + 1, k + 1) by {
        assert forall j :: 0 <= j < n ==> g[j] == h[j];
      }
    }
  }

  /** A read as the caller sees it: the sector asked for and the bytes that were returned. */
  datatype Served = Served(sector: nat, bytes: seq<byte>)

  datatype Op =
    | Init
    | Select(sector: int)
    | Read(env: Env)
    | ReadMany(sector: int, envs: seq<Env>)

  class Cache {
    const disk: nat -> Block
    /** raspix reads the card sector by sector, raspi5 in one transfer. */
    const perSector: bool

    var selected: nat
    var base: nat
    var count: nat
    var buf: array?<byte>
    var valid: bool
    var last: int
    var runLength: nat
    ghost var history: seq<int> // sectors served through the cache since sd_init

    ghost predicate Valid()
      reads this, buf
    {
      && (buf != null ==> buf.Length == BUFFER)
      && (valid ==> buf != null && count <= LARGE && base < UINT32 && Mirrors(disk, buf[..], 0, base, count))
      && runLength == RunOf(history) && Int32(last) && last == if history == [] then -1 else history[|history| - 1]
    }

    constructor (disk: nat -> Block, perSector: bool)
      ensures Valid() && !valid && buf == null && history == []
      ensures this.disk == disk && this.perSector == perSector
    {
      this.disk, this.perSector := disk, perSector;
      selected, base, count, buf, valid, last, runLength := 0, 0, 0, null, false, -1, 0;
      history := [];
    }

    predicate Succeeds(t: Transfer, n: nat) {
      n > 0 && if perSector then t.moved >= n else t.moved == n
    }

    predicate Sequential(sector: int)
      reads this`last
    {
      last >= 0 && sector == last + 1
    }

    /** sd_pick_cache_window */
    function Window(sector: int): nat
      reads this`last, this`runLength
    {
      if Sequential(sector) && runLength >= 4 then LARGE else SMALL
    }

    function Start(sector: int): nat
      reads this`last, this`runLength
    {
      if Window(sector) == LARGE then Unsigned(sector) else Unsigned(sector) - Unsigned(sector) % SMALL
    }

    predicate Hit(sector: int)
      reads this
    {
      valid && base <= Unsigned(sector) < (base + count) % UINT32
    }

    predicate FillSucceeds(sector: int, env: Env)
      reads this
    {
      (buf != null || env.alloc) && Succeeds(env.fill, Window(sector))
    }

    /** The large window opens exactly for the sixth sector, or a later one, of a consecutive run; the window
        always contains the sector asked for. */
    lemma WindowFollowsRun(sector: int)
      requires Valid() && Int32(sector)
      ensures Window(sector) == LARGE <==> Consecutive(history, sector, 5)
      ensures Start(sector) <= Unsigned(sector) < Start(sector) + Window(sector)
    {
      if history != [] && history[|history| - 1] >= 0 {
        RunIsConsecutive(history, 4);
      }
    }

    /** sd_read_blocks_direct: n sectors from u on into dst, from its sector `to` on. */
    method Direct(u: nat, dst: array<byte>, to: nat, n: nat, t: Transfer) returns (ok: bool)
      requires SECTOR * (to + n) <= dst.Length
      modifies dst
      ensures ok == Succeeds(t, n)
      ensures ok ==> Mirrors(disk, dst[..], to, u, n)
      ensures OutsideSame(old(dst[..]), dst[..], to, n)
    {
      if n == 0 {
        return false;
      }
      for i := 0 to n
        invariant perSector ==> i <= t.moved
        invariant perSector || t.moved == n ==> Mirrors(disk, dst[..], to, u, i)
        invariant OutsideSame(old(dst[..]), dst[..], to, i)
      {
        ghost var was := dst[..];
        if perSector && i >= t.moved {
          CopySector(t.noise, 0, dst, to + i);
          OutsideMore(old(dst[..]), was, dst[..], to, i);
          assert OutsideSame(old(dst[..]), dst[..], to, n);
          return false;
        }
        CopySector(if perSector || t.moved == n then disk(Later(u, i)) else t.noise, 0, dst, to + i);
        OutsideMore(old(dst[..]), was, dst[..], to, i);
        if perSector || t.moved == n {
          assert Slot(disk(Later(u, i)), 0) == disk(Later(u, i));
          MirrorsMore(disk, was, dst[..], to, u, i);
        }
      }
      return perSector || t.moved == n;
    }

    /** sd_cache_ensure and sd_cache_fill */
    method Fill(sector: int, env: Env) returns (ok: bool)
      requires Valid()
      modifies `base, `count, `buf, `valid, buf
      ensures Valid() && (buf == old(buf) || fresh(buf))
      ensures ok == old(FillSucceeds(sector, env))
                && (ok ==> valid && base == old(Start(sector)) && count == old(Window(sector)))
      ensures !ok ==> !valid && base == old(base) && count == old(count)
      ensures old(buf) != null ==> buf == old(buf)
    {
      if buf == null {
        if !env.alloc {
          return false;
        }
        buf := new byte[BUFFER];
      }
      var n := Window(sector);
      var start := Start(sector);
      ok := Direct(start, buf, 0, n, env.fill);
      if !ok {
        valid := false;
        return;
      }
      base, count, valid := start, n, true;
    }

    /** sd_read_cached_sector into sector `to` of the caller's buffer. */
    method ReadCached(sector: int, dst: array?<byte>, to: nat, env: Env) returns (ok: bool)
      requires Valid() && Int32(sector)
      requires dst != null ==> SECTOR * (to + 1) <= dst.Length && dst != buf
      modifies `base, `count, `buf, `valid, `last, `runLength, `history, buf, dst
      ensures Valid() && (buf == old(buf) || fresh(buf))
      ensures ok ==> dst != null && Slot(dst[..], to) == disk(Unsigned(sector))
      ensures dst != null ==> OutsideSame(old(dst[..]), dst[..], to, 1)
      ensures ok <==> dst != null && (old(Hit(sector)) || old(FillSucceeds(sector, env)) || Succeeds(env.single, 1))
      ensures history == old(history) + if dst != null && old(Hit(sector) || FillSucceeds(sector, env)) then [sector]
                else []
      ensures dst != null ==>
                if old(Hit(sector)) then valid && base == old(base) && count == old(count) && buf == old(buf)
                else if old(FillSucceeds(sector, env)) then valid && base == old(Start(sector))
                    && count == old(Window(sector))
                else !valid
    {
      hide Mirrors, OutsideSame, Slot, RunOf;
      if dst == null {
        return false;
      }
      if !Hit(sector) {
        var filled := Fill(sector, env);
        if !filled {
          ok := Direct(Unsigned(sector), dst, to, 1, env.single);
          if ok {
            OneMirrored(disk, dst[..], to, Unsigned(sector));
          }
          return;
        }
      }
      MirroredAt(disk, buf[..], base, count, Unsigned(sector));
      CopySector(buf[..], Unsigned(sector) - base, dst, to);
      Note(sector);
      return true;
    }

    // The sequential-read counter after a cached read.
    method Note(sector: int)
      requires Valid() && Int32(sector)
      modifies `last, `runLength, `history
      ensures Valid() && history == old(history) + [sector]
    {
      hide Mirrors;
      if Sequential(sector) {
        if runLength < UINT32 - 1 {
          runLength := runLength + 1;
        }
      } else {
        runLength := 0;
      }
      assert (history + [sector])[..|history|] == history;
      last, history := sector, history + [sector];
    }

    /** sd_dev_read_blocks: as many sectors as there are environments. */
    method ReadMany(sector: int, dst: array?<byte>, envs: seq<Env>) returns (ok: bool)
      requires Valid() && Int32(sector)
      requires dst != null ==> SECTOR * |envs| <= dst.Length && dst != buf
      modifies `base, `count, `buf, `valid, `last, `runLength, `history, buf, dst
      ensures Valid() && (buf == old(buf) || fresh(buf))
      ensures ok ==> dst != null && envs != [] && Mirrors(disk, dst[..], 0, Unsigned(sector), |envs|)
      ensures dst != null ==> OutsideSame(old(dst[..]), dst[..], 0, |envs|)
      ensures dst != null && envs != [] && (forall e :: e in envs ==> Succeeds(e.single, 1)) ==> ok
    {
      if dst == null || |envs| == 0 {
        return false;
      }
      hide Mirrors, OutsideSame, Slot, RunOf, Signed, Unsigned, Later, Cache.Hit, Cache.FillSucceeds, Cache.Start,
           Cache.Window, Cache.Sequential;
      NothingRead(disk, dst[..], Unsigned(sector));
      for i := 0 to |envs|
        invariant Valid() && (buf == old(buf) || fresh(buf)) && dst != buf
        invariant Mirrors(disk, dst[..], 0, Unsigned(sector), i)
        invariant OutsideSame(old(dst[..]), dst[..], 0, i)
      {
        ghost var was := dst[..];
        SignedLater(Unsigned(sector), i);
        ok := ReadCached(Signed(Unsigned(sector) + i), dst, i, envs[i]);
        OutsideMore(old(dst[..]), was, dst[..], 0, i);
        if !ok {
          OutsideGrows(old(dst[..]), dst[..], 0, i + 1, |envs|);
          return;
        }
        MirrorsMore(disk, was, dst[..], 0, Unsigned(sector), i);
      }
      return true;
    }

    /** sd_init as far as the cache goes */
    method Reset()
      requires Valid()
      modifies `count, `valid, `last, `runLength, `history
      ensures Valid() && !valid && count == 0 && history == []
    {
      valid, count, last, runLength, history := false, 0, -1, 0, [];
    }

    /** sd_dev_read followed, any time later, by sd_dev_read_done. */
    method Choose(sector: int)
      requires Valid()
      modifies `selected
      ensures Valid() && selected == Unsigned(sector)
    {
      selected := Unsigned(sector);
    }

    /** Every run of the driver: whatever the card and the allocator do, every read that succeeds returns
        the card's own sectors. */
    method Run(ops: seq<Op>, dst: array<byte>) returns (log: seq<Served>)
      requires Valid() && dst != buf && SECTOR <= dst.Length
      requires forall op :: op in ops && op.ReadMany? ==> Int32(op.sector) && SECTOR * |op.envs| <= dst.Length
      modifies this, buf, dst
      ensures Valid()
      ensures forall r :: r in log ==> r.bytes == disk(r.sector)
    {
      log := [];
      for i := 0 to |ops|
        invariant Valid() && (buf == old(buf) || fresh(buf)) && dst != buf
        invariant forall r :: r in log ==> r.bytes == disk(r.sector)
      {
        match ops[i]
        case Init => Reset();
        case Select(sector) => Choose(sector);
        case Read(env) =>
          var ok := ReadCached(Signed(selected), dst, 0, env);
          if ok {
            log := log + [Served(selected % UINT32, Slot(dst[..], 0))];
          }
        case ReadMany(sector, envs) =>
          var ok := ReadMany(sector, dst, envs);
          if ok {
            RowsMirrored(disk, dst[..], Unsigned(sector), |envs|);
            log := log + Rows(dst[..], Unsigned(sector), |envs|);
          }
      }
    }
  }
}
