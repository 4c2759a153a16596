/** The card-specific data register of the SD driver in q8b/kernel/bsp/sd.c (section 5.3 of the SD Physical
    Layer specification): four 32-bit words, most significant first. */
module Csd {
  const WORD: nat := 0x1_0000_0000
  const TOP: nat := WORD * WORD * WORD * WORD

  type Word = w: nat | w < WORD

  function Pow2(n: nat): (p: nat)
    ensures p > 0
  {
    if n == 0 then 1 else 2 * Pow2(n - 1)
  }

  // ---- Machine operators on naturals ----

  function Or(a: nat, b: nat): nat {
    if a == 0 && b == 0 then 0 else 2 * Or(a / 2, b / 2) + (if a % 2 == 1 || b % 2 == 1 then 1 else 0)
  }

  function And(a: nat, b: nat): nat
    decreases a
  {
    if a == 0 then 0 else 2 * And(a / 2, b / 2) + (if a % 2 == 1 && b % 2 == 1 then 1 else 0)
  }

  // x << n on 32 bits
  function Shl(x: Word, n: nat): Word { x * Pow2(n) % WORD }

  // x >> n
  function Shr(x: nat, n: nat): nat { Quotient(x, Pow2(n)) }

  function Quotient(x: nat, m: nat): nat
    requires m > 0
  {
    x / m
  }

  /** Or-ing into clear low bits is addition. */
  lemma {:induction false} OrIsSum(a: nat, b: nat, n: nat)
    requires b < Pow2(n)
    ensures Or(a * Pow2(n), b) == a * Pow2(n) + b
  {
    if n == 0 {
      OrZero(a);
    } else {
      var x := a * Pow2(n);
      assert x == 2 * (a * Pow2(n - 1));
      OrIsSum(a, b / 2, n - 1);
      assert x / 2 == a * Pow2(n - 1) && x % 2 == 0;
    }
  }

  lemma {:induction false} OrZero(a: nat)
    ensures Or(a, 0) == a
  {
    if a > 0 {
      OrZero(a / 2);
    }
  }

  lemma {:induction false} OrCommutes(a: nat, b: nat)
    ensures Or(a, b) == Or(b, a)
  {
    if a > 0 || b > 0 {
      OrCommutes(a / 2, b / 2);
    }
  }

  /** Masking with n ones is the remainder modulo 2^n. */
  lemma {:induction false} AndIsMod(a: nat, n: nat)
    ensures And(a, Pow2(n) - 1) == a % Pow2(n)
  {
    if n == 0 {
      AndZero(a);
    } else {
      var p := Pow2(n - 1);
      assert (2 * p - 1) / 2 == p - 1 && (2 * p - 1) % 2 == 1;
      AndIsMod(a / 2, n - 1);
      ModHalf(a, p);
    }
  }

  lemma {:induction false} AndZero(a: nat)
    ensures And(a, 0) == 0
  {
    if a > 0 {
      AndZero(a / 2);
    }
  }

  // ---- Arithmetic ----

  lemma DivModUnique(x: nat, m: nat, q: nat, r: nat)
    requires r < m && x == q * m + r
    ensures x / m == q && x % m == r
  {
    var d := x / m - q;
    assert x == (x / m) * m + x % m;
    assert d * m == r - x % m;
    SmallMultiple(d, m);
  }

  lemma SmallMultiple(d: int, m: int)
    requires -m < d * m < m
    ensures d == 0
  {
  }

  lemma Regroup(a: nat, b: nat, c: nat)
    ensures a * (b * c) == (a * b) * c == (a * c) * b
  {
  }

  lemma ModHalf(a: nat, p: nat)
    requires p > 0
    ensures a % (2 * p) == 2 * ((a / 2) % p) + a % 2
  {
    var q, r := a / 2 / p, a / 2 % p;
    assert a / 2 == q * p + r;
    DivModUnique(a, 2 * p, q, 2 * r + a % 2);
  }

  lemma {:induction false} Pow2Add(m: nat, n: nat)
    ensures Pow2(m + n) == Pow2(m) * Pow2(n)
  {
    if m > 0 {
      Pow2Add(m - 1, n);
    }
  }

  lemma Pow2Word()
    ensures Pow2(8) == 256 && Pow2(24) == 0x100_0000 && Pow2(32) == WORD
  {
    Pow2Add(16, 8);
    Pow2Add(24, 8);
  }

  lemma DivDiv(x: nat, a: nat, b: nat)
    requires a > 0 && b > 0
    ensures a * b > 0 && x / (a * b) == x / a / b
  {
    var q, r, s := x / a / b, x / a % b, x % a;
    Positional(x, x / a, a, b, q, r, s);
    DivModUnique(x, a * b, q, r * a + s);
  }

  lemma Positional(x: nat, y: nat, a: nat, b: nat, q: nat, r: nat, s: nat)
    requires x == y * a + s && y == q * b + r && s < a && r < b
    ensures x == q * (a * b) + (r * a + s) && r * a + s < a * b
  {
    Distribute(q * b, r, a);
    Regroup(q, b, a);
    Distribute(r, 1, a);
    Monotone(r + 1, b, a);
  }

  lemma Monotone(a: nat, b: nat, c: nat)
    requires a <= b
    ensures a * c <= b * c
  {
  }

  lemma Distribute(a: nat, b: nat, c: nat)
    ensures (a + b) * c == a * c + b * c
  {
  }

  lemma DivSum(q: nat, r: nat, m: nat)
    requires m > 0
    ensures (q * m + r) / m == q + r / m && (q * m + r) % m == r % m
  {
    DivModUnique(q * m + r, m, q + r / m, r % m);
  }

  // Bits [k, k + n) of a number do not depend on what lies at bit w or above.
  lemma FieldBelow(hi: nat, lo: nat, w: nat, k: nat, n: nat)
    requires k + n <= w
    ensures (hi * Pow2(w) + lo) / Pow2(k) % Pow2(n) == lo / Pow2(k) % Pow2(n)
  {
    hide Pow2;
    var r, pn, pk := Pow2(w - k - n), Pow2(n), Pow2(k);
    Pow2Add(w - k - n, n);
    Pow2Add(w - k, k);
    var e := hi * r;
    Regroup(hi, r * pn, pk);
    Regroup(hi, r, pn);
    assert hi * Pow2(w) == (e * pn) * pk;
    DivSum(e * pn, lo, pk);
    DivSum(e, lo / pk, pn);
  }

  // ---- The register ----

  /** The number held by the words r[..j + 1]. */
  function High(r: seq<Word>, j: nat): nat
    requires j < |r|
  {
    (if j == 0 then 0 else High(r, j - 1) * WORD) + r[j]
  }

  function Value(r: seq<Word>): nat
    requires |r| == 4
  {
    High(r, 3)
  }

  /** Bits [start, start + size) of a number. */
  function Field(v: nat, start: nat, size: nat): nat { v / Pow2(start) % Pow2(size) }

  predicate InRange(start: nat, size: nat) { start < 128 && start + size <= 128 && size <= 32 }

  /** sd_unstuff_bits */
  function UnstuffBits(r: seq<Word>, start: nat, size: nat): nat
    requires |r| == 4 && InRange(start, size)
  {
    var off, shift := 3 - start / 32, start % 32;
    var mask := if size < 32 then (Shl(1, size) + WORD - 1) % WORD else WORD - 1;
    var low := Shr(r[off], shift);
    And(if size + shift > 32 then Or(low, Shl(r[off - 1], 32 - shift)) else low, mask)
  }

  lemma {:induction false} HighShift(r: seq<Word>, j: nat)
    requires |r| == 4 && j < 4
    ensures Value(r) / Pow2(32 * (3 - j)) == High(r, j)
    decreases 4 - j
  {
    if j < 3 {
      HighShift(r, j + 1);
      Pow2Add(32 * (2 - j), 32);
      Pow2Word();
      DivDiv(Value(r), Pow2(32 * (2 - j)), WORD);
      DivSum(High(r, j), r[j + 1], WORD);
    }
  }

  lemma SmallModulo(x: nat, m: nat)
    requires 0 < x < m
    ensures 1 * x % m == x && (x + m - 1) % m == x - 1
  {
    DivModUnique(x, m, 0, x);
    DivModUnique(x + m - 1, m, 1, x - 1);
  }

  lemma {:induction false} Fits(n: nat)
    requires n < 32
    ensures Pow2(n) < WORD
    decreases 32 - n
  {
    if n == 31 {
      Pow2Word();
    } else {
      Fits(n + 1);
    }
  }

  lemma Mask(size: nat)
    requires size <= 32
    ensures (if size < 32 then (Shl(1, size) + WORD - 1) % WORD else WORD - 1) == Pow2(size) - 1
  {
    Pow2Word();
    hide Pow2;
    if size < 32 {
      Fits(size);
      SmallModulo(Pow2(size), WORD);
    }
  }

  // A field inside one word.
  lemma Inside(r: seq<Word>, off: nat, k: nat, size: nat)
    requires |r| == 4 && off < 4 && k + size <= 32
    ensures Field(High(r, off), k, size) == r[off] / Pow2(k) % Pow2(size)
  {
    Pow2Word();
    hide Pow2;
    FieldBelow(if off == 0 then 0 else High(r, off - 1), r[off], 32, k, size);
  }

  // The left shift of the upper word keeps the bits that fit.
  lemma Carried(x: Word, k: nat) returns (q: nat, s: nat)
    requires k <= 32
    ensures x * Pow2(32 - k) == q * WORD + s * Pow2(32 - k) && Shl(x, 32 - k) == s * Pow2(32 - k)
  {
    Pow2Word();
    hide Pow2;
    Pow2Add(k, 32 - k);
    q, s := x / Pow2(k), x % Pow2(k);
    SplitMultiple(x, Pow2(k), Pow2(32 - k), q, s);
    DivModUnique(x * Pow2(32 - k), WORD, q, s * Pow2(32 - k));
  }

  lemma SplitMultiple(x: nat, p: nat, m: nat, q: nat, s: nat)
    requires x == q * p + s && s < p && m > 0
    ensures x * m == q * (p * m) + s * m && s * m < p * m
  {
    Distribute(q * p, s, m);
    Regroup(q, p, m);
    Distribute(s, 1, m);
    Monotone(s + 1, p, m);
  }

  // A field that crosses into the next word.
  lemma Across(r: seq<Word>, off: nat, k: nat, size: nat)
    requires |r| == 4 && 0 < off < 4 && k < 32 && 32 < k + size && size <= 32
    ensures Field(High(r, off), k, size) == Or(Shr(r[off], k), Shl(r[off - 1], 32 - k)) % Pow2(size)
  {
    hide Pow2, Or, Shl, High;
    Pow2Word();
    var pair := r[off - 1] * WORD + r[off];
    CutPair(r, off, k, size);
    var p, m := Pow2(k), Pow2(32 - k);
    Pow2Add(32 - k, k);
    Regroup(r[off - 1], m, p);
    var low := r[off] / p;
    DivSum(r[off - 1] * m, r[off], p);
    var q, s := Carried(r[off - 1], k);
    Below(r[off], m, p);
    OrIsSum(s, low, 32 - k);
    OrCommutes(low, s * m);
    assert pair / p == q * WORD + (s * m + low);
    Reduce(q, s * m + low, size);
  }

  lemma Below(x: nat, m: nat, p: nat)
    requires p > 0 && x < m * p
    ensures x / p < m
  {
    if x / p >= m {
      Monotone(m, x / p, p);
    }
  }

  lemma Reduce(q: nat, x: nat, size: nat)
    requires size <= 32
    ensures (q * WORD + x) % Pow2(size) == x % Pow2(size)
  {
    hide Pow2;
    Pow2Word();
    Pow2Add(32 - size, size);
    Regroup(q, Pow2(32 - size), Pow2(size));
    DivSum(q * Pow2(32 - size), x, Pow2(size));
  }

  lemma HighPair(r: seq<Word>, off: nat) returns (hi: nat)
    requires |r| == 4 && 0 < off < 4
    ensures High(r, off) == hi * (WORD * WORD) + (r[off - 1] * WORD + r[off])
  {
    hi := if off == 1 then 0 else High(r, off - 2);
  }

  lemma CutPair(r: seq<Word>, off: nat, k: nat, size: nat)
    requires |r| == 4 && 0 < off < 4 && k < 32 && size <= 32
    ensures Field(High(r, off), k, size) == (r[off - 1] * WORD + r[off]) / Pow2(k) % Pow2(size)
  {
    Pow2Word();
    Pow2Add(32, 32);
    hide Pow2;
    var hi := HighPair(r, off);
    FieldBelow(hi, r[off - 1] * WORD + r[off], 64, k, size);
  }

  /** Bit extraction over the four words is shifting and masking the 128-bit number. */
  lemma UnstuffIsField(r: seq<Word>, start: nat, size: nat)
    requires |r| == 4 && InRange(start, size)
    ensures UnstuffBits(r, start, size) == Field(Value(r), start, size)
  {
    hide Pow2, And, Or, High, Shl, Field;
    var off, k := 3 - start / 32, start % 32;
    Mask(size);
    AndIsMod(if size + k > 32 then Or(Shr(r[off], k), Shl(r[off - 1], 32 - k)) else Shr(r[off], k), size);
    FieldOfHigh(r, start, size);
    if size + k > 32 {
      Across(r, off, k, size);
    } else {
      Inside(r, off, k, size);
    }
  }

  lemma FieldOfHigh(r: seq<Word>, start: nat, size: nat)
    requires |r| == 4 && InRange(start, size)
    ensures Field(Value(r), start, size) == Field(High(r, 3 - start / 32), start % 32, size)
  {
    hide Pow2, High;
    var w, k := start / 32, start % 32;
    HighShift(r, 3 - w);
    Pow2Add(32 * w, k);
    DivDiv(Value(r), Pow2(32 * w), Pow2(k));
  }

  // ---- The response registers ----

  /** sdcc2_response136: the registers hold bits [127:8] of the register, least significant word first; the
      words end up most significant first with the register moved up by one byte. */
  method Response136(response: array<Word>, regs: seq<Word>)
    requires response.Length == 4 && |regs| == 4
    modifies response
    ensures Value(response[..]) == Value([regs[3], regs[2], regs[1], regs[0]]) * 256 % TOP
  {
    for i := 0 to 4
      invariant forall k :: 0 <= k < i ==> response[k] == regs[3 - k]
    {
      response[i] := regs[3 - i];
    }
    ghost var w := response[..];
    for i := 0 to 4
      invariant forall k :: 0 <= k < i ==> response[k] == Shifted(w, k)
      invariant forall k :: i <= k < 4 ==> response[k] == w[k]
    {
      Pow2Word();
      response[i] := Shl(response[i], 8);
      if i != 3 {
        OrByte(w, i);
        response[i] := Or(response[i], Shr(response[i + 1], 24));
      }
    }
    assert w == [regs[3], regs[2], regs[1], regs[0]];
    ShiftedValue(w, response[..]);
  }

  // Word k of a register moved up by one byte.
  ghost function Shifted(w: seq<Word>, k: nat): nat
    requires |w| == 4 && k < 4
  {
    w[k] * 256 % WORD + if k == 3 then 0 else w[k + 1] / 0x100_0000
  }

  lemma OrByte(w: seq<Word>, k: nat)
    requires |w| == 4 && k < 3
    ensures Or(Shl(w[k], 8), Shr(w[k + 1], 24)) == Shifted(w, k) < WORD
  {
    Pow2Word();
    hide Pow2, Or;
    var a, b := w[k] % 0x100_0000, w[k + 1] / 0x100_0000;
    assert w[k] * 256 % WORD == a * 256;
    OrIsSum(a, b, 8);
  }

  lemma ShiftedValue(w: seq<Word>, r: seq<Word>)
    requires |w| == 4 && |r| == 4 && forall k :: 0 <= k < 4 ==> r[k] == Shifted(w, k)
    ensures Value(r) == Value(w) * 256 % TOP
  {
    assert r[0] == Shifted(w, 0) && r[1] == Shifted(w, 1) && r[2] == Shifted(w, 2) && r[3] == Shifted(w, 3);
    FourWords(w);
    FourWords(r);
    ByteUp(w[0]);
    ByteUp(w[1]);
    ByteUp(w[2]);
    ByteUp(w[3]);
    hide Value, Shifted;
    Recombine(w[0], w[1], w[2], w[3], w[0] / 0x100_0000, w[1] / 0x100_0000, w[2] / 0x100_0000, w[3] / 0x100_0000);
    DivModUnique(Value(w) * 256, TOP, w[0] / 0x100_0000, Value(r));
  }

  lemma ByteUp(x: Word)
    ensures x * 256 % WORD == x * 256 - x / 0x100_0000 * WORD
  {
  }

  lemma Recombine(a: nat, b: nat, c: nat, d: nat, ha: nat, hb: nat, hc: nat, hd: nat)
    ensures (((a * WORD + b) * WORD + c) * WORD + d) * 256
         == ha * TOP + ((((a * 256 - ha * WORD) + hb) * WORD + ((b * 256 - hb * WORD) + hc)) * WORD
                        + ((c * 256 - hc * WORD) + hd)) * WORD
            + (d * 256 - hd * WORD)
  {
  }

  lemma FourWords(r: seq<Word>)
    requires |r| == 4
    ensures Value(r) == ((r[0] * WORD + r[1]) * WORD + r[2]) * WORD + r[3] < TOP
  {
    assert High(r, 1) == r[0] * WORD + r[1];
    assert High(r, 2) == High(r, 1) * WORD + r[2];
  }

  // ---- Capacity ----

  function Shl64(x: nat, n: nat): nat { x * Pow2(n) % (WORD * WORD) }

  /** sdcc2_capacity_sectors */
  function CapacitySectors(csd: seq<Word>): nat
    requires |csd| == 4
  {
    var structure := UnstuffBits(csd, 126, 2);
    if structure == 1 || structure == 2 then
      Shl64(UnstuffBits(csd, 48, if structure == 1 then 22 else 28) + 1, 10)
    else if structure != 0 then 0
    else
      var capacity := Shl64(UnstuffBits(csd, 62, 12) + 1, UnstuffBits(csd, 47, 3) + 2);
      var readBlockBits := UnstuffBits(csd, 80, 4);
      if readBlockBits >= 9 then Shl64(capacity, readBlockBits - 9) else Shr(capacity, 9 - readBlockBits)
  }

  /** The size of the card in bytes, as the specification computes it from the register. */
  function CapacityBytes(v: nat): int {
    match Field(v, 126, 2)
    case 0 => (Field(v, 62, 12) + 1) * Pow2(Field(v, 47, 3) + 2) * Pow2(Field(v, 80, 4))
    case 1 => (Field(v, 48, 22) + 1) * 512 * 1024
    case 2 => (Field(v, 48, 28) + 1) * 512 * 1024
    case _ => 0
  }

  /** The driver's sector count is the specified capacity in 512-byte sectors, for every register value. */
  lemma CapacityIsSpecified(csd: seq<Word>)
    requires |csd| == 4
    ensures CapacitySectors(csd) == CapacityBytes(Value(csd)) / 512
  {
    hide Pow2, UnstuffBits, Field, Value;
    UnstuffIsField(csd, 126, 2);
    UnstuffIsField(csd, 48, 22);
    UnstuffIsField(csd, 48, 28);
    UnstuffIsField(csd, 62, 12);
    UnstuffIsField(csd, 47, 3);
    UnstuffIsField(csd, 80, 4);
    var v := Value(csd);
    FieldBound(v, 126, 2);
    FieldBound(v, 48, 22);
    FieldBound(v, 48, 28);
    FieldBound(v, 62, 12);
    FieldBound(v, 47, 3);
    FieldBound(v, 80, 4);
    SmallPowers();
    ByteCapacity(Field(v, 62, 12) + 1, Field(v, 47, 3) + 2, Field(v, 80, 4));
  }

  lemma FieldBound(v: nat, start: nat, size: nat)
    ensures Field(v, start, size) < Pow2(size)
  {
  }

  lemma SmallPowers()
    ensures Pow2(2) == 4 && Pow2(3) == 8 && Pow2(4) == 16 && Pow2(9) == 512 && Pow2(10) == 1024 && Pow2(12) == 4096
    ensures Pow2(22) == 0x40_0000 && Pow2(28) == 0x1000_0000
  {
    Pow2Add(10, 12);
    Pow2Add(16, 12);
  }

  lemma {:induction false} PowerBound(n: nat)
    requires n <= 9
    ensures Pow2(n) <= 512
    decreases 9 - n
  {
    if n < 9 {
      PowerBound(n + 1);
    } else {
      SmallPowers();
    }
  }

  // (blocks << e) << (bits - 9), or >> (9 - bits), is blocks * 2^e * 2^bits / 512, and nothing overflows.
  lemma ByteCapacity(blocks: nat, e: nat, bits: nat)
    requires blocks <= 4096 && e <= 9 && bits < 16
    ensures var capacity := Shl64(blocks, e);
            (if bits >= 9 then Shl64(capacity, bits - 9) else Shr(capacity, 9 - bits))
                == blocks * Pow2(e) * Pow2(bits) / 512
  {
    hide Pow2, Shl64, Shr;
    PowerBound(e);
    Product(blocks, 4096, Pow2(e), 512);
    NoWrap(blocks, e);
    var capacity := blocks * Pow2(e);
    if bits >= 9 {
      PowerBound(bits - 9);
      Product(capacity, 4096 * 512, Pow2(bits - 9), 512);
      NoWrap(capacity, bits - 9);
      UpBlocks(capacity, bits);
    } else {
      DownBlocks(capacity, bits);
    }
  }

  lemma NoWrap(x: nat, n: nat)
    requires x * Pow2(n) <= 4096 * 512 * 512
    ensures Shl64(x, n) == x * Pow2(n)
  {
  }

  lemma UpBlocks(capacity: nat, bits: nat)
    requires bits >= 9
    ensures capacity * Pow2(bits - 9) == capacity * Pow2(bits) / 512
  {
    SmallPowers();
    hide Pow2;
    Pow2Add(bits - 9, 9);
    Regroup(capacity, Pow2(bits - 9), 512);
    DivSum(capacity * Pow2(bits - 9), 0, 512);
  }

  lemma DownBlocks(capacity: nat, bits: nat)
    requires bits < 9
    ensures Shr(capacity, 9 - bits) == capacity * Pow2(bits) / 512
  {
    SmallPowers();
    hide Pow2;
    Pow2Add(bits, 9 - bits);
    DivDiv(capacity * Pow2(bits), Pow2(bits), Pow2(9 - bits));
    DivSum(capacity, 0, Pow2(bits));
  }

  lemma Product(a: nat, x: nat, b: nat, y: nat)
    requires a <= x && b <= y
    ensures a * b <= x * y
  {
    Monotone(a, x, b);
    Monotone(b, y, x);
  }
}
