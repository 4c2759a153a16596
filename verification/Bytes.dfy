/** Little-endian words in byte strings, as every wire format here lays them out. */
module Bytes {

  type byte = b: int | 0 <= b < 256

  function Le16(b: seq<byte>, off: nat): (v: nat)
    requires off + 2 <= |b|
    ensures v < 0x1_0000
  {
    (b[off] as int) + 0x100 * (b[off + 1] as int)
  }

  function Le32(b: seq<byte>, off: nat): (v: nat)
    requires off + 4 <= |b|
    ensures v < 0x1_0000_0000
  {
    Le16(b, off) + 0x1_0000 * Le16(b, off + 2)
  }

  function Le64(b: seq<byte>, off: nat): (v: nat)
    requires off + 8 <= |b|
    ensures v < 0x1_0000_0000_0000_0000
  {
    Le32(b, off) + 0x1_0000_0000 * Le32(b, off + 4)
  }

  function Put16(v: nat): (b: seq<byte>)
    ensures |b| == 2
  {
    [v % 0x100, v / 0x100 % 0x100]
  }

  function Put32(v: nat): (b: seq<byte>)
    ensures |b| == 4
  {
    Put16(v % 0x1_0000) + Put16(v / 0x1_0000)
  }

  lemma Le16Put16(v: nat)
    ensures Le16(Put16(v), 0) == v % 0x1_0000
  {
    TwoDigits(v, 0x100);
  }

  // Two digits of a number in base m are the number modulo m * m.
  lemma TwoDigits(v: nat, m: nat)
    requires m == 0x100 || m == 0x1_0000
    ensures v % (m * m) == v % m + m * (v / m % m)
  {
    var low, h := v % m, v / m;
    assert v == h * m + low && h == h / m * m + h % m;
    Unique(v, m * m, h / m, low + m * (h % m));
  }

  lemma Unique(v: nat, m: nat, q: nat, r: nat)
    requires r < m && v == q * m + r
    ensures v % m == r
  {
    var d := v / m - q;
    assert d * m == r - v % m;
    NoMultiple(d, m);
  }

  lemma NoMultiple(d: int, m: int)
    requires -m < d * m < m
    ensures d == 0
  {
  }

  lemma Le32Put32(v: nat)
    ensures Le32(Put32(v), 0) == v % 0x1_0000_0000
  {
    Le16Put16(v % 0x1_0000);
    Le16Put16(v / 0x1_0000);
    TwoDigits(v, 0x1_0000);
    hide Put16, Le16;
    Words(Put16(v % 0x1_0000), Put16(v / 0x1_0000));
  }

  lemma Words(a: seq<byte>, b: seq<byte>)
    requires |a| == 2 && |b| == 2
    ensures Le32(a + b, 0) == Le16(a, 0) + 0x1_0000 * Le16(b, 0)
  {
  }

  /** Reading a word only looks at its own bytes. */
  lemma Le32At(b: seq<byte>, off: nat, v: nat)
    requires off + 4 <= |b| && b[off..off + 4] == Put32(v)
    ensures Le32(b, off) == v % 0x1_0000_0000
  {
    var w := b[off..off + 4];
    assert w[0] == b[off] && w[1] == b[off + 1] && w[2] == b[off + 2] && w[3] == b[off + 3];
    Le32Put32(v);
  }

  lemma Le16At(b: seq<byte>, off: nat, v: nat)
    requires off + 2 <= |b| && b[off..off + 2] == Put16(v)
    ensures Le16(b, off) == v % 0x1_0000
  {
    var w := b[off..off + 2];
    assert w[0] == b[off] && w[1] == b[off + 1];
    Le16Put16(v);
  }

  function Zeros(n: nat): (b: seq<byte>)
    ensures |b| == n && forall i :: 0 <= i < n ==> b[i] == 0
  {
    seq(n, _ => 0)
  }
}
