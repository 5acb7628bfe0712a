/**
  Byte buffers and numbers in little-endian order.
 */
module ByteOrder {
  import opened Bits

  type Bytes = seq<u8>

  // The number stored in the n bytes from the given offset
  function LE(b: Bytes, offset: nat, n: nat): nat
    requires offset + n <= |b|
    decreases n
  {
    if n == 0 then 0 else b[offset] + 0x100 * LE(b, offset + 1, n - 1)
  }

  function Power256(n: nat): (p: nat)
    ensures p > 0
  {
    if n == 0 then 1 else 0x100 * Power256(n - 1)
  }

  lemma {:induction false} LEBound(b: Bytes, offset: nat, n: nat)
    requires offset + n <= |b|
    ensures LE(b, offset, n) < Power256(n)
    decreases n
  {
    if n > 0 {
      LEBound(b, offset + 1, n - 1);
    }
  }

  lemma Power256s()
    ensures Power256(1) == 0x100 && Power256(2) == 0x1_0000 && Power256(4) == 0x1_0000_0000
    ensures Power256(8) == 0x1_0000_0000_0000_0000
  {
    assert Power256(3) == 0x100_0000;
    assert Power256(5) == 0x100_0000_0000;
    assert Power256(6) == 0x1_0000_0000_0000;
    assert Power256(7) == 0x100_0000_0000_0000;
  }

  /** Equal bytes hold equal numbers, wherever they stand. */
  lemma {:induction false} LESame(b: Bytes, b': Bytes, offset: nat, offset': nat, n: nat)
    requires offset + n <= |b| && offset' + n <= |b'|
    requires b[offset..offset + n] == b'[offset'..offset' + n]
    ensures LE(b, offset, n) == LE(b', offset', n)
    decreases n
  {
    if n > 0 {
      var s, s' := b[offset..offset + n], b'[offset'..offset' + n];
      assert b[offset] == s[0] && b'[offset'] == s'[0];
      assert b[offset + 1..offset + n] == s[1..] && b'[offset' + 1..offset' + n] == s'[1..];
      LESame(b, b', offset + 1, offset' + 1, n - 1);
    }
  }

  function U16(b: Bytes, offset: nat): (x: nat)
    requires offset + 2 <= |b|
    ensures x < 0x1_0000
  {
    LEBound(b, offset, 2); Power256s();
    LE(b, offset, 2)
  }

  function U32(b: Bytes, offset: nat): (x: u32)
    requires offset + 4 <= |b|
  {
    LEBound(b, offset, 4); Power256s();
    LE(b, offset, 4)
  }

  function U64(b: Bytes, offset: nat): (x: u64)
    requires offset + 8 <= |b|
  {
    LEBound(b, offset, 8); Power256s();
    LE(b, offset, 8)
  }

  // The n bytes of a number, lowest first
  function ToBytes(x: nat, n: nat): (b: Bytes)
    ensures |b| == n
  {
    if n == 0 then [] else [x % 0x100] + ToBytes(x / 0x100, n - 1)
  }

  /** Writing a number and reading it back yields its value modulo the width. */
  lemma {:induction false} ReadBack(x: nat, n: nat)
    ensures LE(ToBytes(x, n), 0, n) == x % Power256(n)
  {
    if n > 0 {
      var rest := ToBytes(x / 0x100, n - 1);
      ReadBack(x / 0x100, n - 1);
      assert ToBytes(x, n)[1..1 + (n - 1)] == rest[0..0 + (n - 1)];
      LESame(ToBytes(x, n), rest, 1, 0, n - 1);
      SplitRemainder(x, Power256(n - 1));
    }
  }

  lemma SplitRemainder(x: nat, p: nat)
    requires p > 0
    ensures x % (0x100 * p) == x % 0x100 + 0x100 * (x / 0x100 % p)
  {
    var h := x / 0x100;
    var q, r := h / p, h % p;
    assert x == (0x100 * p) * q + (0x100 * r + x % 0x100) by {
      assert h == p * q + r;
      assert (0x100 * p) * q == 0x100 * (p * q);
    }
    RemainderUnique(x, 0x100 * p, q, 0x100 * r + x % 0x100);
  }

  /** The bytes at an offset are the bytes of the number read there. */
  lemma {:induction false} WriteBack(b: Bytes, offset: nat, n: nat)
    requires offset + n <= |b|
    ensures ToBytes(LE(b, offset, n), n) == b[offset..offset + n]
    decreases n
  {
    if n > 0 {
      WriteBack(b, offset + 1, n - 1);
      var x := LE(b, offset, n);
      assert x % 0x100 == b[offset] && x / 0x100 == LE(b, offset + 1, n - 1);
      assert b[offset..offset + n] == [b[offset]] + b[offset + 1..offset + n];
    }
  }

  // The buffer with other bytes from the given offset on
  function CopyInto(b: Bytes, at: nat, src: Bytes): (r: Bytes)
    requires at + |src| <= |b|
    ensures |r| == |b|
  {
    b[..at] + src + b[at + |src|..]
  }

  // ---------------------------------------------------------------- reading what was written somewhere

  lemma ReadPart(b: Bytes, at: nat, x: nat, n: nat)
    requires at + n <= |b| && b[at..at + n] == ToBytes(x, n) && x < Power256(n)
    ensures LE(b, at, n) == x
  {
    hide LE, Power256, ToBytes;
    var w := ToBytes(x, n);
    assert w[0..0 + n] == w;
    LESame(b, w, at, 0, n);
    ReadBack(x, n);
    SmallRemainder(x, Power256(n));
  }

  lemma SmallRemainder(x: nat, p: nat)
    requires x < p
    ensures x % p == x
  {
  }

  lemma SliceOfSlice(b: Bytes, cur: nat, n: nat, i: nat, j: nat)
    requires cur + n <= |b| && i <= j <= n
    ensures b[cur..cur + n][i..j] == b[cur + i..cur + j]
  {
    var s, t := b[cur..cur + n][i..j], b[cur + i..cur + j];
    assert |s| == |t| && forall k :: 0 <= k < |s| ==> s[k] == t[k];
  }

  /** A part that stands in front of the rest. */
  lemma NextPart(b: Bytes, at: nat, part: Bytes, rest: Bytes)
    requires at + |part| + |rest| <= |b| && b[at..at + |part| + |rest|] == part + rest
    ensures b[at..at + |part|] == part && b[at + |part|..at + |part| + |rest|] == rest
  {
    SliceOfSlice(b, at, |part| + |rest|, 0, |part|);
    SliceOfSlice(b, at, |part| + |rest|, |part|, |part| + |rest|);
  }

  /** The first byte is the lowest: the value of a field, digit by digit. */
  lemma LowestFirst(b: Bytes, at: nat)
    ensures at + 2 <= |b| ==> U16(b, at) == 0x100 * (b[at + 1] as int) + b[at] as int
    ensures at + 4 <= |b| ==>
              U32(b, at) == 0x100_0000 * (b[at + 3] as int) + 0x1_0000 * (b[at + 2] as int)
                            + 0x100 * (b[at + 1] as int) + b[at] as int
    ensures at + 8 <= |b| ==> U64(b, at) == 0x1_0000_0000 * U32(b, at + 4) + U32(b, at)
  {
  }
}
