/**
  The memory and string functions of the freestanding runtime, over one flat memory addressed by byte.
  A long has four bytes.
 */
module Runtime {
  import opened Bits
  import opened ByteOrder

  datatype Pointer = Null | At(address: nat)

  // ---------------------------------------------------------------- memcpy

  // Some byte belongs to both ranges
  ghost predicate RangesMeet(s: nat, t: nat, size: nat)
  {
    exists x :: InRange(x, s, size) && InRange(x, t, size)
  }

  predicate InRange(x: nat, s: nat, size: nat)
  {
    s <= x < s + size
  }

  /** The two comparisons of memcpy detect exactly the overlaps of two different ranges. */
  lemma OverlapTest(destination: nat, source: nat, size: nat)
    requires destination != source
    ensures (destination < source && destination + size > source)
            || (source < destination && source + size > destination)
            <==> RangesMeet(destination, source, size)
  {
    if destination < source && destination + size > source {
      assert InRange(source, destination, size) && InRange(source, source, size);
    } else if source < destination && source + size > destination {
      assert InRange(destination, destination, size) && InRange(destination, source, size);
    }
  }

  // The first n bytes were copied, and nothing else changed
  ghost predicate CopiedUpTo(b: Bytes, b': Bytes, destination: nat, source: nat, n: nat)
    requires destination + n <= |b| && source + n <= |b|
  {
    |b'| == |b| && forall x :: 0 <= x < |b| ==> b'[x] == CopiedByte(b, destination, source, n, x)
  }

  function CopiedByte(b: Bytes, destination: nat, source: nat, n: nat, x: nat): u8
    requires destination + n <= |b| && source + n <= |b| && x < |b|
  {
    if InRange(x, destination, n) then b[source + (x - destination)] else b[x]
  }

  method CopyByte(mem: array<u8>, destination: nat, source: nat)
    requires destination < mem.Length && source < mem.Length
    modifies mem
    ensures mem[..] == CopyInto(old(mem[..]), destination, old(mem[source..source + 1]))
  {
    mem[destination] := mem[source];
  }

  // *destination = *source for longs; the store is aligned
  method CopyWord(mem: array<u8>, destination: nat, source: nat)
    requires destination % 4 == 0
    requires destination + 4 <= mem.Length && source + 4 <= mem.Length
    modifies mem
    ensures mem[..] == CopyInto(old(mem[..]), destination, old(mem[source..source + 4]))
  {
    ghost var before := mem[..];
    var word := U32(mem[..], source);
    var bytes := ToBytes(word, 4);
    WordIsBytes(before, source);
    hide *;
    assert before[source..source + 4] == mem[source..source + 4];
    mem[destination], mem[destination + 1], mem[destination + 2], mem[destination + 3] :=
      bytes[0], bytes[1], bytes[2], bytes[3];
    FourBytes(before, mem[..], destination, bytes);
  }

  lemma WordIsBytes(b: Bytes, at: nat)
    requires at + 4 <= |b|
    ensures ToBytes(U32(b, at), 4) == b[at..at + 4]
  {
    hide LE, ToBytes;
    WriteBack(b, at, 4);
  }

  lemma FourBytes(b: Bytes, b': Bytes, at: nat, w: Bytes)
    requires at + 4 <= |b| && |w| == 4
    requires b' == b[at := w[0]][at + 1 := w[1]][at + 2 := w[2]][at + 3 := w[3]]
    ensures b' == CopyInto(b, at, w)
  {
  }

  // The copy of size bytes between ranges that are apart has come to byte n
  ghost predicate CopyingAt(b: Bytes, b': Bytes, destination: nat, source: nat, size: nat, n: nat)
  {
    && n <= size && destination + size <= |b| && source + size <= |b|
    && (destination + size <= source || source + size <= destination)
    && CopiedUpTo(b, b', destination, source, n)
  }

  lemma CopyStep(b: Bytes, b': Bytes, b'': Bytes, destination: nat, source: nat, size: nat, n: nat, k: nat)
    requires CopyingAt(b, b', destination, source, size, n) && n + k <= size
    requires |b'| == |b| && b'' == CopyInto(b', destination + n, b'[source + n..source + n + k])
    ensures CopyingAt(b, b'', destination, source, size, n + k)
  {
    var part := b'[source + n..source + n + k];
    forall x | 0 <= x < |b|
      ensures b''[x] == CopiedByte(b, destination, source, n + k, x)
    {
      CopiedAt(b', destination + n, part, x);
      if InRange(x, destination + n, k) {
        var y := source + (x - destination);
        assert part[x - (destination + n)] == b'[y] == CopiedByte(b, destination, source, n, y);
      } else {
        assert b'[x] == CopiedByte(b, destination, source, n, x);
      }
    }
  }

  lemma CopiedAt(b: Bytes, at: nat, src: Bytes, x: nat)
    requires at + |src| <= |b| && x < |b|
    ensures CopyInto(b, at, src)[x] == if InRange(x, at, |src|) then src[x - at] else b[x]
  {
  }

  lemma CopyStarts(b: Bytes, destination: nat, source: nat, size: nat)
    requires destination != source && destination + size <= |b| && source + size <= |b|
    requires !RangesMeet(destination, source, size) && size > 0
    ensures CopyingAt(b, b, destination, source, size, 0)
  {
    OverlapTest(destination, source, size);
  }

  lemma CopyDone(b: Bytes, b': Bytes, destination: nat, source: nat, size: nat)
    requires CopyingAt(b, b', destination, source, size, size)
    ensures b' == CopyInto(b, destination, b[source..source + size])
  {
    var part := b[source..source + size];
    forall x | 0 <= x < |b|
      ensures b'[x] == CopyInto(b, destination, part)[x]
    {
      CopiedAt(b, destination, part, x);
      assert b'[x] == CopiedByte(b, destination, source, size, x);
    }
  }

  lemma LowBits(x: nat)
    ensures And(x, 3) == x % 4
  {
    PowersOfTwo();
    AndLowOnes(x, 2);
  }

  // First phase: byte by byte until the destination is aligned
  method CopyHead(mem: array<u8>, dst: nat, src: nat, size: nat, ghost before: Bytes) returns (n: nat)
    requires |before| == mem.Length && CopyingAt(before, mem[..], dst, src, size, 0)
    modifies mem
    ensures CopyingAt(before, mem[..], dst, src, size, n) && n <= size
    ensures n < size ==> (dst + n) % 4 == 0
  {
    hide CopyInto, And, CopiedUpTo;
    var destination, source, sz := dst, src, size;
    n := 0;
    LowBits(destination);
    while sz > 0 && And(destination, 3) != 0
      invariant 0 <= sz && n + sz == size && destination == dst + n && source == src + n
      invariant And(destination, 3) == destination % 4
      invariant CopyingAt(before, mem[..], dst, src, size, n)
    {
      ghost var now := mem[..];
      CopyByte(mem, destination, source);
      CopyStep(before, now, mem[..], dst, src, size, n, 1);
      destination, source, sz, n := destination + 1, source + 1, sz - 1, n + 1;
      LowBits(destination);
    }
  }

  // Second phase: word by word, with aligned stores
  method CopyWords(mem: array<u8>, destination: nat, source: nat, count: nat,
                   ghost before: Bytes, ghost dst: nat, ghost src: nat, ghost size: nat, ghost n: nat)
    requires |before| == mem.Length && CopyingAt(before, mem[..], dst, src, size, n)
    requires destination == dst + n && source == src + n && n + 4 * count <= size
             && (count > 0 ==> destination % 4 == 0)
    modifies mem
    ensures CopyingAt(before, mem[..], dst, src, size, n + 4 * count)
  {
    hide CopyInto, CopiedUpTo;
    var i := 0;
    while i < count
      invariant 0 <= i <= count
      invariant CopyingAt(before, mem[..], dst, src, size, n + 4 * i)
    {
      ghost var now := mem[..];
      CopyWord(mem, destination + 4 * i, source + 4 * i);
      CopyStep(before, now, mem[..], dst, src, size, n + 4 * i, 4);
      i := i + 1;
    }
  }

  // Third phase: the remaining bytes
  method CopyTail(mem: array<u8>, destination: nat, source: nat, v: nat,
                  ghost before: Bytes, ghost dst: nat, ghost src: nat, ghost size: nat, ghost n: nat)
    requires |before| == mem.Length && CopyingAt(before, mem[..], dst, src, size, n)
    requires destination == dst + n && source == src + n && n + v == size
    modifies mem
    ensures CopyingAt(before, mem[..], dst, src, size, size)
  {
    hide CopyInto, CopiedUpTo;
    var i := 0;
    while i < v
      invariant 0 <= i <= v
      invariant CopyingAt(before, mem[..], dst, src, size, n + i)
    {
      ghost var now := mem[..];
      CopyByte(mem, destination + i, source + i);
      CopyStep(before, now, mem[..], dst, src, size, n + i, 1);
      i := i + 1;
    }
  }

  /** memcpy refines the copy of one byte range over another, for every size and alignment; a partial
      overlap is refused and changes nothing. */
  method Memcpy(mem: array<u8>, dst: nat, src: nat, size: nat) returns (r: Pointer)
    requires dst + size <= mem.Length && src + size <= mem.Length
    modifies mem
    ensures r == if dst != src && RangesMeet(dst, src, size) then Null else At(dst)
    ensures mem[..] == if r == Null then old(mem[..]) else CopyInto(old(mem[..]), dst, old(mem[src..src + size]))
  {
    ghost var before := mem[..];
    assert before[src..src + size] == mem[src..src + size];
    if size == 0 || dst == src {
      assert CopyInto(before, dst, before[src..src + size]) == before;
      return At(dst);
    }
    OverlapTest(dst, src, size);
    if (dst < src && dst + size > src) || (src < dst && src + size > dst) {
      return Null;
    }
    CopyStarts(before, dst, src, size);
    hide RangesMeet, CopyingAt, CopyInto;
    var head := CopyHead(mem, dst, src, size, before);
    var sz := size - head;
    CopyWords(mem, dst + head, src + head, sz / 4, before, dst, src, size, head);
    var v := sz % 4;
    if v != 0 {
      CopyTail(mem, dst + head + 4 * (sz / 4), src + head + 4 * (sz / 4), v,
               before, dst, src, size, head + 4 * (sz / 4));
    }
    CopyDone(before, mem[..], dst, src, size);
    r := At(dst);
  }

  // ---------------------------------------------------------------- memset

  // The size bytes at dst become v modulo 256
  method Memset(mem: array<u8>, dst: nat, v: int, size: nat) returns (r: Pointer)
    requires dst + size <= mem.Length
    modifies mem
    ensures r == At(dst)
    ensures forall x :: 0 <= x < mem.Length ==> mem[x] == if InRange(x, dst, size) then v % 0x100 else old(mem[x])
  {
    var sz := size;
    if sz == 0 {
      return At(dst);
    }
    var destination := dst;
    mem[destination], destination, sz := v % 0x100, destination + 1, sz - 1;
    while sz != 0
      invariant 0 <= sz && destination + sz == dst + size && dst <= destination
      invariant forall x :: 0 <= x < mem.Length ==>
                  mem[x] == if InRange(x, dst, destination - dst) then v % 0x100 else old(mem[x])
      decreases sz
    {
      mem[destination], destination, sz := v % 0x100, destination + 1, sz - 1;
    }
    r := At(dst);
  }

  // ---------------------------------------------------------------- strings

  // A terminator follows the address
  ghost predicate HasString(b: Bytes, p: nat)
  {
    exists q :: p <= q < |b| && b[q] == 0
  }

  // The characters of the string at the address, without the terminator
  ghost function Text(b: Bytes, p: nat): (t: Bytes)
    requires HasString(b, p)
    decreases |b| - p
  {
    if b[p] == 0 then [] else [b[p]] + Text(b, p + 1)
  }

  /** The text is what stands before the first terminator. */
  lemma {:induction false} TextEnds(b: Bytes, p: nat)
    requires HasString(b, p)
    ensures var t := Text(b, p); p + |t| < |b| && b[p + |t|] == 0 && t == b[p..p + |t|] && 0 !in t
    decreases |b| - p
  {
    if b[p] != 0 {
      TextEnds(b, p + 1);
    }
  }

  /** The first terminator ends the text. */
  lemma {:induction false} TextIs(b: Bytes, p: nat, n: nat)
    requires p + n < |b| && b[p + n] == 0 && 0 !in b[p..p + n]
    ensures HasString(b, p) && Text(b, p) == b[p..p + n]
    decreases n
  {
    if n > 0 {
      assert b[p] == b[p..p + n][0];
      assert b[p + 1..p + n] == b[p..p + n][1..];
      TextIs(b, p + 1, n - 1);
    }
  }

  // Character k of a string, the terminator included
  function CharAt(t: Bytes, k: nat): u8
  {
    if k < |t| then t[k] else 0
  }

  lemma CharIs(b: Bytes, p: nat, k: nat)
    requires HasString(b, p) && k <= |Text(b, p)|
    ensures p + k < |b| && b[p + k] == CharAt(Text(b, p), k)
    ensures b[p + k] == 0 <==> k == |Text(b, p)|
  {
    TextEnds(b, p);
    if k < |Text(b, p)| {
      assert Text(b, p)[k] in Text(b, p);
    }
  }

  method Strlen(mem: array<u8>, str: nat) returns (n: nat)
    requires HasString(mem[..], str)
    ensures n == |Text(mem[..], str)|
  {
    hide HasString, Text;
    var p := str;
    CharIs(mem[..], str, 0);
    while mem[p] != 0
      invariant str <= p <= str + |Text(mem[..], str)| && p < mem.Length
      invariant mem[p] == 0 <==> p == str + |Text(mem[..], str)|
      decreases mem.Length - p
    {
      CharIs(mem[..], str, p + 1 - str);
      p := p + 1;
    }
    n := p - str;
  }

  // Where the byte first stands in the string, the terminator included
  ghost predicate FirstAt(t: Bytes, c: u8, k: nat)
  {
    k <= |t| && c !in t[..k] && c == CharAt(t, k)
  }

  /** strchr finds the first occurrence, which may be the terminator, and Null exactly when there is none. */
  method Strchr(mem: array<u8>, src: nat, c: int) returns (r: Pointer)
    requires HasString(mem[..], src)
    ensures r == Null <==> c % 0x100 != 0 && c % 0x100 !in Text(mem[..], src)
    ensures r.At? ==> r.address >= src && FirstAt(Text(mem[..], src), c % 0x100, r.address - src)
  {
    hide HasString, Text;
    ghost var t := Text(mem[..], src);
    var p := src;
    while true
      invariant src <= p <= src + |t|
      invariant c % 0x100 !in t[..p - src]
      decreases src + |t| - p
    {
      CharIs(mem[..], src, p - src);
      if mem[p] == c % 0x100 {
        return At(p);
      }
      if mem[p] == 0 {
        assert t[..p - src] == t;
        return Null;
      }
      assert t[..p + 1 - src] == t[..p - src] + [t[p - src]];
      p := p + 1;
    }
  }

  // ---------------------------------------------------------------- comparison

  // The difference of the first bytes in which two texts differ, their ends counting as zero
  function Difference(s: Bytes, t: Bytes): int
  {
    if s == [] && t == [] then 0
    else if s == [] then -t[0]
    else if t == [] then s[0]
    else if s[0] != t[0] then s[0] - t[0]
    else Difference(s[1..], t[1..])
  }

  /** Comparing yields zero exactly for equal texts. */
  lemma {:induction false} ZeroIsEqual(s: Bytes, t: Bytes)
    requires 0 !in s && 0 !in t
    ensures Difference(s, t) == 0 <==> s == t
    decreases |s|
  {
    if s != [] && t != [] && s[0] == t[0] {
      ZeroIsEqual(s[1..], t[1..]);
      assert s == [s[0]] + s[1..] && t == [t[0]] + t[1..];
    } else if s != [] {
      assert s[0] in s;
    } else if t != [] {
      assert t[0] in t;
    }
  }

  /** Exchanging the texts changes the sign. */
  lemma {:induction false} DifferenceFlips(s: Bytes, t: Bytes)
    ensures Difference(t, s) == -Difference(s, t)
    decreases |s|
  {
    if s != [] && t != [] && s[0] == t[0] {
      DifferenceFlips(s[1..], t[1..]);
    }
  }

  /** The order is transitive. */
  lemma {:induction false} DifferenceOrders(s: Bytes, t: Bytes, u: Bytes)
    requires 0 !in s && 0 !in t && 0 !in u
    requires Difference(s, t) <= 0 && Difference(t, u) <= 0
    ensures Difference(s, u) <= 0
    decreases |s|
  {
    if s != [] && t != [] && u != [] && s[0] == t[0] == u[0] {
      DifferenceOrders(s[1..], t[1..], u[1..]);
    } else if s != [] {
      assert s[0] in s;
      assert t != [] ==> t[0] in t;
    }
  }

  lemma {:induction false} PrefixDifference(t: Bytes, n: nat)
    requires n < |t|
    ensures Difference(t[..n], t) + t[n] == 0
    decreases n
  {
    if n > 0 {
      PrefixDifference(t[1..], n - 1);
      assert t[..n][1..] == t[1..][..n - 1];
    }
  }

  lemma {:induction false} CommonPrefix(s: Bytes, t: Bytes, k: nat)
    requires k <= |s| && k <= |t| && s[..k] == t[..k]
    ensures Difference(s, t) == Difference(s[k..], t[k..])
    decreases k
  {
    if k > 0 {
      assert s[..k][0] == t[..k][0];
      assert s[1..][..k - 1] == s[..k][1..] && t[1..][..k - 1] == t[..k][1..];
      CommonPrefix(s[1..], t[1..], k - 1);
      assert s[1..][k - 1..] == s[k..] && t[1..][k - 1..] == t[k..];
    }
  }

  /** What the loop of strcmp finds when it stands at character k of both strings. */
  lemma CompareHere(s: Bytes, t: Bytes, k: nat)
    requires k <= |s| && k <= |t| && s[..k] == t[..k] && 0 !in s && 0 !in t
    ensures CharAt(s, k) != CharAt(t, k) ==> Difference(s, t) + CharAt(t, k) == CharAt(s, k) as int
    ensures CharAt(s, k) == CharAt(t, k) == 0 ==> Difference(s, t) == 0
    ensures CharAt(s, k) == CharAt(t, k) != 0 ==> k < |s| && k < |t| && s[..k + 1] == t[..k + 1]
  {
    CommonPrefix(s, t, k);
    if k < |s| {
      assert s[k] in s && s[..k + 1] == s[..k] + [s[k]];
    }
    if k < |t| {
      assert t[k] in t && t[..k + 1] == t[..k] + [t[k]];
    }
  }

  // Both strings have at least k characters, and these agree
  ghost predicate AgreeUpTo(b: Bytes, s0: nat, s1: nat, k: nat)
    requires HasString(b, s0) && HasString(b, s1)
  {
    k <= |Text(b, s0)| && k <= |Text(b, s1)| && Text(b, s0)[..k] == Text(b, s1)[..k]
  }

  lemma CompareBytes(b: Bytes, s0: nat, s1: nat, k: nat)
    requires HasString(b, s0) && HasString(b, s1) && AgreeUpTo(b, s0, s1, k)
    ensures s0 + k < |b| && s1 + k < |b| && k <= |Text(b, s0)|
    ensures var d := Difference(Text(b, s0), Text(b, s1));
            && (b[s0 + k] != b[s1 + k] ==> d == b[s0 + k] as int - b[s1 + k])
            && (b[s0 + k] == b[s1 + k] == 0 ==> d == 0)
            && (b[s0 + k] == b[s1 + k] != 0 ==> AgreeUpTo(b, s0, s1, k + 1))
  {
    CharIs(b, s0, k);
    CharIs(b, s1, k);
    TextEnds(b, s0);
    TextEnds(b, s1);
    CompareHere(Text(b, s0), Text(b, s1), k);
  }

  lemma NothingCompared(b: Bytes, s0: nat, s1: nat)
    requires HasString(b, s0) && HasString(b, s1)
    ensures AgreeUpTo(b, s0, s1, 0)
  {
    hide Text;
  }

  method Strcmp(mem: array<u8>, s0: nat, s1: nat) returns (r: int)
    requires HasString(mem[..], s0) && HasString(mem[..], s1)
    ensures r == Difference(Text(mem[..], s0), Text(mem[..], s1))
  {
    hide *;
    ghost var b := mem[..];
    NothingCompared(b, s0, s1);
    var p, q := s0, s1;
    CompareBytes(b, s0, s1, 0);
    while mem[p] == mem[q]
      invariant p - s0 == q - s1 >= 0 && p < mem.Length && q < mem.Length
      invariant AgreeUpTo(b, s0, s1, p - s0)
      decreases mem.Length - p
    {
      CompareBytes(b, s0, s1, p - s0);
      if mem[p] == 0 {
        return 0;
      }
      p, q := p + 1, q + 1;
      CompareBytes(b, s0, s1, p - s0);
    }
    CompareBytes(b, s0, s1, p - s0);
    r := mem[p] as int - mem[q];
  }

  // ---------------------------------------------------------------- strlcpy

  function Min(x: nat, y: nat): nat
  {
    if x < y then x else y
  }

  // What strlcpy demands: a source string, and room for what it writes, apart from that string
  ghost predicate Copyable(b: Bytes, dst: nat, src: nat, sz: nat)
  {
    && HasString(b, src)
    && var written := Min(sz, |Text(b, src)| + 1);
       dst + written <= |b| && (dst + written <= src || src + |Text(b, src)| + 1 <= dst)
  }

  // The memory with as much of the text as fits, and a terminator
  ghost function StringCopied(b: Bytes, dst: nat, src: nat, sz: nat): Bytes
    requires Copyable(b, dst, src, sz) && sz > 0
  {
    CopyInto(b, dst, Text(b, src)[..Min(|Text(b, src)|, sz - 1)] + [0])
  }

  // k characters are copied, and the string is not finished
  ghost predicate CopyingString(b: Bytes, b': Bytes, dst: nat, src: nat, sz: nat, k: nat)
  {
    && Copyable(b, dst, src, sz) && k <= |Text(b, src)| && k < sz
    && CopyingAt(b, b', dst, src, Min(sz, |Text(b, src)| + 1), k)
  }

  lemma StringStarts(b: Bytes, dst: nat, src: nat, sz: nat)
    requires Copyable(b, dst, src, sz) && sz > 0
    ensures CopyingString(b, b, dst, src, sz, 0)
  {
    hide Text;
    TextEnds(b, src);
  }

  // The loop copies one more character, possibly the terminator
  lemma CharRound(b: Bytes, b': Bytes, dst: nat, src: nat, sz: nat, k: nat)
    requires CopyingString(b, b', dst, src, sz, k) && k + 1 < sz
    ensures dst + k < |b'| && src + k < |b'|
    ensures var b'' := CopyInto(b', dst + k, b'[src + k..src + k + 1]);
            if b'[src + k] == 0 then HasString(b, src) && |Text(b, src)| == k && b'' == StringCopied(b, dst, src, sz)
            else CopyingString(b, b'', dst, src, sz, k + 1)
  {
    hide Text, CopiedUpTo, CopyInto;
    var size := Min(sz, |Text(b, src)| + 1);
    CharIs(b, src, k);
    SourceUnread(b, b', dst, src, size, k, src + k);
    var b'' := CopyInto(b', dst + k, b'[src + k..src + k + 1]);
    CopyStep(b, b', b'', dst, src, size, k, 1);
    if b'[src + k] == 0 {
      CopyDone(b, b'', dst, src, k + 1);
      TextEnds(b, src);
      assert b[src..src + k + 1] == b[src..src + k] + [0];
      assert Text(b, src)[..k] == Text(b, src);
    }
  }

  // Bytes of the source string are not overwritten
  lemma SourceUnread(b: Bytes, b': Bytes, dst: nat, src: nat, size: nat, k: nat, x: nat)
    requires CopyingAt(b, b', dst, src, size, k) && x < |b| && !InRange(x, dst, size)
    ensures |b'| == |b| && b'[x] == b[x]
  {
    assert b'[x] == CopiedByte(b, dst, src, k, x);
  }

  // The buffer is full: the terminator goes to its last byte, and the rest of the string is still there
  lemma BufferFull(b: Bytes, b': Bytes, dst: nat, src: nat, sz: nat)
    requires sz > 0 && CopyingString(b, b', dst, src, sz, sz - 1)
    ensures dst + (sz - 1) < |b'| && b'[dst + (sz - 1) := 0] == StringCopied(b, dst, src, sz)
  {
    hide Text, CopyInto;
    var k := sz - 1;
    CopyDone(b, b', dst, src, k);
    TextEnds(b, src);
    assert b[src..src + k] == Text(b, src)[..k];
    TerminatorAdded(b, dst, Text(b, src)[..k]);
  }

  lemma TerminatorAdded(b: Bytes, at: nat, w: Bytes)
    requires at + |w| < |b|
    ensures CopyInto(b, at, w)[at + |w| := 0] == CopyInto(b, at, w + [0])
  {
  }

  /** The copy holds as much of the text as fits, the source is unchanged, and they compare equal exactly
      if the source is shorter than the buffer. */
  lemma CopyLaws(b: Bytes, dst: nat, src: nat, sz: nat)
    requires Copyable(b, dst, src, sz) && sz > 0
    ensures var b', t := StringCopied(b, dst, src, sz), Text(b, src);
            && HasString(b', dst) && HasString(b', src) && Text(b', src) == t
            && Text(b', dst) == t[..Min(|t|, sz - 1)]
            && Difference(Text(b', dst), t) <= 0
            && (Difference(Text(b', dst), t) == 0 <==> |t| < sz)
  {
    hide Text, HasString, Difference;
    var b', t := StringCopied(b, dst, src, sz), Text(b, src);
    var n := Min(|t|, sz - 1);
    CopiedText(b, dst, src, n);
    SourceText(b, dst, src, n);
    TextEnds(b, src);
    if n == |t| {
      ZeroIsEqual(t[..n], t);
    } else {
      assert t[n] in t;
      PrefixDifference(t, n);
    }
  }

  lemma CopiedText(b: Bytes, dst: nat, src: nat, n: nat)
    requires HasString(b, src) && n <= |Text(b, src)| && dst + n + 1 <= |b|
    ensures var b' := CopyInto(b, dst, Text(b, src)[..n] + [0]);
            HasString(b', dst) && Text(b', dst) == Text(b, src)[..n]
  {
    hide Text, HasString;
    var w := Text(b, src)[..n] + [0];
    var b' := CopyInto(b, dst, w);
    TextEnds(b, src);
    assert b'[dst..dst + n] == w[..n] == Text(b, src)[..n];
    assert b'[dst + n] == w[n];
    TextIs(b', dst, n);
  }

  lemma SourceText(b: Bytes, dst: nat, src: nat, n: nat)
    requires HasString(b, src) && n <= |Text(b, src)| && dst + n + 1 <= |b|
    requires dst + n + 1 <= src || src + |Text(b, src)| + 1 <= dst
    ensures var b' := CopyInto(b, dst, Text(b, src)[..n] + [0]);
            HasString(b', src) && Text(b', src) == Text(b, src)
  {
    hide Text, HasString;
    TextEnds(b, src);
    var b', m := CopyInto(b, dst, Text(b, src)[..n] + [0]), |Text(b, src)|;
    assert b'[src..src + m] == b[src..src + m];
    TextIs(b', src, m);
  }

  // while( *src++ ); from a character of a string on
  method SkipString(mem: array<u8>, from: nat, ghost str: nat) returns (p: nat)
    requires HasString(mem[..], str) && str <= from <= str + |Text(mem[..], str)|
    ensures p == str + |Text(mem[..], str)| + 1
  {
    hide HasString, Text;
    CharIs(mem[..], str, from - str);
    var c := mem[from];
    p := from + 1;
    while c != 0
      invariant str < p <= str + |Text(mem[..], str)| + 1
      invariant c == 0 <==> p == str + |Text(mem[..], str)| + 1
      decreases str + |Text(mem[..], str)| + 1 - p
    {
      CharIs(mem[..], str, p - str);
      c := mem[p];
      p := p + 1;
    }
  }

  // The buffer is empty or full: what remains to be skipped of the source
  lemma RestOfSource(b: Bytes, b': Bytes, dst: nat, src: nat, sz: nat)
    requires Copyable(b, dst, src, sz)
    requires if sz == 0 then b' == b else CopyingString(b, b', dst, src, sz, sz - 1)
    ensures sz > 0 ==> dst + (sz - 1) < |b'| && b'[dst + (sz - 1) := 0] == StringCopied(b, dst, src, sz)
    ensures HasString(b, src) && (sz > 0 ==> sz - 1 <= |Text(b, src)|)
    ensures sz > 0 ==>
              && HasString(StringCopied(b, dst, src, sz), src)
              && Text(StringCopied(b, dst, src, sz), src) == Text(b, src)
  {
    hide Text, CopyingAt, StringCopied;
    if sz > 0 {
      BufferFull(b, b', dst, src, sz);
      CopyLaws(b, dst, src, sz);
    }
  }

  /** strlcpy returns the length of the source, and leaves as much of it as fits, always terminated unless
      the buffer is empty; nothing else changes. */
  method Strlcpy(mem: array<u8>, dst: nat, src: nat, sz: nat) returns (length: nat)
    requires Copyable(mem[..], dst, src, sz)
    modifies mem
    ensures length == |Text(old(mem[..]), src)|
    ensures mem[..] == if sz == 0 then old(mem[..]) else StringCopied(old(mem[..]), dst, src, sz)
  {
    hide HasString, Text, Copyable, CopyingString, StringCopied, CopyInto;
    ghost var b := mem[..];
    var d, s, left := dst, src, sz;
    if left != 0 {
      StringStarts(b, dst, src, sz);
      left := left - 1;
      while left != 0
        invariant 0 <= left < sz && d == dst + (sz - 1 - left) && s == src + (sz - 1 - left)
        invariant CopyingString(b, mem[..], dst, src, sz, sz - 1 - left)
      {
        CharRound(b, mem[..], dst, src, sz, sz - 1 - left);
        var c := mem[s];
        CopyByte(mem, d, s);
        d, s := d + 1, s + 1;
        if c == 0 {
          break;
        }
        left := left - 1;
      }
    }
    if left == 0 {
      RestOfSource(b, mem[..], dst, src, sz);
      if sz != 0 {
        mem[d] := 0;
      }
      s := SkipString(mem, s, src);
    }
    length := s - src - 1;
  }
}
