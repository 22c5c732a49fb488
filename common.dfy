/**
 * Shared vocabulary: bytes, optional values, powers of two, 32-bit
 * patterns, and the slicing of a byte sequence into consecutive chunks
 * that every sender in the repository performs.
 */
module Common {

  /** An 8-bit unsigned byte (C `uint8_t`, a Python int in 0..255). */
  type Byte = b: int | 0 <= b < 0x100

  datatype Option<T> = None | Some(value: T)

  const TWO_32: int := 0x1_0000_0000

  /** 2^n. */
  function Pow2(n: nat): (r: nat)
    ensures r >= 1
  {
    if n == 0 then 1 else 2 * Pow2(n - 1)
  }

  lemma {:induction false} Pow2Add(a: nat, b: nat)
    ensures Pow2(a + b) == Pow2(a) * Pow2(b)
    decreases a
  {
    if a > 0 {
      Pow2Add(a - 1, b);
      assert Pow2(a + b) == 2 * Pow2(a - 1 + b);
    }
  }

  lemma {:induction false} Pow2Monotone(a: nat, b: nat)
    requires a <= b
    ensures Pow2(a) <= Pow2(b)
    decreases b
  {
    if a < b {
      Pow2Monotone(a, b - 1);
    }
  }

  /** Bit j of x, counting from the least significant bit: `(x >> j) & 1`. */
  function Bit(x: nat, j: nat): (b: nat)
    ensures b < 2
  {
    if j == 0 then x % 2 else Bit(x / 2, j - 1)
  }

  /** Adding a multiple of d moves the quotient and keeps the remainder. */
  lemma DivAddMultiple(x: int, d: int, k: int)
    requires d > 0
    ensures (x + k * d) / d == x / d + k && (x + k * d) % d == x % d
  {
    var y := x / d;
    assert x == y * d + x % d;
    assert x + k * d == (y + k) * d + x % d;
    DivUnique(x + k * d, d, y + k, x % d);
  }

  /**
   * Setting bit n (with value m) above a number below 2^n: bit n reads m and
   * every lower bit is unchanged.
   */
  lemma {:induction false} BitOfSum(x: nat, m: nat, n: nat, j: nat)
    requires x < Pow2(n) && m < 2 && j <= n
    ensures Bit(x + m * Pow2(n), j) == if j == n then m else Bit(x, j)
    decreases j
  {
    if n > 0 {
      var h := Pow2(n - 1);
      assert m * Pow2(n) == (m * h) * 2;
      DivAddMultiple(x, 2, m * h);
      if j > 0 {
        BitOfSum(x / 2, m, n - 1, j - 1);
      }
    }
  }

  /** A number below 2^j has bit j clear. */
  lemma {:induction false} BitAbove(x: nat, j: nat)
    requires x < Pow2(j)
    ensures Bit(x, j) == 0
    decreases j
  {
    if j > 0 {
      BitAbove(x / 2, j - 1);
    }
  }

  /** The 32-bit two's-complement pattern of any integer. */
  function U32(v: int): (r: int)
    ensures 0 <= r < TWO_32
    ensures (r - v) % TWO_32 == 0
  {
    v % TWO_32
  }

  /** Reinterpret a 32-bit pattern as a signed `int32_t`. */
  function ToInt32(p: int): (r: int)
    requires 0 <= p < TWO_32
    ensures -0x8000_0000 <= r < 0x8000_0000
    ensures U32(r) == p
  {
    if p < 0x8000_0000 then p else p - TWO_32
  }

  /**
   * The little-endian value of a byte string, `b[0] | b[1] << 8 | ...`
   * (the fields are disjoint, so the OR is a sum).
   */
  function LittleEndian(b: seq<Byte>): (v: nat)
    ensures v < Pow2(8 * |b|)
    decreases |b|
  {
    if |b| == 0 then 0
    else
      var rest := LittleEndian(b[1..]);
      Pow2Add(8, 8 * (|b| - 1));
      assert Pow2(8) == 0x100;
      assert 0x100 * rest <= 0x100 * (Pow2(8 * (|b| - 1)) - 1);
      b[0] + 0x100 * rest
  }

  lemma Pow2ThirtyTwo()
    ensures Pow2(32) == TWO_32
  {
    Pow2Add(16, 16);
    Pow2Add(8, 8);
    Pow2Add(4, 4);
    Pow2Add(2, 2);
    Pow2Add(1, 1);
  }

  /** The n low bytes of v, least significant first: `v & 0xFF, (v >> 8) & 0xFF, ...`. */
  function LittleEndianBytes(v: nat, n: nat): (r: seq<Byte>)
    ensures |r| == n
  {
    if n == 0 then [] else [v % 0x100] + LittleEndianBytes(v / 0x100, n - 1)
  }

  /** Dividing twice is dividing by the product. */
  lemma DivDiv(v: nat, a: nat, b: nat)
    requires a > 0 && b > 0
    ensures (v / a) / b == v / (a * b)
  {
    var q := (v / a) / b;
    var r := (v / a) % b;
    assert v / a == q * b + r;
    assert v == (q * b + r) * a + v % a;
    assert v == q * (a * b) + (r * a + v % a);
    assert r * a + v % a < a * b by {
      assert r * a <= (b - 1) * a;
    }
    DivUnique(v, a * b, q, r * a + v % a);
  }

  /** The two bytes `v & 0xFF, (v >> 8) & 0xFF`. */
  lemma LittleEndianBytesTwo(v: nat)
    ensures LittleEndianBytes(v, 2) == [v % 0x100, (v / 0x100) % 0x100]
  {
    assert LittleEndianBytes(v / 0x100, 1) == [(v / 0x100) % 0x100];
  }

  /** The four bytes `v & 0xFF, (v >> 8) & 0xFF, (v >> 16) & 0xFF, (v >> 24) & 0xFF`. */
  lemma LittleEndianBytesFour(v: nat)
    ensures LittleEndianBytes(v, 4)
      == [v % 0x100, (v / 0x100) % 0x100, (v / 0x1_0000) % 0x100, (v / 0x100_0000) % 0x100]
  {
    DivDiv(v, 0x100, 0x100);
    DivDiv(v, 0x1_0000, 0x100);
    var w := v / 0x1_0000;
    assert LittleEndianBytes(w, 2) == [w % 0x100, (w / 0x100) % 0x100] by { LittleEndianBytesTwo(w); }
    assert LittleEndianBytes(v / 0x100, 3) == [(v / 0x100) % 0x100] + LittleEndianBytes(w, 2);
  }

  /** Two bytes, low first: `lo | hi << 8`. */
  lemma LittleEndianTwo(b: seq<Byte>)
    requires |b| == 2
    ensures LittleEndian(b) == b[0] as int + 0x100 * (b[1] as int)
  {
    assert b[1..][1..] == [];
  }

  /** Four little-endian bytes at `i`, written out as the source's shifts. */
  lemma LittleEndianFour(b: seq<Byte>, i: nat)
    requires i + 4 <= |b|
    ensures LittleEndian(b[i .. i + 4])
      == b[i] as int + 0x100 * (b[i + 1] as int) + 0x1_0000 * (b[i + 2] as int) + 0x100_0000 * (b[i + 3] as int)
  {
    var w := b[i .. i + 4];
    assert LittleEndian(w[3..]) == w[3] by { assert w[3..][1..] == []; }
    assert LittleEndian(w[2..]) == w[2] as int + 0x100 * (w[3] as int) by { assert w[2..][1..] == w[3..]; }
    assert LittleEndian(w[1..]) == w[1] as int + 0x100 * (w[2] as int + 0x100 * (w[3] as int)) by { assert w[1..][1..] == w[2..]; }
  }

  /** Four little-endian bytes at `i` make a 32-bit word. */
  lemma LittleEndianWord(b: seq<Byte>, i: nat)
    requires i + 4 <= |b|
    ensures LittleEndian(b[i .. i + 4])
      == b[i] as int + 0x100 * (b[i + 1] as int) + 0x1_0000 * (b[i + 2] as int) + 0x100_0000 * (b[i + 3] as int)
    ensures LittleEndian(b[i .. i + 4]) < TWO_32
  {
    LittleEndianFour(b, i);
    Pow2ThirtyTwo();
  }

  /** Packing the n bytes of a value below 2^(8n) gives the value back. */
  lemma {:induction false} LittleEndianRoundTrip(v: nat, n: nat)
    requires v < Pow2(8 * n)
    ensures LittleEndian(LittleEndianBytes(v, n)) == v
  {
    if n == 0 {
      assert Pow2(0) == 1;
    } else {
      var r := LittleEndianBytes(v, n);
      assert r[1..] == LittleEndianBytes(v / 0x100, n - 1);
      Pow2Add(8, 8 * (n - 1));
      assert Pow2(8) == 0x100;
      assert v / 0x100 < Pow2(8 * (n - 1));
      LittleEndianRoundTrip(v / 0x100, n - 1);
    }
  }

  /** Splitting a packed byte string gives the bytes back. */
  lemma {:induction false} LittleEndianSplit(b: seq<Byte>)
    ensures LittleEndianBytes(LittleEndian(b), |b|) == b
    decreases |b|
  {
    if |b| > 0 {
      var v := LittleEndian(b);
      DivAddMultiple(b[0], 0x100, LittleEndian(b[1..]));
      LittleEndianSplit(b[1..]);
    }
  }

  predicate SevenBitClean(s: seq<int>)
  {
    forall i :: 0 <= i < |s| ==> 0 <= s[i] < 0x80
  }

  /** Concatenation of a sequence of sequences, in order. */
  function Flatten<T>(ss: seq<seq<T>>): (r: seq<T>)
  {
    if |ss| == 0 then [] else ss[0] + Flatten(ss[1..])
  }

  lemma {:induction false} FlattenAppend<T>(a: seq<seq<T>>, b: seq<seq<T>>)
    ensures Flatten(a + b) == Flatten(a) + Flatten(b)
    decreases |a|
  {
    if |a| == 0 {
      assert a + b == b;
    } else {
      assert (a + b)[1..] == a[1..] + b;
      FlattenAppend(a[1..], b);
    }
  }

  lemma SeqAssoc<T>(a: seq<T>, b: seq<T>, c: seq<T>)
    ensures (a + b) + c == a + (b + c)
  {
  }

  /** Ceiling of n / d. */
  function CeilDiv(n: nat, d: nat): nat
    requires d > 0
  {
    (n + d - 1) / d
  }

  lemma MulAssoc(a: int, b: int, c: int)
    ensures a * (b * c) == (a * b) * c
  {
  }

  function Min(a: int, b: int): (m: int)
    ensures m <= a && m <= b && (m == a || m == b)
  {
    if a < b then a else b
  }

  lemma MulAtLeast(x: int, d: int)
    requires x >= 1 && d > 0
    ensures x * d >= d
  {
    var y := x - 1;
    assert x * d == y * d + d;
    assert y * d >= 0;
  }

  /** Quotient and remainder are unique. */
  lemma DivUnique(n: int, d: int, q: int, r: int)
    requires d > 0 && 0 <= r < d && n == q * d + r
    ensures n / d == q && n % d == r
  {
    var q0, r0 := n / d, n % d;
    assert n == q0 * d + r0;
    if q0 > q {
      assert (q0 - q) * d == r - r0;
      MulAtLeast(q0 - q, d);
    } else if q0 < q {
      assert (q - q0) * d == r0 - r;
      MulAtLeast(q - q0, d);
    }
  }

  lemma CeilDivStep(n: nat, d: nat)
    requires d > 0
    ensures n == 0 ==> CeilDiv(n, d) == 0
    ensures 0 < n <= d ==> CeilDiv(n, d) == 1
    ensures n > d ==> CeilDiv(n, d) == CeilDiv(n - d, d) + 1
  {
    if n == 0 {
      DivUnique(d - 1, d, 0, d - 1);
    } else if n <= d {
      DivUnique(n + d - 1, d, 1, n - 1);
    } else {
      var m := n - d + d - 1;
      DivUnique(m, d, m / d, m % d);
      DivUnique(m + d, d, m / d + 1, m % d);
    }
  }

  /**
   * The slices `s[i:min(i + size, len(s))]` for `i` in `range(0, len(s), size)`:
   * consecutive, non-empty, at most `size` long, covering `s` exactly.
   */
  function Chunks<T>(s: seq<T>, size: nat): (r: seq<seq<T>>)
    requires size > 0
    ensures forall k :: 0 <= k < |r| ==> 0 < |r[k]| <= size
    decreases |s|
  {
    if |s| == 0 then []
    else if |s| <= size then [s]
    else [s[..size]] + Chunks(s[size..], size)
  }

  /** The first chunk, and the chunks after it. */
  lemma ChunksHead<T>(s: seq<T>, size: nat)
    requires size > 0 && |s| > 0
    ensures |Chunks(s, size)| > 0
    ensures Chunks(s, size)[0] == s[..Min(size, |s|)]
    ensures Chunks(s, size)[1..] == Chunks(s[Min(size, |s|)..], size)
  {
    if |s| <= size {
      assert s[|s|..] == [];
    }
  }

  /**
   * One step of a `for i in range(0, len(s), size)` loop: when `all[k..]`
   * are the chunks of `s[i..]`, the slice at i is chunk k and the chunks
   * after it are those of the rest.
   */
  lemma ChunksAdvance<T>(s: seq<T>, size: nat, i: nat, all: seq<seq<T>>, k: nat)
    requires size > 0 && i < |s| && k <= |all|
    requires all[k..] == Chunks(s[i..], size)
    ensures k < |all|
    ensures all[k] == s[i .. Min(i + size, |s|)]
    ensures all[k + 1..] == Chunks(s[Min(i + size, |s|)..], size)
  {
    ChunksHead(s[i..], size);
    var end := Min(i + size, |s|);
    assert s[i..][..Min(size, |s| - i)] == s[i..end];
    assert s[i..][Min(size, |s| - i)..] == s[end..];
    assert all[k + 1..] == all[k..][1..];
  }

  /** Concatenating the chunks in order gives back the sequence. */
  lemma {:induction false} ChunksCover<T>(s: seq<T>, size: nat)
    requires size > 0
    ensures Flatten(Chunks(s, size)) == s
    decreases |s|
  {
    if |s| == 0 {
    } else if |s| <= size {
      assert Flatten([s]) == s + Flatten([s][1..]);
    } else {
      var rest := Chunks(s[size..], size);
      assert ([s[..size]] + rest)[1..] == rest;
      ChunksCover(s[size..], size);
      assert s[..size] + s[size..] == s;
    }
  }

  /** There are ceil(|s| / size) chunks. */
  lemma {:induction false} ChunksCount<T>(s: seq<T>, size: nat)
    requires size > 0
    ensures |Chunks(s, size)| == CeilDiv(|s|, size)
    decreases |s|
  {
    CeilDivStep(|s|, size);
    if |s| > size {
      ChunksCount(s[size..], size);
    }
  }

  lemma ChunksTail<T>(s: seq<T>, size: nat, k: nat)
    requires size > 0 && |s| > size
    requires 0 < k < |Chunks(s, size)|
    ensures k - 1 < |Chunks(s[size..], size)|
    ensures Chunks(s, size)[k] == Chunks(s[size..], size)[k - 1]
  {
  }

  /** Arithmetic of the slice bounds one chunk further on. */
  lemma SliceStep(n: nat, size: nat, j: nat) returns (lo: nat, hi: nat, a: nat, b: nat)
    requires size > 0 && n > size && j * size < n - size
    ensures lo == j * size && hi == Min((j + 1) * size, n - size)
    ensures a == (j + 1) * size && b == Min((j + 2) * size, n)
    ensures a == lo + size && b == hi + size && lo <= hi <= n - size
  {
    lo, hi := j * size, Min((j + 1) * size, n - size);
    a, b := (j + 1) * size, Min((j + 2) * size, n);
  }

  lemma SliceOfDrop<T>(s: seq<T>, d: nat, lo: nat, hi: nat)
    requires d <= |s| && lo <= hi <= |s| - d
    ensures s[d..][lo .. hi] == s[lo + d .. hi + d]
  {
  }

  /** Chunk k is exactly the slice starting at k * size. */
  lemma {:induction false} ChunkIsSlice<T>(s: seq<T>, size: nat, k: nat)
    requires size > 0
    requires k < |Chunks(s, size)|
    ensures k * size < |s|
    ensures Chunks(s, size)[k] == s[k * size .. Min((k + 1) * size, |s|)]
    decreases k
  {
    if k == 0 {
      assert k * size == 0 && (k + 1) * size == size;
    } else {
      assert |s| > size;
      var j := k - 1;
      ChunksTail(s, size, k);
      ChunkIsSlice(s[size..], size, j);
      var lo, hi, a, b := SliceStep(|s|, size, j);
      assert j + 1 == k;
      assert a == k * size && b == Min((k + 1) * size, |s|);
      SliceOfDrop(s, size, lo, hi);
      assert Chunks(s, size)[k] == s[a .. b];
    }
  }
}
