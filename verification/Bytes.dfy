/** Little-endian integers in byte sequences, as every file header stores them. */
module Bytes {
  import opened Arithmetic

  type Byte = b: nat | b < 256

  function Power256(width: nat): (p: nat)
    ensures p > 0
  {
    if width == 0 then 1 else 256 * Power256(width - 1)
  }

  function ToLE(n: nat, width: nat): (s: seq<Byte>)
    ensures |s| == width
  {
    if width == 0 then [] else [n % 256] + ToLE(n / 256, width - 1)
  }

  function FromLE(s: seq<Byte>): nat {
    if s == [] then 0 else s[0] + 256 * FromLE(s[1..])
  }

  lemma {:induction false} LERoundTrip(n: nat, width: nat)
    requires n < Power256(width)
    ensures FromLE(ToLE(n, width)) == n
  {
    if width > 0 {
      LERoundTrip(n / 256, width - 1);
      assert ToLE(n, width)[1..] == ToLE(n / 256, width - 1);
    }
  }

  /** Byte k of the encoding is digit k, the least significant first. */
  lemma {:induction false} LEDigit(n: nat, width: nat, k: nat)
    requires k < width
    ensures ToLE(n, width)[k] == n / Power256(k) % 256
  {
    if k > 0 {
      LEDigit(n / 256, width - 1, k - 1);
      DivDiv(n, Power256(k - 1));
    }
  }

  lemma DivDiv(n: nat, m: nat)
    requires m > 0
    ensures n / 256 / m == n / (256 * m)
  {
    var q := n / 256 / m;
    DivMod(n, 256);
    DivMod(n / 256, m);
    assert n == q * (256 * m) + (n / 256 % m * 256 + n % 256);
    MulLe(n / 256 % m + 1, m, 256);
    DivModUnique(q, 256 * m, n / 256 % m * 256 + n % 256);
  }

  /** Decoding loses nothing. */
  lemma {:induction false} LEInverse(s: seq<Byte>)
    ensures ToLE(FromLE(s), |s|) == s
  {
    if s != [] {
      LEInverse(s[1..]);
      assert s == [s[0]] + s[1..];
    }
  }

  lemma {:induction false} FromLEBound(s: seq<Byte>)
    ensures FromLE(s) < Power256(|s|)
  {
    if s != [] {
      FromLEBound(s[1..]);
    }
  }

  lemma Power256Values()
    ensures Power256(4) == 0x1_0000_0000 && Power256(8) == 0x1_0000_0000 * 0x1_0000_0000
  {
    assert Power256(2) == 65536;
    assert Power256(4) == 0x1_0000_0000;
    assert Power256(6) == 65536 * Power256(4);
    assert Power256(8) == 65536 * Power256(6);
  }

  function U32(n: nat): (s: seq<Byte>)
    ensures |s| == 4
  {
    ToLE(n, 4)
  }

  function U64(n: nat): (s: seq<Byte>)
    ensures |s| == 8
  {
    ToLE(n, 8)
  }

  lemma U32RoundTrip(n: nat)
    requires n < 0x1_0000_0000
    ensures FromLE(U32(n)) == n
  {
    Power256Values();
    LERoundTrip(n, 4);
  }

  lemma U64RoundTrip(n: nat)
    requires n < 0x1_0000_0000 * 0x1_0000_0000
    ensures FromLE(U64(n)) == n
  {
    Power256Values();
    LERoundTrip(n, 8);
  }

  /** Two 32-bit numbers and the eight bytes that hold them determine each other. */
  lemma TwoNumbers(bytes: seq<Byte>, a: nat, b: nat)
    requires |bytes| >= 8 && a < 0x1_0000_0000 && b < 0x1_0000_0000
    ensures bytes[..8] == U32(a) + U32(b) <==> FromLE(bytes[..4]) == a && FromLE(bytes[4..8]) == b
  {
    U32RoundTrip(a);
    U32RoundTrip(b);
    LEInverse(bytes[..4]);
    LEInverse(bytes[4..8]);
    assert bytes[..8] == bytes[..4] + bytes[4..8];
    if bytes[..8] == U32(a) + U32(b) {
      assert bytes[..4] == bytes[..8][..4] == U32(a);
      assert bytes[4..8] == bytes[..8][4..8] == U32(b);
    }
  }

  function Zeros(n: nat): (s: seq<Byte>)
    ensures |s| == n
  {
    seq(n, _ => 0)
  }

  // Slices and concatenations.

  lemma SliceLeft(a: seq<Byte>, b: seq<Byte>, lo: nat, hi: nat)
    requires lo <= hi <= |a|
    ensures (a + b)[lo..hi] == a[lo..hi]
  {
  }

  lemma Rejoin(a: seq<Byte>, b: seq<Byte>, c: seq<Byte>, ab: seq<Byte>, bc: seq<Byte>, abc: seq<Byte>)
    requires ab == a + b && bc == b + c && abc == ab + c
    ensures abc == a + bc
  {
  }

  lemma Assoc(a: seq<Byte>, b: seq<Byte>, c: seq<Byte>)
    ensures a + b + c == a + (b + c)
  {
  }

  lemma SliceOfSlice(s: seq<Byte>, lo: nat, len: nat, within: nat, size: nat)
    requires lo + len <= |s| && within + size <= len
    ensures s[lo..lo + len][within..within + size] == s[lo + within..lo + within + size]
  {
    var inner := s[lo..lo + len];
    var left, right := inner[within..within + size], s[lo + within..lo + within + size];
    forall k | 0 <= k < size ensures left[k] == right[k] {
      assert inner[within + k] == s[lo + (within + k)];
    }
  }

  lemma SliceLast(a: seq<Byte>, b: seq<Byte>, at: nat, size: nat)
    requires at == |a| && size == |b|
    ensures (a + b)[at..at + size] == b
  {
  }

  /** A slice of a slice, with all three named. */
  lemma SliceWithin(s: seq<Byte>, lo: nat, len: nat, outer: seq<Byte>, within: nat, size: nat, inner: seq<Byte>)
    requires lo + len <= |s| && s[lo..lo + len] == outer && within + size <= len && outer[within..within + size] == inner
    ensures s[lo + within..lo + within + size] == inner
  {
    SliceOfSlice(s, lo, len, within, size);
  }

  lemma SliceBehind(a: seq<Byte>, b: seq<Byte>, lo: nat, at: nat, size: nat)
    requires lo + size <= |b| && at == |a| + lo
    ensures (a + b)[at..at + size] == b[lo..lo + size]
  {
  }

  // 32-bit words.

  type Word = n: nat | n < 0x1_0000_0000

  function Words(ids: seq<Word>): (s: seq<Byte>)
    ensures |s| == 4 * |ids|
  {
    if ids == [] then [] else Words(ids[..|ids| - 1]) + U32(ids[|ids| - 1])
  }

  function WordAt(s: seq<Byte>, at: nat): (n: Word)
    requires at + 4 <= |s|
  {
    FromLEBound(s[at..at + 4]);
    Power256Values();
    FromLE(s[at..at + 4])
  }

  /** count words from offset `at` on. */
  function ParseWords(s: seq<Byte>, at: nat, count: nat): (ids: seq<Word>)
    requires at + 4 * count <= |s|
    ensures |ids| == count
  {
    if count == 0 then [] else ParseWords(s, at, count - 1) + [WordAt(s, at + 4 * (count - 1))]
  }

  lemma {:induction false} WordsRoundTrip(prefix: seq<Byte>, ids: seq<Word>, suffix: seq<Byte>)
    ensures ParseWords(prefix + Words(ids) + suffix, |prefix|, |ids|) == ids
  {
    if ids != [] {
      var front, last := ids[..|ids| - 1], U32(ids[|ids| - 1]);
      WordsRoundTrip(prefix, front, last + suffix);
      assert prefix + Words(front) + (last + suffix) == prefix + Words(ids) + suffix;
      assert (prefix + Words(ids) + suffix)[|prefix| + 4 * |front|..|prefix| + 4 * |front| + 4] == last;
      U32RoundTrip(ids[|ids| - 1]);
    }
  }

  lemma {:induction false} WordsConcat(a: seq<Word>, b: seq<Word>)
    ensures Words(a + b) == Words(a) + Words(b)
  {
    if b == [] {
      assert a + b == a;
    } else {
      assert (a + b)[..|a + b| - 1] == a + b[..|b| - 1];
      WordsConcat(a, b[..|b| - 1]);
    }
  }

  lemma WordsSlice(w: seq<Word>, q: nat, n: nat)
    requires q + n <= |w|
    ensures ParseWords(Words(w), 4 * q, n) == w[q..q + n]
  {
    var before, middle, after := w[..q], w[q..q + n], w[q + n..];
    assert w == before + middle + after;
    WordsConcat(before, middle);
    WordsConcat(before + middle, after);
    WordsRoundTrip(Words(before), middle, Words(after));
  }

  lemma WordOfWords(w: seq<Word>, q: nat, at: nat)
    requires q < |w| && at == 4 * q
    ensures WordAt(Words(w), at) == w[q]
  {
    WordsSlice(w, q, 1);
    assert ParseWords(Words(w), at, 1) == ParseWords(Words(w), at, 0) + [WordAt(Words(w), at)];
    assert ParseWords(Words(w), at, 1)[0] == WordAt(Words(w), at);
  }

  /** Parsing and encoding again gives the bytes back. */
  lemma {:induction false} WordsInverse(s: seq<Byte>, at: nat, count: nat)
    requires at + 4 * count <= |s|
    ensures Words(ParseWords(s, at, count)) == s[at..at + 4 * count]
  {
    if count > 0 {
      WordsInverse(s, at, count - 1);
      var last := at + 4 * (count - 1);
      LEInverse(s[last..last + 4]);
      assert s[at..at + 4 * count] == s[at..last] + s[last..last + 4];
    }
  }
}
