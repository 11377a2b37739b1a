/// Bytes, little-endian words, and copies into a range of bytes.
module ByteRanges {
  const U64_LIMIT: nat := 0x1_0000_0000_0000_0000
  const WORD_SIZE: nat := 8

  type Byte = x: int | 0 <= x < 256
  type Bytes = seq<Byte>

  /// The eight bytes of a register.
  type Word = w: Bytes | |w| == 8 witness [0, 0, 0, 0, 0, 0, 0, 0]

  const ZERO_WORD: Word := [0, 0, 0, 0, 0, 0, 0, 0]

  /// Little-endian bytes of a word.
  function ToBytes(n: nat, k: nat): (r: Bytes)
    ensures |r| == k
  {
    if k == 0 then [] else [n % 256] + ToBytes(n / 256, k - 1)
  }

  function FromBytes(b: Bytes): nat {
    if b == [] then 0 else b[0] + 256 * FromBytes(b[1..])
  }

  function Capacity(k: nat): nat {
    if k == 0 then 1 else 256 * Capacity(k - 1)
  }

  lemma {:induction false} WordRoundTrip(n: nat, k: nat)
    requires n < Capacity(k)
    ensures FromBytes(ToBytes(n, k)) == n
  {
    if k > 0 {
      WordRoundTrip(n / 256, k - 1);
      assert ToBytes(n, k)[1..] == ToBytes(n / 256, k - 1);
    }
  }

  lemma WordsHaveEightBytes()
    ensures Capacity(8) == U64_LIMIT
  {
    assert Capacity(4) == 0x1_0000_0000;
  }

  function Splice(h: Bytes, offset: nat, data: Bytes): (r: Bytes)
    requires offset + |data| <= |h|
    ensures |r| == |h|
  {
    h[..offset] + data + h[offset + |data|..]
  }

  function Zeros(n: nat): (r: Bytes)
    ensures |r| == n && forall i | 0 <= i < n :: r[i] == 0
  {
    seq(n, _ => 0)
  }

  /// A word with its bytes from `bytes` on cleared.
  function Truncated(w: Bytes, bytes: nat): (r: Word)
    requires bytes <= 8 && bytes <= |w|
    ensures r[..bytes] == w[..bytes]
  {
    w[..bytes] + Zeros(8 - bytes)
  }

  lemma SpliceElsewhere(h: Bytes, offset: nat, data: Bytes, lo: nat, hi: nat)
    requires offset + |data| <= |h| && lo <= hi <= |h|
    requires hi <= offset || offset + |data| <= lo
    ensures Splice(h, offset, data)[lo..hi] == h[lo..hi]
  {
  }

  lemma SpliceHere(h: Bytes, offset: nat, data: Bytes)
    requires offset + |data| <= |h|
    ensures Splice(h, offset, data)[offset..offset + |data|] == data
  {
  }

  lemma SpliceExtends(h: Bytes, offset: nat, value: Bytes, n: nat, m: nat)
    requires n <= m <= |value| && offset + |value| <= |h|
    ensures Splice(Splice(h, offset, value[..n]), offset + n, value[n..m]) == Splice(h, offset, value[..m])
  {
    assert value[..m] == value[..n] + value[n..m];
  }

  function LaneBytes(size: nat, offset: nat): nat
    requires offset <= size
  {
    if size - offset < WORD_SIZE then size - offset else WORD_SIZE
  }

  function LaneCount(size: nat): nat {
    (size + WORD_SIZE - 1) / WORD_SIZE
  }

  /// How many bytes of the value lie in one lane.
  function LaneWidth(size: nat, lane: nat): nat
    requires lane < LaneCount(size)
  {
    LaneBytes(size, WORD_SIZE * lane)
  }

  /// The widest native access that fits.
  function ChunkWidth(remaining: nat): (r: nat)
    requires remaining > 0
    ensures 0 < r <= remaining
  {
    if remaining >= 8 then 8 else if remaining >= 4 then 4 else if remaining >= 2 then 2 else 1
  }
}
