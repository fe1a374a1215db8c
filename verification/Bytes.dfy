/** Bytes, little-endian words and bit maps: the encodings every on-disk structure
    of MiniFS is made of. */
module Bytes {

  type byte = x: int | 0 <= x < 0x100
  type u16 = x: int | 0 <= x < 0x1_0000
  type u32 = x: int | 0 <= x < 0x1_0000_0000

  /** Overwrites the elements of `s` from index `o` on with those of `t`. */
  function Splice<T>(s: seq<T>, o: nat, t: seq<T>): (r: seq<T>)
    requires o + |t| <= |s|
    ensures |r| == |s|
    ensures forall i :: 0 <= i < |s| ==> r[i] == if o <= i < o + |t| then t[i - o] else s[i]
  {
    s[..o] + t + s[o + |t|..]
  }

  function Zeros(n: nat): (r: seq<byte>)
    ensures |r| == n
    ensures forall i :: 0 <= i < n ==> r[i] == 0
  {
    seq(n, _ => 0)
  }

  predicate AllZero(s: seq<byte>) {
    forall i :: 0 <= i < |s| ==> s[i] == 0
  }

  // ---------- little-endian integers ----------

  function Le16(s: seq<byte>, o: nat): (w: u16)
    requires o + 2 <= |s|
  {
    s[o] as int + 0x100 * (s[o + 1] as int)
  }

  function Le32(s: seq<byte>, o: nat): (w: u32)
    requires o + 4 <= |s|
  {
    s[o] as int + 0x100 * (s[o + 1] as int) + 0x1_0000 * (s[o + 2] as int) + 0x100_0000 * (s[o + 3] as int)
  }

  function Le32Bytes(w: u32): (s: seq<byte>)
    ensures |s| == 4
    ensures Le32(s, 0) == w
  {
    [w % 0x100, w / 0x100 % 0x100, w / 0x1_0000 % 0x100, w / 0x100_0000]
  }

  /** A word is read from, and written to, four bytes and no others. */
  lemma Le32Local(s: seq<byte>, o: nat, t: seq<byte>, p: nat)
    requires o + 4 <= |s| && p + 4 <= |t|
    requires s[o..o + 4] == t[p..p + 4]
    ensures Le32(s, o) == Le32(t, p)
  {
    var a, b := s[o..o + 4], t[p..p + 4];
    assert a[0] == b[0] && a[1] == b[1] && a[2] == b[2] && a[3] == b[3];
  }

  lemma Digits(a: byte, x: int, b: byte, y: int)
    requires a as int + 0x100 * x == b as int + 0x100 * y
    ensures a == b && x == y
  {
  }

  /** Four bytes are determined by the word they encode. */
  lemma Le32Injective(s: seq<byte>, o: nat, t: seq<byte>, p: nat)
    requires o + 4 <= |s| && p + 4 <= |t|
    requires Le32(s, o) == Le32(t, p)
    ensures s[o..o + 4] == t[p..p + 4]
  {
    Digits(s[o], s[o + 1] as int + 0x100 * (s[o + 2] as int) + 0x1_0000 * (s[o + 3] as int),
           t[p], t[p + 1] as int + 0x100 * (t[p + 2] as int) + 0x1_0000 * (t[p + 3] as int));
    Digits(s[o + 1], s[o + 2] as int + 0x100 * (s[o + 3] as int), t[p + 1],
      t[p + 2] as int + 0x100 * (t[p + 3] as int));
    Digits(s[o + 2], s[o + 3], t[p + 2], t[p + 3]);
  }

  // ---------- arrays of words ----------

  function Word(b: seq<byte>, i: nat): (w: u32)
    requires 4 * i + 4 <= |b|
  {
    Le32(b, 4 * i)
  }

  function SetWord(b: seq<byte>, i: nat, w: u32): (r: seq<byte>)
    requires 4 * i + 4 <= |b|
    ensures |r| == |b|
  {
    Splice(b, 4 * i, Le32Bytes(w))
  }

  lemma WordOfSetWord(b: seq<byte>, i: nat, w: u32, j: nat)
    requires 4 * i + 4 <= |b| && 4 * j + 4 <= |b|
    ensures Word(SetWord(b, i, w), j) == if i == j then w else Word(b, j)
  {
    if i == j {
      assert SetWord(b, i, w)[4 * j..4 * j + 4] == Le32Bytes(w)[0..4];
      Le32Local(SetWord(b, i, w), 4 * j, Le32Bytes(w), 0);
    } else {
      assert SetWord(b, i, w)[4 * j..4 * j + 4] == b[4 * j..4 * j + 4];
      Le32Local(SetWord(b, i, w), 4 * j, b, 4 * j);
    }
  }

  lemma WordOfZeros(b: seq<byte>, i: nat)
    requires 4 * i + 4 <= |b|
    requires AllZero(b)
    ensures Word(b, i) == 0
  {
  }

  /** The bytes of a sequence of words, lowest word and lowest byte first. */
  function WordBytes(ws: seq<u32>): (b: seq<byte>)
    ensures |b| == 4 * |ws|
  {
    if ws == [] then [] else Le32Bytes(ws[0]) + WordBytes(ws[1..])
  }

  lemma {:induction false} WordOfWordBytes(ws: seq<u32>, i: nat)
    requires i < |ws|
    ensures Word(WordBytes(ws), i) == ws[i]
  {
    var b, rest := WordBytes(ws), WordBytes(ws[1..]);
    if i == 0 {
      assert b[0..4] == Le32Bytes(ws[0])[0..4];
      Le32Local(b, 0, Le32Bytes(ws[0]), 0);
    } else {
      assert b[4 * i..4 * i + 4] == rest[4 * (i - 1)..4 * (i - 1) + 4];
      Le32Local(b, 4 * i, rest, 4 * (i - 1));
      WordOfWordBytes(ws[1..], i - 1);
    }
  }

  /** Only the all-zero bytes encode all-zero words. */
  lemma ZeroWords(b: seq<byte>)
    requires |b| % 4 == 0
    requires forall i: nat :: 4 * i < |b| ==> Word(b, i) == 0
    ensures AllZero(b)
  {
    forall k | 0 <= k < |b| ensures b[k] == 0 {
      assert Word(b, k / 4) == 0;
    }
  }

  // ---------- bits ----------

  /** `x & (1 << k)` is non-zero. */
  predicate Bit(x: nat, k: nat)
    decreases k
  {
    if k == 0 then x % 2 == 1 else Bit(x / 2, k - 1)
  }

  /** `x | (1 << k)` or `x & ~(1 << k)`. */
  function PutBit(x: nat, k: nat, v: bool): (y: nat)
    decreases k
  {
    if k == 0 then x / 2 * 2 + (if v then 1 else 0) else 2 * PutBit(x / 2, k - 1, v) + x % 2
  }

  lemma {:induction false} BitOfPutBit(x: nat, k: nat, v: bool, j: nat)
    ensures Bit(PutBit(x, k, v), j) == if j == k then v else Bit(x, j)
    decreases k
  {
    var y := PutBit(x, k, v);
    if k == 0 {
      assert y / 2 == x / 2;
    } else {
      assert y / 2 == PutBit(x / 2, k - 1, v) && y % 2 == x % 2;
      if j > 0 {
        BitOfPutBit(x / 2, k - 1, v, j - 1);
      }
    }
  }

  function WithBit(x: byte, k: nat, v: bool): (y: byte)
    requires k < 8
  {
    assert Pow2(8) == 0x100 by { assert Pow2(4) == 16; }
    PutBitRange(x, k, v, 7);
    PutBit(x, k, v)
  }

  function Pow2(n: nat): nat {
    if n == 0 then 1 else 2 * Pow2(n - 1)
  }

  lemma {:induction false} PutBitRange(x: nat, k: nat, v: bool, n: nat)
    requires k <= n && x < Pow2(n + 1)
    ensures PutBit(x, k, v) < Pow2(n + 1)
    decreases k
  {
    var p, h := Pow2(n), x / 2;
    assert h < p;
    if k > 0 {
      PutBitRange(h, k - 1, v, n - 1);
    }
  }

  predicate BitAt(b: seq<byte>, i: nat)
    requires i < 8 * |b|
  {
    Bit(b[i / 8], i % 8)
  }

  function SetBitAt(b: seq<byte>, i: nat, v: bool): (r: seq<byte>)
    requires i < 8 * |b|
    ensures |r| == |b|
  {
    b[i / 8 := WithBit(b[i / 8], i % 8, v)]
  }

  lemma BitOfSetBit(b: seq<byte>, i: nat, v: bool, j: nat)
    requires i < 8 * |b| && j < 8 * |b|
    ensures BitAt(SetBitAt(b, i, v), j) == if i == j then v else BitAt(b, j)
  {
    BitOfPutBit(b[i / 8], i % 8, v, j % 8);
  }
}
