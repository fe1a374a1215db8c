/** CRC-32 (section 8 of RFC 1952), bit by bit as the kernel computes it, and what it detects. */
module Crc32 {
  import opened Bytes

  const POLYNOMIAL: u32 := 0xEDB88320

  /** Bitwise exclusive or. */
  function Xor(a: nat, b: nat): (c: nat)
    decreases a + b
  {
    if a == 0 && b == 0 then 0 else 2 * Xor(a / 2, b / 2) + if a % 2 == b % 2 then 0 else 1
  }

  lemma {:induction false} XorBelow(a: nat, b: nat, k: nat)
    requires a < Pow2(k) && b < Pow2(k)
    ensures Xor(a, b) < Pow2(k)
    decreases k
  {
    if a != 0 || b != 0 {
      XorBelow(a / 2, b / 2, k - 1);
    }
  }

  /** Exclusive or with a number whose top bit is set sets that bit. */
  lemma {:induction false} XorTop(a: nat, b: nat, k: nat)
    requires a < Pow2(k) <= b < Pow2(k + 1)
    ensures Pow2(k) <= Xor(a, b) < Pow2(k + 1)
    decreases k
  {
    XorBelow(a, b, k + 1);
    if k > 0 {
      XorTop(a / 2, b / 2, k - 1);
    } else {
      assert Xor(0, 1) == 2 * Xor(0, 0) + 1;
    }
  }

  lemma {:induction false} XorCancel(a: nat, b: nat, c: nat)
    requires Xor(a, c) == Xor(b, c)
    ensures a == b
    decreases a + b + c
  {
    hide Xor;
    if a != 0 || b != 0 || c != 0 {
      XorHalves(a, c);
      XorHalves(b, c);
      XorCancel(a / 2, b / 2, c / 2);
    }
  }

  lemma XorHalves(a: nat, b: nat)
    ensures Xor(a, b) / 2 == Xor(a / 2, b / 2) && (Xor(a, b) % 2 == 1 <==> a % 2 != b % 2)
  {
  }

  lemma XorZero()
    ensures Xor(0, 0) == 0
  {
  }

  lemma {:induction false} XorSwap(a: nat, b: nat)
    ensures Xor(a, b) == Xor(b, a)
    decreases a + b
  {
    if a != 0 || b != 0 {
      XorSwap(a / 2, b / 2);
    }
  }

  lemma {:induction false} XorAssociates(a: nat, b: nat, c: nat)
    ensures Xor(Xor(a, b), c) == Xor(a, Xor(b, c))
    decreases a + b + c
  {
    hide Xor;
    var l, r := Xor(Xor(a, b), c), Xor(a, Xor(b, c));
    if a != 0 || b != 0 || c != 0 {
      XorAssociates(a / 2, b / 2, c / 2);
      XorHalves(a, b);
      XorHalves(b, c);
      XorHalves(Xor(a, b), c);
      XorHalves(a, Xor(b, c));
      assert l % 2 == r % 2 && l / 2 == r / 2;
    } else {
      XorZero();
    }
  }

  lemma Powers()
    ensures Pow2(8) == 0x100 && Pow2(31) == 0x8000_0000 && Pow2(32) == 0x1_0000_0000
  {
    assert Pow2(4) == 16;
    assert Pow2(8) == 0x100;
    assert Pow2(12) == 0x1000;
    assert Pow2(16) == 0x1_0000;
    assert Pow2(20) == 0x10_0000;
    assert Pow2(24) == 0x100_0000;
    assert Pow2(28) == 0x1000_0000;
    assert Pow2(31) == 0x8000_0000;
  }

  // ---------- the register ----------

  /** One bit: shift right, and subtract the polynomial if a one fell out. */
  function BitStep(c: u32): (d: u32) {
    Powers();
    XorBelow(c / 2, POLYNOMIAL, 32);
    if c % 2 == 1 then Xor(c / 2, POLYNOMIAL) else c / 2
  }

  /** A bit step loses nothing: the top bit of the result tells whether a one fell out. */
  lemma BitStepInjective(c: u32, d: u32)
    requires BitStep(c) == BitStep(d)
    ensures c == d
  {
    Powers();
    XorTop(c / 2, POLYNOMIAL, 31);
    XorTop(d / 2, POLYNOMIAL, 31);
    if c % 2 == 1 && d % 2 == 1 {
      XorCancel(c / 2, d / 2, POLYNOMIAL);
    }
  }

  function BitSteps(c: u32, n: nat): (d: u32) {
    if n == 0 then c else BitStep(BitSteps(c, n - 1))
  }

  lemma {:induction false} BitStepsInjective(c: u32, d: u32, n: nat)
    requires BitSteps(c, n) == BitSteps(d, n)
    ensures c == d
  {
    if n > 0 {
      BitStepInjective(BitSteps(c, n - 1), BitSteps(d, n - 1));
      BitStepsInjective(c, d, n - 1);
    }
  }

  function Absorb(c: u32, x: byte): (d: u32) {
    Powers();
    XorBelow(c, x, 32);
    BitSteps(Xor(c, x), 8)
  }

  /** The register after the bytes of `s`, starting from `c`. */
  function Register(c: u32, s: seq<byte>): (d: u32) {
    if s == [] then c else Absorb(Register(c, s[..|s| - 1]), s[|s| - 1])
  }

  function Checksum(s: seq<byte>): (d: u32) {
    0xFFFF_FFFF - Register(0xFFFF_FFFF, s)
  }

  lemma AbsorbInjective(c: u32, x: byte, d: u32, y: byte)
    requires Absorb(c, x) == Absorb(d, y)
    ensures x == y ==> c == d
    ensures c == d ==> x == y
  {
    Powers();
    XorBelow(c, x, 32);
    XorBelow(d, y, 32);
    BitStepsInjective(Xor(c, x), Xor(d, y), 8);
    if x == y { XorCancel(c, d, x); }
    if c == d {
      XorSwap(c, x);
      XorSwap(d, y);
      XorCancel(x, y, c);
    }
  }

  /** Bytes that follow never undo a difference. */
  lemma {:induction false} RegisterInjective(c: u32, d: u32, s: seq<byte>)
    requires Register(c, s) == Register(d, s)
    ensures c == d
  {
    if s != [] {
      var p, x := s[..|s| - 1], s[|s| - 1];
      AbsorbInjective(Register(c, p), x, Register(d, p), x);
      RegisterInjective(c, d, p);
    }
  }

  lemma {:induction false} RegisterSplit(c: u32, s: seq<byte>, t: seq<byte>)
    ensures Register(c, s + t) == Register(Register(c, s), t)
    decreases |t|
  {
    if t == [] {
      assert s + t == s;
    } else {
      var p := t[..|t| - 1];
      assert (s + t)[..|s + t| - 1] == s + p;
      RegisterSplit(c, s, p);
    }
  }

  // ---------- bursts ----------

  /** Exclusive or of numbers without common bits is their sum. */
  lemma {:induction false} XorDisjoint(a: nat, b: nat, k: nat)
    requires a < Pow2(k)
    ensures Xor(a, Pow2(k) * b) == a + Pow2(k) * b
    decreases k
  {
    if k == 0 {
      XorZeroLeft(b);
    } else {
      var m := Pow2(k - 1) * b;
      assert Pow2(k) * b == 2 * m;
      XorHalves(a, 2 * m);
      XorDisjoint(a / 2, b, k - 1);
    }
  }

  lemma {:induction false} XorZeroLeft(b: nat)
    ensures Xor(0, b) == b
    decreases b
  {
    if b != 0 {
      XorZeroLeft(b / 2);
    }
  }

  lemma XorEven(a: nat, d: nat)
    ensures Xor(a, 2 * d) / 2 == Xor(a / 2, d) && Xor(a, 2 * d) % 2 == a % 2
  {
    hide Xor;
    XorHalves(a, 2 * d);
  }

  /** Bits above the lowest only move down in a bit step. */
  lemma BitStepHigh(a: u32, d: nat)
    requires 2 * d < 0x1_0000_0000
    ensures Xor(a, 2 * d) < 0x1_0000_0000 && Xor(BitStep(a), d) < 0x1_0000_0000
    ensures BitStep(Xor(a, 2 * d)) == Xor(BitStep(a), d)
  {
    hide Xor;
    XorInRange(a, 2 * d);
    XorInRange(BitStep(a), d);
    XorEven(a, d);
    if a % 2 == 1 {
      XorAssociates(a / 2, d, POLYNOMIAL);
      XorSwap(d, POLYNOMIAL);
      XorAssociates(a / 2, POLYNOMIAL, d);
    }
  }

  lemma {:induction false} BitStepsHigh(a: u32, d: nat, n: nat)
    requires Pow2(n) * d < 0x1_0000_0000
    ensures Xor(a, Pow2(n) * d) < 0x1_0000_0000 && Xor(BitSteps(a, n), d) < 0x1_0000_0000
    ensures BitSteps(Xor(a, Pow2(n) * d), n) == Xor(BitSteps(a, n), d)
    decreases n
  {
    hide Xor, BitStep;
    if n == 0 {
      Powers();
      XorBelow(a, d, 32);
    } else {
      assert Pow2(n) * d == Pow2(n - 1) * (2 * d);
      PowPositive(n - 1);
      Grows(Pow2(n - 1), 2 * d);
      BitStepsHigh(a, 2 * d, n - 1);
      BitStepHigh(BitSteps(a, n - 1), d);
    }
  }

  lemma Grows(a: nat, b: nat)
    requires a > 0
    ensures a * b >= b
  {
  }

  lemma {:induction false} PowPositive(n: nat)
    ensures Pow2(n) > 0
  {
    if n > 0 { PowPositive(n - 1); }
  }

  lemma {:induction false} BitStepsAdd(c: u32, m: nat, n: nat)
    ensures BitSteps(BitSteps(c, m), n) == BitSteps(c, m + n)
  {
    if n > 0 { BitStepsAdd(c, m, n - 1); }
  }

  /** The number that `x` encodes, lowest byte first. */
  function Value(x: seq<byte>): (w: nat) {
    if x == [] then 0 else Value(x[..|x| - 1]) + Pow2(8 * (|x| - 1)) * x[|x| - 1]
  }

  lemma {:induction false} ValueBelow(x: seq<byte>)
    ensures Value(x) < Pow2(8 * |x|)
  {
    if x != [] {
      var k, b := 8 * (|x| - 1), x[|x| - 1] as int;
      ValueBelow(x[..|x| - 1]);
      PowAdd(k, 8);
      Powers();
      assert Pow2(k) * b + Pow2(k) <= Pow2(k) * 0x100 by { MulLess(Pow2(k), b + 1, 0x100); }
    }
  }

  lemma MulLess(a: nat, b: nat, c: nat)
    requires b <= c
    ensures a * b <= a * c
  {
  }

  lemma {:induction false} PowAdd(m: nat, n: nat)
    ensures Pow2(m + n) == Pow2(m) * Pow2(n)
  {
    if n > 0 { PowAdd(m, n - 1); }
  }

  lemma {:induction false} ValueInjective(x: seq<byte>, y: seq<byte>)
    requires |x| == |y| && Value(x) == Value(y)
    ensures x == y
  {
    if x != [] {
      var k := |x| - 1;
      ValueBelow(x[..k]);
      ValueBelow(y[..k]);
      PlaceUnique(Pow2(8 * k), Value(x[..k]), x[k], Value(y[..k]), y[k]);
      ValueInjective(x[..k], y[..k]);
      assert x == x[..k] + [x[k]] && y == y[..k] + [y[k]];
    }
  }

  lemma PlaceUnique(p: nat, a: nat, x: nat, b: nat, y: nat)
    requires a < p && b < p && a + p * x == b + p * y
    ensures a == b && x == y
  {
    if x < y { MulLess(p, x + 1, y); }
    if y < x { MulLess(p, y + 1, x); }
  }

  /** Absorbing up to four bytes is one exclusive or, and then bit steps only. */
  lemma {:induction false} Word32(c: u32, x: seq<byte>)
    requires |x| <= 4
    ensures Xor(c, Value(x)) < 0x1_0000_0000 && Register(c, x) == BitSteps(Xor(c, Value(x)), 8 * |x|)
  {
    hide Xor, BitStep;
    ValueRange(x);
    XorInRange(c, Value(x));
    if x == [] {
      XorSwap(c, 0);
      XorZeroLeft(c);
    } else {
      var p, b, k := x[..|x| - 1], x[|x| - 1] as int, 8 * (|x| - 1);
      Word32(c, p);
      var a := Xor(c, Value(p));
      BitStepsHigh(a, b, k);
      XorAssociates(c, Value(p), Pow2(k) * b);
      ValueBelow(p);
      XorDisjoint(Value(p), b, k);
      BitStepsAdd(Xor(c, Value(x)), k, 8);
    }
  }

  lemma ValueRange(x: seq<byte>)
    requires |x| <= 4
    ensures Value(x) < 0x1_0000_0000
    ensures x != [] ==> Pow2(8 * (|x| - 1)) * x[|x| - 1] < 0x1_0000_0000
  {
    ValueBelow(x);
    Powers();
    assert Pow2(16) == 0x1_0000 by { assert Pow2(12) == 0x1000; }
    assert Pow2(24) == 0x100_0000 by { assert Pow2(20) == 0x10_0000; }
  }

  lemma XorInRange(a: u32, b: u32)
    ensures Xor(a, b) < 0x1_0000_0000
  {
    Powers();
    XorBelow(a, b, 32);
  }

  /** Two texts that differ within four consecutive bytes only have different checksums. */
  lemma BurstDetected(p: seq<byte>, x: seq<byte>, y: seq<byte>, q: seq<byte>)
    requires |x| == |y| <= 4 && x != y
    ensures Checksum(p + (x + q)) != Checksum(p + (y + q))
  {
    hide Xor, BitSteps;
    var r := Register(0xFFFF_FFFF, p);
    RegisterSplit(0xFFFF_FFFF, p, x + q);
    RegisterSplit(0xFFFF_FFFF, p, y + q);
    RegisterSplit(r, x, q);
    RegisterSplit(r, y, q);
    if Checksum(p + (x + q)) == Checksum(p + (y + q)) {
      RegisterInjective(Register(r, x), Register(r, y), q);
      WordsEqual(r, x, y);
    }
  }

  lemma WordsEqual(r: u32, x: seq<byte>, y: seq<byte>)
    requires |x| == |y| <= 4 && Register(r, x) == Register(r, y)
    ensures x == y
  {
    hide Xor, BitSteps, Register;
    Word32(r, x);
    Word32(r, y);
    BitStepsInjective(Xor(r, Value(x)), Xor(r, Value(y)), 8 * |x|);
    XorSwap(r, Value(x));
    XorSwap(r, Value(y));
    XorCancel(Value(x), Value(y), r);
    ValueInjective(x, y);
  }
}
