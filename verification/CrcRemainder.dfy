/** The checksum is CRC-32: a remainder in the division of polynomials over the two-element field
    (section 3.2.9 of IEEE 802.3, as used by RFC 1952). */
module CrcRemainder {
  import opened Bytes
  import opened Crc32

  // ---------- polynomials ----------

  /** A polynomial with coefficients 0 and 1, as the set of the exponents of its terms. */
  type Polynomial = set<nat>

  ghost function Divisor(): (p: Polynomial)
    ensures Below(p, 33) && 32 in p
  {
    {32, 26, 23, 22, 16, 12, 11, 10, 8, 7, 5, 4, 2, 1, 0}
  }

  /** Terms that occur twice cancel. */
  ghost function Plus(a: Polynomial, b: Polynomial): (c: Polynomial)
    ensures forall e {:trigger e in c} :: e in c <==> (e in a) != (e in b)
  {
    (a - b) + (b - a)
  }

  /** The product with the `k`-th power of the variable. */
  ghost function Shift(a: Polynomial, k: nat): (b: Polynomial)
    ensures forall e {:trigger e in b} :: e in b <==> e >= k && e - k in a
  {
    var b := set e | e in a :: Raised(e, k);
    forall e | e >= k && e - k in a ensures e in b { assert Raised(e - k, k) in b; }
    b
  }

  function Raised(e: nat, k: nat): (f: nat) { e + k }

  /** The product of the divisor and a quotient, given by its coefficients, highest first. */
  ghost function Product(q: seq<bool>): (p: Polynomial) {
    if q == [] then {} else Plus(Shift(Product(q[..|q| - 1]), 1), Once(q[|q| - 1]))
  }

  ghost function Once(bit: bool): (p: Polynomial) { if bit then Divisor() else {} }

  ghost predicate Below(a: Polynomial, n: nat) { forall e :: e in a ==> e < n }

  /** `r` is what is left when `d` is divided by the divisor. */
  ghost predicate Remainder(d: Polynomial, r: Polynomial) {
    Below(r, 32) && exists q :: Plus(r, d) == Product(q)
  }

  // ---------- remainders are unique ----------

  /** A product is zero or has a term above all possible remainders. */
  lemma {:induction false} ProductHigh(q: seq<bool>)
    ensures Below(Product(q), 32 + |q|)
    ensures Product(q) == {} || exists e :: e in Product(q) && e >= 32
  {
    hide Divisor, Plus, Shift;
    if q != [] {
      var p := q[..|q| - 1];
      ProductHigh(p);
      if Product(p) == {} {
        assert Shift(Product(p), 1) == {};
        if q[|q| - 1] { assert 32 in Product(q); }
      } else {
        var e :| e in Product(p) && e >= 32;
        assert e + 1 in Shift(Product(p), 1);
        assert e + 1 in Product(q);
      }
    }
  }

  function Added(q: seq<bool>, r: seq<bool>): (s: seq<bool>)
    requires |q| == |r|
    ensures |s| == |q| && forall i :: 0 <= i < |q| ==> s[i] == (q[i] != r[i])
  {
    seq(|q|, i requires 0 <= i < |q| => q[i] != r[i])
  }

  lemma {:induction false} ProductsAdded(q: seq<bool>, r: seq<bool>)
    requires |q| == |r|
    ensures Product(Added(q, r)) == Plus(Product(q), Product(r))
  {
    hide Divisor, Plus, Shift;
    if q != [] {
      var p, s := q[..|q| - 1], r[..|r| - 1];
      ProductsAdded(p, s);
      assert Added(q, r)[..|q| - 1] == Added(p, s);
    }
  }

  function Padded(q: seq<bool>, n: nat): (r: seq<bool>) { seq(n, _ => false) + q }

  lemma {:induction false} NoProduct(n: nat)
    ensures Product(seq(n, _ => false)) == {}
  {
    if n > 0 {
      assert seq(n, _ => false)[..n - 1] == seq(n - 1, _ => false);
      NoProduct(n - 1);
    }
  }

  lemma {:induction false} PaddedProduct(q: seq<bool>, n: nat)
    ensures Product(Padded(q, n)) == Product(q)
    decreases |q|
  {
    hide Divisor, Plus, Shift;
    if q == [] {
      assert Padded(q, n) == seq(n, _ => false);
      NoProduct(n);
    } else {
      assert Padded(q, n)[..|q| + n - 1] == Padded(q[..|q| - 1], n);
      PaddedProduct(q[..|q| - 1], n);
    }
  }

  lemma RemainderUnique(d: Polynomial, a: Polynomial, b: Polynomial)
    requires Remainder(d, a) && Remainder(d, b)
    ensures a == b
  {
    hide Product;
    var q :| Plus(a, d) == Product(q);
    var r :| Plus(b, d) == Product(r);
    var x, y := Padded(q, |r|), Padded(r, |q|);
    PaddedProduct(q, |r|);
    PaddedProduct(r, |q|);
    ProductsAdded(x, y);
    ProductHigh(Added(x, y));
    assert Product(Added(x, y)) == Plus(a, b);
  }

  // ---------- bits ----------

  predicate BitOf(c: nat, i: nat) {
    if i == 0 then c % 2 == 1 else BitOf(c / 2, i - 1)
  }

  lemma {:induction false} XorBit(a: nat, b: nat, i: nat)
    ensures BitOf(Xor(a, b), i) <==> BitOf(a, i) != BitOf(b, i)
    decreases i
  {
    hide Xor;
    XorHalves(a, b);
    if i > 0 { XorBit(a / 2, b / 2, i - 1); }
  }

  lemma {:induction false} NoHighBit(c: nat, k: nat, i: nat)
    requires c < Pow2(k) && k <= i
    ensures !BitOf(c, i)
    decreases i
  {
    if i > 0 { NoHighBit(c / 2, if k == 0 then 0 else k - 1, i - 1); }
  }

  lemma {:induction false} ComplementBit(c: nat, k: nat, i: nat)
    requires c < Pow2(k) && i < k
    ensures BitOf(Pow2(k) - 1 - c, i) <==> !BitOf(c, i)
    decreases i
  {
    if i > 0 {
      assert (Pow2(k) - 1 - c) / 2 == Pow2(k - 1) - 1 - c / 2;
      ComplementBit(c / 2, k - 1, i - 1);
    }
  }

  /** The register as a polynomial: its lowest bit is the highest coefficient. */
  ghost function Terms(c: nat): (a: Polynomial)
    ensures forall e: nat {:trigger e in a} :: e in a <==> e < 32 && BitOf(c, 31 - e)
  {
    set e: nat | e < 32 && Coefficient(c, 31, e)
  }

  ghost function ByteTerms(x: nat): (a: Polynomial)
    ensures forall e: nat {:trigger e in a} :: e in a <==> e < 8 && BitOf(x, 7 - e)
  {
    set e: nat | e < 8 && Coefficient(x, 7, e)
  }

  predicate Coefficient(c: nat, top: nat, e: nat) { e <= top && BitOf(c, top - e) }

  /** The polynomial with all 32 terms that a register can have. */
  ghost function AllTerms(): (a: Polynomial)
    ensures forall e: nat {:trigger e in a} :: e in a <==> e < 32
  {
    {0, 1, 2, 3, 4, 5, 6, 7, 8, 9, 10, 11, 12, 13, 14, 15,
     16, 17, 18, 19, 20, 21, 22, 23, 24, 25, 26, 27, 28, 29, 30, 31}
  }

  /** The bytes one after the other, each with its lowest bit first. */
  ghost function Message(s: seq<byte>): (a: Polynomial) {
    if s == [] then {} else Plus(Shift(Message(s[..|s| - 1]), 8), ByteTerms(s[|s| - 1]))
  }

  lemma XorTerms(a: nat, b: nat)
    ensures Terms(Xor(a, b)) == Plus(Terms(a), Terms(b))
  {
    hide Xor, BitOf;
    forall e: nat ensures e in Terms(Xor(a, b)) <==> e in Plus(Terms(a), Terms(b)) {
      if e < 32 { XorBit(a, b, 31 - e); }
    }
  }

  lemma ComplementTerms(c: u32)
    ensures Terms(0xFFFF_FFFF - c) == Plus(Terms(c), AllTerms())
  {
    hide BitOf, AllTerms, Terms, Plus;
    Powers();
    forall e: nat ensures e in Terms(0xFFFF_FFFF - c) <==> e in Plus(Terms(c), AllTerms()) {
      if e < 32 { ComplementBit(c, 32, 31 - e); }
    }
  }

  lemma ByteInRegister(x: byte)
    ensures Terms(x) == Shift(ByteTerms(x), 24)
  {
    hide BitOf;
    Powers();
    forall e: nat ensures e in Terms(x) <==> e in Shift(ByteTerms(x), 24) {
      if e < 24 { NoHighBit(x, 8, 31 - e); }
    }
  }

  lemma FourBits(h: nat, n: nat, i: nat)
    requires n < 16
    ensures BitOf(16 * h + n, 0) == (n % 2 == 1) && BitOf(16 * h + n, 1) == (n / 2 % 2 == 1)
    ensures BitOf(16 * h + n, 2) == (n / 4 % 2 == 1) && BitOf(16 * h + n, 3) == (n / 8 == 1)
    ensures BitOf(16 * h + n, i + 4) == BitOf(h, i)
  {
    hide BitOf;
    var h1, h2, h3 := 8 * h + n / 2, 4 * h + n / 4, 2 * h + n / 8;
    Half(h1, n % 2, 0);
    Half(h1, n % 2, 1);
    Half(h1, n % 2, 2);
    Half(h1, n % 2, i + 3);
    Half(h2, n / 2 % 2, 0);
    Half(h2, n / 2 % 2, 1);
    Half(h2, n / 2 % 2, i + 2);
    Half(h3, n / 4 % 2, 0);
    Half(h3, n / 4 % 2, i + 1);
    Half(h, n / 8, i);
  }

  lemma Half(h: nat, b: nat, i: nat)
    requires b < 2
    ensures BitOf(2 * h + b, i + 1) == BitOf(h, i) && BitOf(2 * h + b, 0) == (b == 1)
  {
  }

  /** Bits of a number by its sixteen-digits, highest first. */
  function Digits16(d: seq<nat>): (c: nat) {
    if d == [] then 0 else 16 * Digits16(d[..|d| - 1]) + d[|d| - 1]
  }

  predicate DigitBit(n: nat, i: nat) {
    if i == 0 then n % 2 == 1 else if i == 1 then n / 2 % 2 == 1 else if i == 2 then n / 4 % 2 == 1 else n / 8 == 1
  }

  lemma {:induction false} DigitsBit(d: seq<nat>, i: nat)
    requires (forall k :: 0 <= k < |d| ==> d[k] < 16) && i < 4 * |d|
    ensures BitOf(Digits16(d), i) == DigitBit(d[|d| - 1 - i / 4], i % 4)
    decreases |d|
  {
    var h, n := d[..|d| - 1], d[|d| - 1];
    if i < 4 {
      FourBits(Digits16(h), n, 0);
    } else {
      FourBits(Digits16(h), n, i - 4);
      DigitsBit(h, i - 4);
    }
  }

  /** The kernel's constant is the divisor without its highest term. */
  lemma PolynomialTerms()
    ensures Terms(POLYNOMIAL) == Divisor() - {32}
  {
    hide BitOf;
    var d: seq<nat> := [0xE, 0xD, 0xB, 0x8, 0x8, 0x3, 0x2, 0x0];
    assert Digits16(d) == POLYNOMIAL by {
      assert d[..7][..6] == d[..6] && d[..6][..5] == d[..5] && d[..5][..4] == d[..4];
      assert d[..4][..3] == d[..3] && d[..3][..2] == d[..2] && d[..2][..1] == d[..1] && d[..1][..0] == [];
      assert Digits16(d[..0]) == 0 && Digits16(d[..1]) == 0xE;
      assert Digits16(d[..2]) == 0xED;
      assert Digits16(d[..4]) == 0xEDB8;
      assert Digits16(d[..6]) == 0xEDB883;
    }
    forall e: nat ensures e in Terms(POLYNOMIAL) <==> e in Divisor() && e != 32 {
      if e < 32 { DigitsBit(d, 31 - e); }
    }
  }

  // ---------- the register holds a remainder ----------

  /** A bit step multiplies by the variable, and takes the divisor away if a term got too high. */
  lemma BitStepTerms(c: u32)
    ensures Plus(Terms(BitStep(c)), Once(c % 2 == 1)) == Shift(Terms(c), 1)
  {
    hide BitOf, Terms, Shift, Plus, Divisor, Xor;
    Powers();
    HalfTerms(c);
    if c % 2 == 1 {
      XorTerms(c / 2, POLYNOMIAL);
      PolynomialTerms();
    }
  }

  lemma HalfTerms(c: u32)
    ensures Plus(Terms(c / 2), if c % 2 == 1 then {32} else {}) == Shift(Terms(c), 1)
  {
    hide Terms, Shift, Plus;
    Powers();
    NoHighBit(c, 32, 32);
    forall e: nat ensures e in Plus(Terms(c / 2), if c % 2 == 1 then {32} else {}) <==> e in Shift(Terms(c), 1) {
      if 1 <= e <= 32 { assert BitOf(c, 32 - e) == if e == 32 then c % 2 == 1 else BitOf(c / 2, 31 - e); }
    }
  }

  lemma {:induction false} BitStepsTerms(c: u32, n: nat, d: Polynomial, q: seq<bool>) returns (q': seq<bool>)
    requires Plus(Terms(c), d) == Product(q)
    ensures Plus(Terms(BitSteps(c, n)), Shift(d, n)) == Product(q')
  {
    hide Terms, Shift, Plus, Divisor, BitStep, Product;
    if n == 0 {
      q' := q;
      assert Shift(d, 0) == d;
    } else {
      var p := BitStepsTerms(c, n - 1, d, q);
      var b := BitSteps(c, n - 1);
      q' := p + [b % 2 == 1];
      BitStepTerms(b);
      OneMoreDigit(p, b % 2 == 1);
      assert Shift(Shift(d, n - 1), 1) == Shift(d, n);
      StepAlgebra(Terms(b), Terms(BitStep(b)), Shift(d, n - 1), Once(b % 2 == 1));
    }
  }

  lemma OneMoreDigit(q: seq<bool>, bit: bool)
    ensures Product(q + [bit]) == Plus(Shift(Product(q), 1), Once(bit))
  {
    assert (q + [bit])[..|q + [bit]| - 1] == q;
  }

  lemma StepAlgebra(a: Polynomial, b: Polynomial, d: Polynomial, once: Polynomial)
    requires Plus(b, once) == Shift(a, 1)
    ensures Plus(b, Shift(d, 1)) == Plus(Shift(Plus(a, d), 1), once)
  {
    hide Shift, Plus;
    forall e: nat ensures e in Plus(b, Shift(d, 1)) <==> e in Plus(Shift(Plus(a, d), 1), once) {
      assert e in Plus(b, once) <==> e in Shift(a, 1);
    }
  }

  /** The polynomial that is divided: the start value above the message, and the message with 32
      places after it. */
  ghost function Dividend(c: u32, s: seq<byte>): (d: Polynomial) {
    Plus(Shift(Terms(c), 8 * |s|), Shift(Message(s), 32))
  }

  lemma {:induction false} RegisterDivides(c: u32, s: seq<byte>) returns (q: seq<bool>)
    ensures Plus(Terms(Register(c, s)), Dividend(c, s)) == Product(q)
  {
    hide Terms, Shift, Plus, Absorb, Product;
    if s == [] {
      q := [];
      assert Shift(Terms(c), 0) == Terms(c) && Shift({}, 32) == {};
      assert Plus(Terms(c), Dividend(c, s)) == {};
      NothingTimes();
    } else {
      var p, x := s[..|s| - 1], s[|s| - 1];
      q := RegisterDivides(c, p);
      q := AbsorbDivides(Register(c, p), x, Dividend(c, p), q);
      DividendGrows(c, s);
    }
  }

  lemma NothingTimes()
    ensures Product([]) == {}
  {
  }

  lemma AbsorbDivides(c: u32, x: byte, d: Polynomial, q: seq<bool>) returns (q': seq<bool>)
    requires Plus(Terms(c), d) == Product(q)
    ensures Plus(Terms(Absorb(c, x)), Shift(Plus(d, Shift(ByteTerms(x), 24)), 8)) == Product(q')
  {
    hide Terms, Shift, Plus, Product, Xor, BitSteps, ByteTerms;
    XorInRange(c, x);
    XorTerms(c, x);
    ByteInRegister(x);
    var b := Shift(ByteTerms(x), 24);
    assert Plus(Plus(Terms(c), b), Plus(d, b)) == Plus(Terms(c), d);
    q' := BitStepsTerms(Xor(c, x), 8, Plus(d, b), q);
  }

  lemma DividendGrows(c: u32, s: seq<byte>)
    requires s != []
    ensures Dividend(c, s) == Shift(Plus(Dividend(c, s[..|s| - 1]), Shift(ByteTerms(s[|s| - 1]), 24)), 8)
  {
    hide Terms, Shift, Plus, ByteTerms;
  }

  /** What the register holds is the remainder of the dividend. */
  lemma RegisterIsRemainder(c: u32, s: seq<byte>)
    ensures Remainder(Dividend(c, s), Terms(Register(c, s)))
  {
    hide Terms, Plus, Dividend, Product, Register;
    var q := RegisterDivides(c, s);
  }

  /** CRC-32: start with all ones, divide, and complement. No other number is this remainder. */
  lemma ChecksumIsCrc32(s: seq<byte>, w: u32)
    ensures Remainder(Dividend(0xFFFF_FFFF, s), Plus(Terms(w), AllTerms())) <==> w == Checksum(s)
  {
    hide Plus, Dividend, Register, Remainder, BitOf, AllTerms;
    var r := Register(0xFFFF_FFFF, s);
    RegisterIsRemainder(0xFFFF_FFFF, s);
    ComplementTerms(r);
    assert Plus(Terms(Checksum(s)), AllTerms()) == Terms(r);
    if Remainder(Dividend(0xFFFF_FFFF, s), Plus(Terms(w), AllTerms())) {
      RemainderUnique(Dividend(0xFFFF_FFFF, s), Plus(Terms(w), AllTerms()), Terms(r));
      assert Plus(Plus(Terms(w), AllTerms()), AllTerms()) == Terms(w);
      assert Terms(w) == Terms(Checksum(s));
      TermsDetermine(w, Checksum(s));
    }
  }

  lemma TermsDetermine(a: u32, b: u32)
    requires Terms(a) == Terms(b)
    ensures a == b
  {
    hide Terms, BitOf;
    Powers();
    forall i | 0 <= i < 32 ensures BitOf(a, i) == BitOf(b, i) {
      assert (31 - i in Terms(a)) == (31 - i in Terms(b));
    }
    BitsDetermine(a, b, 32);
  }

  lemma {:induction false} BitsDetermine(a: nat, b: nat, k: nat)
    requires a < Pow2(k) && b < Pow2(k) && forall i :: 0 <= i < k ==> BitOf(a, i) == BitOf(b, i)
    ensures a == b
    decreases k
  {
    if k > 0 {
      assert BitOf(a, 0) == BitOf(b, 0);
      forall i | 0 <= i < k - 1 ensures BitOf(a / 2, i) == BitOf(b / 2, i) {
        assert BitOf(a, i + 1) == BitOf(b, i + 1);
      }
      BitsDetermine(a / 2, b / 2, k - 1);
    }
  }
}
