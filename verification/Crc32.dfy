/** CRC32C as the CRC32 instruction computes it (blink/crc32.c), table-driven and bit by bit. */
module Crc32 {
  import opened Bits
  import Bitscan

  /** The Castagnoli polynomial, section 12.1 of RFC 3720. */
  const POLY: nat := 0x1edc6f41

  // ----- reversing bits -----

  /** SWAP32 */
  function Swap(x: nat): nat
    requires x < DWORD
  {
    var y := x / 256;
    var z := y / 256;
    z / 256 + 256 * (z % 256 + 256 * (y % 256 + 256 * (x % 256)))
  }

  /** Exchanges neighbouring groups of s bits; hi is the mask of the upper group of each pair, lo that of the lower. */
  function Exchange(x: nat, hi: nat, lo: nat, s: nat): nat {
    BitOr(Shr(BitAnd(x, hi), s), BitAnd(x, lo) * Pow2(s))
  }

  function ReverseBits32(x: nat): nat
    requires x < DWORD
  {
    Exchange(Exchange(Exchange(Swap(x), 0xaaaaaaaa, 0x55555555, 1), 0xcccccccc, 0x33333333, 2), 0xf0f0f0f0, 0x0f0f0f0f,
        4)
  }

  /** Where the bit at i comes from. */
  function SwapFrom(i: nat): nat
    requires i < 32
  {
    if i < 8 then i + 24 else if i < 16 then i + 8 else if i < 24 then i - 8 else i - 24
  }

  function Flip1(i: nat): nat {
    if i % 2 == 0 then i + 1 else i - 1
  }

  function Flip2(i: nat): nat {
    if i % 4 < 2 then i + 2 else i - 2
  }

  function Flip4(i: nat): nat {
    if i % 8 < 4 then i + 4 else i - 4
  }

  /** Every flip stays inside its byte. */
  lemma Within1(q: nat, r: nat)
    requires r < 8
    ensures Flip1(r) < 8 && Flip1(8 * q + r) == 8 * q + Flip1(r)
  {
    assert r + 4 * q * 2 == 8 * q + r;
    ModShift(r, 4 * q, 2);
  }

  lemma Within2(q: nat, r: nat)
    requires r < 8
    ensures Flip2(r) < 8 && Flip2(8 * q + r) == 8 * q + Flip2(r)
  {
    assert r + 2 * q * 4 == 8 * q + r;
    ModShift(r, 2 * q, 4);
  }

  lemma Within4(q: nat, r: nat)
    requires r < 8
    ensures Flip4(r) < 8 && Flip4(8 * q + r) == 8 * q + Flip4(r)
  {
    assert r + q * 8 == 8 * q + r;
    ModShift(r, q, 8);
  }

  lemma FlipSmall(r: nat)
    requires r < 8
    ensures Flip1(Flip2(Flip4(r))) == 7 - r
  {
  }

  lemma FlipByte(i: nat)
    ensures Flip1(Flip2(Flip4(i))) == 8 * (i / 8) + (7 - i % 8)
    ensures Flip4(i) / 8 == Flip2(Flip4(i)) / 8 == i / 8
  {
    hide Flip1, Flip2, Flip4;
    var q, r := i / 8, i % 8;
    Within4(q, r);
    Within2(q, Flip4(r));
    Within1(q, Flip2(Flip4(r)));
    FlipSmall(r);
  }

  lemma FlipAll(i: nat)
    requires i < 32
    ensures Flip4(i) < 32 && Flip2(Flip4(i)) < 32 && Flip1(Flip2(Flip4(i))) < 32
    ensures SwapFrom(Flip1(Flip2(Flip4(i)))) == 31 - i
  {
    hide Flip1, Flip2, Flip4;
    FlipByte(i);
  }

  lemma SwapBit(x: nat, i: nat)
    requires x < DWORD
    ensures Bit(Swap(x), i) <==> i < 32 && Bit(x, SwapFrom(i))
  {
    hide Bit, Swap;
    Bytes(x);
    var y := x / 256;
    var b0, b1, b2, b3 := x % 256, y % 256, y / 256 % 256, y / 256 / 256;
    FourBytes(b3, b2, b1, b0, i);
    if i < 32 { FourBytes(b0, b1, b2, b3, SwapFrom(i)); }
  }

  lemma Bytes(x: nat)
    requires x < DWORD
    ensures var y := x / 256;
            var b0, b1, b2, b3 := x % 256, y % 256, y / 256 % 256, y / 256 / 256;
            && b3 < 256 && x == b0 + 256 * (b1 + 256 * (b2 + 256 * b3)) &&
                Swap(x) == b3 + 256 * (b2 + 256 * (b1 + 256 * b0))
  {
  }

  lemma FourBytes(b0: nat, b1: nat, b2: nat, b3: nat, i: nat)
    requires b0 < 256 && b1 < 256 && b2 < 256 && b3 < 256
    ensures Bit(b0 + 256 * (b1 + 256 * (b2 + 256 * b3)), i) <==>
            if i < 8 then Bit(b0, i) else if i < 16 then Bit(b1, i - 8) else if i < 24 then Bit(b2, i - 16)
                else i < 32 && Bit(b3, i - 24)
  {
    hide Bit, Pow2;
    Bitscan.SmallPow2();
    AppendBit(b0, 8, b1 + 256 * (b2 + 256 * b3), i);
    if i >= 8 { AppendBit(b1, 8, b2 + 256 * b3, i - 8); }
    if i >= 16 { AppendBit(b2, 8, b3, i - 16); }
    if i >= 32 { HighBits(b3, 8, i - 24); }
  }

  /** One exchange moves every bit to the other half of its pair. */
  lemma ExchangeBit(x: nat, hi: nat, lo: nat, s: nat, i: nat)
    ensures Bit(Exchange(x, hi, lo, s), i) <==>
            (Bit(x, i + s) && Bit(hi, i + s)) || (i >= s && Bit(x, i - s) && Bit(lo, i - s))
  {
    hide Bit, BitAnd, BitOr, Shr, Pow2;
    OrBit(Shr(BitAnd(x, hi), s), BitAnd(x, lo) * Pow2(s), i);
    ShrBit(BitAnd(x, hi), s, i);
    AndBit(x, hi, i + s);
    ShlBit(BitAnd(x, lo), s, i);
    if i >= s { AndBit(x, lo, i - s); }
  }

  lemma Complement(hi: nat, d: nat)
    requires hi < DWORD && d < 32
    ensures Bit(DWORD - 1 - hi, d) <==> !Bit(hi, d)
  {
    Pow2Words();
    NotBit(hi, 32, d);
  }

  /** No bit of x at or above 32. */
  ghost predicate Fits(x: nat) {
    forall i: nat :: i >= 32 ==> !Bit(x, i)
  }

  lemma Exchange1(x: nat, i: nat)
    requires Fits(x)
    ensures Bit(Exchange(x, 0xaaaaaaaa, 0x55555555, 1), i) <==> i < 32 && Bit(x, Flip1(i))
  {
    hide Bit, Exchange;
    ExchangeBit(x, 0xaaaaaaaa, 0x55555555, 1, i);
    if i + 1 < 32 { Bitscan.Mask1(i + 1); }
    if 1 <= i <= 32 {
      Complement(0xaaaaaaaa, i - 1);
      Bitscan.Mask1(i - 1);
    }
  }

  lemma Exchange2(x: nat, i: nat)
    requires Fits(x)
    ensures Bit(Exchange(x, 0xcccccccc, 0x33333333, 2), i) <==> i < 32 && Bit(x, Flip2(i))
  {
    hide Bit, Exchange;
    ExchangeBit(x, 0xcccccccc, 0x33333333, 2, i);
    if i + 2 < 32 { Bitscan.Mask2(i + 2); }
    if 2 <= i <= 33 {
      Complement(0xcccccccc, i - 2);
      Bitscan.Mask2(i - 2);
    }
  }

  lemma Exchange4(x: nat, i: nat)
    requires Fits(x)
    ensures Bit(Exchange(x, 0xf0f0f0f0, 0x0f0f0f0f, 4), i) <==> i < 32 && Bit(x, Flip4(i))
  {
    hide Bit, Exchange;
    ExchangeBit(x, 0xf0f0f0f0, 0x0f0f0f0f, 4, i);
    if i + 4 < 32 { Bitscan.Mask4(i + 4); }
    if 4 <= i <= 35 {
      Complement(0xf0f0f0f0, i - 4);
      Bitscan.Mask4(i - 4);
    }
  }

  lemma FitsAll(x: nat)
    requires x < DWORD
    ensures Fits(Swap(x))
    ensures var x1 := Exchange(Swap(x), 0xaaaaaaaa, 0x55555555, 1);
            Fits(x1) && Fits(Exchange(x1, 0xcccccccc, 0x33333333, 2))
  {
    hide Bit, Exchange, Swap;
    var x0 := Swap(x);
    forall j: nat | j >= 32 ensures !Bit(x0, j) { SwapBit(x, j); }
    var x1 := Exchange(x0, 0xaaaaaaaa, 0x55555555, 1);
    forall j: nat | j >= 32 ensures !Bit(x1, j) { Exchange1(x0, j); }
    forall j: nat | j >= 32 ensures !Bit(Exchange(x1, 0xcccccccc, 0x33333333, 2), j) { Exchange2(x1, j); }
  }

  /** ReverseBits32 reverses the 32 bits. */
  lemma ReverseBit(x: nat, i: nat)
    requires x < DWORD
    ensures Bit(ReverseBits32(x), i) <==> i < 32 && Bit(x, 31 - i)
  {
    hide Bit, Exchange, Swap, Fits;
    FitsAll(x);
    var x0 := Swap(x);
    var x1 := Exchange(x0, 0xaaaaaaaa, 0x55555555, 1);
    var x2 := Exchange(x1, 0xcccccccc, 0x33333333, 2);
    Exchange4(x2, i);
    if i < 32 {
      hide Flip4, Flip2, Flip1, SwapFrom;
      FlipAll(i);
      Exchange2(x1, Flip4(i));
      Exchange1(x0, Flip2(Flip4(i)));
      SwapBit(x, Flip1(Flip2(Flip4(i))));
    }
  }

  lemma {:induction false} FitsBound(x: nat, n: nat)
    requires forall i: nat :: i >= n ==> !Bit(x, i)
    ensures x < Pow2(n)
  {
    if n == 0 {
      BelowPow2(x);
      forall i: nat ensures Bit(x, i) <==> Bit(0, i) { ZeroBits(i); }
      SameBits(x, 0, x);
    } else {
      forall i: nat | i >= n - 1 ensures !Bit(x / 2, i) { assert !Bit(x, i + 1); }
      FitsBound(x / 2, n - 1);
    }
  }

  lemma ReverseFits(x: nat)
    requires x < DWORD
    ensures ReverseBits32(x) < DWORD
  {
    hide Bit, ReverseBits32;
    Pow2Words();
    forall i: nat | i >= 32 ensures !Bit(ReverseBits32(x), i) { ReverseBit(x, i); }
    FitsBound(ReverseBits32(x), 32);
  }

  /** Reversing twice changes nothing. */
  lemma ReverseTwice(x: nat)
    requires x < DWORD
    ensures ReverseBits32(x) < DWORD && ReverseBits32(ReverseBits32(x)) == x
  {
    hide Bit, ReverseBits32;
    Pow2Words();
    ReverseFits(x);
    ReverseFits(ReverseBits32(x));
    forall i: nat | i < 32 ensures Bit(ReverseBits32(ReverseBits32(x)), i) <==> Bit(x, i) {
      ReverseBit(ReverseBits32(x), i);
      ReverseBit(x, 31 - i);
    }
    SameBits(ReverseBits32(ReverseBits32(x)), x, 32);
  }

  /** One hexadecimal digit and the digits above it. */
  lemma HexBit(d: nat, w: nat, i: nat)
    requires d < 16
    ensures Bit(d + 16 * w, i) <==>
            if i == 0 then d % 2 == 1 else if i == 1 then d / 2 % 2 == 1 else if i == 2 then d / 4 % 2 == 1
            else if i == 3 then d / 8 == 1 else Bit(w, i - 4)
  {
    assert Pow2(4) == 16;
    AppendBit(d, 4, w, i);
    if i < 4 { LowDigit(d, i); }
  }

  lemma LowDigit(d: nat, i: nat)
    requires d < 16 && i < 4
    ensures Bit(d, i) <==>
            if i == 0 then d % 2 == 1 else if i == 1 then d / 2 % 2 == 1 else if i == 2 then d / 4 % 2 == 1
            else d / 8 == 1
  {
    assert Bit(d, 0) <==> d % 2 == 1;
    assert Bit(d, 1) <==> d / 2 % 2 == 1;
    assert Bit(d, 2) <==> Bit(d / 2 / 2, 0);
    assert Bit(d, 3) <==> Bit(d / 2 / 2 / 2, 0);
  }

  /** The polynomial as RFC 3720 writes it: x^32 + x^28 + x^27 + x^26 + x^25 + x^23 + x^22 + x^20 + x^19 + x^18 + x^14 +
      x^13 + x^11 + x^10 + x^9 + x^8 + x^6 + 1. */
  lemma PolynomialTerms(i: nat)
    requires i < 32
    ensures Bit(POLY, i) <==> i in {28, 27, 26, 25, 23, 22, 20, 19, 18, 14, 13, 11, 10, 9, 8, 6, 0}
  {
    hide Bit;
    HexBit(0x1, 0x1edc6f4, i);
    if i >= 4 { HexBit(0x4, 0x1edc6f, i - 4); }
    if i >= 8 { HexBit(0xf, 0x1edc6, i - 8); }
    if i >= 12 { HexBit(0x6, 0x1edc, i - 12); }
    if i >= 16 { HexBit(0xc, 0x1ed, i - 16); }
    if i >= 20 { HexBit(0xd, 0x1e, i - 20); }
    if i >= 24 { HexBit(0xe, 0x1, i - 24); }
    if i >= 28 { HexBit(0x1, 0, i - 28); }
  }

  // ----- one bit at a time -----

  function Polynomial(): (r: nat)
    ensures r < DWORD
  {
    ReverseFits(POLY);
    ReverseBits32(POLY)
  }

  /** r >> 1 ^ (r & 1 ? polynomial : 0) */
  function Step(r: nat): (r': nat)
    requires r < DWORD
    ensures r' < DWORD
  {
    StepBound(r);
    BitXor(r / 2, Poly(r % 2 == 1))
  }

  function Poly(odd: bool): (p: nat)
    ensures p < DWORD
  {
    if odd then Polynomial() else 0
  }

  lemma StepBound(r: nat)
    requires r < DWORD
    ensures BitXor(r / 2, Poly(r % 2 == 1)) < DWORD
  {
    hide BitXor, Pow2, Polynomial;
    Pow2Words();
    assert Poly(r % 2 == 1) < DWORD;
    XorBound(r / 2, Poly(r % 2 == 1), 32);
  }

  function Steps(r: nat, n: nat): (r': nat)
    requires r < DWORD
    ensures r' < DWORD
    decreases n
  {
    if n == 0 then r else Steps(Step(r), n - 1)
  }

  /** The same step written from the other end, with the polynomial as published. */
  function NormalStep(q: nat): nat
    requires q < DWORD
  {
    BitXor(2 * q % 0x1_0000_0000, if q >= 0x8000_0000 then 0x1edc6f41 else 0)
  }

  /** The shift register runs the published polynomial on reversed words. */
  lemma Reflected(r: nat)
    requires r < DWORD
    ensures ReverseBits32(r) < DWORD && ReverseBits32(Step(r)) == NormalStep(ReverseBits32(r))
  {
    hide Bit, Pow2, BitXor, ReverseBits32, Step, Steps;
    Pow2Words();
    ReverseFits(r);
    ReverseFits(Step(r));
    HighBits(r, 32, 32);
    NormalBound(ReverseBits32(r));
    forall i: nat | i < 32 ensures Bit(ReverseBits32(Step(r)), i) <==> Bit(NormalStep(ReverseBits32(r)), i) {
      ReverseBit(Step(r), i);
      StepBit(r, 31 - i);
      NormalBit(ReverseBits32(r), i);
      ReverseBit(r, 31);
      if i > 0 { ReverseBit(r, i - 1); }
    }
    SameBits(ReverseBits32(Step(r)), NormalStep(ReverseBits32(r)), 32);
  }

  lemma NormalBound(q: nat)
    requires q < DWORD
    ensures NormalStep(q) < DWORD
  {
    hide BitXor, Pow2;
    Pow2Words();
    XorBound(2 * q % DWORD, if q >= 0x8000_0000 then POLY else 0, 32);
  }

  lemma StepBit(r: nat, j: nat)
    requires r < DWORD && j < 32
    ensures Bit(Step(r), j) <==> Bit(r, j + 1) != (Bit(r, 0) && Bit(POLY, 31 - j))
  {
    hide BitXor, ReverseBits32;
    XorBit(r / 2, Poly(r % 2 == 1), j);
    ReverseBit(POLY, j);
    ZeroBits(j);
  }

  lemma NormalBit(q: nat, i: nat)
    requires q < DWORD && i < 32
    ensures Bit(NormalStep(q), i) <==> (i > 0 && Bit(q, i - 1)) != (Bit(q, 31) && Bit(POLY, i))
  {
    hide Bit, BitXor, Pow2;
    XorBit(2 * q % DWORD, if q >= 0x8000_0000 then POLY else 0, i);
    ZeroBits(i);
    DoubleBit(q, i);
    HighBit(q);
  }

  lemma HighBit(q: nat)
    requires q < DWORD
    ensures Bit(q, 31) <==> q >= 0x8000_0000
  {
    hide Bit, Pow2;
    Pow2Words();
    Pow2Next(31);
    if q >= 0x8000_0000 {
      AppendBit(q - 0x8000_0000, 31, 1, 31);
      OneBit();
    } else {
      HighBits(q, 31, 31);
    }
  }

  lemma DoubleBit(q: nat, i: nat)
    requires q < DWORD && i < 32
    ensures Bit(2 * q % DWORD, i) <==> i > 0 && Bit(q, i - 1)
  {
    hide Bit, Pow2;
    Pow2Words();
    AppendBit(2 * q % DWORD, 32, 2 * q / DWORD, i);
    Doubled(q, i);
  }

  lemma Doubled(q: nat, i: nat)
    ensures Bit(2 * q, i) <==> i > 0 && Bit(q, i - 1)
  {
    assert 2 * q / 2 == q;
  }

  // ----- linearity -----

  lemma StepXor(x: nat, y: nat)
    requires x < DWORD && y < DWORD
    ensures BitXor(x, y) < DWORD && Step(BitXor(x, y)) == BitXor(Step(x), Step(y))
  {
    hide BitXor, Pow2, Polynomial;
    Pow2Words();
    XorBound(x, y, 32);
    XorDigit(x, y);
    var p, q := Poly(x % 2 == 1), Poly(y % 2 == 1);
    PolyXor(x % 2 == 1, y % 2 == 1);
    XorAssociates(x / 2, p, BitXor(y / 2, q));
    XorLeft(p, y / 2, q);
    XorAssociates(x / 2, y / 2, BitXor(p, q));
  }

  lemma PolyXor(a: bool, b: bool)
    ensures BitXor(Poly(a), Poly(b)) == Poly(a != b)
  {
    hide BitXor, Polynomial;
    XorZero(Poly(a));
    XorZero(Poly(b));
    XorSelf(Polynomial());
  }

  lemma {:induction false} StepsXor(x: nat, y: nat, n: nat)
    requires x < DWORD && y < DWORD
    ensures BitXor(x, y) < DWORD && Steps(BitXor(x, y), n) == BitXor(Steps(x, n), Steps(y, n))
    decreases n
  {
    hide BitXor, Step;
    StepXor(x, y);
    if n > 0 { StepsXor(Step(x), Step(y), n - 1); }
  }

  /** Steps on zeros only shift. */
  lemma {:induction false} StepsShift(h: nat, n: nat)
    requires h * Pow2(n) < DWORD
    ensures h < DWORD && Steps(h * Pow2(n), n) == h
  {
    hide BitXor;
    if n == 0 {
      Pow2Next(0);
    } else {
      var y := h * Pow2(n - 1);
      assert h * Pow2(n) == 2 * y;
      XorZero(y);
      assert 2 * y / 2 == y && 2 * y % 2 == 0;
      assert Step(2 * y) == y;
      StepsShift(h, n - 1);
    }
  }

  /** What the table is for: eight steps are a lookup of the low byte and a shift of the rest. */
  lemma EightSteps(x: nat)
    requires x < DWORD
    ensures Steps(x, 8) == BitXor(x / 256, Steps(x % 256, 8))
  {
    hide BitXor, Pow2, Steps;
    Pow2Words();
    var lo, hi := x % 256, x / 256;
    XorAppend(lo, hi);
    StepsXor(lo, hi * 256, 8);
    StepsShift(hi, 8);
    XorCommutes(Steps(lo, 8), hi);
  }

  lemma XorAppend(lo: nat, hi: nat)
    requires lo < 256
    ensures BitXor(lo, hi * 256) == lo + hi * 256
  {
    hide BitXor, Pow2;
    Pow2Words();
    XorSplit(lo, 0, 0, hi, 8);
    XorZero(lo);
    XorZero(hi);
  }

  // ----- feeding a message -----

  /** n bits of w, lowest first, go through the shift register. */
  function Feed(h: nat, w: nat, n: nat): (r: nat)
    requires h < DWORD
    ensures r < DWORD
    decreases n
  {
    if n == 0 then h else FlipBound(h, w % 2); Feed(Step(BitXor(h, w % 2)), w / 2, n - 1)
  }

  lemma FlipBound(h: nat, b: nat)
    requires h < DWORD && b < DWORD
    ensures BitXor(h, b) < DWORD
  {
    hide BitXor, Pow2;
    Pow2Words();
    XorBound(h, b, 32);
  }

  /** Splitting a message anywhere, even inside a byte, gives the same result. */
  lemma {:induction false} FeedSplit(h: nat, w: nat, m: nat, n: nat)
    requires h < DWORD
    ensures Feed(h, w, m + n) == Feed(Feed(h, w, m), Shr(w, m), n)
    decreases m
  {
    hide BitXor, Step;
    if m > 0 {
      FlipBound(h, w % 2);
      FeedSplit(Step(BitXor(h, w % 2)), w / 2, m - 1, n);
    }
  }

  /** Feeding a byte bit by bit is flipping it in at once and then stepping eight times. */
  lemma {:induction false} FeedAtOnce(h: nat, b: nat, n: nat)
    requires h < DWORD && n <= 32 && b < Pow2(n)
    ensures BitXor(h, b) < DWORD && Feed(h, b, n) == Steps(BitXor(h, b), n)
    decreases n
  {
    hide BitXor, Step, Pow2;
    Pow2Words();
    Pow2Mono(n, 32);
    FlipBound(h, b);
    if n == 0 {
      Pow2Next(0);
      XorZero(h);
    } else {
      FlipBound(h, b % 2);
      var h' := Step(BitXor(h, b % 2));
      Pow2Next(n - 1);
      FeedAtOnce(h', b / 2, n - 1);
      FlipRest(h, b);
    }
  }

  lemma FlipRest(h: nat, b: nat)
    requires h < DWORD && b < DWORD
    ensures BitXor(h, b) < DWORD && BitXor(h, b % 2) < DWORD &&
            Step(BitXor(h, b)) == BitXor(Step(BitXor(h, b % 2)), b / 2)
  {
    hide BitXor, Pow2;
    FlipBound(h, b);
    FlipBound(h, b % 2);
    var low, rest := b % 2, 2 * (b / 2);
    XorPair(b);
    XorAssociates(h, low, rest);
    StepXor(BitXor(h, low), rest);
    XorZero(b / 2);
    assert rest / 2 == b / 2 && rest % 2 == 0;
    assert Step(rest) == b / 2;
  }

  lemma XorPair(b: nat)
    ensures BitXor(b % 2, 2 * (b / 2)) == b
  {
    XorDigit(b % 2, 2 * (b / 2));
    assert 2 * (b / 2) / 2 == b / 2 && b % 2 / 2 == 0;
    XorZero(b / 2);
  }

  // ----- the table -----

  lemma {:induction false} ShrAdd(w: nat, m: nat, n: nat)
    ensures Shr(w, m + n) == Shr(Shr(w, m), n)
  {
    if m > 0 { ShrAdd(w / 2, m - 1, n); }
  }

  lemma ShrByte(w: nat)
    ensures Shr(w, 8) == w / 256
  {
    ShrAdd(w, 4, 4);
    ShrNibble(w);
    ShrNibble(w / 16);
    hide Shr;
  }

  lemma ShrNibble(w: nat)
    ensures Shr(w, 4) == w / 16
  {
    assert Shr(w, 4) == Shr(w / 2, 3) == Shr(w / 4, 2) == Shr(w / 8, 1) == Shr(w / 16, 0);
  }

  /** Only the bits fed matter. */
  lemma {:induction false} FeedLow(h: nat, w: nat, k: nat, n: nat)
    requires h < DWORD
    ensures Feed(h, w + k * Pow2(n), n) == Feed(h, w, n)
    decreases n
  {
    hide BitXor, Step;
    if n > 0 {
      var w' := w + k * Pow2(n);
      assert k * Pow2(n) == 2 * (k * Pow2(n - 1));
      assert w' % 2 == w % 2 && w' / 2 == w / 2 + k * Pow2(n - 1);
      FlipBound(h, w % 2);
      FeedLow(Step(BitXor(h, w % 2)), w / 2, k, n - 1);
    }
  }

  lemma XorByte(h: nat, b: nat)
    requires b < 256
    ensures BitXor(h, b) / 256 == h / 256 && BitXor(h, b) % 256 == BitXor(h % 256, b) < 256
  {
    hide BitXor, Pow2;
    Pow2Words();
    var lo, hi := h % 256, h / 256;
    XorSplit(lo, hi, b, 0, 8);
    XorZero(hi);
    XorBound(lo, b, 8);
    DivisionUnique(BitXor(h, b), 256, hi, BitXor(lo, b));
  }

  /** One table lookup feeds one byte. */
  lemma ByteStep(h: nat, w: nat)
    requires h < DWORD
    ensures var k := BitXor(h % 256, w % 256); k < 256 && BitXor(h / 256, Steps(k, 8)) == Feed(h, w, 8)
  {
    hide BitXor, Pow2, Steps, Feed;
    Pow2Words();
    var b := w % 256;
    XorByte(h, b);
    FlipBound(h, b);
    FeedLow(h, b, w / 256, 8);
    FeedAtOnce(h, b, 8);
    EightSteps(BitXor(h, b));
  }

  lemma FeedByte(h0: nat, w0: nat, i: nat)
    requires h0 < DWORD
    ensures Feed(h0, w0, 8 * (i + 1)) == Feed(Feed(h0, w0, 8 * i), Shr(w0, 8 * i), 8)
    ensures Shr(w0, 8 * (i + 1)) == Shr(w0, 8 * i) / 256
  {
    FeedSplit(h0, w0, 8 * i, 8);
    ShrAdd(w0, 8 * i, 8);
    ShrByte(Shr(w0, 8 * i));
  }

  class Crc {
    /** kCastagnoli and the static `once` of Castagnoli. */
    const table: array<nat>
    var once: bool

    ghost predicate Valid()
      reads this, table
    {
      table.Length == 256 && (once ==> forall d :: 0 <= d < 256 ==> table[d] == Steps(d, 8))
    }

    constructor ()
      ensures Valid() && fresh(table) && !once
    {
      table := new nat[256](_ => 0);
      once := false;
    }

    /** InitializeCrc32 */
    method Initialize()
      requires table.Length == 256
      modifies table
      ensures forall d :: 0 <= d < 256 ==> table[d] == Steps(d, 8)
    {
      hide BitXor, Polynomial, Step;
      var polynomial := Polynomial();
      var d := 0;
      while d < 256
        invariant 0 <= d <= 256 && forall k :: 0 <= k < d ==> table[k] == Steps(k, 8)
      {
        var r: nat, i := d, 0;
        while i < 8
          invariant 0 <= i <= 8 && r < DWORD && Steps(r, 8 - i) == Steps(d, 8)
          invariant forall k :: 0 <= k < d ==> table[k] == Steps(k, 8)
        {
          StepIs(r);
          r := BitXor(r / 2, if r % 2 == 1 then polynomial else 0);
          i := i + 1;
        }
        table[d] := r;
        d := d + 1;
      }
    }

    /** Castagnoli: on the first call and on every later one, n bytes of w go through the shift register bit by bit. */
    method Castagnoli(h0: nat, w0: nat, n: int) returns (h: nat)
      requires Valid() && h0 < DWORD && w0 < 0x1_0000_0000_0000_0000
      modifies this`once, table
      ensures Valid() && once
      ensures h < DWORD && h == Feed(h0, w0, if n > 0 then 8 * n else 0)
    {
      hide BitXor, Feed, Steps, Shr;
      if !once {
        Initialize();
        once := true;
      }
      h := h0;
      var w: nat, i := w0, 0;
      FeedNothing(h0, w0);
      while i < n
        invariant 0 <= i && (n > 0 ==> i <= n) && (n <= 0 ==> i == 0)
        invariant Valid() && once && h < DWORD && h == Feed(h0, w0, 8 * i) && w == Shr(w0, 8 * i)
      {
        FeedByte(h0, w0, i);
        ByteStep(h, w);
        FeedBound(h, w, 8);
        h := BitXor(h / 256, table[BitXor(h % 256, w % 256)]);
        w := w / 256;
        i := i + 1;
      }
    }
  }

  lemma StepIs(r: nat)
    requires r < DWORD
    ensures Step(r) == BitXor(r / 2, if r % 2 == 1 then Polynomial() else 0)
  {
  }

  lemma FeedNothing(h: nat, w: nat)
    requires h < DWORD
    ensures Feed(h, w, 0) == h && Shr(w, 0) == w
  {
  }

  lemma FeedBound(h: nat, w: nat, n: nat)
    requires h < DWORD
    ensures Feed(h, w, n) < DWORD
  {
  }
}
