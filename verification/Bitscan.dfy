/** The portable bit scans (blink/bitscan.c): a ladder of masks for the lowest set bit, a de Bruijn table for the
    highest. */
module Bitscan {
  import opened Bits

  /** The six yes-or-no questions, from the top half down. */
  function Ladder(upper: bool, l: nat): nat {
    ((((Int(upper) * 2 + Int(BitAnd(l, 0xffff0000) != 0)) * 2 + Int(BitAnd(l, 0xff00ff00) != 0)) * 2
      + Int(BitAnd(l, 0xf0f0f0f0) != 0)) * 2 + Int(BitAnd(l, 0xcccccccc) != 0)) * 2 + Int(BitAnd(l,
          0xaaaaaaaa) != 0)
  }

  /** x & -x keeps the lowest set bit only. */
  lemma {:induction false} LowestBit(x: nat, n: nat)
    requires 0 < x < Pow2(n)
    ensures Ctz(x) < n && BitAnd(x, Pow2(n) - x) == Pow2(Ctz(x))
  {
    var m := Pow2(n) - x;
    if x % 2 == 1 {
      assert m % 2 == 1 && m / 2 == Pow2(n - 1) - 1 - x / 2;
      NoCommonBits(x / 2, n - 1);
    } else {
      assert m % 2 == 0 && m / 2 == Pow2(n - 1) - x / 2;
      LowestBit(x / 2, n - 1);
    }
  }

  lemma {:induction false} NoCommonBits(x: nat, n: nat)
    requires x < Pow2(n)
    ensures BitAnd(x, Pow2(n) - 1 - x) == 0
  {
    if x > 0 {
      var m := Pow2(n) - 1 - x;
      assert m / 2 == Pow2(n - 1) - 1 - x / 2 && m % 2 != x % 2;
      NoCommonBits(x / 2, n - 1);
    }
  }

  lemma {:induction false} AndOneBit(d: nat, m: nat)
    ensures BitAnd(Pow2(d), m) != 0 <==> Bit(m, d)
  {
    if d > 0 {
      assert Pow2(d) / 2 == Pow2(d - 1) && Pow2(d) % 2 == 0;
      AndOneBit(d - 1, m / 2);
    } else {
      assert BitAnd(1, m) == 2 * BitAnd(0, m / 2) + (if m % 2 == 1 then 1 else 0);
    }
  }

  lemma SmallPow2()
    ensures Pow2(1) == 2 && Pow2(2) == 4 && Pow2(4) == 16 && Pow2(8) == 0x100 && Pow2(16) == 0x1_0000
  {
    Pow2Words();
  }

  /** A half-word, byte, nibble or pair repeated. */
  lemma Halves(u: nat, d: nat)
    requires u < 0x1_0000 && d < 32
    ensures Bit(u + 0x1_0000 * u, d) <==> Bit(u, d % 16)
  {
    hide Bit, Pow2;
    SmallPow2();
    AppendBit(u, 16, u, d);
  }

  lemma Bytes(u: nat, d: nat)
    requires u < 0x100 && d < 16
    ensures Bit(u + 0x100 * u, d) <==> Bit(u, d % 8)
  {
    hide Bit, Pow2;
    SmallPow2();
    AppendBit(u, 8, u, d);
  }

  lemma Nibbles(u: nat, d: nat)
    requires u < 16 && d < 8
    ensures Bit(u + 16 * u, d) <==> Bit(u, d % 4)
  {
    hide Bit, Pow2;
    SmallPow2();
    AppendBit(u, 4, u, d);
  }

  lemma Pairs(u: nat, d: nat)
    requires u < 4 && d < 4
    ensures Bit(u + 4 * u, d) <==> Bit(u, d % 2)
  {
    hide Bit, Pow2;
    SmallPow2();
    AppendBit(u, 2, u, d);
  }

  /** n ones above n zeros. */
  lemma UpperHalf(n: nat, d: nat)
    requires d < 2 * n
    ensures Bit(Pow2(n) * (Pow2(n) - 1), d) <==> d >= n
  {
    hide Bit, Pow2;
    AppendBit(0, n, Pow2(n) - 1, d);
    ZeroBits(d);
    if d >= n { MaskBit(n, d - n); }
  }

  lemma Remainders(d: nat)
    ensures d % 16 % 8 == d % 8 && d % 8 % 4 == d % 4 && d % 4 % 2 == d % 2
  {
    ModShift(d % 16, 2 * (d / 16), 8);
    ModShift(d % 8, 2 * (d / 8), 4);
    ModShift(d % 4, 2 * (d / 4), 2);
  }

  /** Each mask answers one binary digit of the position. */
  lemma Mask16(d: nat)
    requires d < 32
    ensures Bit(0xffff0000, d) <==> d >= 16
  {
    hide Bit, Pow2;
    SmallPow2();
    UpperHalf(16, d);
  }

  lemma Mask8(d: nat)
    requires d < 32
    ensures Bit(0xff00ff00, d) <==> d % 16 >= 8
  {
    hide Bit, Pow2;
    SmallPow2();
    Halves(0xff00, d);
    UpperHalf(8, d % 16);
  }

  lemma Mask4(d: nat)
    requires d < 32
    ensures Bit(0xf0f0f0f0, d) <==> d % 8 >= 4
  {
    hide Bit, Pow2;
    SmallPow2();
    Remainders(d);
    Halves(0xf0f0, d);
    Bytes(0xf0, d % 16);
    UpperHalf(4, d % 8);
  }

  lemma Mask2(d: nat)
    requires d < 32
    ensures Bit(0xcccccccc, d) <==> d % 4 >= 2
  {
    hide Bit, Pow2;
    SmallPow2();
    Remainders(d);
    Halves(0xcccc, d);
    Bytes(0xcc, d % 16);
    Nibbles(0xc, d % 8);
    UpperHalf(2, d % 4);
  }

  lemma Mask1(d: nat)
    requires d < 32
    ensures Bit(0xaaaaaaaa, d) <==> d % 2 == 1
  {
    hide Bit, Pow2;
    SmallPow2();
    Remainders(d);
    Halves(0xaaaa, d);
    Bytes(0xaa, d % 16);
    Nibbles(0xa, d % 8);
    Pairs(2, d % 4);
    UpperHalf(1, d % 2);
  }

  /** A position from its binary digits. */
  lemma DigitSum(upper: bool, d: nat)
    requires d < 32
    ensures ((((Int(upper) * 2 + Int(d >= 16)) * 2 + Int(d % 16 >= 8)) * 2 + Int(d % 8 >= 4)) * 2 + Int(d % 4 >= 2)) * 2
            + Int(d % 2 == 1) == 32 * Int(upper) + d
  {
    HalfOf(d, 16);
    HalfOf(d % 16, 8);
    HalfOf(d % 8, 4);
    HalfOf(d % 4, 2);
    Remainders(d);
  }

  lemma HalfOf(d: nat, n: nat)
    requires n > 0 && d < 2 * n
    ensures d == n * Int(d >= n) + d % n
  {
    if d >= n { DivisionUnique(d, n, 1, d - n); } else { DivisionUnique(d, n, 0, d); }
  }

  lemma LadderAt(upper: bool, d: nat)
    requires d < 32
    ensures Ladder(upper, Pow2(d)) == 32 * Int(upper) + d
  {
    hide Bit, BitAnd, Pow2, Int;
    AndOneBit(d, 0xffff0000);
    AndOneBit(d, 0xff00ff00);
    AndOneBit(d, 0xf0f0f0f0);
    AndOneBit(d, 0xcccccccc);
    AndOneBit(d, 0xaaaaaaaa);
    Mask16(d);
    Mask8(d);
    Mask4(d);
    Mask2(d);
    Mask1(d);
    DigitSum(upper, d);
  }

  lemma {:induction false} OrCommutes(x: nat, y: nat)
    ensures BitOr(x, y) == BitOr(y, x)
  {
    if x > 0 || y > 0 { OrCommutes(x / 2, y / 2); }
  }

  /** Folding the upper half of a single bit onto the lower. */
  lemma Folded(c: nat)
    requires c < 64
    ensures var y := Pow2(c);
            && (y / DWORD != 0 <==> c >= 32)
            && BitOr(y, y / DWORD) % DWORD == Pow2(if c >= 32 then c - 32 else c)
  {
    hide BitOr, Pow2;
    Pow2Words();
    var y := Pow2(c);
    if c >= 32 {
      var z := Pow2(c - 32);
      Pow2Add(c - 32, 32);
      DivisionUnique(y, DWORD, z, 0);
      StrictPow2(c - 32, 32);
      StrictPow2(c - 32, c);
      OrCommutes(y, z);
      OrAdds(z, c);
      ModShift(z, z, DWORD);
      DivisionUnique(z, DWORD, 0, z);
    } else {
      StrictPow2(c, 32);
      DivisionUnique(y, DWORD, 0, y);
      OrZero(y);
    }
  }

  /** bsf: the number of the lowest set bit. */
  function Bsf(x: nat): (r: nat)
    requires x < WORD
    ensures x > 0 ==> r == Ctz(x)
  {
    BsfCorrect(x);
    BsfBody(x)
  }

  function BsfBody(x: nat): nat
    requires x < WORD
  {
    var y := BitAnd(x, (WORD - x) % WORD);
    Ladder(y / DWORD != 0, BitOr(y, y / DWORD) % DWORD)
  }

  lemma BsfCorrect(x: nat)
    requires x < WORD
    ensures x > 0 ==> BsfBody(x) == Ctz(x)
  {
    hide Ladder, BitAnd, BitOr, Pow2, Ctz, Bit;
    if x > 0 {
      Pow2Words();
      LowestBit(x, 64);
      var c := Ctz(x);
      Folded(c);
      LadderAt(c >= 32, if c >= 32 then c - 32 else c);
    }
  }

  // ----- the highest set bit -----

  function Log2(x: nat): (r: nat)
    requires x > 0
    ensures Pow2(r) <= x < Pow2(r + 1)
  {
    if x == 1 then assert Pow2(1) == 2; 0
    else Log2(x / 2) + 1
  }

  lemma {:induction false} Log2Bit(x: nat, i: nat)
    requires x > 0
    ensures Bit(x, Log2(x)) && (i > Log2(x) ==> !Bit(x, i))
  {
    if x == 1 {
      if i > 0 { ZeroBits(i - 1); }
    } else {
      Log2Bit(x / 2, if i > 0 then i - 1 else 0);
    }
  }

  /** Bit k and the w - 1 bits below it are set; nothing above k is. */
  ghost predicate Below(s: nat, k: nat, w: nat) {
    && (forall i: nat :: i > k ==> !Bit(s, i))
    && (forall i: nat :: i <= k < i + w ==> Bit(s, i))
  }

  /** x |= x >> w */
  function Step(x: nat, w: nat): nat {
    BitOr(x, Shr(x, w))
  }

  /** One step doubles the run of ones below the highest. */
  lemma SmearStep(s: nat, k: nat, w: nat)
    requires Below(s, k, w)
    ensures Below(Step(s, w), k, 2 * w)
  {
    hide Bit, BitOr, Shr;
    forall i: nat
      ensures i > k ==> !Bit(Step(s, w), i)
      ensures i <= k < i + 2 * w ==> Bit(Step(s, w), i)
    {
      OrBit(s, Shr(s, w), i);
      ShrBit(s, w, i);
    }
  }

  function Smear(x: nat): nat {
    Step(Step(Step(Step(Step(Step(x, 1), 2), 4), 8), 16), 32)
  }

  lemma TopBit(x: nat)
    requires 0 < x < WORD
    ensures Log2(x) < 64 && Below(x, Log2(x), 1)
  {
    hide Bit, Pow2;
    Pow2Words();
    if Log2(x) >= 64 { Pow2Mono(64, Log2(x)); }
    forall i: nat ensures i > Log2(x) ==> !Bit(x, i) { Log2Bit(x, i); }
    Log2Bit(x, 0);
  }

  /** Six steps fill in everything below the highest set bit. */
  lemma SmearIs(x: nat)
    requires 0 < x < WORD
    ensures Log2(x) < 64 && Smear(x) == Pow2(Log2(x) + 1) - 1
  {
    hide Step, Pow2, Below, Log2;
    var k := Log2(x);
    TopBit(x);
    SmearStep(x, k, 1);
    SmearStep(Step(x, 1), k, 2);
    SmearStep(Step(Step(x, 1), 2), k, 4);
    SmearStep(Step(Step(Step(x, 1), 2), 4), k, 8);
    SmearStep(Step(Step(Step(Step(x, 1), 2), 4), 8), k, 16);
    SmearStep(Step(Step(Step(Step(Step(x, 1), 2), 4), 8), 16), k, 32);
    AllOnes(Smear(x), k);
  }

  lemma AllOnes(s: nat, k: nat)
    requires Below(s, k, 64) && k < 64
    ensures s == Pow2(k + 1) - 1
  {
    hide Bit, Pow2;
    var n := s + k + 1;
    BelowPow2(n);
    Pow2Mono(k + 1, n);
    forall i: nat | i < n ensures Bit(s, i) <==> Bit(Pow2(k + 1) - 1, i) {
      MaskBit(k + 1, i);
    }
    SameBits(s, Pow2(k + 1) - 1, n);
  }

  /** kDebruijn, for an index below 64. */
  function Debruijn(i: nat): nat {
    match i
    case 0 => 0 case 1 => 47 case 2 => 1 case 3 => 56 case 4 => 48 case 5 => 27 case 6 => 2 case 7 => 60
    case 8 => 57 case 9 => 49 case 10 => 41 case 11 => 37 case 12 => 28 case 13 => 16 case 14 => 3 case 15 => 61
    case 16 => 54 case 17 => 58 case 18 => 35 case 19 => 52 case 20 => 50 case 21 => 42 case 22 => 21 case 23 => 44
    case 24 => 38 case 25 => 32 case 26 => 29 case 27 => 23 case 28 => 17 case 29 => 11 case 30 => 4 case 31 => 62
    case 32 => 46 case 33 => 55 case 34 => 26 case 35 => 59 case 36 => 40 case 37 => 36 case 38 => 15 case 39 => 53
    case 40 => 34 case 41 => 51 case 42 => 20 case 43 => 43 case 44 => 31 case 45 => 22 case 46 => 10 case 47 => 45
    case 48 => 25 case 49 => 39 case 50 => 14 case 51 => 33 case 52 => 19 case 53 => 30 case 54 => 9 case 55 => 24
    case 56 => 13 case 57 => 18 case 58 => 8 case 59 => 12 case 60 => 7 case 61 => 6 case 62 => 5 case _ => 63
  }

  const MAGIC: nat := 0x03f79d71b4cb0a89

  function Hash(x: nat): nat {
    (x * MAGIC) % WORD / 0x400_0000_0000_0000
  }

  /** n ones times the magic number. */
  function Product(n: nat): nat {
    ((Pow2(n) - 1) * MAGIC) % WORD
  }

  lemma ProductStep(n: nat)
    ensures Product(n + 1) == (2 * Product(n) + MAGIC) % WORD
  {
    var x, q := (Pow2(n) - 1) * MAGIC, (Pow2(n) - 1) * MAGIC / WORD;
    assert (Pow2(n + 1) - 1) * MAGIC == 2 * x + MAGIC;
    assert 2 * x + MAGIC == (2 * Product(n) + MAGIC) + (2 * q) * WORD;
    ModShift(2 * Product(n) + MAGIC, 2 * q, WORD);
  }

  /** The table sends the hash of n + 1 ones to n. */
  predicate Entry(n: nat) {
    Debruijn(Hash(Pow2(n + 1) - 1)) == n
  }

  /** One row of the table, from the product v for n ones to the product v' for one more. */
  lemma Next(n: nat, v: nat, v': nat)
    requires Product(n) == v && v' == (2 * v + 0x03f79d71b4cb0a89) % 0x1_0000_0000_0000_0000
    requires Debruijn(v' / 0x400_0000_0000_0000) == n
    ensures Product(n + 1) == v' && Entry(n)
  {
    hide Pow2;
    ProductStep(n);
  }

  lemma Rows0()
    ensures Product(0) == 0x0 ==>
              Product(8) == 0xf3a5d443163f7e77 && forall n: nat :: 0 <= n < 8 ==> Entry(n)
  {
    hide Product, Entry;
    if Product(0) == 0x0 {
      Next(0, 0x0, 0x3f79d71b4cb0a89);
      Next(1, 0x3f79d71b4cb0a89, 0xbe6d8551e611f9b);
      Next(2, 0xbe6d8551e611f9b, 0x1bc54e1bf18d49bf);
      Next(3, 0x1bc54e1bf18d49bf, 0x3b8239a997e59e07);
      Next(4, 0x3b8239a997e59e07, 0x7afc10c4e4964697);
      Next(5, 0x7afc10c4e4964697, 0xf9efbefb7df797b7);
      Next(6, 0xf9efbefb7df797b7, 0xf7d71b68b0ba39f7);
      Next(7, 0xf7d71b68b0ba39f7, 0xf3a5d443163f7e77);
    }
  }

  lemma Rows8()
    ensures Product(8) == 0xf3a5d443163f7e77 ==>
              Product(16) == 0x997a175955bdf577 && forall n: nat :: 8 <= n < 16 ==> Entry(n)
  {
    hide Product, Entry;
    if Product(8) == 0xf3a5d443163f7e77 {
      Next(8, 0xf3a5d443163f7e77, 0xeb4345f7e14a0777);
      Next(9, 0xeb4345f7e14a0777, 0xda7e2961775f1977);
      Next(10, 0xda7e2961775f1977, 0xb8f3f034a3893d77);
      Next(11, 0xb8f3f034a3893d77, 0x75df7ddafbdd8577);
      Next(12, 0x75df7ddafbdd8577, 0xefb69927ac861577);
      Next(13, 0xefb69927ac861577, 0xe364cfc10dd73577);
      Next(14, 0xe364cfc10dd73577, 0xcac13cf3d0797577);
      Next(15, 0xcac13cf3d0797577, 0x997a175955bdf577);
    }
  }

  lemma Rows16()
    ensures Product(16) == 0x997a175955bdf577 ==>
              Product(24) == 0x6dbd2d98d434f577 && forall n: nat :: 16 <= n < 24 ==> Entry(n)
  {
    hide Product, Entry;
    if Product(16) == 0x997a175955bdf577 {
      Next(16, 0x997a175955bdf577, 0x36ebcc246046f577);
      Next(17, 0x36ebcc246046f577, 0x71cf35ba7558f577);
      Next(18, 0x71cf35ba7558f577, 0xe79608e69f7cf577);
      Next(19, 0xe79608e69f7cf577, 0xd323af3ef3c4f577);
      Next(20, 0xd323af3ef3c4f577, 0xaa3efbef9c54f577);
      Next(21, 0xaa3efbef9c54f577, 0x58759550ed74f577);
      Next(22, 0x58759550ed74f577, 0xb4e2c8138fb4f577);
      Next(23, 0xb4e2c8138fb4f577, 0x6dbd2d98d434f577);
    }
  }

  lemma Rows24()
    ensures Product(24) == 0x6dbd2d98d434f577 ==>
              Product(32) == 0xb0d36d174b34f577 && forall n: nat :: 24 <= n < 32 ==> Entry(n)
  {
    hide Product, Entry;
    if Product(24) == 0x6dbd2d98d434f577 {
      Next(24, 0x6dbd2d98d434f577, 0xdf71f8a35d34f577);
      Next(25, 0xdf71f8a35d34f577, 0xc2db8eb86f34f577);
      Next(26, 0xc2db8eb86f34f577, 0x89aebae29334f577);
      Next(27, 0x89aebae29334f577, 0x17551336db34f577);
      Next(28, 0x17551336db34f577, 0x32a1c3df6b34f577);
      Next(29, 0x32a1c3df6b34f577, 0x693b25308b34f577);
      Next(30, 0x693b25308b34f577, 0xd66de7d2cb34f577);
      Next(31, 0xd66de7d2cb34f577, 0xb0d36d174b34f577);
    }
  }

  lemma Rows32()
    ensures Product(32) == 0xb0d36d174b34f577 ==>
              Product(40) == 0xc712eb8e4b34f577 && forall n: nat :: 32 <= n < 40 ==> Entry(n)
  {
    hide Product, Entry;
    if Product(32) == 0xb0d36d174b34f577 {
      Next(32, 0xb0d36d174b34f577, 0x659e77a04b34f577);
      Next(33, 0x659e77a04b34f577, 0xcf348cb24b34f577);
      Next(34, 0xcf348cb24b34f577, 0xa260b6d64b34f577);
      Next(35, 0xa260b6d64b34f577, 0x48b90b1e4b34f577);
      Next(36, 0x48b90b1e4b34f577, 0x9569b3ae4b34f577);
      Next(37, 0x9569b3ae4b34f577, 0x2ecb04ce4b34f577);
      Next(38, 0x2ecb04ce4b34f577, 0x618da70e4b34f577);
      Next(39, 0x618da70e4b34f577, 0xc712eb8e4b34f577);
    }
  }

  lemma Rows40()
    ensures Product(40) == 0xc712eb8e4b34f577 ==>
              Product(48) == 0x691628e4b34f577 && forall n: nat :: 40 <= n < 48 ==> Entry(n)
  {
    hide Product, Entry;
    if Product(40) == 0xc712eb8e4b34f577 {
      Next(40, 0xc712eb8e4b34f577, 0x921d748e4b34f577);
      Next(41, 0x921d748e4b34f577, 0x2832868e4b34f577);
      Next(42, 0x2832868e4b34f577, 0x545caa8e4b34f577);
      Next(43, 0x545caa8e4b34f577, 0xacb0f28e4b34f577);
      Next(44, 0xacb0f28e4b34f577, 0x5d59828e4b34f577);
      Next(45, 0x5d59828e4b34f577, 0xbeaaa28e4b34f577);
      Next(46, 0xbeaaa28e4b34f577, 0x814ce28e4b34f577);
      Next(47, 0x814ce28e4b34f577, 0x691628e4b34f577);
    }
  }

  lemma Rows48()
    ensures Product(48) == 0x691628e4b34f577 ==>
              Product(56) == 0x8508628e4b34f577 && forall n: nat :: 48 <= n < 56 ==> Entry(n)
  {
    hide Product, Entry;
    if Product(48) == 0x691628e4b34f577 {
      Next(48, 0x691628e4b34f577, 0x111a628e4b34f577);
      Next(49, 0x111a628e4b34f577, 0x262c628e4b34f577);
      Next(50, 0x262c628e4b34f577, 0x5050628e4b34f577);
      Next(51, 0x5050628e4b34f577, 0xa498628e4b34f577);
      Next(52, 0xa498628e4b34f577, 0x4d28628e4b34f577);
      Next(53, 0x4d28628e4b34f577, 0x9e48628e4b34f577);
      Next(54, 0x9e48628e4b34f577, 0x4088628e4b34f577);
      Next(55, 0x4088628e4b34f577, 0x8508628e4b34f577);
    }
  }

  lemma Rows56()
    ensures Product(56) == 0x8508628e4b34f577 ==>
              Product(64) == 0xfc08628e4b34f577 && forall n: nat :: 56 <= n < 64 ==> Entry(n)
  {
    hide Product, Entry;
    if Product(56) == 0x8508628e4b34f577 {
      Next(56, 0x8508628e4b34f577, 0xe08628e4b34f577);
      Next(57, 0xe08628e4b34f577, 0x2008628e4b34f577);
      Next(58, 0x2008628e4b34f577, 0x4408628e4b34f577);
      Next(59, 0x4408628e4b34f577, 0x8c08628e4b34f577);
      Next(60, 0x8c08628e4b34f577, 0x1c08628e4b34f577);
      Next(61, 0x1c08628e4b34f577, 0x3c08628e4b34f577);
      Next(62, 0x3c08628e4b34f577, 0x7c08628e4b34f577);
      Next(63, 0x7c08628e4b34f577, 0xfc08628e4b34f577);
    }
  }

  /** The whole table. */
  lemma TableRight(k: nat)
    requires k < 64
    ensures Entry(k)
  {
    assert Product(0) == 0;
    hide Product, Entry;
    Rows0();
    Rows8();
    Rows16();
    Rows24();
    Rows32();
    Rows40();
    Rows48();
    Rows56();
  }

  /** bsr: the number of the highest set bit. */
  function Bsr(x: nat): (r: nat)
    requires x < WORD
    ensures x > 0 ==> r == Log2(x)
  {
    BsrCorrect(x);
    Debruijn(Hash(Smear(x)))
  }

  lemma BsrCorrect(x: nat)
    requires x < WORD
    ensures x > 0 ==> Debruijn(Hash(Smear(x))) == Log2(x)
  {
    hide Hash, Smear, Pow2, Log2, Debruijn;
    if x > 0 {
      SmearIs(x);
      TableRight(Log2(x));
    }
  }
}
