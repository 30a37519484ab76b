/** The flags register (blink/flags.h, blink/flags.c). Parity is lazy: the emulator keeps the low byte of the
    last result in bits 24..31 of its flags word and works PF out when it is asked for. The rest of the
    project uses the record `Flags`; `Represents` ties it to the 32-bit word the C code manipulates. */
module Flags {
  import opened Bits

  datatype Flag = CF | PF | AF | ZF | SF | OF

  /** `low` is the lazy parity byte. */
  datatype Flags = Flags(cf: bool, af: bool, zf: bool, sf: bool, of: bool, low: nat)

  /** C's folding parity of a byte. */
  predicate GetParity(b0: nat) {
    var b1 := BitXor(b0, b0 / 16);
    var b2 := BitXor(b1, b1 / 4);
    var b3 := BitXor(b2, b2 / 2);
    b3 % 2 == 0
  }

  predicate GetFlag(f: Flags, b: Flag) {
    match b
    case CF => f.cf
    case PF => GetParity(f.low)
    case AF => f.af
    case ZF => f.zf
    case SF => f.sf
    case OF => f.of
  }

  /** The set of status flags that are on: all that an instruction can see of the register. */
  function View(f: Flags): (s: set<Flag>)
    ensures forall b :: b in s <==> GetFlag(f, b)
  {
    set b: Flag | GetFlag(f, b)
  }

  function SetFlag(f: Flags, b: Flag, v: bool): Flags {
    match b
    case CF => f.(cf := v)
    case PF => f.(low := if v then 0 else 1)
    case AF => f.(af := v)
    case ZF => f.(zf := v)
    case SF => f.(sf := v)
    case OF => f.(of := v)
  }

  /** MUL and IMUL store CF and OF and nothing else. */
  function MulFlags(f: Flags, overflow: bool): Flags {
    f.(cf := overflow, of := overflow)
  }

  /** Writing one flag is read back and disturbs no other, the lazily kept parity included. */
  lemma SetGet(f: Flags, b: Flag, v: bool, c: Flag)
    ensures GetFlag(SetFlag(f, b, v), c) == if c == b then v else GetFlag(f, c)
  {
    assert BitXor(0, 0) == 0;
    assert BitXor(1, 0) == 2 * BitXor(0, 0) + 1;
  }

  function Of(x: nat, i: nat): nat {
    Int(Bit(x, i))
  }

  lemma EvenXor(a: bool, b: bool, c: bool, d: bool, e: bool, f: bool, g: bool, h: bool)
    ensures (((a != e) != (c != g)) == ((b != f) != (d != h))) <==>
            (Int(a) + Int(b) + Int(c) + Int(d) + Int(e) + Int(f) + Int(g) + Int(h)) % 2 == 0
  {
  }

  lemma Fold4(x: nat, i: nat)
    ensures Bit(BitXor(x, x / 16), i) <==> Bit(x, i) != Bit(x, i + 4)
  {
    XorBit(x, x / 16, i);
    assert x / 16 == x / 2 / 2 / 2 / 2;
    assert Bit(x, i + 4) == Bit(x / 2, i + 3) == Bit(x / 2 / 2, i + 2) == Bit(x / 2 / 2 / 2, i + 1);
  }

  lemma Fold2(x: nat, i: nat)
    ensures Bit(BitXor(x, x / 4), i) <==> Bit(x, i) != Bit(x, i + 2)
  {
    XorBit(x, x / 4, i);
    assert x / 4 == x / 2 / 2;
    assert Bit(x, i + 2) == Bit(x / 2, i + 1);
  }

  lemma Fold1(x: nat)
    ensures Bit(BitXor(x, x / 2), 0) <==> Bit(x, 0) != Bit(x, 1)
  {
    XorBit(x, x / 2, 0);
    assert Bit(x, 1) == Bit(x / 2, 0);
  }

  /** The low byte has an even number of ones. */
  predicate EvenOnes(b: nat) {
    (Of(b, 0) + Of(b, 1) + Of(b, 2) + Of(b, 3) + Of(b, 4) + Of(b, 5) + Of(b, 6) + Of(b, 7)) % 2 == 0
  }

  /** x86 parity: PF is set when the low byte has an even number of ones. */
  lemma ParityIsEven(b: nat)
    ensures GetParity(b) <==> EvenOnes(b)
  {
    var b1 := BitXor(b, b / 16);
    var b2 := BitXor(b1, b1 / 4);
    Fold1(b2);
    Fold2(b1, 0);
    Fold2(b1, 1);
    Fold4(b, 0);
    Fold4(b, 1);
    Fold4(b, 2);
    Fold4(b, 3);
    EvenXor(Bit(b, 0), Bit(b, 1), Bit(b, 2), Bit(b, 3), Bit(b, 4), Bit(b, 5), Bit(b, 6), Bit(b, 7));
  }

  // ----- the C word -----

  predicate Has(w: bv32, mask: bv32) {
    w & mask != 0
  }

  /** The flags word w holds the flags f; its other bits are free. */
  ghost predicate Represents(w: bv32, f: Flags) {
    && Has(w, 0x001) == f.cf && Has(w, 0x010) == f.af && Has(w, 0x040) == f.zf
    && Has(w, 0x080) == f.sf && Has(w, 0x800) == f.of
    && f.low < 256 && (w >> 24) as nat == f.low
  }

  function When(v: bool, bits: bv32): bv32 {
    if v then bits else 0
  }

  /** AluFlags: store the five eager flags and the low result byte, keep every other bit. */
  function AluFlagsWord(w: bv32, low: bv32, zero: bool, af: bool, of: bool, cf: bool, sf: bool): bv32 {
    (w & !(0xFF00_08D1))
    | When(sf, 0x080) | When(cf, 0x001) | When(zero, 0x040) | When(of, 0x800) | When(af, 0x010)
    | (low << 24)
  }

  lemma AluFlagsEager(w: bv32, low: bv32, zero: bool, af: bool, of: bool, cf: bool, sf: bool)
    ensures var r := AluFlagsWord(w, low, zero, af, of, cf, sf);
            Has(r, 0x001) == cf && Has(r, 0x010) == af && Has(r, 0x040) == zero && Has(r, 0x080) == sf &&
                Has(r, 0x800) == of
  {
  }

  lemma AluFlagsLazy(w: bv32, low: bv32, zero: bool, af: bool, of: bool, cf: bool, sf: bool)
    requires low < 256
    ensures AluFlagsWord(w, low, zero, af, of, cf, sf) >> 24 == low
  {
  }

  lemma AluFlagsOther(w: bv32, low: bv32, zero: bool, af: bool, of: bool, cf: bool, sf: bool)
    requires low < 256
    ensures AluFlagsWord(w, low, zero, af, of, cf, sf) & 0x00FF_F72E == w & 0x00FF_F72E
  {
  }

  lemma ByteBound(low: bv32)
    requires low < 256
    ensures low as nat < 256
  {
  }

  /** The word operation stores exactly the flags of the record, and keeps every other bit. */
  lemma AluFlagsRefines(w: bv32, low: bv32, zero: bool, af: bool, of: bool, cf: bool, sf: bool)
    requires low < 256
    ensures Represents(AluFlagsWord(w, low, zero, af, of, cf, sf), Flags(cf, af, zero, sf, of, low as nat))
    ensures AluFlagsWord(w, low, zero, af, of, cf, sf) & 0x00FF_F72E == w & 0x00FF_F72E
  {
    hide AluFlagsWord, Has;
    ByteBound(low);
    AluFlagsEager(w, low, zero, af, of, cf, sf);
    AluFlagsLazy(w, low, zero, af, of, cf, sf);
    AluFlagsOther(w, low, zero, af, of, cf, sf);
  }

  /** Where a flag lives in the word: its own bit, or for PF the lazily interpreted top byte. */
  function Field(b: Flag): bv32 {
    match b
    case CF => 0x001
    case PF => 0xFF00_0000
    case AF => 0x010
    case ZF => 0x040
    case SF => 0x080
    case OF => 0x800
  }

  /** GetFlag on the word. */
  predicate GetFlagWord(w: bv32, b: Flag) {
    match b
    case CF => w & 1 != 0
    case PF => GetParity(((0xFF00_0000 & w) >> 24) as nat)
    case AF => (w >> 4) & 1 != 0
    case ZF => (w >> 6) & 1 != 0
    case SF => (w >> 7) & 1 != 0
    case OF => (w >> 11) & 1 != 0
  }

  /** (f & ~field) or (v << place) */
  function SetField(w: bv32, field: bv32, v: bool): bv32 {
    (w & !field) | When(v, field)
  }

  /** SetFlag on the word: PF is stored as a byte of even or odd parity. */
  function SetFlagWord(w: bv32, b: Flag, v: bool): bv32 {
    if b == PF then (0x00FF_FFFF & w) | When(!v, 0x0100_0000) else SetField(w, Field(b), v)
  }

  lemma SetHas(w: bv32, a: bv32)
    requires a != 0
    ensures ((w & !a) | a) & a != 0 && (w & !a) & a == 0
  {
  }

  lemma SetKeepsTop(w: bv32, a: bv32)
    requires a < 0x1000
    ensures ((w & !a) | a) >> 24 == w >> 24 && (w & !a) >> 24 == w >> 24
  {
  }

  lemma SetKeepsRest(w: bv32, a: bv32)
    ensures ((w & !a) | a) & !a == w & !a && (w & !a) & !a == w & !a
  {
  }

  lemma OrNone(x: bv32)
    ensures x | 0 == x
  {
  }

  lemma SetFieldIs(w: bv32, a: bv32, v: bool)
    ensures SetField(w, a, v) == if v then (w & !a) | a else w & !a
  {
    if !v { OrNone(w & !a); }
  }

  lemma OneHas(w: bv32, a: bv32, v: bool)
    requires a != 0
    ensures Has(SetField(w, a, v), a) == v
  {
    SetHas(w, a);
    if v { SetFieldIs(w, a, true); } else { SetFieldIs(w, a, false); }
    hide SetField;
  }

  lemma OneTop(w: bv32, a: bv32, v: bool)
    requires a < 0x1000
    ensures SetField(w, a, v) >> 24 == w >> 24
  {
    SetKeepsTop(w, a);
    if v { SetFieldIs(w, a, true); } else { SetFieldIs(w, a, false); }
    hide SetField;
  }

  lemma OneRest(w: bv32, a: bv32, v: bool)
    ensures SetField(w, a, v) & !a == w & !a
  {
    SetKeepsRest(w, a);
    if v { SetFieldIs(w, a, true); } else { SetFieldIs(w, a, false); }
    hide SetField;
  }

  lemma KeepsCF(w: bv32, a: bv32, v: bool)
    requires a & 0x001 == 0
    ensures Has(SetField(w, a, v), 0x001) == Has(w, 0x001)
  {
  }

  lemma KeepsAF(w: bv32, a: bv32, v: bool)
    requires a & 0x010 == 0
    ensures Has(SetField(w, a, v), 0x010) == Has(w, 0x010)
  {
  }

  lemma KeepsZF(w: bv32, a: bv32, v: bool)
    requires a & 0x040 == 0
    ensures Has(SetField(w, a, v), 0x040) == Has(w, 0x040)
  {
  }

  lemma KeepsSF(w: bv32, a: bv32, v: bool)
    requires a & 0x080 == 0
    ensures Has(SetField(w, a, v), 0x080) == Has(w, 0x080)
  {
  }

  lemma KeepsOF(w: bv32, a: bv32, v: bool)
    requires a & 0x800 == 0
    ensures Has(SetField(w, a, v), 0x800) == Has(w, 0x800)
  {
  }

  lemma ParityField(w: bv32, v: bool)
    ensures var r := (0x00FF_FFFF & w) | When(!v, 0x0100_0000);
            && Has(r, 0x001) == Has(w, 0x001) && Has(r, 0x010) == Has(w, 0x010) && Has(r, 0x040) == Has(w, 0x040)
            && Has(r, 0x080) == Has(w, 0x080) && Has(r, 0x800) == Has(w, 0x800)
            && r >> 24 == When(!v, 1) && r & !0xFF00_0000 == w & !0xFF00_0000
  {
  }

  lemma FieldSize(b: Flag)
    requires b != PF
    ensures 0 < Field(b) < 0x1000
  {
  }

  lemma FieldsApart(b: Flag, c: Flag)
    requires b != c
    ensures Field(b) & Field(c) == 0
  {
  }

  lemma FieldApart(w: bv32, b: Flag, c: Flag, v: bool)
    requires b != c && c != PF
    ensures Has(SetField(w, Field(b), v), Field(c)) == Has(w, Field(c))
  {
    hide SetField, Has;
    var a := Field(b);
    FieldsApart(b, c);
    match c
    case CF => KeepsCF(w, a, v);
    case PF => assert false;
    case AF => KeepsAF(w, a, v);
    case ZF => KeepsZF(w, a, v);
    case SF => KeepsSF(w, a, v);
    case OF => KeepsOF(w, a, v);
  }

  lemma RepresentsIs(w: bv32, f: Flags)
    ensures Represents(w, f) <==> Eager(w, f) && f.low < 256 && (w >> 24) as nat == f.low
  {
    hide Has, GetParity;
    if Eager(w, f) {
      assert Has(w, Field(CF)) == f.cf && Has(w, Field(AF)) == f.af && Has(w, Field(ZF)) == f.zf;
      assert Has(w, Field(SF)) == f.sf && Has(w, Field(OF)) == f.of;
    }
  }

  lemma ParityByte(w: bv32, v: bool)
    ensures var r := SetFlagWord(w, PF, v);
            && (r >> 24) as nat == (if v then 0 else 1) && r & !Field(PF) == w & !Field(PF)
            && forall c: Flag :: c != PF ==> Has(r, Field(c)) == Has(w, Field(c))
  {
    ParityField(w, v);
    hide Has;
  }

  /** Every eager flag of the word reads as the record's. */
  ghost predicate Eager(w: bv32, f: Flags) {
    forall b: Flag :: b != PF ==> Has(w, Field(b)) == GetFlag(f, b)
  }

  lemma SetEager(w: bv32, f: Flags, b: Flag, v: bool)
    requires Eager(w, f)
    ensures Eager(SetFlagWord(w, b, v), SetFlag(f, b, v))
  {
    var r := SetFlagWord(w, b, v);
    hide SetField, Has, Field, GetFlag, SetFlag;
    forall c: Flag | c != PF ensures Has(r, Field(c)) == GetFlag(SetFlag(f, b, v), c) {
      SetGet(f, b, v, c);
      if b == PF {
        ParityByte(w, v);
      } else if c == b {
        FieldSize(b);
        OneHas(w, Field(b), v);
      } else {
        FieldApart(w, b, c, v);
      }
    }
  }

  lemma SetFlagIs(w: bv32, b: Flag, v: bool)
    ensures b != PF ==> SetFlagWord(w, b, v) == SetField(w, Field(b), v)
  {
  }

  lemma SetLow(w: bv32, b: Flag, v: bool)
    ensures (SetFlagWord(w, b, v) >> 24) as nat == if b == PF then (if v then 0 else 1) else (w >> 24) as nat
  {
    hide *;
    SetFlagIs(w, b, v);
    if b == PF {
      ParityByte(w, v);
    } else {
      FieldSize(b);
      OneTop(w, Field(b), v);
    }
  }

  lemma SetRest(w: bv32, b: Flag, v: bool)
    ensures SetFlagWord(w, b, v) & !Field(b) == w & !Field(b)
  {
    hide *;
    SetFlagIs(w, b, v);
    if b == PF { ParityByte(w, v); } else { OneRest(w, Field(b), v); }
  }

  lemma LowOf(f: Flags, b: Flag, v: bool)
    ensures SetFlag(f, b, v).low == if b == PF then (if v then 0 else 1) else f.low
  {
  }

  /** The shifts and masks of SetFlag set the one flag of the record and keep every bit outside its field. */
  lemma SetFlagRefines(w: bv32, f: Flags, b: Flag, v: bool)
    requires Represents(w, f)
    ensures Represents(SetFlagWord(w, b, v), SetFlag(f, b, v))
    ensures SetFlagWord(w, b, v) & !Field(b) == w & !Field(b)
  {
    hide *;
    RepresentsIs(w, f);
    RepresentsIs(SetFlagWord(w, b, v), SetFlag(f, b, v));
    SetEager(w, f, b, v);
    SetLow(w, b, v);
    LowOf(f, b, v);
    SetRest(w, b, v);
  }

  lemma EagerBits(w: bv32)
    ensures (w & 1 != 0 <==>
            Has(w, 0x001)) && ((w >> 4) & 1 != 0 <==> Has(w, 0x010)) && ((w >> 6) & 1 != 0 <==> Has(w, 0x040))
    ensures ((w >> 7) & 1 != 0 <==> Has(w, 0x080)) && ((w >> 11) & 1 != 0 <==> Has(w, 0x800))
    ensures (0xFF00_0000 & w) >> 24 == w >> 24
  {
  }

  /** GetFlag on the word reads the flag of the record. */
  lemma GetFlagRefines(w: bv32, f: Flags, b: Flag)
    requires Represents(w, f)
    ensures GetFlagWord(w, b) == GetFlag(f, b)
  {
    hide Has, GetParity;
    EagerBits(w);
  }

  /** The flags a word holds. */
  function Read(w: bv32): Flags {
    Flags(Has(w, 0x001), Has(w, 0x010), Has(w, 0x040), Has(w, 0x080), Has(w, 0x800), (w >> 24) as nat)
  }

  lemma TopByte(w: bv32)
    ensures w >> 24 < 256
  {
  }

  lemma ReadRepresents(w: bv32)
    ensures Represents(w, Read(w))
  {
    TopByte(w);
    ByteBound(w >> 24);
    hide Has;
  }

  /** On the word as on the record: a written flag reads back and disturbs no other, whatever was in the word. */
  lemma SetGetWord(w: bv32, b: Flag, v: bool, c: Flag)
    ensures GetFlagWord(SetFlagWord(w, b, v), c) == if c == b then v else GetFlagWord(w, c)
  {
    hide *;
    var f := Read(w);
    ReadRepresents(w);
    SetFlagRefines(w, f, b, v);
    GetFlagRefines(w, f, c);
    GetFlagRefines(SetFlagWord(w, b, v), SetFlag(f, b, v), c);
    SetGet(f, b, v, c);
  }

  /** (i8)x < 0 for the low byte of x. */
  predicate NegativeByte(x: bv32) {
    Has(x, 0x80)
  }

  predicate IsBelowOrEqual(w: bv32) { Has((w >> 6) | w, 1) }
  predicate IsAbove(w: bv32) { Has((!w >> 6) & !w, 1) }
  predicate IsLess(w: bv32) { NegativeByte(w ^ (w >> 4)) }
  predicate IsGreaterOrEqual(w: bv32) { NegativeByte(!(w ^ (w >> 4))) }
  predicate IsLessOrEqual(w: bv32) { NegativeByte((w ^ (w >> 4)) | (w << 1)) }
  predicate IsGreater(w: bv32) { NegativeByte(!(w ^ (w >> 4)) & !(w << 1)) }

  /** Each bit trick decides the x86 condition it is named for, whatever the other bits of the word. */
  lemma PredicateTricks(w: bv32, f: Flags)
    requires Represents(w, f)
    ensures IsBelowOrEqual(w) <==> f.cf || f.zf
    ensures IsAbove(w) <==> !f.cf && !f.zf
    ensures IsLess(w) <==> f.sf != f.of
    ensures IsGreaterOrEqual(w) <==> f.sf == f.of
    ensures IsLessOrEqual(w) <==> f.zf || f.sf != f.of
    ensures IsGreater(w) <==> !f.zf && f.sf == f.of
  {
  }
}
