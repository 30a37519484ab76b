/** Branch fusion (blink/fusion.c): a compare and the conditional jump after it become one native compare and
    branch that computes no guest flags. */
module Fusion {
  import opened Bits
  import opened Flags
  import opened Alu
  import opened AluLaws
  import opened Deps
  import opened Liveness
  import opened Rows

  datatype Host = X86 | Arm

  // ----- the two compare instructions -----

  /** The guest's view: CMP sets its flags, Jcc tests them. */
  predicate GuestTakes(cc: nat, m: int, x: int, y: int)
    requires IsModulus(m) && 0 <= x < m && 0 <= y < m
  {
    Cond(cc, View(SubSpec(m, x, y, 0).flags))
  }

  /** What the guest's condition says about the operands as integers. Parity conditions say nothing of the kind. */
  predicate IntegerMeaning(cc: nat, m: int, x: int, y: int) {
    var d := Signed(m, x) - Signed(m, y);
    var even :=
      match cc / 2
      case 0 => !FitsSigned(m, d)
      case 1 => x < y
      case 2 => x == y
      case 3 => x <= y
      case 6 => d < 0
      case _ => d <= 0;
    even == (cc % 2 == 0)
  }

  predicate Comparison(cc: nat) {
    cc < 8 || 12 <= cc < 16
  }

  lemma GuestMeaning(cc: nat, m: int, x: int, y: int)
    requires IsModulus(m) && 0 <= x < m && 0 <= y < m && Comparison(cc)
    ensures GuestTakes(cc, m, x, y) <==> IntegerMeaning(cc, m, x, y)
  {
    var f := SubSpec(m, x, y, 0).flags;
    assert CF in View(f) <==> f.cf;
    assert ZF in View(f) <==> f.zf;
    assert SF in View(f) <==> f.sf;
    assert OF in View(f) <==> f.of;
    SubFlags(m, x, y);
    hide SubSpec, View, GetParity, Nibble;
  }

  lemma SubFlags(m: int, x: int, y: int)
    requires IsModulus(m) && 0 <= x < m && 0 <= y < m
    ensures var f, d := SubSpec(m, x, y, 0).flags, Signed(m, x) - Signed(m, y);
            && (f.cf <==> x < y) && (f.zf <==> x == y) && (f.of <==> !FitsSigned(m, d)) && (f.sf != f.of <==> d < 0)
            && (x == y <==> d == 0)
  {
    hide Nibble;
  }

  /** aarch64 condition flags after cmp: carry means no borrow. */
  datatype Nzcv = Nzcv(n: bool, z: bool, c: bool, v: bool)

  function ArmCmp(m: int, x: int, y: int): Nzcv
    requires IsModulus(m) && 0 <= x < m && 0 <= y < m
  {
    Nzcv(Top(m, Reduce(m, x - y)), x == y, x >= y, !FitsSigned(m, Signed(m, x) - Signed(m, y)))
  }

  /** b.eq, b.ne, b.cs, b.cc, b.mi, b.pl, b.vs, b.vc, b.hi, b.ls, b.ge, b.lt, b.gt, b.le */
  predicate ArmCond(code: nat, f: Nzcv) {
    match code
    case 0x0 => f.z
    case 0x1 => !f.z
    case 0x2 => f.c
    case 0x3 => !f.c
    case 0x4 => f.n
    case 0x5 => !f.n
    case 0x6 => f.v
    case 0x7 => !f.v
    case 0x8 => f.c && !f.z
    case 0x9 => !f.c || f.z
    case 0xA => f.n == f.v
    case 0xB => f.n != f.v
    case 0xC => !f.z && f.n == f.v
    case _ => f.z || f.n != f.v
  }

  /** The remapping switch; the four sign and parity jumps are refused before it is reached. */
  function ToArm(cc: nat): nat
    requires Comparison(cc)
  {
    match cc
    case 0x0 => 0x6
    case 0x1 => 0x7
    case 0x2 => 0x3
    case 0x3 => 0x2
    case 0x4 => 0x0
    case 0x5 => 0x1
    case 0x6 => 0x9
    case 0x7 => 0x8
    case 0xC => 0xB
    case 0xD => 0xA
    case 0xE => 0xD
    case _ => 0xC
  }

  predicate Accepted(host: Host, cc: nat) {
    cc < 16 && (host.X86? || Comparison(cc))
  }

  /** The host's own flags on x86-64. */
  datatype Eflags = Eflags(cf: bool, pf: bool, zf: bool, sf: bool, of: bool)

  function X86Cmp(m: int, x: int, y: int): Eflags
    requires IsModulus(m) && 0 <= x < m && 0 <= y < m
  {
    var z := Reduce(m, x - y);
    Eflags(x < y, EvenOnes(z % 256), x == y, 2 * z >= m, !FitsSigned(m, Signed(m, x) - Signed(m, y)))
  }

  /** test with a result of z. */
  function X86Test(m: int, z: nat): Eflags {
    Eflags(false, EvenOnes(z % 256), z == 0, 2 * z >= m, false)
  }

  /** jo, jno, jb, jae, je, jne, jbe, ja, js, jns, jp, jnp, jl, jge, jle, jg */
  predicate X86Cond(cc: nat, f: Eflags) {
    match cc
    case 0x0 => f.of
    case 0x1 => !f.of
    case 0x2 => f.cf
    case 0x3 => !f.cf
    case 0x4 => f.zf
    case 0x5 => !f.zf
    case 0x6 => f.cf || f.zf
    case 0x7 => !f.cf && !f.zf
    case 0x8 => f.sf
    case 0x9 => !f.sf
    case 0xA => f.pf
    case 0xB => !f.pf
    case 0xC => f.sf != f.of
    case 0xD => f.sf == f.of
    case 0xE => f.zf || f.sf != f.of
    case _ => !f.zf && f.sf == f.of
  }

  /** The guest's conditions read off guest flags and the host's off host flags agree when the flags do. */
  lemma SameConditions(cc: nat, f: Flags, e: Eflags)
    requires cc < 16
    requires e.cf == f.cf && e.zf == f.zf && e.sf == f.sf && e.of == f.of && e.pf == EvenOnes(f.low)
    ensures Cond(cc, View(f)) <==> X86Cond(cc, e)
  {
    hide View, EvenOnes;
    ParityIsEven(f.low);
    Shown(f);
  }

  lemma Shown(f: Flags)
    ensures (CF in View(f) <==> f.cf) && (ZF in View(f) <==> f.zf) && (SF in View(f) <==> f.sf)
    ensures (OF in View(f) <==> f.of) && (PF in View(f) <==> GetParity(f.low))
  {
    hide GetParity;
    assert forall b :: b in View(f) <==> GetFlag(f, b);
  }

  /** What the emitted compare and branch does. */
  predicate NativeTakes(host: Host, cc: nat, m: int, x: int, y: int)
    requires Accepted(host, cc) && IsModulus(m) && 0 <= x < m && 0 <= y < m
  {
    match host
    case X86 => X86Cond(cc, X86Cmp(m, x, y))
    case Arm => ArmCond(ToArm(cc), ArmCmp(m, x, y))
  }

  /** The emitted branch is taken exactly when the guest's would be. */
  lemma RemapPreserves(host: Host, cc: nat, m: int, x: int, y: int)
    requires Accepted(host, cc) && IsModulus(m) && 0 <= x < m && 0 <= y < m
    ensures NativeTakes(host, cc, m, x, y) <==> GuestTakes(cc, m, x, y)
  {
    match host
    case X86 =>
      SubFlags(m, x, y);
      var f := SubSpec(m, x, y, 0).flags;
      assert f.sf == Top(m, Reduce(m, x - y)) && f.low == Reduce(m, x - y) % 256;
      hide SubSpec, EvenOnes, View, Cond, X86Cond, IsModulus, Nibble, Signed;
      SameConditions(cc, f, X86Cmp(m, x, y));
    case Arm =>
      GuestMeaning(cc, m, x, y);
      SubFlags(m, x, y);
      assert SubSpec(m, x, y, 0).flags.sf == Top(m, Reduce(m, x - y));
      hide GuestTakes, SubSpec, Signed, FitsSigned, Reduce, Top;
  }

  // ----- the two test instructions -----

  /** The guest's view: TEST sets its flags from the AND of its operands, Jcc tests them. */
  predicate GuestTestTakes(cc: nat, m: int, operand: nat, register: nat)
    requires IsModulus(m)
  {
    Cond(cc, View(Logic(m, BitAnd(operand, register)).flags))
  }

  predicate AcceptedTest(host: Host, cc: nat) {
    cc < 16 && (host.X86? || cc == 0x4 || cc == 0x5)
  }

  /** What the emitted code does: it tests the register with itself, or, on aarch64, branches on its being zero. */
  predicate FusedTestTakes(host: Host, cc: nat, m: int, register: nat)
    requires AcceptedTest(host, cc)
  {
    match host
    case X86 => X86Cond(cc, X86Test(m, BitAnd(register, register)))
    case Arm => (cc == 0x4) == (register == 0)
  }

  lemma {:induction false} AndSelf(v: nat)
    ensures BitAnd(v, v) == v
  {
    if v > 0 { AndSelf(v / 2); }
  }

  /** TEST leaves the flags a host TEST of the same result leaves. */
  lemma TestFlags(cc: nat, m: int, z: nat)
    requires cc < 16 && IsModulus(m) && z < m
    ensures Cond(cc, View(Logic(m, z).flags)) <==> X86Cond(cc, X86Test(m, z))
  {
    hide View, Cond, X86Cond, EvenOnes, IsModulus;
    SameConditions(cc, Logic(m, z).flags, X86Test(m, z));
  }

  /** jz and jnz on aarch64 say what they say on x86-64. */
  lemma FusedTestMeaning(host: Host, cc: nat, m: int, register: nat)
    requires AcceptedTest(host, cc) && IsModulus(m) && register < m
    ensures FusedTestTakes(host, cc, m, register) <==> GuestTestTakes(cc, m, register, register)
  {
    hide BitAnd, View, Cond, EvenOnes, Logic, IsModulus;
    AndSelf(register);
    TestFlags(cc, m, register);
  }

  /** ANDing anything with zero: ZF and PF set, the rest clear. */
  lemma ZeroTest(m: int, register: nat)
    requires IsModulus(m)
    ensures BitAnd(0, register) == 0 && X86Test(m, 0) == Eflags(false, true, true, false, false)
  {
    forall i: nat ensures !Bit(0, i) { ZeroBits(i); }
  }

  lemma OneTest(m: int)
    requires IsModulus(m)
    ensures X86Test(m, 1) == Eflags(false, false, false, false, false)
  {
    OneBits();
    hide Bit;
  }

  lemma OneBits()
    ensures Bit(1, 0) && forall i: nat :: i > 0 ==> !Bit(1, i)
  {
    forall i: nat | i > 0 ensures !Bit(1, i) { ZeroBits(i - 1); }
  }

  /** A register and a memory operand on which the fused test goes wrong: 1 shows everything but the sign. */
  function Culprit(cc: nat, m: int): nat
    requires IsModulus(m)
  {
    if cc == 0x8 || cc == 0x9 || cc == 0xC || cc == 0xD then m / 2 else 1
  }

  lemma CulpritFails(host: Host, cc: nat, m: int)
    requires AcceptedTest(host, cc) && IsModulus(m) && cc >= 4
    ensures Culprit(cc, m) < m &&
            FusedTestTakes(host, cc, m, Culprit(cc, m)) != GuestTestTakes(cc, m, 0, Culprit(cc, m))
  {
    var r := Culprit(cc, m);
    AndSelf(r);
    ZeroTest(m, r);
    OneTest(m);
    hide BitAnd, View, Cond, EvenOnes, Logic;
    TestFlags(cc, m, 0);
  }

  lemma FourConditions(cc: nat, m: int, operand: nat, register: nat)
    requires cc < 4 && IsModulus(m)
    ensures GuestTestTakes(cc, m, operand, register) <==> cc % 2 == 1
    ensures X86Cond(cc, X86Test(m, register)) <==> cc % 2 == 1
  {
    hide BitAnd, View, EvenOnes, Trunc;
    Shown(Logic(m, BitAnd(operand, register)).flags);
  }

  /** FuseBranchTest compares register numbers and never asks whether the operand is a register. The fused branch is the
      guest's, for all values of the register and the operand, exactly when the operand is that register or the jump is
      one of jo, jno, jb and jae, whose flags TEST always clears. */
  lemma FusedTestExact(host: Host, cc: nat, m: int, regForm: bool)
    requires AcceptedTest(host, cc) && IsModulus(m)
    ensures (forall operand: nat, register: nat :: operand < m && register < m && (regForm ==> operand == register) ==>
               FusedTestTakes(host, cc, m, register) == GuestTestTakes(cc, m, operand, register))
            <==> regForm || cc < 4
  {
    hide BitAnd, View, Cond, EvenOnes, Logic, X86Cond, X86Test, IsModulus, FusedTestTakes, GuestTestTakes;
    if regForm || cc < 4 {
      forall operand: nat, register: nat | operand < m && register < m && (regForm ==> operand == register)
        ensures FusedTestTakes(host, cc, m, register) == GuestTestTakes(cc, m, operand, register)
      {
        FusedTestMeaning(host, cc, m, register);
        if cc < 4 {
          FourConditions(cc, m, operand, register);
          FourConditions(cc, m, register, register);
        }
      }
    } else {
      CulpritFails(host, cc, m);
      var r := Culprit(cc, m);
      assert FusedTestTakes(host, cc, m, r) != GuestTestTakes(cc, m, 0, r);
    }
  }

  // ----- what is emitted -----

  /** The operand is loaded just before `CompareBranch` or `TestBranch`, the native instruction pair that branches over
      the next element. `Skew` moves ip like `Advance` and also records how far back a fault is to be reported.
      `Connect` leaves for another path. */
  datatype Uop = Advance(delta: int) | Skew(oplen: int,
      delta: int) | CompareBranch(cc: nat) | TestBranch(cc: nat) | Connect(pc: int)

  /** Runs emitted code from the run-time ip: the ip at the exit taken, and the guest address of the path it enters. */
  function Follow(host: Host, ops: seq<Uop>, ip: int, m: int, x: int, y: int): (int, int)
    requires IsModulus(m) && 0 <= x < m && 0 <= y < m
    decreases |ops|
  {
    if ops == [] then (ip, ip)
    else
      match ops[0]
      case Advance(d) => Follow(host, ops[1..], ip + d, m, x, y)
      case Skew(_, d) => Follow(host, ops[1..], ip + d, m, x, y)
      case CompareBranch(cc) =>
        if Accepted(host, cc) && NativeTakes(host, cc, m, x, y) && |ops| > 1
        then Follow(host, ops[2..], ip, m, x, y) else Follow(host, ops[1..], ip, m, x, y)
      case TestBranch(cc) =>
        if AcceptedTest(host, cc) && FusedTestTakes(host, cc, m, x) && |ops| > 1
        then Follow(host, ops[2..], ip, m, x, y) else Follow(host, ops[1..], ip, m, x, y)
      case Connect(pc) => (ip, pc)
  }

  /** The address a fault in loading the operand is reported at: ip less oplen, as they stand then. */
  function Blamed(ops: seq<Uop>, ip: int, oplen: int): int {
    if ops == [] then ip - oplen
    else
      match ops[0]
      case Advance(d) => Blamed(ops[1..], ip + d, oplen)
      case Skew(n, d) => Blamed(ops[1..], ip + d, n)
      case CompareBranch(_) => ip - oplen
      case TestBranch(_) => ip - oplen
      case Connect(_) => ip - oplen
  }

  /** The jump after the compare, read from its bytes: condition, length, displacement. */
  datatype Jcc = Jcc(cc: nat, length: nat, disp: int)

  function SignedByte(b: int): int {
    if b < 0x80 then b else b - 0x100
  }

  function SignedDword(v: int): int {
    if v < 0x8000_0000 then v else v - 0x1_0000_0000
  }

  function ReadJcc(p: seq<nat>): Option<Jcc>
    requires |p| >= 6
  {
    if p[0] / 16 == 7 then Some(Jcc(p[0] % 16, 2, SignedByte(p[1])))
    else if p[0] == 0x0F && p[1] / 16 == 8 then
      Some(Jcc(p[1] % 16, 6, SignedDword(p[2] + 0x100 * p[3] + 0x1_0000 * p[4] + 0x100_0000 * p[5])))
    else None
  }

  /** The bytes begin with the opcode of a conditional jump, short or near. */
  predicate StartsJump(p: seq<nat>)
    requires |p| >= 6
  {
    0x70 <= p[0] <= 0x7F || (p[0] == 0x0F && 0x80 <= p[1] <= 0x8F)
  }

  /** The encoding of a conditional jump: one opcode byte and a signed byte, or two and a signed 32-bit word, low byte
      first. */
  function JumpText(i: Insn): seq<nat>
    requires IsConditionalJump(i)
  {
    if i.mop < 0x100 then [i.mop, i.disp % 0x100]
    else
      var v := i.disp % 0x1_0000_0000;
      [0x0F, i.mop - 0x100, v % 0x100, v / 0x100 % 0x100, v / 0x1_0000 % 0x100, v / 0x100_0000]
  }

  /** The fields of a conditional jump as its encoding can hold them. */
  predicate JumpFits(i: Insn) {
    && IsConditionalJump(i)
    && (i.mop < 0x100 ==> i.length == 2 && -0x80 <= i.disp < 0x80)
    && (i.mop >= 0x100 ==> i.length == 6 && -0x8000_0000 <= i.disp < 0x8000_0000)
  }

  lemma TextLength(i: Insn)
    requires JumpFits(i)
    ensures |JumpText(i)| == i.length && forall k :: 0 <= k < i.length ==> JumpText(i)[k] < 0x100
    ensures i.length == 2 || i.length == 6
  {
  }

  /** All that is asked of the decoder: where the bytes begin with the opcode of a conditional jump, it decodes to the
      jump they encode. */
  predicate Decodes(p: seq<nat>, i: Insn)
    requires |p| >= 6
  {
    StartsJump(p) ==> JumpFits(i) && p[..i.length] == JumpText(i)
  }

  /** A conditional jump read from its encoding is that jump, forward or backward, short or near. */
  lemma ReadBack(p: seq<nat>, i: Insn)
    requires |p| >= 6 && JumpFits(i) && p[..i.length] == JumpText(i)
    ensures ReadJcc(p) == Some(Jcc(i.mop % 16, i.length, i.disp))
  {
    hide ReadJcc, SignedByte, SignedDword;
    if i.mop < 0x100 {
      assert JumpText(i)[0] == p[0] && JumpText(i)[1] == p[1];
      ReadShort(p, i.mop - 0x70, i.disp);
    } else {
      var t := JumpText(i);
      assert t[0] == p[0] && t[1] == p[1] && t[2] == p[2] && t[3] == p[3] && t[4] == p[4] && t[5] == p[5];
      ReadNear(p, i.mop - 0x180, i.disp);
    }
  }

  lemma ReadShort(p: seq<nat>, cc: nat, disp: int)
    requires |p| >= 6 && cc < 16 && -0x80 <= disp < 0x80 && p[0] == 0x70 + cc && p[1] == disp % 0x100
    ensures ReadJcc(p) == Some(Jcc((0x70 + cc) % 16, 2, disp))
  {
    hide SignedDword;
  }

  lemma ReadNear(p: seq<nat>, cc: nat, disp: int)
    requires |p| >= 6 && cc < 16 && -0x8000_0000 <= disp < 0x8000_0000 && p[0] == 0x0F && p[1] == 0x80 + cc
    requires var v := disp % 0x1_0000_0000;
             p[2] == v % 0x100 && p[3] == v / 0x100 % 0x100 && p[4] == v / 0x1_0000 % 0x100 && p[5] == v / 0x100_0000
    ensures ReadJcc(p) == Some(Jcc((0x180 + cc) % 16, 6, disp))
  {
    hide SignedByte;
    FourBytes(disp % 0x1_0000_0000);
    SignedBack(disp);
    hide SignedDword;
  }

  lemma SignedBack(disp: int)
    requires -0x8000_0000 <= disp < 0x8000_0000
    ensures SignedDword(disp % 0x1_0000_0000) == disp
  {
  }

  lemma FourBytes(v: int)
    requires 0 <= v < 0x1_0000_0000
    ensures v == v % 0x100 + 0x100 * (v / 0x100 % 0x100) + 0x1_0000 * (v / 0x1_0000 % 0x100)
                 + 0x100_0000 * (v / 0x100_0000)
  {
    assert v / 0x100 / 0x100 == v / 0x1_0000 && v / 0x1_0000 / 0x100 == v / 0x100_0000;
  }

  lemma JccCode(p: seq<nat>)
    requires |p| >= 6
    ensures ReadJcc(p).Some? ==> ReadJcc(p).value.cc < 16
  {
  }

  /** Nothing else is taken for a jump. */
  lemma ReadsOnlyJumps(p: seq<nat>)
    requires |p| >= 6
    ensures ReadJcc(p).Some? <==> StartsJump(p)
  {
  }

  /** What both fusions ask of the place: operand size, page, a jump behind it, no flag needed afterwards. `p` is the
      host page at ip, if it is mapped; ip is the end of the compare or test. */
  predicate Site(w: Width, ip: int, p: Option<seq<nat>>, code: Code) {
    && (w.W32? || w.W64?)
    && 4096 - ip % 4096 >= 6
    && p.Some? && |p.value| >= 6 && ReadJcc(p.value).Some?
    && var j := ReadJcc(p.value).value;
       && NeededFlags(code, ip + j.length + j.disp, STATUS) == Some({})
       && NeededFlags(code, ip + j.length, STATUS) == Some({})
  }

  /** When FuseBranchCmp fuses. */
  predicate CanFuse(host: Host, w: Width, ip: int, p: Option<seq<nat>>, code: Code) {
    Site(w, ip, p, code) && Accepted(host, ReadJcc(p.value).value.cc)
  }

  /** When FuseBranchTest fuses `test rm, reg`. Whether rm is a register or an address plays no part. */
  predicate CanFuseTest(host: Host, w: Width, reg: nat, rm: nat, ip: int, p: Option<seq<nat>>, code: Code) {
    Site(w, ip, p, code) && AcceptedTest(host, ReadJcc(p.value).value.cc) && reg == rm
  }

  function Target(ip: int, j: Jcc, taken: bool): int {
    if taken then ip + j.length + j.disp else ip + j.length
  }

  /** Started at `start`, the code ends where the guest's compare and jump would, for all operands. */
  ghost predicate LandsLikeCompare(host: Host, ops: seq<Uop>, start: int, ip: int, j: Jcc, m: int)
    requires IsModulus(m)
  {
    forall x, y | 0 <= x < m && 0 <= y < m ::
      var to := Target(ip, j, GuestTakes(j.cc, m, x, y)); Follow(host, ops, start, m, x, y) == (to, to)
  }

  /** Started at `start`, the code ends where the guest's test of operand y with register x and jump would. */
  ghost predicate LandsLikeTest(host: Host, ops: seq<Uop>, start: int, ip: int, j: Jcc, m: int, regForm: bool)
    requires IsModulus(m)
  {
    forall x: nat, y: nat | x < m && y < m && (regForm ==> y == x) ::
      var to := Target(ip, j, GuestTestTakes(j.cc, m, y, x)); Follow(host, ops, start, m, x, y) == (to, to)
  }

  /** A fault in loading the operand is reported at `at`, whatever oplen was before. */
  ghost predicate BlamesAddress(ops: seq<Uop>, start: int, at: int) {
    forall oplen :: Blamed(ops, start, oplen) == at
  }

  class Path {
    /** How far the run-time ip lags behind the guest address being compiled. */
    var skew: int
    /** How many of the following instructions have been dealt with already. */
    var skip: nat
    var ops: seq<Uop>

    /** FuseBranchCmp: refuses without a trace, or emits a branch that lands where the guest's compare and jump would,
        for all operands, with nothing left to add to ip. A fault in loading a memory operand is reported at the
        compare. */
    method FuseBranchCmp(host: Host, w: Width, ip: int, length: nat, regForm: bool, p: Option<seq<nat>>, code: Code)
      returns (fused: bool)
      requires p.Some? ==> |p.value| >= 4096 - ip % 4096
      modifies this
      ensures fused <==> CanFuse(host, w, ip, p, code)
      ensures !fused ==> skew == old(skew) && skip == old(skip) && ops == old(ops)
      ensures fused ==> skew == 0 && skip == 1 && |ops| > |old(ops)| && ops[..|old(ops)|] == old(ops)
      ensures fused ==> LandsLikeCompare(host, ops[|old(ops)|..], ip - old(skew), ip, ReadJcc(p.value).value, w.Mod())
      ensures fused && !regForm ==> BlamesAddress(ops[|old(ops)|..], ip - old(skew), ip - length)
    {
      hide Crawl, NeededFlags, LandsLikeCompare, ReadJcc, Width.Mod, IsModulus, BlamesAddress;
      if w.W8? || w.W16? { return false; }
      if 4096 - ip % 4096 < 6 { return false; }
      if p.None? { return false; }
      var jcc := ReadJcc(p.value);
      if jcc.None? { return false; }
      var j := jcc.value;
      JccCode(p.value);
      if host.Arm? && (j.cc == 0x8 || j.cc == 0x9 || j.cc == 0xA || j.cc == 0xB) { return false; }
      var target := NeededFlags(code, ip + j.length + j.disp, STATUS);
      if target != Some({}) { return false; }
      var exit := NeededFlags(code, ip + j.length, STATUS);
      if exit != Some({}) { return false; }
      ghost var before := ops;
      ghost var lag := skew;
      if regForm {
        ops := ops + [Advance(skew + j.length)];
      } else {
        ops := ops + [Skew(length + j.length, skew + j.length)];
      }
      skew := 0;
      ops := ops + [CompareBranch(j.cc)];
      ops := ops + [Connect(ip + j.length)];
      ops := ops + [Advance(j.disp)];
      ops := ops + [Connect(ip + j.length + j.disp)];
      ghost var move := if regForm then Advance(lag + j.length) else Skew(length + j.length, lag + j.length);
      assert ops[|before|..] == Emission(move, CompareBranch(j.cc), j, ip);
      CompareLands(host, move, lag, j, ip, w.Mod());
      if !regForm { EmissionBlames(j, ip, lag, length); }
      skip := 1;
      fused := true;
    }

    /** FuseBranchTest: refuses without a trace, or emits a branch on the register. It lands where the guest's test and
        jump would, for all operands, exactly if rm really is that register, or the jump is on a flag TEST clears, or
        leads to the next instruction anyway. */
    method FuseBranchTest(host: Host, w: Width, reg: nat, rm: nat, ghost regForm: bool, ip: int, p: Option<seq<nat>>,
                          code: Code)
      returns (fused: bool)
      requires p.Some? ==> |p.value| >= 4096 - ip % 4096
      modifies this
      ensures fused <==> CanFuseTest(host, w, reg, rm, ip, p, code)
      ensures !fused ==> skew == old(skew) && skip == old(skip) && ops == old(ops)
      ensures fused ==> skew == 0 && skip == 1 && |ops| > |old(ops)| && ops[..|old(ops)|] == old(ops)
      ensures fused ==> var j := ReadJcc(p.value).value;
                        (LandsLikeTest(host, ops[|old(ops)|..], ip - old(skew), ip, j, w.Mod(), regForm)
                         <==> regForm || j.cc < 4 || j.disp == 0)
    {
      hide Crawl, NeededFlags, LandsLikeTest, ReadJcc, Width.Mod, IsModulus;
      if w.W8? || w.W16? { return false; }
      if 4096 - ip % 4096 < 6 { return false; }
      if reg != rm { return false; }
      if p.None? { return false; }
      var jcc := ReadJcc(p.value);
      if jcc.None? { return false; }
      var j := jcc.value;
      JccCode(p.value);
      if host.Arm? && j.cc != 0x4 && j.cc != 0x5 { return false; }
      var target := NeededFlags(code, ip + j.length + j.disp, STATUS);
      if target != Some({}) { return false; }
      var exit := NeededFlags(code, ip + j.length, STATUS);
      if exit != Some({}) { return false; }
      ghost var before := ops;
      ghost var lag := skew;
      ops := ops + [Advance(skew + j.length)];
      skew := 0;
      ops := ops + [TestBranch(j.cc)];
      ops := ops + [Connect(ip + j.length)];
      ops := ops + [Advance(j.disp)];
      ops := ops + [Connect(ip + j.length + j.disp)];
      assert ops[|before|..] == Emission(Advance(lag + j.length), TestBranch(j.cc), j, ip);
      TestLands(host, lag, j, ip, w.Mod(), regForm);
      skip := 1;
      fused := true;
    }
  }

  function Emission(move: Uop, branch: Uop, j: Jcc, ip: int): seq<Uop> {
    [move, branch, Connect(ip + j.length), Advance(j.disp), Connect(ip + j.length + j.disp)]
  }

  /** Whether the native branch is taken. */
  predicate Takes(host: Host, branch: Uop, m: int, x: int, y: int)
    requires IsModulus(m) && 0 <= x < m && 0 <= y < m
  {
    || (branch.CompareBranch? && Accepted(host, branch.cc) && NativeTakes(host, branch.cc, m, x, y))
    || (branch.TestBranch? && AcceptedTest(host, branch.cc) && FusedTestTakes(host, branch.cc, m, x))
  }

  /** From a lagging ip, the emitted code ends at the jump's target or behind the jump, as the native branch decides. */
  lemma EmissionLands(host: Host, move: Uop, branch: Uop, skew: int, j: Jcc, ip: int, m: int, x: int, y: int)
    requires (branch.CompareBranch? || branch.TestBranch?) && (move.Advance? || move.Skew?)
    requires move.delta == skew + j.length && IsModulus(m) && 0 <= x < m && 0 <= y < m
    ensures var to := Target(ip, j, Takes(host, branch, m, x, y));
            Follow(host, Emission(move, branch, j, ip), ip - skew, m, x, y) == (to, to)
  {
    hide NativeTakes, FusedTestTakes, IsModulus, Accepted, AcceptedTest;
    var ops := Emission(move, branch, j, ip);
    var a, b, c, d := ops[1..], ops[2..], ops[3..], ops[4..];
    assert a[1..] == b && a[2..] == c && c[1..] == d;
    assert Follow(host, ops, ip - skew, m, x, y) == Follow(host, a, ip + j.length, m, x, y);
    assert Follow(host, b, ip + j.length, m, x, y) == (ip + j.length, ip + j.length);
    assert Follow(host, c, ip + j.length, m, x, y) == Follow(host, d, ip + j.length + j.disp, m, x, y);
  }

  lemma CompareLands(host: Host, move: Uop, skew: int, j: Jcc, ip: int, m: int)
    requires (move.Advance? || move.Skew?) && move.delta == skew + j.length && Accepted(host, j.cc) && IsModulus(m)
    ensures LandsLikeCompare(host, Emission(move, CompareBranch(j.cc), j, ip), ip - skew, ip, j, m)
  {
    hide GuestTakes, NativeTakes, Follow, Emission, Accepted, IsModulus, Target;
    var ops := Emission(move, CompareBranch(j.cc), j, ip);
    forall x, y | 0 <= x < m && 0 <= y < m
      ensures var to := Target(ip, j, GuestTakes(j.cc, m, x, y)); Follow(host, ops, ip - skew, m, x, y) == (to, to)
    {
      RemapPreserves(host, j.cc, m, x, y);
      EmissionLands(host, move, CompareBranch(j.cc), skew, j, ip, m, x, y);
    }
  }

  lemma TestLands(host: Host, skew: int, j: Jcc, ip: int, m: int, regForm: bool)
    requires AcceptedTest(host, j.cc) && IsModulus(m)
    ensures LandsLikeTest(host, Emission(Advance(skew + j.length), TestBranch(j.cc), j, ip), ip - skew, ip, j, m,
            regForm)
            <==> regForm || j.cc < 4 || j.disp == 0
  {
    hide GuestTestTakes, FusedTestTakes, Follow, Emission, AcceptedTest, IsModulus;
    var ops, start := Emission(Advance(skew + j.length), TestBranch(j.cc), j, ip), ip - skew;
    FusedTestExact(host, j.cc, m, regForm);
    forall x: nat, y: nat | x < m && y < m
      ensures var to := Target(ip, j, FusedTestTakes(host, j.cc, m, x)); Follow(host, ops, start, m, x, y) == (to, to)
    {
      EmissionLands(host, Advance(skew + j.length), TestBranch(j.cc), skew, j, ip, m, x, y);
    }
    if !(regForm || j.cc < 4 || j.disp == 0) {
      CulpritFails(host, j.cc, m);
      var to := Target(ip, j, GuestTestTakes(j.cc, m, 0, Culprit(j.cc, m)));
      assert Follow(host, ops, start, m, Culprit(j.cc, m), 0) != (to, to);
    }
  }

  lemma EmissionBlames(j: Jcc, ip: int, skew: int, length: nat)
    ensures var move := Skew(length + j.length, skew + j.length);
            BlamesAddress(Emission(move, CompareBranch(j.cc), j, ip), ip - skew, ip - length)
  {
    var ops := Emission(Skew(length + j.length, skew + j.length), CompareBranch(j.cc), j, ip);
    var start := ip - skew;
    forall oplen ensures Blamed(ops, start, oplen) == ip - length {
      assert Blamed(ops, start, oplen) == Blamed(ops[1..], ip + j.length, length + j.length);
      assert ops[1..][0] == CompareBranch(j.cc);
    }
  }

  // ----- running on -----

  /** The guest's state after the jump j behind ip, with the given flags. */
  function AfterBranch<R>(ip: int, j: Jcc, flags: set<Flag>, rest: R): State<R> {
    State(Target(ip, j, Cond(j.cc, flags)), flags, rest)
  }

  /** No flag is needed on either side of a fused jump, so stale flags there change nothing: not the path, registers or
      memory for any number of steps, and nothing at all after 32 instructions. */
  lemma StaleRuns<R(!new)>(step: State<R> -> State<R>, code: Code, w: Width, ip: int, p: Option<seq<nat>>,
                           flags: set<Flag>, stale: set<Flag>, rest: R, n: nat)
    requires Site(w, ip, p, code) && Contract(step, code)
    requires NoBoundary(step, code, AfterBranch(ip, ReadJcc(p.value).value, flags, rest), if n < 32 then n else 32)
    ensures var s := AfterBranch(ip, ReadJcc(p.value).value, flags, rest);
            && Twins(Run(step, s, n), Run(step, s.(flags := stale), n))
            && (n >= 32 ==> Run(step, s, n) == Run(step, s.(flags := stale), n))
  {
    hide Contract, Diff, Crawl, Cond, ReadJcc;
    var s := AfterBranch(ip, ReadJcc(p.value).value, flags, rest);
    StaleDead(code, w, ip, p, flags, stale, rest);
    DeadFlags(step, code, s, s.(flags := stale), STATUS, 32, n);
  }

  lemma StaleDead<R>(code: Code, w: Width, ip: int, p: Option<seq<nat>>, flags: set<Flag>, stale: set<Flag>, rest: R)
    requires Site(w, ip, p, code)
    ensures var s := AfterBranch(ip, ReadJcc(p.value).value, flags, rest);
            FoundDead(code, s.pc, Diff(flags, stale), STATUS, 32)
  {
    hide Diff, Crawl, Cond, ReadJcc;
    var s := AfterBranch(ip, ReadJcc(p.value).value, flags, rest);
    AllStatus(Diff(flags, stale));
    assert NeededFlags(code, s.pc, STATUS) == Some({});
  }

  /** The same up to and including the first call, return or system call. */
  lemma StaleAtBoundary<R(!new)>(step: State<R> -> State<R>, code: Code, w: Width, ip: int, p: Option<seq<nat>>,
                                 flags: set<Flag>, stale: set<Flag>, rest: R, n: nat)
    requires Site(w, ip, p, code) && Contract(step, code)
    requires NoBoundary(step, code, AfterBranch(ip, ReadJcc(p.value).value, flags, rest), n)
    requires var a := Run(step, AfterBranch(ip, ReadJcc(p.value).value, flags, rest), n);
             a.pc in code && Boundary(code[a.pc])
    ensures var s := AfterBranch(ip, ReadJcc(p.value).value, flags, rest);
            && Twins(Run(step, s, n + 1), Run(step, s.(flags := stale), n + 1))
            && Diff(Run(step, s, n + 1).flags, Run(step, s.(flags := stale), n + 1).flags) <= Diff(flags, stale)
  {
    hide Contract, Diff, Crawl, Cond, ReadJcc, Boundary;
    var s := AfterBranch(ip, ReadJcc(p.value).value, flags, rest);
    StaleDead(code, w, ip, p, flags, stale, rest);
    DeadFlagsAtBoundary(step, code, s, s.(flags := stale), STATUS, 32, n);
  }

  /** Compare fusion preserves meaning. After the fused branch the guest flags are whatever they were before (`stale`);
      the program goes on exactly as after the real compare and jump, and is in the same state 32 instructions on. */
  lemma FusedRuns<R(!new)>(step: State<R> -> State<R>, code: Code, host: Host, w: Width, ip: int, p: Option<seq<nat>>,
                           x: int, y: int, stale: set<Flag>, rest: R, n: nat)
    requires CanFuse(host, w, ip, p, code) && 0 <= x < w.Mod() && 0 <= y < w.Mod() && Contract(step, code)
    requires NoBoundary(step, code, AfterJump(w.Mod(), ip, ReadJcc(p.value).value, x, y, rest), if n < 32 then n
             else 32)
    ensures var j := ReadJcc(p.value).value;
            var s := AfterJump(w.Mod(), ip, j, x, y, rest);
            var t := State(Target(ip, j, NativeTakes(host, j.cc, w.Mod(), x, y)), stale, rest);
            && Twins(Run(step, s, n), Run(step, t, n))
            && (n >= 32 ==> Run(step, s, n) == Run(step, t, n))
  {
    hide Contract, NoBoundary, Run, Diff, Crawl, Cond, ReadJcc, SubSpec, View, NativeTakes, Width.Mod, IsModulus;
    RemapPreserves(host, ReadJcc(p.value).value.cc, w.Mod(), x, y);
    StaleRuns(step, code, w, ip, p, View(SubSpec(w.Mod(), x, y, 0).flags), stale, rest, n);
  }

  /** The guest's state after the compare ending at ip and the jump j behind it. */
  function AfterJump<R>(m: int, ip: int, j: Jcc, x: int, y: int, rest: R): State<R>
    requires IsModulus(m) && 0 <= x < m && 0 <= y < m
  {
    AfterBranch(ip, j, View(SubSpec(m, x, y, 0).flags), rest)
  }

  /** Test fusion preserves meaning under the condition of `FusedTestExact`. */
  lemma FusedTestRuns<R(!new)>(step: State<R> -> State<R>, code: Code, host: Host, w: Width, reg: nat, rm: nat,
                               regForm: bool, ip: int, p: Option<seq<nat>>, register: nat, operand: nat,
                               stale: set<Flag>, rest: R, n: nat)
    requires CanFuseTest(host, w, reg, rm, ip, p, code) && Contract(step, code)
    requires register < w.Mod() && operand < w.Mod() && (regForm ==> operand == register)
    requires regForm || ReadJcc(p.value).value.cc < 4
    requires NoBoundary(step, code, AfterTest(w.Mod(), ip, ReadJcc(p.value).value, operand, register, rest),
                        if n < 32 then n else 32)
    ensures var j := ReadJcc(p.value).value;
            var s := AfterTest(w.Mod(), ip, j, operand, register, rest);
            var t := State(Target(ip, j, FusedTestTakes(host, j.cc, w.Mod(), register)), stale, rest);
            && Twins(Run(step, s, n), Run(step, t, n))
            && (n >= 32 ==> Run(step, s, n) == Run(step, t, n))
  {
    hide Contract, NoBoundary, Run, Diff, Crawl, Cond, ReadJcc, Logic, View, BitAnd, FusedTestTakes, Width.Mod,
        IsModulus;
    FusedTestExact(host, ReadJcc(p.value).value.cc, w.Mod(), regForm);
    assert FusedTestTakes(host, ReadJcc(p.value).value.cc, w.Mod(), register)
        == GuestTestTakes(ReadJcc(p.value).value.cc, w.Mod(), operand, register);
    StaleRuns(step, code, w, ip, p, View(Logic(w.Mod(), BitAnd(operand, register)).flags), stale, rest, n);
  }

  function AfterTest<R>(m: int, ip: int, j: Jcc, operand: nat, register: nat, rest: R): State<R>
    requires IsModulus(m)
  {
    AfterBranch(ip, j, View(Logic(m, BitAnd(operand, register)).flags), rest)
  }

  /** The state after compare and jump is what executing the two instructions one after the other gives. */
  lemma CompareThenJump<R>(cmp: Rows.Op<R>, jump: Rows.Op<R>, ip: int, j: Jcc, s: State<R>)
    requires cmp.does.Arith? && cmp.does.op == Cmp && s.pc + cmp.insn.length == ip
    requires cmp.does.put(s.rest,
             AluSpec(Cmp, cmp.does.w, Showing(s.flags), cmp.does.x(s.rest), cmp.does.y(s.rest)).value) == s.rest
    requires jump.does == Branch(j.cc) && jump.insn.length == j.length && jump.insn.disp == j.disp
    ensures var m := cmp.does.w.Mod();
            Execute(jump, Execute(cmp, s)) ==
            AfterJump(m, ip, j, Trunc(m, cmp.does.x(s.rest)), Trunc(m, cmp.does.y(s.rest)), s.rest)
  {
    hide SubSpec, View, Trunc, Cond, IsModulus;
  }

  /** SETcc, or a CMOVcc with its `store`, after CMP is given the truth about the operands as integers. */
  lemma CompareThenSet<R>(cmp: Rows.Op<R>, set1: Rows.Op<R>, s: State<R>)
    requires cmp.does.Arith? && cmp.does.op == Cmp && set1.does.SetCond? && Comparison(set1.does.cc)
    requires cmp.does.put(s.rest,
             AluSpec(Cmp, cmp.does.w, Showing(s.flags), cmp.does.x(s.rest), cmp.does.y(s.rest)).value) == s.rest
    ensures var m, t := cmp.does.w.Mod(), Execute(set1, Execute(cmp, s));
            var x, y := cmp.does.x(s.rest) % m, cmp.does.y(s.rest) % m;
            && t.rest == set1.does.store(s.rest, IntegerMeaning(set1.does.cc, m, x, y))
            && t.flags == Execute(cmp, s).flags && t.pc == s.pc + cmp.insn.length + set1.insn.length
  {
    var m, x, y := cmp.does.w.Mod(), cmp.does.x(s.rest), cmp.does.y(s.rest);
    TruncMod(m, x);
    TruncMod(m, y);
    GuestMeaning(set1.does.cc, m, x % m, y % m);
    hide SubSpec, View, Trunc, Cond, IsModulus, IntegerMeaning;
  }

  /** A jump after CMP goes where the operands as integers say. */
  lemma CompareThenBranch<R>(cmp: Rows.Op<R>, jump: Rows.Op<R>, s: State<R>)
    requires cmp.does.Arith? && cmp.does.op == Cmp && jump.does.Branch? && Comparison(jump.does.cc)
    requires cmp.does.put(s.rest,
             AluSpec(Cmp, cmp.does.w, Showing(s.flags), cmp.does.x(s.rest), cmp.does.y(s.rest)).value) == s.rest
    ensures var m, t, ip := cmp.does.w.Mod(), Execute(jump, Execute(cmp, s)), s.pc + cmp.insn.length + jump.insn.length;
            var x, y := cmp.does.x(s.rest) % m, cmp.does.y(s.rest) % m;
            t.pc == (if IntegerMeaning(jump.does.cc, m, x, y) then ip + jump.insn.disp else ip) && t.rest == s.rest
  {
    var m, x, y := cmp.does.w.Mod(), cmp.does.x(s.rest), cmp.does.y(s.rest);
    TruncMod(m, x);
    TruncMod(m, y);
    GuestMeaning(jump.does.cc, m, x % m, y % m);
    hide SubSpec, View, Trunc, Cond, IsModulus, IntegerMeaning;
  }

  // ----- a test that is fused and should not be -----

  /** xor eax, eax: reads nothing and overwrites every flag. */
  function XorInsn(): Insn {
    Insn(0x31, 0, 0, false, true, 2, 0)
  }

  /** test [rax], eax; jz +2, with an xor on both sides of the jump, is accepted on both hosts: reg and rm are both 0.
      With 1 in eax and 2 in memory the guest jumps, and the fused branch falls through to another address. */
  lemma FusedTestMemory(host: Host)
    ensures var code := map[0x1004 := XorInsn(), 0x1006 := XorInsn()];
            var p := [0x74, 0x02, 0, 0, 0, 0];
            var j := Jcc(4, 2, 2);
            && ReadJcc(p) == Some(j) && CanFuseTest(host, W32, 0, 0, 0x1002, Some(p), code)
            && GuestTestTakes(j.cc, 0x1_0000_0000, 2, 1) && !FusedTestTakes(host, j.cc, 0x1_0000_0000, 1)
            && Target(0x1002, j, true) != Target(0x1002, j, false)
  {
    AndTwoOne();
    AndSelf(1);
    OneTest(0x1_0000_0000);
    var code := map[0x1004 := XorInsn(), 0x1006 := XorInsn()];
    XorNeedsNothing(code, 0x1004);
    XorNeedsNothing(code, 0x1006);
    ZeroTest(0x1_0000_0000, 1);
    hide BitAnd, View, Cond, EvenOnes, Logic, Crawl, NeededFlags;
    TestFlags(4, 0x1_0000_0000, 0);
  }

  lemma XorNeedsNothing(code: Code, pc: int)
    requires pc in code && code[pc] == XorInsn()
    ensures NeededFlags(code, pc, STATUS) == Some({})
  {
    assert Clobbers(code[pc]) == STATUS && Reads(code[pc]) == {};
    assert STATUS - STATUS == {} && {} * STATUS == {};
  }

  lemma AndTwoOne()
    ensures BitAnd(2, 1) == 0
  {
    assert BitAnd(1, 0) == 2 * BitAnd(0, 0) + 0;
    assert BitAnd(2, 1) == 2 * BitAnd(1, 0) + 0;
  }
}
