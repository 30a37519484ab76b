/** Flag liveness (blink/deps.c): which status flags an instruction reads and overwrites, and the bounded
    walk over guest code that decides whether a flag is still needed. */
module Deps {
  import opened Flags

  datatype Option<+T> = None | Some(value: T)

  const STATUS: set<Flag> := {CF, PF, AF, ZF, SF, OF}

  /** The decoded fields the tables look at: opcode with its map in the high digits, modrm.reg, the rep
      prefix (0, 2 or 3), the operand size prefix, whether modrm names a register, length, displacement. */
  datatype Insn = Insn(mop: nat, reg: nat, rep: nat, osz: bool, regForm: bool, length: nat, disp: int)

  predicate IsJump(i: Insn) {
    i.mop == 0xE9 || i.mop == 0xEB || i.mop == 0xE8
  }

  predicate IsConditionalJump(i: Insn) {
    0x70 <= i.mop <= 0x7F || 0x180 <= i.mop <= 0x18F
  }

  /** add, or, adc, sbb, and, sub, xor, cmp in their six encodings. */
  predicate AluEncoding(op: nat) {
    op < 0x40 && op % 8 < 6
  }

  /** The remaining opcodes whose row lists all six status flags. */
  predicate OtherFullRow(op: nat) {
    || 0x80 <= op <= 0x85 || 0xA6 <= op <= 0xA9 || 0xAE <= op <= 0xAF
    || op == 0x69 || op == 0x6B || op == 0x1AF || op == 0x12E || op == 0x12F
    || op == 0x1A4 || op == 0x1A5 || op == 0x1AC || op == 0x1AD || op == 0x1B0 || op == 0x1B1
    || op == 0x1BC || op == 0x1BD || op == 0x1C0 || op == 0x1C1
    || op == 0x2F || op == 0x37 || op == 0x3F || op == 0xD5
  }

  predicate ShiftEncoding(op: nat) {
    op == 0xC0 || op == 0xC1 || 0xD0 <= op <= 0xD3
  }

  /** Rows that return -1: calls, returns and system calls, where the flags are dead by convention. */
  predicate Boundary(i: Insn) {
    || ((i.mop == 0xE8 || i.mop == 0xC3) && i.rep == 0)
    || i.mop == 0x105
    || (i.mop == 0xFF && (i.reg == 2 || i.reg == 3))
    || (i.mop == 0xFE && (i.reg == 2 || i.reg == 3))
  }

  /** GetFlagClobbers, cut to the status flags. */
  function Clobbers(i: Insn): (s: set<Flag>)
    ensures Boundary(i) ==> s == STATUS
  {
    if Boundary(i) then STATUS
    else if AluEncoding(i.mop) || OtherFullRow(i.mop) then STATUS
    else if ShiftEncoding(i.mop) then if i.reg < 4 then {OF, CF} else STATUS
    else if i.mop == 0xDB || i.mop == 0xDF then
      if i.regForm && (i.reg == 5 || i.reg == 6) then {OF, SF, AF} else {}
    else if i.mop == 0xF5 || i.mop == 0xF8 || i.mop == 0xF9 then {CF}
    else if i.mop == 0xF6 || i.mop == 0xF7 then if i.reg == 2 then {} else STATUS
    else if i.mop == 0xFE || i.mop == 0xFF then if i.reg < 2 then STATUS - {CF} else {}
    else if i.mop == 0x1A3 || i.mop == 0x1AB || i.mop == 0x1B3 || i.mop == 0x1BA || i.mop == 0x1BB then STATUS - {ZF}
    else if i.mop == 0x9E then STATUS - {OF}
    else if i.mop == 0x9D then STATUS
    else if i.mop == 0x1B8 then if i.rep == 3 then STATUS - {AF} else {}
    else if i.mop == 0x2F5 then if i.rep == 0 && !i.osz then STATUS else {}
    else if i.mop == 0x2F6 then if i.osz then {CF} else if i.rep == 3 then {OF} else {}
    else {}
  }

  /** The flags condition code cc reads. */
  function CondDeps(cc: nat): set<Flag> {
    if cc < 2 then {OF}
    else if cc < 4 then {CF}
    else if cc < 6 then {ZF}
    else if cc < 8 then {CF, ZF}
    else if cc < 10 then {SF}
    else if cc < 12 then {PF}
    else if cc < 14 then {OF, SF}
    else {OF, SF, ZF}
  }

  /** Jcc, CMOVcc and SETcc carry their condition in the low digit. */
  predicate CondEncoding(op: nat) {
    0x70 <= op <= 0x7F || 0x140 <= op <= 0x14F || 0x180 <= op <= 0x19F
  }

  /** GetFlagDeps, cut to the status flags. */
  function Reads(i: Insn): set<Flag> {
    if 0x10 <= i.mop <= 0x15 || 0x18 <= i.mop <= 0x1D || i.mop == 0xD6 || i.mop == 0xF5 then {CF}
    else if CondEncoding(i.mop) then CondDeps(i.mop % 16)
    else if i.mop == 0xCE then {OF}
    else if i.mop == 0xE0 || i.mop == 0xE1 then {ZF}
    else if 0x80 <= i.mop <= 0x83 || ShiftEncoding(i.mop) then if i.reg == 2 || i.reg == 3 then {CF} else {}
    else if i.mop == 0xDA || i.mop == 0xDB then
      if i.reg == 0 then {CF} else if i.reg == 1 || i.reg == 2 then {ZF} else if i.reg == 3 then {PF} else {}
    else if i.mop == 0x9F then STATUS - {OF}
    else if i.mop == 0x2F || i.mop == 0x37 then {CF, AF}
    else if i.mop == 0x9C then STATUS
    else if i.mop == 0x2F6 then if i.osz then {CF} else if i.rep == 3 then {OF} else {}
    else {}
  }

  /** ClassifyOp(rde) == kOpNormal */
  predicate IsNormal(i: Insn) {
    && !(0x70 <= i.mop <= 0x7F) && !(0x180 <= i.mop <= 0x18F)
    && i.mop != 0x9A && i.mop != 0xC2 && i.mop != 0xC3 && i.mop != 0xCA && i.mop != 0xCB
    && !(0xE0 <= i.mop <= 0xE3) && !(0xE8 <= i.mop <= 0xEB) && i.mop != 0xCF
    && !(i.mop == 0xFF && 2 <= i.reg <= 5)
    && i.mop != 0xF1 && i.mop != 0xCC && i.mop != 0xCD && i.mop != 0x105
    && i.mop != 0x130 && i.mop != 0x1A2 && !(i.mop == 0x1AE && (i.reg == 5 || i.reg == 6))
  }

  /** Where control can go after the instruction at pc; nothing is known of abnormal instructions. */
  function Succs(i: Insn, pc: int): set<int> {
    var next := pc + i.length;
    if IsJump(i) then {next + i.disp}
    else if IsConditionalJump(i) then {next, next + i.disp}
    else if IsNormal(i) then {next}
    else {}
  }

  /** The addresses that load and decode. */
  type Code = map<int, Insn>

  function Join(need: set<Flag>, r: Option<set<Flag>>): Option<set<Flag>> {
    match r
    case None => None
    case Some(s) => Some(need + s)
  }

  lemma JoinEmpty(r: Option<set<Flag>>)
    ensures Join({}, r) == r
  {
    if r.Some? { assert {} + r.value == r.value; }
  }

  /** What the walk computes; None is the C code's -1. */
  function Crawl(code: Code, pc: int, my: set<Flag>, look: int): Option<set<Flag>>
    requires look >= 1
    decreases look
  {
    if pc !in code then None
    else
      var i := code[pc];
      var next := pc + i.length;
      var need := Reads(i) * my;
      var live := my - Clobbers(i);
      if live == {} then Some(need)
      else if look == 1 then None
      else if IsJump(i) then Join(need, Crawl(code, next + i.disp, live, look - 1))
      else if IsConditionalJump(i) then
        match Crawl(code, next + i.disp, live, look - 1)
        case None => None
        case Some(s) => Join(need + s, Crawl(code, next, live, look - 1))
      else if IsNormal(i) then Join(need, Crawl(code, next, live, look - 1))
      else None
  }

  /** CrawlFlags: a loop over straight-line code, recursing at conditional jumps. It stops on its fuel for
      every program, cyclic ones included. */
  method CrawlFlags(code: Code, pc0: int, my0: set<Flag>, look0: int) returns (r: Option<set<Flag>>)
    requires look0 >= 1
    ensures r == Crawl(code, pc0, my0, look0)
    decreases look0
  {
    hide Clobbers, Reads, IsNormal, IsJump, IsConditionalJump;
    var pc, my, look := pc0, my0, look0;
    var need: set<Flag> := {};
    JoinEmpty(Crawl(code, pc, my, look));
    while true
      invariant 1 <= look <= look0
      invariant Crawl(code, pc0, my0, look0) == Join(need, Crawl(code, pc, my, look))
      decreases look
    {
      if pc !in code { return None; }
      ghost var was := Crawl(code, pc, my, look);
      ghost var had := need;
      var i := code[pc];
      pc := pc + i.length;
      need := need + Reads(i) * my;
      my := my - Clobbers(i);
      if my == {} { return Some(need); }
      look := look - 1;
      if look == 0 { return None; }
      if IsJump(i) {
        pc := pc + i.disp;
      } else if IsConditionalJump(i) {
        var branch := CrawlFlags(code, pc + i.disp, my, look);
        if branch.None? { return None; }
        need := need + branch.value;
      } else if !IsNormal(i) {
        return None;
      }
      assert Join(had, was) == Join(need, Crawl(code, pc, my, look)) by {
        match Crawl(code, pc, my, look)
        case None =>
        case Some(s) => assert Join(had, was).Some? && Join(had, was).value == need + s;
      }
    }
  }

  /** GetNeededFlags */
  function NeededFlags(code: Code, pc: int, my: set<Flag>): Option<set<Flag>> {
    Crawl(code, pc, my, 32)
  }

  // ----- the answer is exact -----

  /** From pc, flag f is read at the end of this static path before anything on it overwrites f. */
  predicate ReadAlong(code: Code, pc: int, f: Flag, path: seq<int>)
    decreases path
  {
    pc in code &&
    if path == [] then f in Reads(code[pc])
    else f !in Clobbers(code[pc]) && path[0] in Succs(code[pc], pc) && ReadAlong(code, path[0], f, path[1..])
  }

  ghost predicate Live(code: Code, pc: int, f: Flag) {
    exists path :: ReadAlong(code, pc, f, path)
  }

  lemma {:induction false} CrawlSound(code: Code, pc: int, my: set<Flag>, look: int, f: Flag) returns (path: seq<int>)
    requires look >= 1 && Crawl(code, pc, my, look).Some? && f in Crawl(code, pc, my, look).value
    ensures f in my && ReadAlong(code, pc, f, path)
    decreases look
  {
    hide Clobbers, Reads, IsNormal, IsJump, IsConditionalJump;
    var i := code[pc];
    var next := pc + i.length;
    var live := my - Clobbers(i);
    if f in Reads(i) * my {
      return [];
    }
    var to := next;
    if IsJump(i) {
      to := next + i.disp;
    } else if IsConditionalJump(i) && f in Crawl(code, next + i.disp, live, look - 1).value {
      to := next + i.disp;
    }
    var rest := CrawlSound(code, to, live, look - 1, f);
    path := [to] + rest;
    assert path[1..] == rest;
  }

  lemma {:induction false} CrawlComplete(code: Code, pc: int, my: set<Flag>, look: int, f: Flag, path: seq<int>)
    requires look >= 1 && Crawl(code, pc, my, look).Some? && f in my && ReadAlong(code, pc, f, path)
    ensures f in Crawl(code, pc, my, look).value
    decreases look
  {
    hide Clobbers, Reads, IsNormal, IsJump, IsConditionalJump;
    if path != [] {
      CrawlComplete(code, path[0], my - Clobbers(code[pc]), look - 1, f, path[1..]);
    }
  }

  /** An answer other than -1 is exactly the set of asked-for flags that some static path reads first. */
  lemma CrawlExact(code: Code, pc: int, my: set<Flag>, look: int)
    requires look >= 1 && Crawl(code, pc, my, look).Some?
    ensures forall f :: f in Crawl(code, pc, my, look).value <==> f in my && Live(code, pc, f)
  {
    hide Clobbers, Reads, IsNormal, IsJump, IsConditionalJump;
    forall f
      ensures f in Crawl(code, pc, my, look).value <==> f in my && Live(code, pc, f)
    {
      if f in Crawl(code, pc, my, look).value {
        var path := CrawlSound(code, pc, my, look, f);
      } else if f in my && Live(code, pc, f) {
        var path :| ReadAlong(code, pc, f, path);
        CrawlComplete(code, pc, my, look, f, path);
      }
    }
  }

  /** More fuel never changes an answer. */
  lemma {:induction false} CrawlMonotone(code: Code, pc: int, my: set<Flag>, look: int, more: int)
    requires 1 <= look <= more && Crawl(code, pc, my, look).Some?
    ensures Crawl(code, pc, my, more) == Crawl(code, pc, my, look)
    decreases look
  {
    hide Clobbers, Reads, IsNormal, IsJump, IsConditionalJump;
    var i := code[pc];
    var next := pc + i.length;
    var live := my - Clobbers(i);
    if live != {} {
      if IsJump(i) || IsConditionalJump(i) { CrawlMonotone(code, next + i.disp, live, look - 1, more - 1); }
      if !IsJump(i) { CrawlMonotone(code, next, live, look - 1, more - 1); }
    }
  }

  /** A path along which some asked-for flag stays live until the walk cannot go on: the address does not
      decode, the instruction is abnormal, or the fuel is spent. */
  predicate StuckAlong(code: Code, pc: int, my: set<Flag>, look: int, path: seq<int>)
    requires look >= 1
    decreases path
  {
    if pc !in code then path == []
    else
      var live := my - Clobbers(code[pc]);
      && live != {}
      && if path == [] then look == 1 || Succs(code[pc], pc) == {}
         else look > 1 && path[0] in Succs(code[pc], pc) && StuckAlong(code, path[0], live, look - 1, path[1..])
  }

  ghost predicate Stuck(code: Code, pc: int, my: set<Flag>, look: int)
    requires look >= 1
  {
    exists path :: StuckAlong(code, pc, my, look, path)
  }

  lemma {:induction false} CrawlStuck(code: Code, pc: int, my: set<Flag>, look: int) returns (path: seq<int>)
    requires look >= 1 && Crawl(code, pc, my, look).None?
    ensures StuckAlong(code, pc, my, look, path)
    decreases look
  {
    hide Clobbers, Reads, IsNormal, IsJump, IsConditionalJump;
    if pc !in code || look == 1 || Succs(code[pc], pc) == {} {
      return [];
    }
    var i := code[pc];
    var next := pc + i.length;
    var live := my - Clobbers(i);
    var to := next;
    if IsJump(i) || (IsConditionalJump(i) && Crawl(code, next + i.disp, live, look - 1).None?) {
      to := next + i.disp;
    }
    var rest := CrawlStuck(code, to, live, look - 1);
    path := [to] + rest;
    assert path[1..] == rest;
  }

  lemma {:induction false} StuckMeansNone(code: Code, pc: int, my: set<Flag>, look: int, path: seq<int>)
    requires look >= 1 && StuckAlong(code, pc, my, look, path)
    ensures Crawl(code, pc, my, look).None?
    decreases look
  {
    hide Clobbers, Reads, IsNormal, IsJump, IsConditionalJump;
    if path != [] {
      StuckMeansNone(code, path[0], my - Clobbers(code[pc]), look - 1, path[1..]);
    }
  }

  /** The walk gives up exactly when some path keeps a flag live until it is stuck. */
  lemma CrawlGivesUp(code: Code, pc: int, my: set<Flag>, look: int)
    requires look >= 1
    ensures Crawl(code, pc, my, look).None? <==> Stuck(code, pc, my, look)
  {
    if Crawl(code, pc, my, look).None? {
      var path := CrawlStuck(code, pc, my, look);
    } else if Stuck(code, pc, my, look) {
      var path :| StuckAlong(code, pc, my, look, path);
      StuckMeansNone(code, pc, my, look, path);
    }
  }
}
