/** The instruction cache (blink/instruction.c). Entries are chosen by the low bits of pc and carry no pc tag; a hit is
    recognised by comparing bytes. The decoder is abstract. */
module ICache {
  import opened Bits
  import Bitscan

  type byte = x: nat | x < 256

  // ----- comparing instruction bytes a word at a time -----

  /** Little-endian word. */
  function Word(bs: seq<byte>): nat {
    if bs == [] then 0 else bs[0] + 256 * Word(bs[1..])
  }

  lemma {:induction false} WordBit(bs: seq<byte>, j: nat, t: nat)
    requires j < |bs| && t < 8
    ensures Bit(Word(bs), 8 * j + t) <==> Bit(bs[j], t)
  {
    hide Pow2, Bit;
    Pow2Words();
    AppendBit(bs[0], 8, Word(bs[1..]), 8 * j + t);
    if j > 0 { WordBit(bs[1..], j - 1, t); }
  }

  lemma {:induction false} WordBound(bs: seq<byte>)
    ensures Word(bs) < Pow2(8 * |bs|)
  {
    if bs != [] {
      hide Pow2;
      WordBound(bs[1..]);
      Pow2Words();
      Pow2Add(8, 8 * |bs| - 8);
    }
  }

  lemma XorWords(a: seq<byte>, b: seq<byte>)
    requires |a| == |b| == 8
    ensures BitXor(Word(a), Word(b)) < WORD
  {
    hide Word, BitXor, Pow2;
    Pow2Words();
    WordBound(a);
    WordBound(b);
    XorBound(Word(a), Word(b), 64);
  }

  lemma SameByte(a: seq<byte>, b: seq<byte>, j: nat)
    requires j < |a| && j < |b|
    requires forall i: nat :: 8 * j <= i < 8 * j + 8 ==> (Bit(Word(a), i) <==> Bit(Word(b), i))
    ensures a[j] == b[j]
  {
    hide Word, Bit;
    Pow2Words();
    forall t: nat | t < 8 ensures Bit(a[j], t) <==> Bit(b[j], t) {
      WordBit(a, j, t);
      WordBit(b, j, t);
    }
    SameBits(a[j], b[j], 8);
  }

  /** The bytes two words have in common start below the lowest bit of their exclusive or. */
  lemma LowestDifference(a: seq<byte>, b: seq<byte>, n: nat)
    requires |a| == |b| == 8 && n <= 8
    ensures var w := BitXor(Word(a), Word(b)); (w == 0 || Ctz(w) / 8 >= n) <==> a[..n] == b[..n]
  {
    hide Word, Bit, BitXor;
    var w := BitXor(Word(a), Word(b));
    if w == 0 || Ctz(w) / 8 >= n {
      forall j: nat | j < n ensures a[j] == b[j] {
        forall i: nat | 8 * j <= i < 8 * j + 8 ensures Bit(Word(a), i) <==> Bit(Word(b), i) {
          XorBit(Word(a), Word(b), i);
          if w == 0 { ZeroBits(i); } else { BelowCtz(w, i); }
        }
        SameByte(a, b, j);
      }
    } else {
      var c := Ctz(w);
      BelowCtz(w, c);
      XorBit(Word(a), Word(b), c);
      WordBit(a, c / 8, c % 8);
      WordBit(b, c / 8, c % 8);
      assert a[..n][c / 8] != b[..n][c / 8];
    }
  }

  lemma BelowCtz(w: nat, i: nat)
    requires w > 0
    ensures i < Ctz(w) ==> !Bit(w, i)
    ensures Bit(w, Ctz(w))
  {
  }

  // ----- decoding -----

  /** rde, uimm0 and disp: what the decoder says besides the length. */
  datatype Op = Op(rde: nat, uimm0: nat, disp: int)
  datatype Decoded = Ok(length: nat, op: Op) | Bad

  type Decoder = (nat, seq<byte>) -> Decoded

  /** A successful decode depends only on the bytes of the instruction. */
  ghost predicate ReadsOnlyItsBytes(decode: Decoder) {
    forall mode, a, b :: decode(mode, a).Ok? ==>
      var n := decode(mode, a).length;
      && 1 <= n <= 15 && n <= |a|
      && (n <= |b| && b[..n] == a[..n] ==> decode(mode, b) == decode(mode, a))
  }

  lemma SameDecode(decode: Decoder, mode: nat, a: seq<byte>, b: seq<byte>, n: nat)
    requires ReadsOnlyItsBytes(decode) && decode(mode, a).Ok? && n == decode(mode, a).length
    requires n <= |a| && n <= |b| && b[..n] == a[..n]
    ensures 1 <= n <= 15 && decode(mode, b) == decode(mode, a)
  {
  }

  /** One line of the cache: the 40 bytes of XedDecodedInst that are kept. Length 0 is an empty line. */
  datatype Entry = Entry(length: nat, bytes: seq<byte>, op: Op)

  predicate Shaped(e: Entry) {
    |e.bytes| == 15 && e.length <= 15
  }

  /** An occupied line is the decode of its own bytes. */
  ghost predicate Sound(decode: Decoder, mode: nat, e: Entry) {
    Shaped(e) && (e.length != 0 ==> decode(mode, e.bytes) == Ok(e.length, e.op))
  }

  /** The line says what decoding `text` afresh says. */
  ghost predicate Agrees(decode: Decoder, mode: nat, e: Entry, text: seq<byte>) {
    && e.length >= 1 && decode(mode, text) == Ok(e.length, e.op)
    && Shaped(e) && e.length <= |text| && e.bytes[..e.length] == text[..e.length]
  }

  /** IsOpcodeEqual: short instructions are compared as words, long ones with memcmp. */
  function IsOpcodeEqual(e: Entry, a: seq<byte>): (r: bool)
    requires Shaped(e) && |a| == 15
    ensures r <==> e.length != 0 && a[..e.length] == e.bytes[..e.length]
  {
    var n := e.length;
    if n == 0 then false
    else if n <= 7 then
      var w := BitXor(Word(a[..8]), Word(e.bytes[..8]));
      LowestDifference(a[..8], e.bytes[..8], n);
      XorWords(a[..8], e.bytes[..8]);
      assert a[..8][..n] == a[..n] && e.bytes[..8][..n] == e.bytes[..n];
      w == 0 || Bitscan.Bsf(w) / 8 >= n
    else a[..n] == e.bytes[..n]
  }

  lemma HitAgrees(decode: Decoder, mode: nat, e: Entry, text: seq<byte>)
    requires ReadsOnlyItsBytes(decode) && Sound(decode, mode, e) && e.length != 0
    requires e.length <= |text| && text[..e.length] == e.bytes[..e.length]
    ensures Agrees(decode, mode, e, text)
  {
    SameDecode(decode, mode, e.bytes, text, e.length);
  }

  /** The line written after a successful decode; `junk` is what the uninitialised tail of a short text holds. */
  function Fill(d: Decoded, text: seq<byte>, junk: seq<byte>): Entry
    requires d.Ok? && |text| <= 15 && |junk| == 15
  {
    Entry(d.length, text + junk[|text|..], d.op)
  }

  lemma FillSound(decode: Decoder, mode: nat, text: seq<byte>, junk: seq<byte>)
    requires ReadsOnlyItsBytes(decode) && decode(mode, text).Ok? && |text| <= 15 && |junk| == 15
    ensures var e := Fill(decode(mode, text), text, junk); Sound(decode, mode, e) && Agrees(decode, mode, e, text)
  {
    var e := Fill(decode(mode, text), text, junk);
    assert e.length <= |text|;
    assert e.bytes[..e.length] == text[..e.length];
    SameDecode(decode, mode, text, e.bytes, e.length);
  }

  // ----- memory -----

  /** Executable pages: guest page number to host page, and what each host page holds. Host page 0 is NULL. */
  datatype Memory = Memory(table: map<nat, nat>, ram: map<nat, seq<byte>>)

  ghost predicate MemoryOk(mem: Memory) {
    forall p :: p in mem.table ==> mem.table[p] != 0 && mem.table[p] in mem.ram && |mem.ram[mem.table[p]]| == 4096
  }

  function Store(mem: Memory, host: nat, off: nat, b: byte): Memory
    requires host in mem.ram && off < |mem.ram[host]|
  {
    var page: seq<byte> := mem.ram[host][off := b];
    mem.(ram := mem.ram[host := page])
  }

  const LAST_PAGE: nat := 0xF_FFFF_FFFF_FFFF

  function NextPage(page: nat): nat {
    if page == LAST_PAGE then 0 else page + 1
  }

  datatype Fetched = Text(bytes: seq<byte>) | Unmapped

  /** The bytes an instruction at pc may consist of: fifteen, or fewer if the next page is missing. */
  ghost function Fetch(mem: Memory, pc: nat): (r: Fetched)
    requires MemoryOk(mem)
    ensures r.Text? ==> |r.bytes| <= 15
  {
    var page, off := pc / 4096, pc % 4096;
    if page !in mem.table then Unmapped
    else
      var here := mem.ram[mem.table[page]];
      if off + 15 <= 4096 then Text(here[off..off + 15])
      else if NextPage(page) in mem.table
          then Text(here[off..] + mem.ram[mem.table[NextPage(page)]][..15 - (4096 - off)])
      else Text(here[off..])
  }

  /** The text is what lies at the guest's addresses pc, pc + 1, .. modulo 2^64, fifteen bytes of it or up to the first
      page that is missing. */
  lemma FetchBytes(mem: Memory, pc: nat, i: nat)
    requires MemoryOk(mem) && pc < 0x1_0000_0000_0000_0000 && i < 15
    ensures Fetch(mem, pc).Unmapped? <==> pc / 4096 !in mem.table
    ensures var r, a := Fetch(mem, pc), (pc + i) % 0x1_0000_0000_0000_0000;
            r.Text? ==>
              && (i < |r.bytes| <==> a / 4096 in mem.table)
              && (i < |r.bytes| ==> r.bytes[i] == mem.ram[mem.table[a / 4096]][a % 4096])
  {
    Address(pc, i);
  }

  lemma Address(pc: nat, i: nat)
    requires pc < 0x1_0000_0000_0000_0000 && i < 15
    ensures var a, page, off := (pc + i) % 0x1_0000_0000_0000_0000, pc / 4096, pc % 4096;
            if off + i < 4096 then a / 4096 == page && a % 4096 == off + i
            else a / 4096 == NextPage(page) && a % 4096 == off + i - 4096
  {
    var page, off := pc / 4096, pc % 4096;
    assert pc + i == 4096 * page + (off + i);
    if off + i < 4096 {
      DivisionUnique(pc + i, 4096, page, off + i);
    } else {
      DivisionUnique(pc + i, 4096, page + 1, off + i - 4096);
    }
  }

  datatype Status = Done | SegmentationFault | DecodeError

  /** The outcome of a load: exactly what fetching and decoding afresh would give. */
  ghost predicate Right(decode: Decoder, mode: nat, mem: Memory, pc: nat, rc: Status, e: Entry)
    requires MemoryOk(mem)
  {
    match Fetch(mem, pc)
    case Unmapped => rc == SegmentationFault
    case Text(bytes) =>
      if decode(mode, bytes).Ok? then rc == Done && Agrees(decode, mode, e, bytes) else rc == DecodeError
  }

  class Machine {
    const decode: Decoder
    const icache: array<Entry>
    var codevirt: nat
    var codehost: nat
    var invalidated: bool
    var mode: nat
    /** m->xedd: the line selected by the last load. */
    var xedd: nat
    var mem: Memory

    ghost predicate CacheOk()
      reads this, icache
    {
      icache.Length == 512 && forall k :: 0 <= k < 512 ==> Sound(decode, mode, icache[k])
    }

    /** The remembered code page is the current translation, unless an invalidation is pending. */
    ghost predicate CodePageOk()
      reads this
    {
      !invalidated && codehost != 0 ==>
          codevirt % 4096 == 0 && codevirt / 4096 in mem.table && mem.table[codevirt / 4096] == codehost
    }

    ghost predicate Valid()
      reads this, icache
    {
      ReadsOnlyItsBytes(decode) && CacheOk() && CodePageOk() && MemoryOk(mem)
    }

    constructor (decode: Decoder, mode: nat, mem: Memory)
      requires ReadsOnlyItsBytes(decode) && MemoryOk(mem)
      ensures Valid() && fresh(icache) && this.mem == mem && this.mode == mode && this.decode == decode
    {
      this.decode, this.mode, this.mem := decode, mode, mem;
      icache := new Entry[512](_ => Empty());
      codevirt, codehost, invalidated, xedd := 0, 0, false, 0;
    }

    /** Somebody stores to a page of code. */
    method WriteCode(host: nat, off: nat, b: byte)
      requires Valid() && host in mem.ram && off < |mem.ram[host]|
      modifies this`mem
      ensures Valid() && mem == Store(old(mem), host, off, b)
    {
      mem := Store(mem, host, off, b);
    }

    /** The page tables change and InvalidateSystem flags the machine. */
    method Remap(mem': Memory)
      requires Valid() && MemoryOk(mem')
      modifies this`mem, this`invalidated
      ensures Valid() && mem == mem'
    {
      mem := mem';
      invalidated := true;
    }

    method ResetTlb()
      requires Valid()
      modifies this`codevirt, this`codehost
      ensures Valid() && codevirt == 0 && codehost == 0
    {
      codevirt, codehost := 0, 0;
    }

    method ResetInstructionCache()
      requires icache.Length == 512
      modifies this`codevirt, this`codehost, icache
      ensures codevirt == 0 && codehost == 0 && forall k :: 0 <= k < 512 ==> icache[k] == Empty()
    {
      for i := 0 to 512
        invariant forall k :: 0 <= k < i ==> icache[k] == Empty()
      {
        icache[i] := Empty();
      }
      codevirt, codehost := 0, 0;
    }

    /** ChangeMachineMode: lines decoded in another mode must not survive. */
    method ChangeMachineMode(to: nat)
      requires Valid()
      modifies this`codevirt, this`codehost, this`mode, icache
      ensures Valid() && mode == to
    {
      if to == mode { return; }
      ResetInstructionCache();
      mode := to;
    }

    /** ReadInstruction: only a successful decode is stored. */
    method ReadInstruction(text: seq<byte>, junk: seq<byte>) returns (rc: Status)
      requires Valid() && xedd < 512 && |text| <= 15 && |junk| == 15
      modifies icache
      ensures Valid() && rc == if decode(mode, text).Ok? then Done else DecodeError
      ensures rc == Done ==> Agrees(decode, mode, icache[xedd], text)
      ensures rc != Done ==> icache[..] == old(icache[..])
      ensures forall k :: 0 <= k < 512 && k != xedd ==> icache[k] == old(icache[k])
    {
      hide ReadsOnlyItsBytes, Sound, Agrees, MemoryOk, Fill;
      var d := decode(mode, text);
      if d.Ok? {
        FillSound(decode, mode, text, junk);
        icache[xedd] := Fill(d, text, junk);
        return Done;
      }
      rc := DecodeError;
    }

    /** LoadInstructionSlow: the instruction may reach into the next page. */
    method LoadInstructionSlow(pc: nat, junk: seq<byte>) returns (rc: Status)
      requires Valid() && xedd < 512 && |junk| == 15 && pc % 4096 + 15 > 4096
      modifies icache
      ensures Valid() && Loaded(rc, pc)
      ensures rc != Done ==> icache[..] == old(icache[..])
    {
      hide ReadsOnlyItsBytes, Sound, Agrees;
      var i := 4096 - pc % 4096;
      if pc / 4096 !in mem.table { return SegmentationFault; }
      var addr := mem.ram[mem.table[pc / 4096]][pc % 4096..];
      if NextPage(pc / 4096) in mem.table {
        var toil := mem.ram[mem.table[NextPage(pc / 4096)]];
        rc := ReadInstruction(addr + toil[..15 - i], junk);
      } else {
        rc := ReadInstruction(addr, junk);
      }
    }

    ghost predicate Loaded(rc: Status, pc: nat)
      requires MemoryOk(mem)
      reads this, icache
    {
      xedd < icache.Length && Right(decode, mode, mem, pc, rc, icache[xedd])
    }

    /** LoadInstruction2: whatever was cached, the selected line equals a fresh decode of the current bytes at pc, and
        the load fails exactly when a fresh one would. */
    method LoadInstruction2(pc: nat, junk: seq<byte>) returns (rc: Status)
      requires Valid() && pc < 0x1_0000_0000_0000_0000 && |junk| == 15
      modifies this`codevirt, this`codehost, this`invalidated, this`xedd, icache
      ensures Valid() && !invalidated && xedd == pc % 512 && Loaded(rc, pc)
      ensures rc != Done && !old(invalidated) ==> icache[..] == old(icache[..])
    {
      hide ReadsOnlyItsBytes, Sound, Agrees, MemoryOk, Loaded;
      if invalidated {
        ResetInstructionCache();
        EmptySound(decode, mode);
        invalidated := false;
      }
      xedd := pc % 512;
      if pc % 4096 + 15 <= 4096 {
        rc := LoadHere(pc, junk);
      } else {
        rc := LoadInstructionSlow(pc, junk);
      }
    }

    /** The part of LoadInstruction2 for an instruction that cannot leave its page. */
    method LoadHere(pc: nat, junk: seq<byte>) returns (rc: Status)
      requires Valid() && !invalidated && xedd < 512 && |junk| == 15 && pc % 4096 + 15 <= 4096
      modifies this`codevirt, this`codehost, icache
      ensures Valid() && Loaded(rc, pc)
      ensures rc != Done ==> icache[..] == old(icache[..])
    {
      hide ReadsOnlyItsBytes, Sound, Agrees;
      var off := pc % 4096;
      var base := pc - off;
      BaseOf(pc);
      var host: nat;
      if base == codevirt && codehost != 0 {
        host := codehost;
      } else if base / 4096 in mem.table {
        host := mem.table[base / 4096];
        codevirt := base;
        codehost := host;
      } else {
        return SegmentationFault;
      }
      var addr := mem.ram[host][off..off + 15];
      ShapedOf(decode, mode, icache[xedd]);
      if IsOpcodeEqual(icache[xedd], addr) {
        HitAgrees(decode, mode, icache[xedd], addr);
        AgreesOk(decode, mode, icache[xedd], addr);
        return Done;
      }
      rc := ReadInstruction(addr, junk);
    }
  }

  function Empty(): Entry {
    Entry(0, seq(15, _ => 0), Op(0, 0, 0))
  }

  lemma EmptySound(decode: Decoder, mode: nat)
    ensures Sound(decode, mode, Empty())
  {
  }

  lemma BaseOf(pc: nat)
    ensures var base := pc - pc % 4096; base % 4096 == 0 && base / 4096 == pc / 4096
  {
  }

  lemma ShapedOf(decode: Decoder, mode: nat, e: Entry)
    requires Sound(decode, mode, e)
    ensures Shaped(e)
  {
  }

  lemma AgreesOk(decode: Decoder, mode: nat, e: Entry, text: seq<byte>)
    requires Agrees(decode, mode, e, text)
    ensures decode(mode, text).Ok?
  {
  }

  // ----- runs -----

  /** What can happen to a machine: a load, a store into a host page, new page tables, a change of mode, a lost TLB. */
  datatype Event =
    | Load(pc: nat, junk: seq<byte>)
    | StoreByte(host: nat, off: nat, b: byte)
    | NewTables(mem: Memory)
    | NewMode(mode: nat)
    | LoseTlb

  /** A machine without a cache. */
  datatype Guest = Guest(mode: nat, mem: Memory)

  ghost predicate Sensible(e: Event) {
    match e
    case Load(pc, junk) => pc < 0x1_0000_0000_0000_0000 && |junk| == 15
    case StoreByte(_, _, _) => true
    case NewTables(mem) => MemoryOk(mem)
    case NewMode(_) => true
    case LoseTlb => true
  }

  function Apply(g: Guest, e: Event): Guest {
    match e
    case Load(_, _) => g
    case StoreByte(host, off, b) =>
      if host in g.mem.ram && off < |g.mem.ram[host]| then g.(mem := Store(g.mem, host, off, b)) else g
    case NewTables(mem) => g.(mem := mem)
    case NewMode(mode) => g.(mode := mode)
    case LoseTlb => g
  }

  function After(g: Guest, events: seq<Event>): Guest {
    if events == [] then g else Apply(After(g, events[..|events| - 1]), events[|events| - 1])
  }

  /** What the i-th event did, if it was a load, is what the machine without a cache does. */
  ghost predicate Faithful(decode: Decoder, g: Guest, events: seq<Event>, i: nat, rc: Status, e: Entry) {
    i < |events| && (events[i].Load? ==> var h := After(g, events[..i]);
                     MemoryOk(h.mem) && Right(decode, h.mode, h.mem, events[i].pc, rc, e))
  }

  method Serve(m: Machine, e: Event) returns (rc: Status, line: Entry)
    requires m.Valid() && Sensible(e)
    modifies m, m.icache
    ensures m.Valid() && Guest(m.mode, m.mem) == Apply(old(Guest(m.mode, m.mem)), e)
    ensures e.Load? ==> Right(m.decode, m.mode, m.mem, e.pc, rc, line)
  {
    hide ReadsOnlyItsBytes, Right, MemoryOk, Sound;
    rc, line := Done, Empty();
    match e
    case Load(pc, junk) =>
      rc := m.LoadInstruction2(pc, junk);
      line := m.icache[m.xedd];
    case StoreByte(host, off, b) =>
      if host in m.mem.ram && off < |m.mem.ram[host]| { m.WriteCode(host, off, b); }
    case NewTables(mem) => m.Remap(mem);
    case NewMode(mode) => m.ChangeMachineMode(mode);
    case LoseTlb => m.ResetTlb();
  }

  /** Over any run, every load through the cache gives what a machine without a cache gives. */
  method Run(decode: Decoder, g: Guest, events: seq<Event>) returns (rcs: seq<Status>, lines: seq<Entry>)
    requires ReadsOnlyItsBytes(decode) && MemoryOk(g.mem) && forall i :: 0 <= i < |events| ==> Sensible(events[i])
    ensures |rcs| == |lines| == |events|
    ensures forall i :: 0 <= i < |events| ==> Faithful(decode, g, events, i, rcs[i], lines[i])
  {
    hide ReadsOnlyItsBytes, Right, MemoryOk, Sound, Faithful, Apply;
    var m := new Machine(decode, g.mode, g.mem);
    rcs, lines := [], [];
    for i := 0 to |events|
      invariant m.Valid() && fresh(m) && fresh(m.icache) && m.decode == decode
      invariant Guest(m.mode, m.mem) == After(g, events[..i])
      invariant |rcs| == |lines| == i
      invariant forall k :: 0 <= k < i ==> Faithful(decode, g, events, k, rcs[k], lines[k])
    {
      AfterStep(g, events, i);
      var rc, line := Serve(m, events[i]);
      FaithfulIs(decode, g, events, i, m.mode, m.mem, rc, line);
      rcs, lines := rcs + [rc], lines + [line];
    }
  }

  lemma AfterStep(g: Guest, events: seq<Event>, i: nat)
    requires i < |events|
    ensures After(g, events[..i + 1]) == Apply(After(g, events[..i]), events[i])
    ensures events[i].Load? ==> After(g, events[..i + 1]) == After(g, events[..i])
  {
    assert events[..i + 1][..i] == events[..i];
  }

  lemma FaithfulIs(decode: Decoder, g: Guest, events: seq<Event>, i: nat, mode: nat, mem: Memory, rc: Status, e: Entry)
    requires i < |events| && MemoryOk(mem)
    requires events[i].Load? ==>
             Guest(mode, mem) == After(g, events[..i]) && Right(decode, mode, mem, events[i].pc, rc, e)
    ensures Faithful(decode, g, events, i, rc, e)
  {
    hide MemoryOk, Right;
  }
}
