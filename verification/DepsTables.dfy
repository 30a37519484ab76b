/** The tables of blink/deps.c opcode by opcode, as its switches list them. `Deps` gives them by ranges and groups. */
module DepsTables {
  import opened Flags
  import opened Deps

  /** The opcodes whose clobber row is all six status flags whatever the other fields are. */
  predicate FullRow(op: nat) {
    op in {
      0x00, 0x01, 0x02, 0x03, 0x04, 0x05, 0x08, 0x09, 0x0A, 0x0B, 0x0C, 0x0D, 0x10, 0x11, 0x12, 0x13, 0x14, 0x15, 0x18,
      0x19, 0x1A, 0x1B, 0x1C, 0x1D, 0x20, 0x21, 0x22, 0x23, 0x24, 0x25, 0x28, 0x29, 0x2A, 0x2B, 0x2C, 0x2D, 0x2F, 0x30,
      0x31, 0x32, 0x33, 0x34, 0x35, 0x37, 0x38, 0x39, 0x3A, 0x3B, 0x3C, 0x3D, 0x3F, 0x69, 0x6B, 0x80, 0x81, 0x82, 0x83,
      0x84, 0x85, 0xA6, 0xA7, 0xA8, 0xA9, 0xAE, 0xAF, 0xD5, 0x12E, 0x12F, 0x1A4, 0x1A5, 0x1AC, 0x1AD, 0x1AF, 0x1B0,
      0x1B1, 0x1BC, 0x1BD, 0x1C0, 0x1C1
    }
  }

  /** The opcodes with a clobber row of another kind. */
  predicate OtherRow(op: nat) {
    op in {
      0xE8, 0xC3, 0x105, 0xC0, 0xC1, 0xD0, 0xD1, 0xD2, 0xD3, 0xDB, 0xDF, 0xF5, 0xF8, 0xF9, 0xF6, 0xF7, 0xFE, 0xFF,
      0x1A3, 0x1AB, 0x1B3, 0x1BA, 0x1BB, 0x9E, 0x9D, 0x1B8, 0x2F5, 0x2F6
    }
  }

  /** The opcodes that ClassifyOp calls branching, precious or serializing whatever the other fields are. */
  predicate Abnormal(op: nat) {
    op in {
      0x70, 0x71, 0x72, 0x73, 0x74, 0x75, 0x76, 0x77, 0x78, 0x79, 0x7A, 0x7B, 0x7C, 0x7D, 0x7E, 0x7F, 0x9A, 0xC2, 0xC3,
      0xCA, 0xCB, 0xCC, 0xCD, 0xCF, 0xE0, 0xE1, 0xE2, 0xE3, 0xE8, 0xE9, 0xEA, 0xEB, 0xF1, 0x105, 0x130, 0x180, 0x181,
      0x182, 0x183, 0x184, 0x185, 0x186, 0x187, 0x188, 0x189, 0x18A, 0x18B, 0x18C, 0x18D, 0x18E, 0x18F, 0x1A2
    }
  }

  lemma FullRows(i: Insn)
    ensures FullRow(i.mop) ==> Clobbers(i) == STATUS
    ensures !FullRow(i.mop) && !OtherRow(i.mop) ==> Clobbers(i) == {}
  {
  }

  /** The rows that look at the register field. */
  lemma GroupRows(i: Insn)
    requires i.reg < 8
    ensures i.mop in {0xC0, 0xC1, 0xD0, 0xD1, 0xD2, 0xD3} ==>
              (i.reg in {0, 1, 2, 3} ==> Clobbers(i) == {OF, CF}) && (i.reg in {4, 5, 6, 7} ==> Clobbers(i) == STATUS)
    ensures i.mop in {0xF6, 0xF7} ==>
              (i.reg == 2 ==> Clobbers(i) == {}) && (i.reg in {0, 1, 3, 4, 5, 6, 7} ==> Clobbers(i) == STATUS)
    ensures i.mop in {0xFE, 0xFF} ==>
              && (i.reg in {0, 1} ==> Clobbers(i) == {ZF, SF, OF, AF, PF})
              && (i.reg in {2, 3} ==> Boundary(i)) && (i.reg in {4, 5, 6, 7} ==> Clobbers(i) == {})
    ensures i.mop in {0xDB, 0xDF} ==>
              Clobbers(i) == if i.regForm && (i.reg == 5 || i.reg == 6) then {OF, SF, AF} else {}
  {
  }

  /** The rest of the clobber rows. */
  lemma SingleRows(i: Insn)
    ensures i.mop in {0xE8, 0xC3} ==> if i.rep != 0 then Clobbers(i) == {} else Boundary(i)
    ensures i.mop == 0x105 ==> Boundary(i)
    ensures i.mop in {0xF5, 0xF8, 0xF9} ==> Clobbers(i) == {CF}
    ensures i.mop in {0x1A3, 0x1AB, 0x1B3, 0x1BA, 0x1BB} ==> Clobbers(i) == {CF, SF, OF, AF, PF}
    ensures i.mop == 0x9E ==> Clobbers(i) == {CF, ZF, SF, AF, PF}
    ensures i.mop == 0x9D ==> Clobbers(i) == STATUS
    ensures i.mop == 0x1B8 ==> Clobbers(i) == if i.rep == 3 then {CF, ZF, SF, OF, PF} else {}
    ensures i.mop == 0x2F5 ==> Clobbers(i) == if i.rep != 0 || i.osz then {} else STATUS
    ensures i.mop == 0x2F6 ==> Clobbers(i) == if i.osz then {CF} else if i.rep == 3 then {OF} else {}
  {
  }

  /** A row is a boundary only where a -1 stands in the table. */
  lemma BoundaryRows(i: Insn)
    ensures Boundary(i) <==>
              || (i.mop in {0xE8, 0xC3} && i.rep == 0)
              || i.mop == 0x105
              || (i.mop in {0xFE, 0xFF} && i.reg in {2, 3})
  {
  }

  /** Which flags each opcode reads. */
  lemma ReadRows(i: Insn)
    ensures i.mop in {0x10, 0x11, 0x12, 0x13, 0x14, 0x15, 0x18, 0x19, 0x1A, 0x1B, 0x1C, 0x1D, 0xD6, 0xF5} ==>
              Reads(i) == {CF}
    ensures i.mop in {0x72, 0x73, 0x142, 0x143, 0x182, 0x183, 0x192, 0x193} ==> Reads(i) == {CF}
    ensures i.mop in {0x70, 0x71, 0x140, 0x141, 0x180, 0x181, 0x190, 0x191, 0xCE} ==> Reads(i) == {OF}
    ensures i.mop in {0x74, 0x75, 0x144, 0x145, 0x184, 0x185, 0x194, 0x195, 0xE0, 0xE1} ==> Reads(i) == {ZF}
    ensures i.mop in {0x76, 0x77, 0x146, 0x147, 0x186, 0x187, 0x196, 0x197} ==> Reads(i) == {CF, ZF}
    ensures i.mop in {0x78, 0x79, 0x148, 0x149, 0x188, 0x189, 0x198, 0x199} ==> Reads(i) == {SF}
    ensures i.mop in {0x7A, 0x7B, 0x14A, 0x14B, 0x18A, 0x18B, 0x19A, 0x19B} ==> Reads(i) == {PF}
    ensures i.mop in {0x7C, 0x7D, 0x14C, 0x14D, 0x18C, 0x18D, 0x19C, 0x19D} ==> Reads(i) == {OF, SF}
    ensures i.mop in {0x7E, 0x7F, 0x14E, 0x14F, 0x18E, 0x18F, 0x19E, 0x19F} ==> Reads(i) == {OF, SF, ZF}
  {
  }

  /** The rest of the read rows, and what has none. */
  lemma OtherReadRows(i: Insn)
    ensures i.mop in {0x80, 0x81, 0x82, 0x83, 0xC0, 0xC1, 0xD0, 0xD1, 0xD2, 0xD3} ==>
              Reads(i) == if i.reg == 2 || i.reg == 3 then {CF} else {}
    ensures i.mop in {0xDA, 0xDB} ==>
              Reads(i) == if i.reg == 0 then {CF} else if i.reg in {1, 2} then {ZF} else if i.reg == 3 then {PF} else {}
    ensures i.mop == 0x9F ==> Reads(i) == {CF, ZF, SF, AF, PF}
    ensures i.mop in {0x2F, 0x37} ==> Reads(i) == {CF, AF}
    ensures i.mop == 0x9C ==> Reads(i) == STATUS
    ensures i.mop == 0x2F6 ==> Reads(i) == if i.osz then {CF} else if i.rep == 3 then {OF} else {}
    ensures Reads(i) != {} ==>
              || i.mop in {0x10, 0x11, 0x12, 0x13, 0x14, 0x15, 0x18, 0x19, 0x1A, 0x1B, 0x1C, 0x1D}
              || i.mop in {0xD6, 0xF5, 0xCE, 0xE0, 0xE1}
              || i.mop / 16 in {0x7, 0x14, 0x18, 0x19}
              || i.mop in {0x80, 0x81, 0x82, 0x83, 0xC0, 0xC1, 0xD0, 0xD1, 0xD2, 0xD3, 0xDA, 0xDB}
              || i.mop in {0x9F, 0x2F, 0x37, 0x9C, 0x2F6}
  {
  }

  /** Where the walk leaves the straight line. */
  lemma JumpOps(i: Insn)
    ensures IsJump(i) <==> i.mop in {0xE8, 0xE9, 0xEB}
    ensures IsConditionalJump(i) <==>
              || i.mop in {0x70, 0x71, 0x72, 0x73, 0x74, 0x75, 0x76, 0x77}
              || i.mop in {0x78, 0x79, 0x7A, 0x7B, 0x7C, 0x7D, 0x7E, 0x7F}
              || i.mop in {0x180, 0x181, 0x182, 0x183, 0x184, 0x185, 0x186, 0x187}
              || i.mop in {0x188, 0x189, 0x18A, 0x18B, 0x18C, 0x18D, 0x18E, 0x18F}
  {
  }

  /** What the walk does not walk through. */
  lemma NormalOps(i: Insn)
    ensures IsNormal(i) <==>
              !(Abnormal(i.mop) || (i.mop == 0xFF && i.reg in {2, 3, 4, 5}) || (i.mop == 0x1AE && i.reg in {5, 6}))
  {
  }
}
