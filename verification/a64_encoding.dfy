/**
 Encoders for the instruction shapes `A64` decodes, following the Arm
 Architecture Reference Manual (section C6.2), and the round trips through
 the decoders: where the original's decoding agrees with the manual, and
 exactly where it does not.
 */
module A64Encoding {
  import opened Results
  import opened A64

  // What the decoders return for a word that passes each test

  lemma AdrpDecode(w: bv32, pc: bv64)
    requires IsAdrp(w)
    ensures Classify(w) == Adrp && ImmOf(w, pc) == Ok(AdrpImm(w, pc)) && RdOf(w) == Ok((w & 0x1F) as nat)
  {
  }

  lemma AddDecode(w: bv32, pc: bv64)
    requires IsAdd(w)
    ensures Classify(w) == Add && ImmOf(w, pc) == Ok(Widen(AddField(w)))
    ensures RdOf(w) == Ok((w & 0x1F) as nat) && RnOf(w) == Ok(((w >> 5) & 0x1F) as nat)
  {
  }

  lemma BlDecode(w: bv32, pc: bv64)
    requires IsBl(w)
    ensures Classify(w) == Bl && ImmOf(w, pc) == Ok(BlImm(w))
  {
  }

  lemma CbzDecode(w: bv32, pc: bv64)
    requires IsCbz(w)
    ensures Classify(w) == Cbz && ImmOf(w, pc) == Ok(Imm19(w)) && RtOf(w) == Ok((w & 0x1F) as nat)
  {
  }

  lemma TbnzDecode(w: bv32, pc: bv64)
    requires IsTbnz(w)
    ensures Classify(w) == Tbnz && ImmOf(w, pc) == Ok(Imm19(w)) && RtOf(w) == Ok((w & 0x1F) as nat)
  {
  }

  // ADRP

  /** ADRP Xd, page offset `imm21` (a 21-bit two's-complement number of pages). */
  function EncodeAdrp(rd: bv32, imm21: bv32): bv32
    requires rd < 32 && imm21 < 0x20_0000
  {
    0x9000_0000 | ((imm21 & 3) << 29) | ((imm21 >> 2) << 5) | rd
  }

  lemma AdrpFields(w: bv32, rd: bv32, imm21: bv32)
    requires rd < 32 && imm21 < 0x20_0000 && w == EncodeAdrp(rd, imm21)
    ensures IsAdrp(w) && w & 0x1F == rd && AdrpField(w) == imm21 << 12
  {
  }

  lemma AdrpOffsetNonNegative(x: bv32)
    requires x < 0x20_0000 && x >> 19 == 0
    ensures SignExtend64(Widen(x << 12), 32) == SignExtend64(Widen(x), 21) << 12
  {
    SignExtendClear(Widen(x << 12), 32);
    SignExtendClear(Widen(x), 21);
  }

  lemma AdrpOffsetNegative(x: bv32)
    requires x < 0x20_0000 && x >> 19 == 3
    ensures SignExtend64(Widen(x << 12), 32) == SignExtend64(Widen(x), 21) << 12
  {
    SignExtendSet(Widen(x << 12), 32);
    SignExtendSet(Widen(x), 21);
  }

  lemma AdrpImmOfNonNegative(w: bv32, x: bv32, pc: bv64)
    requires x < 0x20_0000 && x >> 19 == 0 && AdrpField(w) == x << 12
    ensures AdrpImm(w, pc) == Add64(Page(pc), SignExtend64(Widen(x), 21) << 12)
  {
    AdrpOffsetNonNegative(x);
  }

  lemma AdrpImmOfNegative(w: bv32, x: bv32, pc: bv64)
    requires x < 0x20_0000 && x >> 19 == 3 && AdrpField(w) == x << 12
    ensures AdrpImm(w, pc) == Add64(Page(pc), SignExtend64(Widen(x), 21) << 12)
  {
    AdrpOffsetNegative(x);
  }

  /**
   ADRP decodes to its destination register and, whenever bits 20 and 19 of
   the page offset agree, to the page of pc plus the sign-extended page
   offset, as the manual defines it.
   */
  lemma AdrpRoundTrip(rd: bv32, imm21: bv32, pc: bv64)
    requires rd < 32 && imm21 < 0x20_0000
    requires (imm21 >> 19) == 0 || (imm21 >> 19) == 3
    ensures Classify(EncodeAdrp(rd, imm21)) == Adrp
    ensures RdOf(EncodeAdrp(rd, imm21)) == Ok(rd as nat)
    ensures ImmOf(EncodeAdrp(rd, imm21), pc) == Ok(Add64(Page(pc), SignExtend64(Widen(imm21), 21) << 12))
  {
    var w := EncodeAdrp(rd, imm21);
    AdrpFields(w, rd, imm21);
    if imm21 >> 19 == 0 {
      AdrpImmOfNonNegative(w, imm21, pc);
    } else {
      AdrpImmOfNegative(w, imm21, pc);
    }
    AdrpDecode(w, pc);
  }

  lemma DropBit20(x0: bv32, x1: bv32)
    requires x0 < 0x10_0000 && x1 == x0 | 0x10_0000
    ensures x1 << 12 == x0 << 12 && x1 < 0x20_0000
  {
  }

  /** The 32-bit computation drops bit 20 of the page offset: flipping it changes nothing. */
  lemma AdrpIgnoresBit20(rd: bv32, imm21: bv32, pc: bv64)
    requires rd < 32 && imm21 < 0x10_0000
    ensures ImmOf(EncodeAdrp(rd, imm21 | 0x10_0000), pc) == ImmOf(EncodeAdrp(rd, imm21), pc)
  {
    var x1 := imm21 | 0x10_0000;
    DropBit20(imm21, x1);
    var w1 := EncodeAdrp(rd, x1);
    var w0 := EncodeAdrp(rd, imm21);
    AdrpFields(w1, rd, x1);
    AdrpFields(w0, rd, imm21);
    AdrpDecode(w1, pc);
    AdrpDecode(w0, pc);
  }

  // ADD (immediate) and its relatives

  /**
   ADD/ADDS/SUB/SUBS (immediate) with width bit `sf`, operation bit `op`,
   flag bit `s` and shift `sh`.
   */
  function EncodeAddImm(sf: bv32, op: bv32, s: bv32, sh: bv32, imm12: bv32, rn: bv32, rd: bv32): bv32
    requires sf < 2 && op < 2 && s < 2 && sh < 2 && imm12 < 0x1000 && rn < 32 && rd < 32
  {
    (sf << 31) | (op << 30) | (s << 29) | 0x1100_0000 | (sh << 22) | (imm12 << 10) | (rn << 5) | rd
  }

  lemma AddFields(w: bv32, sf: bv32, op: bv32, s: bv32, sh: bv32, imm12: bv32, rn: bv32, rd: bv32)
    requires sf < 2 && op < 2 && s < 2 && sh < 2 && imm12 < 0x1000 && rn < 32 && rd < 32
    requires w == EncodeAddImm(sf, op, s, sh, imm12, rn, rd)
    ensures IsAdd(w) && w & 0x1F == rd && (w >> 5) & 0x1F == rn
    ensures (w >> 10) & 0xFFF == imm12 && (w >> 22) & 1 == sh
  {
  }

  lemma AddFieldShifted(w: bv32, imm12: bv32)
    requires (w >> 10) & 0xFFF == imm12 && (w >> 22) & 1 == 1
    ensures AddField(w) == imm12 << 12
  {
  }

  lemma AddFieldPlain(w: bv32, imm12: bv32)
    requires (w >> 10) & 0xFFF == imm12 && (w >> 22) & 1 == 0
    ensures AddField(w) == imm12
  {
  }

  /** Every member of the add/sub immediate family classifies as `add` and decodes to its fields. */
  lemma AddRoundTrip(sf: bv32, op: bv32, s: bv32, sh: bv32, imm12: bv32, rn: bv32, rd: bv32, pc: bv64)
    requires sf < 2 && op < 2 && s < 2 && sh < 2 && imm12 < 0x1000 && rn < 32 && rd < 32
    ensures Classify(EncodeAddImm(sf, op, s, sh, imm12, rn, rd)) == Add
    ensures RdOf(EncodeAddImm(sf, op, s, sh, imm12, rn, rd)) == Ok(rd as nat)
    ensures RnOf(EncodeAddImm(sf, op, s, sh, imm12, rn, rd)) == Ok(rn as nat)
    ensures ImmOf(EncodeAddImm(sf, op, s, sh, imm12, rn, rd), pc)
            == Ok(Widen(if sh == 1 then imm12 << 12 else imm12))
  {
    var w := EncodeAddImm(sf, op, s, sh, imm12, rn, rd);
    AddFields(w, sf, op, s, sh, imm12, rn, rd);
    if sh == 1 {
      AddFieldShifted(w, imm12);
    } else {
      AddFieldPlain(w, imm12);
    }
    AddDecode(w, pc);
  }

  // BL

  /** BL with the 26-bit word offset `imm26`. */
  function EncodeBl(imm26: bv32): bv32
    requires imm26 < 0x400_0000
  {
    0x9400_0000 | imm26
  }

  lemma BlFields(w: bv32, imm26: bv32)
    requires imm26 < 0x400_0000 && w == EncodeBl(imm26)
    ensures IsBl(w) && BlField(w) == imm26
  {
  }

  lemma Width25Clear(x: bv32)
    requires x < 0x400_0000 && (x >> 24) & 1 == 0
    ensures SignExtend64(Widen(x), 25) == Widen(x)
  {
    SignExtendClear(Widen(x), 25);
  }

  lemma Width25Set(x: bv32)
    requires x < 0x400_0000 && (x >> 24) & 1 == 1
    ensures SignExtend64(Widen(x), 25) == Widen(x) | HighMask(25)
  {
    SignExtendSet(Widen(x), 25);
  }

  lemma Width26Clear(x: bv32)
    requires x < 0x400_0000 && (x >> 25) & 1 == 0
    ensures SignExtend64(Widen(x), 26) == Widen(x)
  {
    SignExtendClear(Widen(x), 26);
  }

  lemma Width26Set(x: bv32)
    requires x < 0x400_0000 && (x >> 25) & 1 == 1
    ensures SignExtend64(Widen(x), 26) == Widen(x) | HighMask(26)
  {
    SignExtendSet(Widen(x), 26);
  }

  /** Width-25 and width-26 sign extension of a 26-bit value agree exactly when its top two bits do. */
  lemma Widths25And26(x: bv32)
    requires x < 0x400_0000
    ensures (x >> 24 == 0 || x >> 24 == 3) <==> SignExtend64(Widen(x), 25) == SignExtend64(Widen(x), 26)
  {
    if (x >> 24) & 1 == 0 {
      Width25Clear(x);
    } else {
      Width25Set(x);
    }
    if (x >> 25) & 1 == 0 {
      Width26Clear(x);
    } else {
      Width26Set(x);
    }
  }

  /**
   BL decodes with the width-25 sign extension of the original, which equals
   the manual's width-26 one exactly when bits 25 and 24 of the offset agree.
   */
  lemma BlRoundTrip(imm26: bv32, pc: bv64)
    requires imm26 < 0x400_0000
    ensures Classify(EncodeBl(imm26)) == Bl
    ensures ImmOf(EncodeBl(imm26), pc) == Ok(SignExtend64(Widen(imm26), 25))
    ensures (imm26 >> 24 == 0 || imm26 >> 24 == 3) <==>
            ImmOf(EncodeBl(imm26), pc) == Ok(SignExtend64(Widen(imm26), 26))
  {
    var w := EncodeBl(imm26);
    BlFields(w, imm26);
    BlDecode(w, pc);
    Widths25And26(imm26);
  }

  // CBZ

  /** CBZ with width bit `sf`, the 19-bit word offset `imm19` and test register `rt`. */
  function EncodeCbz(sf: bv32, imm19: bv32, rt: bv32): bv32
    requires sf < 2 && imm19 < 0x8_0000 && rt < 32
  {
    (sf << 31) | 0x3400_0000 | (imm19 << 5) | rt
  }

  lemma CbzFields(w: bv32, sf: bv32, imm19: bv32, rt: bv32)
    requires sf < 2 && imm19 < 0x8_0000 && rt < 32 && w == EncodeCbz(sf, imm19, rt)
    ensures IsCbz(w) && w & 0x1F == rt && Imm19Field(w) == imm19
  {
  }

  /** CBZ decodes to its register and its sign-extended 19-bit offset. */
  lemma CbzRoundTrip(sf: bv32, imm19: bv32, rt: bv32, pc: bv64)
    requires sf < 2 && imm19 < 0x8_0000 && rt < 32
    ensures Classify(EncodeCbz(sf, imm19, rt)) == Cbz
    ensures RtOf(EncodeCbz(sf, imm19, rt)) == Ok(rt as nat)
    ensures ImmOf(EncodeCbz(sf, imm19, rt), pc) == Ok(SignExtend64(Widen(imm19), 19))
  {
    var w := EncodeCbz(sf, imm19, rt);
    CbzFields(w, sf, imm19, rt);
    CbzDecode(w, pc);
  }

  // RET

  /** RET with any register. */
  function EncodeRet(rn: bv32): bv32
    requires rn < 32
  {
    0xD65F_0000 | (rn << 5)
  }

  lemma RetFields(w: bv32, rn: bv32)
    requires rn < 32 && w == EncodeRet(rn)
    ensures IsRet(w) && (w >> 5) & 0x1F == rn
  {
  }

  /** RET classifies as `ret` whatever its register, and `rn` reads it back. */
  lemma RetAnyRegister(rn: bv32)
    requires rn < 32
    ensures Classify(EncodeRet(rn)) == Ret
    ensures RnOf(EncodeRet(rn)) == Ok(rn as nat)
  {
    RetFields(EncodeRet(rn), rn);
  }

  // TBNZ

  /** TBNZ testing bit `b5`:`b40` of register `rt`, with the 14-bit word offset `imm14`. */
  function EncodeTbnz(b5: bv32, b40: bv32, imm14: bv32, rt: bv32): bv32
    requires b5 < 2 && b40 < 32 && imm14 < 0x4000 && rt < 32
  {
    (b5 << 31) | 0x3700_0000 | (b40 << 19) | (imm14 << 5) | rt
  }

  lemma TbnzFields(w: bv32, b5: bv32, b40: bv32, imm14: bv32, rt: bv32)
    requires b5 < 2 && b40 < 32 && imm14 < 0x4000 && rt < 32 && w == EncodeTbnz(b5, b40, imm14, rt)
    ensures IsTbnz(w) && w & 0x1F == rt && Imm19Field(w) == (b40 << 14) | imm14
  {
  }

  /**
   TBNZ decodes to its register, but its immediate is the 19 bits above the
   register field: the 14-bit offset with the bit number's low five bits on top.
   */
  lemma TbnzRoundTrip(b5: bv32, b40: bv32, imm14: bv32, rt: bv32, pc: bv64)
    requires b5 < 2 && b40 < 32 && imm14 < 0x4000 && rt < 32
    ensures Classify(EncodeTbnz(b5, b40, imm14, rt)) == Tbnz
    ensures RtOf(EncodeTbnz(b5, b40, imm14, rt)) == Ok(rt as nat)
    ensures ImmOf(EncodeTbnz(b5, b40, imm14, rt), pc) == Ok(SignExtend64(Widen((b40 << 14) | imm14), 19))
  {
    var w := EncodeTbnz(b5, b40, imm14, rt);
    TbnzFields(w, b5, b40, imm14, rt);
    TbnzDecode(w, pc);
  }
}
