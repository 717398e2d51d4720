/**
 Decoding of the handful of A64 instruction shapes the heuristics need,
 with the original's own bit tests and field arithmetic (which differ from
 the Arm Architecture Reference Manual in places, noted per member).
 The encoders that serve as their round-trip partners are in `A64Encoding`.
 */
module A64 {
  import opened Results

  /** The instruction type tags, `insn::type`. */
  datatype Tag = Unknown | Adrp | Bl | Cbz | Ret | Tbnz | Add

  /** `insn::supertype`: branch-class or not. */
  datatype Supertype = General | Branch

  // The bit tests `is_adrp` .. `is_tbnz`. Bits are numbered from 0 (least significant).

  /** Bit 31 set and bits 28..24 equal to 10000. */
  predicate IsAdrp(w: bv32) {
    ((w >> 24) & 0x1F) == 0x10 && (w >> 31) != 0
  }

  /** Bits 28..24 equal to 10001: ADD, ADDS, SUB and SUBS (immediate) all pass. */
  predicate IsAdd(w: bv32) {
    ((w >> 24) & 0x1F) == 0x11
  }

  /** Bits 31..26 equal to 100101. */
  predicate IsBl(w: bv32) {
    (w >> 26) == 0x25
  }

  /** Bits 30..24 equal to 0110100 (CBZ, either width). */
  predicate IsCbz(w: bv32) {
    ((w >> 24) & 0x7F) == 0x34
  }

  /** The word is `RET` once its register field (bits 9..5) is forced to all ones. */
  predicate IsRet(w: bv32) {
    (0x3E0 | w) == 0xD65F_03E0
  }

  /** Bits 30..24 equal to 0110111 (TBNZ, any bit number). */
  predicate IsTbnz(w: bv32) {
    ((w >> 24) & 0x7F) == 0x37
  }

  /**
   `insn::type`: the tests in the original's order, first match wins. The
   tests are pairwise disjoint, so each tag is returned exactly when its own
   test holds, whatever the order.
   */
  function Classify(w: bv32): (r: Tag)
    ensures r == Adrp <==> IsAdrp(w)
    ensures r == Add <==> IsAdd(w)
    ensures r == Bl <==> IsBl(w)
    ensures r == Cbz <==> IsCbz(w)
    ensures r == Ret <==> IsRet(w)
    ensures r == Tbnz <==> IsTbnz(w)
  {
    if IsAdrp(w) then Adrp
    else if IsAdd(w) then Add
    else if IsBl(w) then Bl
    else if IsCbz(w) then Cbz
    else if IsRet(w) then Ret
    else if IsTbnz(w) then Tbnz
    else Unknown
  }

  function Count(b: bool): nat { if b then 1 else 0 }

  /** No word passes two of the six tests. */
  lemma TestsDisjoint(w: bv32)
    ensures Count(IsAdrp(w)) + Count(IsAdd(w)) + Count(IsBl(w)) + Count(IsCbz(w))
            + Count(IsRet(w)) + Count(IsTbnz(w)) <= 1
  {
  }

  /** `insn::supertype` on a tag: bl, cbz and tbnz are branch-class. */
  function SupertypeOf(t: Tag): (r: Supertype)
    ensures r == Branch <==> t in {Bl, Cbz, Tbnz}
  {
    match t
    case Bl | Cbz | Tbnz => Branch
    case _ => General
  }

  /** A word is branch-class exactly when it passes the bl, cbz or tbnz test. */
  lemma BranchWords(w: bv32)
    ensures SupertypeOf(Classify(w)) == Branch <==> IsBl(w) || IsCbz(w) || IsTbnz(w)
  {
  }

  // signExtend64

  /**
   The mask `1 << (vSize - 1)` of the original: an `int` shift, so at width
   32 it is `INT_MIN`, which widens to 0xFFFFFFFF80000000 when and-ed with
   the 64-bit value. Widths above 32 shift an `int` too far.
   */
  function SignMask(n: bv64): bv64
    requires 1 <= n <= 32
  {
    if n == 32 then 0xFFFF_FFFF_8000_0000 else 1 << (n - 1)
  }

  /** Bits `n` .. 63. */
  function HighMask(n: bv64): bv64
    requires n <= 64
  {
    0xFFFF_FFFF_FFFF_FFFF << n
  }

  /** The value `e` the original copies upwards: `(v & mask) >> (vSize - 1)`. */
  function SignBit(v: bv64, n: bv64): bv64
    requires 1 <= n <= 32
  {
    (v & SignMask(n)) >> (n - 1)
  }

  /**
   The inputs the original's callers pass: a width of at most 32 and, at
   width 32, a value of 32 bits, which keeps `e` a single bit.
   */
  predicate Extendable(v: bv64, n: bv64) {
    1 <= n <= 32 && (n < 32 || v <= 0xFFFF_FFFF)
  }

  /**
   What `signExtend64(v, vSize)` computes: bits `vSize` .. 63 set when the
   sign bit is, the value unchanged otherwise. `SignExtendLoop` is the
   original's loop, proved to agree.
   */
  function SignExtend64(v: bv64, n: bv64): bv64
    requires Extendable(v, n)
  {
    if SignBit(v, n) == 1 then v | HighMask(n) else v
  }

  lemma SignBitNarrow(v: bv64, n: bv64)
    requires 1 <= n < 32
    ensures SignBit(v, n) == (v >> (n - 1)) & 1
  {
  }

  lemma SignBitWide(v: bv64)
    requires v <= 0xFFFF_FFFF
    ensures SignBit(v, 32) == (v >> 31) & 1
  {
  }

  /** `e` is bit `n - 1` of the value. */
  lemma SignBitIsBit(v: bv64, n: bv64)
    requires Extendable(v, n)
    ensures SignBit(v, n) == (v >> (n - 1)) & 1
  {
    if n < 32 {
      SignBitNarrow(v, n);
    } else {
      SignBitWide(v);
    }
  }

  /** The original's loop that ors `e` into every bit from `vSize` to 63, here from bit `i` on. */
  function FillFrom(v: bv64, e: bv64, i: bv64): bv64
    requires i <= 64
    decreases 64 - i
  {
    if i == 64 then v else FillFrom(v | (e << i), e, i + 1)
  }

  /** One iteration of the loop; `s`, `w` and `j` name the shifted bit, the new value and the next index. */
  lemma FillFromUnfold(v: bv64, e: bv64, i: bv64, s: bv64, w: bv64, j: bv64)
    requires i < 64 && s == e << i && w == v | s && j == i + 1
    ensures FillFrom(v, e, i) == FillFrom(w, e, j)
  {
  }

  lemma HighMaskStep(i: bv64, s: bv64, j: bv64)
    requires i < 64 && s == 1 << i && j == i + 1
    ensures s | HighMask(j) == HighMask(i)
  {
  }

  lemma OrAssoc(a: bv64, b: bv64, c: bv64)
    ensures (a | b) | c == a | (b | c)
  {
  }

  lemma {:induction false} FillFromZero(v: bv64, i: bv64)
    requires i <= 64
    ensures FillFrom(v, 0, i) == v
    decreases 64 - i
  {
    if i < 64 {
      FillFromZero(v, i + 1);
    }
  }

  /** Copying a set bit upwards from `i` sets bits `i` .. 63. */
  lemma {:induction false} FillFromOne(v: bv64, i: bv64)
    requires i <= 64
    ensures FillFrom(v, 1, i) == v | HighMask(i)
    decreases 64 - i, 1
  {
    if i < 64 {
      FillFromOneStep(v, i);
    } else {
      FillFromOneLast(v, i);
    }
  }

  lemma FillFromOneLast(v: bv64, i: bv64)
    requires i == 64
    ensures FillFrom(v, 1, i) == v | HighMask(i)
  {
  }

  lemma {:induction false} FillFromOneStep(v: bv64, i: bv64)
    requires i < 64
    ensures FillFrom(v, 1, i) == v | HighMask(i)
    decreases 64 - i, 0
  {
    var s := 1 << i;
    var w := v | s;
    var j := i + 1;
    FillFromUnfold(v, 1, i, s, w, j);
    HighMaskStep(i, s, j);
    FillFromOne(w, j);
    OrAssoc(v, s, HighMask(j));
  }

  /** Filling from the width with the sign bit gives the closed form. */
  lemma FillFromSignBit(v: bv64, n: bv64)
    requires Extendable(v, n)
    ensures FillFrom(v, SignBit(v, n), n) == SignExtend64(v, n)
  {
    SignBitIsBit(v, n);
    if SignBit(v, n) == 1 {
      FillFromOne(v, n);
    } else {
      FillFromZero(v, n);
    }
  }

  /** `signExtend64`: the original's loop, which computes `SignExtend64`. */
  method SignExtendLoop(v: bv64, n: bv64) returns (r: bv64)
    requires Extendable(v, n)
    ensures r == SignExtend64(v, n)
  {
    var e := (v & SignMask(n)) >> (n - 1);
    FillFromSignBit(v, n);
    r := v;
    var i := n;
    while i < 64
      invariant n <= i <= 64
      invariant FillFrom(r, e, i) == SignExtend64(v, n)
      decreases 64 - i
    {
      var s := e << i;
      var r' := r | s;
      FillFromUnfold(r, e, i, s, r', i + 1);
      r := r';
      i := i + 1;
    }
  }

  /** Sign extension with the sign bit clear is the identity. */
  lemma SignExtendClear(v: bv64, n: bv64)
    requires Extendable(v, n) && (v >> (n - 1)) & 1 == 0
    ensures SignExtend64(v, n) == v
  {
    SignBitIsBit(v, n);
  }

  /** Sign extension with the sign bit set fills bits `n` .. 63. */
  lemma SignExtendSet(v: bv64, n: bv64)
    requires Extendable(v, n) && (v >> (n - 1)) & 1 == 1
    ensures SignExtend64(v, n) == v | HighMask(n)
  {
    SignBitIsBit(v, n);
  }

  // Field accessors `imm`, `rd`, `rn`, `rt`

  /**
   The adrp immediate before sign extension, computed as the original does
   in 32-bit arithmetic: immhi:immlo shifted left 12, which pushes bit 20 of
   the 21-bit field out of the word.
   */
  function AdrpField(w: bv32): bv32 {
    (((((w & 0xFF_FFFF) >> 5) << 2) | ((w >> 29) & 3)) << 12)
  }

  /** `uint64_t` addition, wrapping at 2^64. */
  function Add64(a: bv64, b: bv64): bv64 {
    a + b
  }

  /** The implicit widening of a `uint32_t` value to 64 bits. */
  function Widen(f: bv32): bv64 {
    f as bv64
  }

  /** The 4 KiB page of `pc`. */
  function Page(pc: bv64): bv64 {
    (pc >> 12) << 12
  }

  /** The add immediate: imm12, shifted left 12 when bit 22 (sh) is set. */
  function AddField(w: bv32): bv32 {
    var imm12 := (w >> 10) & 0xFFF;
    if (w >> 22) & 1 == 1 then imm12 << 12 else imm12
  }

  /** The adrp offset: the 32-bit page offset, sign-extended. A whole number of pages. */
  function AdrpOffset(w: bv32): (r: bv64)
    ensures r & 0xFFF == 0
  {
    SignExtend64(Widen(AdrpField(w)), 32)
  }

  /** Page-aligned values add up to a page-aligned value. */
  lemma AlignedSum(a: bv64, b: bv64)
    requires a & 0xFFF == 0 && b & 0xFFF == 0
    ensures Add64(a, b) & 0xFFF == 0
  {
  }

  /** The adrp target: the page of pc plus the adrp offset. */
  function AdrpImm(w: bv32, pc: bv64): (r: bv64)
    ensures r & 0xFFF == 0
  {
    AlignedSum(Page(pc), AdrpOffset(w));
    Add64(Page(pc), AdrpOffset(w))
  }

  /** The bl offset field: the low 26 bits. */
  function BlField(w: bv32): bv32 {
    w & 0x3FF_FFFF
  }

  /** The bl offset: the 26-bit field sign-extended at width 25. */
  function BlImm(w: bv32): bv64 {
    SignExtend64(Widen(BlField(w)), 25)
  }

  /** The cbz and tbnz offset field: bits 23..5. */
  function Imm19Field(w: bv32): bv32 {
    (w >> 5) & 0x7_FFFF
  }

  /** The cbz and tbnz offset: bits 23..5 sign-extended at width 19. */
  function Imm19(w: bv32): bv64 {
    SignExtend64(Widen(Imm19Field(w)), 19)
  }

  /**
   `insn::imm` for the word `w` at address `pc`. For tbnz the 19 bits taken
   include the low five bits of the tested bit number.
   */
  function ImmOf(w: bv32, pc: bv64): (r: Result<bv64>)
    ensures r.Ok? <==> Classify(w) !in {Unknown, Ret}
    ensures Classify(w) == Unknown ==> r == Err(UnknownInstruction)
    ensures Classify(w) == Ret ==> r == Err(NoSuchOperand)
    ensures Classify(w) == Adrp ==> r.value & 0xFFF == 0
    ensures Classify(w) == Add ==> r.value < 0x100_0000 && ((w >> 22) & 1 == 0 ==> r.value < 0x1000)
  {
    match Classify(w)
    case Unknown => Err(UnknownInstruction)
    case Adrp => Ok(AdrpImm(w, pc))
    case Add => Ok(Widen(AddField(w)))
    case Bl => Ok(BlImm(w))
    case Cbz | Tbnz => Ok(Imm19(w))
    case Ret => Err(NoSuchOperand)
  }

  /** `insn::rd`: bits 4..0 of an adrp or add. */
  function RdOf(w: bv32): (r: Result<nat>)
    ensures r.Ok? <==> Classify(w) in {Adrp, Add}
    ensures r.Ok? ==> r.value < 32
    ensures Classify(w) == Unknown ==> r == Err(UnknownInstruction)
    ensures r.Err? && Classify(w) != Unknown ==> r.error == NoSuchOperand
  {
    match Classify(w)
    case Unknown => Err(UnknownInstruction)
    case Adrp | Add => Ok((w & 0x1F) as nat)
    case _ => Err(NoSuchOperand)
  }

  /** `insn::rn`: bits 9..5 of an add or ret. */
  function RnOf(w: bv32): (r: Result<nat>)
    ensures r.Ok? <==> Classify(w) in {Add, Ret}
    ensures r.Ok? ==> r.value < 32
    ensures Classify(w) == Unknown ==> r == Err(UnknownInstruction)
    ensures r.Err? && Classify(w) != Unknown ==> r.error == NoSuchOperand
  {
    match Classify(w)
    case Unknown => Err(UnknownInstruction)
    case Add | Ret => Ok(((w >> 5) & 0x1F) as nat)
    case _ => Err(NoSuchOperand)
  }

  /** `insn::rt`: bits 4..0 of a cbz or tbnz. */
  function RtOf(w: bv32): (r: Result<nat>)
    ensures r.Ok? <==> Classify(w) in {Cbz, Tbnz}
    ensures r.Ok? ==> r.value < 32
    ensures Classify(w) == Unknown ==> r == Err(UnknownInstruction)
    ensures r.Err? && Classify(w) != Unknown ==> r.error == NoSuchOperand
  {
    match Classify(w)
    case Unknown => Err(UnknownInstruction)
    case Cbz | Tbnz => Ok((w & 0x1F) as nat)
    case _ => Err(NoSuchOperand)
  }
}
