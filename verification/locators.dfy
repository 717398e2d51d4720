/**
 The four patch locators. Each finds a known string, the code that
 references it, and from there the instruction to patch, by stepping the
 cursor until instructions of given kinds. A patch is a slid address and
 the bytes to write there.
 */
module Locators {
  import opened Results
  import opened Bytes
  import opened MachO
  import opened A64
  import opened Search
  import opened Cursors
  import opened Resolvers

  /** `patch`: where to write (a slid address) and what. */
  datatype Patch = Patch(location: bv64, bytes: seq<bv8>)

  /** `nop`, little-endian. */
  const Nop: seq<bv8> := [0x1F, 0x20, 0x03, 0xD5]

  /**
   The replacement for the AMFI check: nop; and w0, w0, #0xfffffdff;
   nop; mov w0, #0; mov w9, #15.
   */
  const SubstrateBytes: seq<bv8> :=
    [0x1F, 0x20, 0x03, 0xD5, 0x00, 0x78, 0x16, 0x12, 0x1F, 0x20, 0x03, 0xD5,
     0x00, 0x00, 0x80, 0x52, 0xE9, 0x01, 0x80, 0x52]

  const SandboxString := "process-exec denied while updating label"
  const SubstrateString := "AMFI: hook..execve() killing pid %u: %s"
  const CsFlagsString := "csflags"
  const DebuggerString := "Darwin Kernel"

  /** The searched bytes of the sandbox string, without its NUL. */
  function SandboxPattern(): seq<bv8> {
    Ascii(SandboxString)
  }

  /** The searched bytes of the AMFI string, without its NUL. */
  function SubstratePattern(): seq<bv8> {
    Ascii(SubstrateString)
  }

  /** `sizeof("csflags")` counts the NUL, so it is part of the pattern. */
  function CsFlagsPattern(): seq<bv8> {
    Ascii(CsFlagsString) + [0]
  }

  /** The searched bytes of the version string, without its NUL. */
  function DebuggerPattern(): seq<bv8> {
    Ascii(DebuggerString)
  }

  /** A `loc_t` read as the position the constructor compares with segment bases. */
  function Unsigned(x: bv64): nat {
    x as nat
  }

  /** `loc_t` subtraction: modulo 2^64. */
  function Sub64(a: bv64, b: bv64): bv64 {
    a - b
  }

  /**
   The opening of three locators: the slid address of the string, which
   must not be 0 ("Failed to find str"), then the pc of the code that
   forms it, which must not be 0 either ("literal ref to str").
   */
  function StringRef(img: Image, segs: seq<Segment>, slide: bv64, pat: seq<bv8>): (r: Result<bv64>)
    ensures r.Err? ==> r.error in {Truncated, StringNotFound, EmptyWorkingSet, LocationOutOfRange, LiteralRefNotFound}
    ensures r == Err(StringNotFound) <==> Memmem(img, segs, slide, pat) == Ok(0)
    ensures r.Ok? ==> r.value != 0
  {
    var str :- Memmem(img, segs, slide, pat);
    if str == 0 then Err(StringNotFound)
    else
      var ref :- FindLiteralRef(img, segs, slide, str);
      if ref == 0 then Err(LiteralRefNotFound) else Ok(ref)
  }

  /**
   A reference found is the pc of the first add that completes, with the
   last adrp before it, the address of the first occurrence of `pat`.
   */
  lemma StringRefFirst(img: Image, segs: seq<Segment>, slide: bv64, pat: seq<bv8>, c0: Insn)
    requires New(segs, slide, 0, true) == Ok(c0)
    ensures StringRef(img, segs, slide, pat).Ok? ==>
      exists j: nat, k: nat :: FirstHit(img, segs, pat, j, k)
        && var str := VAddr(segs[j].base + k, slide);
           str != 0 && Memmem(img, segs, slide, pat) == Ok(str)
           && exists i: nat, m: nat :: FirstMatch(img, c0, str, i, m)
                && StringRef(img, segs, slide, pat) == Ok(Pc(At(c0, m)))
  {
    if StringRef(img, segs, slide, pat).Ok? {
      var str := Memmem(img, segs, slide, pat).value;
      MemmemFirst(img, segs, slide, pat);
      assert !NoneHolds(img, segs, pat);
      FindLiteralRefFirst(img, segs, slide, str, c0);
    }
  }

  // The searches of the locators, stated over walks

  /**
   `d` is the first wanted word from `c` in direction `up`, other than `c`
   itself: `k >= 1` steps reach it, it is wanted, and every word on the
   way was read and is not wanted.
   */
  ghost predicate FirstWanted(img: Image, c: Insn, up: bool, w: Want, d: Insn)
    requires c.Valid()
  {
    exists k: nat :: 1 <= k && Walk(c, k, up) == Ok(d) && Hit(img, d, w) == Ok(true)
                     && forall j :: 1 <= j < k ==> Passes(img, c, up, w, j)
  }

  /** A "step until" loop that stops ends on the first wanted word. */
  lemma SeekWanted(img: Image, c: Insn, up: bool, w: Want)
    requires c.Valid() && Seek(img, c, up, w).Ok?
    ensures FirstWanted(img, c, up, w, Seek(img, c, up, w).value)
  {
    SeekFirst(img, c, up, w);
  }

  /**
   `s` is the nearest branch to `dst` from `c` in direction `up`, other
   than `c` itself: `k >= 1` steps reach it, it targets `dst`, and every
   word on the way was read and is not a branch to `dst`.
   */
  ghost predicate NearestBranchTo(img: Image, c: Insn, up: bool, dst: Insn, s: Insn)
    requires c.Valid()
  {
    exists k: nat :: 1 <= k && Walk(c, k, up) == Ok(s) && Targets(img, s, dst)
                     && forall j :: 1 <= j < k ==> Skipped(img, c, up, dst, j)
  }

  /** `find_rel_branch_source` returns the pc of the nearest branch to its start. */
  lemma BranchSourceNearest(img: Image, bdst: Insn, up: bool)
    requires bdst.Valid() && FindRelBranchSource(img, bdst, up).Ok?
    ensures exists s: Insn :: s.Valid() && NearestBranchTo(img, bdst, up, bdst, s)
                              && FindRelBranchSource(img, bdst, up).value == Pc(s)
  {
    FindRelBranchSourceFirst(img, bdst, up);
    var k :| 1 <= k && Walk(bdst, k, up).Ok? && Targets(img, Walk(bdst, k, up).value, bdst)
             && FindRelBranchSource(img, bdst, up).value == Pc(Walk(bdst, k, up).value)
             && forall j :: 1 <= j < k ==> Skipped(img, bdst, up, bdst, j);
    assert NearestBranchTo(img, bdst, up, bdst, Walk(bdst, k, up).value);
  }

  // find_sandbox_patch

  /** Four times over: step up with `--` until a bl. */
  function FourthBlAbove(img: Image, c: Insn): (r: Result<Insn>)
    requires c.Valid()
    ensures r.Ok? ==> r.value.Valid() && r.value.segs == c.segs && r.value.slide == c.slide
    ensures r.Ok? ==> Type(img, r.value) == Ok(Bl) && Closer(r.value, c, true)
    ensures r.Err? ==> r.error == Truncated || r.error == Underflow
  {
    var b1 :- Seek(img, c, true, TagIs(Bl));
    var b2 :- Seek(img, b1, true, TagIs(Bl));
    var b3 :- Seek(img, b2, true, TagIs(Bl));
    Seek(img, b3, true, TagIs(Bl))
  }

  /**
   `bl` is the fourth bl above `c`: each of the four rounds stops on the
   first bl above where the previous one stopped, so three bls are passed
   over on the way.
   */
  ghost predicate FourthBl(img: Image, c: Insn, bl: Insn)
    requires c.Valid()
  {
    exists b1: Insn, b2: Insn, b3: Insn ::
      b1.Valid() && b2.Valid() && b3.Valid()
      && FirstWanted(img, c, true, TagIs(Bl), b1) && FirstWanted(img, b1, true, TagIs(Bl), b2)
      && FirstWanted(img, b2, true, TagIs(Bl), b3) && FirstWanted(img, b3, true, TagIs(Bl), bl)
  }

  /** The four rounds end on the fourth bl above the start. */
  lemma FourthBlAboveFirst(img: Image, c: Insn)
    requires c.Valid()
    ensures FourthBlAbove(img, c).Ok? ==> FourthBl(img, c, FourthBlAbove(img, c).value)
  {
    if FourthBlAbove(img, c).Ok? {
      var b1 := Seek(img, c, true, TagIs(Bl)).value;
      var b2 := Seek(img, b1, true, TagIs(Bl)).value;
      var b3 := Seek(img, b2, true, TagIs(Bl)).value;
      SeekWanted(img, c, true, TagIs(Bl));
      SeekWanted(img, b1, true, TagIs(Bl));
      SeekWanted(img, b2, true, TagIs(Bl));
      SeekWanted(img, b3, true, TagIs(Bl));
    }
  }

  /**
   `find_sandbox_patch`: from the reference to the "process-exec denied"
   string, the fourth bl above it, the instruction before that, and the
   nearest branch above it that targets it; the patch turns that branch
   into a nop.
   */
  function SandboxPatch(img: Image, segs: seq<Segment>, slide: bv64): (r: Result<Patch>)
    ensures r.Err? ==> r.error in {Truncated, StringNotFound, EmptyWorkingSet, LocationOutOfRange, LiteralRefNotFound, Underflow}
    ensures r == Err(StringNotFound) <==> Memmem(img, segs, slide, SandboxPattern()) == Ok(0)
    ensures r.Ok? ==> r.value.bytes == Nop
  {
    var ref :- StringRef(img, segs, slide, SandboxPattern());
    SandboxFrom(img, segs, slide, ref)
  }

  /** The sandbox locator from the string's reference on. */
  function SandboxFrom(img: Image, segs: seq<Segment>, slide: bv64, ref: bv64): (r: Result<Patch>)
    ensures r.Err? ==> r.error == Truncated || r.error == EmptyWorkingSet || r.error == LocationOutOfRange || r.error == Underflow
    ensures r.Ok? ==> r.value.bytes == Nop
  {
    var c :- New(segs, slide, Unsigned(ref), true);
    var bl :- FourthBlAbove(img, c);
    var bdst :- Prev(bl);
    var cbz :- FindRelBranchSource(img, bdst, true);
    Ok(Patch(cbz, Nop))
  }

  /**
   Where the sandbox patch goes, from the reference `ref`: the cursor the
   constructor builds at `ref` over the working set of `segs`, the fourth
   bl above it, the word above that bl (`bdst`), and the nearest branch
   above `bdst` that targets it. The patch is one nop at that branch's pc.
   */
  ghost predicate SandboxTarget(img: Image, segs: seq<Segment>, slide: bv64, ref: bv64, p: Patch) {
    New(segs, slide, Unsigned(ref), true).Ok?
    && exists bl: Insn, cbz: Insn :: bl.Valid() && cbz.Valid()
         && FourthBl(img, New(segs, slide, Unsigned(ref), true).value, bl)
         && Prev(bl).Ok? && NearestBranchTo(img, Prev(bl).value, true, Prev(bl).value, cbz)
         && p == Patch(Pc(cbz), Nop)
  }

  /** The sandbox locator from a reference puts its nop where `SandboxTarget` says. */
  lemma SandboxFromTarget(img: Image, segs: seq<Segment>, slide: bv64, ref: bv64)
    ensures SandboxFrom(img, segs, slide, ref).Ok? ==> SandboxTarget(img, segs, slide, ref, SandboxFrom(img, segs, slide, ref).value)
  {
    if SandboxFrom(img, segs, slide, ref).Ok? {
      var c := New(segs, slide, Unsigned(ref), true).value;
      var bl := FourthBlAbove(img, c).value;
      FourthBlAboveFirst(img, c);
      var bdst := Prev(bl).value;
      BranchSourceNearest(img, bdst, true);
      var cbz: Insn :| cbz.Valid() && NearestBranchTo(img, bdst, true, bdst, cbz)
                 && FindRelBranchSource(img, bdst, true).value == Pc(cbz);
      assert SandboxFrom(img, segs, slide, ref).value == Patch(Pc(cbz), Nop);
    }
  }

  /**
   The sandbox patch is a nop on the nearest branch above the word that
   precedes the fourth bl above the reference to the sandbox string,
   among the branches that target that word.
   */
  lemma SandboxPatchTarget(img: Image, segs: seq<Segment>, slide: bv64)
    ensures SandboxPatch(img, segs, slide).Ok? ==>
      StringRef(img, segs, slide, SandboxPattern()).Ok?
      && SandboxTarget(img, segs, slide, StringRef(img, segs, slide, SandboxPattern()).value, SandboxPatch(img, segs, slide).value)
  {
    if SandboxPatch(img, segs, slide).Ok? {
      SandboxFromTarget(img, segs, slide, StringRef(img, segs, slide, SandboxPattern()).value);
    }
  }

  // find_amfi_substrate_patch

  /**
   `find_amfi_substrate_patch`: from the reference to the AMFI execve
   string, the first ret below it, then the nearest tbnz above that ret;
   the patch replaces the five words from the tbnz.
   */
  function SubstratePatch(img: Image, segs: seq<Segment>, slide: bv64): (r: Result<Patch>)
    ensures r.Err? ==> r.error in {Truncated, StringNotFound, EmptyWorkingSet, LocationOutOfRange, LiteralRefNotFound, Underflow, Overflow}
    ensures r == Err(StringNotFound) <==> Memmem(img, segs, slide, SubstratePattern()) == Ok(0)
    ensures r.Ok? ==> r.value.bytes == SubstrateBytes
  {
    var ref :- StringRef(img, segs, slide, SubstratePattern());
    SubstrateFrom(img, segs, slide, ref)
  }

  /** The AMFI substrate locator from the string's reference on. */
  function SubstrateFrom(img: Image, segs: seq<Segment>, slide: bv64, ref: bv64): (r: Result<Patch>)
    ensures r.Err? ==> r.error in {Truncated, EmptyWorkingSet, LocationOutOfRange, Underflow, Overflow}
    ensures r.Ok? ==> r.value.bytes == SubstrateBytes
  {
    var c :- New(segs, slide, Unsigned(ref), true);
    var funcend :- Seek(img, c, false, TagIs(Ret));
    var tbnz :- Seek(img, funcend, true, TagIs(Tbnz));
    Ok(Patch(Pc(tbnz), SubstrateBytes))
  }

  /**
   Where the substrate patch goes, from the reference `ref`: the cursor
   the constructor builds at `ref` over the working set of `segs`, the
   first ret below it, and the first tbnz above that ret. The patch is
   the fixed bytes at the tbnz's pc.
   */
  ghost predicate SubstrateTarget(img: Image, segs: seq<Segment>, slide: bv64, ref: bv64, p: Patch) {
    New(segs, slide, Unsigned(ref), true).Ok?
    && exists f: Insn, t: Insn :: f.Valid()
         && FirstWanted(img, New(segs, slide, Unsigned(ref), true).value, false, TagIs(Ret), f)
         && FirstWanted(img, f, true, TagIs(Tbnz), t)
         && p == Patch(Pc(t), SubstrateBytes)
  }

  /** The substrate locator from a reference writes where `SubstrateTarget` says. */
  lemma SubstrateFromTarget(img: Image, segs: seq<Segment>, slide: bv64, ref: bv64)
    ensures SubstrateFrom(img, segs, slide, ref).Ok? ==> SubstrateTarget(img, segs, slide, ref, SubstrateFrom(img, segs, slide, ref).value)
  {
    if SubstrateFrom(img, segs, slide, ref).Ok? {
      var c := New(segs, slide, Unsigned(ref), true).value;
      SeekWanted(img, c, false, TagIs(Ret));
      var f := Seek(img, c, false, TagIs(Ret)).value;
      SeekWanted(img, f, true, TagIs(Tbnz));
      var t := Seek(img, f, true, TagIs(Tbnz)).value;
      assert SubstrateFrom(img, segs, slide, ref).value == Patch(Pc(t), SubstrateBytes);
    }
  }

  /**
   The substrate patch sits on the first tbnz above the first ret below
   the reference to the AMFI string.
   */
  lemma SubstratePatchTarget(img: Image, segs: seq<Segment>, slide: bv64)
    ensures SubstratePatch(img, segs, slide).Ok? ==>
      StringRef(img, segs, slide, SubstratePattern()).Ok?
      && SubstrateTarget(img, segs, slide, StringRef(img, segs, slide, SubstratePattern()).value, SubstratePatch(img, segs, slide).value)
  {
    if SubstratePatch(img, segs, slide).Ok? {
      SubstrateFromTarget(img, segs, slide, StringRef(img, segs, slide, SubstratePattern()).value);
    }
  }

  // find_cs_enforcement_disable_amfi

  /** Four bytes per word: a nop sled of `n` instructions. */
  function NopSled(n: nat): seq<bv8> {
    if n == 0 then [] else Nop + NopSled(n - 1)
  }

  /** The sled is `n` whole nops. */
  lemma {:induction false} NopSledWords(n: nat)
    ensures |NopSled(n)| == 4 * n
    ensures forall i :: 0 <= i < |NopSled(n)| ==> NopSled(n)[i] == Nop[i % 4]
  {
    if n > 0 {
      NopSledWords(n - 1);
      var s := NopSled(n);
      forall i | 0 <= i < |s|
        ensures s[i] == Nop[i % 4]
      {
        if i >= 4 {
          assert s[i] == NopSled(n - 1)[i - 4];
          assert (i - 4) % 4 == i % 4;
        }
      }
    }
  }

  /** `static_cast<int>` of a 64-bit value keeps its low 32 bits, read as two's complement. */
  function Low32(x: bv64): bv32 {
    (x & 0xFFFF_FFFF) as bv32
  }

  /** The count of words from the cbz through the ret: the pc difference over four, plus one, in `uint64_t`, then narrowed to a 32-bit `int`. */
  function SledLength(ret: bv64, cbz: bv64): bv32 {
    Low32(Sub64(ret, cbz) / 4 + 1)
  }

  /** The `int` count of a word that `SledFits`. */
  function Count(anz: bv32): nat {
    anz as nat
  }

  /**
   A count `anz` for which `char[anz*4]` is a buffer: positive as an
   `int` (the words from 0x8000_0000 up are negative) and with `anz*4`
   still an `int`.
   */
  predicate SledFits(anz: bv32) {
    0 < anz <= 0x1FFF_FFFF
  }

  /**
   `find_cs_enforcement_disable_amfi`: from the reference to "csflags",
   the nearest cbz above it and the first ret below that cbz; the patch
   puts nops over every word from the cbz through the ret. A length whose
   buffer `char[anz*4]` would be empty, negative or overflow `int` is
   undefined in the original and is `BadPatchSize` here.
   */
  function CsEnforcementPatch(img: Image, segs: seq<Segment>, slide: bv64): (r: Result<Patch>)
    ensures r.Err? ==> r.error in {Truncated, StringNotFound, EmptyWorkingSet, LocationOutOfRange, LiteralRefNotFound, Underflow, Overflow, BadPatchSize}
    ensures r == Err(StringNotFound) <==> Memmem(img, segs, slide, CsFlagsPattern()) == Ok(0)
  {
    var ref :- StringRef(img, segs, slide, CsFlagsPattern());
    CsEnforcementFrom(img, segs, slide, ref)
  }

  /** The cs-enforcement locator from the string's reference on. */
  function CsEnforcementFrom(img: Image, segs: seq<Segment>, slide: bv64, ref: bv64): (r: Result<Patch>)
    ensures r.Err? ==> r.error in {Truncated, EmptyWorkingSet, LocationOutOfRange, Underflow, Overflow, BadPatchSize}
  {
    var c :- New(segs, slide, Unsigned(ref), true);
    var cbz :- Seek(img, c, true, TagIs(Cbz));
    var ret :- Seek(img, cbz, false, TagIs(Ret));
    var anz := SledLength(Pc(ret), Pc(cbz));
    if !SledFits(anz) then Err(BadPatchSize)
    else Ok(Patch(Pc(cbz), NopSled(Count(anz))))
  }

  /**
   The two cursors of the cs-enforcement locator, from the reference
   `ref`: `cbz` is the first cbz above the cursor the constructor builds
   at `ref` over the working set of `segs`, and `ret` the first ret below
   that cbz.
   */
  ghost predicate CsSled(img: Image, segs: seq<Segment>, slide: bv64, ref: bv64, cbz: Insn, ret: Insn) {
    New(segs, slide, Unsigned(ref), true).Ok? && cbz.Valid()
    && FirstWanted(img, New(segs, slide, Unsigned(ref), true).value, true, TagIs(Cbz), cbz)
    && FirstWanted(img, cbz, false, TagIs(Ret), ret)
  }

  /** The patch `p` starts at the cbz's pc and is `anz` nops, `anz` being the `int` count from the cbz through the ret. */
  ghost predicate CsTarget(img: Image, segs: seq<Segment>, slide: bv64, ref: bv64, p: Patch) {
    exists cbz: Insn, ret: Insn :: CsSled(img, segs, slide, ref, cbz, ret)
      && var n := SledLength(Pc(ret), Pc(cbz));
         SledFits(n) && p.location == Pc(cbz) && |p.bytes| == 4 * Count(n)
         && forall i :: 0 <= i < |p.bytes| ==> p.bytes[i] == Nop[i % 4]
  }

  /** A sled of the fitting count from the cbz is a patch where `CsTarget` says. */
  lemma CsSledPatch(img: Image, segs: seq<Segment>, slide: bv64, ref: bv64, cbz: Insn, ret: Insn)
    requires CsSled(img, segs, slide, ref, cbz, ret) && SledFits(SledLength(Pc(ret), Pc(cbz)))
    ensures CsTarget(img, segs, slide, ref, Patch(Pc(cbz), NopSled(Count(SledLength(Pc(ret), Pc(cbz))))))
  {
    NopSledWords(Count(SledLength(Pc(ret), Pc(cbz))));
  }

  /** The cs-enforcement locator from a reference: a sled where `CsTarget` says, or `BadPatchSize` for an unusable count. */
  lemma CsEnforcementFromTarget(img: Image, segs: seq<Segment>, slide: bv64, ref: bv64)
    ensures CsEnforcementFrom(img, segs, slide, ref).Ok? ==> CsTarget(img, segs, slide, ref, CsEnforcementFrom(img, segs, slide, ref).value)
    ensures CsEnforcementFrom(img, segs, slide, ref) == Err(BadPatchSize) ==>
      exists cbz: Insn, ret: Insn :: CsSled(img, segs, slide, ref, cbz, ret) && !SledFits(SledLength(Pc(ret), Pc(cbz)))
  {
    var r := CsEnforcementFrom(img, segs, slide, ref);
    if r.Ok? || r == Err(BadPatchSize) {
      var c := New(segs, slide, Unsigned(ref), true).value;
      var cbz := Seek(img, c, true, TagIs(Cbz)).value;
      var ret := Seek(img, cbz, false, TagIs(Ret)).value;
      SeekWanted(img, c, true, TagIs(Cbz));
      SeekWanted(img, cbz, false, TagIs(Ret));
      var n := SledLength(Pc(ret), Pc(cbz));
      assert r == if !SledFits(n) then Err(BadPatchSize) else Ok(Patch(Pc(cbz), NopSled(Count(n))));
      if SledFits(n) {
        CsSledPatch(img, segs, slide, ref, cbz, ret);
      } else {
        assert CsSled(img, segs, slide, ref, cbz, ret);
      }
    }
  }

  /**
   The cs-enforcement patch starts at the first cbz above the reference
   to "csflags" and is a sled of nops through the first ret below it.
   */
  lemma CsEnforcementPatchTarget(img: Image, segs: seq<Segment>, slide: bv64)
    ensures CsEnforcementPatch(img, segs, slide).Ok? ==>
      StringRef(img, segs, slide, CsFlagsPattern()).Ok?
      && CsTarget(img, segs, slide, StringRef(img, segs, slide, CsFlagsPattern()).value, CsEnforcementPatch(img, segs, slide).value)
  {
    if CsEnforcementPatch(img, segs, slide).Ok? {
      CsEnforcementFromTarget(img, segs, slide, StringRef(img, segs, slide, CsFlagsPattern()).value);
    }
  }

  // find_i_can_has_debugger_patch_off

  /**
   `find_i_can_has_debugger_patch_off`: a single 0x01 written four bytes
   before the "Darwin Kernel" version string.
   */
  function DebuggerPatch(img: Image, segs: seq<Segment>, slide: bv64): (r: Result<Patch>)
    ensures r.Err? ==> r.error in {Truncated, StringNotFound}
    ensures r == Err(StringNotFound) <==> Memmem(img, segs, slide, DebuggerPattern()) == Ok(0)
  {
    var str :- Memmem(img, segs, slide, DebuggerPattern());
    if str == 0 then Err(StringNotFound) else Ok(Patch(Sub64(str, 4), [0x01]))
  }

  /** Taking 4 away and adding it back is the identity modulo 2^64. */
  lemma SubAdd(a: bv64)
    ensures Add64(Sub64(a, 4), 4) == a
  {
  }

  /** The debugger patch is one 0x01 byte in the word before the first occurrence of the version string. */
  lemma DebuggerPatchTarget(img: Image, segs: seq<Segment>, slide: bv64)
    ensures DebuggerPatch(img, segs, slide).Ok? ==>
      exists j: nat, k: nat :: FirstHit(img, segs, DebuggerPattern(), j, k)
        && var p := DebuggerPatch(img, segs, slide).value;
           p.bytes == [0x01] && Add64(p.location, 4) == VAddr(segs[j].base + k, slide) && Add64(p.location, 4) != 0
  {
    if DebuggerPatch(img, segs, slide).Ok? {
      var str := Memmem(img, segs, slide, DebuggerPattern()).value;
      MemmemFirst(img, segs, slide, DebuggerPattern());
      assert !NoneHolds(img, segs, DebuggerPattern());
      SubAdd(str);
    }
  }
}
