# liboffsetfinder64 core, modelled in Dafny

liboffsetfinder64 finds patch locations in a 64-bit iOS kernel image
(Mach-O, A64 code). This project models its core,
`offsetfinder64/offsetfinder64.cpp`, and proves properties of the model.
The core has four layers:

- **Mach-O lookups** (`MachO`, `Search`, over `Bytes`).
  - The image is a byte sequence, with fields read little-endian.
  - `find_load_command64` walks the load commands by `cmdsize`.
  - `find_section` and `find_sym` compare C strings.
  - `loadSegments` collects every `LC_SEGMENT_64` as a segment: file offset, file size, `vmaddr` as base, and whether `maxprot` includes execute.
  - `memmem` turns the first hit of a byte pattern into a slid virtual address.
- **The A64 cursor `insn`** (`A64`, `A64Encoding`, `Cursors`).
  - The bit tests `is_adrp` … `is_tbnz`, then `type`, `supertype`, `imm`, `rd`, `rn`, `rt` and `signExtend64`, as the original writes them.
  - Encoders that follow the Arm Architecture Reference Manual, with round trips through the decoders.
  - A cursor over the base-sorted segment list, with `++`, `--`, `+` and `-`. The list keeps the executable segments only, by the intended filter rather than the code's `erase(remove_if(…))` (see Findings).
- **The reference resolvers** (`Resolvers`).
  - `find_literal_ref` pairs each `add` with the most recent `adrp`.
  - `find_rel_branch_source` searches up or down for the branch that targets an instruction.
- **The patch locators** (`Locators`): sandbox, AMFI substrate, cs-enforcement and the debugger flag.

Each C++ `throw` becomes an `Err` of the `Result` datatype in `Results`.

- A read past the image buffer is `Truncated`. The original reads out of bounds there, which is undefined behaviour.
- The `std::out_of_range` thrown by `++`, `--` and `at(0)` is `Overflow`, `Underflow` or `EmptyWorkingSet`.
- `find_literal_ref` catches its `out_of_range` and returns 0; the model does the same.
- The other "step until" loops let it escape, so it propagates as an `Err`.

Stepping is total in the model. Every step moves a cursor strictly along a lexicographic (segment index, bytes left) order, or it fails.

Behaviour kept as the code writes it, where that differs from the manual or from what the names suggest:

- The `add` test also accepts SUB, ADDS and SUBS (immediate).
- The `bl` immediate is sign-extended at width 25, not 26. `Widths25And26` says exactly where the two agree.
- The `tbnz` immediate takes 19 bits from bit 5.
- The `adrp` immediate is assembled in 32 bits, so bit 20 of `immhi:immlo` is shifted out (`AdrpIgnoresBit20`).
- `signExtend64` builds its mask with an `int` shift.
- `--` only crosses back from segment index 2 on. It lands one past the end of the previous segment.
- The locators hand the slid pc of a reference to the `insn` constructor, which compares it with unslid segment bases. The model does the same for any slide.
- In the cs-enforcement patch, a NOP count that would make `char[anz*4]` empty, negative or overflow `int` is undefined behaviour in the original; the model reports it as `BadPatchSize`.

## Model

| member | source | states |
|---|---|---|
| Bytes.Word32At | offsetfinder64/offsetfinder64.cpp:279-281 | a 32-bit read succeeds exactly when the four bytes lie inside the image, and otherwise fails as a truncated image |
| Bytes.U32At | offsetfinder64/offsetfinder64.cpp:60-63 | a `uint32_t` field read succeeds exactly inside the image and is below 2^32 |
| Bytes.U64At | offsetfinder64/offsetfinder64.cpp:184 | a `uint64_t` field read succeeds exactly inside the image and is below 2^64 |
| Bytes.StrEqAt | offsetfinder64/offsetfinder64.cpp:80 | `strcmp(…) == 0` against a C string: true exactly when the bytes at the offset are the name followed by a NUL; false exactly when they differ at some character within the name or its terminator; any failure is a truncated image |
| Bytes.StrEqFrom | offsetfinder64/offsetfinder64.cpp:80 | the comparison from character k on, given agreement before k: it fails exactly when the image ends while the bytes still agree with the name |
| Bytes.Word32AtLE32 | offsetfinder64/offsetfinder64.cpp:279-281 | reading a word back from its four little-endian bytes gives the word |
| MachO.FindCommandFrom | offsetfinder64/offsetfinder64.cpp:60-66 | from command i on: a hit is the first command with the requested `cmd`, "not found" means every remaining command differs, and the only other failure is a truncated image |
| MachO.FindLoadCommand | offsetfinder64/offsetfinder64.cpp:58-67 | a found offset is that of load command k, the first of the `ncmds` commands (reached by `cmdsize` steps) whose `cmd` is the one requested; "not found" means all `ncmds` commands were read and none matched |
| MachO.GetSymtab | offsetfinder64/offsetfinder64.cpp:69-71 | the symbol table command found carries `LC_SYMTAB`; failures are a truncated image or no such command |
| MachO.FindDysymtabCommand | offsetfinder64/offsetfinder64.cpp:73-75 | the command found carries `LC_DYSYMTAB`; failures are a truncated image or no such command |
| MachO.FindSectionFrom | offsetfinder64/offsetfinder64.cpp:79-84 | from section i on: a hit is the first section whose name matches, "not found" means every remaining name compared unequal |
| MachO.FindSection | offsetfinder64/offsetfinder64.cpp:77-85 | a found section is the first of the segment's `nsects` whose `sectname` is the name as a C string; "not found" means every section name compared unequal |
| MachO.LoadSegments | offsetfinder64/offsetfinder64.cpp:136-146 | the loop yields one segment per `LC_SEGMENT_64` command, in load-command order, each with the command's `fileoff`, `filesize`, `vmaddr` and `maxprot & VM_PROT_EXECUTE != 0`; it fails only on a truncated image |
| MachO.CollectedStep | offsetfinder64/offsetfinder64.cpp:139-145 | one loop iteration: the next command lies `cmdsize` bytes on, and the segment list still holds exactly the segments of the commands seen |
| MachO.FindSymFromFound | offsetfinder64/offsetfinder64.cpp:181-184 | a value found is the `n_value` of the first entry from i on whose name is the symbol |
| MachO.FindSymFromMissing | offsetfinder64/offsetfinder64.cpp:181-186 | "not found" holds exactly when every remaining entry's name compares unequal |
| MachO.FindSym | offsetfinder64/offsetfinder64.cpp:177-188 | `find_sym` fails only on a truncated image, with no symbol found, or with no `LC_SYMTAB` command, the last exactly when `getSymtab` finds none |
| MachO.FindSymFirst | offsetfinder64/offsetfinder64.cpp:177-188 | `find_sym` returns the `n_value` of the first symbol table entry named `sym`, and fails with "not found" exactly when no entry of the table has that name |
| Search.IndexFrom | offsetfinder64/offsetfinder64.cpp:169 | the C `memmem`: the first offset from `from` at which the pattern occurs, or none when it occurs nowhere |
| Search.SegmentBytes | offsetfinder64/offsetfinder64.cpp:169 | a segment's file bytes are available exactly when `fileoff + filesize` lies inside the image, and then there are `filesize` of them |
| Search.FindPatternFrom | offsetfinder64/offsetfinder64.cpp:168-172 | the first segment, in collection order, holding the pattern, and the first offset in it; none exactly when no remaining segment holds it |
| Search.Memmem | offsetfinder64/offsetfinder64.cpp:167-175 | `memmem` fails only on a truncated image |
| Search.MemmemFirst | offsetfinder64/offsetfinder64.cpp:167-174 | `memmem` is 0 when no segment holds the pattern; otherwise it is `base + offset + slide` of the first hit in the first segment that holds it, so a match never spans segments |
| A64.Classify | offsetfinder64/offsetfinder64.cpp:326-340 | `type()` is each tag exactly when that tag's bit test holds |
| A64.TestsDisjoint | offsetfinder64/offsetfinder64.cpp:284-301 | no word passes two of the six bit tests, so the order of the tests in `type()` is immaterial |
| A64.SupertypeOf | offsetfinder64/offsetfinder64.cpp:348-358 | `supertype()` is branch exactly for bl, cbz and tbnz |
| A64.BranchWords | offsetfinder64/offsetfinder64.cpp:348-358 | a word is branch-class exactly when it passes the bl, cbz or tbnz test |
| A64.SignBitIsBit | offsetfinder64/offsetfinder64.cpp:271 | the bit the original copies upward is bit `vSize - 1` of the value, the `int` mask quirk included |
| A64.FillFromZero | offsetfinder64/offsetfinder64.cpp:272-273 | or-ing a zero bit upward leaves the value unchanged |
| A64.FillFromOne | offsetfinder64/offsetfinder64.cpp:272-273 | or-ing a one bit into bits i to 63 sets exactly those bits |
| A64.SignExtendLoop | offsetfinder64/offsetfinder64.cpp:270-275 | the original's loop computes the sign extension: the value with bits `vSize` to 63 set when bit `vSize - 1` is, and unchanged otherwise |
| A64.SignExtendClear | offsetfinder64/offsetfinder64.cpp:270-275 | with the sign bit clear, `signExtend64` changes nothing |
| A64.SignExtendSet | offsetfinder64/offsetfinder64.cpp:270-275 | with the sign bit set, `signExtend64` sets bits `vSize` to 63 and leaves the bits below unchanged |
| A64.AdrpOffset | offsetfinder64/offsetfinder64.cpp:365 | the sign-extended adrp offset has its low 12 bits clear |
| A64.AlignedSum | offsetfinder64/offsetfinder64.cpp:365 | the sum of two page-aligned values is page-aligned |
| A64.AdrpImm | offsetfinder64/offsetfinder64.cpp:365 | the adrp immediate (the pc's page plus the offset) is a multiple of 4096 |
| A64.ImmOf | offsetfinder64/offsetfinder64.cpp:359-380 | `imm()` fails for unknown words and for ret, and succeeds for every other tag; an adrp immediate is page-aligned; an add immediate is below 2^24, and below 2^12 when bit 22 is clear |
| A64.RdOf | offsetfinder64/offsetfinder64.cpp:381-396 | `rd()` exists exactly for adrp and add, is below 32, and fails otherwise |
| A64.RnOf | offsetfinder64/offsetfinder64.cpp:397-411 | `rn()` exists exactly for add and ret, is below 32, and fails otherwise |
| A64.RtOf | offsetfinder64/offsetfinder64.cpp:412-426 | `rt()` exists exactly for cbz and tbnz, is below 32, and fails otherwise |
| A64Encoding.AdrpDecode | offsetfinder64/offsetfinder64.cpp:364-365 | a word passing the adrp test decodes as adrp, with the adrp immediate and `rd` the low five bits |
| A64Encoding.AddDecode | offsetfinder64/offsetfinder64.cpp:366-367 | a word passing the add test decodes as add, with `imm12`, shifted by 12 when bit 22 is set, and the `rd` and `rn` fields |
| A64Encoding.BlDecode | offsetfinder64/offsetfinder64.cpp:368-369 | a word passing the bl test decodes as bl with the low 26 bits sign-extended at width 25 |
| A64Encoding.CbzDecode | offsetfinder64/offsetfinder64.cpp:370-371 | a word passing the cbz test decodes as cbz with the 19-bit field sign-extended and `rt` the low five bits |
| A64Encoding.TbnzDecode | offsetfinder64/offsetfinder64.cpp:372-373 | a word passing the tbnz test decodes as tbnz with the 19 bits from bit 5 sign-extended and `rt` the low five bits |
| A64Encoding.AdrpRoundTrip | offsetfinder64/offsetfinder64.cpp:365 | an ADRP encoded per the manual decodes to its register and to page(pc) plus the sign-extended `imm21 << 12` whenever bits 20 and 19 of `imm21` agree |
| A64Encoding.AdrpIgnoresBit20 | offsetfinder64/offsetfinder64.cpp:365 | the decoded adrp immediate does not depend on bit 20 of `imm21`, which the 32-bit shift drops |
| A64Encoding.AddRoundTrip | offsetfinder64/offsetfinder64.cpp:287-288 | every ADD, SUB, ADDS or SUBS (immediate) encoding is classified as add and decodes to its `rd`, `rn` and (optionally shifted) `imm12` |
| A64Encoding.Widths25And26 | offsetfinder64/offsetfinder64.cpp:369 | sign extension at width 25 agrees with the manual's width 26 exactly when bits 25 and 24 of `imm26` are equal |
| A64Encoding.BlRoundTrip | offsetfinder64/offsetfinder64.cpp:369 | an encoded BL is classified bl and decodes to `imm26` sign-extended at width 25, which is the manual's value exactly when bits 25 and 24 agree |
| A64Encoding.CbzRoundTrip | offsetfinder64/offsetfinder64.cpp:371 | an encoded CBZ (either width) decodes to its `rt` and its sign-extended `imm19` |
| A64Encoding.RetAnyRegister | offsetfinder64/offsetfinder64.cpp:296-298 | RET with any register in bits 9..5 is classified ret and `rn` gives that register |
| A64Encoding.TbnzRoundTrip | offsetfinder64/offsetfinder64.cpp:373 | an encoded TBNZ decodes to its `rt`; its immediate is the 19 bits `b40:imm14`, sign-extended, not the manual's 14-bit offset |
| Cursors.SortByBase | offsetfinder64/offsetfinder64.cpp:201-203 | the sort is a permutation of the segments and orders them by base |
| Cursors.Insert | offsetfinder64/offsetfinder64.cpp:201-203 | inserting a segment adds exactly that segment to the multiset |
| Cursors.ExecOnly | offsetfinder64/offsetfinder64.cpp:204-208 | the intended filter's result holds only executable segments and is no longer than its input |
| Cursors.ExecOnlyCounts | offsetfinder64/offsetfinder64.cpp:204-208 | the intended filter keeps every executable segment as often as it occurs and drops every other one |
| Cursors.ExecOnlySorted | offsetfinder64/offsetfinder64.cpp:204-208 | filtering keeps the base order |
| Cursors.RemoveIf | offsetfinder64/offsetfinder64.cpp:205-207 | `remove_if` moves the executable segments, in order, to the front and returns their count as the new end; the tail keeps what was there |
| Cursors.EraseAt | offsetfinder64/offsetfinder64.cpp:205 | single-iterator `erase` removes one element, and has no defined result at or past the end |
| Cursors.EraseRemoveIfAgrees | offsetfinder64/offsetfinder64.cpp:205-207 | the single-iterator `erase` yields the executable-only list exactly when one segment is non-executable, and has no defined result (erasing `end()`) when none is |
| Cursors.EraseRemoveIfKeepsNonExec | offsetfinder64/offsetfinder64.cpp:205-207 | with two non-executable segments the filter as written keeps one of them |
| Cursors.WorkingSet | offsetfinder64/offsetfinder64.cpp:200-208 | the cursor's segment list is sorted by base, holds only executable segments when `textOnly` (the intended filter, see Findings), and holds each kept segment as often as the input does |
| Cursors.FirstContaining | offsetfinder64/offsetfinder64.cpp:212-217 | the index of the first segment with `base <= p < base + size`, or none exactly when no segment contains p |
| Cursors.New | offsetfinder64/offsetfinder64.cpp:200-220 | a zero p means the first segment's base, failing with `at(0)` exactly when the list is empty; the cursor sits at p in the first segment containing it; a nonzero p fails exactly when no segment contains it |
| Cursors.StepForward | offsetfinder64/offsetfinder64.cpp:229-240 | `++` adds 4 inside a segment, moves to the next segment's base past the end, and fails at the last segment |
| Cursors.StepBack | offsetfinder64/offsetfinder64.cpp:241-253 | `--` subtracts 4 inside a segment; below the base it moves to one past the end of the previous segment from index 2 on, and fails at index 0 or 1 |
| Cursors.StepFailures | offsetfinder64/offsetfinder64.cpp:229-253 | `++` fails exactly at the last word of the last segment; `--` fails exactly within four bytes of the base of segment 0 or 1 |
| Cursors.Next | offsetfinder64/offsetfinder64.cpp:229-240 | `++` keeps the cursor inside the working set and fails only with `out_of_range` past the last segment |
| Cursors.Prev | offsetfinder64/offsetfinder64.cpp:241-253 | `--` keeps the cursor inside the working set and fails only with `out_of_range` |
| Cursors.Walk | offsetfinder64/offsetfinder64.cpp:254-267 | k steps in one direction keep the cursor inside the working set, and fail only with that direction's `out_of_range` |
| Cursors.WalkSplit | offsetfinder64/offsetfinder64.cpp:254-267 | when the first a steps succeed, j steps are those a steps followed by j - a more |
| Cursors.Plus | offsetfinder64/offsetfinder64.cpp:254-264 | `c + i` keeps the cursor inside the working set, and `c + 0` is c |
| Cursors.Minus | offsetfinder64/offsetfinder64.cpp:265-267 | `c - i` keeps the cursor inside the working set |
| Cursors.NextPrev | offsetfinder64/offsetfinder64.cpp:229-253 | `--` undoes `++` inside a segment; after `++` crosses into the next segment, `--` lands one past the end of the segment left (or fails from segment 0), not on the word it came from |
| Cursors.PrevNext | offsetfinder64/offsetfinder64.cpp:229-253 | `++` undoes `--` inside a segment; `--` only crosses from index 2 on, into the segment before |
| Cursors.WalkAdd | offsetfinder64/offsetfinder64.cpp:254-264 | walking a + b steps is walking a steps and then b more, with the first error ending the walk |
| Cursors.PlusAddForward | offsetfinder64/offsetfinder64.cpp:254-264 | `c + (a + b)` is `(c + a) + b` for positive counts |
| Cursors.PlusAddBackward | offsetfinder64/offsetfinder64.cpp:254-267 | `c - (a + b)` is `(c - a) - b` for positive counts |
| Cursors.WalkForwardInSegment | offsetfinder64/offsetfinder64.cpp:229-231 | k forward steps that stay inside the segment add 4k |
| Cursors.WalkBackInSegment | offsetfinder64/offsetfinder64.cpp:241-243 | k backward steps that stay inside the segment subtract 4k |
| Cursors.PlusMinus | offsetfinder64/offsetfinder64.cpp:254-267 | inside a segment `c + k` is 4k bytes on, and `(c + k) - k` is c again |
| Cursors.Step | offsetfinder64/offsetfinder64.cpp:229-253 | every successful step moves strictly along the (segment, bytes left) order of its direction |
| Cursors.Value | offsetfinder64/offsetfinder64.cpp:279-281 | `value()` is a fallible read: it succeeds exactly when the four bytes under the cursor lie in the image |
| Cursors.Type | offsetfinder64/offsetfinder64.cpp:326-340 | `type()` at the cursor succeeds exactly when the word under it lies in the image |
| Cursors.SupertypeAt | offsetfinder64/offsetfinder64.cpp:348-358 | `supertype()` at the cursor succeeds exactly when the word under it lies in the image |
| Cursors.Imm | offsetfinder64/offsetfinder64.cpp:359-380 | `imm()` at the cursor exists exactly when the word was read and is neither unknown nor ret; every branch-class word has one |
| Cursors.Rd | offsetfinder64/offsetfinder64.cpp:381-396 | `rd()` at the cursor exists exactly for adrp and add and is below 32 |
| Cursors.Rn | offsetfinder64/offsetfinder64.cpp:397-411 | `rn()` at the cursor exists exactly for add and ret and is below 32 |
| Cursors.Rt | offsetfinder64/offsetfinder64.cpp:412-426 | `rt()` at the cursor exists exactly for cbz and tbnz and is below 32 |
| Cursors.ReadersDecode | offsetfinder64/offsetfinder64.cpp:326-426 | over the little-endian bytes of a word, the cursor's readers are the word's decoders at the cursor's pc |
| Resolvers.Hit | offsetfinder64/offsetfinder64.cpp:463-468 | the loop condition at a cursor can be evaluated exactly when its word lies in the image |
| Resolvers.Seek | offsetfinder64/offsetfinder64.cpp:463-468 | a "step until" loop ends on a wanted word strictly further along, or fails with the step's error or a truncated read |
| Resolvers.SeekFirst | offsetfinder64/offsetfinder64.cpp:463-468 | the loop stops at the first wanted word after the start: it is k ≥ 1 steps on, and every word before it was read and is not wanted |
| Resolvers.ScanRef | offsetfinder64/offsetfinder64.cpp:441-455 | the `++` loop ends in a hit, in running off the last segment (no hit), or in a truncated read |
| Resolvers.FindLiteralRef | offsetfinder64/offsetfinder64.cpp:436-458 | the scan fails only on an empty working set (exactly when there is none), a start outside it, or a truncated read |
| Resolvers.ScanRefAdvance | offsetfinder64/offsetfinder64.cpp:443-450 | a word that does not complete a match moves the scan one word on with the tracked state updated, and no pairing ends at or before it |
| Resolvers.ScanRefFirst | offsetfinder64/offsetfinder64.cpp:441-455 | from any step of the scan, a hit is the first matching add after that point, and `None` means the walk ran out with no match left |
| Resolvers.ScanRefFromStart | offsetfinder64/offsetfinder64.cpp:439-455 | from the initial state (no register tracked, immediate 0), a hit is the first matching add and `None` means none matches |
| Resolvers.FindLiteralRefFirst | offsetfinder64/offsetfinder64.cpp:436-458 | a nonzero result is the pc of the first add whose `rd` and immediate complete, with the most recent earlier adrp, the target; no add matches before the first adrp; 0 means no add matches, or the first match has pc 0 |
| Resolvers.BranchScan | offsetfinder64/offsetfinder64.cpp:462-471 | the search fails only by stepping off the segments in its direction or on a truncated read |
| Resolvers.WalkMoves | offsetfinder64/offsetfinder64.cpp:229-253 | one or more successful steps end strictly further along in their direction, so a search never revisits its start |
| Resolvers.BranchScanFirst | offsetfinder64/offsetfinder64.cpp:462-471 | the search stops at the first branch-class word that targets the destination, and every word before it was read and does not |
| Resolvers.FindRelBranchSource | offsetfinder64/offsetfinder64.cpp:459-473 | the search fails only when it steps off the segments in its direction or reads past the image |
| Resolvers.FindRelBranchSourceFirst | offsetfinder64/offsetfinder64.cpp:459-473 | a result is the pc of the nearest branch-class instruction in the search direction, other than the start, whose `imm*4 + pc` (mod 2^64) is the destination's pc; every word before it was read and is not such a branch |
| Locators.StringRef | offsetfinder64/offsetfinder64.cpp:478-483 | "Failed to find str" exactly when `memmem` returns 0; a reference returned is nonzero |
| Locators.StringRefFirst | offsetfinder64/offsetfinder64.cpp:478-483 | the reference is the pc of the first add that, with the last adrp before it, forms the address of the first occurrence of the string |
| Locators.SeekWanted | offsetfinder64/offsetfinder64.cpp:507-510 | a "step until" loop of the locators (here the ret and tbnz searches; also lines 487, 524 and 527) that stops, stops on the first wanted word after its start, as `FirstWanted` defines it |
| Locators.BranchSourceNearest | offsetfinder64/offsetfinder64.cpp:459-473 | `find_rel_branch_source` returns the pc of the nearest branch to its start, as `NearestBranchTo` defines it |
| Locators.FourthBlAbove | offsetfinder64/offsetfinder64.cpp:485-489 | the four rounds of stepping up until a bl end on a bl strictly above the start, and fail only at the first segments or on a truncated read |
| Locators.FourthBlAboveFirst | offsetfinder64/offsetfinder64.cpp:485-489 | the four rounds end on the fourth bl above the start: each round stops on the first bl above the previous one, so exactly three bls are passed over |
| Locators.SandboxPatch | offsetfinder64/offsetfinder64.cpp:478-496 | the sandbox patch is one NOP word; "Failed to find str" exactly when the string is absent |
| Locators.SandboxFrom | offsetfinder64/offsetfinder64.cpp:485-496 | from a reference, the sandbox patch is one NOP word, or fails with the constructor's, a step's or a read's error |
| Locators.SandboxFromTarget | offsetfinder64/offsetfinder64.cpp:485-496 | from a reference: the constructor succeeds at it over the working set, and the NOP goes on the pc of the nearest branch above bdst that targets bdst, bdst being the word just above the fourth bl above the reference; every word in between was read and does not target bdst |
| Locators.SandboxPatchTarget | offsetfinder64/offsetfinder64.cpp:478-496 | the same for the whole locator, from the reference that `StringRef` finds for the sandbox string |
| Locators.SubstratePatch | offsetfinder64/offsetfinder64.cpp:499-514 | the AMFI patch is the fixed 20 bytes; "Failed to find str" exactly when the string is absent |
| Locators.SubstrateFrom | offsetfinder64/offsetfinder64.cpp:506-513 | from a reference, the patch is the fixed 20 bytes, or fails with the constructor's, a step's or a read's error |
| Locators.SubstrateFromTarget | offsetfinder64/offsetfinder64.cpp:506-513 | from a reference: the constructor succeeds at it over the working set, and the 20 bytes go on the pc of the first tbnz above the first ret below the reference; every word passed on each search was read and is not the kind sought |
| Locators.SubstratePatchTarget | offsetfinder64/offsetfinder64.cpp:499-514 | the same for the whole locator, from the reference that `StringRef` finds for the AMFI string |
| Locators.NopSledWords | offsetfinder64/offsetfinder64.cpp:530-535 | a sled of n NOPs is 4n bytes, each the matching byte of `1F 20 03 D5` |
| Locators.CsEnforcementPatch | offsetfinder64/offsetfinder64.cpp:516-538 | "Failed to find str" (for "csflags" with its NUL) exactly when `memmem` returns 0 |
| Locators.CsEnforcementFrom | offsetfinder64/offsetfinder64.cpp:523-537 | from a reference, the patch fails only with the constructor's, a step's or a read's error, or with an unusable NOP count |
| Locators.CsSledPatch | offsetfinder64/offsetfinder64.cpp:529-537 | a sled of a usable count from the cbz is `anz` whole NOP words at the cbz's pc |
| Locators.CsEnforcementFromTarget | offsetfinder64/offsetfinder64.cpp:523-537 | from a reference: the constructor succeeds at it over the working set; cbz is the first cbz above the reference and ret the first ret below cbz; the patch starts at cbz's pc and is `anz` NOP words, `anz` being the `int` truncation of `(ret.pc - cbz.pc) / 4 + 1`; `BadPatchSize` means that count for these two cursors does not give a usable buffer |
| Locators.CsEnforcementPatchTarget | offsetfinder64/offsetfinder64.cpp:516-538 | the same for the whole locator, from the reference that `StringRef` finds for "csflags" |
| Locators.DebuggerPatch | offsetfinder64/offsetfinder64.cpp:540-547 | "Failed to find str" exactly when "Darwin Kernel" is absent |
| Locators.SubAdd | offsetfinder64/offsetfinder64.cpp:544 | `str - 4` wraps modulo 2^64, and adding 4 back recovers the address |
| Locators.DebuggerPatchTarget | offsetfinder64/offsetfinder64.cpp:540-547 | the patch is the single byte 0x01, four bytes (mod 2^64) before the first occurrence of "Darwin Kernel" |

## Left out

- The file constructor (open, fstat, read, IMG4/IM4P unwrapping, LZSS decompression and the `0xfeedfacf` check) is I/O and foreign library code. The model starts from an image in memory, as the buffer constructor does.
- `find_amfi_patch_offsets` loops forever with `printf` debugging and returns no result.
- `is_ldr` and `subtype()` are unused.
- Logging, version strings and memory management are left out: the destructor, `safeFree` and the ownership flag.
- The raw pointer arithmetic behind `operator loc_t` is left out: a read is an index into the image.
- `offsetfinder64.hpp` is not part of this model. The `patch` and `text_t` types are modelled from their use in the `.cpp` file.
- `getSymtab` caches its result in `__symtab`. The model recomputes it, which cannot be observed.
- `std::sort` is not stable. The model sorts with a stable insertion sort, so segments with equal bases keep their input order. The original leaves that order unspecified.
- `insn` stores `_textOnly`, and the copy constructor copies it. No code reads it after construction, so the model does not store it.
- Cursors.Prev: positions are unbounded naturals, so the 64-bit wrap of `_p.first - 4` below address 4 is not modelled.
- Cursors.Next: the 64-bit wrap of `_p.first + 4`, or of `base + size`, past 2^64 is not modelled either. The pc (position plus slide) does wrap modulo 2^64.
- A64.SignExtendLoop: requires a width of at most 32, and a value of at most 32 bits at width 32. Those are the only inputs the original passes (25, 19 and 32). Wider widths shift an `int` past its width, which is undefined.
- Locators.CsEnforcementFromTarget: states the count as the source computes it. It does not prove that, when the ret lies a whole number of words below the cbz, the sled ends exactly after the ret. The bit-vector division in that statement is beyond what the solver proves here.
- Locators.CsEnforcementPatchTarget: has the same gap, since it is stated through the same predicate.
- Locators.CsEnforcementPatch: a count that is not positive, or whose `anz*4` overflows `int`, is undefined behaviour in the original. The model reports `BadPatchSize` for it.
- Cursors.WorkingSet: keeps the executable segments by the intended filter `ExecOnly`, not by the code's `erase(remove_if(…))`. With two or more non-executable segments the code keeps some of them, and with none it erases `end()`, which is undefined. `EraseRemoveIfAgrees` says the two agree exactly when one segment is non-executable (see Findings).
- Cursors.New: builds its cursor over that intended working set, and so does every resolver and locator above it.
- Search.Memmem: a hit whose slid address wraps to 0 is indistinguishable from "not found". The model keeps that.

## Findings

| source | as written | input that shows it | evidently intended | confidence | as-written member | corrected member |
|---|---|---|---|---|---|---|
| offsetfinder64/offsetfinder64.cpp:205-207 | `erase(remove_if(...))` with a single iterator removes only the first element past the new end | three segments, base-sorted: executable, non-executable, non-executable; the working set keeps the last non-executable segment | the erase-remove idiom with both iterators, keeping exactly the executable segments (`ExecOnlyCounts` proves the corrected filter does) | not executed | Cursors.EraseRemoveIfKeepsNonExec | Cursors.ExecOnly |
