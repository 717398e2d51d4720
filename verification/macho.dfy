/**
 The Mach-O 64-bit image map: the load-command walk, the segment and
 section lookups, the segment collection and the symbol-table lookup.
 Field offsets follow `mach-o/loader.h` and `mach-o/nlist.h`.
 */
module MachO {
  import opened Results
  import opened Bytes

  const HeaderSize: nat := 32        // sizeof(struct mach_header_64)
  const NcmdsField: nat := 16        // mach_header_64.ncmds
  const CmdSizeField: nat := 4       // load_command.cmdsize

  const LC_SYMTAB: bv32 := 0x2
  const LC_DYSYMTAB: bv32 := 0xb
  const LC_SEGMENT_64: bv32 := 0x19
  const VM_PROT_EXECUTE: bv32 := 0x4

  // struct segment_command_64
  const VmAddrField: nat := 24
  const FileOffField: nat := 40
  const FileSizeField: nat := 48
  const MaxProtField: nat := 56
  const NsectsField: nat := 64
  const SegmentCommandSize: nat := 72

  const SectionSize: nat := 80       // sizeof(struct section_64); sectname is its first field

  // struct symtab_command
  const SymOffField: nat := 8
  const NsymsField: nat := 12
  const StrOffField: nat := 16

  // struct nlist_64
  const NlistSize: nat := 16
  const NValueField: nat := 8

  /**
   A loadable segment (`text_t`): `size` bytes of the image starting at file
   offset `fileoff`, mapped at virtual address `base`.
   */
  datatype Segment = Segment(fileoff: nat, size: nat, base: nat, isExec: bool) {
    function End(): nat { base + size }
  }

  function Ncmds(img: Image): Result<nat> {
    U32At(img, NcmdsField)
  }

  /** The file offset of load command `i`: the walk from the header by `cmdsize` steps. */
  function CmdOffset(img: Image, i: nat): Result<nat> {
    if i == 0 then Ok(HeaderSize)
    else
      var o :- CmdOffset(img, i - 1);
      var size :- U32At(img, o + CmdSizeField);
      Ok(o + size)
  }

  /** The `cmd` field of load command `i`. */
  function CmdWord(img: Image, i: nat): Result<bv32> {
    var o :- CmdOffset(img, i);
    Word32At(img, o)
  }

  /** Load command `i` is readable and is not an `lc` command. */
  predicate CmdIsNot(img: Image, i: nat, lc: bv32) {
    CmdWord(img, i).Ok? && CmdWord(img, i).value != lc
  }

  /** The first `lc` command at index `i` or later, given the offset `o` of command `i`. */
  function FindCommandFrom(img: Image, lc: bv32, n: nat, i: nat, o: nat): (r: Result<nat>)
    requires i <= n && CmdOffset(img, i) == Ok(o)
    ensures r.Ok? ==>
      exists k :: i <= k < n && CmdOffset(img, k) == Ok(r.value) && CmdWord(img, k) == Ok(lc)
                  && forall j :: i <= j < k ==> CmdIsNot(img, j, lc)
    ensures r == Err(LoadCommandNotFound(lc)) ==> forall j :: i <= j < n ==> CmdIsNot(img, j, lc)
    ensures r.Err? ==> r.error == Truncated || r.error == LoadCommandNotFound(lc)
    decreases n - i
  {
    if i == n then Err(LoadCommandNotFound(lc))
    else
      var cmd :- Word32At(img, o);
      if cmd == lc then
        assert CmdWord(img, i) == Ok(lc);
        Ok(o)
      else
        var size :- U32At(img, o + CmdSizeField);
        assert CmdIsNot(img, i, lc);
        FindCommandFrom(img, lc, n, i + 1, o + size)
  }

  /** `find_load_command64`: the first of the `ncmds` load commands whose `cmd` is `lc`. */
  function FindLoadCommand(img: Image, lc: bv32): (r: Result<nat>)
    ensures r.Ok? ==>
      Ncmds(img).Ok? &&
      exists k :: 0 <= k < Ncmds(img).value && CmdOffset(img, k) == Ok(r.value) && CmdWord(img, k) == Ok(lc)
                  && forall j :: 0 <= j < k ==> CmdIsNot(img, j, lc)
    ensures r == Err(LoadCommandNotFound(lc)) ==>
      Ncmds(img).Ok? && forall j :: 0 <= j < Ncmds(img).value ==> CmdIsNot(img, j, lc)
  {
    var n :- Ncmds(img);
    FindCommandFrom(img, lc, n, 0, HeaderSize)
  }

  /** `getSymtab` / `find_symtab_command`: the first `LC_SYMTAB` command (the cache is invisible here). */
  function GetSymtab(img: Image): (r: Result<nat>)
    ensures r.Ok? ==> Word32At(img, r.value) == Ok(LC_SYMTAB)
    ensures r.Err? ==> r.error == Truncated || r.error == LoadCommandNotFound(LC_SYMTAB)
  {
    FindLoadCommand(img, LC_SYMTAB)
  }

  /** `find_dysymtab_command`: the first `LC_DYSYMTAB` command. */
  function FindDysymtabCommand(img: Image): (r: Result<nat>)
    ensures r.Ok? ==> Word32At(img, r.value) == Ok(LC_DYSYMTAB)
    ensures r.Err? ==> r.error == Truncated || r.error == LoadCommandNotFound(LC_DYSYMTAB)
  {
    FindLoadCommand(img, LC_DYSYMTAB)
  }

  /** The file offset of section header `i` of the segment command at `seg`. */
  function SectionOffset(seg: nat, i: nat): nat {
    seg + SegmentCommandSize + SectionSize * i
  }

  /** The first section header at index `i` or later whose `sectname` is the C string `name`. */
  function FindSectionFrom(img: Image, seg: nat, name: seq<bv8>, n: nat, i: nat): (r: Result<nat>)
    requires NoNul(name) && i <= n
    ensures r.Ok? ==>
      exists k :: i <= k < n && r.value == SectionOffset(seg, k) && CStringAt(img, r.value, name)
                  && forall j :: i <= j < k ==> StrEqAt(img, SectionOffset(seg, j), name) == Ok(false)
    ensures r == Err(SectionNotFound) ==>
      forall j :: i <= j < n ==> StrEqAt(img, SectionOffset(seg, j), name) == Ok(false)
    ensures r.Err? ==> r.error == Truncated || r.error == SectionNotFound
    decreases n - i
  {
    if i == n then Err(SectionNotFound)
    else
      var same :- StrEqAt(img, SectionOffset(seg, i), name);
      if same then Ok(SectionOffset(seg, i))
      else FindSectionFrom(img, seg, name, n, i + 1)
  }

  /** `find_section`: the first of the segment command's `nsects` sections named `name`. */
  function FindSection(img: Image, seg: nat, name: seq<bv8>): (r: Result<nat>)
    requires NoNul(name)
    ensures r.Ok? ==>
      U32At(img, seg + NsectsField).Ok? &&
      exists k :: 0 <= k < U32At(img, seg + NsectsField).value
                  && r.value == SectionOffset(seg, k) && CStringAt(img, r.value, name)
                  && forall j :: 0 <= j < k ==> StrEqAt(img, SectionOffset(seg, j), name) == Ok(false)
    ensures r == Err(SectionNotFound) ==>
      U32At(img, seg + NsectsField).Ok?
      && forall j :: 0 <= j < U32At(img, seg + NsectsField).value ==>
           StrEqAt(img, SectionOffset(seg, j), name) == Ok(false)
  {
    var n :- U32At(img, seg + NsectsField);
    FindSectionFrom(img, seg, name, n, 0)
  }

  /** The `text_t` built from the segment command at `o`. */
  function SegmentAt(img: Image, o: nat): Result<Segment> {
    var vmaddr :- U64At(img, o + VmAddrField);
    var fileoff :- U64At(img, o + FileOffField);
    var filesize :- U64At(img, o + FileSizeField);
    var maxprot :- Word32At(img, o + MaxProtField);
    Ok(Segment(fileoff, filesize, vmaddr, (maxprot & VM_PROT_EXECUTE) != 0))
  }

  /** Load command `i` is readable and is a segment command. */
  predicate IsSegmentCmd(img: Image, i: nat) {
    CmdWord(img, i) == Ok(LC_SEGMENT_64)
  }

  /** The number of segment commands among the first `i` load commands. */
  function CountSegments(img: Image, i: nat): nat {
    if i == 0 then 0 else CountSegments(img, i - 1) + (if IsSegmentCmd(img, i - 1) then 1 else 0)
  }

  /**
   `loadSegments`: one segment per `LC_SEGMENT_64` command, in load-command
   order. The walk reads every command's `cmd` and `cmdsize`, the last one's too.
   */
  method LoadSegments(img: Image) returns (r: Result<seq<Segment>>)
    ensures r.Ok? ==> Ncmds(img).Ok? && |r.value| == CountSegments(img, Ncmds(img).value)
    ensures r.Ok? ==> CmdOffset(img, Ncmds(img).value).Ok?
    ensures r.Ok? ==> forall i :: 0 <= i < Ncmds(img).value ==> CmdWord(img, i).Ok?
    ensures r.Ok? ==>
      forall i :: 0 <= i < Ncmds(img).value && IsSegmentCmd(img, i) ==>
        CountSegments(img, i) < |r.value| && SegmentAt(img, CmdOffset(img, i).value) == Ok(r.value[CountSegments(img, i)])
    ensures r.Err? ==> r.error == Truncated
  {
    var n :- Ncmds(img);
    var segs: seq<Segment> := [];
    var o := HeaderSize;
    var i := 0;
    while i < n
      invariant i <= n
      invariant CmdOffset(img, i) == Ok(o)
      invariant Collected(img, i, segs)
    {
      var cmd :- Word32At(img, o);
      ghost var before := segs;
      if cmd == LC_SEGMENT_64 {
        var seg :- SegmentAt(img, o);
        segs := segs + [seg];
      }
      var size :- U32At(img, o + CmdSizeField);
      CollectedStep(img, i, o, cmd, size, before, segs);
      o := o + size;
      i := i + 1;
    }
    return Ok(segs);
  }

  /** The three `symtab_command` fields the symbol lookup uses. */
  datatype Symtab = Symtab(symoff: nat, nsyms: nat, stroff: nat)

  /** The symbol table located through the first `LC_SYMTAB` command. */
  function SymtabOf(img: Image): Result<Symtab> {
    var st :- GetSymtab(img);
    var symoff :- U32At(img, st + SymOffField);
    var stroff :- U32At(img, st + StrOffField);
    var nsyms :- U32At(img, st + NsymsField);
    Ok(Symtab(symoff, nsyms, stroff))
  }

  /** The collection invariant of `LoadSegments` after `i` commands. */
  predicate Collected(img: Image, i: nat, segs: seq<Segment>) {
    && |segs| == CountSegments(img, i)
    && (forall j :: 0 <= j < i ==> CmdWord(img, j).Ok?)
    && (forall j :: 0 <= j < i && IsSegmentCmd(img, j) ==>
          CountSegments(img, j) < |segs| && SegmentAt(img, CmdOffset(img, j).value) == Ok(segs[CountSegments(img, j)]))
  }

  /** One more command walked keeps the collection invariant. */
  lemma CollectedStep(img: Image, i: nat, o: nat, cmd: bv32, size: nat, before: seq<Segment>, segs: seq<Segment>)
    requires CmdOffset(img, i) == Ok(o) && Word32At(img, o) == Ok(cmd) && U32At(img, o + CmdSizeField) == Ok(size)
    requires Collected(img, i, before)
    requires cmd == LC_SEGMENT_64 ==> SegmentAt(img, o).Ok? && segs == before + [SegmentAt(img, o).value]
    requires cmd != LC_SEGMENT_64 ==> segs == before
    ensures CmdOffset(img, i + 1) == Ok(o + size)
    ensures Collected(img, i + 1, segs)
  {
    assert CmdWord(img, i) == Ok(cmd);
    forall j | 0 <= j < i + 1 && IsSegmentCmd(img, j)
      ensures CountSegments(img, j) < |segs| && SegmentAt(img, CmdOffset(img, j).value) == Ok(segs[CountSegments(img, j)])
    {
      if j < i {
        assert segs[CountSegments(img, j)] == before[CountSegments(img, j)];
      }
    }
  }

  /** The file offset of symbol-table entry `i`. */
  function NlistOffset(t: Symtab, i: nat): nat {
    t.symoff + NlistSize * i
  }

  /** The `n_value` of symbol-table entry `i`. */
  function NValueAt(img: Image, t: Symtab, i: nat): Result<nat> {
    U64At(img, NlistOffset(t, i) + NValueField)
  }

  /** Whether entry `i`'s name (through `n_strx` into the string table) is the C string `name`. */
  function SymbolNameIs(img: Image, t: Symtab, i: nat, name: seq<bv8>): (r: Result<bool>)
    requires NoNul(name)
    ensures r.Err? ==> r.error == Truncated
  {
    var strx :- U32At(img, NlistOffset(t, i));
    StrEqAt(img, t.stroff + strx, name)
  }

  /** The `n_value` of the first entry at index `i` or later named `name`. */
  function FindSymFrom(img: Image, t: Symtab, name: seq<bv8>, i: nat): (r: Result<nat>)
    requires NoNul(name) && i <= t.nsyms
    ensures r.Err? ==> r.error == Truncated || r.error == SymbolNotFound
    decreases t.nsyms - i
  {
    if i == t.nsyms then Err(SymbolNotFound)
    else
      var same :- SymbolNameIs(img, t, i, name);
      if same then NValueAt(img, t, i)
      else FindSymFrom(img, t, name, i + 1)
  }

  /** Entry `k` is the first at index `i` or later named `name`. */
  ghost predicate FirstNamed(img: Image, t: Symtab, name: seq<bv8>, i: nat, k: nat)
    requires NoNul(name)
  {
    && i <= k < t.nsyms
    && SymbolNameIs(img, t, k, name) == Ok(true)
    && forall j :: i <= j < k ==> SymbolNameIs(img, t, j, name) == Ok(false)
  }

  /** A found value is the `n_value` of the first entry named `name`. */
  lemma {:induction false} FindSymFromFound(img: Image, t: Symtab, name: seq<bv8>, i: nat)
    requires NoNul(name) && i <= t.nsyms && FindSymFrom(img, t, name, i).Ok?
    ensures exists k :: FirstNamed(img, t, name, i, k) && NValueAt(img, t, k) == FindSymFrom(img, t, name, i)
    decreases t.nsyms - i
  {
    if SymbolNameIs(img, t, i, name) == Ok(true) {
      assert FirstNamed(img, t, name, i, i);
    } else {
      FindSymFromFound(img, t, name, i + 1);
      var k :| FirstNamed(img, t, name, i + 1, k) && NValueAt(img, t, k) == FindSymFrom(img, t, name, i + 1);
      assert FirstNamed(img, t, name, i, k);
    }
  }

  /** `SymbolNotFound` means no entry from `i` on is named `name`. */
  lemma {:induction false} FindSymFromMissing(img: Image, t: Symtab, name: seq<bv8>, i: nat)
    requires NoNul(name) && i <= t.nsyms
    ensures FindSymFrom(img, t, name, i) == Err(SymbolNotFound) <==>
            forall j :: i <= j < t.nsyms ==> SymbolNameIs(img, t, j, name) == Ok(false)
    decreases t.nsyms - i
  {
    if i < t.nsyms {
      FindSymFromMissing(img, t, name, i + 1);
    }
  }

  /** `find_sym`: the `n_value` of the first symbol-table entry named `name`. */
  function FindSym(img: Image, name: seq<bv8>): (r: Result<nat>)
    requires NoNul(name)
    ensures r.Err? ==> r.error in {Truncated, LoadCommandNotFound(LC_SYMTAB), SymbolNotFound}
    ensures r == Err(LoadCommandNotFound(LC_SYMTAB)) <==> GetSymtab(img) == Err(LoadCommandNotFound(LC_SYMTAB))
  {
    var t :- SymtabOf(img);
    FindSymFrom(img, t, name, 0)
  }

  /** What `find_sym` promises: the first entry's value, or `SymbolNotFound` exactly when no entry matches. */
  lemma FindSymFirst(img: Image, name: seq<bv8>)
    requires NoNul(name)
    ensures FindSym(img, name).Ok? ==>
      SymtabOf(img).Ok? &&
      exists k :: FirstNamed(img, SymtabOf(img).value, name, 0, k) && NValueAt(img, SymtabOf(img).value, k) == FindSym(img, name)
    ensures FindSym(img, name) == Err(SymbolNotFound) <==>
      SymtabOf(img).Ok? &&
      forall j :: 0 <= j < SymtabOf(img).value.nsyms ==> SymbolNameIs(img, SymtabOf(img).value, j, name) == Ok(false)
  {
    if SymtabOf(img).Ok? {
      var t := SymtabOf(img).value;
      FindSymFromMissing(img, t, name, 0);
      if FindSym(img, name).Ok? {
        FindSymFromFound(img, t, name, 0);
      }
    }
  }
}
