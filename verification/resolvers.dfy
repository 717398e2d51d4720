/**
 The two reference resolvers: `find_literal_ref`, which pairs each `add`
 with the most recent `adrp` on a forward scan, and `find_rel_branch_source`,
 which searches one way for the branch that targets a given instruction.
 Both, and the "step until" loops of the locators, walk a cursor until it
 fails, which is what makes them terminate.
 */
module Resolvers {
  import opened Results
  import opened Bytes
  import opened MachO
  import opened A64
  import opened Cursors

  // Stepping until an instruction of a kind

  /** What a "step until" loop waits for: a type (`!= insn::bl`) or the branch supertype. */
  datatype Want = TagIs(tag: Tag) | BranchClass

  /** Whether the word under `d` is wanted; a read past the image is `Truncated`. */
  function Hit(img: Image, d: Insn, w: Want): (r: Result<bool>)
    requires d.Valid()
    ensures r.Ok? <==> Loc(d) + 4 <= |img|
  {
    match w
    case TagIs(t) =>
      var k :- Type(img, d);
      Ok(k == t)
    case BranchClass =>
      var s :- SupertypeAt(img, d);
      Ok(s == Branch)
  }

  /**
   A "step until" loop: step with `--` (or `++`) at least once, then on
   until the word under the cursor is wanted. A failing step ends the loop
   with its error.
   */
  function Seek(img: Image, c: Insn, up: bool, w: Want): (r: Result<Insn>)
    requires c.Valid()
    ensures r.Ok? ==> r.value.Valid() && r.value.segs == c.segs && r.value.slide == c.slide
    ensures r.Ok? ==> Closer(r.value, c, up) && Hit(img, r.value, w) == Ok(true)
    ensures r.Err? ==> r.error == Truncated || r.error == (if up then Underflow else Overflow)
    decreases Major(c, up), Minor(c, up)
  {
    var d :- Step(c, up);
    var h :- Hit(img, d, w);
    if h then Ok(d) else Seek(img, d, up, w)
  }

  /** Step `j` of a walk from `c` succeeds and reads a word that is not wanted. */
  ghost predicate Passes(img: Image, c: Insn, up: bool, w: Want, j: nat)
    requires c.Valid()
  {
    Walk(c, j, up).Ok? && Hit(img, Walk(c, j, up).value, w) == Ok(false)
  }

  /** One step and then `k` more is `k + 1` steps. */
  lemma WalkFirstStep(c: Insn, k: nat, up: bool)
    requires c.Valid() && Step(c, up).Ok?
    ensures Walk(c, k + 1, up) == Walk(Step(c, up).value, k, up)
  {
    WalkAdd(c, 1, k, up);
  }

  /** Words passed after the first step are passed from the start one step later. */
  lemma PassesShift(img: Image, c: Insn, up: bool, w: Want, k: nat)
    requires c.Valid() && Step(c, up).Ok? && Hit(img, Step(c, up).value, w) == Ok(false)
    requires forall j :: 1 <= j < k ==> Passes(img, Step(c, up).value, up, w, j)
    ensures forall j :: 1 <= j < k + 1 ==> Passes(img, c, up, w, j)
  {
    var d := Step(c, up).value;
    forall j | 1 <= j < k + 1
      ensures Passes(img, c, up, w, j)
    {
      WalkFirstStep(c, j - 1, up);
      if j > 1 {
        assert Passes(img, d, up, w, j - 1);
      } else {
        assert Walk(d, 0, up) == Ok(d);
      }
    }
  }

  /** `Seek` stops at the first wanted word after the start: every word passed on the way was read and not wanted. */
  lemma {:induction false} SeekFirst(img: Image, c: Insn, up: bool, w: Want)
    requires c.Valid() && Seek(img, c, up, w).Ok?
    ensures exists k :: 1 <= k && Walk(c, k, up) == Seek(img, c, up, w)
                        && forall j :: 1 <= j < k ==> Passes(img, c, up, w, j)
    decreases Major(c, up), Minor(c, up)
  {
    var d := Step(c, up).value;
    assert Walk(c, 1, up) == Ok(d);
    if Hit(img, d, w) == Ok(false) {
      SeekFirst(img, d, up, w);
      var k :| 1 <= k && Walk(d, k, up) == Seek(img, d, up, w) && forall j :: 1 <= j < k ==> Passes(img, d, up, w, j);
      WalkFirstStep(c, k, up);
      PassesShift(img, c, up, w, k);
    }
  }

  // find_literal_ref

  /** The scan state after one instruction: the tracked register and immediate, and whether this add matched. */
  datatype Tracked = Tracked(rd: nat, imm: bv64, hit: bool)

  /**
   One iteration of the scan at `c` of type `t`: an `adrp` replaces the
   tracked register and immediate; an `add` on the tracked register whose
   immediate completes the target is a hit.
   */
  function Track(img: Image, c: Insn, t: Tag, rd: nat, imm: bv64, pos: bv64): (r: Tracked)
    requires c.Valid() && Type(img, c) == Ok(t)
    ensures t == Adrp ==> r == Tracked(Rd(img, c).value, Imm(img, c).value, false)
    ensures t == Add ==> r.rd == rd && r.imm == imm &&
                         (r.hit <==> Rd(img, c) == Ok(rd) && Add64(imm, Imm(img, c).value) == pos)
    ensures t !in {Adrp, Add} ==> r == Tracked(rd, imm, false)
  {
    if t == Adrp then Tracked(Rd(img, c).value, Imm(img, c).value, false)
    else if t == Add then Tracked(rd, imm, Rd(img, c).value == rd && Add64(imm, Imm(img, c).value) == pos)
    else Tracked(rd, imm, false)
  }

  /**
   The scan loop of `find_literal_ref` from `c`: the pc of the first add
   that matches, or `None` once `++` fails (the caught `out_of_range`).
   */
  function ScanRef(img: Image, c: Insn, rd: nat, imm: bv64, pos: bv64): (r: Result<Option<bv64>>)
    requires c.Valid()
    ensures r.Err? ==> r.error == Truncated
    decreases Major(c, false), Minor(c, false)
  {
    var t :- Type(img, c);
    var st := Track(img, c, t, rd, imm, pos);
    if st.hit then Ok(Some(Pc(c)))
    else
      match Next(c)
      case Err(_) => Ok(None)
      case Ok(d) => ScanRef(img, d, st.rd, st.imm, pos)
  }

  /**
   `find_literal_ref(segments, kslide, pos)`: the cursor starts at the first
   executable segment's base, the tracked register at 0xff (no register) and
   the immediate at 0; 0 when the scan runs off the last segment.
   */
  function FindLiteralRef(img: Image, segs: seq<Segment>, slide: bv64, pos: bv64): (r: Result<bv64>)
    ensures r.Err? ==> r.error in {Truncated, EmptyWorkingSet, LocationOutOfRange}
    ensures r == Err(EmptyWorkingSet) <==> WorkingSet(segs, true) == []
  {
    var c :- New(segs, slide, 0, true);
    var hit :- ScanRef(img, c, 0xFF, 0, pos);
    match hit
    case Some(v) => Ok(v)
    case None => Ok(0)
  }

  // What find_literal_ref finds, over the steps of the scan from its start `c0`

  /** The cursor after `m` forward steps from `c0`. */
  ghost function At(c0: Insn, m: nat): Insn
    requires c0.Valid() && Walk(c0, m, false).Ok?
  {
    Walk(c0, m, false).value
  }

  /** Step `m` is reached and its word is of type `t`. */
  ghost predicate OfType(img: Image, c0: Insn, m: nat, t: Tag)
    requires c0.Valid()
  {
    Walk(c0, m, false).Ok? && Type(img, At(c0, m)) == Ok(t)
  }

  /** Step `m` is reached, its word is read, and it is not an adrp. */
  ghost predicate NotAdrp(img: Image, c0: Insn, m: nat)
    requires c0.Valid()
  {
    Walk(c0, m, false).Ok? && Type(img, At(c0, m)).Ok? && Type(img, At(c0, m)).value != Adrp
  }

  /** Step `i` is the last adrp before step `k`. */
  ghost predicate LastAdrp(img: Image, c0: Insn, i: nat, k: nat)
    requires c0.Valid()
  {
    i < k && OfType(img, c0, i, Adrp) && forall m :: i < m < k ==> NotAdrp(img, c0, m)
  }

  /** No adrp before step `k`. */
  ghost predicate NoAdrp(img: Image, c0: Insn, k: nat)
    requires c0.Valid()
  {
    forall m :: 0 <= m < k ==> NotAdrp(img, c0, m)
  }

  /**
   The add at step `j` completes a reference to `pos` with the last adrp,
   at step `i`: same destination register, immediates summing to `pos`.
   */
  ghost predicate Matches(img: Image, c0: Insn, pos: bv64, i: nat, j: nat)
    requires c0.Valid()
  {
    && LastAdrp(img, c0, i, j)
    && OfType(img, c0, j, Add)
    && Rd(img, At(c0, i)) == Rd(img, At(c0, j))
    && Add64(Imm(img, At(c0, i)).value, Imm(img, At(c0, j)).value) == pos
  }

  /** The match at steps `i`, `j` comes first: no add before step `j` matches. */
  ghost predicate FirstMatch(img: Image, c0: Insn, pos: bv64, i: nat, j: nat)
    requires c0.Valid()
  {
    Matches(img, c0, pos, i, j) && forall i': nat, j': nat :: j' < j ==> !Matches(img, c0, pos, i', j')
  }

  /** The scan state before step `k`: from the last adrp, or the initial 0xff and 0 when there was none. */
  ghost predicate ScanState(img: Image, c0: Insn, k: nat, last: Option<nat>, rd: nat, imm: bv64)
    requires c0.Valid()
  {
    match last
    case None => rd == 0xFF && imm == 0 && NoAdrp(img, c0, k)
    case Some(i) => LastAdrp(img, c0, i, k) && Rd(img, At(c0, i)) == Ok(rd) && Imm(img, At(c0, i)) == Ok(imm)
  }

  /** No adrp between the last one and `k`. */
  lemma LastAdrpIsLatest(img: Image, c0: Insn, i: nat, k: nat, i': nat)
    requires c0.Valid() && LastAdrp(img, c0, i, k) && i < i' < k
    ensures !OfType(img, c0, i', Adrp)
  {
    assert NotAdrp(img, c0, i');
  }

  lemma LastAdrpUnique(img: Image, c0: Insn, i: nat, i': nat, k: nat)
    requires c0.Valid() && LastAdrp(img, c0, i, k)
    ensures LastAdrp(img, c0, i', k) ==> i == i'
  {
    if i < i' < k {
      LastAdrpIsLatest(img, c0, i, k, i');
    } else if i' < i && LastAdrp(img, c0, i', k) {
      LastAdrpIsLatest(img, c0, i', k, i);
    }
  }

  lemma NoAdrpNoLast(img: Image, c0: Insn, i: nat, k: nat)
    requires c0.Valid() && NoAdrp(img, c0, k)
    ensures !LastAdrp(img, c0, i, k)
  {
    if i < k {
      assert NotAdrp(img, c0, i);
    }
  }

  /** Without a hit at step `k`, no pairing ends at `k`. */
  lemma NoMatchAt(img: Image, c0: Insn, pos: bv64, k: nat, last: Option<nat>, rd: nat, imm: bv64)
    requires c0.Valid() && Walk(c0, k, false).Ok? && Type(img, At(c0, k)).Ok?
    requires ScanState(img, c0, k, last, rd, imm)
    requires !Track(img, At(c0, k), Type(img, At(c0, k)).value, rd, imm, pos).hit
    ensures forall i: nat :: !Matches(img, c0, pos, i, k)
  {
    forall i: nat
      ensures !Matches(img, c0, pos, i, k)
    {
      match last
      case None => NoAdrpNoLast(img, c0, i, k);
      case Some(i0) => LastAdrpUnique(img, c0, i0, i, k);
    }
  }

  /** A hit at step `k` is a pairing ending at `k`. */
  lemma MatchAt(img: Image, c0: Insn, pos: bv64, k: nat, last: Option<nat>, rd: nat, imm: bv64)
    requires c0.Valid() && Walk(c0, k, false).Ok? && Type(img, At(c0, k)).Ok?
    requires ScanState(img, c0, k, last, rd, imm)
    requires Track(img, At(c0, k), Type(img, At(c0, k)).value, rd, imm, pos).hit
    ensures last.Some? && Matches(img, c0, pos, last.value, k)
  {
  }

  /** An adrp at step `k` becomes the last adrp before step `k + 1`. */
  lemma ScanStateAdrp(img: Image, c0: Insn, k: nat)
    requires c0.Valid() && Walk(c0, k, false).Ok? && Type(img, At(c0, k)) == Ok(Adrp)
    ensures ScanState(img, c0, k + 1, Some(k), Rd(img, At(c0, k)).value, Imm(img, At(c0, k)).value)
  {
  }

  /** Any other word at step `k` leaves the scan state as it was. */
  lemma ScanStateOther(img: Image, c0: Insn, k: nat, last: Option<nat>, rd: nat, imm: bv64)
    requires c0.Valid() && Walk(c0, k, false).Ok? && Type(img, At(c0, k)).Ok? && Type(img, At(c0, k)).value != Adrp
    requires ScanState(img, c0, k, last, rd, imm)
    ensures ScanState(img, c0, k + 1, last, rd, imm)
  {
    assert NotAdrp(img, c0, k);
  }

  /** Once a forward step fails, every later step of the walk fails too. */
  lemma WalkStuck(c0: Insn, k: nat, j: nat)
    requires c0.Valid() && Walk(c0, k, false).Ok? && Next(At(c0, k)).Err? && k < j
    ensures Walk(c0, j, false).Err?
  {
    assert Walk(c0, k + 1, false) == Next(At(c0, k));
    var n := j - (k + 1);
    WalkAdd(c0, k + 1, n, false);
    assert k + 1 + n == j;
  }

  /** Without a hit at step `k`: no pairing ends at or before `k`, the state carries over, and none at all if `++` fails. */
  lemma ScanRefNoHit(img: Image, c0: Insn, pos: bv64, k: nat, last: Option<nat>, rd: nat, imm: bv64)
    requires c0.Valid() && Walk(c0, k, false).Ok? && Type(img, At(c0, k)).Ok?
    requires ScanState(img, c0, k, last, rd, imm)
    requires forall i: nat, j: nat :: j < k ==> !Matches(img, c0, pos, i, j)
    requires !Track(img, At(c0, k), Type(img, At(c0, k)).value, rd, imm, pos).hit
    ensures forall i: nat, j: nat :: j < k + 1 ==> !Matches(img, c0, pos, i, j)
    ensures var t := Type(img, At(c0, k)).value;
            var st := Track(img, At(c0, k), t, rd, imm, pos);
            ScanState(img, c0, k + 1, if t == Adrp then Some(k) else last, st.rd, st.imm)
    ensures Next(At(c0, k)).Err? ==> forall i: nat, j: nat :: !Matches(img, c0, pos, i, j)
  {
    NoMatchAt(img, c0, pos, k, last, rd, imm);
    if Type(img, At(c0, k)).value == Adrp {
      ScanStateAdrp(img, c0, k);
    } else {
      ScanStateOther(img, c0, k, last, rd, imm);
    }
    if Next(At(c0, k)).Err? {
      forall i: nat, j: nat | k < j
        ensures !Matches(img, c0, pos, i, j)
      {
        WalkStuck(c0, k, j);
      }
    }
  }

  /** A step of the scan without a hit: the scan goes on one word further with the state updated, closer to the end. */
  lemma ScanRefAdvance(img: Image, c0: Insn, pos: bv64, k: nat, last: Option<nat>, rd: nat, imm: bv64)
    requires c0.Valid() && Walk(c0, k, false).Ok? && Type(img, At(c0, k)).Ok?
    requires ScanState(img, c0, k, last, rd, imm)
    requires forall i: nat, j: nat :: j < k ==> !Matches(img, c0, pos, i, j)
    requires !Track(img, At(c0, k), Type(img, At(c0, k)).value, rd, imm, pos).hit
    requires Next(At(c0, k)).Ok?
    ensures Walk(c0, k + 1, false).Ok? && Closer(At(c0, k + 1), At(c0, k), false)
    ensures forall i: nat, j: nat :: j < k + 1 ==> !Matches(img, c0, pos, i, j)
    ensures var t := Type(img, At(c0, k)).value;
            var st := Track(img, At(c0, k), t, rd, imm, pos);
            ScanState(img, c0, k + 1, if t == Adrp then Some(k) else last, st.rd, st.imm)
            && ScanRef(img, At(c0, k), rd, imm, pos) == ScanRef(img, At(c0, k + 1), st.rd, st.imm, pos)
  {
    ScanRefNoHit(img, c0, pos, k, last, rd, imm);
    var c := At(c0, k);
    var d := Next(c).value;
    assert Walk(c0, k + 1, false) == Ok(d);
    assert Step(c, false) == Next(c);
  }

  /** The scan from step `k` on returns the first pairing at or after `k`, or `None` when there is none at all. */
  lemma {:induction false} ScanRefFirst(img: Image, c0: Insn, pos: bv64, k: nat, last: Option<nat>, rd: nat, imm: bv64)
    requires c0.Valid() && Walk(c0, k, false).Ok?
    requires ScanState(img, c0, k, last, rd, imm)
    requires forall i: nat, j: nat :: j < k ==> !Matches(img, c0, pos, i, j)
    ensures ScanRef(img, At(c0, k), rd, imm, pos) == Ok(None) ==> forall i: nat, j: nat :: !Matches(img, c0, pos, i, j)
    ensures ScanRef(img, At(c0, k), rd, imm, pos).Ok? && ScanRef(img, At(c0, k), rd, imm, pos).value.Some? ==>
      exists i: nat, j: nat :: FirstMatch(img, c0, pos, i, j) && ScanRef(img, At(c0, k), rd, imm, pos).value.value == Pc(At(c0, j))
    decreases Major(At(c0, k), false), Minor(At(c0, k), false)
  {
    var c := At(c0, k);
    if Type(img, c).Ok? {
      var t := Type(img, c).value;
      var st := Track(img, c, t, rd, imm, pos);
      if st.hit {
        assert ScanRef(img, c, rd, imm, pos) == Ok(Some(Pc(c)));
        MatchAt(img, c0, pos, k, last, rd, imm);
        assert FirstMatch(img, c0, pos, last.value, k);
      } else {
        if Next(c).Ok? {
          ScanRefAdvance(img, c0, pos, k, last, rd, imm);
          ScanRefFirst(img, c0, pos, k + 1, if t == Adrp then Some(k) else last, st.rd, st.imm);
        } else {
          ScanRefNoHit(img, c0, pos, k, last, rd, imm);
          assert ScanRef(img, c, rd, imm, pos) == Ok(None);
        }
      }
    } else {
      assert ScanRef(img, c, rd, imm, pos).Err?;
    }
  }

  /** The scan from the start satisfies `ScanRefFirst`'s premises. */
  lemma ScanRefFromStart(img: Image, c0: Insn, pos: bv64)
    requires c0.Valid()
    ensures ScanRef(img, c0, 0xFF, 0, pos) == Ok(None) ==> forall i: nat, j: nat :: !Matches(img, c0, pos, i, j)
    ensures ScanRef(img, c0, 0xFF, 0, pos).Ok? && ScanRef(img, c0, 0xFF, 0, pos).value.Some? ==>
      exists i: nat, j: nat :: FirstMatch(img, c0, pos, i, j) && ScanRef(img, c0, 0xFF, 0, pos).value.value == Pc(At(c0, j))
  {
    assert Walk(c0, 0, false) == Ok(c0);
    assert ScanState(img, c0, 0, None, 0xFF, 0);
    ScanRefFirst(img, c0, pos, 0, None, 0xFF, 0);
  }

  /**
   `find_literal_ref` returns the pc of the first add that pairs with the
   last adrp before it to form `pos`, scanning forward from the first
   executable segment; it returns 0 when there is no such add.
   */
  lemma FindLiteralRefFirst(img: Image, segs: seq<Segment>, slide: bv64, pos: bv64, c0: Insn)
    requires New(segs, slide, 0, true) == Ok(c0)
    ensures FindLiteralRef(img, segs, slide, pos).Ok? && FindLiteralRef(img, segs, slide, pos).value != 0 ==>
      exists i: nat, j: nat :: FirstMatch(img, c0, pos, i, j) && FindLiteralRef(img, segs, slide, pos).value == Pc(At(c0, j))
    ensures FindLiteralRef(img, segs, slide, pos) == Ok(0) ==>
      (forall i: nat, j: nat :: !Matches(img, c0, pos, i, j)) ||
      exists i: nat, j: nat :: FirstMatch(img, c0, pos, i, j) && Pc(At(c0, j)) == 0
  {
    ScanRefFromStart(img, c0, pos);
    var s := ScanRef(img, c0, 0xFF, 0, pos);
    assert FindLiteralRef(img, segs, slide, pos) ==
      if s.Err? then Err(s.error) else if s.value.Some? then Ok(s.value.value) else Ok(0);
  }


  // find_rel_branch_source

  /** `imm() * 4` in `uint64_t` arithmetic. */
  function Times4(x: bv64): bv64 {
    x * 4
  }

  /** `s` is branch-class and `s.imm() * 4 + s.pc()` is the pc of `dst`. */
  ghost predicate Targets(img: Image, s: Insn, dst: Insn)
    requires s.Valid()
  {
    SupertypeAt(img, s) == Ok(Branch) && Add64(Times4(Imm(img, s).value), Pc(s)) == Pc(dst)
  }

  /** Step `j` of the search from `c` is reached, read, and is not a branch to `dst`. */
  ghost predicate Skipped(img: Image, c: Insn, up: bool, dst: Insn, j: nat)
    requires c.Valid()
  {
    Walk(c, j, up).Ok? && Misses(img, Walk(c, j, up).value, dst)
  }

  /** `s` was read and is not a branch to `dst`. */
  ghost predicate Misses(img: Image, s: Insn, dst: Insn)
    requires s.Valid()
  {
    SupertypeAt(img, s).Ok? && !Targets(img, s, dst)
  }

  /**
   The search loop of `find_rel_branch_source` from `c`: step to the next
   branch-class instruction, and stop there if it targets `dst`.
   */
  function BranchScan(img: Image, dst: Insn, c: Insn, up: bool): (r: Result<bv64>)
    requires c.Valid()
    ensures r.Err? ==> r.error == Truncated || r.error == (if up then Underflow else Overflow)
    decreases Major(c, up), Minor(c, up)
  {
    var s :- Seek(img, c, up, BranchClass);
    if Add64(Times4(Imm(img, s).value), Pc(s)) == Pc(dst) then Ok(Pc(s))
    else BranchScan(img, dst, s, up)
  }

  /**
   `find_rel_branch_source(bdst, searchUp)`: the pc of the nearest branch
   above (`up`) or below `bdst` whose target is `bdst`. Running out of
   segments is the uncaught `out_of_range` of the step.
   */
  function FindRelBranchSource(img: Image, bdst: Insn, up: bool): (r: Result<bv64>)
    requires bdst.Valid()
    ensures r.Err? ==> r.error == Truncated || r.error == (if up then Underflow else Overflow)
  {
    BranchScan(img, bdst, bdst, up)
  }

  /** A walk of at least one step ends strictly further along. */
  lemma {:induction false} WalkMoves(c: Insn, k: nat, up: bool)
    requires c.Valid() && 1 <= k && Walk(c, k, up).Ok?
    ensures Closer(Walk(c, k, up).value, c, up)
  {
    if k > 1 {
      WalkMoves(c, k - 1, up);
    }
  }

  /** The words `Seek` passes are not branches, so none of them is a branch to `dst`. */
  lemma PassesSkipped(img: Image, c: Insn, up: bool, dst: Insn, j: nat)
    requires c.Valid() && Passes(img, c, up, BranchClass, j)
    ensures Skipped(img, c, up, dst, j)
  {
  }

  /** A step skipped after `k1` steps is step `k1 + i` of the search from `c`. */
  lemma SkippedShift(img: Image, c: Insn, up: bool, dst: Insn, k1: nat, j: nat)
    requires c.Valid() && k1 <= j && Walk(c, k1, up).Ok? && Skipped(img, Walk(c, k1, up).value, up, dst, j - k1)
    ensures Skipped(img, c, up, dst, j)
  {
    WalkSplit(c, k1, j, up);
  }

  /** The steps skipped before and after the branch at step `k1` are the steps skipped from `c`. */
  lemma SkippedJoin(img: Image, c: Insn, up: bool, dst: Insn, k1: nat, k2: nat)
    requires c.Valid() && 1 <= k1 && Walk(c, k1, up).Ok?
    requires forall j :: 1 <= j < k1 ==> Passes(img, c, up, BranchClass, j)
    requires Skipped(img, c, up, dst, k1)
    requires forall j :: 1 <= j < k2 ==> Skipped(img, Walk(c, k1, up).value, up, dst, j)
    ensures forall j :: 1 <= j < k1 + k2 ==> Skipped(img, c, up, dst, j)
  {
    forall j | 1 <= j < k1 + k2
      ensures Skipped(img, c, up, dst, j)
    {
      if j < k1 {
        PassesSkipped(img, c, up, dst, j);
      } else if j > k1 {
        SkippedShift(img, c, up, dst, k1, j);
      }
    }
  }

  /** The search stops at the first branch that targets `dst`; every instruction before it was read. */
  lemma {:induction false} BranchScanFirst(img: Image, dst: Insn, c: Insn, up: bool)
    requires c.Valid() && BranchScan(img, dst, c, up).Ok?
    ensures exists k :: 1 <= k && Walk(c, k, up).Ok? && Targets(img, Walk(c, k, up).value, dst)
                        && BranchScan(img, dst, c, up).value == Pc(Walk(c, k, up).value)
                        && forall j :: 1 <= j < k ==> Skipped(img, c, up, dst, j)
    decreases Major(c, up), Minor(c, up)
  {
    var s := Seek(img, c, up, BranchClass).value;
    SeekFirst(img, c, up, BranchClass);
    var k1 :| 1 <= k1 && Walk(c, k1, up) == Ok(s) && forall j :: 1 <= j < k1 ==> Passes(img, c, up, BranchClass, j);
    if Add64(Times4(Imm(img, s).value), Pc(s)) == Pc(dst) {
      forall j | 1 <= j < k1
        ensures Skipped(img, c, up, dst, j)
      {
        PassesSkipped(img, c, up, dst, j);
      }
    } else {
      BranchScanFirst(img, dst, s, up);
      var k2 :| 1 <= k2 && Walk(s, k2, up).Ok? && Targets(img, Walk(s, k2, up).value, dst)
                && BranchScan(img, dst, s, up).value == Pc(Walk(s, k2, up).value)
                && forall j :: 1 <= j < k2 ==> Skipped(img, s, up, dst, j);
      WalkAdd(c, k1, k2, up);
      assert SupertypeAt(img, s) == Ok(Branch) by {
        assert Hit(img, s, BranchClass) == Ok(true);
      }
      assert Misses(img, s, dst);
      assert Skipped(img, c, up, dst, k1);
      SkippedJoin(img, c, up, dst, k1, k2);
    }
  }

  /**
   A source found by `find_rel_branch_source` is the pc of the nearest
   branch-class instruction in the search direction, other than `bdst`
   itself, whose `imm * 4 + pc` (modulo 2^64) is `bdst`'s pc.
   */
  lemma FindRelBranchSourceFirst(img: Image, bdst: Insn, up: bool)
    requires bdst.Valid() && FindRelBranchSource(img, bdst, up).Ok?
    ensures exists k :: 1 <= k && Walk(bdst, k, up).Ok? && Targets(img, Walk(bdst, k, up).value, bdst)
                        && Closer(Walk(bdst, k, up).value, bdst, up)
                        && FindRelBranchSource(img, bdst, up).value == Pc(Walk(bdst, k, up).value)
                        && forall j :: 1 <= j < k ==> Skipped(img, bdst, up, bdst, j)
  {
    BranchScanFirst(img, bdst, bdst, up);
    var k :| 1 <= k && Walk(bdst, k, up).Ok? && Targets(img, Walk(bdst, k, up).value, bdst)
             && BranchScan(img, bdst, bdst, up).value == Pc(Walk(bdst, k, up).value)
             && forall j :: 1 <= j < k ==> Skipped(img, bdst, up, bdst, j);
    WalkMoves(bdst, k, up);
  }
}
