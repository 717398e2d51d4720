/**
 The instruction cursor `insn`: a position in a base-sorted list of
 executable segments, stepped four bytes at a time, and the readers that
 decode the word under it.
 */
module Cursors {
  import opened Results
  import opened Bytes
  import opened MachO
  import opened A64
  import opened Search

  // The working set: sorted by base, then filtered to executable segments

  predicate SortedByBase(s: seq<Segment>) {
    forall i, j :: 0 <= i < j < |s| ==> s[i].base <= s[j].base
  }

  /** Every element of `s` has a base of at least `b`. */
  predicate AllFrom(s: seq<Segment>, b: nat) {
    forall i :: 0 <= i < |s| ==> b <= s[i].base
  }

  /** `x` placed before the first element whose base is not below its own. */
  function Insert(x: Segment, s: seq<Segment>): (r: seq<Segment>)
    ensures multiset(r) == multiset(s) + multiset{x}
  {
    if s == [] || x.base <= s[0].base then [x] + s
    else
      assert s == [s[0]] + s[1..];
      [s[0]] + Insert(x, s[1..])
  }

  lemma {:induction false} InsertFrom(x: Segment, s: seq<Segment>, b: nat)
    requires AllFrom(s, b) && b <= x.base
    ensures AllFrom(Insert(x, s), b)
  {
    if s != [] && x.base > s[0].base {
      InsertFrom(x, s[1..], b);
    }
  }

  /** Inserting into a sorted list keeps it sorted. */
  lemma {:induction false} InsertSorted(x: Segment, s: seq<Segment>)
    requires SortedByBase(s)
    ensures SortedByBase(Insert(x, s))
  {
    if s != [] && x.base > s[0].base {
      InsertSorted(x, s[1..]);
      InsertFrom(x, s[1..], s[0].base);
    }
  }

  /**
   The constructor's `std::sort` by `base`. `std::sort` leaves the order of
   equal bases unspecified; the model picks the stable order.
   */
  function SortByBase(s: seq<Segment>): (r: seq<Segment>)
    ensures multiset(r) == multiset(s)
    ensures SortedByBase(r)
  {
    if s == [] then []
    else
      assert s == [s[0]] + s[1..];
      InsertSorted(s[0], SortByBase(s[1..]));
      Insert(s[0], SortByBase(s[1..]))
  }

  /** The executable segments, in order: what the constructor's filter is meant to keep. */
  function ExecOnly(s: seq<Segment>): (r: seq<Segment>)
    ensures |r| <= |s|
    ensures forall i :: 0 <= i < |r| ==> r[i].isExec
  {
    if s == [] then [] else (if s[0].isExec then [s[0]] else []) + ExecOnly(s[1..])
  }

  /** The filter keeps every executable segment, as often as it occurs, and nothing else. */
  lemma {:induction false} ExecOnlyCounts(s: seq<Segment>)
    ensures forall x :: multiset(ExecOnly(s))[x] == if x.isExec then multiset(s)[x] else 0
  {
    if s != [] {
      assert s == [s[0]] + s[1..];
      ExecOnlyCounts(s[1..]);
    }
  }

  lemma {:induction false} ExecOnlyFrom(s: seq<Segment>, b: nat)
    requires AllFrom(s, b)
    ensures AllFrom(ExecOnly(s), b)
  {
    if s != [] {
      ExecOnlyFrom(s[1..], b);
    }
  }

  /** Filtering a sorted list leaves it sorted. */
  lemma {:induction false} ExecOnlySorted(s: seq<Segment>)
    requires SortedByBase(s)
    ensures SortedByBase(ExecOnly(s))
  {
    if s != [] {
      ExecOnlySorted(s[1..]);
      ExecOnlyFrom(s[1..], s[0].base);
    }
  }

  lemma {:induction false} ExecOnlyAppend(a: seq<Segment>, b: seq<Segment>)
    ensures ExecOnly(a + b) == ExecOnly(a) + ExecOnly(b)
  {
    if a == [] {
      assert a + b == b;
    } else {
      assert (a + b)[0] == a[0] && (a + b)[1..] == a[1..] + b;
      ExecOnlyAppend(a[1..], b);
    }
  }
  /** The range after libstdc++'s `remove_if`: the kept elements in front, the old elements behind them. */
  function RemovedRange(s: seq<Segment>): seq<Segment> {
    ExecOnly(s) + s[|ExecOnly(s)|..]
  }

  /**
   libstdc++'s `remove_if` with the predicate `!isExec`: each kept element
   is copied down to the write position; positions at or past the final
   write position are never written. (The library first skips the leading
   kept elements with `find_if`; copying them onto themselves instead
   changes nothing.)
   */
  method RemoveIf(s: seq<Segment>) returns (t: seq<Segment>, newEnd: nat)
    ensures t == RemovedRange(s) && newEnd == |ExecOnly(s)|
  {
    t := s;
    newEnd := 0;
    var first := 0;
    while first < |s|
      invariant newEnd <= first <= |s| && |t| == |s|
      invariant t[..newEnd] == ExecOnly(s[..first])
      invariant t[newEnd..] == s[newEnd..]
    {
      ExecOnlyAppend(s[..first], [s[first]]);
      assert s[..first + 1] == s[..first] + [s[first]];
      if s[first].isExec {
        ghost var t0 := t;
        assert t0[newEnd + 1..] == t0[newEnd..][1..] && s[newEnd + 1..] == s[newEnd..][1..];
        t := t[newEnd := s[first]];
        assert t[..newEnd + 1] == t0[..newEnd] + [s[first]];
        assert t[newEnd + 1..] == t0[newEnd + 1..];
        newEnd := newEnd + 1;
      }
      first := first + 1;
    }
    assert s[..first] == s;
  }

  /**
   `vector::erase(pos)` with a single iterator: the one element at `pos`
   goes. Erasing at the end is undefined, modelled as `None`.
   */
  function EraseAt(t: seq<Segment>, pos: nat): (r: Option<seq<Segment>>)
    ensures r.None? <==> pos >= |t|
    ensures r.Some? ==> |r.value| == |t| - 1
  {
    if pos < |t| then Some(t[..pos] + t[pos + 1..]) else None
  }

  /** The constructor's filter as written: `erase(remove_if(...))` with one iterator. */
  function EraseRemoveIf(s: seq<Segment>): Option<seq<Segment>> {
    EraseAt(RemovedRange(s), |ExecOnly(s)|)
  }

  /**
   The filter as written keeps exactly the executable segments only when
   exactly one segment is not executable; with none it is undefined.
   */
  lemma EraseRemoveIfAgrees(s: seq<Segment>)
    ensures EraseRemoveIf(s) == Some(ExecOnly(s)) <==> |s| == |ExecOnly(s)| + 1
    ensures EraseRemoveIf(s) == None <==> |s| == |ExecOnly(s)|
  {
    var k := |ExecOnly(s)|;
    var t := RemovedRange(s);
    assert |t| == |s|;
    if k < |s| {
      assert t[..k] == ExecOnly(s);
      assert t[..k] + t[k + 1..] == ExecOnly(s) + t[k + 1..];
      if k + 1 == |s| {
        assert t[k + 1..] == [];
        assert ExecOnly(s) + t[k + 1..] == ExecOnly(s);
      } else {
        assert |t[..k] + t[k + 1..]| == |s| - 1 > k;
      }
    }
  }

  /**
   One executable segment followed by two that are not: the filter as
   written erases only the first of the two and keeps the second.
   */
  lemma EraseRemoveIfKeepsNonExec()
    ensures var e := Segment(0, 16, 0x1000, true);
            var n1 := Segment(16, 16, 0x2000, false);
            var n2 := Segment(32, 16, 0x3000, false);
            EraseRemoveIf([e, n1, n2]) == Some([e, n2]) && ExecOnly([e, n1, n2]) == [e]
  {
    var e := Segment(0, 16, 0x1000, true);
    var n1 := Segment(16, 16, 0x2000, false);
    var n2 := Segment(32, 16, 0x3000, false);
    assert [e, n1, n2][1..] == [n1, n2] && [n1, n2][1..] == [n2] && [n2][1..] == [];
    assert ExecOnly([n2]) == [];
    assert ExecOnly([n1, n2]) == [];
    assert ExecOnly([e, n1, n2]) == [e];
    assert RemovedRange([e, n1, n2]) == [e, n1, n2];
    assert [e, n1, n2][..1] + [e, n1, n2][2..] == [e, n2];
  }

  /** The constructor's segment list: sorted by base and, for `textOnly`, executable only. */
  function WorkingSet(segs: seq<Segment>, textOnly: bool): (r: seq<Segment>)
    ensures SortedByBase(r)
    ensures textOnly ==> forall i :: 0 <= i < |r| ==> r[i].isExec
    ensures forall x :: multiset(r)[x] == if textOnly && !x.isExec then 0 else multiset(segs)[x]
  {
    var sorted := SortByBase(segs);
    if textOnly then
      ExecOnlyCounts(sorted);
      ExecOnlySorted(sorted);
      ExecOnly(sorted)
    else sorted
  }

  // The cursor

  /** `base <= p < base + size`. */
  predicate Contains(s: Segment, p: nat) {
    s.base <= p < s.End()
  }

  /**
   An `insn`: the segment list, the slide, and the pair (`pos`, `idx`) of a
   position and the index of its segment.
   */
  datatype Insn = Insn(segs: seq<Segment>, slide: bv64, pos: nat, idx: nat) {
    /**
     The index names a segment and the position lies in it or one past its
     end, where a step back across a segment boundary lands.
     */
    predicate Valid() {
      idx < |segs| && segs[idx].base <= pos <= segs[idx].End()
    }
  }

  /** The index of the first segment at or after `i` containing `p`. */
  function FirstContaining(ws: seq<Segment>, p: nat, i: nat): (r: Option<nat>)
    requires i <= |ws|
    ensures r.Some? ==> i <= r.value < |ws| && Contains(ws[r.value], p)
    ensures r.Some? ==> forall j :: i <= j < r.value ==> !Contains(ws[j], p)
    ensures r.None? <==> forall j :: i <= j < |ws| ==> !Contains(ws[j], p)
    decreases |ws| - i
  {
    if i == |ws| then None
    else if Contains(ws[i], p) then Some(i)
    else FirstContaining(ws, p, i + 1)
  }

  /**
   The constructor `insn(segments, kslide, p, textOnly)`: a zero `p` means
   the first segment's base (`at(0)`, which throws on an empty list); the
   position is placed in the first segment that contains it.
   */
  function New(segs: seq<Segment>, slide: bv64, p: nat, textOnly: bool): (r: Result<Insn>)
    ensures r.Ok? ==> r.value.Valid() && r.value.segs == WorkingSet(segs, textOnly) && r.value.slide == slide
    ensures r.Ok? ==> Contains(r.value.segs[r.value.idx], r.value.pos)
    ensures r.Ok? ==> forall j :: 0 <= j < r.value.idx ==> !Contains(r.value.segs[j], r.value.pos)
    ensures r.Ok? && p != 0 ==> r.value.pos == p
    ensures r.Ok? && p == 0 ==> r.value.pos == r.value.segs[0].base
    ensures r == Err(EmptyWorkingSet) <==> p == 0 && WorkingSet(segs, textOnly) == []
    ensures r.Err? ==> r.error == EmptyWorkingSet || r.error == LocationOutOfRange
    ensures p != 0 ==>
      (r == Err(LocationOutOfRange) <==> forall j :: 0 <= j < |WorkingSet(segs, textOnly)| ==> !Contains(WorkingSet(segs, textOnly)[j], p))
  {
    var ws := WorkingSet(segs, textOnly);
    if p == 0 && |ws| == 0 then Err(EmptyWorkingSet)
    else
      var q := if p == 0 then ws[0].base else p;
      match FirstContaining(ws, q, 0)
      case None => Err(LocationOutOfRange)
      case Some(i) => Ok(Insn(ws, slide, q, i))
  }

  /** `operator++`: four bytes on, or on to the next segment's base when that passes the end. */
  function Next(c: Insn): (r: Result<Insn>)
    requires c.Valid()
    ensures r.Ok? ==> r.value.Valid() && r.value.segs == c.segs && r.value.slide == c.slide
    ensures r.Err? ==> r.error == Overflow
  {
    if c.pos + 4 >= c.segs[c.idx].End() then
      if c.idx + 1 < |c.segs| then Ok(c.(pos := c.segs[c.idx + 1].base, idx := c.idx + 1))
      else Err(Overflow)
    else Ok(c.(pos := c.pos + 4))
  }

  /**
   `operator--`: four bytes back, or, below the base, to one past the end
   of the previous segment — but only from index 2 on (`_p.second-1 > 0`).
   */
  function Prev(c: Insn): (r: Result<Insn>)
    requires c.Valid()
    ensures r.Ok? ==> r.value.Valid() && r.value.segs == c.segs && r.value.slide == c.slide
    ensures r.Err? ==> r.error == Underflow
  {
    if c.pos - 4 < c.segs[c.idx].base then
      if c.idx - 1 > 0 then Ok(c.(pos := c.segs[c.idx - 1].End(), idx := c.idx - 1))
      else Err(Underflow)
    else Ok(c.(pos := c.pos - 4))
  }

  /**
   Where `++` goes: four bytes on inside the segment; past its end, to the
   next segment's base; past the last segment's end it fails.
   */
  lemma StepForward(c: Insn)
    requires c.Valid()
    ensures c.pos + 4 < c.segs[c.idx].End() ==> Next(c) == Ok(c.(pos := c.pos + 4))
    ensures c.pos + 4 >= c.segs[c.idx].End() && c.idx + 1 < |c.segs| ==>
      Next(c) == Ok(c.(pos := c.segs[c.idx + 1].base, idx := c.idx + 1))
    ensures c.pos + 4 >= c.segs[c.idx].End() && c.idx + 1 == |c.segs| ==> Next(c) == Err(Overflow)
  {
  }

  /**
   Where `--` goes: four bytes back inside the segment; below its base,
   to one past the end of the previous segment from index 2 on, and
   failing at index 0 or 1.
   */
  lemma StepBack(c: Insn)
    requires c.Valid()
    ensures c.segs[c.idx].base + 4 <= c.pos ==> Prev(c) == Ok(c.(pos := c.pos - 4))
    ensures c.pos < c.segs[c.idx].base + 4 && c.idx >= 2 ==>
      Prev(c) == Ok(c.(pos := c.segs[c.idx - 1].End(), idx := c.idx - 1))
    ensures c.pos < c.segs[c.idx].base + 4 && c.idx <= 1 ==> Prev(c) == Err(Underflow)
  {
  }

  /** One step back (`up`, toward lower addresses) or forward. */
  function Step(c: Insn, up: bool): (r: Result<Insn>)
    requires c.Valid()
    ensures r.Ok? ==> r.value.Valid() && r.value.segs == c.segs && r.value.slide == c.slide
    ensures r.Ok? ==> Closer(r.value, c, up)
    ensures r.Err? ==> r.error == (if up then Underflow else Overflow)
  {
    if up then Prev(c) else Next(c)
  }

  // Termination measures for scans in one direction

  /** Segments still to visit: those below (`up`) or above the current one. */
  function Major(c: Insn, up: bool): nat
    requires c.Valid()
  {
    if up then c.idx else |c.segs| - 1 - c.idx
  }

  /** Bytes still to visit in the current segment. */
  function Minor(c: Insn, up: bool): nat
    requires c.Valid()
  {
    if up then c.pos - c.segs[c.idx].base else c.segs[c.idx].End() - c.pos
  }

  /** `d` is strictly further along than `c` in the lexicographic (`Major`, `Minor`) order. */
  predicate Closer(d: Insn, c: Insn, up: bool)
    requires d.Valid() && c.Valid()
  {
    Major(d, up) < Major(c, up) || (Major(d, up) == Major(c, up) && Minor(d, up) < Minor(c, up))
  }

  /** `k` steps in one direction; the first failing step's error ends the walk. */
  function Walk(c: Insn, k: nat, up: bool): (r: Result<Insn>)
    requires c.Valid()
    ensures r.Ok? ==> r.value.Valid() && r.value.segs == c.segs && r.value.slide == c.slide
    ensures r.Err? ==> r.error == (if up then Underflow else Overflow)
  {
    if k == 0 then Ok(c)
    else
      var d :- Walk(c, k - 1, up);
      Step(d, up)
  }

  /** Continue a walk that has not failed by `k` more steps. */
  function Then(r: Result<Insn>, k: nat, up: bool): Result<Insn>
    requires r.Ok? ==> r.value.Valid()
  {
    match r
    case Err(e) => Err(e)
    case Ok(d) => Walk(d, k, up)
  }

  /** Once `a` steps have succeeded, step `j >= a` of the walk is step `j - a` of the walk from there. */
  lemma WalkSplit(c: Insn, a: nat, j: nat, up: bool)
    requires c.Valid() && a <= j && Walk(c, a, up).Ok?
    ensures Walk(c, j, up) == Walk(Walk(c, a, up).value, j - a, up)
  {
    WalkAdd(c, a, j - a, up);
  }

  /** Walking `a + b` steps is walking `a` steps and then `b` more. */
  lemma {:induction false} WalkAdd(c: Insn, a: nat, b: nat, up: bool)
    requires c.Valid()
    ensures Walk(c, a + b, up) == Then(Walk(c, a, up), b, up)
  {
    if b > 0 {
      WalkAdd(c, a, b - 1, up);
    }
  }

  /** `operator+`: a copy moved `i` steps, forward for positive `i`, back otherwise. */
  function Plus(c: Insn, i: int): (r: Result<Insn>)
    requires c.Valid()
    ensures r.Ok? ==> r.value.Valid() && r.value.segs == c.segs && r.value.slide == c.slide
    ensures i == 0 ==> r == Ok(c)
  {
    if i > 0 then Walk(c, i, false) else Walk(c, -i, true)
  }

  /** `operator-`: `operator+` with the negated count. */
  function Minus(c: Insn, i: int): (r: Result<Insn>)
    requires c.Valid()
    ensures r.Ok? ==> r.value.Valid() && r.value.segs == c.segs && r.value.slide == c.slide
  {
    Plus(c, -i)
  }

  /** Forward moves compose: `c + (a + b)` is `(c + a) + b`. */
  lemma PlusAddForward(c: Insn, a: int, b: int)
    requires c.Valid() && a > 0 && b > 0
    ensures Plus(c, a + b) == match Plus(c, a) case Err(e) => Err(e) case Ok(d) => Plus(d, b)
  {
    WalkAdd(c, a, b, false);
  }

  /** Backward moves compose: `c - (a + b)` is `(c - a) - b`. */
  lemma PlusAddBackward(c: Insn, a: nat, b: nat)
    requires c.Valid() && a > 0 && b > 0
    ensures Minus(c, a + b) == match Minus(c, a) case Err(e) => Err(e) case Ok(d) => Minus(d, b)
  {
    WalkAdd(c, a, b, true);
  }

  /** Inside a segment, `k` steps forward add `4 * k` to the position. */
  lemma {:induction false} WalkForwardInSegment(c: Insn, k: nat)
    requires c.Valid() && c.pos + 4 * k < c.segs[c.idx].End()
    ensures Walk(c, k, false) == Ok(c.(pos := c.pos + 4 * k))
  {
    if k > 0 {
      WalkForwardInSegment(c, k - 1);
    }
  }

  /** Inside a segment, `k` steps back subtract `4 * k` from the position. */
  lemma {:induction false} WalkBackInSegment(c: Insn, k: nat)
    requires c.Valid() && c.segs[c.idx].base + 4 * k <= c.pos
    ensures Walk(c, k, true) == Ok(c.(pos := c.pos - 4 * k))
  {
    if k > 0 {
      WalkBackInSegment(c, k - 1);
    }
  }

  /** Inside a segment, `(c + k) - k` is `c` again. */
  lemma PlusMinus(c: Insn, k: nat)
    requires c.Valid() && c.pos + 4 * k < c.segs[c.idx].End()
    ensures Plus(c, k) == Ok(c.(pos := c.pos + 4 * k))
    ensures Minus(c.(pos := c.pos + 4 * k), k) == Ok(c)
  {
    WalkForwardInSegment(c, k);
    WalkBackInSegment(c.(pos := c.pos + 4 * k), k);
  }

  /** `--` undoes a `++` that stays in its segment; one that crosses comes back one past the old segment's end, or fails from index 0. */
  lemma NextPrev(c: Insn)
    requires c.Valid() && Next(c).Ok?
    ensures Next(c).value.idx == c.idx ==> Prev(Next(c).value) == Ok(c)
    ensures Next(c).value.idx != c.idx ==>
      Next(c).value.idx == c.idx + 1 &&
      Prev(Next(c).value) == if c.idx >= 1 then Ok(c.(pos := c.segs[c.idx].End())) else Err(Underflow)
  {
  }

  /** `++` undoes a `--` that stays in its segment, unless the start was one past the segment's end. */
  lemma PrevNext(c: Insn)
    requires c.Valid() && Prev(c).Ok?
    ensures Prev(c).value.idx == c.idx && c.pos < c.segs[c.idx].End() ==> Next(Prev(c).value) == Ok(c)
    ensures Prev(c).value.idx != c.idx ==> c.idx >= 2 && Prev(c).value.idx == c.idx - 1
  {
  }

  /** At the last segment's last word `++` fails; at index 0 or 1 below four bytes past the base `--` fails. */
  lemma StepFailures(c: Insn)
    requires c.Valid()
    ensures Next(c) == Err(Overflow) <==> c.idx == |c.segs| - 1 && c.pos + 4 >= c.segs[c.idx].End()
    ensures Prev(c) == Err(Underflow) <==> c.idx <= 1 && c.pos < c.segs[c.idx].base + 4
  {
  }

  // Readers

  /** `operator loc_t`: the image offset under the cursor (`map + (pos - base)`). */
  function Loc(c: Insn): nat
    requires c.Valid()
  {
    c.segs[c.idx].fileoff + (c.pos - c.segs[c.idx].base)
  }

  /** `value()`: the word under the cursor; a read past the image is `Truncated`. */
  function Value(img: Image, c: Insn): (r: Result<bv32>)
    requires c.Valid()
    ensures r.Ok? <==> Loc(c) + 4 <= |img|
    ensures r.Err? ==> r.error == Truncated
  {
    Word32At(img, Loc(c))
  }

  /** `pc()`: the position plus the slide, in 64 bits. */
  function Pc(c: Insn): bv64 {
    VAddr(c.pos, c.slide)
  }

  /** `type()` of the word under the cursor. */
  function Type(img: Image, c: Insn): (r: Result<Tag>)
    requires c.Valid()
    ensures r.Ok? <==> Loc(c) + 4 <= |img|
    ensures r.Err? ==> r.error == Truncated
  {
    var w :- Value(img, c);
    Ok(Classify(w))
  }

  /** `supertype()` of the word under the cursor. */
  function SupertypeAt(img: Image, c: Insn): (r: Result<Supertype>)
    requires c.Valid()
    ensures r.Ok? <==> Loc(c) + 4 <= |img|
    ensures r.Err? ==> r.error == Truncated
  {
    var t :- Type(img, c);
    Ok(SupertypeOf(t))
  }

  /** `imm()` of the word under the cursor, at the cursor's pc. */
  function Imm(img: Image, c: Insn): (r: Result<bv64>)
    requires c.Valid()
    ensures r.Err? ==> r.error in {Truncated, UnknownInstruction, NoSuchOperand}
    ensures r.Ok? <==> Type(img, c).Ok? && Type(img, c).value !in {Unknown, Ret}
    ensures SupertypeAt(img, c) == Ok(Branch) ==> r.Ok?
  {
    var w :- Value(img, c);
    ImmOf(w, Pc(c))
  }

  /** `rd()` of the word under the cursor. */
  function Rd(img: Image, c: Insn): (r: Result<nat>)
    requires c.Valid()
    ensures r.Ok? ==> r.value < 32
    ensures r.Ok? <==> Type(img, c).Ok? && Type(img, c).value in {Adrp, Add}
  {
    var w :- Value(img, c);
    RdOf(w)
  }

  /** `rn()` of the word under the cursor. */
  function Rn(img: Image, c: Insn): (r: Result<nat>)
    requires c.Valid()
    ensures r.Ok? ==> r.value < 32
    ensures r.Ok? <==> Type(img, c).Ok? && Type(img, c).value in {Add, Ret}
  {
    var w :- Value(img, c);
    RnOf(w)
  }

  /** `rt()` of the word under the cursor. */
  function Rt(img: Image, c: Insn): (r: Result<nat>)
    requires c.Valid()
    ensures r.Ok? ==> r.value < 32
    ensures r.Ok? <==> Type(img, c).Ok? && Type(img, c).value in {Cbz, Tbnz}
  {
    var w :- Value(img, c);
    RtOf(w)
  }

  /** With the little-endian bytes of `w` under the cursor, every reader decodes `w`. */
  lemma ReadersDecode(img: Image, c: Insn, w: bv32)
    requires c.Valid() && Loc(c) + 4 <= |img| && img[Loc(c)..Loc(c) + 4] == LE32(w)
    ensures Value(img, c) == Ok(w) && Type(img, c) == Ok(Classify(w))
    ensures SupertypeAt(img, c) == Ok(SupertypeOf(Classify(w)))
    ensures Imm(img, c) == ImmOf(w, Pc(c))
    ensures Rd(img, c) == RdOf(w) && Rn(img, c) == RnOf(w) && Rt(img, c) == RtOf(w)
  {
    Word32AtLE32(img, Loc(c), w);
  }
}
