/**
 Pattern search: the exact byte-sequence search the locators use to find
 their anchor strings, over every segment's file bytes in collection order.
 */
module Search {
  import opened Results
  import opened Bytes
  import opened MachO
  import opened A64

  const TWO64: int := 0x1_0000_0000_0000_0000

  /** A virtual address plus the slide, as the `uint64_t`/pointer arithmetic of the original computes it. */
  function VAddr(a: nat, slide: bv64): bv64 {
    Add64(Truncate64(a), slide)
  }

  /** `a` modulo 2^64, as a conversion to `uint64_t` keeps it. */
  function Truncate64(a: nat): bv64 {
    (a % TWO64) as bv64
  }

  /** `pat` occurs in `hay` at offset `k`. */
  predicate Occurs(hay: seq<bv8>, pat: seq<bv8>, k: nat) {
    k + |pat| <= |hay| && hay[k..k + |pat|] == pat
  }

  /** The C library `memmem`: the first offset at or after `from` where `pat` occurs in `hay`. */
  function IndexFrom(hay: seq<bv8>, pat: seq<bv8>, from: nat): (r: Option<nat>)
    ensures r.Some? ==>
      from <= r.value && Occurs(hay, pat, r.value) && forall k :: from <= k < r.value ==> !Occurs(hay, pat, k)
    ensures r.None? ==> forall k :: from <= k ==> !Occurs(hay, pat, k)
    decreases |hay| - from
  {
    if from + |pat| > |hay| then None
    else if hay[from..from + |pat|] == pat then Some(from)
    else IndexFrom(hay, pat, from + 1)
  }

  /** The file bytes of a segment (`map`, `size`), or `Truncated` if they leave the buffer. */
  function SegmentBytes(img: Image, s: Segment): (r: Result<seq<bv8>>)
    ensures r.Ok? <==> s.fileoff + s.size <= |img|
    ensures r.Ok? ==> |r.value| == s.size
    ensures r.Err? ==> r.error == Truncated
  {
    if s.fileoff + s.size <= |img| then Ok(img[s.fileoff..s.fileoff + s.size]) else Err(Truncated)
  }

  /** The segment's bytes are readable and do not contain `pat`. */
  ghost predicate Lacks(img: Image, s: Segment, pat: seq<bv8>) {
    SegmentBytes(img, s).Ok? && forall k :: !Occurs(SegmentBytes(img, s).value, pat, k)
  }

  /** Segment `j` is the first to contain `pat`, and `k` is the first offset of `pat` in it. */
  ghost predicate FirstHit(img: Image, segs: seq<Segment>, pat: seq<bv8>, j: nat, k: nat) {
    && j < |segs|
    && (forall i :: 0 <= i < j ==> Lacks(img, segs[i], pat))
    && SegmentBytes(img, segs[j]).Ok?
    && Occurs(SegmentBytes(img, segs[j]).value, pat, k)
    && forall k' :: 0 <= k' < k ==> !Occurs(SegmentBytes(img, segs[j]).value, pat, k')
  }

  /** The first (segment index, offset) hit of `pat` in the segments from `i` on. */
  function FindPatternFrom(img: Image, segs: seq<Segment>, pat: seq<bv8>, i: nat): (r: Result<Option<(nat, nat)>>)
    requires i <= |segs|
    requires forall j :: 0 <= j < i ==> Lacks(img, segs[j], pat)
    ensures r.Ok? && r.value.Some? ==> FirstHit(img, segs, pat, r.value.value.0, r.value.value.1)
    ensures r == Ok(None) <==> forall j :: i <= j < |segs| ==> Lacks(img, segs[j], pat)
    ensures r.Err? ==> r.error == Truncated
    decreases |segs| - i
  {
    if i == |segs| then Ok(None)
    else
      var hay :- SegmentBytes(img, segs[i]);
      match IndexFrom(hay, pat, 0)
      case Some(k) => Ok(Some((i, k)))
      case None => FindPatternFrom(img, segs, pat, i + 1)
  }

  /**
   `offsetfinder64::memmem`: the virtual address (slide included) of the first
   occurrence of `pat` in the first segment, in collection order, that holds
   it; 0 when no segment does. A hit never spans two segments.
   */
  function Memmem(img: Image, segs: seq<Segment>, slide: bv64, pat: seq<bv8>): (r: Result<bv64>)
    ensures r.Err? ==> r.error == Truncated
  {
    var hit :- FindPatternFrom(img, segs, pat, 0);
    match hit
    case Some((j, k)) => Ok(VAddr(segs[j].base + k, slide))
    case None => Ok(0)
  }

  /** No segment holds `pat`. */
  ghost predicate NoneHolds(img: Image, segs: seq<Segment>, pat: seq<bv8>) {
    forall j :: 0 <= j < |segs| ==> Lacks(img, segs[j], pat)
  }

  /** `memmem` yields 0 when no segment holds `pat`, and otherwise the slid address of the first hit. */
  lemma MemmemFirst(img: Image, segs: seq<Segment>, slide: bv64, pat: seq<bv8>)
    ensures NoneHolds(img, segs, pat) ==> Memmem(img, segs, slide, pat) == Ok(0)
    ensures Memmem(img, segs, slide, pat).Ok? && !NoneHolds(img, segs, pat) ==>
      exists j: nat, k: nat :: FirstHit(img, segs, pat, j, k) && Memmem(img, segs, slide, pat) == Ok(VAddr(segs[j].base + k, slide))
  {
    var hit := FindPatternFrom(img, segs, pat, 0);
    if hit.Ok? && hit.value.Some? {
      var (j, k) := hit.value.value;
      assert FirstHit(img, segs, pat, j, k);
    }
  }
}
