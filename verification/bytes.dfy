/**
 Little-endian field reads from the raw image buffer, the C string
 comparison the symbol and section lookups use, and helpers that turn
 ASCII text into byte patterns.
 */
module Bytes {
  import opened Results

  type Image = seq<bv8>

  /** The 32-bit little-endian word at `off`, or `Truncated` if it does not fit in the buffer. */
  function Word32At(img: Image, off: nat): (r: Result<bv32>)
    ensures r.Ok? <==> off + 4 <= |img|
    ensures r.Err? ==> r.error == Truncated
  {
    if off + 4 <= |img| then
      Ok((img[off] as bv32)
         | ((img[off + 1] as bv32) << 8)
         | ((img[off + 2] as bv32) << 16)
         | ((img[off + 3] as bv32) << 24))
    else Err(Truncated)
  }

  /** The 64-bit little-endian word at `off`: low half first. */
  function Word64At(img: Image, off: nat): (r: Result<bv64>)
    ensures r.Ok? <==> off + 8 <= |img|
    ensures r.Err? ==> r.error == Truncated
  {
    var lo :- Word32At(img, off);
    var hi :- Word32At(img, off + 4);
    Ok((lo as bv64) | ((hi as bv64) << 32))
  }

  /** A `uint32_t` field as a number. */
  function U32At(img: Image, off: nat): (r: Result<nat>)
    ensures r.Ok? <==> off + 4 <= |img|
    ensures r.Err? ==> r.error == Truncated
    ensures r.Ok? ==> r.value < 0x1_0000_0000
  {
    var w :- Word32At(img, off);
    Ok(w as nat)
  }

  /** A `uint64_t` field as a number. */
  function U64At(img: Image, off: nat): (r: Result<nat>)
    ensures r.Ok? <==> off + 8 <= |img|
    ensures r.Err? ==> r.error == Truncated
    ensures r.Ok? ==> r.value < 0x1_0000_0000_0000_0000
  {
    var w :- Word64At(img, off);
    Ok(w as nat)
  }

  /** The four bytes of `w` in memory order. */
  function LE32(w: bv32): (r: seq<bv8>)
    ensures |r| == 4
  {
    [(w & 0xFF) as bv8, ((w >> 8) & 0xFF) as bv8, ((w >> 16) & 0xFF) as bv8, (w >> 24) as bv8]
  }

  /** Reading a word back from its little-endian bytes, wherever they sit, gives the word. */
  lemma Word32AtLE32(img: Image, off: nat, w: bv32)
    requires off + 4 <= |img| && img[off..off + 4] == LE32(w)
    ensures Word32At(img, off) == Ok(w)
  {
    assert img[off] == LE32(w)[0] && img[off + 1] == LE32(w)[1];
    assert img[off + 2] == LE32(w)[2] && img[off + 3] == LE32(w)[3];
  }

  predicate NoNul(s: seq<bv8>) {
    forall i :: 0 <= i < |s| ==> s[i] != 0
  }

  /** The image holds the C string `name` at `off`: its bytes, then a terminating zero. */
  predicate CStringAt(img: Image, off: nat, name: seq<bv8>) {
    off + |name| < |img| && img[off..off + |name|] == name && img[off + |name|] == 0
  }

  /** Character `k` of the C string `name`: its bytes, then the terminator. */
  function CChar(name: seq<bv8>, k: nat): bv8
    requires k <= |name|
  {
    if k < |name| then name[k] else 0
  }

  /** The image and the C string `name` agree before character `k` and differ at it. */
  predicate DiffersAt(img: Image, off: nat, name: seq<bv8>, k: nat) {
    k <= |name| && off + k < |img| && img[off..off + k] == name[..k] && img[off + k] != CChar(name, k)
  }

  /**
   `strcmp(name, img + off) == 0`, comparing from character `k` on. Like
   `strcmp` it stops at the first difference or at the shared terminator,
   so it reads at most `|name| + 1` bytes; a read past the buffer is `Truncated`.
   */
  function StrEqFrom(img: Image, off: nat, name: seq<bv8>, k: nat): (r: Result<bool>)
    requires NoNul(name) && k <= |name|
    requires off + k <= |img| && img[off..off + k] == name[..k]
    ensures r == Ok(true) <==> CStringAt(img, off, name)
    ensures r.Err? ==> r.error == Truncated
    ensures r.Err? <==> (off + |name| >= |img| && img[off..|img|] == name[..|img| - off])
    ensures r == Ok(false) <==> exists j :: k <= j <= |name| && DiffersAt(img, off, name, j)
    decreases |name| - k
  {
    if off + k >= |img| then Err(Truncated)
    else
      var a := CChar(name, k);
      if a != img[off + k] then
        assert DiffersAt(img, off, name, k);
        Ok(false)
      else if k == |name| then Ok(true)
      else
        assert img[off..off + k + 1] == name[..k + 1] by {
          assert img[off..off + k + 1] == img[off..off + k] + [img[off + k]];
          assert name[..k + 1] == name[..k] + [name[k]];
        }
        StrEqFrom(img, off, name, k + 1)
  }

  /** `strcmp(name, img + off) == 0` for a C string `name`. */
  function StrEqAt(img: Image, off: nat, name: seq<bv8>): (r: Result<bool>)
    requires NoNul(name)
    ensures r == Ok(true) <==> CStringAt(img, off, name)
    ensures r.Err? ==> r.error == Truncated
    ensures r == Ok(false) <==> exists k :: 0 <= k <= |name| && DiffersAt(img, off, name, k)
  {
    if off > |img| then Err(Truncated) else StrEqFrom(img, off, name, 0)
  }

  /** The bytes of an ASCII literal, without a terminator (`sizeof(s) - 1` bytes). */
  function Ascii(s: string): (r: seq<bv8>)
    requires forall i :: 0 <= i < |s| ==> s[i] as int < 256
    ensures |r| == |s|
  {
    seq(|s|, i requires 0 <= i < |s| => s[i] as bv8)
  }
}
