/**
 * The glyph bookkeeping of a font texture (`CFontTexture`): the kerning
 * hash and its two caches, the glyph map with its de-duplication of glyphs
 * that share a face and glyph index, the loading of wanted characters with
 * fallback faces and a per-character failure count, and the flags and
 * bitmap merge that schedule an atlas texture update and upload.
 *
 * FreeType is a set of oracles fixed when the texture is made: the glyph
 * slot a (face, glyph index) renders to, the glyph index of a character in
 * a face, and the kerning of two glyph indices in a face. The faces that
 * fontconfig offers as replacements are an input sequence.
 */
module FontGlyphs {
  import opened Wrappers

  /** A `char32_t` code point. */
  type Char32 = c: int | 0 <= c < 0x1_0000_0000

  /** A FreeType face handle; glyphs come from the same face iff their handles are equal. */
  type FaceId = nat

  // ---------------------------------------------------------------------------
  // Kerning hash
  // ---------------------------------------------------------------------------

  /**
   * `GetKerningHash`: two ASCII characters pack into 14 bits as l * 2^7 + r;
   * any other pair packs as l * 2^32 + r. The bit fields never overlap, so
   * the bitwise or of the shifted left character with the right one is
   * their sum.
   */
  function KerningHash(l: Char32, r: Char32): (h: nat)
    ensures l < 128 && r < 128 ==> h < 16384
    ensures l >= 128 ==> h >= 0x80_0000_0000
    ensures h < 0x1_0000_0000_0000_0000
  {
    if l < 128 && r < 128 then l * 128 + r else l * 0x1_0000_0000 + r
  }

  /** On ASCII pairs the hash is injective. */
  lemma KerningHashAsciiInjective(l1: Char32, r1: Char32, l2: Char32, r2: Char32)
    requires l1 < 128 && r1 < 128 && l2 < 128 && r2 < 128
    ensures KerningHash(l1, r1) == KerningHash(l2, r2) <==> l1 == l2 && r1 == r2
  {
  }

  /** On pairs that are not both ASCII the hash is injective too. */
  lemma KerningHashWideInjective(l1: Char32, r1: Char32, l2: Char32, r2: Char32)
    requires !(l1 < 128 && r1 < 128) && !(l2 < 128 && r2 < 128)
    ensures KerningHash(l1, r1) == KerningHash(l2, r2) <==> l1 == l2 && r1 == r2
  {
  }

  /**
   * The only collisions: an ASCII pair (l, r) and the pair (0, l * 128 + r),
   * whose right character is at least 128. A left character of 128 or more
   * never collides with an ASCII pair.
   */
  lemma KerningHashCollisions(l1: Char32, r1: Char32, l2: Char32, r2: Char32)
    requires KerningHash(l1, r1) == KerningHash(l2, r2) && (l1 != l2 || r1 != r2)
    ensures (l1 < 128 && r1 < 128 && l2 == 0 && r2 == l1 * 128 + r1 && r2 >= 128)
         || (l2 < 128 && r2 < 128 && l1 == 0 && r1 == l2 * 128 + r2 && r1 >= 128)
  {
    if l1 < 128 && r1 < 128 && l2 < 128 && r2 < 128 {
      KerningHashAsciiInjective(l1, r1, l2, r2);
    } else if !(l1 < 128 && r1 < 128) && !(l2 < 128 && r2 < 128) {
      KerningHashWideInjective(l1, r1, l2, r2);
    }
  }

  /** A collision that occurs: the pair (1, 'H') and the pair (0, 200). */
  lemma KerningHashCollisionExample()
    ensures KerningHash(1, 72) == KerningHash(0, 200)
  {
  }

  // ---------------------------------------------------------------------------
  // Glyphs
  // ---------------------------------------------------------------------------

  datatype GlyphRect = GlyphRect(x: real, y: real, w: real, h: real)

  /** `GlyphInfo` without its atlas coordinates. */
  datatype GlyphInfo = GlyphInfo(letter: Char32, index: nat, face: FaceId, size: GlyphRect,
                                 advance: real, height: real, descender: real)

  /** What `FT_Load_Glyph` leaves in the face's glyph slot: metrics in font units and the bitmap's shape. */
  datatype GlyphSlot = GlyphSlot(bearingX: real, bearingY: real, width: real, height: real, advanceX: real,
                                 bitmapWidth: int, bitmapRows: int, grayPixels: bool, pitch: int)

  /**
   * The glyph `LoadGlyph` builds from a rendered slot: metrics scaled by
   * normScale, its box placed against the font's descender, and the advance
   * replaced by the width when it is zero and the width is positive.
   */
  function RenderedGlyph(slot: GlyphSlot, normScale: real, fontDescender: real,
                         f: FaceId, ch: Char32, index: nat): (g: GlyphInfo)
    ensures g.letter == ch && g.face == f && g.index == index
    ensures g.size.w > 0.0 ==> g.advance != 0.0
    ensures g.advance == slot.advanceX * normScale || g.advance == g.size.w
  {
    var xbearing := slot.bearingX * normScale;
    var ybearing := slot.bearingY * normScale;
    var size := GlyphRect(xbearing, ybearing - fontDescender, slot.width * normScale, -slot.height * normScale);
    var advance := slot.advanceX * normScale;
    var height := slot.height * normScale;
    GlyphInfo(ch, index, f, size, if advance == 0.0 && size.w > 0.0 then size.w else advance,
              height, ybearing - height)
  }

  /**
   * Renderings of the same (face, glyph index) differ only in their letter,
   * so a copy of one with its letter changed is the rendering for the new
   * letter.
   */
  lemma RenderedGlyphRelabel(slot: GlyphSlot, normScale: real, fontDescender: real,
                             f: FaceId, ch: Char32, other: Char32, index: nat)
    ensures RenderedGlyph(slot, normScale, fontDescender, f, other, index).(letter := ch)
         == RenderedGlyph(slot, normScale, fontDescender, f, ch, index)
  {
  }

  /** Whether `LoadGlyph` keeps the slot's bitmap for the atlas: a non-empty grey map whose pitch is its width. */
  predicate BitmapStored(slot: GlyphSlot) {
    slot.bitmapWidth > 0 && slot.bitmapRows > 0 && slot.grayPixels && slot.pitch == slot.bitmapWidth
  }

  /** Some glyph in `glyphs` has face f and glyph index `index`. */
  ghost predicate HasGlyphFor(glyphs: map<Char32, GlyphInfo>, f: FaceId, index: nat) {
    exists c :: c in glyphs && glyphs[c].face == f && glyphs[c].index == index
  }

  /** Every glyph that was in `before` is in `after`, unchanged. */
  ghost predicate Grows(before: map<Char32, GlyphInfo>, after: map<Char32, GlyphInfo>) {
    forall c :: c in before ==> c in after && after[c] == before[c]
  }

  // ---------------------------------------------------------------------------
  // Sorted character sequences
  // ---------------------------------------------------------------------------

  predicate Sorted(s: seq<Char32>) {
    forall i, j :: 0 <= i < j < |s| ==> s[i] <= s[j]
  }

  predicate StrictlySorted(s: seq<Char32>) {
    forall i, j :: 0 <= i < j < |s| ==> s[i] < s[j]
  }

  predicate Distinct(s: seq<Char32>) {
    forall i, j :: 0 <= i < j < |s| ==> s[i] != s[j]
  }

  /** `std::lower_bound`: the first position whose element is not below c. */
  function LowerBound(s: seq<Char32>, c: Char32): (i: nat)
    requires Sorted(s)
    ensures i <= |s|
    ensures forall j :: 0 <= j < i ==> s[j] < c
    ensures forall j :: i <= j < |s| ==> c <= s[j]
  {
    if s == [] || c <= s[0] then 0 else 1 + LowerBound(s[1..], c)
  }

  /** The test of `LoadWantedGlyphs` against the sorted non-printable characters. */
  predicate NonPrintable(ranges: seq<Char32>, c: Char32)
    requires Sorted(ranges)
  {
    var i := LowerBound(ranges, c);
    i < |ranges| && !(c < ranges[i])
  }

  /** The lower-bound test finds exactly the characters of the sequence. */
  lemma NonPrintableIff(ranges: seq<Char32>, c: Char32)
    requires Sorted(ranges)
    ensures NonPrintable(ranges, c) <==> c in ranges
  {
    if c in ranges {
      var j :| 0 <= j < |ranges| && ranges[j] == c;
      var i := LowerBound(ranges, c);
      assert i <= j;
      assert ranges[i] <= ranges[j];
    }
  }

  /** s with c inserted in order, unless it is there already. */
  function InsertUnique(s: seq<Char32>, c: Char32): (r: seq<Char32>)
    requires StrictlySorted(s)
    ensures StrictlySorted(r)
    ensures forall x :: x in r <==> x in s || x == c
  {
    if s == [] then [c]
    else if c < s[0] then [c] + s
    else if c == s[0] then s
    else
      var rest := InsertUnique(s[1..], c);
      assert forall x :: x in s[1..] ==> s[0] < x;
      ConsStrictlySorted(s[0], rest);
      [s[0]] + rest
  }

  /** A character below every element of a strictly sorted sequence can go in front. */
  lemma ConsStrictlySorted(a: Char32, s: seq<Char32>)
    requires StrictlySorted(s) && forall x :: x in s ==> a < x
    ensures StrictlySorted([a] + s)
  {
    var r := [a] + s;
    forall i, j | 0 <= i < j < |r| ensures r[i] < r[j] {
      assert r[j] == s[j - 1] && s[j - 1] in s;
      if i > 0 {
        assert r[i] == s[i - 1];
      }
    }
  }

  /** `spring::VectorSortUnique`: the characters of s in ascending order, each once. */
  function SortUnique(s: seq<Char32>): (r: seq<Char32>)
    ensures StrictlySorted(r)
    ensures forall x :: x in r <==> x in s
  {
    if s == [] then []
    else
      var init := SortUnique(s[..|s| - 1]);
      assert forall x :: x in s <==> x in s[..|s| - 1] || x == s[|s| - 1];
      InsertUnique(init, s[|s| - 1])
  }

  /** A strictly sorted sequence has no repeated element. */
  lemma StrictlySortedDistinct(s: seq<Char32>)
    requires StrictlySorted(s)
    ensures Distinct(s)
  {
  }

  /** `map[idx] = map.back(); map.pop_back();`: the last element takes slot i and the sequence shrinks by one. */
  function SwapRemove(s: seq<Char32>, i: nat): (r: seq<Char32>)
    requires i < |s|
    ensures |r| == |s| - 1
    ensures r[..i] == s[..i]
    ensures i < |r| ==> r[i] == s[|s| - 1]
    ensures i < |r| ==> r[i + 1..] == s[i + 1..|s| - 1]
  {
    s[i := s[|s| - 1]][..|s| - 1]
  }

  /** Swap-removing from a sequence without repeats drops exactly the element removed and keeps the rest distinct. */
  lemma SwapRemoveElements(s: seq<Char32>, i: nat)
    requires i < |s| && Distinct(s)
    ensures Distinct(SwapRemove(s, i))
    ensures forall x :: x in SwapRemove(s, i) <==> x in s && x != s[i]
  {
    var r := SwapRemove(s, i);
    forall x | x in s && x != s[i] ensures x in r {
      var j :| 0 <= j < |s| && s[j] == x;
      if j == |s| - 1 {
        assert r[i] == x;
      } else {
        assert r[j] == x;
      }
    }
    forall x | x in r ensures x in s && x != s[i] {
      var j :| 0 <= j < |r| && r[j] == x;
      var k := if j == i then |s| - 1 else j;
      assert s[k] == x && k != i;
    }
  }

  /** The merge of one 32-bit word of the shadow into the atlas. */
  function Or(a: bv32, b: bv32): bv32 { a | b }

  /**
   * The merge loop of `UpdateGlyphAtlasTexture`: or each of the first `size`
   * words of src into dst, in place; src is only read.
   */
  method OrMerge(dst: array<bv32>, src: array<bv32>, size: nat)
    requires dst != src && size <= dst.Length && size <= src.Length
    modifies dst
    ensures forall i :: 0 <= i < size ==> dst[i] == Or(old(dst[i]), src[i])
    ensures forall i :: size <= i < dst.Length ==> dst[i] == old(dst[i])
  {
    var i := 0;
    while i < size
      invariant 0 <= i <= size
      invariant forall j :: 0 <= j < i ==> dst[j] == Or(old(dst[j]), src[j])
      invariant forall j :: i <= j < dst.Length ==> dst[j] == old(dst[j])
    {
      dst[i] := Or(dst[i], src[i]);
      i := i + 1;
    }
  }

  /** A character's failure count: absent counts as zero, as `operator[]` inserts it. */
  function FailCount(failed: map<Char32, int>, c: Char32): int {
    if c in failed then failed[c] else 0
  }

  /** A character's entry in the failure counts, if it has one. */
  function CountOf(failed: map<Char32, int>, c: Char32): Option<int> {
    if c in failed then Some(failed[c]) else None
  }

  /** An entry after n more failures, each an `++failedAttemptsToReplace[c]`. */
  function Bumped(count: Option<int>, n: nat): Option<int> {
    if n == 0 then count else Some((if count.Some? then count.value else 0) + n)
  }

  /** Failures add up. */
  lemma BumpedTwice(count: Option<int>, m: nat, n: nat)
    ensures Bumped(Bumped(count, m), n) == Bumped(count, m + n)
  {
  }

  /** The 32-bit words of an 8-bit single-channel bitmap of x by y pixels. */
  function Words(x: nat, y: nat): nat {
    x * y / 4
  }

  // ---------------------------------------------------------------------------
  // The font texture
  // ---------------------------------------------------------------------------

  class FontTexture {
    /** The font's own face (`shFace`). */
    const shFace: FaceId
    /** `FT_Load_Glyph` followed by a read of the face's glyph slot. */
    const loadSlot: (FaceId, nat) -> GlyphSlot
    /** `FT_Get_Char_Index`: 0 when the face has no glyph for the character. */
    const charIndex: (FaceId, Char32) -> nat
    /** The x component of `FT_Get_Kerning` for two glyph indices of a face. */
    const faceKerning: (FaceId, nat, nat) -> real
    /** `FT_HAS_KERNING` of the font's own face. */
    const hasKerning: bool
    const normScale: real
    const fontDescender: real
    /** The configured number of fallback faces to try per character. */
    const maxFontTries: int
    /** The sorted characters that are never looked up in other faces. */
    const nonPrintableRanges: seq<Char32>
    /** The kerning table the constructor fills for ASCII pairs, indexed by hash. */
    const kerningPrecached: seq<real>
    const dummyGlyph: GlyphInfo

    var glyphs: map<Char32, GlyphInfo>
    var failedAttemptsToReplace: map<Char32, int>
    var kerningDynamic: map<nat, real>
    /** The characters whose bitmaps wait in `atlasGlyphs` for the atlas allocator, in order. */
    var atlasGlyphs: seq<Char32>
    var curTextureUpdate: nat
    var lastTextureUpdate: nat
    var needsTextureUpload: bool
    var texWidth: int
    var texHeight: int
    var wantedTexWidth: int
    var wantedTexHeight: int
    /** `atlasUpdate`: its size in pixels and its memory as 32-bit words. */
    var atlasXSize: nat
    var atlasYSize: nat
    var atlasMem: array<bv32>
    /** `atlasUpdateShadow`: likewise. */
    var shadowXSize: nat
    var shadowYSize: nat
    var shadowMem: array<bv32>

    /**
     * The glyph map is what loading produces: each entry is the rendering of
     * its own glyph index in its own face, labelled with its key. The
     * non-printable characters are sorted, as the lower-bound search needs.
     */
    ghost predicate GlyphsValid()
      reads this`glyphs
    {
      && Sorted(nonPrintableRanges)
      && forall c :: c in glyphs ==>
           glyphs[c] == RenderedGlyph(loadSlot(glyphs[c].face, glyphs[c].index), normScale, fontDescender,
                                      glyphs[c].face, c, glyphs[c].index)
    }

    /** The update counters never cross, and each bitmap's memory is its pixel count in words. */
    ghost predicate AtlasValid()
      reads this`lastTextureUpdate, this`curTextureUpdate, this`atlasXSize, this`atlasYSize, this`atlasMem,
            this`shadowXSize, this`shadowYSize, this`shadowMem
    {
      && lastTextureUpdate <= curTextureUpdate
      && atlasMem != shadowMem
      && atlasMem.Length == Words(atlasXSize, atlasYSize)
      && shadowMem.Length == Words(shadowXSize, shadowYSize)
    }

    /**
     * A texture with no glyphs, caches or failure counts yet, whose texture,
     * atlas bitmap and shadow bitmap are all 32 by 32, as the constructor's
     * `CreateTexture(32, 32)` leaves them.
     */
    constructor (shFace: FaceId, loadSlot: (FaceId, nat) -> GlyphSlot, charIndex: (FaceId, Char32) -> nat,
                 faceKerning: (FaceId, nat, nat) -> real, hasKerning: bool, normScale: real, fontDescender: real,
                 maxFontTries: int, nonPrintableRanges: seq<Char32>, kerningPrecached: seq<real>,
                 dummyGlyph: GlyphInfo)
      requires Sorted(nonPrintableRanges)
      ensures GlyphsValid() && AtlasValid()
      ensures this.shFace == shFace && this.loadSlot == loadSlot && this.charIndex == charIndex
      ensures this.faceKerning == faceKerning && this.hasKerning == hasKerning
      ensures this.normScale == normScale && this.fontDescender == fontDescender
      ensures this.maxFontTries == maxFontTries && this.nonPrintableRanges == nonPrintableRanges
      ensures this.kerningPrecached == kerningPrecached && this.dummyGlyph == dummyGlyph
      ensures glyphs == map[] && failedAttemptsToReplace == map[] && kerningDynamic == map[] && atlasGlyphs == []
      ensures curTextureUpdate == 0 && lastTextureUpdate == 0 && !needsTextureUpload
      ensures texWidth == 32 && texHeight == 32 && wantedTexWidth == 32 && wantedTexHeight == 32
      ensures atlasXSize == 32 && atlasYSize == 32 && shadowXSize == 32 && shadowYSize == 32
      ensures fresh(atlasMem) && fresh(shadowMem)
    {
      this.shFace := shFace;
      this.loadSlot := loadSlot;
      this.charIndex := charIndex;
      this.faceKerning := faceKerning;
      this.hasKerning := hasKerning;
      this.normScale := normScale;
      this.fontDescender := fontDescender;
      this.maxFontTries := maxFontTries;
      this.nonPrintableRanges := nonPrintableRanges;
      this.kerningPrecached := kerningPrecached;
      this.dummyGlyph := dummyGlyph;
      glyphs := map[];
      failedAttemptsToReplace := map[];
      kerningDynamic := map[];
      atlasGlyphs := [];
      curTextureUpdate := 0;
      lastTextureUpdate := 0;
      needsTextureUpload := false;
      texWidth, wantedTexWidth := 32, 32;
      texHeight, wantedTexHeight := 32, 32;
      atlasXSize := 32;
      atlasYSize := 32;
      atlasMem := new bv32[Words(32, 32)];
      shadowXSize := 32;
      shadowYSize := 32;
      shadowMem := new bv32[Words(32, 32)];
    }

    // -------------------------------------------------------------------------
    // Glyph lookup and kerning
    // -------------------------------------------------------------------------

    /** `CFontTexture::GetGlyph`: the stored glyph, or the dummy glyph; the map is only read. */
    function GetGlyph(ch: Char32): (g: GlyphInfo)
      reads this`glyphs
      ensures ch in glyphs ==> g == glyphs[ch]
      ensures ch !in glyphs ==> g == dummyGlyph
    {
      if ch in glyphs then glyphs[ch] else dummyGlyph
    }

    /** A stored glyph carries its own character and is the rendering of its face and index. */
    lemma GetGlyphRendered(ch: Char32)
      requires GlyphsValid() && ch in glyphs
      ensures var g := GetGlyph(ch);
        g.letter == ch && g == RenderedGlyph(loadSlot(g.face, g.index), normScale, fontDescender, g.face, ch, g.index)
    {
    }

    /**
     * The kerning `GetKerning` answers from its caches without asking
     * FreeType: the left advance when the font has no kerning, the
     * precached entry for a hash inside the table, or the dynamic entry.
     */
    function CachedKerning(lgl: GlyphInfo, rgl: GlyphInfo): Option<real>
      reads this`kerningDynamic
    {
      if !hasKerning then Some(lgl.advance)
      else
        var hash := KerningHash(lgl.letter, rgl.letter);
        if hash < |kerningPrecached| then Some(kerningPrecached[hash])
        else if hash in kerningDynamic then Some(kerningDynamic[hash])
        else None
    }

    /** The kerning computed on a cache miss: the left advance across faces, plus the scaled face kerning within one. */
    function FreshKerning(lgl: GlyphInfo, rgl: GlyphInfo): real {
      if lgl.face != rgl.face then lgl.advance
      else lgl.advance + normScale * faceKerning(lgl.face, lgl.index, rgl.index)
    }

    /**
     * `CFontTexture::GetKerning`: a cached answer is returned as it is and
     * nothing changes; a miss is computed, stored under the pair's hash and
     * returned. Either way the pair is cached afterwards, with the answer
     * given, so asking again gives the same answer.
     */
    method GetKerning(lgl: GlyphInfo, rgl: GlyphInfo) returns (k: real)
      modifies this`kerningDynamic
      ensures old(CachedKerning(lgl, rgl)).Some? ==>
        k == old(CachedKerning(lgl, rgl)).value && kerningDynamic == old(kerningDynamic)
      ensures old(CachedKerning(lgl, rgl)).None? ==>
        k == FreshKerning(lgl, rgl) && kerningDynamic == old(kerningDynamic)[KerningHash(lgl.letter, rgl.letter) := k]
      ensures CachedKerning(lgl, rgl) == Some(k)
    {
      if !hasKerning {
        return lgl.advance;
      }
      var hash := KerningHash(lgl.letter, rgl.letter);
      if hash < |kerningPrecached| {
        return kerningPrecached[hash];
      }
      if hash in kerningDynamic {
        return kerningDynamic[hash];
      }
      if lgl.face != rgl.face {
        k := lgl.advance;
        kerningDynamic := kerningDynamic[hash := k];
        return;
      }
      k := lgl.advance + normScale * faceKerning(lgl.face, lgl.index, rgl.index);
      kerningDynamic := kerningDynamic[hash := k];
    }

    // -------------------------------------------------------------------------
    // Loading glyphs
    // -------------------------------------------------------------------------

    /**
     * `CFontTexture::LoadGlyph`: nothing happens for a character that has a
     * glyph. Otherwise the character gets the rendering of `index` in face
     * f, copied with its letter changed from a glyph of the same face and
     * index when there is one, and only a freshly rendered glyph with a
     * usable bitmap queues that bitmap for the atlas.
     */
    method LoadGlyph(f: FaceId, ch: Char32, index: nat)
      requires GlyphsValid()
      modifies this`glyphs, this`atlasGlyphs
      ensures GlyphsValid() && Grows(old(glyphs), glyphs)
      ensures ch in old(glyphs) ==> glyphs == old(glyphs) && atlasGlyphs == old(atlasGlyphs)
      ensures ch !in old(glyphs) ==>
        glyphs == old(glyphs)[ch := RenderedGlyph(loadSlot(f, index), normScale, fontDescender, f, ch, index)]
      ensures ch !in old(glyphs) && HasGlyphFor(old(glyphs), f, index) ==> atlasGlyphs == old(atlasGlyphs)
      ensures ch !in old(glyphs) && !HasGlyphFor(old(glyphs), f, index) ==>
        atlasGlyphs == old(atlasGlyphs) + if BitmapStored(loadSlot(f, index)) then [ch] else []
    {
      if ch in glyphs {
        return;
      }
      if c :| c in glyphs && glyphs[c].index == index && glyphs[c].face == f {
        RenderedGlyphRelabel(loadSlot(f, index), normScale, fontDescender, f, ch, c, index);
        glyphs := glyphs[ch := glyphs[c].(letter := ch)];
        return;
      }
      var slot := loadSlot(f, index);
      glyphs := glyphs[ch := RenderedGlyph(slot, normScale, fontDescender, f, ch, index)];
      if slot.bitmapWidth <= 0 || slot.bitmapRows <= 0 {
        return;
      }
      if !slot.grayPixels {
        return;
      }
      if slot.pitch != slot.bitmapWidth {
        return;
      }
      atlasGlyphs := atlasGlyphs + [ch];
    }

    /** The character has used up its replacement attempts. */
    predicate Exhausted(failed: map<Char32, int>, c: Char32) {
      c in failed && failed[c] == maxFontTries
    }

    /** Some wanted character has attempts left and is printable: `LoadWantedGlyphs` goes on to the faces. */
    ghost predicate NeedsReplacement(wanted: seq<Char32>, failed: map<Char32, int>) {
      exists c :: c in wanted && !Exhausted(failed, c) && c !in nonPrintableRanges
    }

    /** The glyph face f gives character c: the rendering of c's glyph index in f. */
    function FaceGlyph(f: FaceId, c: Char32): (g: GlyphInfo)
      ensures g.letter == c && g.face == f && g.index == charIndex(f, c)
    {
      RenderedGlyph(loadSlot(f, charIndex(f, c)), normScale, fontDescender, f, c, charIndex(f, c))
    }

    /** The glyph a character gets when no face gives it one: glyph 0 of the font's own face. */
    function MissingGlyph(c: Char32): (g: GlyphInfo)
      ensures g.letter == c && g.face == shFace && g.index == 0
    {
      RenderedGlyph(loadSlot(shFace, 0), normScale, fontDescender, shFace, c, 0)
    }

    /**
     * The replacement search for one character, over the faces in the order
     * they are tried, from its failure count: a character that has used up
     * its attempts gets glyph 0 of the own face, one the face has gets that
     * face's glyph, and any other counts one more failure and goes on to the
     * next face. None when no face tried served it.
     */
    function Search(faces: seq<FaceId>, count: Option<int>, c: Char32): Option<GlyphInfo>
      decreases |faces|
    {
      if faces == [] then None
      else if count == Some(maxFontTries) then Some(MissingGlyph(c))
      else if charIndex(faces[0], c) != 0 then Some(FaceGlyph(faces[0], c))
      else Search(faces[1..], Bumped(count, 1), c)
    }

    /**
     * Trying one more face changes nothing for a character already served;
     * for one that is not, it is a search with that face alone, from the
     * count raised once for each face tried.
     */
    lemma {:induction false} SearchSnoc(faces: seq<FaceId>, f: FaceId, count: Option<int>, c: Char32)
      ensures Search(faces + [f], count, c)
           == if Search(faces, count, c).Some? then Search(faces, count, c) else Search([f], Bumped(count, |faces|), c)
    {
      if faces == [] {
        assert faces + [f] == [f];
      } else {
        assert (faces + [f])[1..] == faces[1..] + [f];
        if count != Some(maxFontTries) && charIndex(faces[0], c) == 0 {
          SearchSnoc(faces[1..], f, Bumped(count, 1), c);
          BumpedTwice(count, 1, |faces| - 1);
        }
      }
    }

    /**
     * No face serves a character exactly when every face tried lacks it and
     * its count reaches the maximum before none of them.
     */
    lemma {:induction false} SearchMisses(faces: seq<FaceId>, count: Option<int>, c: Char32)
      ensures Search(faces, count, c).None? <==>
        forall i :: 0 <= i < |faces| ==> Bumped(count, i) != Some(maxFontTries) && charIndex(faces[i], c) == 0
    {
      if faces != [] {
        SearchMisses(faces[1..], Bumped(count, 1), c);
        forall i | 1 <= i < |faces|
          ensures Bumped(Bumped(count, 1), i - 1) == Bumped(count, i) && faces[1..][i - 1] == faces[i]
        {
          BumpedTwice(count, 1, i - 1);
        }
        if Search(faces, count, c).None? {
          forall i | 0 <= i < |faces|
            ensures Bumped(count, i) != Some(maxFontTries) && charIndex(faces[i], c) == 0
          {
            if i > 0 {
              assert faces[1..][i - 1] == faces[i];
            }
          }
        } else if count != Some(maxFontTries) && charIndex(faces[0], c) == 0 {
          var j :| 0 <= j < |faces| - 1
            && !(Bumped(Bumped(count, 1), j) != Some(maxFontTries) && charIndex(faces[1..][j], c) == 0);
          assert !(Bumped(count, j + 1) != Some(maxFontTries) && charIndex(faces[j + 1], c) == 0);
        }
      }
    }

    /**
     * The faces before k that lack the character and find it with attempts
     * left are skipped: the search is decided at face k, or goes on past it.
     */
    lemma {:induction false} SearchSkips(faces: seq<FaceId>, count: Option<int>, c: Char32, k: nat)
      requires k < |faces|
      requires forall i :: 0 <= i < k ==> Bumped(count, i) != Some(maxFontTries) && charIndex(faces[i], c) == 0
      ensures Search(faces, count, c)
           == if Bumped(count, k) == Some(maxFontTries) then Some(MissingGlyph(c))
              else if charIndex(faces[k], c) != 0 then Some(FaceGlyph(faces[k], c))
              else Search(faces[k + 1..], Bumped(count, k + 1), c)
    {
      if k > 0 {
        forall i | 0 <= i < k - 1
          ensures Bumped(Bumped(count, 1), i) != Some(maxFontTries) && charIndex(faces[1..][i], c) == 0
        {
          BumpedTwice(count, 1, i);
        }
        SearchSkips(faces[1..], Bumped(count, 1), c, k - 1);
        BumpedTwice(count, 1, k - 1);
        BumpedTwice(count, 1, k);
        assert faces[1..][k - 1] == faces[k] && faces[1..][k..] == faces[k + 1..];
      }
    }

    /**
     * What the first loop of `LoadWantedGlyphs` has done once it has looked
     * at `wanted`, from glyphs0 and failed0 to glyphs and failed: `toLoad`
     * holds exactly the wanted printable characters with attempts left; each
     * wanted non-printable one with attempts left and no glyph now has glyph
     * 0 of the own face, and no other character gained a glyph; existing
     * failure counts are kept, and every wanted non-printable character has
     * one, the maximum when it is new.
     */
    ghost predicate Filtered(wanted: seq<Char32>, toLoad: seq<Char32>, glyphs0: map<Char32, GlyphInfo>,
                             failed0: map<Char32, int>, glyphs: map<Char32, GlyphInfo>, failed: map<Char32, int>)
    {
      && (forall c :: c in toLoad <==> c in wanted && !Exhausted(failed0, c) && c !in nonPrintableRanges)
      && FilteredGlyphs(wanted, glyphs0, failed0, glyphs)
      && FilteredCounts(wanted, failed0, failed)
    }

    ghost predicate FilteredGlyphs(wanted: seq<Char32>, glyphs0: map<Char32, GlyphInfo>, failed0: map<Char32, int>,
                                   glyphs: map<Char32, GlyphInfo>)
    {
      && Grows(glyphs0, glyphs)
      && (forall c :: (c in wanted && c in nonPrintableRanges && !Exhausted(failed0, c) && c !in glyphs0) ==>
            c in glyphs && glyphs[c] == MissingGlyph(c))
      && (forall c :: c in glyphs ==> c in glyphs0 || (c in wanted && c in nonPrintableRanges && !Exhausted(failed0, c)))
    }

    ghost predicate FilteredCounts(wanted: seq<Char32>, failed0: map<Char32, int>, failed: map<Char32, int>) {
      && (forall c :: c in failed0 ==> c in failed && failed[c] == failed0[c])
      && (forall c :: c in failed && c !in failed0 ==> c in wanted && c in nonPrintableRanges && failed[c] == maxFontTries)
      && (forall c :: c in wanted && c in nonPrintableRanges ==> c in failed)
    }

    /**
     * The first loop of `LoadWantedGlyphs`: skip characters that used up
     * their attempts, give each non-printable one glyph 0 of the font's own
     * face and the full failure count (an existing count is kept), and
     * collect the rest.
     */
    method FilterWanted(wanted: seq<Char32>) returns (toLoad: seq<Char32>)
      requires GlyphsValid()
      modifies this`glyphs, this`atlasGlyphs, this`failedAttemptsToReplace
      ensures GlyphsValid()
      ensures Filtered(wanted, toLoad, old(glyphs), old(failedAttemptsToReplace), glyphs, failedAttemptsToReplace)
      ensures atlasGlyphs == old(atlasGlyphs) + FilterQueue(wanted, old(glyphs), old(failedAttemptsToReplace))
    {
      ghost var glyphs0, failed0, queue0 := glyphs, failedAttemptsToReplace, atlasGlyphs;
      toLoad := [];
      var j := 0;
      while j < |wanted|
        invariant 0 <= j <= |wanted| && GlyphsValid()
        invariant Filtered(wanted[..j], toLoad, glyphs0, failed0, glyphs, failedAttemptsToReplace)
        invariant atlasGlyphs == queue0 + FilterQueue(wanted[..j], glyphs0, failed0)
      {
        var seen := wanted[..j];
        toLoad := FilterStep(seen, wanted[j], toLoad, glyphs0, failed0, queue0);
        assert wanted[..j + 1] == seen + [wanted[j]];
        j := j + 1;
      }
      assert wanted[..j] == wanted;
    }

    /** One character c of the first loop, after the characters `seen`: c is skipped, loaded as non-printable, or collected. */
    method FilterStep(seen: seq<Char32>, c: Char32, toLoad: seq<Char32>,
                      ghost glyphs0: map<Char32, GlyphInfo>, ghost failed0: map<Char32, int>, ghost queue0: seq<Char32>)
      returns (toLoad': seq<Char32>)
      requires GlyphsValid()
      requires Filtered(seen, toLoad, glyphs0, failed0, glyphs, failedAttemptsToReplace)
      requires atlasGlyphs == queue0 + FilterQueue(seen, glyphs0, failed0)
      modifies this`glyphs, this`atlasGlyphs, this`failedAttemptsToReplace
      ensures GlyphsValid()
      ensures Filtered(seen + [c], toLoad', glyphs0, failed0, glyphs, failedAttemptsToReplace)
      ensures atlasGlyphs == queue0 + FilterQueue(seen + [c], glyphs0, failed0)
    {
      toLoad' := toLoad;
      if !Exhausted(failedAttemptsToReplace, c) {
        NonPrintableIff(nonPrintableRanges, c);
        var it := LowerBound(nonPrintableRanges, c);
        if it < |nonPrintableRanges| && !(c < nonPrintableRanges[it]) {
          FilterLoad(seen, c, glyphs0, failed0, queue0);
        } else {
          toLoad' := toLoad + [c];
          FilterKeeps(seen, c, glyphs0, failed0, glyphs, failedAttemptsToReplace);
          FilterQueueKeeps(seen, c, glyphs0, failed0, glyphs, failedAttemptsToReplace);
        }
      } else {
        FilterKeeps(seen, c, glyphs0, failed0, glyphs, failedAttemptsToReplace);
        FilterQueueKeeps(seen, c, glyphs0, failed0, glyphs, failedAttemptsToReplace);
      }
    }

    /**
     * A non-printable character of the filter: load glyph 0 of the own face
     * for it and give it the full failure count when it has none.
     */
    method FilterLoad(seen: seq<Char32>, c: Char32, ghost glyphs0: map<Char32, GlyphInfo>, ghost failed0: map<Char32, int>,
                      ghost queue0: seq<Char32>)
      requires GlyphsValid() && c in nonPrintableRanges && !Exhausted(failedAttemptsToReplace, c)
      requires FilteredGlyphs(seen, glyphs0, failed0, glyphs) && FilteredCounts(seen, failed0, failedAttemptsToReplace)
      requires atlasGlyphs == queue0 + FilterQueue(seen, glyphs0, failed0)
      modifies this`glyphs, this`atlasGlyphs, this`failedAttemptsToReplace
      ensures GlyphsValid()
      ensures FilteredGlyphs(seen + [c], glyphs0, failed0, glyphs) && FilteredCounts(seen + [c], failed0, failedAttemptsToReplace)
      ensures atlasGlyphs == queue0 + FilterQueue(seen + [c], glyphs0, failed0)
    {
      ghost var glyphs1, failed1 := glyphs, failedAttemptsToReplace;
      FilterRender(seen, c, glyphs0, failed0, queue0);
      if c !in failedAttemptsToReplace {
        failedAttemptsToReplace := failedAttemptsToReplace[c := maxFontTries];
      }
      FilterNonPrintable(seen, c, glyphs0, failed0, glyphs1, failed1, glyphs, failedAttemptsToReplace);
    }

    /**
     * The `LoadGlyph(shFace, c, 0)` of the filter: the character gets glyph
     * 0 of the own face unless it has a glyph, and the queue grows as
     * `FilterQueue` says.
     */
    method FilterRender(seen: seq<Char32>, c: Char32, ghost glyphs0: map<Char32, GlyphInfo>, ghost failed0: map<Char32, int>,
                        ghost queue0: seq<Char32>)
      requires GlyphsValid() && c in nonPrintableRanges && !Exhausted(failedAttemptsToReplace, c)
      requires FilteredGlyphs(seen, glyphs0, failed0, glyphs) && FilteredCounts(seen, failed0, failedAttemptsToReplace)
      requires atlasGlyphs == queue0 + FilterQueue(seen, glyphs0, failed0)
      modifies this`glyphs, this`atlasGlyphs
      ensures GlyphsValid()
      ensures glyphs == if c in old(glyphs) then old(glyphs) else old(glyphs)[c := MissingGlyph(c)]
      ensures atlasGlyphs == queue0 + FilterQueue(seen + [c], glyphs0, failed0)
    {
      ghost var queue1 := atlasGlyphs;
      ghost var added: seq<Char32> :=
        if c in glyphs || HasGlyphFor(glyphs, shFace, 0) || !BitmapStored(loadSlot(shFace, 0)) then [] else [c];
      if c in glyphs {
        FilterQueueKeeps(seen, c, glyphs0, failed0, glyphs, failedAttemptsToReplace);
      } else {
        FilterQueueLoads(seen, c, glyphs0, failed0, glyphs, failedAttemptsToReplace);
      }
      assert FilterQueue(seen + [c], glyphs0, failed0) == FilterQueue(seen, glyphs0, failed0) + added;
      LoadGlyph(shFace, c, 0);
      assert atlasGlyphs == queue1 + added;
    }

    /** A character that is skipped or collected changes no glyph and no count. */
    lemma FilterKeeps(seen: seq<Char32>, c: Char32, glyphs0: map<Char32, GlyphInfo>, failed0: map<Char32, int>,
                      glyphs: map<Char32, GlyphInfo>, failed: map<Char32, int>)
      requires FilteredGlyphs(seen, glyphs0, failed0, glyphs) && FilteredCounts(seen, failed0, failed)
      requires Exhausted(failed, c) || c !in nonPrintableRanges
      ensures FilteredGlyphs(seen + [c], glyphs0, failed0, glyphs) && FilteredCounts(seen + [c], failed0, failed)
    {
      if c in nonPrintableRanges && !Exhausted(failed0, c) && c !in glyphs0 {
        assert c in seen;
      }
    }

    /** A non-printable character with attempts left gets glyph 0 of the own face and, when it had none, the full count. */
    lemma FilterNonPrintable(seen: seq<Char32>, c: Char32, glyphs0: map<Char32, GlyphInfo>, failed0: map<Char32, int>,
                             glyphs1: map<Char32, GlyphInfo>, failed1: map<Char32, int>,
                             glyphs2: map<Char32, GlyphInfo>, failed2: map<Char32, int>)
      requires FilteredGlyphs(seen, glyphs0, failed0, glyphs1) && FilteredCounts(seen, failed0, failed1)
      requires c in nonPrintableRanges && !Exhausted(failed1, c)
      requires glyphs2 == if c in glyphs1 then glyphs1 else glyphs1[c := MissingGlyph(c)]
      requires failed2 == if c in failed1 then failed1 else failed1[c := maxFontTries]
      ensures FilteredGlyphs(seen + [c], glyphs0, failed0, glyphs2) && FilteredCounts(seen + [c], failed0, failed2)
    {
    }

    /** A character the filter renders: non-printable, with attempts left and no glyph before the call. */
    ghost predicate NewNonPrintable(glyphs0: map<Char32, GlyphInfo>, failed0: map<Char32, int>, c: Char32) {
      c in nonPrintableRanges && !Exhausted(failed0, c) && c !in glyphs0
    }

    /** The first character of `s` the filter renders, if any. */
    ghost function FirstNew(s: seq<Char32>, glyphs0: map<Char32, GlyphInfo>, failed0: map<Char32, int>): (r: Option<Char32>)
      ensures r.Some? ==> r.value in s && NewNonPrintable(glyphs0, failed0, r.value)
      decreases |s|
    {
      if s == [] then None
      else if NewNonPrintable(glyphs0, failed0, s[0]) then Some(s[0])
      else FirstNew(s[1..], glyphs0, failed0)
    }

    /**
     * There is a first rendered character exactly when some character of
     * `s` is rendered, and it is the one at the earliest such position.
     */
    lemma {:induction false} FirstNewIff(s: seq<Char32>, glyphs0: map<Char32, GlyphInfo>, failed0: map<Char32, int>)
      ensures FirstNew(s, glyphs0, failed0).None? <==> forall i :: 0 <= i < |s| ==> !NewNonPrintable(glyphs0, failed0, s[i])
      ensures FirstNew(s, glyphs0, failed0).Some? ==>
        exists i :: 0 <= i < |s| && s[i] == FirstNew(s, glyphs0, failed0).value
          && forall k :: 0 <= k < i ==> !NewNonPrintable(glyphs0, failed0, s[k])
    {
      if s != [] && !NewNonPrintable(glyphs0, failed0, s[0]) {
        FirstNewIff(s[1..], glyphs0, failed0);
        if FirstNew(s, glyphs0, failed0).Some? {
          var i :| 0 <= i < |s[1..]| && s[1..][i] == FirstNew(s, glyphs0, failed0).value
            && forall k :: 0 <= k < i ==> !NewNonPrintable(glyphs0, failed0, s[1..][k]);
          assert forall k :: 1 <= k < |s| ==> s[k] == s[1..][k - 1];
          assert s[i + 1] == s[1..][i];
        } else {
          assert forall k :: 1 <= k < |s| ==> s[k] == s[1..][k - 1];
        }
      }
    }

    /** One more character: the first rendered one stays first, or the new one is first when it is rendered. */
    lemma {:induction false} FirstNewSnoc(s: seq<Char32>, c: Char32, glyphs0: map<Char32, GlyphInfo>, failed0: map<Char32, int>)
      ensures FirstNew(s + [c], glyphs0, failed0)
           == if FirstNew(s, glyphs0, failed0).Some? then FirstNew(s, glyphs0, failed0)
              else if NewNonPrintable(glyphs0, failed0, c) then Some(c) else None
    {
      if s == [] {
        assert [] + [c] == [c];
      } else {
        assert (s + [c])[1..] == s[1..] + [c];
        if !NewNonPrintable(glyphs0, failed0, s[0]) {
          FirstNewSnoc(s[1..], c, glyphs0, failed0);
        }
      }
    }

    /**
     * The bitmaps the filter over `s` queues for the atlas: every character
     * it renders gets glyph 0 of the own face, so only the first is rendered
     * afresh, and its bitmap is queued when no glyph of that face and index
     * was loaded before and the bitmap is one `LoadGlyph` keeps.
     */
    ghost function FilterQueue(s: seq<Char32>, glyphs0: map<Char32, GlyphInfo>, failed0: map<Char32, int>): (q: seq<Char32>)
      ensures |q| <= 1 && forall c :: c in q ==> c in s && NewNonPrintable(glyphs0, failed0, c)
    {
      var first := FirstNew(s, glyphs0, failed0);
      if first.Some? && !HasGlyphFor(glyphs0, shFace, 0) && BitmapStored(loadSlot(shFace, 0)) then [first.value] else []
    }

    /** A character the filter skips, collects or already has a glyph for queues nothing. */
    lemma FilterQueueKeeps(seen: seq<Char32>, c: Char32, glyphs0: map<Char32, GlyphInfo>, failed0: map<Char32, int>,
                           glyphs: map<Char32, GlyphInfo>, failed: map<Char32, int>)
      requires FilteredGlyphs(seen, glyphs0, failed0, glyphs) && FilteredCounts(seen, failed0, failed)
      requires Exhausted(failed, c) || c !in nonPrintableRanges || c in glyphs
      ensures FilterQueue(seen + [c], glyphs0, failed0) == FilterQueue(seen, glyphs0, failed0)
    {
      FirstNewSnoc(seen, c, glyphs0, failed0);
      FirstNewIff(seen, glyphs0, failed0);
    }

    /**
     * A character the filter renders queues its bitmap exactly when
     * `LoadGlyph` renders it afresh: when it is the first and no glyph of
     * the own face's index 0 was loaded before.
     */
    lemma FilterQueueLoads(seen: seq<Char32>, c: Char32, glyphs0: map<Char32, GlyphInfo>, failed0: map<Char32, int>,
                           glyphs: map<Char32, GlyphInfo>, failed: map<Char32, int>)
      requires FilteredGlyphs(seen, glyphs0, failed0, glyphs) && FilteredCounts(seen, failed0, failed)
      requires c in nonPrintableRanges && !Exhausted(failed, c) && c !in glyphs
      ensures FilterQueue(seen + [c], glyphs0, failed0)
           == FilterQueue(seen, glyphs0, failed0)
              + if HasGlyphFor(glyphs, shFace, 0) then [] else if BitmapStored(loadSlot(shFace, 0)) then [c] else []
    {
      FirstNewSnoc(seen, c, glyphs0, failed0);
      FirstNewIff(seen, glyphs0, failed0);
      assert NewNonPrintable(glyphs0, failed0, c);
      var first := FirstNew(seen, glyphs0, failed0);
      if first.Some? {
        assert glyphs[first.value].face == shFace && glyphs[first.value].index == 0;
      } else {
        assert forall k :: k in glyphs ==> k in glyphs0;
        assert HasGlyphFor(glyphs, shFace, 0) <==> HasGlyphFor(glyphs0, shFace, 0);
      }
    }

    /** The glyph one pass with face f gives a character it removes from the worklist. */
    function PassGlyph(f: FaceId, failed: map<Char32, int>, c: Char32): GlyphInfo {
      if Exhausted(failed, c) then MissingGlyph(c) else FaceGlyph(f, c)
    }

    /**
     * One pass of `LoadWantedGlyphs` over the pending characters with face
     * f. A character that used up its attempts gets glyph 0 of the font's
     * own face, one that f has gets f's glyph; both are swap-removed. Any
     * other has its failure count raised by one and stays. So what stays
     * are exactly the pending characters with attempts left that f lacks.
     */
    method ReplacePass(f: FaceId, pending: seq<Char32>) returns (left: seq<Char32>)
      requires GlyphsValid() && Distinct(pending)
      modifies this`glyphs, this`atlasGlyphs, this`failedAttemptsToReplace
      ensures GlyphsValid() && Grows(old(glyphs), glyphs)
      ensures Distinct(left) && |left| <= |pending| && forall c :: c in left ==> c in pending
      ensures forall c :: c in pending ==>
        (c in left <==> !Exhausted(old(failedAttemptsToReplace), c) && charIndex(f, c) == 0)
      ensures forall c :: c in pending && c !in left && c !in old(glyphs) ==>
        c in glyphs && glyphs[c] == PassGlyph(f, old(failedAttemptsToReplace), c)
      ensures forall c :: c in glyphs ==> c in old(glyphs) || (c in pending && c !in left)
      ensures forall c :: c in left ==>
        c in failedAttemptsToReplace && failedAttemptsToReplace[c] == FailCount(old(failedAttemptsToReplace), c) + 1
      ensures forall c :: c !in left ==>
        && (c in failedAttemptsToReplace <==> c in old(failedAttemptsToReplace))
        && (c in failedAttemptsToReplace ==> failedAttemptsToReplace[c] == old(failedAttemptsToReplace)[c])
    {
      left := pending;
      var idx := 0;
      while idx < |left|
        invariant PassState(f, pending, old(glyphs), old(failedAttemptsToReplace), left, idx)
        decreases |left| - idx
      {
        left, idx := ReplaceStep(f, left, idx, pending, old(glyphs), old(failedAttemptsToReplace));
      }
      assert left[..idx] == left;
    }

    /**
     * Where a pass with face f over `pending` stands, started from the glyphs
     * glyphs0 and the failure counts failed0: `left[..idx]` are the
     * characters f has no glyph for, each counted once more; the rest of
     * `left` is not yet looked at; every pending character not in `left`
     * was served, and has the glyph the pass gives it unless it had one.
     */
    ghost predicate PassState(f: FaceId, pending: seq<Char32>, glyphs0: map<Char32, GlyphInfo>,
                              failed0: map<Char32, int>, left: seq<Char32>, idx: int)
      reads this`glyphs, this`failedAttemptsToReplace
    {
      && 0 <= idx <= |left| <= |pending| && Distinct(left)
      && GlyphsValid() && Grows(glyphs0, glyphs)
      && (forall c :: c in left ==> c in pending)
      && (forall i :: 0 <= i < idx ==>
            && charIndex(f, left[i]) == 0 && !Exhausted(failed0, left[i])
            && left[i] in failedAttemptsToReplace
            && failedAttemptsToReplace[left[i]] == FailCount(failed0, left[i]) + 1)
      && (forall c :: c !in left[..idx] ==>
            && (c in failedAttemptsToReplace <==> c in failed0)
            && (c in failedAttemptsToReplace ==> failedAttemptsToReplace[c] == failed0[c]))
      && (forall c :: c in pending && c !in left ==>
            && (Exhausted(failed0, c) || charIndex(f, c) != 0)
            && c in glyphs && (c !in glyphs0 ==> glyphs[c] == PassGlyph(f, failed0, c)))
      && (forall c :: c in glyphs ==> c in glyphs0 || (c in pending && c !in left))
    }

    /** One step of the pass: swap-remove `left[idx]` when it gets a glyph, otherwise count a failure and move on. */
    method ReplaceStep(f: FaceId, left: seq<Char32>, idx: nat, ghost pending: seq<Char32>,
                       ghost glyphs0: map<Char32, GlyphInfo>, ghost failed0: map<Char32, int>)
      returns (left': seq<Char32>, idx': nat)
      requires PassState(f, pending, glyphs0, failed0, left, idx) && idx < |left|
      modifies this`glyphs, this`atlasGlyphs, this`failedAttemptsToReplace
      ensures PassState(f, pending, glyphs0, failed0, left', idx')
      ensures |left'| - idx' < |left| - idx
    {
      var c := left[idx];
      assert c !in left[..idx];
      if Exhausted(failedAttemptsToReplace, c) {
        left', idx' := Serve(f, shFace, 0, left, idx, pending, glyphs0, failed0);
      } else {
        var index := charIndex(f, c);
        if index != 0 {
          left', idx' := Serve(f, f, index, left, idx, pending, glyphs0, failed0);
        } else {
          left', idx' := CountFailure(f, left, idx, pending, glyphs0, failed0);
        }
      }
    }

    /** A served character: load glyph `index` of `face` for `left[idx]`, the glyph the pass gives it, and swap-remove it. */
    method Serve(f: FaceId, face: FaceId, index: nat, left: seq<Char32>, idx: nat, ghost pending: seq<Char32>,
                 ghost glyphs0: map<Char32, GlyphInfo>, ghost failed0: map<Char32, int>)
      returns (left': seq<Char32>, idx': nat)
      requires PassState(f, pending, glyphs0, failed0, left, idx) && idx < |left|
      requires Exhausted(failed0, left[idx]) || charIndex(f, left[idx]) != 0
      requires RenderedGlyph(loadSlot(face, index), normScale, fontDescender, face, left[idx], index)
            == PassGlyph(f, failed0, left[idx])
      modifies this`glyphs, this`atlasGlyphs
      ensures PassState(f, pending, glyphs0, failed0, left', idx')
      ensures |left'| - idx' < |left| - idx
    {
      var c := left[idx];
      assert c !in left[..idx];
      LoadGlyph(face, c, index);
      SwapRemoveElements(left, idx);
      left', idx' := SwapRemove(left, idx), idx;
      assert left'[..idx'] == left[..idx];
    }

    /** A character f lacks: count one more failure for `left[idx]` and move past it. */
    method CountFailure(f: FaceId, left: seq<Char32>, idx: nat, ghost pending: seq<Char32>,
                        ghost glyphs0: map<Char32, GlyphInfo>, ghost failed0: map<Char32, int>)
      returns (left': seq<Char32>, idx': nat)
      requires PassState(f, pending, glyphs0, failed0, left, idx) && idx < |left|
      requires !Exhausted(failed0, left[idx]) && charIndex(f, left[idx]) == 0
      modifies this`failedAttemptsToReplace
      ensures PassState(f, pending, glyphs0, failed0, left', idx')
      ensures |left'| - idx' < |left| - idx
    {
      var c := left[idx];
      assert c !in left[..idx];
      assert left[..idx + 1] == left[..idx] + [c];
      failedAttemptsToReplace := failedAttemptsToReplace[c := FailCount(failedAttemptsToReplace, c) + 1];
      left', idx' := left, idx + 1;
    }

    /**
     * Where the replacement passes stand after the faces `tried`, started
     * from glyphs0 and failed0, with the glyph map and failure counts now in
     * glyphs and failed. The font texture's own state is `Searched`.
     */
    ghost predicate Searched(pending: seq<Char32>, tried: seq<FaceId>, glyphs0: map<Char32, GlyphInfo>,
                             failed0: map<Char32, int>, left: seq<Char32>)
      reads this`glyphs, this`failedAttemptsToReplace
    {
      && GlyphsValid()
      && SearchedMembers(pending, tried, failed0, left)
      && SearchedGlyphs(pending, tried, glyphs0, failed0, left, glyphs)
      && SearchedCounts(pending, tried, failed0, left, failedAttemptsToReplace)
    }

    /** A pending character is left exactly when the search over the faces tried served it nowhere. */
    ghost predicate SearchedMembers(pending: seq<Char32>, tried: seq<FaceId>, failed0: map<Char32, int>,
                                    left: seq<Char32>)
    {
      && Distinct(left)
      && (forall c :: c in left ==> c in pending)
      && (forall c :: c in pending ==> (c in left <==> Search(tried, CountOf(failed0, c), c).None?))
    }

    /**
     * Loaded glyphs stay; a served character that had no glyph has the one
     * the search gives; only served characters gain a glyph.
     */
    ghost predicate SearchedGlyphs(pending: seq<Char32>, tried: seq<FaceId>, glyphs0: map<Char32, GlyphInfo>,
                                   failed0: map<Char32, int>, left: seq<Char32>, glyphs: map<Char32, GlyphInfo>)
    {
      && Grows(glyphs0, glyphs)
      && (forall c :: c in pending && c !in left && c !in glyphs0 ==>
            c in glyphs && Some(glyphs[c]) == Search(tried, CountOf(failed0, c), c))
      && (forall c :: c in glyphs ==> c in glyphs0 || (c in pending && c !in left))
    }

    /**
     * A character left has a failure count raised once per face tried; the
     * counts of characters not pending are untouched, and no count drops.
     */
    ghost predicate SearchedCounts(pending: seq<Char32>, tried: seq<FaceId>, failed0: map<Char32, int>,
                                   left: seq<Char32>, failed: map<Char32, int>)
    {
      && (forall c :: c in left ==> CountOf(failed, c) == Bumped(CountOf(failed0, c), |tried|))
      && (forall c :: c !in pending ==> CountOf(failed, c) == CountOf(failed0, c))
      && (forall c :: c in failed0 ==> c in failed && failed[c] >= failed0[c])
    }

    /** Before any face is tried every pending character is left and nothing has changed. */
    lemma SearchedStart(pending: seq<Char32>, glyphs0: map<Char32, GlyphInfo>, failed0: map<Char32, int>)
      requires Distinct(pending)
      ensures SearchedMembers(pending, [], failed0, pending)
      ensures SearchedGlyphs(pending, [], glyphs0, failed0, pending, glyphs0)
      ensures SearchedCounts(pending, [], failed0, pending, failed0)
    {
    }

    /** The membership part of what `ReplacePass(f, pending)` ensures, from the counts failed1. */
    ghost predicate PassMembers(f: FaceId, pending: seq<Char32>, failed1: map<Char32, int>, left: seq<Char32>) {
      && Distinct(left) && (forall c :: c in left ==> c in pending)
      && (forall c :: c in pending ==> (c in left <==> !Exhausted(failed1, c) && charIndex(f, c) == 0))
    }

    /** The glyph part of what `ReplacePass(f, pending)` ensures, from glyphs1 and failed1 to glyphs2. */
    ghost predicate PassGlyphs(f: FaceId, pending: seq<Char32>, glyphs1: map<Char32, GlyphInfo>,
                               failed1: map<Char32, int>, left: seq<Char32>, glyphs2: map<Char32, GlyphInfo>)
    {
      && Grows(glyphs1, glyphs2)
      && (forall c :: c in pending && c !in left && c !in glyphs1 ==>
            c in glyphs2 && glyphs2[c] == PassGlyph(f, failed1, c))
      && (forall c :: c in glyphs2 ==> c in glyphs1 || (c in pending && c !in left))
    }

    /** The count part of what `ReplacePass(f, pending)` ensures, from failed1 to failed2. */
    ghost predicate PassCounts(left: seq<Char32>, failed1: map<Char32, int>, failed2: map<Char32, int>) {
      && (forall c :: c in left ==> c in failed2 && failed2[c] == FailCount(failed1, c) + 1)
      && (forall c :: c !in left ==>
            && (c in failed2 <==> c in failed1)
            && (c in failed2 ==> failed2[c] == failed1[c]))
    }

    /** A pass with face f after the faces `tried` leaves exactly what the search over one face more leaves. */
    lemma MembersStep(pending: seq<Char32>, tried: seq<FaceId>, f: FaceId, failed0: map<Char32, int>,
                      left: seq<Char32>, failed1: map<Char32, int>, left': seq<Char32>)
      requires SearchedMembers(pending, tried, failed0, left) && SearchedCounts(pending, tried, failed0, left, failed1)
      requires PassMembers(f, left, failed1, left')
      ensures SearchedMembers(pending, tried + [f], failed0, left')
    {
      forall c | c in pending
        ensures c in left' <==> Search(tried + [f], CountOf(failed0, c), c).None?
      {
        SearchSnoc(tried, f, CountOf(failed0, c), c);
        assert [f][1..] == [];
      }
    }

    /** A character the pass serves gets the glyph the search over one face more gives. */
    lemma GlyphsStep(pending: seq<Char32>, tried: seq<FaceId>, f: FaceId, glyphs0: map<Char32, GlyphInfo>,
                     failed0: map<Char32, int>, left: seq<Char32>, glyphs1: map<Char32, GlyphInfo>,
                     failed1: map<Char32, int>, left': seq<Char32>, glyphs2: map<Char32, GlyphInfo>)
      requires SearchedMembers(pending, tried, failed0, left) && SearchedCounts(pending, tried, failed0, left, failed1)
      requires SearchedGlyphs(pending, tried, glyphs0, failed0, left, glyphs1)
      requires PassMembers(f, left, failed1, left') && PassGlyphs(f, left, glyphs1, failed1, left', glyphs2)
      ensures SearchedGlyphs(pending, tried + [f], glyphs0, failed0, left', glyphs2)
    {
      forall c | c in pending && c !in left' && c !in glyphs0
        ensures c in glyphs2 && Some(glyphs2[c]) == Search(tried + [f], CountOf(failed0, c), c)
      {
        SearchSnoc(tried, f, CountOf(failed0, c), c);
        if c in left {
          assert [f][1..] == [];
          assert c !in glyphs1;
        }
      }
    }

    /** The counts of the characters still left are raised once more. */
    lemma CountsStep(pending: seq<Char32>, tried: seq<FaceId>, f: FaceId, failed0: map<Char32, int>,
                     left: seq<Char32>, failed1: map<Char32, int>, left': seq<Char32>, failed2: map<Char32, int>)
      requires SearchedMembers(pending, tried, failed0, left) && SearchedCounts(pending, tried, failed0, left, failed1)
      requires PassMembers(f, left, failed1, left') && PassCounts(left', failed1, failed2)
      ensures SearchedCounts(pending, tried + [f], failed0, left', failed2)
    {
      forall c | c in left'
        ensures CountOf(failed2, c) == Bumped(CountOf(failed0, c), |tried| + 1)
      {
        BumpedTwice(CountOf(failed0, c), |tried|, 1);
      }
    }

    /** One face more: a pass of face f over what is left extends the search by f. */
    method NextFace(f: FaceId, left: seq<Char32>, ghost pending: seq<Char32>, ghost tried: seq<FaceId>,
                    ghost glyphs0: map<Char32, GlyphInfo>, ghost failed0: map<Char32, int>)
      returns (left': seq<Char32>)
      requires Searched(pending, tried, glyphs0, failed0, left)
      modifies this`glyphs, this`atlasGlyphs, this`failedAttemptsToReplace
      ensures Searched(pending, tried + [f], glyphs0, failed0, left')
    {
      ghost var glyphs1, failed1 := glyphs, failedAttemptsToReplace;
      left' := ReplacePass(f, left);
      assert PassMembers(f, left, failed1, left');
      assert PassGlyphs(f, left, glyphs1, failed1, left', glyphs);
      assert PassCounts(left', failed1, failedAttemptsToReplace);
      MembersStep(pending, tried, f, failed0, left, failed1, left');
      GlyphsStep(pending, tried, f, glyphs0, failed0, left, glyphs1, failed1, left', glyphs);
      CountsStep(pending, tried, f, failed0, left, failed1, left', failedAttemptsToReplace);
    }

    /** The last loop of `LoadWantedGlyphs`: every character no face had gets glyph 0 of the font's own face. */
    method LoadLeftovers(left: seq<Char32>)
      requires GlyphsValid()
      modifies this`glyphs, this`atlasGlyphs
      ensures GlyphsValid() && Grows(old(glyphs), glyphs)
      ensures forall c :: c in left ==> c in glyphs
      ensures forall c :: c in left && c !in old(glyphs) ==> glyphs[c] == MissingGlyph(c)
      ensures forall c :: c in glyphs ==> c in old(glyphs) || c in left
    {
      var j := 0;
      while j < |left|
        invariant 0 <= j <= |left|
        invariant GlyphsValid() && Grows(old(glyphs), glyphs)
        invariant forall c :: c in left[..j] ==> c in glyphs
        invariant forall c :: c in left[..j] && c !in old(glyphs) ==> glyphs[c] == MissingGlyph(c)
        invariant forall c :: c in glyphs ==> c in old(glyphs) || c in left[..j]
      {
        assert left[..j + 1] == left[..j] + [left[j]];
        LoadGlyph(shFace, left[j], 0);
        j := j + 1;
      }
      assert left[..j] == left;
    }

    /**
     * The do-while loop of `LoadWantedGlyphs`: a pass with the font's own
     * face, then one with each replacement face in turn, until no character
     * is left or no face is. `tried` is the faces it tried, the own face
     * first; it runs out of faces whenever characters are left. A pending
     * character is left exactly when the search over those faces serves it
     * nowhere, and then has a failure counted for each of them; a served one
     * has the glyph the search gives.
     */
    method TryFaces(pending: seq<Char32>, fallbacks: seq<FaceId>) returns (left: seq<Char32>, ghost tried: seq<FaceId>)
      requires GlyphsValid() && Distinct(pending)
      modifies this`glyphs, this`atlasGlyphs, this`failedAttemptsToReplace
      ensures 1 <= |tried| <= |fallbacks| + 1 && tried == [shFace] + fallbacks[..|tried| - 1]
      ensures |left| != 0 ==> |tried| == |fallbacks| + 1
      ensures Searched(pending, tried, old(glyphs), old(failedAttemptsToReplace), left)
    {
      ghost var glyphs0, failed0 := glyphs, failedAttemptsToReplace;
      SearchedStart(pending, glyphs0, failed0);
      TriedNext(shFace, fallbacks, -1);
      left := NextFace(shFace, pending, pending, [], glyphs0, failed0);
      var next := 0;
      while |left| != 0 && next < |fallbacks|
        invariant next <= |fallbacks|
        invariant Searched(pending, [shFace] + fallbacks[..next], glyphs0, failed0, left)
        decreases |fallbacks| - next
      {
        TriedNext(shFace, fallbacks, next);
        left := NextFace(fallbacks[next], left, pending, [shFace] + fallbacks[..next], glyphs0, failed0);
        next := next + 1;
      }
      tried := [shFace] + fallbacks[..next];
    }

    /** The faces tried after the next one: the own face, then fallbacks up to and including the next. */
    static lemma TriedNext(own: FaceId, fallbacks: seq<FaceId>, next: int)
      requires -1 <= next < |fallbacks|
      ensures next == -1 ==> [] + [own] == [own] + fallbacks[..0]
      ensures 0 <= next ==> ([own] + fallbacks[..next]) + [fallbacks[next]] == [own] + fallbacks[..next + 1]
      ensures |[own] + fallbacks[..next + 1]| == next + 2
    {
      if 0 <= next {
        assert fallbacks[..next + 1] == fallbacks[..next] + [fallbacks[next]];
      }
    }

    /**
     * The glyph `LoadWantedGlyphs` gives a wanted character with attempts
     * left and no glyph, with `tried` the faces it tried: glyph 0 of the own
     * face for a non-printable character or one no face served, otherwise
     * the glyph the search over the faces gives.
     */
    function ChosenGlyph(tried: seq<FaceId>, failed0: map<Char32, int>, c: Char32): GlyphInfo {
      if c in nonPrintableRanges then MissingGlyph(c)
      else
        var found := Search(tried, CountOf(failed0, c), c);
        if found.Some? then found.value else MissingGlyph(c)
    }

    /**
     * What `LoadWantedGlyphs(wanted)` leaves in the glyph map, from glyphs0
     * and failed0 to glyphs, with `tried` the faces it tried: loaded glyphs
     * stay, only wanted characters gain a glyph, one that had used up its
     * attempts gains none, and any other gains `ChosenGlyph`.
     */
    ghost predicate WantedLoaded(wanted: seq<Char32>, tried: seq<FaceId>, glyphs0: map<Char32, GlyphInfo>,
                                 failed0: map<Char32, int>, glyphs: map<Char32, GlyphInfo>)
    {
      && Grows(glyphs0, glyphs)
      && (forall c :: c in glyphs ==> c in glyphs0 || c in wanted)
      && (forall c :: c in wanted && c !in glyphs0 ==>
            if Exhausted(failed0, c) then c !in glyphs else c in glyphs && glyphs[c] == ChosenGlyph(tried, failed0, c))
    }

    /**
     * The failure counts it leaves, from failed0 to failed: none drops;
     * characters not wanted, and those that had used up their attempts, keep
     * theirs; a non-printable character keeps its count or gets the maximum;
     * a printable character no face served counts one failure for each face
     * tried.
     */
    ghost predicate WantedCounted(wanted: seq<Char32>, tried: seq<FaceId>, failed0: map<Char32, int>,
                                  failed: map<Char32, int>)
    {
      && (forall c :: c in failed0 ==> c in failed && failed[c] >= failed0[c])
      && (forall c :: c !in wanted || Exhausted(failed0, c) ==> CountOf(failed, c) == CountOf(failed0, c))
      && (forall c :: c in wanted && c in nonPrintableRanges && !Exhausted(failed0, c) ==>
            CountOf(failed, c) == if c in failed0 then CountOf(failed0, c) else Some(maxFontTries))
      && (forall c :: c in wanted && c !in nonPrintableRanges && !Exhausted(failed0, c)
                      && Search(tried, CountOf(failed0, c), c).None? ==>
            CountOf(failed, c) == Bumped(CountOf(failed0, c), |tried|))
    }

    /** What `LoadLeftovers(left)` ensures, from glyphs0 to glyphs. */
    ghost predicate LeftoversLoaded(left: seq<Char32>, glyphs0: map<Char32, GlyphInfo>, glyphs: map<Char32, GlyphInfo>) {
      && Grows(glyphs0, glyphs)
      && (forall c :: c in left ==> c in glyphs)
      && (forall c :: c in left && c !in glyphs0 ==> glyphs[c] == MissingGlyph(c))
      && (forall c :: c in glyphs ==> c in glyphs0 || c in left)
    }

    /**
     * The three stages of `LoadWantedGlyphs` together: the filter from
     * glyphs0 and failed0 to glyphs1 and failed1, the replacement passes over
     * `pending`, which has the characters of `toLoad`, to glyphs2 and
     * failed2, and the leftovers to glyphs3 leave what `FacesLoaded`
     * describes.
     */
    lemma LoadComposed(wanted: seq<Char32>, fallbacks: seq<FaceId>, toLoad: seq<Char32>, pending: seq<Char32>,
                       tried: seq<FaceId>, glyphs0: map<Char32, GlyphInfo>, failed0: map<Char32, int>,
                       glyphs1: map<Char32, GlyphInfo>, failed1: map<Char32, int>, left: seq<Char32>,
                       glyphs2: map<Char32, GlyphInfo>, failed2: map<Char32, int>, glyphs3: map<Char32, GlyphInfo>)
      requires Filtered(wanted, toLoad, glyphs0, failed0, glyphs1, failed1)
      requires forall c :: c in pending <==> c in toLoad
      requires SearchedMembers(pending, tried, failed1, left)
      requires SearchedGlyphs(pending, tried, glyphs1, failed1, left, glyphs2)
      requires SearchedCounts(pending, tried, failed1, left, failed2)
      requires LeftoversLoaded(left, glyphs2, glyphs3)
      requires |toLoad| != 0 ==> 1 <= |tried| <= |fallbacks| + 1 && tried == [shFace] + fallbacks[..|tried| - 1]
      requires |left| != 0 ==> |tried| == |fallbacks| + 1
      ensures FacesLoaded(wanted, fallbacks, tried, glyphs0, failed0, glyphs3, failed2)
    {
      FilteredNeeds(wanted, toLoad, glyphs0, failed0, glyphs1, failed1);
      LoadedComposed(wanted, toLoad, pending, tried, glyphs0, failed0, glyphs1, failed1, left, glyphs2, glyphs3);
      CountedComposed(wanted, toLoad, pending, tried, glyphs0, failed0, glyphs1, failed1, left, failed2);
    }

    /** The glyph half of `LoadComposed`. */
    lemma LoadedComposed(wanted: seq<Char32>, toLoad: seq<Char32>, pending: seq<Char32>, tried: seq<FaceId>,
                         glyphs0: map<Char32, GlyphInfo>, failed0: map<Char32, int>,
                         glyphs1: map<Char32, GlyphInfo>, failed1: map<Char32, int>, left: seq<Char32>,
                         glyphs2: map<Char32, GlyphInfo>, glyphs3: map<Char32, GlyphInfo>)
      requires Filtered(wanted, toLoad, glyphs0, failed0, glyphs1, failed1)
      requires forall c :: c in pending <==> c in toLoad
      requires SearchedMembers(pending, tried, failed1, left)
      requires SearchedGlyphs(pending, tried, glyphs1, failed1, left, glyphs2)
      requires LeftoversLoaded(left, glyphs2, glyphs3)
      ensures WantedLoaded(wanted, tried, glyphs0, failed0, glyphs3)
    {
      // the filter counts only non-printable characters, so a pending character's count is where it started
      assert forall c :: c in pending ==> CountOf(failed1, c) == CountOf(failed0, c);
      forall c | c in wanted && c !in glyphs0
        ensures if Exhausted(failed0, c) then c !in glyphs3 else c in glyphs3 && glyphs3[c] == ChosenGlyph(tried, failed0, c)
      {
        if !Exhausted(failed0, c) && c !in nonPrintableRanges {
          assert c in pending && c !in glyphs1;
        }
      }
    }

    /** The failure-count half of `LoadComposed`, with a character no face served among those left. */
    lemma CountedComposed(wanted: seq<Char32>, toLoad: seq<Char32>, pending: seq<Char32>, tried: seq<FaceId>,
                          glyphs0: map<Char32, GlyphInfo>, failed0: map<Char32, int>,
                          glyphs1: map<Char32, GlyphInfo>, failed1: map<Char32, int>, left: seq<Char32>,
                          failed2: map<Char32, int>)
      requires Filtered(wanted, toLoad, glyphs0, failed0, glyphs1, failed1)
      requires forall c :: c in pending <==> c in toLoad
      requires SearchedMembers(pending, tried, failed1, left)
      requires SearchedCounts(pending, tried, failed1, left, failed2)
      ensures WantedCounted(wanted, tried, failed0, failed2)
      ensures forall c :: (c in wanted && !Exhausted(failed0, c) && c !in nonPrintableRanges
                           && Search(tried, CountOf(failed0, c), c).None?) ==> c in left
    {
      assert forall c :: c in pending ==> CountOf(failed1, c) == CountOf(failed0, c);
    }

    /**
     * After a load that went to the faces: an update is due, the queued
     * bitmaps are taken, and the texture, the atlas bitmap and the shadow
     * bitmap are to have the size the atlas allocator reports.
     */
    ghost predicate AtlasReadBack(width: nat, height: nat)
      reads this`curTextureUpdate, this`lastTextureUpdate, this`atlasGlyphs, this`wantedTexWidth,
            this`wantedTexHeight, this`atlasXSize, this`atlasYSize, this`shadowXSize, this`shadowYSize
    {
      && GlyphAtlasTextureNeedsUpdate() && atlasGlyphs == []
      && wantedTexWidth == width && wantedTexHeight == height
      && atlasXSize == width && atlasYSize == height && shadowXSize == width && shadowYSize == height
    }

    /**
     * The atlas read-back block of `LoadWantedGlyphs`: the texture is to take
     * the allocator's size, the atlas bitmap and its shadow are brought to
     * it, and the queued bitmaps are taken.
     */
    method ReadBackAtlas(width: nat, height: nat)
      requires AtlasValid()
      modifies this`wantedTexWidth, this`wantedTexHeight, this`atlasXSize, this`atlasYSize, this`atlasMem,
               this`shadowXSize, this`shadowYSize, this`shadowMem, this`atlasGlyphs
      ensures AtlasValid() && atlasGlyphs == []
      ensures wantedTexWidth == width && wantedTexHeight == height
      ensures atlasXSize == width && atlasYSize == height && shadowXSize == width && shadowYSize == height
      ensures old(atlasXSize == width && atlasYSize == height) ==> atlasMem == old(atlasMem)
      ensures old(shadowXSize == width && shadowYSize == height && !(shadowXSize == 0 && shadowYSize == 0)) ==>
        shadowMem == old(shadowMem)
    {
      wantedTexWidth := width;
      wantedTexHeight := height;
      ResizeAtlas(width, height);
      ResizeShadow(width, height);
      atlasGlyphs := [];
    }

    /** `atlasUpdate.CanvasResize`: the atlas bitmap takes the size when it differs. */
    method ResizeAtlas(width: nat, height: nat)
      requires AtlasValid()
      modifies this`atlasXSize, this`atlasYSize, this`atlasMem
      ensures AtlasValid() && atlasXSize == width && atlasYSize == height
      ensures old(atlasXSize == width && atlasYSize == height) ==> atlasMem == old(atlasMem)
    {
      if atlasXSize != width || atlasYSize != height {
        atlasMem := new bv32[Words(width, height)];
        atlasXSize, atlasYSize := width, height;
      }
    }

    /**
     * The shadow is allocated at the size when it is empty, which makes the
     * resize test after it fail, and resized when its size differs.
     */
    method ResizeShadow(width: nat, height: nat)
      requires AtlasValid()
      modifies this`shadowXSize, this`shadowYSize, this`shadowMem
      ensures AtlasValid() && shadowXSize == width && shadowYSize == height
      ensures old(shadowXSize == width && shadowYSize == height && !(shadowXSize == 0 && shadowYSize == 0)) ==>
        shadowMem == old(shadowMem)
    {
      if (shadowXSize == 0 && shadowYSize == 0) || shadowXSize != width || shadowYSize != height {
        shadowMem := new bv32[Words(width, height)];
        shadowXSize, shadowYSize := width, height;
      }
    }

    /** The filter sends a character to the faces exactly when `NeedsReplacement` finds one. */
    lemma FilteredNeeds(wanted: seq<Char32>, toLoad: seq<Char32>, glyphs0: map<Char32, GlyphInfo>,
                        failed0: map<Char32, int>, glyphs: map<Char32, GlyphInfo>, failed: map<Char32, int>)
      requires Filtered(wanted, toLoad, glyphs0, failed0, glyphs, failed)
      ensures NeedsReplacement(wanted, failed0) <==> |toLoad| != 0
    {
      if |toLoad| != 0 {
        assert toLoad[0] in toLoad;
      }
    }

    /**
     * What loading the wanted characters does to the glyphs and failure
     * counts, from glyphs0 and failed0 to glyphs and failed, with `tried`
     * the faces it tried: `WantedLoaded` and `WantedCounted`; the own face
     * first and then the replacement faces in turn when some character went
     * to the faces, and all of them when a character is served by none.
     */
    ghost predicate FacesLoaded(wanted: seq<Char32>, fallbacks: seq<FaceId>, tried: seq<FaceId>,
                                glyphs0: map<Char32, GlyphInfo>, failed0: map<Char32, int>,
                                glyphs: map<Char32, GlyphInfo>, failed: map<Char32, int>)
    {
      && WantedLoaded(wanted, tried, glyphs0, failed0, glyphs)
      && WantedCounted(wanted, tried, failed0, failed)
      && (NeedsReplacement(wanted, failed0) ==> 1 <= |tried| <= |fallbacks| + 1 && tried == [shFace] + fallbacks[..|tried| - 1])
      && (forall c :: (c in wanted && !Exhausted(failed0, c) && c !in nonPrintableRanges
                       && Search(tried, CountOf(failed0, c), c).None?) ==> |tried| == |fallbacks| + 1)
    }

    /**
     * The glyph part of `CFontTexture::LoadWantedGlyphs`: it filters the
     * wanted characters, sends those left to the faces, loads what no face
     * served from the own face, and says whether any character went to the
     * faces, which is when the atlas must be read back.
     */
    method LoadFromFaces(wanted: seq<Char32>, fallbacks: seq<FaceId>)
      returns (replaced: bool, ghost tried: seq<FaceId>)
      requires GlyphsValid()
      modifies this`glyphs, this`atlasGlyphs, this`failedAttemptsToReplace
      ensures GlyphsValid()
      ensures replaced == NeedsReplacement(wanted, old(failedAttemptsToReplace))
      ensures FacesLoaded(wanted, fallbacks, tried, old(glyphs), old(failedAttemptsToReplace), glyphs, failedAttemptsToReplace)
      ensures !replaced ==> atlasGlyphs == old(atlasGlyphs) + FilterQueue(wanted, old(glyphs), old(failedAttemptsToReplace))
    {
      tried := [];
      ghost var glyphs0, failed0, queue0 := glyphs, failedAttemptsToReplace, atlasGlyphs;
      if |wanted| == 0 {
        assert FilterQueue(wanted, glyphs0, failed0) == [];
        LoadComposed(wanted, fallbacks, [], [], [], glyphs0, failed0, glyphs0, failed0, [], glyphs0, failed0, glyphs0);
        FilteredNeeds(wanted, [], glyphs0, failed0, glyphs0, failed0);
        return false, tried;
      }
      var toLoad := FilterWanted(wanted);
      var pending := SortUnique(toLoad);
      ghost var glyphs1, failed1 := glyphs, failedAttemptsToReplace;
      FilteredNeeds(wanted, toLoad, glyphs0, failed0, glyphs1, failed1);
      if |pending| == 0 {
        assert |toLoad| == 0;
        LoadComposed(wanted, fallbacks, toLoad, pending, [], glyphs0, failed0, glyphs1, failed1, [], glyphs1, failed1, glyphs1);
        assert atlasGlyphs == queue0 + FilterQueue(wanted, glyphs0, failed0);
        return false, tried;
      }
      assert pending[0] in toLoad;
      StrictlySortedDistinct(pending);
      var left;
      left, tried := TryFaces(pending, fallbacks);
      ghost var glyphs2, failed2 := glyphs, failedAttemptsToReplace;
      LoadLeftovers(left);
      LoadComposed(wanted, fallbacks, toLoad, pending, tried, glyphs0, failed0, glyphs1, failed1, left, glyphs2, failed2, glyphs);
      replaced := true;
    }

    /**
     * `CFontTexture::LoadWantedGlyphs`, with the atlas allocator's size
     * after placing the queued bitmaps given as width by height and `tried`
     * the faces it tried. Afterwards every wanted character that had
     * attempts left has a glyph: glyph 0 of the font's own face when it is
     * non-printable, otherwise the glyph of the first face tried that has
     * it, or glyph 0 of the own face when none did or its attempts ran out
     * on the way. The own face is tried first, then the replacement faces in
     * turn while characters are left, all of them when some are. Loaded
     * glyphs stay and no failure count drops. An atlas update is scheduled,
     * and the bitmaps take the allocator's size, exactly when some wanted
     * character went to the faces; otherwise the atlas is left alone.
     */
    method LoadWantedGlyphs(wanted: seq<Char32>, fallbacks: seq<FaceId>, width: nat, height: nat)
      returns (ghost tried: seq<FaceId>)
      requires GlyphsValid() && AtlasValid()
      modifies this`glyphs, this`atlasGlyphs, this`failedAttemptsToReplace, this`curTextureUpdate,
               this`wantedTexWidth, this`wantedTexHeight, this`atlasXSize, this`atlasYSize, this`atlasMem,
               this`shadowXSize, this`shadowYSize, this`shadowMem
      ensures GlyphsValid() && AtlasValid()
      ensures FacesLoaded(wanted, fallbacks, tried, old(glyphs), old(failedAttemptsToReplace), glyphs, failedAttemptsToReplace)
      ensures curTextureUpdate == old(curTextureUpdate) + if NeedsReplacement(wanted, old(failedAttemptsToReplace)) then 1 else 0
      ensures NeedsReplacement(wanted, old(failedAttemptsToReplace)) ==> AtlasReadBack(width, height)
      ensures !NeedsReplacement(wanted, old(failedAttemptsToReplace)) ==>
        && atlasGlyphs == old(atlasGlyphs) + FilterQueue(wanted, old(glyphs), old(failedAttemptsToReplace))
        && wantedTexWidth == old(wantedTexWidth) && wantedTexHeight == old(wantedTexHeight)
        && atlasXSize == old(atlasXSize) && atlasYSize == old(atlasYSize) && atlasMem == old(atlasMem)
        && shadowXSize == old(shadowXSize) && shadowYSize == old(shadowYSize) && shadowMem == old(shadowMem)
    {
      ghost var glyphs0, failed0, queue0 := glyphs, failedAttemptsToReplace, atlasGlyphs;
      var replaced;
      replaced, tried := LoadFromFaces(wanted, fallbacks);
      ghost var loaded, counted := glyphs, failedAttemptsToReplace;
      assert FacesLoaded(wanted, fallbacks, tried, glyphs0, failed0, loaded, counted);
      assert !replaced ==> atlasGlyphs == queue0 + FilterQueue(wanted, glyphs0, failed0);
      if replaced {
        ReadBackAtlas(width, height);
        curTextureUpdate := curTextureUpdate + 1;
      }
      assert glyphs == loaded && failedAttemptsToReplace == counted;
    }

    /** The characters from begin up to, not including, end, in order. */
    function CharRange(begin: Char32, end: Char32): (r: seq<Char32>)
      ensures |r| == if begin < end then end - begin else 0
      ensures forall k :: 0 <= k < |r| ==> r[k] == begin + k
      decreases end - begin
    {
      if begin < end then [begin] + CharRange(begin + 1, end) else []
    }

    /**
     * `LoadWantedGlyphs(begin, end)`: builds the characters from begin up
     * to, not including, end, and loads them as `LoadWantedGlyphs` does.
     */
    method LoadWantedGlyphsRange(begin: Char32, end: Char32, fallbacks: seq<FaceId>, width: nat, height: nat)
      returns (ghost tried: seq<FaceId>)
      requires GlyphsValid() && AtlasValid()
      modifies this`glyphs, this`atlasGlyphs, this`failedAttemptsToReplace, this`curTextureUpdate,
               this`wantedTexWidth, this`wantedTexHeight, this`atlasXSize, this`atlasYSize, this`atlasMem,
               this`shadowXSize, this`shadowYSize, this`shadowMem
      ensures GlyphsValid() && AtlasValid()
      ensures FacesLoaded(CharRange(begin, end), fallbacks, tried, old(glyphs), old(failedAttemptsToReplace),
                          glyphs, failedAttemptsToReplace)
      ensures curTextureUpdate
           == old(curTextureUpdate) + if NeedsReplacement(CharRange(begin, end), old(failedAttemptsToReplace)) then 1 else 0
      ensures NeedsReplacement(CharRange(begin, end), old(failedAttemptsToReplace)) ==> AtlasReadBack(width, height)
      ensures !NeedsReplacement(CharRange(begin, end), old(failedAttemptsToReplace)) ==>
        && atlasGlyphs == old(atlasGlyphs) + FilterQueue(CharRange(begin, end), old(glyphs), old(failedAttemptsToReplace))
        && wantedTexWidth == old(wantedTexWidth) && wantedTexHeight == old(wantedTexHeight)
        && atlasXSize == old(atlasXSize) && atlasYSize == old(atlasYSize) && atlasMem == old(atlasMem)
        && shadowXSize == old(shadowXSize) && shadowYSize == old(shadowYSize) && shadowMem == old(shadowMem)
    {
      var wanted: seq<Char32> := [];
      var i := begin;
      while i < end
        invariant begin <= i && (i <= end || i == begin)
        invariant |wanted| == i - begin
        invariant forall k :: 0 <= k < |wanted| ==> wanted[k] == begin + k
      {
        wanted := wanted + [i];
        i := i + 1;
      }
      assert wanted == CharRange(begin, end);
      tried := LoadWantedGlyphs(wanted, fallbacks, width, height);
    }

    // -------------------------------------------------------------------------
    // Atlas texture update and upload
    // -------------------------------------------------------------------------

    /** `GlyphAtlasTextureNeedsUpdate`: glyphs were loaded since the last update. */
    predicate GlyphAtlasTextureNeedsUpdate()
      reads this`curTextureUpdate, this`lastTextureUpdate
    {
      curTextureUpdate != lastTextureUpdate
    }

    /** `GlyphAtlasTextureNeedsUpload`. */
    predicate GlyphAtlasTextureNeedsUpload()
      reads this`needsTextureUpload
    {
      needsTextureUpload
    }

    /**
     * `CFontTexture::UpdateGlyphAtlasTexture`: when an update is due it
     * records it and takes on the wanted texture size; when moreover the
     * shadow bitmap has the atlas's size it ors the shadow into the atlas
     * word by word, drops the shadow and asks for an upload. Afterwards no
     * update is due.
     */
    method UpdateGlyphAtlasTexture()
      requires AtlasValid()
      modifies this`lastTextureUpdate, this`texWidth, this`texHeight, this`needsTextureUpload,
               this`shadowXSize, this`shadowYSize, this`shadowMem, atlasMem
      ensures AtlasValid() && !GlyphAtlasTextureNeedsUpdate()
      ensures !old(GlyphAtlasTextureNeedsUpdate()) ==>
        && lastTextureUpdate == old(lastTextureUpdate) && texWidth == old(texWidth) && texHeight == old(texHeight)
        && needsTextureUpload == old(needsTextureUpload) && unchanged(atlasMem)
        && shadowMem == old(shadowMem) && shadowXSize == old(shadowXSize) && shadowYSize == old(shadowYSize)
      ensures old(GlyphAtlasTextureNeedsUpdate()) ==>
        lastTextureUpdate == curTextureUpdate && texWidth == wantedTexWidth && texHeight == wantedTexHeight
      ensures old(GlyphAtlasTextureNeedsUpdate() && shadowXSize == atlasXSize && shadowYSize == atlasYSize) ==>
        && needsTextureUpload
        && (forall i :: 0 <= i < atlasMem.Length ==> atlasMem[i] == Or(old(atlasMem[i]), old(shadowMem[i])))
        && shadowXSize == 0 && shadowYSize == 0 && shadowMem.Length == 0
      ensures old(GlyphAtlasTextureNeedsUpdate() && !(shadowXSize == atlasXSize && shadowYSize == atlasYSize)) ==>
        && needsTextureUpload == old(needsTextureUpload) && unchanged(atlasMem)
        && shadowMem == old(shadowMem) && shadowXSize == old(shadowXSize) && shadowYSize == old(shadowYSize)
    {
      if !GlyphAtlasTextureNeedsUpdate() {
        return;
      }
      lastTextureUpdate := curTextureUpdate;
      texWidth := wantedTexWidth;
      texHeight := wantedTexHeight;
      if shadowXSize == atlasXSize && shadowYSize == atlasYSize {
        MergeShadow();
      }
    }

    /** The merge branch of `UpdateGlyphAtlasTexture`: or the shadow into the atlas, drop the shadow, ask for an upload. */
    method MergeShadow()
      requires AtlasValid() && shadowXSize == atlasXSize && shadowYSize == atlasYSize
      modifies this`needsTextureUpload, this`shadowXSize, this`shadowYSize, this`shadowMem, atlasMem
      ensures AtlasValid() && needsTextureUpload
      ensures forall i :: 0 <= i < atlasMem.Length ==> atlasMem[i] == Or(old(atlasMem[i]), old(shadowMem[i]))
      ensures shadowXSize == 0 && shadowYSize == 0 && shadowMem.Length == 0
    {
      var size := Words(atlasXSize, atlasYSize);
      OrMerge(atlasMem, shadowMem, size);
      shadowMem := new bv32[0];
      shadowXSize := 0;
      shadowYSize := 0;
      needsTextureUpload := true;
    }

    /** `CFontTexture::UploadGlyphAtlasTextureImpl`: after an upload none is due. */
    method UploadGlyphAtlasTextureImpl()
      modifies this`needsTextureUpload
      ensures !GlyphAtlasTextureNeedsUpload()
    {
      if !GlyphAtlasTextureNeedsUpload() {
        return;
      }
      needsTextureUpload := false;
    }
  }
}
