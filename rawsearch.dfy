/**
 * Raw (direct-line) move tests of a movement profile: `MoveDef::DoRawSearch`
 * with its terrain and object tests, `TestMoveSquareRange` and
 * `TestMovePositionForObjects`.
 *
 * The map queries the tests make (`CMoveMath::GetPosSpeedMod`, the
 * `RangeIsBlocked*` family, the synced max-height map and
 * `GlobalSynced::GetMtTempNum`) are oracles in a `World`. The source's test
 * lambdas change variables they capture; here each is a function from the
 * captured state and a square to the new state and the verdict, and the walk
 * threads that state through the squares it tests.
 */
module RawSearch {
  import opened LineWalk
  import MoveDefs

  /** `CMoveMath::BlockType` bits. */
  type BlockBits = bv32

  const BLOCK_NONE: BlockBits := 0
  const BLOCK_STRUCTURE: BlockBits := 8

  /** The test the searches apply to blocking bits: no structure bit is set. */
  predicate StructureFree(b: BlockBits) {
    b & BLOCK_STRUCTURE == 0
  }

  /** An inclusive rectangle of map squares. */
  datatype Rect = Rect(xmin: int, xmax: int, zmin: int, zmax: int)

  /**
   * The parts of the search's `virtualObject` that the copy in `DoRawSearch`
   * sets: the collider's height, its (possibly overwritten) height above
   * sea level, the physical in-water state bit, and whether the collidable
   * in-water bit has been cleared.
   */
  datatype VirtualObject = VirtualObject(
    height: real, posY: real, physicalInWater: bool, collidableInWaterCleared: bool)

  /** The collider whose move is tested: its height, its height above sea level, and its own profile. */
  datatype Collider = Collider(height: real, posY: real, moveDef: MoveDefs.MoveDef)

  /**
   * Map size in squares and the map queries. `speedMod(x, z)` is
   * `GetPosSpeedMod` for the profile and move direction of the search;
   * `maxHeight(x, z)` the synced max-height map at `z * mapx + x`;
   * `rangeBlockedMt(r, o, tempNum)` is `RangeIsBlockedMt` over `r` for object
   * `o`; `tempNumAt(n)` is what the n-th call of `GetMtTempNum` during the search returns.
   */
  datatype World = World(
    mapx: int, mapy: int,
    speedMod: (int, int) -> real,
    maxHeight: (int, int) -> real,
    rangeBlockedMt: (Rect, VirtualObject, int) -> BlockBits,
    tempNumAt: nat -> int)

  predicate InMap(w: World, q: Int2) {
    0 <= q.x < w.mapx && 0 <= q.y < w.mapy
  }

  /** `h * (1 - centerOnly)`: the half-extent a test expands by. */
  function Extent(h: int, centerOnly: bool): int {
    if centerOnly then 0 else h
  }

  // ---------------------------------------------------------------------------
  // The terrain test
  // ---------------------------------------------------------------------------

  /**
   * The terrain test on square q with running minimum m: off-map squares
   * pass and leave m alone; an in-map square lowers m to its speed modifier
   * and passes when that modifier exceeds the threshold.
   */
  function TerrainTest(w: World, threshold: real, m: real, q: Int2): (real, bool) {
    if !InMap(w, q) then (m, true)
    else
      var speedMod := w.speedMod(q.x, q.y);
      (MoveDefs.RMin(m, speedMod), speedMod > threshold)
  }

  function TerrainTestF(w: World, threshold: real): (real, Int2) -> (real, bool) {
    (m, q) => TerrainTest(w, threshold, m, q)
  }

  /** The verdict the terrain test gives a square, whatever the running minimum. */
  predicate TerrainPasses(w: World, threshold: real, q: Int2) {
    !InMap(w, q) || w.speedMod(q.x, q.y) > threshold
  }

  // ---------------------------------------------------------------------------
  // The object test
  // ---------------------------------------------------------------------------

  /**
   * The state the object test captures: the virtual object, the current
   * temp number and how many times one was fetched, the last height and
   * water states it saw, and the last blocking bits.
   */
  datatype ObjState = ObjState(
    obj: VirtualObject,
    tempNum: int, fetches: nat,
    lastPosY: real, lastInWater: bool, lastUnderWater: bool,
    maxBlockBit: BlockBits)

  /** The collider follows the sea floor deep enough to dive: a submarine, or a ground unit whose depth exceeds its height. */
  predicate Submersible(c: Collider) {
    c.moveDef.isSubmarine || (c.moveDef.followGround && c.moveDef.depth > c.height)
  }

  /** The object test's state before the walk: one temp number fetched and the collider's own height and water states. */
  function ObjStart(w: World, c: Collider): ObjState {
    var lastInWater := c.posY < 0.0;
    ObjState(VirtualObject(c.height, c.posY, lastInWater, false),
             w.tempNumAt(0), 1,
             c.posY, lastInWater, c.posY + c.height < 0.0,
             BLOCK_NONE)
  }

  /** The rectangle the object test checks around square q, clamped to the map. */
  function ObjRect(w: World, md: MoveDefs.MoveDef, centerOnly: bool, q: Int2): Rect {
    var hx, hz := Extent(md.xsizeh, centerOnly), Extent(md.zsizeh, centerOnly);
    Rect(LineWalk.Max(q.x - hx, 0), MoveDefs.IMin(q.x + hx, w.mapx - 1),
         LineWalk.Max(q.y - hz, 0), MoveDefs.IMin(q.y + hz, w.mapy - 1))
  }

  /**
   * The submersion bookkeeping the object test does before it queries the
   * blocking map (a submersible collider only): the virtual object takes the
   * square's max height, and when that differs from the last one seen,
   * a change in the underwater state fetches a new temp number and a change
   * in the in-water state sets the physical in-water bit or clears the
   * collidable one. `lastUnderWater` is compared but never assigned.
   */
  function ObjTrack(w: World, c: Collider, s: ObjState, q: Int2): ObjState {
    if !Submersible(c) then s
    else
      var obj := s.obj.(posY := w.maxHeight(q.x, q.y));
      if s.lastPosY == obj.posY then s.(obj := obj)
      else
        var underWater := obj.posY + obj.height < 0.0;
        var inWater := obj.posY < 0.0;
        var s1 :=
          if s.lastUnderWater != underWater then s.(tempNum := w.tempNumAt(s.fetches), fetches := s.fetches + 1)
          else s;
        var obj' :=
          if s.lastInWater == inWater then obj
          else if inWater then obj.(physicalInWater := true)
          else obj.(collidableInWaterCleared := true);
        s1.(obj := obj', lastInWater := inWater, lastPosY := obj.posY)
  }

  /** The blocking bits the object test reads at square q after tracking. */
  function ObjBlockBits(w: World, md: MoveDefs.MoveDef, c: Collider, centerOnly: bool, s: ObjState, q: Int2): BlockBits {
    var t := ObjTrack(w, c, s, q);
    w.rangeBlockedMt(ObjRect(w, md, centerOnly, q), t.obj, t.tempNum)
  }

  /** The object test: track submersion, query the blocking map, record the bits and pass when no structure blocks. */
  function ObjectTest(w: World, md: MoveDefs.MoveDef, c: Collider, centerOnly: bool, s: ObjState, q: Int2): (ObjState, bool) {
    var t := ObjTrack(w, c, s, q);
    var blockBits := w.rangeBlockedMt(ObjRect(w, md, centerOnly, q), t.obj, t.tempNum);
    (t.(maxBlockBit := blockBits), StructureFree(blockBits))
  }

  function ObjectTestF(w: World, md: MoveDefs.MoveDef, c: Collider, centerOnly: bool): (ObjState, Int2) -> (ObjState, bool) {
    (s, q) => ObjectTest(w, md, c, centerOnly, s, q)
  }

  // ---------------------------------------------------------------------------
  // DoRawSearch
  // ---------------------------------------------------------------------------

  /** Whether the terrain stage lets the object stage run: it is off, or its walk passed. */
  ghost predicate TerrainStagePasses(w: World, threshold: real, startBlock: Int2, endBlock: Int2, testTerrain: bool) {
    !testTerrain || Walk(startBlock, endBlock, TerrainTestF(w, threshold), MoveDefs.FLT_MAX).1
  }

  /**
   * `MoveDef::DoRawSearch` for profile `md` along the squares from
   * `startBlock` to `endBlock`: the terrain walk when `testTerrain`, then the
   * object walk when `testObjects` and the terrain walk passed. Returns the
   * verdict and the values written to both output pointers.
   */
  method DoRawSearch(w: World, md: MoveDefs.MoveDef, collider: Collider, threshold: real,
                     startBlock: Int2, endBlock: Int2,
                     testTerrain: bool, testObjects: bool, centerOnly: bool)
    returns (retTestMove: bool, minSpeedMod: real, maxBlockBit: BlockBits)
    requires testTerrain || testObjects
    ensures minSpeedMod ==
      if testTerrain then Walk(startBlock, endBlock, TerrainTestF(w, threshold), MoveDefs.FLT_MAX).0
      else MoveDefs.FLT_MAX
    ensures var terrainOk := TerrainStagePasses(w, threshold, startBlock, endBlock, testTerrain);
      var objects := Walk(startBlock, endBlock, ObjectTestF(w, md, collider, centerOnly), ObjStart(w, collider));
      && retTestMove == (terrainOk && (!testObjects || objects.1))
      && maxBlockBit == (if testObjects && terrainOk then objects.0.maxBlockBit else BLOCK_NONE)
  {
    minSpeedMod := MoveDefs.FLT_MAX;
    maxBlockBit := BLOCK_NONE;
    retTestMove := true;

    if testTerrain {
      retTestMove, minSpeedMod := WalkPath(startBlock, endBlock, TerrainTestF(w, threshold), minSpeedMod);
    }

    if testObjects && retTestMove {
      var s := ObjStart(w, collider);
      retTestMove, s := WalkPath(startBlock, endBlock, ObjectTestF(w, md, collider, centerOnly), s);
      maxBlockBit := s.maxBlockBit;
    }
  }

  // ---------------------------------------------------------------------------
  // What the two walks compute
  // ---------------------------------------------------------------------------

  /** The state after a nonempty run is one test step after the run without its last square. */
  lemma {:induction false} StateAfterLast<S>(f: (S, Int2) -> (S, bool), s0: S, sq: seq<Int2>)
    requires |sq| >= 1
    ensures StateAfter(f, s0, sq) == f(StateAfter(f, s0, sq[..|sq| - 1]), sq[|sq| - 1]).0
    decreases |sq|
  {
    if |sq| > 1 {
      StateAfterLast(f, f(s0, sq[0]).0, sq[1..]);
      assert sq[1..][..|sq[1..]| - 1] == sq[..|sq| - 1][1..];
    }
  }

  /**
   * A run of the terrain test over any squares: the running minimum never
   * rises, it ends at or below every in-map square's modifier, and it is
   * either the initial value or some in-map square's modifier (off-map
   * squares never lower it).
   */
  lemma {:induction false} TerrainMinimum(w: World, threshold: real, m0: real, sq: seq<Int2>)
    ensures var m := StateAfter(TerrainTestF(w, threshold), m0, sq);
      && m <= m0
      && (forall i :: 0 <= i < |sq| && InMap(w, sq[i]) ==> m <= w.speedMod(sq[i].x, sq[i].y))
      && (m == m0 || exists i :: 0 <= i < |sq| && InMap(w, sq[i]) && m == w.speedMod(sq[i].x, sq[i].y))
    decreases |sq|
  {
    if sq != [] {
      var f := TerrainTestF(w, threshold);
      var m1 := f(m0, sq[0]).0;
      TerrainMinimum(w, threshold, m1, sq[1..]);
      var m := StateAfter(f, m0, sq);
      assert m == StateAfter(f, m1, sq[1..]);
      forall i | 0 <= i < |sq| && InMap(w, sq[i])
        ensures m <= w.speedMod(sq[i].x, sq[i].y)
      {
        if i > 0 {
          assert sq[1..][i - 1] == sq[i];
        }
      }
      if m != m0 && m != m1 {
        var i :| 0 <= i < |sq[1..]| && InMap(w, sq[1..][i]) && m == w.speedMod(sq[1..][i].x, sq[1..][i].y);
        assert sq[i + 1] == sq[1..][i];
      }
    }
  }

  /** The terrain test's verdict on a square does not depend on the running minimum. */
  lemma TerrainVerdict(w: World, threshold: real, m0: real, sq: seq<Int2>, i: nat)
    requires i < |sq|
    ensures Verdict(TerrainTestF(w, threshold), m0, sq, i) == TerrainPasses(w, threshold, sq[i])
  {}

  /**
   * The terrain walk passes exactly when every square it tests passes, and
   * when it fails, it fails on its last square.
   */
  lemma TerrainWalkVerdict(w: World, threshold: real, startBlock: Int2, endBlock: Int2)
    ensures var f := TerrainTestF(w, threshold);
      var sq := Squares(startBlock, endBlock, f, MoveDefs.FLT_MAX);
      var r := Walk(startBlock, endBlock, f, MoveDefs.FLT_MAX);
      && |sq| >= 1
      && (r.1 <==> forall i :: 0 <= i < |sq| ==> TerrainPasses(w, threshold, sq[i]))
      && (!r.1 ==> !TerrainPasses(w, threshold, sq[|sq| - 1]))
  {
    var f := TerrainTestF(w, threshold);
    var sq := Squares(startBlock, endBlock, f, MoveDefs.FLT_MAX);
    WalkRunsTests(startBlock, endBlock, f, 0, MoveDefs.FLT_MAX);
    forall i | 0 <= i < |sq|
      ensures Verdict(f, MoveDefs.FLT_MAX, sq, i) == TerrainPasses(w, threshold, sq[i])
    {
      TerrainVerdict(w, threshold, MoveDefs.FLT_MAX, sq, i);
    }
  }

  /**
   * The minimum the terrain walk leaves is at most the float maximum, at
   * most every tested in-map square's modifier, and either the float maximum
   * or one of those modifiers.
   */
  lemma TerrainWalkMinimum(w: World, threshold: real, startBlock: Int2, endBlock: Int2)
    ensures var f := TerrainTestF(w, threshold);
      var sq := Squares(startBlock, endBlock, f, MoveDefs.FLT_MAX);
      var m := Walk(startBlock, endBlock, f, MoveDefs.FLT_MAX).0;
      && m <= MoveDefs.FLT_MAX
      && (forall i :: 0 <= i < |sq| && InMap(w, sq[i]) ==> m <= w.speedMod(sq[i].x, sq[i].y))
      && (m == MoveDefs.FLT_MAX || exists i :: 0 <= i < |sq| && InMap(w, sq[i]) && m == w.speedMod(sq[i].x, sq[i].y))
  {
    var f := TerrainTestF(w, threshold);
    var sq := Squares(startBlock, endBlock, f, MoveDefs.FLT_MAX);
    WalkRunsTests(startBlock, endBlock, f, 0, MoveDefs.FLT_MAX);
    TerrainMinimum(w, threshold, MoveDefs.FLT_MAX, sq);
  }

  /**
   * The object walk's outputs come from its last square: the recorded
   * blocking bits are the bits read there (in the state the squares before it
   * left), and the walk passes exactly when those bits have no structure bit.
   */
  lemma ObjectWalkLastSquare(w: World, md: MoveDefs.MoveDef, c: Collider, centerOnly: bool,
                             startBlock: Int2, endBlock: Int2)
    ensures var f := ObjectTestF(w, md, c, centerOnly);
      var s0 := ObjStart(w, c);
      var sq := Squares(startBlock, endBlock, f, s0);
      var r := Walk(startBlock, endBlock, f, s0);
      && |sq| >= 1
      && r.0.maxBlockBit == ObjBlockBits(w, md, c, centerOnly, StateAfter(f, s0, sq[..|sq| - 1]), sq[|sq| - 1])
      && (r.1 <==> StructureFree(r.0.maxBlockBit))
  {
    var f := ObjectTestF(w, md, c, centerOnly);
    var s0 := ObjStart(w, c);
    var sq := Squares(startBlock, endBlock, f, s0);
    WalkRunsTests(startBlock, endBlock, f, 0, s0);
    StateAfterLast(f, s0, sq);
    ObjectVerdict(w, md, c, centerOnly, StateAfter(f, s0, sq[..|sq| - 1]), sq[|sq| - 1]);
  }

  /** The object test records the bits it reads and passes exactly when they have no structure bit. */
  lemma ObjectVerdict(w: World, md: MoveDefs.MoveDef, c: Collider, centerOnly: bool, s: ObjState, q: Int2)
    ensures var r := ObjectTestF(w, md, c, centerOnly)(s, q);
      && r.0.maxBlockBit == ObjBlockBits(w, md, c, centerOnly, s, q)
      && (r.1 <==> StructureFree(r.0.maxBlockBit))
  {}

  /**
   * One object test step: the rectangle lies inside the map, and is the
   * unclamped footprint rectangle when that fits; `lastUnderWater` never
   * changes; the physical in-water bit is never cleared; and a new temp
   * number is fetched exactly when a submersible collider's height changes
   * to one whose underwater state differs from `lastUnderWater`.
   */
  lemma ObjectStep(w: World, md: MoveDefs.MoveDef, c: Collider, centerOnly: bool, s: ObjState, q: Int2)
    ensures var r := ObjRect(w, md, centerOnly, q);
      var hx, hz := Extent(md.xsizeh, centerOnly), Extent(md.zsizeh, centerOnly);
      && 0 <= r.xmin && r.xmax <= w.mapx - 1 && 0 <= r.zmin && r.zmax <= w.mapy - 1
      && (0 <= q.x - hx && q.x + hx < w.mapx && 0 <= q.y - hz && q.y + hz < w.mapy ==>
            r == Rect(q.x - hx, q.x + hx, q.y - hz, q.y + hz))
    ensures var s' := ObjectTest(w, md, c, centerOnly, s, q).0;
      var h := w.maxHeight(q.x, q.y);
      var refetch := Submersible(c) && h != s.lastPosY && (h + s.obj.height < 0.0) != s.lastUnderWater;
      && s'.lastUnderWater == s.lastUnderWater
      && s'.obj.height == s.obj.height
      && (s.obj.physicalInWater ==> s'.obj.physicalInWater)
      && s'.fetches == (if refetch then s.fetches + 1 else s.fetches)
      && s'.tempNum == (if refetch then w.tempNumAt(s.fetches) else s.tempNum)
      && (!Submersible(c) ==> s'.obj == s.obj && s'.lastPosY == s.lastPosY)
  {}

  /** What the object test keeps over a run: height, `lastUnderWater`, and a set physical in-water bit. */
  ghost predicate ObjKeeps(s0: ObjState, s: ObjState) {
    && s.obj.height == s0.obj.height
    && s.lastUnderWater == s0.lastUnderWater
    && (s0.obj.physicalInWater ==> s.obj.physicalInWater)
    && s.fetches >= s0.fetches
  }

  /**
   * Over any run of the object test: the height and `lastUnderWater` keep
   * their initial values, a set physical in-water bit stays set, and fetches
   * never go down; for a collider that is not submersible the virtual object,
   * the temp number and the last height are all unchanged.
   */
  lemma {:induction false} ObjectRun(w: World, md: MoveDefs.MoveDef, c: Collider, centerOnly: bool,
                                     s0: ObjState, sq: seq<Int2>)
    ensures var s := StateAfter(ObjectTestF(w, md, c, centerOnly), s0, sq);
      && ObjKeeps(s0, s)
      && (!Submersible(c) ==> s.obj == s0.obj && s.tempNum == s0.tempNum && s.fetches == s0.fetches
                              && s.lastPosY == s0.lastPosY)
    decreases |sq|
  {
    if sq != [] {
      var f := ObjectTestF(w, md, c, centerOnly);
      ObjectStep(w, md, c, centerOnly, s0, sq[0]);
      ObjectRun(w, md, c, centerOnly, f(s0, sq[0]).0, sq[1..]);
    }
  }

  /**
   * Because `lastUnderWater` keeps the collider's initial underwater state,
   * at every tested square a submersible collider fetches a new temp number
   * exactly when the height there differs from the last one seen and its
   * underwater state differs from the collider's initial one, not from the
   * previous square's.
   */
  lemma ObjectRefetch(w: World, md: MoveDefs.MoveDef, c: Collider, centerOnly: bool, sq: seq<Int2>, i: nat)
    requires i < |sq|
    ensures var f := ObjectTestF(w, md, c, centerOnly);
      var before := StateAfter(f, ObjStart(w, c), sq[..i]);
      var after := StateAfter(f, ObjStart(w, c), sq[..i + 1]);
      var h := w.maxHeight(sq[i].x, sq[i].y);
      after.fetches ==
        if Submersible(c) && h != before.lastPosY && (h + c.height < 0.0) != (c.posY + c.height < 0.0)
        then before.fetches + 1 else before.fetches
  {
    var f := ObjectTestF(w, md, c, centerOnly);
    ObjectRun(w, md, c, centerOnly, ObjStart(w, c), sq[..i]);
    var before := StateAfter(f, ObjStart(w, c), sq[..i]);
    ObjectStep(w, md, c, centerOnly, before, sq[i]);
    StateAfterLast(f, ObjStart(w, c), sq[..i + 1]);
    assert sq[..i + 1][..i] == sq[..i];
  }

  /**
   * The outputs of `DoRawSearch`: the minimum is the float maximum unless
   * the terrain walk ran; the blocking bits are `BLOCK_NONE` unless the
   * object walk ran, which it does only when the terrain stage passed; and
   * the search passes only when each walk that ran passed.
   */
  lemma RawSearchStages(w: World, md: MoveDefs.MoveDef, collider: Collider, threshold: real,
                        startBlock: Int2, endBlock: Int2, testTerrain: bool, testObjects: bool, centerOnly: bool)
    requires testTerrain || testObjects
    ensures var terrain := Walk(startBlock, endBlock, TerrainTestF(w, threshold), MoveDefs.FLT_MAX);
      var objects := Walk(startBlock, endBlock, ObjectTestF(w, md, collider, centerOnly), ObjStart(w, collider));
      var terrainOk := TerrainStagePasses(w, threshold, startBlock, endBlock, testTerrain);
      && (testTerrain && !terrain.1 ==> !terrainOk)
      && (!testTerrain ==> terrainOk)
      && (testObjects && terrainOk ==> (objects.1 <==> StructureFree(objects.0.maxBlockBit)))
  {
    ObjectWalkLastSquare(w, md, collider, centerOnly, startBlock, endBlock);
  }

  // ---------------------------------------------------------------------------
  // TestMoveSquareRange
  // ---------------------------------------------------------------------------

  /**
   * The terrain scan of one row z from column x to xmax with running minimum
   * m: the new minimum and whether every square scanned had a positive
   * modifier; it stops at the first one that does not.
   */
  function ScanRow(speedMod: (int, int) -> real, z: int, x: int, xmax: int, m: real): (real, bool)
    decreases xmax - x
  {
    if x > xmax then (m, true)
    else
      var sm := speedMod(x, z);
      var m' := MoveDefs.RMin(m, sm);
      if !(sm > 0.0) then (m', false) else ScanRow(speedMod, z, x + 1, xmax, m')
  }

  /** The terrain scan of rows z..zmax, each from xmin to xmax, stopping at the first failing square. */
  function ScanRows(speedMod: (int, int) -> real, z: int, zmax: int, xmin: int, xmax: int, m: real): (real, bool)
    decreases zmax - z
  {
    if z > zmax then (m, true)
    else
      var row := ScanRow(speedMod, z, xmin, xmax, m);
      if !row.1 then row else ScanRows(speedMod, z + 1, zmax, xmin, xmax, row.0)
  }

  /** The rectangle `TestMoveSquareRange` checks: the block range widened by the half sizes unless `centerOnly`. */
  function RangeRect(md: MoveDefs.MoveDef, rangeMin: Int2, rangeMax: Int2, centerOnly: bool): Rect {
    var hx, hz := Extent(md.xsizeh, centerOnly), Extent(md.zsizeh, centerOnly);
    Rect(rangeMin.x - hx, rangeMax.x + hx, rangeMin.y - hz, rangeMax.y + hz)
  }

  /**
   * `MoveDef::TestMoveSquareRange` over the block range `rangeMin`..`rangeMax`:
   * a row-major terrain scan when `testTerrain`, then one blocking query
   * over the whole rectangle when `testObjects` and the scan passed.
   * `rangeBlocked(r)` is `RangeIsBlocked` over r for the collider.
   */
  method TestMoveSquareRange(md: MoveDefs.MoveDef, speedMod: (int, int) -> real, rangeBlocked: Rect -> BlockBits,
                             rangeMin: Int2, rangeMax: Int2,
                             testTerrain: bool, testObjects: bool, centerOnly: bool)
    returns (retTestMove: bool, minSpeedMod: real, maxBlockBit: BlockBits)
    requires testTerrain || testObjects
    ensures var r := RangeRect(md, rangeMin, rangeMax, centerOnly);
      var scan := ScanRows(speedMod, r.zmin, r.zmax, r.xmin, r.xmax, MoveDefs.FLT_MAX);
      var terrainOk := !testTerrain || scan.1;
      && minSpeedMod == (if testTerrain then scan.0 else MoveDefs.FLT_MAX)
      && maxBlockBit == (if testObjects && terrainOk then rangeBlocked(r) else BLOCK_NONE)
      && retTestMove == (terrainOk && (!testObjects || StructureFree(rangeBlocked(r))))
  {
    var rect := RangeRect(md, rangeMin, rangeMax, centerOnly);
    var xmin, xmax, zmin, zmax := rect.xmin, rect.xmax, rect.zmin, rect.zmax;

    minSpeedMod := MoveDefs.FLT_MAX;
    maxBlockBit := BLOCK_NONE;
    retTestMove := true;

    if testTerrain {
      var z := zmin;
      while retTestMove && z <= zmax
        invariant retTestMove ==> ScanRows(speedMod, z, zmax, xmin, xmax, minSpeedMod)
                                  == ScanRows(speedMod, zmin, zmax, xmin, xmax, MoveDefs.FLT_MAX)
        invariant !retTestMove ==> (minSpeedMod, false) == ScanRows(speedMod, zmin, zmax, xmin, xmax, MoveDefs.FLT_MAX)
        decreases zmax - z, retTestMove
      {
        ghost var m0 := minSpeedMod;
        var x := xmin;
        while retTestMove && x <= xmax
          invariant retTestMove ==> ScanRow(speedMod, z, x, xmax, minSpeedMod) == ScanRow(speedMod, z, xmin, xmax, m0)
          invariant !retTestMove ==> (minSpeedMod, false) == ScanRow(speedMod, z, xmin, xmax, m0)
          decreases xmax - x, retTestMove
        {
          var sm := speedMod(x, z);
          minSpeedMod := MoveDefs.RMin(minSpeedMod, sm);
          retTestMove := sm > 0.0;
          x := x + 1;
        }
        z := z + 1;
      }
    }

    if testObjects && retTestMove {
      var blockBits := rangeBlocked(rect);
      maxBlockBit := blockBits;
      retTestMove := StructureFree(blockBits);
    }
  }

  /** Square (x, z) comes before square (x', z') in row-major order (rows by z, then columns by x). */
  predicate RowMajorBefore(x: int, z: int, x': int, z': int) {
    z < z' || (z == z' && x < x')
  }

  /**
   * A row scan passes exactly when every square in the rest of the row has a
   * positive modifier, and its minimum is at most m and, when it passes, at
   * most every modifier in the rest of the row.
   */
  lemma {:induction false} ScanRowPasses(speedMod: (int, int) -> real, z: int, x: int, xmax: int, m: real)
    ensures var r := ScanRow(speedMod, z, x, xmax, m);
      && r.0 <= m
      && (r.1 <==> forall x' :: x <= x' <= xmax ==> speedMod(x', z) > 0.0)
      && (r.1 ==> forall x' :: x <= x' <= xmax ==> r.0 <= speedMod(x', z))
    decreases xmax - x
  {
    if x <= xmax {
      var sm := speedMod(x, z);
      if sm > 0.0 {
        ScanRowPasses(speedMod, z, x + 1, xmax, MoveDefs.RMin(m, sm));
      }
    }
  }

  /**
   * A row scan that fails stops at a failing square: every square before it
   * passed, and the minimum is at most the modifiers of all of them.
   */
  lemma {:induction false} ScanRowStops(speedMod: (int, int) -> real, z: int, x: int, xmax: int, m: real)
    ensures var r := ScanRow(speedMod, z, x, xmax, m);
      !r.1 ==> exists xf :: x <= xf <= xmax && !(speedMod(xf, z) > 0.0) && r.0 <= speedMod(xf, z)
                 && forall x' :: x <= x' < xf ==> speedMod(x', z) > 0.0 && r.0 <= speedMod(x', z)
    decreases xmax - x
  {
    var r := ScanRow(speedMod, z, x, xmax, m);
    if x <= xmax && !r.1 {
      var sm := speedMod(x, z);
      var m' := MoveDefs.RMin(m, sm);
      if sm > 0.0 {
        ScanRowStops(speedMod, z, x + 1, xmax, m');
        ScanRowPasses(speedMod, z, x + 1, xmax, m');
        var xf :| x + 1 <= xf <= xmax && !(speedMod(xf, z) > 0.0) && r.0 <= speedMod(xf, z)
                  && forall x' :: x + 1 <= x' < xf ==> speedMod(x', z) > 0.0 && r.0 <= speedMod(x', z);
        assert forall x' :: x <= x' < xf ==> speedMod(x', z) > 0.0 && r.0 <= speedMod(x', z);
      } else {
        assert !(speedMod(x, z) > 0.0) && r.0 <= speedMod(x, z);
      }
    }
  }

  /**
   * The terrain scan of `TestMoveSquareRange` over rows z..zmax passes
   * exactly when every square of the rectangle has a positive modifier;
   * its minimum is at most m and, when it passes, at most every square's
   * modifier.
   */
  lemma {:induction false} ScanRowsPasses(speedMod: (int, int) -> real, z: int, zmax: int, xmin: int, xmax: int, m: real)
    ensures var r := ScanRows(speedMod, z, zmax, xmin, xmax, m);
      && r.0 <= m
      && (r.1 <==> forall x', z' :: z <= z' <= zmax && xmin <= x' <= xmax ==> speedMod(x', z') > 0.0)
      && (r.1 ==> forall x', z' :: z <= z' <= zmax && xmin <= x' <= xmax ==> r.0 <= speedMod(x', z'))
    decreases zmax - z
  {
    if z <= zmax {
      var row := ScanRow(speedMod, z, xmin, xmax, m);
      ScanRowPasses(speedMod, z, xmin, xmax, m);
      if row.1 {
        ScanRowsPasses(speedMod, z + 1, zmax, xmin, xmax, row.0);
      }
    }
  }

  /**
   * A failing terrain scan stops at a failing square: the scan passed every
   * square before it in row-major order, and the minimum is at most all
   * those modifiers and the failing one.
   */
  lemma {:induction false} ScanRowsStops(speedMod: (int, int) -> real, z: int, zmax: int, xmin: int, xmax: int, m: real)
    ensures var r := ScanRows(speedMod, z, zmax, xmin, xmax, m);
      !r.1 ==> exists xf, zf :: z <= zf <= zmax && xmin <= xf <= xmax
                 && !(speedMod(xf, zf) > 0.0) && r.0 <= speedMod(xf, zf)
                 && forall x', z' :: z <= z' && xmin <= x' <= xmax && RowMajorBefore(x', z', xf, zf)
                      ==> speedMod(x', z') > 0.0 && r.0 <= speedMod(x', z')
    decreases zmax - z
  {
    var r := ScanRows(speedMod, z, zmax, xmin, xmax, m);
    if z <= zmax && !r.1 {
      var row := ScanRow(speedMod, z, xmin, xmax, m);
      if row.1 {
        ScanRowPasses(speedMod, z, xmin, xmax, m);
        ScanRowsStops(speedMod, z + 1, zmax, xmin, xmax, row.0);
        ScanRowsPasses(speedMod, z + 1, zmax, xmin, xmax, row.0);
        var xf, zf :| z + 1 <= zf <= zmax && xmin <= xf <= xmax
                   && !(speedMod(xf, zf) > 0.0) && r.0 <= speedMod(xf, zf)
                   && forall x', z' :: z + 1 <= z' && xmin <= x' <= xmax && RowMajorBefore(x', z', xf, zf)
                        ==> speedMod(x', z') > 0.0 && r.0 <= speedMod(x', z');
        assert forall x', z' :: z <= z' && xmin <= x' <= xmax && RowMajorBefore(x', z', xf, zf)
                 ==> speedMod(x', z') > 0.0 && r.0 <= speedMod(x', z');
      } else {
        ScanRowStops(speedMod, z, xmin, xmax, m);
        var xf :| xmin <= xf <= xmax && !(speedMod(xf, z) > 0.0) && r.0 <= speedMod(xf, z)
                  && forall x' :: xmin <= x' < xf ==> speedMod(x', z) > 0.0 && r.0 <= speedMod(x', z);
        assert forall x', z' :: z <= z' && xmin <= x' <= xmax && RowMajorBefore(x', z', xf, z)
                 ==> speedMod(x', z') > 0.0 && r.0 <= speedMod(x', z');
      }
    }
  }

  /**
   * The row scan's minimum is attained: it is m, or the modifier of a
   * square the scan reached, one that only passing squares precede.
   */
  lemma {:induction false} ScanRowAttains(speedMod: (int, int) -> real, z: int, x: int, xmax: int, m: real)
    ensures var r := ScanRow(speedMod, z, x, xmax, m);
      r.0 == m || exists xa :: x <= xa <= xmax && r.0 == speedMod(xa, z)
                   && forall x' :: x <= x' < xa ==> speedMod(x', z) > 0.0
    decreases xmax - x
  {
    var r := ScanRow(speedMod, z, x, xmax, m);
    if x <= xmax && r.0 != m {
      var sm := speedMod(x, z);
      var m' := MoveDefs.RMin(m, sm);
      if r.0 == sm {
        assert forall x' :: x <= x' < x ==> speedMod(x', z) > 0.0;
      } else {
        ScanRowAttains(speedMod, z, x + 1, xmax, m');
        var xa :| x + 1 <= xa <= xmax && r.0 == speedMod(xa, z)
                  && forall x' :: x + 1 <= x' < xa ==> speedMod(x', z) > 0.0;
        assert forall x' :: x <= x' < xa ==> speedMod(x', z) > 0.0;
      }
    }
  }

  /**
   * The terrain scan's minimum is attained: it is m, or the modifier of a
   * square the scan reached, one that only passing squares precede in
   * row-major order.
   */
  lemma {:induction false} ScanRowsAttains(speedMod: (int, int) -> real, z: int, zmax: int, xmin: int, xmax: int, m: real)
    ensures var r := ScanRows(speedMod, z, zmax, xmin, xmax, m);
      r.0 == m || exists xa, za :: z <= za <= zmax && xmin <= xa <= xmax && r.0 == speedMod(xa, za)
                   && forall x', z' :: z <= z' && xmin <= x' <= xmax && RowMajorBefore(x', z', xa, za)
                        ==> speedMod(x', z') > 0.0
    decreases zmax - z
  {
    var r := ScanRows(speedMod, z, zmax, xmin, xmax, m);
    if z <= zmax && r.0 != m {
      var row := ScanRow(speedMod, z, xmin, xmax, m);
      if row.0 != m && (!row.1 || r.0 == row.0) {
        ScanRowAttains(speedMod, z, xmin, xmax, m);
        var xa :| xmin <= xa <= xmax && row.0 == speedMod(xa, z)
                  && forall x' :: xmin <= x' < xa ==> speedMod(x', z) > 0.0;
        assert forall x', z' :: z <= z' && xmin <= x' <= xmax && RowMajorBefore(x', z', xa, z)
                 ==> speedMod(x', z') > 0.0;
      } else {
        assert row.1;
        ScanRowPasses(speedMod, z, xmin, xmax, m);
        ScanRowsAttains(speedMod, z + 1, zmax, xmin, xmax, row.0);
        var xa, za :| z + 1 <= za <= zmax && xmin <= xa <= xmax && r.0 == speedMod(xa, za)
                      && forall x', z' :: z + 1 <= z' && xmin <= x' <= xmax && RowMajorBefore(x', z', xa, za)
                           ==> speedMod(x', z') > 0.0;
        assert forall x', z' :: z <= z' && xmin <= x' <= xmax && RowMajorBefore(x', z', xa, za)
                 ==> speedMod(x', z') > 0.0;
      }
    }
  }

  // ---------------------------------------------------------------------------
  // TestMovePositionForObjects
  // ---------------------------------------------------------------------------

  /** The footprint rectangle centred on square `pos`. */
  function FootprintRect(md: MoveDefs.MoveDef, pos: Int2): Rect {
    Rect(pos.x - md.xsizeh, pos.x + md.xsizeh, pos.y - md.zsizeh, pos.y + md.zsizeh)
  }

  /**
   * `MoveDef::TestMovePositionForObjects`: the footprint rectangle centred
   * on `pos` is free of structures. `rangeBlocked(r)` is
   * `RangeIsBlockedTempNum` over r for the collider and the caller's magic number.
   */
  function TestMovePositionForObjects(md: MoveDefs.MoveDef, rangeBlocked: Rect -> BlockBits, pos: Int2): bool {
    StructureFree(rangeBlocked(FootprintRect(md, pos)))
  }

  /**
   * For a profile built from a table, the rectangle that
   * `TestMovePositionForObjects` checks is exactly the footprint: xsize by
   * zsize squares with `pos` at its centre.
   */
  lemma PositionRectIsFootprint(e: MoveDefs.Engine, t: MoveDefs.MoveDefTable, pos: Int2)
    requires MoveDefs.ValidEngine(e)
    ensures var md := MoveDefs.MoveDefOf(e, t);
      var r := FootprintRect(md, pos);
      && r.xmax - r.xmin + 1 == md.xsize && r.zmax - r.zmin + 1 == md.zsize
      && r.xmin + r.xmax == 2 * pos.x && r.zmin + r.zmax == 2 * pos.y
  {
    MoveDefs.FootprintShape(e, t);
  }
}
