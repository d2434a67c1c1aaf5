/**
 * Movement profiles (`MoveDef`): how a profile is derived from its
 * configuration table, the depth speed modifier, and the profile checksum.
 *
 * Single-precision floats are modelled as reals (no rounding); the engine's
 * header constants that the profile code reads are gathered in `Engine`.
 */
module MoveDefs {
  import opened Wrappers

  // ---------------------------------------------------------------------------
  // Numbers
  // ---------------------------------------------------------------------------

  /** The largest finite single-precision float, `std::numeric_limits<float>::max()`. */
  const FLT_MAX: real := 340282346638528859811704183484516925440.0

  /** `std::max` on floats: the second argument only when it is strictly larger. */
  function RMax(a: real, b: real): real { if a < b then b else a }

  /** `std::min` on floats: the second argument only when it is strictly smaller. */
  function RMin(a: real, b: real): real { if b < a then b else a }

  function IMax(a: int, b: int): int { if a < b then b else a }

  function IMin(a: int, b: int): int { if b < a then b else a }

  /** `std::clamp(v, lo, hi)`. */
  function Clamp(v: real, lo: real, hi: real): real {
    if v < lo then lo else if hi < v then hi else v
  }

  // ---------------------------------------------------------------------------
  // Strings
  // ---------------------------------------------------------------------------

  /** ASCII lower-casing of one character, as `tolower` in the C locale. */
  function LowerChar(c: char): char {
    if 'A' <= c <= 'Z' then (c as int - 'A' as int + 'a' as int) as char else c
  }

  /** `StringToLower`. */
  function ToLower(s: string): (r: string)
    ensures |r| == |s|
    ensures forall i :: 0 <= i < |s| ==> r[i] == LowerChar(s[i])
  {
    if s == [] then [] else [LowerChar(s[0])] + ToLower(s[1..])
  }

  /** `p` occurs in `s` at position i. */
  ghost predicate OccursAt(s: string, p: string, i: int) {
    0 <= i && i + |p| <= |s| && s[i..i + |p|] == p
  }

  /** `s.find(p) != npos`. */
  function Contains(s: string, p: string): bool
    decreases |s|
  {
    if |s| < |p| then false else s[..|p|] == p || Contains(s[1..], p)
  }

  // ---------------------------------------------------------------------------
  // Profiles
  // ---------------------------------------------------------------------------

  /** The source's `SpeedModClass` enumeration, in declaration order Tank = 0 .. Ship = 3. */
  datatype SpeedModClass = Tank | KBot | Hover | Ship

  /** The source's `TerrainClass` enumeration. */
  datatype TerrainClass = Land | Water | Mixed

  /** `std::clamp(SpeedModClass(i), Tank, Ship)`. */
  function ClampSpeedModClass(i: int): SpeedModClass {
    if i <= 0 then Tank else if i == 1 then KBot else if i == 2 then Hover else Ship
  }

  /** `depthModParams[DEPTHMOD_*]`. */
  datatype DepthModParams = DepthModParams(
    minHeight: real, maxHeight: real, maxScale: real,
    quaCoeff: real, linCoeff: real, conCoeff: real)

  /** `speedModMults[SPEEDMOD_MOBILE_*]`. */
  datatype SpeedModMults = SpeedModMults(busyMult: real, idleMult: real, moveMult: real, numMults: real)

  datatype MoveDef = MoveDef(
    name: string,
    speedModClass: SpeedModClass,
    terrainClass: TerrainClass,
    pathType: int,
    xsize: int, xsizeh: int,
    zsize: int, zsizeh: int,
    depth: real,
    depthModParams: DepthModParams,
    maxSlope: real,
    slopeMod: real,
    crushStrength: real,
    speedModMults: SpeedModMults,
    heatMod: real,
    flowMod: real,
    heatProduced: int,
    followGround: bool,
    isSubmarine: bool,
    avoidMobilesOnPath: bool,
    allowTerrainCollisions: bool,
    allowRawMovement: bool,
    heatMapping: bool,
    flowMapping: bool)

  // ---------------------------------------------------------------------------
  // Configuration tables (a key that is absent, or of the wrong type, is None)
  // ---------------------------------------------------------------------------

  datatype DepthModTable = DepthModTable(
    minHeight: Option<real>, maxHeight: Option<real>, maxScale: Option<real>,
    quadraticCoeff: Option<real>, linearCoeff: Option<real>, constantCoeff: Option<real>)

  datatype SpeedModMultsTable = SpeedModMultsTable(
    mobileBusyMult: Option<real>, mobileIdleMult: Option<real>, mobileMoveMult: Option<real>)

  datatype MoveDefTable = MoveDefTable(
    name: Option<string>,
    crushStrength: Option<real>,
    minWaterDepth: Option<real>,
    maxWaterDepth: Option<real>,
    speedModClass: Option<int>,
    depthMod: Option<real>,
    depthModParams: DepthModTable,
    maxSlope: Option<real>,
    subMarine: Option<bool>,
    speedModMults: SpeedModMultsTable,
    avoidMobilesOnPath: Option<bool>,
    allowTerrainCollisions: Option<bool>,
    allowRawMovement: Option<bool>,
    heatMapping: Option<bool>,
    flowMapping: Option<bool>,
    heatMod: Option<real>,
    flowMod: Option<real>,
    heatProduced: Option<int>,
    slopeMod: Option<real>,
    footprintX: Option<int>,
    footprintZ: Option<int>)

  /**
   * Engine constants the profile code reads from headers: `GAME_SPEED`,
   * `SPRING_FOOTPRINT_SCALE`, the default water depths, the in-class
   * defaults of the fields the table constructor may leave alone, and
   * `oneMinusCos(deg)` = 1 - cos(deg in radians), the float part of
   * `DegreesToMaxSlope`.
   */
  datatype Engine = Engine(
    gameSpeed: int,
    footprintScale: int,
    defaultMinWaterDepth: real,
    defaultMaxWaterDepth: real,
    defaultMaxSlope: real,
    defaultTerrainClass: TerrainClass,
    defaultIsSubmarine: bool,
    defaultPathType: int,
    oneMinusCos: real -> real)

  ghost predicate ValidEngine(e: Engine) {
    && e.gameSpeed > 0
    && e.footprintScale >= 1
    && 0.0 <= e.defaultMaxSlope <= 1.0
    && forall deg :: 0.0 <= deg <= 90.0 ==> 0.0 <= e.oneMinusCos(deg) <= 1.0
  }

  /** `DegreesToMaxSlope`: the angle is clamped to [0, 60] degrees and scaled by 1.5. */
  function DegreesToMaxSlope(e: Engine, degrees: real): (r: real)
    requires ValidEngine(e)
    ensures 0.0 <= r <= 1.0
  {
    e.oneMinusCos(Clamp(degrees, 0.0, 60.0) * 1.5)
  }

  // ---------------------------------------------------------------------------
  // Deriving a profile from its table
  // ---------------------------------------------------------------------------

  /**
   * `ParseSpeedModClass`: an explicit class other than -1 is clamped into
   * Tank..Ship; otherwise the (lower-cased) name decides, "boat" or "ship"
   * first, then "hover", then "tank", and KBot when none occurs.
   */
  function ParseSpeedModClass(name: string, explicit: Option<int>): (c: SpeedModClass)
    ensures explicit.GetOr(-1) != -1 ==> c == ClampSpeedModClass(explicit.value)
    ensures explicit.GetOr(-1) == -1 ==>
      && (c == Ship <==> Contains(name, "boat") || Contains(name, "ship"))
      && (c == Hover <==> !Contains(name, "boat") && !Contains(name, "ship") && Contains(name, "hover"))
      && (c == Tank <==> !Contains(name, "boat") && !Contains(name, "ship") && !Contains(name, "hover")
                         && Contains(name, "tank"))
      && (c == KBot <==> !Contains(name, "boat") && !Contains(name, "ship") && !Contains(name, "hover")
                         && !Contains(name, "tank"))
  {
    var speedModClass := explicit.GetOr(-1);
    if speedModClass != -1 then ClampSpeedModClass(speedModClass)
    else if Contains(name, "boat") then Ship
    else if Contains(name, "ship") then Ship
    else if Contains(name, "hover") then Hover
    else if Contains(name, "tank") then Tank
    else KBot
  }

  /** Ground units (tanks and bots) follow the terrain; hovercraft and ships do not. */
  function FollowsGround(c: SpeedModClass): bool {
    c == Tank || c == KBot
  }

  /**
   * The terrain class, by the strongest condition that holds: Mixed for an
   * amphibious ground unit or a ship that may beach, else Water for a ship or
   * ground unit that needs water, else Land for a ground unit that cannot get
   * wet or a hovercraft, else the in-class default.
   */
  function TerrainClassOf(initial: TerrainClass, c: SpeedModClass, minWaterDepth: real, maxWaterDepth: real): TerrainClass {
    var ground := FollowsGround(c);
    if (ground && maxWaterDepth > 0.0) || (c == Ship && minWaterDepth < 0.0) then Mixed
    else if (c == Ship && minWaterDepth > 0.0) || (ground && minWaterDepth > 0.0) then Water
    else if (ground && maxWaterDepth <= 0.0) || c == Hover then Land
    else initial
  }

  /**
   * Footprint side in heightmap squares: the configured side (at least 1)
   * times the footprint scale, rounded down to an odd number.
   */
  function FootprintSide(e: Engine, configured: int): int {
    var side := IMax(1, configured) * e.footprintScale;
    if side % 2 == 1 then side else side - 1
  }

  /** The fixed-default depth parameters of `MoveDef()`. */
  function DefaultDepthModParams(): DepthModParams {
    DepthModParams(0.0, FLT_MAX, FLT_MAX, 0.0, 0.1, 1.0)
  }

  /** Depth parameters of a tank or bot: each clamped below, and maxHeight raised to at least minHeight. */
  function GroundDepthModParams(t: MoveDefTable): DepthModParams {
    var d := t.depthModParams;
    var minHeight := RMax(0.0, d.minHeight.GetOr(0.0));
    var maxHeight := d.maxHeight.GetOr(FLT_MAX);
    DepthModParams(
      minHeight,
      RMax(minHeight, maxHeight),
      RMax(0.01, d.maxScale.GetOr(FLT_MAX)),
      RMax(0.0, d.quadraticCoeff.GetOr(0.0)),
      RMax(0.0, d.linearCoeff.GetOr(t.depthMod.GetOr(0.1))),
      RMax(0.0, d.constantCoeff.GetOr(1.0)))
  }

  /** The slope limit: ships keep `initial`, hovercraft default to 15 degrees and ground units to 60. */
  function ClassMaxSlope(e: Engine, t: MoveDefTable, c: SpeedModClass, initial: real): real
    requires ValidEngine(e)
  {
    if c == Ship then initial
    else DegreesToMaxSlope(e, t.maxSlope.GetOr(if c == Hover then 15.0 else 60.0))
  }

  /** The profile a table describes (before the registry sets `pathType`). */
  function MoveDefOf(e: Engine, t: MoveDefTable): MoveDef
    requires ValidEngine(e)
  {
    var name := ToLower(t.name.GetOr(""));
    var minWaterDepth := t.minWaterDepth.GetOr(e.defaultMinWaterDepth);
    var maxWaterDepth := t.maxWaterDepth.GetOr(e.defaultMaxWaterDepth);
    var c := ParseSpeedModClass(name, t.speedModClass);
    var isShip := c == Ship;
    var maxSlope := ClassMaxSlope(e, t, c, e.defaultMaxSlope);
    var xsize := FootprintSide(e, t.footprintX.GetOr(1));
    var zsize := FootprintSide(e, t.footprintZ.GetOr(IMax(1, t.footprintX.GetOr(1))));
    var mults := t.speedModMults;
    MoveDef(
      name := name,
      speedModClass := c,
      terrainClass := TerrainClassOf(e.defaultTerrainClass, c, minWaterDepth, maxWaterDepth),
      pathType := e.defaultPathType,
      xsize := xsize, xsizeh := xsize / 2,
      zsize := zsize, zsizeh := zsize / 2,
      depth := if isShip then minWaterDepth else maxWaterDepth,
      depthModParams := if FollowsGround(c) then GroundDepthModParams(t) else DefaultDepthModParams(),
      maxSlope := maxSlope,
      slopeMod := t.slopeMod.GetOr(4.0 / (maxSlope + 0.001)),
      crushStrength := t.crushStrength.GetOr(10.0),
      speedModMults := SpeedModMults(
        RMax(0.01, mults.mobileBusyMult.GetOr(1.0)),
        RMax(0.01, mults.mobileIdleMult.GetOr(1.0)),
        RMax(0.01, mults.mobileMoveMult.GetOr(1.0)),
        0.0),
      heatMod := t.heatMod.GetOr((1.0 / (e.gameSpeed * 2) as real) * 0.25),
      flowMod := t.flowMod.GetOr(1.0),
      heatProduced := t.heatProduced.GetOr(e.gameSpeed * 2),
      followGround := FollowsGround(c),
      isSubmarine := if isShip then t.subMarine.GetOr(false) else e.defaultIsSubmarine,
      avoidMobilesOnPath := t.avoidMobilesOnPath.GetOr(true),
      allowTerrainCollisions := t.allowTerrainCollisions.GetOr(true),
      allowRawMovement := t.allowRawMovement.GetOr(false),
      heatMapping := t.heatMapping.GetOr(false),
      flowMapping := t.flowMapping.GetOr(true))
  }

  /**
   * `MoveDef()`: the fixed defaults. Fields that the table constructor always
   * assigns get neutral values here; the ones it may leave alone take the
   * engine's in-class defaults.
   */
  function DefaultMoveDef(e: Engine): MoveDef {
    MoveDef(
      name := "", speedModClass := Tank, terrainClass := e.defaultTerrainClass, pathType := e.defaultPathType,
      xsize := 1, xsizeh := 0, zsize := 1, zsizeh := 0,
      depth := 0.0, depthModParams := DefaultDepthModParams(), maxSlope := e.defaultMaxSlope, slopeMod := 0.0,
      crushStrength := 0.0, speedModMults := SpeedModMults(0.10, 0.35, 0.65, 0.0),
      heatMod := 0.0, flowMod := 0.0, heatProduced := 0,
      followGround := true, isSubmarine := e.defaultIsSubmarine,
      avoidMobilesOnPath := true, allowTerrainCollisions := true, allowRawMovement := false,
      heatMapping := false, flowMapping := true)
  }

  /**
   * `MoveDef(const LuaTable&)`, field by field as the source assigns them,
   * including the three terrain-class tests that overwrite one another.
   */
  method NewMoveDef(e: Engine, t: MoveDefTable) returns (md: MoveDef)
    requires ValidEngine(e)
    ensures md == MoveDefOf(e, t)
  {
    var d := DefaultMoveDef(e);
    var name := ToLower(t.name.GetOr(""));
    var crushStrength := t.crushStrength.GetOr(10.0);

    var speedModMultsTable := t.speedModMults;
    var minWaterDepth := t.minWaterDepth.GetOr(e.defaultMinWaterDepth);
    var maxWaterDepth := t.maxWaterDepth.GetOr(e.defaultMaxWaterDepth);

    var speedModClass := ParseSpeedModClass(name, t.speedModClass);
    var depthModParams, depth, maxSlope, isSubmarine :=
      SpeedModClassFields(e, t, d, speedModClass, minWaterDepth, maxWaterDepth);

    var speedModMults := SpeedModMults(
      RMax(0.01, speedModMultsTable.mobileBusyMult.GetOr(1.0)),
      RMax(0.01, speedModMultsTable.mobileIdleMult.GetOr(1.0)),
      RMax(0.01, speedModMultsTable.mobileMoveMult.GetOr(1.0)),
      d.speedModMults.numMults);

    var heatMod := t.heatMod.GetOr((1.0 / (e.gameSpeed * 2) as real) * 0.25);
    var flowMod := t.flowMod.GetOr(1.0);
    var heatProduced := t.heatProduced.GetOr(e.gameSpeed * 2);
    var slopeMod := t.slopeMod.GetOr(4.0 / (maxSlope + 0.001));

    var followGround := speedModClass == Tank || speedModClass == KBot;
    var terrainClass := TerrainClassTests(d.terrainClass, speedModClass, followGround, minWaterDepth, maxWaterDepth);

    var xsize, xsizeh, zsize, zsizeh := Footprint(e, t);

    md := MoveDef(
      name := name, speedModClass := speedModClass, terrainClass := terrainClass, pathType := d.pathType,
      xsize := xsize, xsizeh := xsizeh, zsize := zsize, zsizeh := zsizeh,
      depth := depth, depthModParams := depthModParams, maxSlope := maxSlope, slopeMod := slopeMod,
      crushStrength := crushStrength, speedModMults := speedModMults,
      heatMod := heatMod, flowMod := flowMod, heatProduced := heatProduced,
      followGround := followGround, isSubmarine := isSubmarine,
      avoidMobilesOnPath := t.avoidMobilesOnPath.GetOr(true),
      allowTerrainCollisions := t.allowTerrainCollisions.GetOr(true),
      allowRawMovement := t.allowRawMovement.GetOr(false),
      heatMapping := t.heatMapping.GetOr(false),
      flowMapping := t.flowMapping.GetOr(true));
  }

  /**
   * The constructor's switch on the speed class: tanks and bots clamp the
   * depth parameters and take the maximum water depth and a slope limit of
   * 60 degrees by default, hovercraft the maximum depth and 15 degrees, and
   * ships the minimum depth and the submarine flag. Fields a case does not
   * assign keep their values from `d`.
   */
  method SpeedModClassFields(e: Engine, t: MoveDefTable, d: MoveDef, c: SpeedModClass,
                             minWaterDepth: real, maxWaterDepth: real)
    returns (depthModParams: DepthModParams, depth: real, maxSlope: real, isSubmarine: bool)
    requires ValidEngine(e)
    ensures depthModParams == (if FollowsGround(c) then GroundDepthModParams(t) else d.depthModParams)
    ensures depth == (if c == Ship then minWaterDepth else maxWaterDepth)
    ensures maxSlope == ClassMaxSlope(e, t, c, d.maxSlope)
    ensures isSubmarine == (if c == Ship then t.subMarine.GetOr(false) else d.isSubmarine)
  {
    var depthModTable := t.depthModParams;
    depthModParams, depth, maxSlope, isSubmarine := d.depthModParams, d.depth, d.maxSlope, d.isSubmarine;
    match c {
      case Tank | KBot =>
        var minHeight := RMax(0.0, depthModTable.minHeight.GetOr(0.0));
        var maxHeight := depthModTable.maxHeight.GetOr(FLT_MAX);
        var maxScale := RMax(0.01, depthModTable.maxScale.GetOr(FLT_MAX));
        var quaCoeff := RMax(0.0, depthModTable.quadraticCoeff.GetOr(0.0));
        var linCoeff := RMax(0.0, depthModTable.linearCoeff.GetOr(t.depthMod.GetOr(0.1)));
        var conCoeff := RMax(0.0, depthModTable.constantCoeff.GetOr(1.0));
        // [minHeight, maxHeight] must be a valid range
        maxHeight := RMax(minHeight, maxHeight);
        depthModParams := DepthModParams(minHeight, maxHeight, maxScale, quaCoeff, linCoeff, conCoeff);
        depth := maxWaterDepth;
        maxSlope := DegreesToMaxSlope(e, t.maxSlope.GetOr(60.0));
      case Hover =>
        depth := maxWaterDepth;
        maxSlope := DegreesToMaxSlope(e, t.maxSlope.GetOr(15.0));
      case Ship =>
        depth := minWaterDepth;
        isSubmarine := t.subMarine.GetOr(false);
    }
  }

  /**
   * The constructor's three terrain-class tests, run in order so that a
   * later one overwrites an earlier one; `initial` is kept when none holds.
   */
  method TerrainClassTests(initial: TerrainClass, speedModClass: SpeedModClass, followGround: bool,
                           minWaterDepth: real, maxWaterDepth: real)
    returns (terrainClass: TerrainClass)
    requires followGround == FollowsGround(speedModClass)
    ensures terrainClass == TerrainClassOf(initial, speedModClass, minWaterDepth, maxWaterDepth)
  {
    terrainClass := initial;
    if (followGround && maxWaterDepth <= 0.0) || speedModClass == Hover {
      terrainClass := Land;
    }
    if (speedModClass == Ship && minWaterDepth > 0.0) || (followGround && minWaterDepth > 0.0) {
      terrainClass := Water;
    }
    if (followGround && maxWaterDepth > 0.0) || (speedModClass == Ship && minWaterDepth < 0.0) {
      terrainClass := Mixed;
    }
  }

  /** The constructor's footprint: configured sides scaled and rounded down to odd, and the half sides. */
  method Footprint(e: Engine, t: MoveDefTable) returns (xsize: int, xsizeh: int, zsize: int, zsizeh: int)
    ensures xsize == FootprintSide(e, t.footprintX.GetOr(1)) && xsizeh == xsize / 2
    ensures zsize == FootprintSide(e, t.footprintZ.GetOr(IMax(1, t.footprintX.GetOr(1)))) && zsizeh == zsize / 2
  {
    var xsizeDef := IMax(1, t.footprintX.GetOr(1));
    var zsizeDef := IMax(1, t.footprintZ.GetOr(xsizeDef));
    // only odd sides: every footprint has a unique centre square
    xsize := xsizeDef * e.footprintScale;
    zsize := zsizeDef * e.footprintScale;
    xsize := xsize - (if xsize % 2 == 1 then 0 else 1);
    zsize := zsize - (if zsize % 2 == 1 then 0 else 1);
    xsizeh := xsize / 2;
    zsizeh := zsize / 2;
  }

  // ---------------------------------------------------------------------------
  // What a derived profile satisfies
  // ---------------------------------------------------------------------------

  /** `s.find(p) != npos` holds exactly when `p` occurs somewhere in `s`. */
  lemma {:induction false} ContainsIff(s: string, p: string)
    ensures Contains(s, p) <==> exists i :: OccursAt(s, p, i)
    decreases |s|
  {
    if |s| >= |p| {
      if s[..|p|] == p {
        assert OccursAt(s, p, 0);
      } else if Contains(s[1..], p) {
        ContainsIff(s[1..], p);
        var i :| OccursAt(s[1..], p, i);
        assert s[1..][i..i + |p|] == s[i + 1..i + 1 + |p|];
        assert OccursAt(s, p, i + 1);
      } else if exists i :: OccursAt(s, p, i) {
        ContainsIff(s[1..], p);
        var i :| OccursAt(s, p, i);
        assert i != 0;
        assert s[1..][i - 1..i - 1 + |p|] == s[i..i + |p|];
        assert OccursAt(s[1..], p, i - 1);
      }
    }
  }

  /**
   * Footprints are odd, at least one square, centred (side = 2 * half + 1),
   * and a missing footprintZ means a square footprint.
   */
  lemma FootprintShape(e: Engine, t: MoveDefTable)
    requires ValidEngine(e)
    ensures var md := MoveDefOf(e, t);
      && md.xsize >= 1 && md.xsize % 2 == 1 && md.xsize == 2 * md.xsizeh + 1
      && md.zsize >= 1 && md.zsize % 2 == 1 && md.zsize == 2 * md.zsizeh + 1
      && (t.footprintZ.None? ==> md.zsize == md.xsize)
  {
    FootprintSideOdd(e, t.footprintX.GetOr(1));
    FootprintSideOdd(e, t.footprintZ.GetOr(IMax(1, t.footprintX.GetOr(1))));
    assert IMax(1, IMax(1, t.footprintX.GetOr(1))) == IMax(1, t.footprintX.GetOr(1));
  }

  lemma FootprintSideOdd(e: Engine, configured: int)
    requires e.footprintScale >= 1
    ensures var side := FootprintSide(e, configured);
      side >= 1 && side % 2 == 1 && side == 2 * (side / 2) + 1
      && IMax(1, configured) * e.footprintScale - 1 <= side <= IMax(1, configured) * e.footprintScale
  {
    var n := IMax(1, configured);
    MulAtLeastOne(n, e.footprintScale);
  }

  lemma MulAtLeastOne(a: int, b: int)
    requires a >= 1 && b >= 1
    ensures a * b >= 1
  {
    assert a * b >= 1 * b;
  }

  /** The three speed multipliers are at least 0.01. */
  lemma SpeedMultsFloor(e: Engine, t: MoveDefTable)
    requires ValidEngine(e)
    ensures var m := MoveDefOf(e, t).speedModMults;
      m.busyMult >= 0.01 && m.idleMult >= 0.01 && m.moveMult >= 0.01
  {}

  /** The depth parameters every profile keeps: maxScale at least 0.01 and a non-empty height range. */
  ghost predicate ValidDepthModParams(p: DepthModParams) {
    p.maxScale >= 0.01 && 0.0 <= p.minHeight <= p.maxHeight
  }

  /**
   * Tanks and bots get clamped depth parameters: minHeight and all three
   * coefficients non-negative, maxScale at least 0.01, maxHeight at least
   * minHeight; other classes keep the fixed defaults. Either way the
   * parameters are valid for `GetDepthMod`.
   */
  lemma DepthModParamsClamped(e: Engine, t: MoveDefTable)
    requires ValidEngine(e)
    ensures var md := MoveDefOf(e, t);
      var p := md.depthModParams;
      && ValidDepthModParams(p)
      && (md.followGround ==> p.quaCoeff >= 0.0 && p.linCoeff >= 0.0 && p.conCoeff >= 0.0)
      && (!md.followGround ==> p == DefaultDepthModParams())
  {}

  /**
   * The speed class and what follows from it: ground-following exactly for
   * tanks and bots, ships sit at the minimum water depth and every other
   * class at the maximum, and only ships read the submarine flag.
   */
  lemma SpeedClassConsequences(e: Engine, t: MoveDefTable)
    requires ValidEngine(e)
    ensures var md := MoveDefOf(e, t);
      var minWaterDepth := t.minWaterDepth.GetOr(e.defaultMinWaterDepth);
      var maxWaterDepth := t.maxWaterDepth.GetOr(e.defaultMaxWaterDepth);
      && md.speedModClass == ParseSpeedModClass(ToLower(t.name.GetOr("")), t.speedModClass)
      && (md.followGround <==> md.speedModClass == Tank || md.speedModClass == KBot)
      && md.depth == (if md.speedModClass == Ship then minWaterDepth else maxWaterDepth)
      && (md.speedModClass != Ship ==> md.isSubmarine == e.defaultIsSubmarine)
      && 0.0 <= md.maxSlope <= 1.0
  {}

  /**
   * The terrain class by speed class: a hovercraft is always Land; a tank or
   * bot is Mixed when it may enter water, else Water when it needs water,
   * else Land; a ship is Water or Mixed by the sign of its minimum depth, and
   * keeps its initial class when that depth is exactly zero.
   */
  lemma TerrainClassCases(initial: TerrainClass, c: SpeedModClass, minWaterDepth: real, maxWaterDepth: real)
    ensures var tc := TerrainClassOf(initial, c, minWaterDepth, maxWaterDepth);
      && (c == Hover ==> tc == Land)
      && (FollowsGround(c) ==>
            tc == (if maxWaterDepth > 0.0 then Mixed else if minWaterDepth > 0.0 then Water else Land))
      && (c == Ship ==>
            tc == (if minWaterDepth < 0.0 then Mixed else if minWaterDepth > 0.0 then Water
                   else initial))
  {}

  // ---------------------------------------------------------------------------
  // Depth speed modifier
  // ---------------------------------------------------------------------------

  /**
   * `MoveDef::GetDepthMod`: 1 above the minimum depth, 0 below the maximum
   * depth, and in between the reciprocal of the quadratic a*d*d + b*d + c in
   * the depth d = -height, clamped to [0.01, maxScale].
   */
  function GetDepthMod(p: DepthModParams, height: real): (r: real)
    requires p.maxScale >= 0.01
    ensures height > -p.minHeight ==> r == 1.0
    ensures height <= -p.minHeight && height < -p.maxHeight ==> r == 0.0
    ensures -p.maxHeight <= height <= -p.minHeight ==>
      1.0 / p.maxScale <= r <= 100.0 && r == 1.0 / Clamp(DepthPoly(p, -height), 0.01, p.maxScale)
  {
    if height > -p.minHeight then 1.0
    else if height < -p.maxHeight then 0.0
    else
      var depth := -height;
      var scale := Clamp(p.quaCoeff * depth * depth + p.linCoeff * depth + p.conCoeff, 0.01, p.maxScale);
      ReciprocalBounds(scale, p.maxScale);
      1.0 / scale
  }

  /** The depth polynomial a*d*d + b*d + c. */
  function DepthPoly(p: DepthModParams, depth: real): real {
    p.quaCoeff * depth * depth + p.linCoeff * depth + p.conCoeff
  }

  lemma ReciprocalBounds(scale: real, maxScale: real)
    requires 0.01 <= scale <= maxScale
    ensures 1.0 / maxScale <= 1.0 / scale <= 100.0
  {
    assert 1.0 / scale <= 1.0 / 0.01 by {
      DivMonotone(0.01, scale);
    }
    DivMonotone(scale, maxScale);
  }

  lemma DivMonotone(x: real, y: real)
    requires 0.0 < x <= y
    ensures 1.0 / y <= 1.0 / x
  {
  }
}
