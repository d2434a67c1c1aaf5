/**
 * The two-cursor straight-line walk that a raw (direct) move search runs over
 * map squares (the `StepFunc` / `walkPath` lambdas of `MoveDef::DoRawSearch`).
 *
 * One cursor starts on the start square and walks towards the end square, the
 * other starts on the end square and walks back; both use the same integer
 * error term with doubled deltas, so they make mirror-image moves. Each round
 * tests both cursors' squares and stops once the cursors are within one square
 * of each other.
 *
 * The reference definition is `WalkFrom`, written in terms of `OffsetsAt` (how
 * far each cursor has moved along each axis after k rounds), with no step
 * counter and no error bookkeeping. `WalkPath`, the loop as the source runs
 * it, is proved equal to it; this needs the theorem that the cursors always
 * meet at offsets (dx/2, dy/2), the middle of the line, before the source's
 * step counter can run out.
 */
module LineWalk {

  /** A pair of grid coordinates (the source's int2; `y` is the map's z axis). */
  datatype Int2 = Int2(x: int, y: int)

  function Abs(n: int): nat { if n < 0 then -n else n }

  function Max(a: int, b: int): int { if a < b then b else a }

  /** Both coordinates differ by at most one: the walk's stopping test. */
  predicate Near(p: Int2, q: Int2) {
    Abs(p.x - q.x) <= 1 && Abs(p.y - q.y) <= 1
  }

  /** Chebyshev (king-move) distance between two squares. */
  function Chebyshev(p: Int2, q: Int2): nat {
    Max(Diff(p, q).x, Diff(p, q).y)
  }

  /** Per-axis sign of the step from `from` towards `to`; -1 on an axis where they agree. */
  function StepDir(from: Int2, to: Int2): Int2 {
    Int2(if to.x > from.x then 1 else -1, if to.y > from.y then 1 else -1)
  }

  /** Absolute per-axis distance between two squares (the source's `diffBlk`). */
  function Diff(p: Int2, q: Int2): Int2 {
    Int2(Abs(q.x - p.x), Abs(q.y - p.y))
  }

  // ---------------------------------------------------------------------------
  // Reference definition: the walk in terms of offsets travelled
  // ---------------------------------------------------------------------------

  /** After some rounds: `a` steps taken along x, `b` along y, `e` the error term. */
  datatype Offs = Offs(a: int, b: int, e: int)

  /**
   * One round of the walk for deltas (dx, dy): a positive error moves along x,
   * a negative one along y, and an error of exactly zero (a vertex crossing)
   * moves diagonally.
   */
  function BresenhamStep(dx: int, dy: int, o: Offs): Offs {
    Offs(o.a + (if o.e >= 0 then 1 else 0),
         o.b + (if o.e <= 0 then 1 else 0),
         o.e - (if o.e >= 0 then 2 * dy else 0) + (if o.e <= 0 then 2 * dx else 0))
  }

  function OffsetsAt(dx: int, dy: int, k: nat): Offs {
    if k == 0 then Offs(0, 0, dx - dy) else BresenhamStep(dx, dy, OffsetsAt(dx, dy, k - 1))
  }

  /** The offsets put the two cursors within one square of each other. */
  predicate NearOffs(dx: int, dy: int, o: Offs) {
    Abs(dx - 2 * o.a) <= 1 && Abs(dy - 2 * o.b) <= 1
  }

  /** `from` moved `n` squares along one axis in the direction of `to` (downwards when they agree). */
  function Toward(from: int, to: int, n: int): int {
    if to > from then from + n else from - n
  }

  /** Square of the forward cursor after k rounds. */
  function FwdBlock(start: Int2, end: Int2, k: nat): Int2 {
    var d := Diff(start, end);
    var o := OffsetsAt(d.x, d.y, k);
    Int2(Toward(start.x, end.x, o.a), Toward(start.y, end.y, o.b))
  }

  /** Square of the reverse cursor after k rounds. */
  function RevBlock(start: Int2, end: Int2, k: nat): Int2 {
    var d := Diff(start, end);
    var o := OffsetsAt(d.x, d.y, k);
    Int2(Toward(end.x, start.x, o.a), Toward(end.y, start.y, o.b))
  }

  /**
   * The j-th square handed to the test by a walk from round k on, if it goes
   * on long enough: forward and reverse cursors alternate, one round at a time.
   */
  function ScheduleFrom(start: Int2, end: Int2, k: nat, j: nat): Int2
    decreases j
  {
    if j == 0 then FwdBlock(start, end, k)
    else if j == 1 then RevBlock(start, end, k)
    else ScheduleFrom(start, end, k + 1, j - 2)
  }

  /** No round before round k put the cursors within one square of each other. */
  ghost predicate Apart(start: Int2, end: Int2, k: nat) {
    k == 0 || (Apart(start, end, k - 1) && !Near(FwdBlock(start, end, k - 1), RevBlock(start, end, k - 1)))
  }

  /** The number of rounds after which the cursors are sure to have met: dx/2 + dy/2. */
  function MeetBudget(start: Int2, end: Int2): nat {
    Diff(start, end).x / 2 + Diff(start, end).y / 2
  }

  // ---------------------------------------------------------------------------
  // A test with state, run over a sequence of squares
  // ---------------------------------------------------------------------------

  /** State of a stateful square test after it has been applied to `sq` in order. */
  function StateAfter<S>(f: (S, Int2) -> (S, bool), s0: S, sq: seq<Int2>): S
    decreases |sq|
  {
    if sq == [] then s0 else StateAfter(f, f(s0, sq[0]).0, sq[1..])
  }

  /** Verdict of the test on `sq[i]`, in the state left by the squares before it. */
  function Verdict<S>(f: (S, Int2) -> (S, bool), s0: S, sq: seq<Int2>, i: nat): bool
    requires i < |sq|
  {
    f(StateAfter(f, s0, sq[..i]), sq[i]).1
  }

  /** The test passes on every square of `sq`, each in the state left by the ones before. */
  ghost predicate AllPass<S>(f: (S, Int2) -> (S, bool), s0: S, sq: seq<Int2>) {
    forall i :: 0 <= i < |sq| ==> Verdict(f, s0, sq, i)
  }

  // ---------------------------------------------------------------------------
  // Reference definition of the walk
  // ---------------------------------------------------------------------------

  /**
   * The walk from round k on, with the test in state s: the test's final
   * state and the walk's verdict. A round tests the forward square, then (if that
   * passed) the reverse square; it ends the walk on a failed test or when the
   * two squares are within one square of each other.
   */
  ghost function WalkFrom<S>(start: Int2, end: Int2, f: (S, Int2) -> (S, bool), k: nat, s: S): (S, bool)
    requires Apart(start, end, k)
    decreases MeetBudget(start, end) - k
  {
    ApartBound(start, end, k);
    var fwd, rev := FwdBlock(start, end, k), RevBlock(start, end, k);
    var v1 := f(s, fwd);
    if !v1.1 then v1
    else
      var v2 := f(v1.0, rev);
      if !v2.1 || Near(fwd, rev) then v2
      else
        ApartBound(start, end, k + 1);
        WalkFrom(start, end, f, k + 1, v2.0)
  }

  /** The squares the walk from round k on hands to the test, in order. */
  ghost function SquaresFrom<S>(start: Int2, end: Int2, f: (S, Int2) -> (S, bool), k: nat, s: S): seq<Int2>
    requires Apart(start, end, k)
    decreases MeetBudget(start, end) - k
  {
    ApartBound(start, end, k);
    var fwd, rev := FwdBlock(start, end, k), RevBlock(start, end, k);
    var v1 := f(s, fwd);
    if !v1.1 then [fwd]
    else
      var v2 := f(v1.0, rev);
      if !v2.1 || Near(fwd, rev) then [fwd, rev]
      else
        ApartBound(start, end, k + 1);
        [fwd, rev] + SquaresFrom(start, end, f, k + 1, v2.0)
  }

  /** The whole walk from `start` to `end` with test `f` in initial state `s0`. */
  ghost function Walk<S>(start: Int2, end: Int2, f: (S, Int2) -> (S, bool), s0: S): (S, bool) {
    WalkFrom(start, end, f, 0, s0)
  }

  /** The squares the whole walk hands to the test. */
  ghost function Squares<S>(start: Int2, end: Int2, f: (S, Int2) -> (S, bool), s0: S): seq<Int2> {
    SquaresFrom(start, end, f, 0, s0)
  }

  // ---------------------------------------------------------------------------
  // The walk as the source runs it
  // ---------------------------------------------------------------------------

  /** The source's `StepFunc`: move `pos` one step as `err.y` says and update `err.x`. */
  function StepFunc(dir: Int2, dif: Int2, pos: Int2, err: Int2): (Int2, Int2) {
    var px := pos.x + (if err.y >= 0 then dir.x else 0);
    var py := pos.y + (if err.y <= 0 then dir.y else 0);
    var ex := err.x - (if err.y >= 0 then dif.y else 0) + (if err.y <= 0 then dif.x else 0);
    (Int2(px, py), Int2(ex, err.y))
  }

  /**
   * The source's `walkPath`: runs the two-cursor walk from `startBlock` to
   * `endBlock`, applying the stateful test `f` to the forward cursor's square
   * and then (if that passed) to the reverse cursor's square each round.
   * `s` is the test's state afterwards.
   */
  method WalkPath<S>(startBlock: Int2, endBlock: Int2, f: (S, Int2) -> (S, bool), s0: S)
    returns (result: bool, s: S)
    ensures (s, result) == Walk(startBlock, endBlock, f, s0)
  {
    var diffBlk := Diff(startBlock, endBlock);
    var dx, dy := diffBlk.x, diffBlk.y;
    var fwdStepDir := StepDir(startBlock, endBlock);
    var revStepDir := StepDir(endBlock, startBlock);
    var blkStepCtr := Int2(dx + dy + 1, dx + dy + 1);
    var fwdStepErr := Int2(dx - dy, dx - dy);
    var revStepErr := fwdStepErr;
    var fwdTestBlk := startBlock;
    var revTestBlk := endBlock;

    result := true;
    s := s0;
    ghost var k: nat := 0;

    while blkStepCtr.x > 0 && blkStepCtr.y > 0
      invariant Apart(startBlock, endBlock, k)
      invariant fwdTestBlk == FwdBlock(startBlock, endBlock, k)
      invariant revTestBlk == RevBlock(startBlock, endBlock, k)
      invariant fwdStepErr == Int2(OffsetsAt(dx, dy, k).e, OffsetsAt(dx, dy, k).e)
      invariant revStepErr == fwdStepErr
      invariant blkStepCtr.x == blkStepCtr.y == dx + dy + 1 - OffsetsAt(dx, dy, k).a - OffsetsAt(dx, dy, k).b
      invariant blkStepCtr.x >= 1
      invariant WalkFrom(startBlock, endBlock, f, k, s) == Walk(startBlock, endBlock, f, s0)
      decreases blkStepCtr.x
    {
      ghost var s_k := s;
      WalkFromUnfold(startBlock, endBlock, f, k, s);
      var fwdVerdict := f(s, fwdTestBlk);
      result, s := fwdVerdict.1, fwdVerdict.0;
      if !result {
        return;
      }
      var revVerdict := f(s, revTestBlk);
      result, s := revVerdict.1, revVerdict.0;
      if !result {
        return;
      }

      // for odd-length paths the centre square is tested twice
      if Abs(fwdTestBlk.x - revTestBlk.x) <= 1 && Abs(fwdTestBlk.y - revTestBlk.y) <= 1 {
        return;
      }

      fwdTestBlk, revTestBlk, fwdStepErr, revStepErr, blkStepCtr :=
        StepCursors(startBlock, endBlock, k, fwdStepDir, revStepDir, Int2(dx * 2, dy * 2),
                    fwdTestBlk, revTestBlk, fwdStepErr, revStepErr, blkStepCtr);
      k := k + 1;
    }
    // the counter never runs out: the walk always stops inside the loop
    assert false;
  }

  /**
   * The end of one round of `walkPath`: both cursors take a `StepFunc` step,
   * each counter loses an extra step when its cursor crossed a vertex
   * exactly, the errors are latched, and both counters count the round.
   */
  method StepCursors(ghost start: Int2, ghost end: Int2, ghost k: nat,
                     fwdStepDir: Int2, revStepDir: Int2, dif: Int2,
                     fwdTestBlk: Int2, revTestBlk: Int2, fwdStepErr: Int2, revStepErr: Int2, blkStepCtr: Int2)
    returns (fwdTestBlk': Int2, revTestBlk': Int2, fwdStepErr': Int2, revStepErr': Int2, blkStepCtr': Int2)
    requires Apart(start, end, k) && !Near(FwdBlock(start, end, k), RevBlock(start, end, k))
    requires var d := Diff(start, end);
      && fwdStepDir == StepDir(start, end) && revStepDir == StepDir(end, start) && dif == Int2(d.x * 2, d.y * 2)
    requires var d := Diff(start, end);
      var o := OffsetsAt(d.x, d.y, k);
      && fwdTestBlk == FwdBlock(start, end, k) && revTestBlk == RevBlock(start, end, k)
      && fwdStepErr == Int2(o.e, o.e) && revStepErr == fwdStepErr
      && blkStepCtr.x == blkStepCtr.y == d.x + d.y + 1 - o.a - o.b
    ensures var d := Diff(start, end);
      var o := OffsetsAt(d.x, d.y, k + 1);
      && fwdTestBlk' == FwdBlock(start, end, k + 1) && revTestBlk' == RevBlock(start, end, k + 1)
      && fwdStepErr' == Int2(o.e, o.e) && revStepErr' == fwdStepErr'
      && blkStepCtr'.x == blkStepCtr'.y == d.x + d.y + 1 - o.a - o.b
      && blkStepCtr'.x >= 1
  {
    RoundAdvances(start, end, k);
    var fwdNext := StepFunc(fwdStepDir, dif, fwdTestBlk, fwdStepErr);
    var revNext := StepFunc(revStepDir, dif, revTestBlk, revStepErr);
    fwdTestBlk', fwdStepErr', revTestBlk', revStepErr' := fwdNext.0, fwdNext.1, revNext.0, revNext.1;

    // skip if exactly crossing a vertex (in either direction)
    blkStepCtr' := Int2(blkStepCtr.x - (if fwdStepErr'.y == 0 then 1 else 0),
                        blkStepCtr.y - (if revStepErr'.y == 0 then 1 else 0));
    fwdStepErr' := fwdStepErr'.(y := fwdStepErr'.x);
    revStepErr' := revStepErr'.(y := revStepErr'.x);
    blkStepCtr' := Int2(blkStepCtr'.x - 1, blkStepCtr'.y - 1);
  }

  // ---------------------------------------------------------------------------
  // Lemmas behind WalkPath
  // ---------------------------------------------------------------------------

  /** The three ways a round of the walk can go: fail, meet, or carry on to round k + 1. */
  lemma WalkFromUnfold<S>(start: Int2, end: Int2, f: (S, Int2) -> (S, bool), k: nat, s: S)
    requires Apart(start, end, k)
    ensures var fwd, rev := FwdBlock(start, end, k), RevBlock(start, end, k);
      var v1 := f(s, fwd);
      var v2 := f(v1.0, rev);
      && (!v1.1 ==> WalkFrom(start, end, f, k, s) == v1)
      && (v1.1 && (!v2.1 || Near(fwd, rev)) ==> WalkFrom(start, end, f, k, s) == v2)
      && (v1.1 && v2.1 && !Near(fwd, rev) ==>
            Apart(start, end, k + 1) && WalkFrom(start, end, f, k, s) == WalkFrom(start, end, f, k + 1, v2.0))
  {}

  /** While the cursors are apart, the round number stays within the meeting budget. */
  lemma ApartBound(start: Int2, end: Int2, k: nat)
    requires Apart(start, end, k)
    ensures k <= MeetBudget(start, end)
    ensures var d := Diff(start, end);
      OffsetsAt(d.x, d.y, k).a <= d.x / 2 && OffsetsAt(d.x, d.y, k).b <= d.y / 2
  {
    var d := Diff(start, end);
    if d.x + d.y == 0 {
      if k > 0 {
        ApartFirst(start, end, k);
      }
    } else {
      ApartOffsets(start, end, k);
      StaysInBox(d.x, d.y, k);
    }
  }

  lemma {:induction false} ApartFirst(start: Int2, end: Int2, k: nat)
    requires k > 0 && Apart(start, end, k)
    ensures !Near(FwdBlock(start, end, 0), RevBlock(start, end, 0))
  {
    if k > 1 {
      ApartFirst(start, end, k - 1);
    }
  }

  /** One round of the loop moves the cursors, errors and counter to round k + 1. */
  lemma RoundAdvances(start: Int2, end: Int2, k: nat)
    requires Apart(start, end, k) && !Near(FwdBlock(start, end, k), RevBlock(start, end, k))
    ensures var d := Diff(start, end);
      var o := OffsetsAt(d.x, d.y, k);
      var o' := OffsetsAt(d.x, d.y, k + 1);
      && StepFunc(StepDir(start, end), Int2(d.x * 2, d.y * 2), FwdBlock(start, end, k), Int2(o.e, o.e))
         == (FwdBlock(start, end, k + 1), Int2(o'.e, o.e))
      && StepFunc(StepDir(end, start), Int2(d.x * 2, d.y * 2), RevBlock(start, end, k), Int2(o.e, o.e))
         == (RevBlock(start, end, k + 1), Int2(o'.e, o.e))
      && o'.a + o'.b == o.a + o.b + (if o.e == 0 then 2 else 1)
      && o'.a + o'.b <= d.x + d.y
  {
    StepMoves(start, end, k);
    ApartBound(start, end, k + 1);
  }

  /** StepFunc moves each cursor from its round-k square to its round-(k + 1) square. */
  lemma StepMoves(start: Int2, end: Int2, k: nat)
    ensures var d := Diff(start, end);
      var o := OffsetsAt(d.x, d.y, k);
      var o' := OffsetsAt(d.x, d.y, k + 1);
      && StepFunc(StepDir(start, end), Int2(d.x * 2, d.y * 2), FwdBlock(start, end, k), Int2(o.e, o.e))
         == (FwdBlock(start, end, k + 1), Int2(o'.e, o.e))
      && StepFunc(StepDir(end, start), Int2(d.x * 2, d.y * 2), RevBlock(start, end, k), Int2(o.e, o.e))
         == (RevBlock(start, end, k + 1), Int2(o'.e, o.e))
      && o'.a + o'.b == o.a + o.b + (if o.e == 0 then 2 else 1)
  {
    var d := Diff(start, end);
    var o := OffsetsAt(d.x, d.y, k);
    assert OffsetsAt(d.x, d.y, k + 1) == BresenhamStep(d.x, d.y, o);
  }

  /** Apart in terms of the offsets. */
  lemma {:induction false} ApartOffsets(start: Int2, end: Int2, k: nat)
    requires Diff(start, end).x + Diff(start, end).y > 0
    requires Apart(start, end, k)
    ensures forall j :: 0 <= j < k ==> !NearOffs(Diff(start, end).x, Diff(start, end).y, OffsetsAt(Diff(start, end).x, Diff(start, end).y, j))
  {
    if k > 0 {
      ApartOffsets(start, end, k - 1);
      NearMeansNearOffs(start, end, k - 1);
    }
  }

  lemma MulLeft(x: int, y: int, c: int)
    requires x <= y && c >= 0
    ensures x * c <= y * c
  {}

  lemma MulSucc(a: int, d: int)
    ensures (a + 1) * d == a * d + d
  {}

  /** The error term in closed form, its bounds, and progress of at least one axis step per round. */
  lemma {:induction false} OffsetsInvariant(dx: int, dy: int, k: nat)
    requires dx >= 0 && dy >= 0 && dx + dy > 0
    ensures var o := OffsetsAt(dx, dy, k);
      && o.e == dx - dy + 2 * (o.b * dx) - 2 * (o.a * dy)
      && -2 * dy < o.e < 2 * dx
      && 0 <= o.a && 0 <= o.b && o.a + o.b >= k
      && (dx == 0 ==> o.a == 0) && (dy == 0 ==> o.b == 0)
  {
    if k > 0 {
      OffsetsInvariant(dx, dy, k - 1);
      var p := OffsetsAt(dx, dy, k - 1);
      var o := OffsetsAt(dx, dy, k);
      assert o == BresenhamStep(dx, dy, p);
      MulSucc(p.a, dy);
      MulSucc(p.b, dx);
    }
  }

  /** On the x-middle column, below the y-middle, the error is at most -dx. */
  lemma ErrorAtXMiddle(dx: int, dy: int, a: int, b: int)
    requires dx > 0 && dy >= 0 && 2 * a >= dx - 1 && 0 <= 2 * b <= dy - 2
    ensures dx - dy + 2 * (b * dx) - 2 * (a * dy) <= -dx
  {
    var r := dx * dy;
    assert 2 * (b * dx) <= r - 2 * dx by {
      MulLeft(2 * b, dy - 2, dx);
      assert (dy - 2) * dx == r - 2 * dx;
      assert (2 * b) * dx == 2 * (b * dx);
    }
    assert 2 * (a * dy) >= r - dy by {
      MulLeft(dx - 1, 2 * a, dy);
      assert (dx - 1) * dy == r - dy;
      assert (2 * a) * dy == 2 * (a * dy);
    }
  }

  /** On the y-middle row, left of the x-middle, the error is at least dy. */
  lemma ErrorAtYMiddle(dx: int, dy: int, a: int, b: int)
    requires dy > 0 && dx >= 0 && 2 * b >= dy - 1 && 0 <= 2 * a <= dx - 2
    ensures dx - dy + 2 * (b * dx) - 2 * (a * dy) >= dy
  {
    var r := dx * dy;
    assert 2 * (b * dx) >= r - dx by {
      MulLeft(dy - 1, 2 * b, dx);
      assert (dy - 1) * dx == r - dx;
      assert (2 * b) * dx == 2 * (b * dx);
    }
    assert 2 * (a * dy) <= r - 2 * dy by {
      MulLeft(2 * a, dx - 2, dy);
      assert (dx - 2) * dy == r - 2 * dy;
      assert (2 * a) * dy == 2 * (a * dy);
    }
  }

  /**
   * Until the cursors meet, the offsets never pass the middle of the line:
   * a <= dx/2 and b <= dy/2.
   */
  lemma {:induction false} StaysInBox(dx: int, dy: int, k: nat)
    requires dx >= 0 && dy >= 0 && dx + dy > 0
    requires forall j :: 0 <= j < k ==> !NearOffs(dx, dy, OffsetsAt(dx, dy, j))
    ensures OffsetsAt(dx, dy, k).a <= dx / 2 && OffsetsAt(dx, dy, k).b <= dy / 2
    ensures k <= dx / 2 + dy / 2
  {
    OffsetsProgress(dx, dy, k);
    if k > 0 {
      StaysInBox(dx, dy, k - 1);
      BoxStep(dx, dy, k - 1);
    }
  }

  /** Each round moves at least one cursor step, and offsets never go negative. */
  lemma OffsetsProgress(dx: int, dy: int, k: nat)
    requires dx >= 0 && dy >= 0 && dx + dy > 0
    ensures 0 <= OffsetsAt(dx, dy, k).a && 0 <= OffsetsAt(dx, dy, k).b
    ensures OffsetsAt(dx, dy, k).a + OffsetsAt(dx, dy, k).b >= k
  {
    OffsetsInvariant(dx, dy, k);
  }

  /** A round from inside the box, with the cursors still apart, stays inside the box. */
  lemma BoxStep(dx: int, dy: int, j: nat)
    requires dx >= 0 && dy >= 0 && dx + dy > 0
    requires OffsetsAt(dx, dy, j).a <= dx / 2 && OffsetsAt(dx, dy, j).b <= dy / 2
    requires !NearOffs(dx, dy, OffsetsAt(dx, dy, j))
    ensures OffsetsAt(dx, dy, j + 1).a <= dx / 2 && OffsetsAt(dx, dy, j + 1).b <= dy / 2
  {
    OffsetsInvariant(dx, dy, j);
    var p := OffsetsAt(dx, dy, j);
    assert OffsetsAt(dx, dy, j + 1) == BresenhamStep(dx, dy, p);
    if p.a == dx / 2 {
      // below the middle row the error is negative: the step is along y only
      if dx > 0 {
        ErrorAtXMiddle(dx, dy, p.a, p.b);
      }
    } else if p.b == dy / 2 {
      // left of the middle column the error is positive: the step is along x only
      if dy > 0 {
        ErrorAtYMiddle(dx, dy, p.a, p.b);
      }
    }
  }

  /** The walk meets at the middle of the line, within dx/2 + dy/2 rounds. */
  lemma MeetBound(dx: int, dy: int)
    requires dx >= 0 && dy >= 0
    ensures dx / 2 + dy / 2 <= Max(dx, dy)
  {}

  /** The cursors are near exactly when their offsets are. */
  lemma NearMeansNearOffs(start: Int2, end: Int2, k: nat)
    requires k == 0 || Diff(start, end).x + Diff(start, end).y > 0
    ensures Near(FwdBlock(start, end, k), RevBlock(start, end, k))
        <==> NearOffs(Diff(start, end).x, Diff(start, end).y, OffsetsAt(Diff(start, end).x, Diff(start, end).y, k))
  {
    var d := Diff(start, end);
    if k > 0 {
      OffsetsInvariant(d.x, d.y, k);
    }
  }

  // ---------------------------------------------------------------------------
  // What the walk does
  // ---------------------------------------------------------------------------

  lemma StateAfterPair<S>(f: (S, Int2) -> (S, bool), s: S, a: Int2, b: Int2, r: seq<Int2>)
    ensures StateAfter(f, s, [a, b] + r) == StateAfter(f, f(f(s, a).0, b).0, r)
  {
    assert ([a, b] + r)[1..] == [b] + r;
    assert ([b] + r)[1..] == r;
  }

  lemma VerdictShift<S>(f: (S, Int2) -> (S, bool), s: S, a: Int2, b: Int2, r: seq<Int2>, i: nat)
    requires 2 <= i < |r| + 2
    ensures Verdict(f, s, [a, b] + r, i) == Verdict(f, f(f(s, a).0, b).0, r, i - 2)
  {
    assert ([a, b] + r)[..i] == [a, b] + r[..i - 2];
    StateAfterPair(f, s, a, b, r[..i - 2]);
  }

  /** The schedule in closed form: square j is the forward or reverse cursor of round k + j/2. */
  lemma {:induction false} ScheduleClosed(start: Int2, end: Int2, k: nat, j: nat)
    ensures ScheduleFrom(start, end, k, j)
         == if j % 2 == 0 then FwdBlock(start, end, k + j / 2) else RevBlock(start, end, k + j / 2)
    decreases j
  {
    if j >= 2 {
      ScheduleClosed(start, end, k + 1, j - 2);
      assert (j - 2) % 2 == j % 2 && k + 1 + (j - 2) / 2 == k + j / 2;
    }
  }

  lemma EvenPlusTwo(n: nat)
    requires n % 2 == 0
    ensures (n + 2) % 2 == 0
  {}

  /** The three ways a round of the walk can go, for the squares tested. */
  lemma SquaresFromUnfold<S>(start: Int2, end: Int2, f: (S, Int2) -> (S, bool), k: nat, s: S)
    requires Apart(start, end, k)
    ensures var fwd, rev := FwdBlock(start, end, k), RevBlock(start, end, k);
      var v1 := f(s, fwd);
      var v2 := f(v1.0, rev);
      && (!v1.1 ==> SquaresFrom(start, end, f, k, s) == [fwd])
      && (v1.1 && (!v2.1 || Near(fwd, rev)) ==> SquaresFrom(start, end, f, k, s) == [fwd, rev])
      && (v1.1 && v2.1 && !Near(fwd, rev) ==>
            Apart(start, end, k + 1) && k + 1 <= MeetBudget(start, end)
            && SquaresFrom(start, end, f, k, s) == [fwd, rev] + SquaresFrom(start, end, f, k + 1, v2.0))
  {
    ApartBound(start, end, k);
    if Apart(start, end, k + 1) {
      ApartBound(start, end, k + 1);
    }
  }

  /**
   * The walk from round k hands the test the squares of the alternating
   * schedule from position 2k on, at most two per remaining round.
   */
  lemma {:induction false} SquaresOnSchedule<S>(start: Int2, end: Int2, f: (S, Int2) -> (S, bool), k: nat, s: S)
    requires Apart(start, end, k)
    ensures var sq := SquaresFrom(start, end, f, k, s);
      && 1 <= |sq| <= 2 * (MeetBudget(start, end) - k) + 2
      && forall j :: 0 <= j < |sq| ==> sq[j] == ScheduleFrom(start, end, k, j)
    decreases MeetBudget(start, end) - k
  {
    ApartBound(start, end, k);
    SquaresFromUnfold(start, end, f, k, s);
    var fwd, rev := FwdBlock(start, end, k), RevBlock(start, end, k);
    var v1 := f(s, fwd);
    var v2 := f(v1.0, rev);
    var sq := SquaresFrom(start, end, f, k, s);
    if v1.1 && v2.1 && !Near(fwd, rev) {
      SquaresOnSchedule(start, end, f, k + 1, v2.0);
      var rest := SquaresFrom(start, end, f, k + 1, v2.0);
      forall j | 2 <= j < |sq|
        ensures sq[j] == ScheduleFrom(start, end, k, j)
      {
        assert sq[j] == rest[j - 2];
      }
    }
  }

  /**
   * The walk from round k leaves the test in the state that running it over
   * the squares handed to it produces; every one of them but the last passed,
   * and the walk's verdict is the last one's.
   */
  lemma {:induction false} WalkRunsTests<S>(start: Int2, end: Int2, f: (S, Int2) -> (S, bool), k: nat, s: S)
    requires Apart(start, end, k)
    ensures var sq := SquaresFrom(start, end, f, k, s);
      var w := WalkFrom(start, end, f, k, s);
      && |sq| >= 1
      && w.0 == StateAfter(f, s, sq)
      && (forall i :: 0 <= i < |sq| - 1 ==> Verdict(f, s, sq, i))
      && w.1 == Verdict(f, s, sq, |sq| - 1)
    decreases MeetBudget(start, end) - k
  {
    SquaresFromUnfold(start, end, f, k, s);
    WalkFromUnfold(start, end, f, k, s);
    var fwd, rev := FwdBlock(start, end, k), RevBlock(start, end, k);
    var v1 := f(s, fwd);
    var v2 := f(v1.0, rev);
    var sq := SquaresFrom(start, end, f, k, s);
    assert StateAfter(f, s, []) == s;
    assert StateAfter(f, s, [fwd]) == v1.0 by {
      assert [fwd][1..] == [];
    }
    if !v1.1 {
      assert sq[..0] == [];
    } else if !v2.1 || Near(fwd, rev) {
      assert sq[..0] == [] && sq[..1] == [fwd];
      StateAfterPair(f, s, fwd, rev, []);
      assert [fwd, rev] + [] == sq;
    } else {
      WalkRunsTests(start, end, f, k + 1, v2.0);
      var rest := SquaresFrom(start, end, f, k + 1, v2.0);
      StateAfterPair(f, s, fwd, rev, rest);
      assert sq[..0] == [] && sq[..1] == [fwd];
      forall i | 2 <= i < |sq|
        ensures Verdict(f, s, sq, i) == Verdict(f, v2.0, rest, i - 2)
      {
        VerdictShift(f, s, fwd, rev, rest, i);
      }
    }
  }

  /** A successful walk ends on a round whose two squares are within one square of each other. */
  lemma {:induction false} WalkMeets<S>(start: Int2, end: Int2, f: (S, Int2) -> (S, bool), k: nat, s: S)
    requires Apart(start, end, k)
    ensures var sq := SquaresFrom(start, end, f, k, s);
      WalkFrom(start, end, f, k, s).1 ==>
        |sq| >= 2 && |sq| % 2 == 0 && Near(sq[|sq| - 2], sq[|sq| - 1])
    decreases MeetBudget(start, end) - k
  {
    SquaresFromUnfold(start, end, f, k, s);
    WalkFromUnfold(start, end, f, k, s);
    var fwd, rev := FwdBlock(start, end, k), RevBlock(start, end, k);
    var v1 := f(s, fwd);
    var v2 := f(v1.0, rev);
    if v1.1 && v2.1 && !Near(fwd, rev) {
      WalkMeets(start, end, f, k + 1, v2.0);
      var rest := SquaresFrom(start, end, f, k + 1, v2.0);
      var sq := SquaresFrom(start, end, f, k, s);
      if WalkFrom(start, end, f, k, s).1 {
        assert sq[|sq| - 2] == rest[|rest| - 2] && sq[|sq| - 1] == rest[|rest| - 1];
        EvenPlusTwo(|rest|);
      }
    }
  }

  /**
   * The whole walk: it tests the start square first, then alternates between
   * the two cursors, stopping after at most 2 * (Chebyshev + 1) tests; the
   * test's final state is the one the tested squares produce.
   */
  lemma WalkSchedule<S>(start: Int2, end: Int2, f: (S, Int2) -> (S, bool), s0: S)
    ensures var sq := Squares(start, end, f, s0);
      && 1 <= |sq| <= 2 * (Chebyshev(start, end) + 1)
      && sq[0] == start
      && (|sq| >= 2 ==> sq[1] == end)
      && (forall j :: 0 <= j < |sq| ==> sq[j] == ScheduleFrom(start, end, 0, j))
      && Walk(start, end, f, s0).0 == StateAfter(f, s0, sq)
  {
    SquaresOnSchedule(start, end, f, 0, s0);
    WalkRunsTests(start, end, f, 0, s0);
    MeetBound(Diff(start, end).x, Diff(start, end).y);
  }

  /**
   * The walk succeeds exactly when every square it hands to the test passes
   * (each in the state the earlier tests left), and it stops at the first
   * failure; a success ends with the two cursors within one square of each
   * other.
   */
  lemma WalkVerdict<S>(start: Int2, end: Int2, f: (S, Int2) -> (S, bool), s0: S)
    ensures var sq := Squares(start, end, f, s0);
      && |sq| >= 1
      && (Walk(start, end, f, s0).1 <==> AllPass(f, s0, sq))
      && (!Walk(start, end, f, s0).1 ==> AllPass(f, s0, sq[..|sq| - 1]) && !Verdict(f, s0, sq, |sq| - 1))
      && (Walk(start, end, f, s0).1 ==> |sq| % 2 == 0 && Near(sq[|sq| - 2], sq[|sq| - 1]))
  {
    WalkRunsTests(start, end, f, 0, s0);
    WalkMeets(start, end, f, 0, s0);
    var sq := Squares(start, end, f, s0);
    var init := sq[..|sq| - 1];
    forall i | 0 <= i < |init|
      ensures Verdict(f, s0, init, i)
    {
      assert init[..i] == sq[..i];
      assert Verdict(f, s0, sq, i);
    }
  }
}
