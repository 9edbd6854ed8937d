/** Reference definitions of the greedy policy as functions of the board, the
    agent and the remembered state, and the properties proved about them. The
    class in GreedyBot computes the same answers with loops and field updates. */
module Policy {
  import opened Wrappers
  import opened Geometry
  import opened Objects

  // ---------------------------------------------------------------------------
  // Step selection

  /** The first step of `steps` the validator accepts, or no move. */
  function FirstValid(board: Board, p: Position, steps: seq<Step>): (r: Step)
    requires forall k :: 0 <= k < |steps| ==> IsUnit(steps[k])
    ensures r == Stay <==> forall k :: 0 <= k < |steps| ==> !StepValid(board, p, steps[k])
    ensures r != Stay ==> r in steps && StepValid(board, p, r)
    decreases |steps|
  {
    if steps == [] then Stay
    else if StepValid(board, p, steps[0]) then assert IsUnit(steps[0]); steps[0]
    else FirstValid(board, p, steps[1..])
  }

  /** The answer is the earliest accepted step: every step before it is rejected. */
  lemma {:induction false} FirstValidIsFirst(board: Board, p: Position, steps: seq<Step>, k: nat)
    requires forall j :: 0 <= j < |steps| ==> IsUnit(steps[j])
    requires k < |steps| && StepValid(board, p, steps[k])
    requires forall j :: 0 <= j < k ==> !StepValid(board, p, steps[j])
    ensures FirstValid(board, p, steps) == steps[k]
    decreases k
  {
    if k > 0 {
      assert !StepValid(board, p, steps[0]);
      FirstValidIsFirst(board, p, steps[1..], k - 1);
    }
  }

  /** Rejected leading steps can be dropped without changing the answer. */
  lemma {:induction false} FirstValidSkip(board: Board, p: Position, steps: seq<Step>, n: nat)
    requires forall j :: 0 <= j < |steps| ==> IsUnit(steps[j])
    requires n <= |steps|
    requires forall j :: 0 <= j < n ==> !StepValid(board, p, steps[j])
    ensures FirstValid(board, p, steps) == FirstValid(board, p, steps[n..])
    decreases n
  {
    if n > 0 {
      assert steps[1..][n - 1..] == steps[n..];
      FirstValidSkip(board, p, steps[1..], n - 1);
    }
  }

  /** The step along the axis with the larger delta (horizontal on a tie),
      signed like that delta. */
  function Preferred(cur: Position, tgt: Position): (r: Step)
    ensures cur != tgt ==> IsUnit(r)
  {
    var dx, dy := tgt.x - cur.x, tgt.y - cur.y;
    if Abs(dx) >= Abs(dy) then Step(Sign(dx), 0) else Step(0, Sign(dy))
  }

  /** The step along the other axis, offered only when that delta is non-zero. */
  function Secondary(cur: Position, tgt: Position): (r: seq<Step>)
    ensures |r| <= 1
    ensures forall k :: 0 <= k < |r| ==> IsUnit(r[k]) && (r[k].dx == 0 <==> Preferred(cur, tgt).dx != 0)
  {
    var dx, dy := tgt.x - cur.x, tgt.y - cur.y;
    if Abs(dx) >= Abs(dy) then (if dy != 0 then [Step(0, Sign(dy))] else [])
    else (if dx != 0 then [Step(Sign(dx), 0)] else [])
  }

  /** The steps the path stepper tries, in the order it tries them. */
  function Candidates(cur: Position, tgt: Position): (r: seq<Step>)
    ensures forall k :: 0 <= k < |r| ==> IsUnit(r[k])
  {
    [Preferred(cur, tgt)] + Secondary(cur, tgt) + ScanOrder
  }

  /** One step from `cur` towards `tgt`: no move when already there, otherwise
      the first accepted candidate. */
  function Toward(board: Board, cur: Position, tgt: Position): (r: Step)
    ensures IsMove(r)
    ensures r != Stay ==> StepValid(board, cur, r)
  {
    if cur == tgt then Stay else FirstValid(board, cur, Candidates(cur, tgt))
  }

  /** The stepper stays put exactly when it is at the target or every one of the
      four unit steps is rejected. */
  lemma TowardStaysOnlyWhenBlocked(board: Board, cur: Position, tgt: Position)
    ensures Toward(board, cur, tgt) == Stay <==>
      cur == tgt || forall k :: 0 <= k < |ScanOrder| ==> !StepValid(board, cur, ScanOrder[k])
  {
    if cur != tgt {
      var c := Candidates(cur, tgt);
      var n := 1 + |Secondary(cur, tgt)|;
      assert c[n..] == ScanOrder;
      if Toward(board, cur, tgt) == Stay {
        forall k | 0 <= k < |ScanOrder| ensures !StepValid(board, cur, ScanOrder[k]) {
          assert ScanOrder[k] == c[n + k];
        }
      } else {
        var s := Toward(board, cur, tgt);
        UnitInScanOrder(s);
      }
    }
  }

  /** Monotonic approach: away from the target the preferred step is a unit step
      towards it along its axis, it brings the Manhattan distance down by one,
      and when the validator accepts it the stepper takes it. */
  lemma PreferredApproaches(board: Board, cur: Position, tgt: Position)
    requires cur != tgt
    ensures var s, dx, dy := Preferred(cur, tgt), tgt.x - cur.x, tgt.y - cur.y;
      IsUnit(s) &&
      (s.dx == 1 ==> dx > 0) && (s.dx == -1 ==> dx < 0) &&
      (s.dy == 1 ==> dy > 0) && (s.dy == -1 ==> dy < 0) &&
      Manhattan(Apply(cur, s), tgt) + 1 == Manhattan(cur, tgt)
    ensures StepValid(board, cur, Preferred(cur, tgt)) ==> Toward(board, cur, tgt) == Preferred(cur, tgt)
  {
  }

  // ---------------------------------------------------------------------------
  // Target selection

  function Dist(d: GameObject, from: Position): nat {
    Manhattan(d.position, from)
  }

  /** The scan of the diamond finder from index `i` on, with `best` the index
      chosen among the first `i` diamonds; a later diamond replaces it only when
      strictly closer. */
  function NearestFrom(ds: seq<GameObject>, from: Position, rem: int, i: nat, best: Option<nat>): (r: Option<nat>)
    requires i <= |ds|
    requires best.Some? ==> best.value < i
    ensures r.Some? ==> r.value < |ds|
    decreases |ds| - i
  {
    if i == |ds| then best
    else if !Admissible(ds[i], rem) then NearestFrom(ds, from, rem, i + 1, best)
    else if best.None? || Dist(ds[i], from) < Dist(ds[best.value], from) then NearestFrom(ds, from, rem, i + 1, Some(i))
    else NearestFrom(ds, from, rem, i + 1, best)
  }

  /** The index of the admissible diamond nearest to `from`, given `rem` free slots. */
  function Nearest(ds: seq<GameObject>, from: Position, rem: int): (r: Option<nat>)
    ensures r.Some? ==> r.value < |ds|
  {
    NearestFrom(ds, from, rem, 0, None)
  }

  /** `r` is the nearest admissible diamond among the first `n`, the earliest one
      on a tie, or None when none of them is admissible. */
  ghost predicate NearestAmong(ds: seq<GameObject>, from: Position, rem: int, n: nat, r: Option<nat>)
    requires n <= |ds|
  {
    match r
    case None => forall j :: 0 <= j < n ==> !Admissible(ds[j], rem)
    case Some(k) =>
      k < n && Admissible(ds[k], rem) &&
      (forall j :: 0 <= j < n && Admissible(ds[j], rem) ==> Dist(ds[k], from) <= Dist(ds[j], from)) &&
      (forall j :: 0 <= j < k && Admissible(ds[j], rem) ==> Dist(ds[k], from) < Dist(ds[j], from))
  }

  lemma {:induction false} NearestFromCorrect(ds: seq<GameObject>, from: Position, rem: int, i: nat, best: Option<nat>)
    requires i <= |ds|
    requires best.Some? ==> best.value < i
    requires NearestAmong(ds, from, rem, i, best)
    ensures NearestAmong(ds, from, rem, |ds|, NearestFrom(ds, from, rem, i, best))
    decreases |ds| - i
  {
    if i < |ds| {
      if !Admissible(ds[i], rem) {
        NearestFromCorrect(ds, from, rem, i + 1, best);
      } else if best.None? || Dist(ds[i], from) < Dist(ds[best.value], from) {
        NearestFromCorrect(ds, from, rem, i + 1, Some(i));
      } else {
        NearestFromCorrect(ds, from, rem, i + 1, best);
      }
    }
  }

  /** Nearest target: the finder's answer is admissible, no farther than any
      admissible diamond, strictly nearer than every earlier admissible one, and
      None exactly when no diamond is admissible (an empty list included). */
  lemma NearestIsNearest(ds: seq<GameObject>, from: Position, rem: int)
    ensures NearestAmong(ds, from, rem, |ds|, Nearest(ds, from, rem))
  {
    NearestFromCorrect(ds, from, rem, 0, None);
  }

  /** Red filter: with exactly one slot left no red diamond is chosen. */
  lemma NearestSkipsRedAtOneSlot(ds: seq<GameObject>, from: Position, rem: int)
    requires rem == 1
    ensures Nearest(ds, from, rem).Some? ==> !IsRed(ds[Nearest(ds, from, rem).value])
  {
    NearestIsNearest(ds, from, rem);
  }

  /** With any other number of free slots nothing is filtered: a diamond is found
      whenever the list is non-empty, and it is nearest among all of them, red or not. */
  lemma NearestUnfilteredOtherwise(ds: seq<GameObject>, from: Position, rem: int)
    requires rem != 1
    ensures Nearest(ds, from, rem).None? <==> |ds| == 0
    ensures Nearest(ds, from, rem).Some? ==>
      forall j :: 0 <= j < |ds| ==> Dist(ds[Nearest(ds, from, rem).value], from) <= Dist(ds[j], from)
  {
    NearestIsNearest(ds, from, rem);
    if |ds| > 0 {
      assert Admissible(ds[0], rem);
    }
  }

  /** Whether any diamond is admissible does not depend on the reference point,
      so a search that finds nothing from one point finds nothing from any other. */
  lemma NearestNoneAnywhere(ds: seq<GameObject>, a: Position, b: Position, rem: int)
    ensures Nearest(ds, a, rem).None? <==> Nearest(ds, b, rem).None?
  {
    NearestIsNearest(ds, a, rem);
    NearestIsNearest(ds, b, rem);
    if Nearest(ds, a, rem).Some? {
      assert Admissible(ds[Nearest(ds, a, rem).value], rem);
    }
    if Nearest(ds, b, rem).Some? {
      assert Admissible(ds[Nearest(ds, b, rem).value], rem);
    }
  }

  /** The scan for a button from index `i` on. */
  function FirstButtonFrom(objs: seq<GameObject>, i: nat): (r: Option<nat>)
    requires i <= |objs|
    ensures r.None? <==> forall k :: i <= k < |objs| ==> !IsButton(objs[k])
    ensures r.Some? ==>
      i <= r.value < |objs| && IsButton(objs[r.value]) &&
      forall k :: i <= k < r.value ==> !IsButton(objs[k])
    decreases |objs| - i
  {
    if i == |objs| then None
    else if IsButton(objs[i]) then Some(i)
    else FirstButtonFrom(objs, i + 1)
  }

  /** The first game object whose lower-cased type contains "button". */
  function FirstButton(objs: seq<GameObject>): (r: Option<nat>)
    ensures r.None? <==> forall k :: 0 <= k < |objs| ==> !IsButton(objs[k])
    ensures r.Some? ==>
      r.value < |objs| && IsButton(objs[r.value]) &&
      forall k :: 0 <= k < r.value ==> !IsButton(objs[k])
  {
    FirstButtonFrom(objs, 0)
  }

  // ---------------------------------------------------------------------------
  // The per-tick decision

  /** The bot's memory between ticks: stuck counter, last position, and the
      collection mode (false: search from home, true: from the current position). */
  datatype Memory = Memory(stuckCount: nat, lastPosition: Option<Position>, collectMode: bool)

  const Initial := Memory(0, None, false)

  /** Ticks at the same position after which the bot forces an escape step. */
  const StuckLimit := 3

  /** The stuck detector run at the start of every tick. */
  function Observe(m: Memory, pos: Position): (r: Memory)
    ensures r.lastPosition == Some(pos) && r.collectMode == m.collectMode
    ensures r.stuckCount > 0 <==> m.lastPosition == Some(pos)
    ensures r.stuckCount > 0 ==> r.stuckCount == m.stuckCount + 1
  {
    m.(stuckCount := if m.lastPosition == Some(pos) then m.stuckCount + 1 else 0,
       lastPosition := Some(pos))
  }

  /** The target diamond of this tick and the collection mode that goes with it. */
  function Target(collectMode: bool, board: Board, pos: Position, props: BotProperties): (r: (Option<nat>, bool))
    ensures r.1 <==> r.0.Some?
    ensures r.0.Some? ==>
      r.0.value < |board.diamonds| && Admissible(board.diamonds[r.0.value], Remaining(props))
    ensures r.0.None? <==>
      forall k :: 0 <= k < |board.diamonds| ==> !Admissible(board.diamonds[k], Remaining(props))
  {
    var rem := Remaining(props);
    NearestIsNearest(board.diamonds, pos, rem);
    NearestIsNearest(board.diamonds, props.base, rem);
    NearestNoneAnywhere(board.diamonds, pos, props.base, rem);
    if collectMode then
      match Nearest(board.diamonds, pos, rem)
      case Some(k) => (Some(k), true)
      case None => (Nearest(board.diamonds, props.base, rem), false)
    else
      var h := Nearest(board.diamonds, props.base, rem);
      (h, h.Some?)
  }

  /** One tick of the policy: the answer and the memory left for the next tick. */
  function Decide(m: Memory, agent: Agent, board: Board): (Step, Memory) {
    var pos, props := agent.position, agent.properties;
    var t := Observe(m, pos);
    if t.stuckCount >= StuckLimit then
      var s := FirstValid(board, pos, ScanOrder);
      (s, if s != Stay then t.(stuckCount := 0) else t)
    else if props.diamonds >= props.inventorySize then
      (Toward(board, pos, props.base), t.(collectMode := false))
    else
      var (target, mode) := Target(t.collectMode, board, pos, props);
      if target.Some? then
        (Toward(board, pos, board.diamonds[target.value].position), t.(collectMode := mode))
      else
        var button := if |board.diamonds| == 0 then FirstButton(board.gameObjects) else None;
        if button.Some? then
          (Toward(board, pos, board.gameObjects[button.value].position), t.(collectMode := false))
        else if props.diamonds > 0 then
          (Toward(board, pos, props.base), t.(collectMode := false))
        else
          (Stay, t.(collectMode := false))
  }

  /** Output set and step validity: every answer is one of the five
      displacements, and a real move is always one the validator accepts. */
  lemma DecideIsLegal(m: Memory, agent: Agent, board: Board)
    ensures IsMove(Decide(m, agent, board).0)
    ensures Decide(m, agent, board).0 != Stay ==> StepValid(board, agent.position, Decide(m, agent, board).0)
  {
  }

  /** Stuck counter: it counts repeated positions, the last position becomes the
      current one, and it drops to 0 only after a successful escape. */
  lemma DecideStuckCounter(m: Memory, agent: Agent, board: Board)
    ensures var bumped := if m.lastPosition == Some(agent.position) then m.stuckCount + 1 else 0;
      var (s, m') := Decide(m, agent, board);
      m'.lastPosition == Some(agent.position) &&
      (bumped < StuckLimit ==> m'.stuckCount == bumped) &&
      (bumped >= StuckLimit ==>
        s == FirstValid(board, agent.position, ScanOrder) &&
        m'.collectMode == m.collectMode &&
        m'.stuckCount == (if s != Stay then 0 else bumped))
  {
  }

  /** Capacity safety: when not escaping and the bag is full the bot heads home
      and searches from home again afterwards. */
  lemma DecideFullBagGoesHome(m: Memory, agent: Agent, board: Board)
    requires Observe(m, agent.position).stuckCount < StuckLimit
    requires agent.properties.diamonds >= agent.properties.inventorySize
    ensures Decide(m, agent, board).0 == Toward(board, agent.position, agent.properties.base)
    ensures !Decide(m, agent, board).1.collectMode
  {
  }

  /** Mode flag, home-anchored: finding a diamond from home heads for it and
      switches to searching from the current position. */
  lemma DecideFromHome(m: Memory, agent: Agent, board: Board)
    requires Observe(m, agent.position).stuckCount < StuckLimit
    requires agent.properties.diamonds < agent.properties.inventorySize
    requires !m.collectMode
    requires Nearest(board.diamonds, agent.properties.base, Remaining(agent.properties)).Some?
    ensures var k := Nearest(board.diamonds, agent.properties.base, Remaining(agent.properties)).value;
      Decide(m, agent, board).0 == Toward(board, agent.position, board.diamonds[k].position) &&
      Decide(m, agent, board).1.collectMode
  {
  }

  /** Mode flag, position-anchored: a diamond found from the current position is
      the target and the mode stays; otherwise the mode falls back to home and
      the search repeated from home finds nothing either. */
  lemma DecideFromPosition(m: Memory, agent: Agent, board: Board)
    requires Observe(m, agent.position).stuckCount < StuckLimit
    requires agent.properties.diamonds < agent.properties.inventorySize
    requires m.collectMode
    ensures var rem := Remaining(agent.properties);
      var near := Nearest(board.diamonds, agent.position, rem);
      var home := Nearest(board.diamonds, agent.properties.base, rem);
      (near.Some? ==>
        Decide(m, agent, board) ==
          (Toward(board, agent.position, board.diamonds[near.value].position),
           Observe(m, agent.position))) &&
      (near.None? ==> !Decide(m, agent, board).1.collectMode) &&
      (near.None? ==> home.None?)
  {
    NearestNoneAnywhere(board.diamonds, agent.position, agent.properties.base, Remaining(agent.properties));
  }

  /** Without a target the mode is reset; a button is sought only when no diamond
      is left on the board, and otherwise the bot goes home if it carries
      anything and stays put if not. */
  lemma DecideWithoutTarget(m: Memory, agent: Agent, board: Board)
    requires Observe(m, agent.position).stuckCount < StuckLimit
    requires agent.properties.diamonds < agent.properties.inventorySize
    requires Target(m.collectMode, board, agent.position, agent.properties).0.None?
    ensures var (s, m') := Decide(m, agent, board);
      var pos, props := agent.position, agent.properties;
      var button := FirstButton(board.gameObjects);
      !m'.collectMode &&
      (|board.diamonds| == 0 && button.Some? ==> s == Toward(board, pos, board.gameObjects[button.value].position)) &&
      ((|board.diamonds| > 0 || button.None?) ==>
        s == if props.diamonds > 0 then Toward(board, pos, props.base) else Stay)
  {
  }

  /** A found target is never a red diamond when one slot is left. */
  lemma DecideNeverTargetsRedAtOneSlot(m: Memory, agent: Agent, board: Board)
    requires Remaining(agent.properties) == 1
    ensures var (target, _) := Target(m.collectMode, board, agent.position, agent.properties);
      target.Some? ==> !IsRed(board.diamonds[target.value])
  {
    NearestSkipsRedAtOneSlot(board.diamonds, agent.position, 1);
    NearestSkipsRedAtOneSlot(board.diamonds, agent.properties.base, 1);
  }

  /** On a 1x1 board the bot standing on its only cell never moves. */
  lemma DecideStaysOnSingleCell(m: Memory, agent: Agent, board: Board)
    requires board.width == 1 && board.height == 1
    requires agent.position == Position(0, 0)
    ensures Decide(m, agent, board).0 == Stay
  {
    SingleCellBlocked(board);
    DecideIsLegal(m, agent, board);
    var s := Decide(m, agent, board).0;
    if s != Stay {
      UnitInScanOrder(s);
    }
  }

  lemma SingleCellBlocked(board: Board)
    requires board.width == 1 && board.height == 1
    ensures forall k :: 0 <= k < |ScanOrder| ==> !StepValid(board, Position(0, 0), ScanOrder[k])
  {
    var pos := Position(0, 0);
    assert !StepValid(board, pos, Right) && !StepValid(board, pos, Left);
    assert !StepValid(board, pos, Down) && !StepValid(board, pos, Up);
  }

  /** A bot whose four neighbours are all rejected never moves, whatever its target. */
  lemma BlockedStays(board: Board, pos: Position)
    requires forall k :: 0 <= k < |ScanOrder| ==> !StepValid(board, pos, ScanOrder[k])
    ensures FirstValid(board, pos, ScanOrder) == Stay
    ensures forall tgt :: Toward(board, pos, tgt) == Stay
  {
    forall tgt: Position ensures Toward(board, pos, tgt) == Stay {
      TowardStaysOnlyWhenBlocked(board, pos, tgt);
    }
  }

  /** Stuck trigger: from a fresh memory, four ticks at the same position give
      counters 0, 1, 2 without escaping, and the fourth tick answers with the
      fixed escape scan. */
  lemma FourthTickInPlaceEscapes(a1: Agent, a2: Agent, a3: Agent, a4: Agent,
                                 b1: Board, b2: Board, b3: Board, b4: Board)
    requires a1.position == a2.position == a3.position == a4.position
    ensures var m1 := Decide(Initial, a1, b1).1;
      var m2 := Decide(m1, a2, b2).1;
      var m3 := Decide(m2, a3, b3).1;
      m1.stuckCount == 0 && m2.stuckCount == 1 && m3.stuckCount == 2 &&
      Decide(m3, a4, b4).0 == FirstValid(b4, a4.position, ScanOrder)
  {
    var m1 := Decide(Initial, a1, b1).1;
    DecideStuckCounter(Initial, a1, b1);
    var m2 := Decide(m1, a2, b2).1;
    DecideStuckCounter(m1, a2, b2);
    var m3 := Decide(m2, a3, b3).1;
    DecideStuckCounter(m2, a3, b3);
    DecideStuckCounter(m3, a4, b4);
  }
}
