/** The greedy bot as the host drives it: one object per bot whose three fields
    persist between ticks, and one `NextMove` call per tick. */
module GreedyBot {
  import opened Wrappers
  import opened Geometry
  import opened Objects
  import opened Policy

  class BotGreedy {
    var stuckCount: nat
    var lastPosition: Option<Position>
    var collectMode: bool

    /** The fields as one value. */
    function State(): Memory
      reads this
    {
      Memory(stuckCount, lastPosition, collectMode)
    }

    constructor ()
      ensures State() == Initial
    {
      stuckCount := 0;
      lastPosition := None;
      collectMode := false;
    }

    /** The decision for one tick: the stuck detector first, then the full bag,
        then the nearest diamond in the current mode, then a button, then home. */
    method NextMove(agent: Agent, board: Board) returns (step: Step)
      modifies this
      ensures (step, State()) == Decide(old(State()), agent, board)
      ensures IsMove(step)
      ensures step != Stay ==> StepValid(board, agent.position, step)
    {
      DecideIsLegal(State(), agent, board);
      var pos, props := agent.position, agent.properties;
      if lastPosition.Some? && lastPosition.value == pos {
        stuckCount := stuckCount + 1;
      } else {
        stuckCount := 0;
      }
      lastPosition := Some(pos);

      if stuckCount >= StuckLimit {
        step := Escape(pos, board);
        return;
      }

      if props.diamonds >= props.inventorySize {
        collectMode := false;
        step := MoveToward(pos, props.base, board);
        return;
      }

      var target: Option<nat>;
      if collectMode {
        target := FindNearest(board, props, pos);
        if target.None? {
          collectMode := false;
          target := FindNearest(board, props, props.base);
        }
      } else {
        target := FindNearest(board, props, props.base);
        if target.Some? {
          collectMode := true;
        }
      }

      if target.Some? {
        step := MoveToward(pos, board.diamonds[target.value].position, board);
        return;
      }

      if |board.diamonds| == 0 {
        collectMode := false;
        var button := FindButton(board);
        if button.Some? {
          step := MoveToward(pos, board.gameObjects[button.value].position, board);
          return;
        }
      }

      if props.diamonds > 0 {
        collectMode := false;
        step := MoveToward(pos, props.base, board);
        return;
      }

      step := Stay;
    }

    /** The nearest admissible diamond to `from`, as an index into the board's
        diamond list; with exactly one slot left red diamonds are skipped. */
    method FindNearest(board: Board, props: BotProperties, from: Position) returns (target: Option<nat>)
      ensures target == Nearest(board.diamonds, from, Remaining(props))
      ensures NearestAmong(board.diamonds, from, Remaining(props), |board.diamonds|, target)
    {
      NearestIsNearest(board.diamonds, from, Remaining(props));
      var ds := board.diamonds;
      if |ds| == 0 {
        return None;
      }
      var rem := props.inventorySize - props.diamonds;
      target := None;
      var smallest: Option<nat> := None;
      for i := 0 to |ds|
        invariant target.Some? ==> target.value < i
        invariant smallest == if target.Some? then Some(Dist(ds[target.value], from)) else None
        invariant NearestFrom(ds, from, rem, i, target) == Nearest(ds, from, rem)
      {
        var diamond := ds[i];
        if rem == 1 && IsRed(diamond) {
          continue;
        }
        var distance := Abs(diamond.position.x - from.x) + Abs(diamond.position.y - from.y);
        if smallest.None? || distance < smallest.value {
          smallest := Some(distance);
          target := Some(i);
        }
      }
    }

    /** One greedy step from `cur` towards `tgt`: the larger-delta axis, then the
        other axis, then the fixed scan, then no move. */
    method MoveToward(cur: Position, tgt: Position, board: Board) returns (step: Step)
      ensures step == Toward(board, cur, tgt)
    {
      if cur == tgt {
        return Stay;
      }
      var dx := tgt.x - cur.x;
      var dy := tgt.y - cur.y;
      ghost var c := Candidates(cur, tgt);
      var ok: bool;
      if Abs(dx) >= Abs(dy) {
        step := Step(if dx > 0 then 1 else -1, 0);
        ok := IsStepValid(cur, step, board);
        if ok {
          FirstValidIsFirst(board, cur, c, 0);
          return;
        }
        if dy != 0 {
          step := Step(0, if dy > 0 then 1 else -1);
          ok := IsStepValid(cur, step, board);
          if ok {
            FirstValidIsFirst(board, cur, c, 1);
            return;
          }
        }
      } else {
        step := Step(0, if dy > 0 then 1 else -1);
        ok := IsStepValid(cur, step, board);
        if ok {
          FirstValidIsFirst(board, cur, c, 0);
          return;
        }
        if dx != 0 {
          step := Step(if dx > 0 then 1 else -1, 0);
          ok := IsStepValid(cur, step, board);
          if ok {
            FirstValidIsFirst(board, cur, c, 1);
            return;
          }
        }
      }
      ghost var n := 1 + |Secondary(cur, tgt)|;
      assert c[n..] == ScanOrder;
      FirstValidSkip(board, cur, c, n);
      step := ScanSteps(cur, ScanOrder, board);
    }

    /** The escape from a stuck position: the first accepted step of the fixed
        scan, resetting the counter only when there is one. */
    method Escape(p: Position, board: Board) returns (step: Step)
      modifies this`stuckCount
      ensures step == FirstValid(board, p, ScanOrder)
      ensures stuckCount == if step != Stay then 0 else old(stuckCount)
    {
      step := ScanSteps(p, ScanOrder, board);
      if step != Stay {
        stuckCount := 0;
      }
    }

    /** The first of `steps` the validator accepts, or no move. */
    method ScanSteps(p: Position, steps: seq<Step>, board: Board) returns (step: Step)
      requires forall k :: 0 <= k < |steps| ==> IsUnit(steps[k])
      ensures step == FirstValid(board, p, steps)
    {
      for i := 0 to |steps|
        invariant FirstValid(board, p, steps[i..]) == FirstValid(board, p, steps)
      {
        var ok := IsStepValid(p, steps[i], board);
        if ok {
          return steps[i];
        }
        assert steps[i..][1..] == steps[i + 1..];
      }
      return Stay;
    }

    /** Whether the step lands on the board and on a cell no bot occupies. */
    method IsStepValid(p: Position, s: Step, board: Board) returns (ok: bool)
      ensures ok == StepValid(board, p, s)
    {
      var x, y := p.x + s.dx, p.y + s.dy;
      if !(0 <= x < board.width && 0 <= y < board.height) {
        return false;
      }
      for i := 0 to |board.bots|
        invariant forall j :: 0 <= j < i ==> board.bots[j].position != Position(x, y)
      {
        var bot := board.bots[i];
        if bot.position.x == x && bot.position.y == y {
          return false;
        }
      }
      return true;
    }

    /** The first game object whose lower-cased type contains "button". */
    method FindButton(board: Board) returns (button: Option<nat>)
      ensures button == FirstButton(board.gameObjects)
    {
      var objs := board.gameObjects;
      for i := 0 to |objs|
        invariant FirstButtonFrom(objs, i) == FirstButton(objs)
      {
        if Contains(Lower(objs[i].kind), "button") {
          return Some(i);
        }
      }
      return None;
    }
  }
}
