/** Worked ticks of the policy on small concrete boards. */
module Scenarios {
  import opened Wrappers
  import opened Geometry
  import opened Objects
  import opened Policy

  function Diamond(x: int, y: int, points: int): GameObject {
    GameObject("DiamondGameObject", Position(x, y), Some(points))
  }

  /** A diamond two cells to the right on an empty 5x5 board: step right, and
      switch to searching from the current position. */
  lemma StepsRightTowardsDiamond()
    ensures var board := Board(5, 5, [Diamond(2, 0, 1)], [], []);
      var agent := Agent(Position(0, 0), BotProperties(0, 3, Position(0, 0)));
      Decide(Initial, agent, board) == (Right, Memory(0, Some(Position(0, 0)), true))
  {
    var board := Board(5, 5, [Diamond(2, 0, 1)], [], []);
    var agent := Agent(Position(0, 0), BotProperties(0, 3, Position(0, 0)));
    assert Nearest(board.diamonds, Position(0, 0), 3) == Some(0);
    assert StepValid(board, Position(0, 0), Right);
  }

  /** One slot left: the red diamond at distance 1 is passed over for the plain
      one at distance 3. */
  lemma RedSkippedAtOneSlot()
    ensures var ds := [Diamond(1, 0, 2), Diamond(3, 0, 1)];
      Nearest(ds, Position(0, 0), 1) == Some(1) && Nearest(ds, Position(0, 0), 2) == Some(0)
  {
    var ds := [Diamond(1, 0, 2), Diamond(3, 0, 1)];
    assert !Admissible(ds[0], 1) && Admissible(ds[1], 1);
  }

  /** Equidistant diamonds: the first one in the list wins. */
  lemma TieGoesToFirst()
    ensures Nearest([Diamond(0, 2, 1), Diamond(2, 0, 1)], Position(0, 0), 3) == Some(0)
  {
  }

  /** Full bag on a clear board: head for base. */
  lemma FullBagStepsHome()
    ensures var board := Board(5, 5, [Diamond(3, 3, 1)], [], []);
      var agent := Agent(Position(1, 1), BotProperties(3, 3, Position(0, 0)));
      Decide(Initial, agent, board).0 == Left
  {
    var board := Board(5, 5, [Diamond(3, 3, 1)], [], []);
    assert StepValid(board, Position(1, 1), Left);
  }

  /** No diamond left and nothing carried: head for the button. */
  lemma HeadsForButton()
    ensures var board := Board(5, 5, [], [], [GameObject("DiamondButtonGameObject", Position(4, 4), None)]);
      var agent := Agent(Position(2, 4), BotProperties(0, 5, Position(0, 0)));
      Decide(Initial, agent, board).0 == Right
  {
    var objs := [GameObject("DiamondButtonGameObject", Position(4, 4), None)];
    var board := Board(5, 5, [], [], objs);
    var l := Lower(objs[0].kind);
    assert l[7..13] == "button";
    ContainsAt(l, "button", 7);
    assert StepValid(board, Position(2, 4), Right);
  }

  /** No diamond left but still carrying two: the button still wins over base. */
  lemma CarryingStillHeadsForButton()
    ensures var board := Board(5, 5, [], [], [GameObject("DiamondButtonGameObject", Position(4, 4), None)]);
      var agent := Agent(Position(2, 4), BotProperties(2, 5, Position(0, 0)));
      Decide(Initial, agent, board).0 == Right
  {
    var objs := [GameObject("DiamondButtonGameObject", Position(4, 4), None)];
    var board := Board(5, 5, [], [], objs);
    var l := Lower(objs[0].kind);
    assert l[7..13] == "button";
    ContainsAt(l, "button", 7);
    assert StepValid(board, Position(2, 4), Right);
  }
}
