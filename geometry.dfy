/** Grid positions, the five displacements the bot may answer with, and the
    Manhattan metric used for every "nearest" comparison. */
module Geometry {

  datatype Position = Position(x: int, y: int)

  /** A displacement (dx, dy) handed back to the host. */
  datatype Step = Step(dx: int, dy: int)

  const Right := Step(1, 0)
  const Left := Step(-1, 0)
  const Down := Step(0, 1)
  const Up := Step(0, -1)
  const Stay := Step(0, 0)

  /** The fixed order of the fallback scan and of the escape: right, left, down, up. */
  const ScanOrder: seq<Step> := [Right, Left, Down, Up]

  predicate IsUnit(s: Step) {
    s == Right || s == Left || s == Down || s == Up
  }

  /** The only answers the policy may give: a unit step or no move. */
  predicate IsMove(s: Step) {
    IsUnit(s) || s == Stay
  }

  function Abs(n: int): nat {
    if n < 0 then -n else n
  }

  function Manhattan(a: Position, b: Position): nat {
    Abs(a.x - b.x) + Abs(a.y - b.y)
  }

  function Apply(p: Position, s: Step): Position {
    Position(p.x + s.dx, p.y + s.dy)
  }

  /** The unit towards the sign of a delta. A zero delta gives -1; the stepper
      never applies it to a zero delta. */
  function Sign(n: int): int {
    if n > 0 then 1 else -1
  }

  /** Every unit step is one of the four entries of the scan order. */
  lemma UnitInScanOrder(s: Step)
    requires IsUnit(s)
    ensures s in ScanOrder
  {
  }
}
