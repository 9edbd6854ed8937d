/** The host's data as the policy sees it on one tick: game objects, the board
    snapshot, the agent's own properties, and the predicates the policy applies
    to them (red diamond, button, legal step). */
module Objects {
  import opened Wrappers
  import opened Geometry

  /** A positioned object with its type label; `points` is the diamond's point
      value when the host's property bag carries one. */
  datatype GameObject = GameObject(kind: string, position: Position, points: Option<int>)

  datatype BotProperties = BotProperties(diamonds: int, inventorySize: int, base: Position)

  /** The agent as the host hands it over on each tick. */
  datatype Agent = Agent(position: Position, properties: BotProperties)

  datatype Board = Board(
    width: int,
    height: int,
    diamonds: seq<GameObject>,
    bots: seq<GameObject>,
    gameObjects: seq<GameObject>)

  function Remaining(props: BotProperties): int {
    props.inventorySize - props.diamonds
  }

  /** ASCII lower-casing of one character. */
  function LowerChar(c: char): char {
    if 'A' <= c <= 'Z' then (c as int + 32) as char else c
  }

  function Lower(s: string): string {
    seq(|s|, i requires 0 <= i < |s| => LowerChar(s[i]))
  }

  /** `t` occurs as a contiguous substring of `s`. */
  predicate Contains(s: string, t: string)
    decreases |s|
  {
    t <= s || (s != [] && Contains(s[1..], t))
  }

  /** A red diamond is worth 2 points; without a point value the type label is
      searched for "red", ignoring case. */
  predicate IsRed(d: GameObject) {
    match d.points
    case Some(p) => p == 2
    case None => Contains(Lower(d.kind), "red")
  }

  /** A diamond may be targeted unless exactly one slot remains and it is red. */
  predicate Admissible(d: GameObject, remaining: int) {
    !(remaining == 1 && IsRed(d))
  }

  predicate IsButton(o: GameObject) {
    Contains(Lower(o.kind), "button")
  }

  /** A step is legal when its target cell is on the board and no bot stands there. */
  predicate StepValid(board: Board, p: Position, s: Step) {
    var q := Apply(p, s);
    0 <= q.x < board.width && 0 <= q.y < board.height &&
    forall i :: 0 <= i < |board.bots| ==> board.bots[i].position != q
  }

  /** Any occurrence of `t` at offset `i` makes `Contains(s, t)` hold. */
  lemma {:induction false} ContainsAt(s: string, t: string, i: nat)
    requires i + |t| <= |s| && s[i..i + |t|] == t
    ensures Contains(s, t)
    decreases i
  {
    if i == 0 {
      assert s[..|t|] == t;
    } else {
      assert s[1..][i - 1..i - 1 + |t|] == s[i..i + |t|];
      ContainsAt(s[1..], t, i - 1);
    }
  }

  /** The label fallback ignores case: a diamond without a point value whose
      label spells r, e, d in any mix of cases at some offset is red. */
  lemma RedByLabel(d: GameObject, i: nat)
    requires d.points.None?
    requires i + 3 <= |d.kind|
    requires LowerChar(d.kind[i]) == 'r' && LowerChar(d.kind[i + 1]) == 'e' && LowerChar(d.kind[i + 2]) == 'd'
    ensures IsRed(d)
  {
    var l := Lower(d.kind);
    assert l[i..i + 3] == "red";
    ContainsAt(l, "red", i);
  }

  /** With a point value present the label is never consulted: two diamonds with
      the same point value agree on being red, whatever their labels. */
  lemma RedIgnoresLabel(d: GameObject, e: GameObject)
    requires d.points.Some? && e.points == d.points
    ensures IsRed(d) <==> IsRed(e)
  {
  }

  /** The converse of `ContainsAt`: when `Contains(s, t)` holds, `t` occurs in `s`
      at some offset. */
  lemma {:induction false} ContainsHasOffset(s: string, t: string) returns (i: nat)
    requires Contains(s, t)
    ensures i + |t| <= |s| && s[i..i + |t|] == t
    decreases |s|
  {
    if t <= s {
      i := 0;
      assert s[..|t|] == t;
    } else {
      var j := ContainsHasOffset(s[1..], t);
      i := j + 1;
      assert s[1..][j..j + |t|] == s[i..i + |t|];
    }
  }
}
