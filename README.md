# Greedy diamond bot — a Dafny model

This project models `BotGreedy`, the per-tick decision policy of a bot in a
grid-based diamond-collection game. On every tick the host hands the bot its own
state (position, carried diamonds, inventory size, base) and a board snapshot
(width, height, diamonds, bots, all game objects) and asks for one displacement.
The bot keeps three fields between ticks: the stuck counter (`hitung_macet`),
the last position (`posisi_terakhir`) and the collection mode (`mode_kumpul`:
false = search for the diamond nearest to home, true = nearest to the current
position).

Layout:

- `wrappers.dfy` — `Option`.
- `geometry.dfy` — `Position`, `Step` (a displacement) with the five legal values,
  the fixed scan order right/left/down/up, Manhattan distance.
- `objects.dfy` — `GameObject`, `BotProperties`, `Agent`, `Board`; ASCII
  lower-casing and substring search; the red-diamond test (`IsRed`, from
  `_adalah_diamond_merah`), the capacity filter (`Admissible`), the button test
  and the step validator as a predicate (`StepValid`).
- `policy.dfy` — reference definitions as functions: the first accepted step of a
  list (`FirstValid`), the stepper's candidate list and `Toward`, the nearest
  admissible diamond (`Nearest`, by a left-to-right scan in which only a strictly
  closer diamond replaces the current best), the first button, the bot's memory
  (`Memory`), the stuck detector (`Observe`), the mode-dependent target choice
  (`Target`) and one whole tick (`Decide`, returning the step and the new memory).
  The lemmas about them state the properties below.
- `greedy_bot.dfy` — class `BotGreedy` with the three fields, a constructor, and
  methods with the source's loops and branch chains; each method's `ensures` ties
  its answer (and for `NextMove` and `Escape`, the new fields) to the functions
  of `policy.dfy`.
- `scenarios.dfy` — worked ticks on small concrete boards.

Both diamond finders of the source (`_cari_diamond_terdekat_dari_home` and
`_cari_diamond_terdekat_dari_posisi`) differ only in the reference point, so they
are one method `FindNearest` with a `from` parameter. The finders and the button
search answer with the index of the object in its list rather than the object
itself; the callers only use its position.

Behaviours worth spelling out:

- The stuck counter goes 0, 1, 2, 3 over four ticks at the same position, so the
  escape first fires on the fourth such tick, after three unchanged ticks
  (`FourthTickInPlaceEscapes`).
- The validator rejects a cell held by any bot in the board's list, the agent
  itself included. For a unit step this makes no difference, since the target
  cell is never the agent's own.
- When the board has no diamonds left and a button exists, the bot heads for the
  button even while it still carries diamonds; base is the target only when no
  button is found (`DecideWithoutTarget`, `CarryingStillHeadsForButton`).
- In position-anchored mode the retry from home after a failed search can never
  succeed: whether a diamond passes the capacity filter does not depend on the
  reference point (`NearestNoneAnywhere`). The mode is reset before the retry,
  and the retry itself never changes the outcome.

## Model

| member | source | states |
|---|---|---|
| GreedyBot.BotGreedy.constructor | game/logic/greedy_bot.py:8-11 | a new bot has stuck counter 0, no last position, and searches from home |
| GreedyBot.BotGreedy.NextMove | game/logic/greedy_bot.py:13-62 | the answer and the new fields are exactly one tick of `Decide` on the old fields; the answer is one of the five displacements and a real move passes the validator |
| GreedyBot.BotGreedy.FindNearest | game/logic/greedy_bot.py:64-107 | the index returned is the admissible diamond nearest to the reference point, earliest on ties, None exactly when none is admissible; it equals `Nearest` |
| GreedyBot.BotGreedy.MoveToward | game/logic/greedy_bot.py:109-140 | the step equals `Toward`: no move at the target, else the first accepted of preferred axis, other axis (if its delta is non-zero), right, left, down, up, else no move |
| GreedyBot.BotGreedy.Escape | game/logic/greedy_bot.py:142-148 | the step is the first accepted of right, left, down, up (or no move); the counter is reset to 0 exactly when a step was found, otherwise unchanged |
| GreedyBot.BotGreedy.ScanSteps | game/logic/greedy_bot.py:136-138 | the loop over a fixed step list returns the first accepted step, or no move |
| GreedyBot.BotGreedy.IsStepValid | game/logic/greedy_bot.py:150-162 | true exactly when the target cell is inside the board and no bot stands on it |
| GreedyBot.BotGreedy.FindButton | game/logic/greedy_bot.py:170-175 | returns the first game object whose lower-cased type contains "button", or None |
| Policy.FirstValid | game/logic/greedy_bot.py:136-140 | over unit steps: no move exactly when every step is rejected; otherwise a step of the list that the validator accepts |
| Policy.FirstValidIsFirst | game/logic/greedy_bot.py:136-138 | the answer is the earliest accepted step: if step k is accepted and all before it are rejected, the answer is step k |
| Policy.FirstValidSkip | game/logic/greedy_bot.py:118-138 | rejected leading steps can be dropped without changing the answer |
| Policy.Candidates | game/logic/greedy_bot.py:118-136 | every step the stepper tries is a unit step |
| Policy.Toward | game/logic/greedy_bot.py:109-140 | the step toward a target is always one of the five displacements, and a real move passes the validator |
| Policy.TowardStaysOnlyWhenBlocked | game/logic/greedy_bot.py:135-140 | the stepper answers no move exactly when it is at the target or all four unit steps are rejected |
| Policy.PreferredApproaches | game/logic/greedy_bot.py:114-129 | away from the target the preferred step is a unit step signed like its delta, lowers the Manhattan distance by exactly 1, and is taken whenever accepted |
| Policy.NearestFromCorrect | game/logic/greedy_bot.py:75-84 | the scan keeps "nearest admissible so far, earliest on ties" from any prefix to the whole list |
| Policy.NearestIsNearest | game/logic/greedy_bot.py:72-85 | the finder's answer is admissible, no farther than any admissible diamond, strictly nearer than every earlier admissible one, and None exactly when none is admissible |
| Policy.NearestSkipsRedAtOneSlot | game/logic/greedy_bot.py:75-77 | with exactly one free slot a red diamond is never chosen |
| Policy.NearestUnfilteredOtherwise | game/logic/greedy_bot.py:75-84 | with any other free-slot count nothing is filtered: a non-empty list always yields a diamond nearest among all of them, red or not |
| Policy.FirstButtonFrom | game/logic/greedy_bot.py:172-175 | the scan from an index returns the first button at or after it, or None exactly when there is none |
| Policy.Decide | game/logic/greedy_bot.py:13-62 | definition of one tick: stuck detector, escape at 3 or more, full bag to base, mode-dependent target, button when no diamonds are left, base when carrying, else no move; the answer and the next memory |
| Policy.Observe | game/logic/greedy_bot.py:18-22 | the new last position is the current one and the mode is untouched; the counter is positive exactly when the position repeats, and then it is one more than before |
| Policy.Target | game/logic/greedy_bot.py:33-45 | the new mode is position-anchored exactly when a target is found; a target is an admissible diamond of the list; none is found exactly when no diamond is admissible |
| Policy.Preferred | game/logic/greedy_bot.py:117-127 | away from the target, a unit step along the axis with the larger delta (horizontal on a tie) |
| Policy.Secondary | game/logic/greedy_bot.py:122-133 | at most one step, a unit step along the other axis than the preferred one |
| Policy.Nearest | game/logic/greedy_bot.py:64-107 | both finders as one scan from a reference point; a found index lies inside the diamond list (its full meaning is `NearestIsNearest`) |
| Policy.NearestFrom | game/logic/greedy_bot.py:75-85 | the finder's loop from an index on, replacing the best only with a strictly closer admissible diamond; a found index lies inside the list |
| Policy.FirstButton | game/logic/greedy_bot.py:170-175 | the first object whose lower-cased type contains "button", None exactly when there is no such object |
| Policy.DecideIsLegal | game/logic/greedy_bot.py:13-62 | every answer of a tick is one of (1,0), (-1,0), (0,1), (0,-1), (0,0), and a real move passes the validator |
| Policy.DecideStuckCounter | game/logic/greedy_bot.py:17-26 | the counter increments on a repeated position and resets otherwise, the last position becomes the current one; at 3 or more the answer is the escape scan, the mode is untouched, and the counter resets only if a step was found |
| Policy.DecideFullBagGoesHome | game/logic/greedy_bot.py:28-31 | when not escaping and carrying at least the inventory size, the answer is the step toward base and the mode becomes home-anchored |
| Policy.DecideFromHome | game/logic/greedy_bot.py:42-48 | in home-anchored mode a diamond found from home is the target and the mode becomes position-anchored |
| Policy.DecideFromPosition | game/logic/greedy_bot.py:34-40 | in position-anchored mode a diamond found from the bot is the target and the memory keeps the mode; if none is found the mode becomes home-anchored, and the retry from home finds nothing either |
| Policy.NearestNoneAnywhere | game/logic/greedy_bot.py:75-85 | the finder comes back empty from one reference point exactly when it comes back empty from any other, since admissibility does not depend on the point |
| Policy.DecideWithoutTarget | game/logic/greedy_bot.py:50-62 | with no target the mode is home-anchored; a button is sought only when the board has no diamonds; otherwise the bot heads home if it carries diamonds and stays put if not |
| Policy.DecideNeverTargetsRedAtOneSlot | game/logic/greedy_bot.py:33-45 | with exactly one free slot the chosen target, in either mode, is never red |
| Policy.DecideStaysOnSingleCell | game/logic/greedy_bot.py:150-156 | a bot on the only cell of a 1x1 board always answers no move |
| Policy.SingleCellBlocked | game/logic/greedy_bot.py:155-156 | on a 1x1 board every unit step from its cell leaves the board |
| Policy.BlockedStays | game/logic/greedy_bot.py:135-140 | a bot whose four neighbours are all rejected never moves, whatever its target |
| Policy.FourthTickInPlaceEscapes | game/logic/greedy_bot.py:17-26 | from a fresh bot, four ticks at one position give counters 0, 1, 2 and the fourth answers with the escape scan |
| Objects.ContainsAt | game/logic/greedy_bot.py:168 | an occurrence of a string at any offset makes the substring test hold |
| Objects.RedByLabel | game/logic/greedy_bot.py:164-168 | without a point value, a label containing "red" in any mix of cases makes the diamond red |
| Objects.RedIgnoresLabel | game/logic/greedy_bot.py:166-167 | with a point value present the label is never consulted: two diamonds with the same point value agree on being red |
| Objects.ContainsHasOffset | game/logic/greedy_bot.py:168 | whenever the substring test holds, the searched string occurs at some offset (with `ContainsAt`, the test is exactly substring membership) |
| Objects.IsRed | game/logic/greedy_bot.py:164-168 | definition: with a point value, red exactly when it is 2; without one, red when the lower-cased label contains "red" |
| Objects.IsButton | game/logic/greedy_bot.py:173 | definition: the lower-cased type label contains "button" |
| Objects.StepValid | game/logic/greedy_bot.py:150-162 | definition: the target cell lies in [0, width) x [0, height) and no bot in the board's list stands on it |
| Geometry.UnitInScanOrder | game/logic/greedy_bot.py:136 | the fixed scan order lists every unit step |
| Scenarios.StepsRightTowardsDiamond | game/logic/greedy_bot.py:42-48 | a diamond two cells right on an empty 5x5 board gives a step right and position-anchored mode |
| Scenarios.RedSkippedAtOneSlot | game/logic/greedy_bot.py:75-84 | with one free slot a red diamond at distance 1 loses to a plain one at distance 3; with two free slots it wins |
| Scenarios.TieGoesToFirst | game/logic/greedy_bot.py:81-83 | of two equidistant diamonds the first in the list is chosen |
| Scenarios.FullBagStepsHome | game/logic/greedy_bot.py:29-31 | a full bag at (1,1) with base at (0,0) gives a step left |
| Scenarios.HeadsForButton | game/logic/greedy_bot.py:51-55 | with no diamonds left and nothing carried the bot steps toward the button |
| Scenarios.CarryingStillHeadsForButton | game/logic/greedy_bot.py:51-60 | with no diamonds left but two carried the bot still steps toward the button, not toward base |

## Left out

- The host: how it applies the returned step, resolves collisions between bots, or
  deposits diamonds at base. Each tick's position and board are inputs.
- The base class `BaseLogic` and the host's `GameObject`, `Board`, `Position` and
  `position_equals`: replaced by datatypes and datatype equality.
- The `float('inf')` starting distance of the finders: replaced by an optional
  smallest distance ("none yet"); the scan never compares against it.
- Objects.IsRed: a diamond's property bag is an optional point value, so "no
  property bag" and "no `points` attribute" are both `None` and fall back to the
  label test. A bag whose `points` exists but holds `None` is answered "not red"
  by the program (`None == 2` is false); the model applies the label test to it
  instead, so a diamond labelled "red" with such a bag counts as red here only.
- Lower-casing is ASCII only; Python's `str.lower` also folds non-ASCII letters.
- Integers are unbounded, as in Python; nothing wraps.
- Determinism needs no lemma: `Decide` is a function of the old memory, the agent
  and the board.
