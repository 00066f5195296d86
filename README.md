# Vacuum-cleaner world, modelled in Dafny

The program simulates a vacuum cleaner in a room stored as a flat list of
locations. Each location is `0` (dirty) or `1` (clean). A `VacuumEnvironment`
holds that list and the vacuum's index. It can tell whether the whole room is
clean, clean the current location, and move the vacuum. Two agents drive an
environment with the same policy: clean the current cell if it is dirty,
otherwise move to the lowest-index dirty cell.

- The goal-based agent loops while the room is not clean.
- The utility-based agent loops unconditionally and leaves through a `break`
  once no dirty cell is left. It scores +10 per clean and -1 per move.

The model has three modules:

- `Room` (room.dfy) holds pure functions on the cell list: the clean check,
  the dirty-index list, cleaning one cell, and the fully cleaned room.
- `Runs` (runs.dfy) describes each agent's whole run as a function of the
  starting room and position. A run gives a final room, a final position and
  the trace of announced actions. The lemmas about runs live here: the closed
  form of the score, the policy rules every trace obeys, and the equivalence
  of the two agents.
- `Vacuum` (vacuum.dfy) holds the three classes, with the environment's cells
  as an `array<int>` updated in place. Each agent's `Run` is a loop proved to
  end in exactly the state and trace its `Runs` function gives. `CompareAgents`
  is the driver without its random input: it copies one initial room into two
  separate arrays and runs one agent on each.

Here is what each agent needs before it starts:

- The goal agent needs a room in which every cell is 0 or 1. It also needs an
  in-range position, unless the room is already clean; in that case its loop
  body never runs, and an empty room is fine.
- The utility agent needs only an in-range position. That excludes an empty
  room, because it reads the current cell before any check. It does not need
  0/1 cells: a cell holding any other value is left alone and is never a move
  target.

Termination is proved with the measure
`2 * dirty count + (1 if the current cell is in range and not dirty)`.
Each clean lowers the measure by 1. Each move leaves a non-dirty cell for a
dirty one, which also lowers it by 1.

Each `print` notification becomes one `Action` appended to the environment's
ghost field `log`. `Cleaned(i)` stands for "Cleaned location i" and
`Moved(i, j)` stands for "Moving from i to j".

Two behaviours of the code are kept as written:

- `move_to` has no range check in the code, so `MoveTo` accepts any integer.
- The goal agent does not always terminate. On a cell holding neither 0 nor 1
  it loops forever (`StrayCellNeverCleaned`), so its `Run` requires a binary
  room.

## Model

| member | source | states |
|---|---|---|
| `Room.AllClean` | AI-Lab1-Vaccum_Cleaner.py:13-15 | true exactly when every cell equals 1; true for an empty room |
| `Room.DirtyPositions` | AI-Lab1-Vaccum_Cleaner.py:58 | every entry of the dirty list is an in-range index of a dirty cell |
| `Room.DirtyPositionsComplete` | AI-Lab1-Vaccum_Cleaner.py:58 | every dirty index is in the list, and the list is strictly ascending |
| `Room.FirstDirtyIsLowest` | AI-Lab1-Vaccum_Cleaner.py:58-60 | the first entry of a non-empty dirty list is dirty, and no lower index is dirty |
| `Room.CleanIffNoDirty` | AI-Lab1-Vaccum_Cleaner.py:53-59 | on a binary room the clean check holds exactly when the dirty list is empty |
| `Room.DirtyCountBound` | AI-Lab1-Vaccum_Cleaner.py:58 | there are never more dirty cells than cells |
| `Room.CleanCell` | AI-Lab1-Vaccum_Cleaner.py:17-20 | a dirty current cell becomes 1, any other value stays, other cells do not change, and the dirty count drops by one exactly when the cell was dirty |
| `Room.CleanCellIdempotent` | AI-Lab1-Vaccum_Cleaner.py:19-20 | cleaning the same location twice equals cleaning it once |
| `Room.CleanedRoomAfterClean` | AI-Lab1-Vaccum_Cleaner.py:19-20 | cleaning one cell does not change the fully cleaned room |
| `Room.CleanedRoomOfNoDirty` | AI-Lab1-Vaccum_Cleaner.py:85-91 | a room with an empty dirty list is already its own fully cleaned room |
| `Room.CleanedBinaryIsClean` | AI-Lab1-Vaccum_Cleaner.py:15 | a binary room, fully cleaned, passes the clean check |
| `Room.OnlyCleanedStep` | AI-Lab1-Vaccum_Cleaner.py:19-20 | a clean only turns 0 into 1, so the dirty count never rises |
| `Runs.GoalStep` | AI-Lab1-Vaccum_Cleaner.py:55-61 | one pass of the goal loop body keeps the room length and leaves the position in range |
| `Runs.GoalStepProgress` | AI-Lab1-Vaccum_Cleaner.py:53-61 | on a binary room that is not clean, one pass announces one action, only cleans, keeps the room binary and the position in range, and lowers the measure |
| `Runs.GoalRun` | AI-Lab1-Vaccum_Cleaner.py:53-62 | the goal loop terminates with every cell clean and the length unchanged; it announces no action exactly when the room started clean |
| `Runs.GoalRunUnfold` | AI-Lab1-Vaccum_Cleaner.py:53-61 | a run that is not over is one pass followed by the run from the new state |
| `Runs.GoalPasses` | AI-Lab1-Vaccum_Cleaner.py:54-61 | repeated passes of the loop body keep the room length and the position in range |
| `Runs.StrayCellNeverCleaned` | AI-Lab1-Vaccum_Cleaner.py:53-61 | a cell holding neither 0 nor 1 survives any number of passes, so the loop test never lets the goal agent stop |
| `Runs.UtilityRun` | AI-Lab1-Vaccum_Cleaner.py:79-91 | the unconditional loop ends by its break, with the room length unchanged and the position in range |
| `Runs.UtilityRunRoom` | AI-Lab1-Vaccum_Cleaner.py:79-91 | the utility run turns every dirty cell into 1, leaves every other cell alone, and ends with no dirty cell |
| `Runs.CountsCons` | AI-Lab1-Vaccum_Cleaner.py:83-89 | putting one action in front of a trace adds its own clean, move and reward counts |
| `Runs.TraceLength` | AI-Lab1-Vaccum_Cleaner.py:55-61 | every announced action is a clean or a move |
| `Runs.ScoreIsCleansAndMoves` | AI-Lab1-Vaccum_Cleaner.py:83-89 | the score of a trace is 10 times its cleans minus its moves |
| `Runs.UtilityCounts` | AI-Lab1-Vaccum_Cleaner.py:79-91 | the number of cleans equals the initial dirty count, and the number of moves is that count minus 1 when the start cell was dirty |
| `Runs.UtilityRunLength` | AI-Lab1-Vaccum_Cleaner.py:79-91 | a run has 2 actions per dirty cell, minus 1 when the start cell was dirty, and so at most twice the room size |
| `Runs.UtilityScore` | AI-Lab1-Vaccum_Cleaner.py:81-93 | the final utility is 10 × dirty count − moves, which equals 9 × dirty count, plus 1 when the start cell was dirty |
| `Runs.UtilityRunLegal` | AI-Lab1-Vaccum_Cleaner.py:81-88 | each clean is of the dirty cell under the vacuum; each move leaves a non-dirty cell for the in-range, lowest-index dirty cell |
| `Runs.GoalMatchesUtility` | AI-Lab1-Vaccum_Cleaner.py:53-91 | on a binary room with an in-range start, both agents end in the same room and position after the same actions |
| `Runs.GoalRunFacts` | AI-Lab1-Vaccum_Cleaner.py:53-61 | the goal agent's trace follows the same policy rules; it cleans once per initially dirty cell and moves as often as the utility agent |
| `Runs.AlreadyClean` | AI-Lab1-Vaccum_Cleaner.py:53-91 | on an already clean room neither agent acts, and the score stays 0 |
| `Runs.DirtyCleanDirtyLists` | AI-Lab1-Vaccum_Cleaner.py:58 | the dirty lists of [0,1,0], [1,1,0] and [1,1,1] are [0,2], [2] and [] |
| `Runs.CleanCleanDirty` | AI-Lab1-Vaccum_Cleaner.py:79-91 | from [1,1,0] at index 0, the utility agent moves to 2, cleans it and stops |
| `Runs.DirtyCleanDirty` | AI-Lab1-Vaccum_Cleaner.py:79-91 | from [0,1,0] at index 0, the utility agent cleans 0, moves to 2 and cleans 2, ending with utility 19 |
| `Runs.DirtyCleanDirtyGoal` | AI-Lab1-Vaccum_Cleaner.py:53-62 | the goal agent performs the same three actions on that room |
| `Vacuum.VacuumEnvironment.constructor` | AI-Lab1-Vaccum_Cleaner.py:4-11 | stores the cell list by reference and the position (default 0), with an empty notification log |
| `Vacuum.VacuumEnvironment.IsClean` | AI-Lab1-Vaccum_Cleaner.py:13-15 | true exactly when every cell of the array equals 1 |
| `Vacuum.VacuumEnvironment.CleanCurrent` | AI-Lab1-Vaccum_Cleaner.py:17-21 | the array becomes the cleaned room; a clean is announced only when the cell was dirty |
| `Vacuum.VacuumEnvironment.MoveTo` | AI-Lab1-Vaccum_Cleaner.py:23-26 | the new position is set, no cell changes, and the move from the old position is announced |
| `Vacuum.GoalBasedAgent.constructor` | AI-Lab1-Vaccum_Cleaner.py:42-43 | the agent holds the given environment |
| `Vacuum.GoalBasedAgent.Run` | AI-Lab1-Vaccum_Cleaner.py:45-63 | the loop ends in GoalRun's room and position, with GoalRun's actions announced and the room clean; every cell is either unchanged or went from 0 to 1 |
| `Vacuum.UtilityBasedAgent.constructor` | AI-Lab1-Vaccum_Cleaner.py:67-69 | the agent holds the given environment, with utility 0 |
| `Vacuum.UtilityBasedAgent.Run` | AI-Lab1-Vaccum_Cleaner.py:71-93 | the loop leaves only by its break, in UtilityRun's room and position; it announces UtilityRun's actions, adds their score to the utility, and ends with no dirty cell |
| `Vacuum.CompareAgents` | AI-Lab1-Vaccum_Cleaner.py:107-118 | on two separate copies of one binary room, both agents start at index 0 and end in the same clean room; the utility is 9 × dirty count, plus 1 when cell 0 was dirty |

## Left out

- `display` (AI-Lab1-Vaccum_Cleaner.py:28-38) is left out. It only prints the hard-coded 10×10 layout.
- The `print` calls are left out as console output. The per-action notifications on lines 21 and 25 are kept as the ghost `log`. The banners and summaries on lines 52, 63, 78, 93 and 104-105 are not modelled.
- The `__main__` driver's seeded `random.choice` generation and its fixed size of 100 (lines 97-102) are left out. `CompareAgents` takes the initial room as a parameter of any positive length.
- Python's negative indices are not modelled: in Python, `room[-1]` would read the last cell. `CleanCurrent`, and an agent that must read the current cell, require `0 <= position < length`. An IndexError for a position past the end is excluded the same way.
- Cell values are integers. Python would also accept other objects in the list, and those are not modelled.
- Vacuum.CompareAgents: requires a binary, non-empty room. The driver's random 0/1 list of length 100 always meets this.
