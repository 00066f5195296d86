/** What the two agents do, as functions of the room and the vacuum's
    position: the actions they announce and the state they leave behind.
    The agent classes are proved to follow these functions step by step. */
module Runs {
  import opened Room

  /** One announced action: cleaning the location `at`, or moving from
      location `from` to location `to`. */
  datatype Action = Cleaned(at: int) | Moved(from: int, to: int)

  /** The state a run finishes in and the actions it announced on the way. */
  datatype Outcome = Outcome(room: seq<int>, pos: int, trace: seq<Action>)

  /** Reward for one clean and cost of one move in the utility agent's score. */
  const CleanReward := 10
  const MoveCost := 1

  /** Termination measure of both agent loops: each clean removes a dirty
      cell (and leaves the vacuum on a clean one), each move leaves a cell
      that is not dirty for one that is. */
  function Measure(s: seq<int>, p: int): nat {
    2 * DirtyCount(s) + (if 0 <= p < |s| && s[p] != Dirty then 1 else 0)
  }

  // ---------------------------------------------------------------------
  // The goal-based agent

  /** What the goal agent needs to finish: a binary room, and a position in
      range unless the room is already clean (then the loop body never runs). */
  predicate GoalReady(s: seq<int>, p: int) {
    IsBinary(s) && (!AllClean(s) ==> 0 <= p < |s|)
  }

  /** One pass of the goal agent's loop body: clean the current cell if it
      is dirty, otherwise move to the first entry of the dirty list if that
      list is not empty, otherwise do nothing. */
  function GoalStep(s: seq<int>, p: int): (st: Outcome)
    requires 0 <= p < |s|
    ensures |st.room| == |s| && 0 <= st.pos < |s|
  {
    if s[p] == Dirty then Outcome(CleanCell(s, p), p, [Cleaned(p)])
    else
      var dirty := DirtyPositions(s);
      if |dirty| > 0 then Outcome(s, dirty[0], [Moved(p, dirty[0])])
      else Outcome(s, p, [])
  }

  /** On a binary room that is not yet clean, one pass announces exactly one
      action, only cleans cells, keeps the vacuum in range and lowers the
      termination measure. */
  lemma GoalStepProgress(s: seq<int>, p: int)
    requires IsBinary(s) && !AllClean(s) && 0 <= p < |s|
    ensures var st := GoalStep(s, p);
      |st.trace| == 1 && OnlyCleaned(s, st.room) && IsBinary(st.room) &&
      0 <= st.pos < |s| && Measure(st.room, st.pos) < Measure(s, p)
  {
    CleanIffNoDirty(s);
  }

  /** The goal agent's whole run: loop while the room is not clean. */
  function GoalRun(s: seq<int>, p: int): (o: Outcome)
    requires GoalReady(s, p)
    ensures |o.room| == |s| && AllClean(o.room)
    ensures o.trace == [] <==> AllClean(s)
    decreases Measure(s, p)
  {
    if AllClean(s) then Outcome(s, p, [])
    else
      GoalStepProgress(s, p);
      var st := GoalStep(s, p);
      var o := GoalRun(st.room, st.pos);
      Outcome(o.room, o.pos, st.trace + o.trace)
  }

  /** A run that is not yet over is one pass followed by the run from there. */
  lemma GoalRunUnfold(s: seq<int>, p: int)
    requires GoalReady(s, p) && !AllClean(s)
    ensures var st := GoalStep(s, p);
      GoalReady(st.room, st.pos) &&
      var o := GoalRun(st.room, st.pos);
      GoalRun(s, p) == Outcome(o.room, o.pos, st.trace + o.trace)
  {
    GoalStepProgress(s, p);
  }

  /** n passes of the goal agent's loop body, ignoring its loop test. */
  function GoalPasses(s: seq<int>, p: int, n: nat): (o: Outcome)
    requires 0 <= p < |s|
    ensures |o.room| == |s| && 0 <= o.pos < |s|
    decreases n
  {
    if n == 0 then Outcome(s, p, [])
    else
      var st := GoalStep(s, p);
      GoalPasses(st.room, st.pos, n - 1)
  }

  /** Why the goal agent needs a binary room: a cell holding neither state is
      never touched, so after any number of passes the clean check still
      fails and the loop never ends. */
  lemma {:induction false} StrayCellNeverCleaned(s: seq<int>, p: int, i: int, n: nat)
    requires 0 <= p < |s| && 0 <= i < |s| && s[i] != Dirty && s[i] != Clean
    ensures GoalPasses(s, p, n).room[i] == s[i]
    ensures !AllClean(GoalPasses(s, p, n).room)
    decreases n
  {
    if n > 0 {
      var st := GoalStep(s, p);
      assert st.room[i] == s[i];
      assert GoalPasses(s, p, n) == GoalPasses(st.room, st.pos, n - 1);
      StrayCellNeverCleaned(st.room, st.pos, i, n - 1);
    }
  }

  // ---------------------------------------------------------------------
  // The utility-based agent

  /** The utility agent's whole run: an unconditional loop that cleans a dirty
      current cell, else moves to the first entry of the dirty list, and
      stops only when that list is empty. */
  function UtilityRun(s: seq<int>, p: int): (o: Outcome)
    requires 0 <= p < |s|
    ensures |o.room| == |s| && 0 <= o.pos < |s|
    decreases Measure(s, p)
  {
    if s[p] == Dirty then
      var o := UtilityRun(CleanCell(s, p), p);
      Outcome(o.room, o.pos, [Cleaned(p)] + o.trace)
    else
      var dirty := DirtyPositions(s);
      if |dirty| > 0 then
        var o := UtilityRun(s, dirty[0]);
        Outcome(o.room, o.pos, [Moved(p, dirty[0])] + o.trace)
      else Outcome(s, p, [])
  }

  /** The utility agent leaves every dirty cell clean and every other cell
      as it was, so no dirty cell remains when it stops. */
  lemma {:induction false} UtilityRunRoom(s: seq<int>, p: int)
    requires 0 <= p < |s|
    ensures UtilityRun(s, p).room == CleanedRoom(s)
    ensures DirtyPositions(UtilityRun(s, p).room) == []
    decreases Measure(s, p)
  {
    if s[p] == Dirty {
      CleanedRoomAfterClean(s, p);
      UtilityRunRoom(CleanCell(s, p), p);
    } else {
      var dirty := DirtyPositions(s);
      if |dirty| > 0 {
        UtilityRunRoom(s, dirty[0]);
      } else {
        CleanedRoomOfNoDirty(s);
      }
    }
  }

  // ---------------------------------------------------------------------
  // Counting actions and the score

  function Cleans(t: seq<Action>): nat {
    if t == [] then 0 else (if t[0].Cleaned? then 1 else 0) + Cleans(t[1..])
  }

  function Moves(t: seq<Action>): nat {
    if t == [] then 0 else (if t[0].Moved? then 1 else 0) + Moves(t[1..])
  }

  /** The change an action makes to the utility score. */
  function Reward(a: Action): int {
    match a
    case Cleaned(_) => CleanReward
    case Moved(_, _) => -MoveCost
  }

  /** The utility accumulated over a trace, action by action. */
  function Score(t: seq<Action>): int {
    if t == [] then 0 else Reward(t[0]) + Score(t[1..])
  }

  /** How a trace's counts and score grow when an action is put in front of it. */
  lemma CountsCons(a: Action, t: seq<Action>)
    ensures Cleans([a] + t) == (if a.Cleaned? then 1 else 0) + Cleans(t)
    ensures Moves([a] + t) == (if a.Moved? then 1 else 0) + Moves(t)
    ensures Score([a] + t) == Reward(a) + Score(t)
  {
    assert ([a] + t)[1..] == t;
  }

  /** Every action is a clean or a move. */
  lemma {:induction false} TraceLength(t: seq<Action>)
    ensures |t| == Cleans(t) + Moves(t)
  {
    if t != [] {
      TraceLength(t[1..]);
    }
  }

  /** The score is ten per clean minus one per move. */
  lemma {:induction false} ScoreIsCleansAndMoves(t: seq<Action>)
    ensures Score(t) == CleanReward * Cleans(t) - MoveCost * Moves(t)
  {
    if t != [] {
      ScoreIsCleansAndMoves(t[1..]);
    }
  }

  /** A run cleans each initially dirty cell once, and moves once per dirty
      cell except the start cell when that one is dirty. */
  lemma {:induction false} UtilityCounts(s: seq<int>, p: int)
    requires 0 <= p < |s|
    ensures var t := UtilityRun(s, p).trace;
      Cleans(t) == DirtyCount(s) &&
      Moves(t) == DirtyCount(s) - (if s[p] == Dirty then 1 else 0)
    decreases Measure(s, p)
  {
    if s[p] == Dirty {
      var s' := CleanCell(s, p);
      var rest := UtilityRun(s', p).trace;
      assert UtilityRun(s, p).trace == [Cleaned(p)] + rest;
      UtilityCounts(s', p);
      CountsCons(Cleaned(p), rest);
    } else {
      var dirty := DirtyPositions(s);
      if |dirty| > 0 {
        var rest := UtilityRun(s, dirty[0]).trace;
        assert UtilityRun(s, p).trace == [Moved(p, dirty[0])] + rest;
        UtilityCounts(s, dirty[0]);
        CountsCons(Moved(p, dirty[0]), rest);
      }
    }
  }

  /** The length of a run: at most one clean and one move per cell. */
  lemma UtilityRunLength(s: seq<int>, p: int)
    requires 0 <= p < |s|
    ensures var t := UtilityRun(s, p).trace;
      |t| == 2 * DirtyCount(s) - (if s[p] == Dirty then 1 else 0) && |t| <= 2 * |s|
  {
    UtilityCounts(s, p);
    TraceLength(UtilityRun(s, p).trace);
    DirtyCountBound(s);
  }

  /** The final utility in closed form: ten per dirty cell, minus one per
      move, which is nine per dirty cell plus one when the start cell was dirty. */
  lemma UtilityScore(s: seq<int>, p: int)
    requires 0 <= p < |s|
    ensures Score(UtilityRun(s, p).trace) ==
      CleanReward * DirtyCount(s) - MoveCost * (DirtyCount(s) - (if s[p] == Dirty then 1 else 0))
    ensures Score(UtilityRun(s, p).trace) == 9 * DirtyCount(s) + (if s[p] == Dirty then 1 else 0)
  {
    UtilityCounts(s, p);
    ScoreIsCleansAndMoves(UtilityRun(s, p).trace);
  }

  // ---------------------------------------------------------------------
  // Which traces are allowed, and the agreement of the two agents

  /** A trace the policy allows from room s with the vacuum at p: a clean
      always cleans the dirty cell the vacuum stands on; a move starts only on
      a cell that is not dirty, and goes to the lowest-index dirty cell. */
  ghost predicate Legal(s: seq<int>, p: int, t: seq<Action>)
    decreases |t|
  {
    t == [] ||
    match t[0]
    case Cleaned(at) =>
      at == p && 0 <= p < |s| && s[p] == Dirty && Legal(s[p := Clean], p, t[1..])
    case Moved(from, to) =>
      from == p && 0 <= p < |s| && s[p] != Dirty &&
      0 <= to < |s| && s[to] == Dirty && (forall j :: 0 <= j < to ==> s[j] != Dirty) &&
      Legal(s, to, t[1..])
  }

  lemma {:induction false} UtilityRunLegal(s: seq<int>, p: int)
    requires 0 <= p < |s|
    ensures Legal(s, p, UtilityRun(s, p).trace)
    decreases Measure(s, p)
  {
    var t := UtilityRun(s, p).trace;
    if s[p] == Dirty {
      var s' := CleanCell(s, p);
      UtilityRunLegal(s', p);
      assert t[1..] == UtilityRun(s', p).trace;
    } else {
      var dirty := DirtyPositions(s);
      if |dirty| > 0 {
        FirstDirtyIsLowest(s);
        UtilityRunLegal(s, dirty[0]);
        assert t[1..] == UtilityRun(s, dirty[0]).trace;
      }
    }
  }

  /** On a binary room with the vacuum in range, the two agents end in the
      same state having announced the same actions. */
  lemma {:induction false} GoalMatchesUtility(s: seq<int>, p: int)
    requires IsBinary(s) && 0 <= p < |s|
    ensures GoalRun(s, p) == UtilityRun(s, p)
    decreases Measure(s, p)
  {
    CleanIffNoDirty(s);
    if !AllClean(s) {
      GoalStepProgress(s, p);
      var st := GoalStep(s, p);
      GoalMatchesUtility(st.room, st.pos);
    }
  }

  /** The goal agent's run is allowed by the policy, cleans every initially
      dirty cell once, and moves exactly as often as the utility agent. */
  lemma GoalRunFacts(s: seq<int>, p: int)
    requires GoalReady(s, p)
    ensures var t := GoalRun(s, p).trace;
      Legal(s, p, t) && Cleans(t) == DirtyCount(s) &&
      Moves(t) == DirtyCount(s) - (if 0 <= p < |s| && s[p] == Dirty then 1 else 0)
  {
    CleanIffNoDirty(s);
    if !AllClean(s) {
      GoalMatchesUtility(s, p);
      UtilityRunLegal(s, p);
      UtilityCounts(s, p);
    }
  }

  /** An already clean room: neither agent acts and the score stays 0. */
  lemma AlreadyClean(s: seq<int>, p: int)
    requires AllClean(s)
    ensures GoalReady(s, p) && GoalRun(s, p) == Outcome(s, p, [])
    ensures 0 <= p < |s| ==> UtilityRun(s, p) == Outcome(s, p, []) && Score(UtilityRun(s, p).trace) == 0
  {
    CleanIffNoDirty(s);
  }

  /** The dirty lists met on the way in the example below. */
  lemma DirtyCleanDirtyLists()
    ensures DirtyPositions([0, 1, 0]) == [0, 2]
    ensures DirtyPositions([1, 1, 0]) == [2]
    ensures DirtyPositions([1, 1, 1]) == []
  {
    assert DirtyFrom([0, 1, 0], 2) == [2];
    assert DirtyFrom([1, 1, 0], 2) == [2];
    assert DirtyFrom([1, 1, 1], 2) == [];
  }

  /** The last two steps of the example below: from [clean, clean, dirty]
      at location 0, move to 2 and clean it. */
  lemma CleanCleanDirty()
    ensures UtilityRun([1, 1, 0], 0) == Outcome([1, 1, 1], 2, [Moved(0, 2), Cleaned(2)])
  {
    DirtyCleanDirtyLists();
    assert CleanCell([1, 1, 0], 2) == [1, 1, 1];
    assert UtilityRun([1, 1, 1], 2) == Outcome([1, 1, 1], 2, []);
    assert UtilityRun([1, 1, 0], 2) == Outcome([1, 1, 1], 2, [Cleaned(2)]);
  }

  /** The room [dirty, clean, dirty] from location 0: clean 0, move to 2,
      clean 2, with utility 19. */
  lemma DirtyCleanDirty()
    ensures UtilityRun([0, 1, 0], 0) == Outcome([1, 1, 1], 2, [Cleaned(0), Moved(0, 2), Cleaned(2)])
    ensures Score(UtilityRun([0, 1, 0], 0).trace) == 19
  {
    assert CleanCell([0, 1, 0], 0) == [1, 1, 0];
    CleanCleanDirty();
    assert Score([Cleaned(2)]) == 10;
  }

  /** The goal agent does the same on that room. */
  lemma DirtyCleanDirtyGoal()
    ensures GoalRun([0, 1, 0], 0).trace == [Cleaned(0), Moved(0, 2), Cleaned(2)]
  {
    GoalMatchesUtility([0, 1, 0], 0);
    DirtyCleanDirty();
  }
}
