/** The environment object and the two agents that drive it. */
module Vacuum {
  import opened Room
  import opened Runs

  /** The room, kept by reference as it was handed over, and the vacuum's
      location. */
  class VacuumEnvironment {
    var room: array<int>
    var vacuumPos: int
    /** The notifications announced so far, one action each. */
    ghost var log: seq<Action>

    constructor (roomStatus: array<int>, vacuumPosition: int := 0)
      ensures room == roomStatus && vacuumPos == vacuumPosition && log == []
    {
      room := roomStatus;
      vacuumPos := vacuumPosition;
      log := [];
    }

    /** Every location is clean. */
    function IsClean(): (r: bool)
      reads this, room
      ensures r <==> forall i :: 0 <= i < room.Length ==> room[i] == Clean
    {
      AllClean(room[..])
    }

    /** Cleans the current location if it is dirty, announcing it; on a cell
        that is not dirty it changes nothing and announces nothing. */
    method CleanCurrent()
      requires 0 <= vacuumPos < room.Length
      modifies room, this`log
      ensures room[..] == CleanCell(old(room[..]), vacuumPos)
      ensures log == old(log) + (if old(room[vacuumPos]) == Dirty then [Cleaned(vacuumPos)] else [])
    {
      if room[vacuumPos] == Dirty {
        room[vacuumPos] := Clean;
        log := log + [Cleaned(vacuumPos)];
      }
    }

    /** Announces the move and puts the vacuum at `position`; no cell changes. */
    method MoveTo(position: int)
      modifies this`vacuumPos, this`log
      ensures vacuumPos == position
      ensures room[..] == old(room[..])
      ensures log == old(log) + [Moved(old(vacuumPos), position)]
    {
      log := log + [Moved(vacuumPos, position)];
      vacuumPos := position;
    }
  }

  /** Appending is associative (a step the loop proofs below need spelled out). */
  lemma AppendAssoc<T>(a: seq<T>, b: seq<T>, c: seq<T>)
    ensures (a + b) + c == a + (b + c)
  {
  }

  class GoalBasedAgent {
    var env: VacuumEnvironment

    constructor (environment: VacuumEnvironment)
      ensures env == environment
    {
      env := environment;
    }

    /** Cleans or moves until the room is clean, exactly as GoalRun says. */
    method Run()
      requires GoalReady(env.room[..], env.vacuumPos)
      modifies env`vacuumPos, env`log, env.room
      ensures var o := GoalRun(old(env.room[..]), old(env.vacuumPos));
        env.room[..] == o.room && env.vacuumPos == o.pos && env.log == old(env.log) + o.trace
      ensures env.IsClean()
      ensures OnlyCleaned(old(env.room[..]), env.room[..])
    {
      ghost var start := env.room[..];
      ghost var final := GoalRun(env.room[..], env.vacuumPos);
      while !env.IsClean()
        invariant GoalReady(env.room[..], env.vacuumPos)
        invariant OnlyCleaned(start, env.room[..]) && DirtyCount(env.room[..]) <= DirtyCount(start)
        invariant var o := GoalRun(env.room[..], env.vacuumPos);
          o.room == final.room && o.pos == final.pos &&
          env.log + o.trace == old(env.log) + final.trace
        decreases Measure(env.room[..], env.vacuumPos)
      {
        ghost var s, p, log := env.room[..], env.vacuumPos, env.log;
        GoalStepProgress(s, p);
        if env.room[env.vacuumPos] == Dirty {
          env.CleanCurrent();
        } else {
          var dirtyPositions := DirtyPositions(env.room[..]);
          if |dirtyPositions| > 0 {
            env.MoveTo(dirtyPositions[0]);
          }
        }
        ghost var st := GoalStep(s, p);
        assert env.room[..] == st.room && env.vacuumPos == st.pos && env.log == log + st.trace;
        GoalRunUnfold(s, p);
        ghost var rest := GoalRun(st.room, st.pos);
        AppendAssoc(log, st.trace, rest.trace);
      }
    }
  }

  class UtilityBasedAgent {
    var env: VacuumEnvironment
    var utility: int

    constructor (environment: VacuumEnvironment)
      ensures env == environment && utility == 0
    {
      env := environment;
      utility := 0;
    }

    /** Cleans (+10) or moves (-1) until no dirty location is left, leaving
        the loop only by its break, exactly as UtilityRun says. */
    method Run()
      requires 0 <= env.vacuumPos < env.room.Length
      modifies this`utility, env`vacuumPos, env`log, env.room
      ensures var o := UtilityRun(old(env.room[..]), old(env.vacuumPos));
        env.room[..] == o.room && env.vacuumPos == o.pos && env.log == old(env.log) + o.trace &&
        utility == old(utility) + Score(o.trace)
      ensures env.room[..] == CleanedRoom(old(env.room[..])) && DirtyPositions(env.room[..]) == []
    {
      ghost var start := env.room[..];
      ghost var final := UtilityRun(env.room[..], env.vacuumPos);
      UtilityRunRoom(start, env.vacuumPos);
      while true
        invariant 0 <= env.vacuumPos < env.room.Length
        invariant OnlyCleaned(start, env.room[..]) && DirtyCount(env.room[..]) <= DirtyCount(start)
        invariant var o := UtilityRun(env.room[..], env.vacuumPos);
          o.room == final.room && o.pos == final.pos &&
          env.log + o.trace == old(env.log) + final.trace &&
          utility + Score(o.trace) == old(utility) + Score(final.trace)
        decreases Measure(env.room[..], env.vacuumPos)
      {
        ghost var s, p, log := env.room[..], env.vacuumPos, env.log;
        ghost var a: Action;
        if env.room[env.vacuumPos] == Dirty {
          env.CleanCurrent();
          utility := utility + CleanReward;
          a := Cleaned(p);
          OnlyCleanedStep(start, s, p);
        } else {
          var dirtyPositions := DirtyPositions(env.room[..]);
          if |dirtyPositions| > 0 {
            env.MoveTo(dirtyPositions[0]);
            utility := utility - MoveCost;
            a := Moved(p, dirtyPositions[0]);
          } else {
            break;
          }
        }
        ghost var rest := UtilityRun(env.room[..], env.vacuumPos);
        assert UtilityRun(s, p) == Outcome(rest.room, rest.pos, [a] + rest.trace);
        assert env.log == log + [a];
        AppendAssoc(log, [a], rest.trace);
        CountsCons(a, rest.trace);
      }
    }
  }

  /** The comparison run on one initial room: each agent gets its own copy
      of the cells and starts at location 0. Both end in the same clean room,
      and the utility agent's score is given by its closed form. */
  method CompareAgents(initialRoom: seq<int>) returns (goalRoom: seq<int>, utilityRoom: seq<int>, utility: int)
    requires IsBinary(initialRoom) && |initialRoom| > 0
    ensures |goalRoom| == |initialRoom| && AllClean(goalRoom)
    ensures utilityRoom == goalRoom
    ensures utility == 9 * DirtyCount(initialRoom) + (if initialRoom[0] == Dirty then 1 else 0)
  {
    var goalCells := new int[|initialRoom|](i requires 0 <= i < |initialRoom| => initialRoom[i]);
    var utilityCells := new int[|initialRoom|](i requires 0 <= i < |initialRoom| => initialRoom[i]);
    assert goalCells[..] == initialRoom && utilityCells[..] == initialRoom;
    var envGoal := new VacuumEnvironment(goalCells);
    var envUtility := new VacuumEnvironment(utilityCells);
    var goalAgent := new GoalBasedAgent(envGoal);
    var utilityAgent := new UtilityBasedAgent(envUtility);
    goalAgent.Run();
    utilityAgent.Run();
    goalRoom := envGoal.room[..];
    utilityRoom := envUtility.room[..];
    utility := utilityAgent.utility;
    GoalMatchesUtility(initialRoom, 0);
    UtilityScore(initialRoom, 0);
  }
}
