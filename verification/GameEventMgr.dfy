/** The manager object: each method changes its fields as the operations on states say. */
module GameEventManager {
  import opened GameEventSchedule
  import opened GameEvents

  class GameEventMgr {
    var gameEvent: seq<EventData>
    var hardcodedList: set<nat>
    var activeEvents: set<nat>
    /** The status table in the database. */
    var eventStatus: set<nat>
    /** The slots whose creatures and objects are in the world. */
    var spawned: set<int>
    var mailsSent: seq<int>
    var isGameEventsInit: bool

    ghost function View(): State
      reads this
    {
      State(gameEvent, hardcodedList, activeEvents, eventStatus, spawned, mailsSent, isGameEventsInit)
    }

    constructor (events: seq<EventData>, listed: set<nat>, status: set<nat>, mails: seq<int>)
      ensures View() == State(events, listed, {}, status, {}, mails, false)
    {
      gameEvent, hardcodedList, activeEvents := events, listed, {};
      eventStatus, spawned, mailsSent, isGameEventsInit := status, {}, mails, false;
    }

    predicate Exists(id: nat)
      reads this
      ensures Exists(id) <==> IsValidEvent(View(), id)
    {
      id < |gameEvent| && IsValid(gameEvent[id])
    }

    method GameEventSpawn(id: int)
      requires |gameEvent| >= 1
      modifies this`spawned
      ensures spawned == old(spawned) + (if 0 <= |gameEvent| + id - 1 <= 2 * |gameEvent| - 2 then {|gameEvent| + id - 1} else {})
    {
      var internalId := |gameEvent| + id - 1;
      if internalId < 0 || internalId >= 2 * |gameEvent| - 1 {
        return;
      }
      spawned := spawned + {internalId};
    }

    method GameEventUnspawn(id: int)
      requires |gameEvent| >= 1
      modifies this`spawned
      ensures spawned == old(spawned) - (if 0 <= |gameEvent| + id - 1 <= 2 * |gameEvent| - 2 then {|gameEvent| + id - 1} else {})
    {
      var internalId := |gameEvent| + id - 1;
      if internalId < 0 || internalId >= 2 * |gameEvent| - 1 {
        return;
      }
      spawned := spawned - {internalId};
    }

    method ApplyNewEvent(id: nat, resume: bool)
      requires 0 < id < |gameEvent|
      modifies this`activeEvents, this`eventStatus, this`spawned, this`mailsSent
      ensures View() == Apply(old(View()), id, resume)
      ensures id in activeEvents && id in eventStatus
      ensures |gameEvent| + id - 1 in spawned && |gameEvent| - id - 1 !in spawned
    {
      activeEvents := activeEvents + {id};
      eventStatus := eventStatus + {id};
      GameEventSpawn(id);
      GameEventUnspawn(Opposite(id));
      if !resume {
        mailsSent := mailsSent + [id];
      }
    }

    method UnApplyEvent(id: nat)
      requires 0 < id < |gameEvent|
      modifies this`activeEvents, this`eventStatus, this`spawned, this`mailsSent
      ensures View() == UnApply(old(View()), id)
      ensures id !in activeEvents && id !in eventStatus
      ensures |gameEvent| + id - 1 !in spawned && |gameEvent| - id - 1 in spawned
    {
      activeEvents := activeEvents - {id};
      eventStatus := eventStatus - {id};
      GameEventUnspawn(id);
      GameEventSpawn(Opposite(id));
      mailsSent := mailsSent + [Opposite(id)];
    }

    method StartEvent(id: nat, overwrite: bool, resume: bool, now: int)
      requires Table(gameEvent)
      modifies this
      ensures View() == Start(old(View()), id, overwrite, resume, now)
    {
      if !Exists(id) {
        return;
      }
      ApplyNewEvent(id, resume);
      if overwrite {
        var e := gameEvent[id].(start := now);
        if e.end <= e.start {
          e := e.(end := e.start + e.length);
        }
        gameEvent := gameEvent[id := e];
      }
    }

    method StopEvent(id: nat, overwrite: bool, now: int)
      requires 1 <= |gameEvent| && !IsValid(gameEvent[0])
      modifies this
      ensures View() == Stop(old(View()), id, overwrite, now)
    {
      if !Exists(id) {
        return;
      }
      UnApplyEvent(id);
      if overwrite {
        var e := gameEvent[id].(start := now - Window(gameEvent[id]));
        if e.end <= e.start {
          e := e.(end := e.start + e.length);
        }
        gameEvent := gameEvent[id := e];
      }
    }

    method EnableEvent(id: nat, enable: bool, now: int)
      requires Table(gameEvent)
      modifies this
      ensures View() == Enable(old(View()), id, enable, now)
    {
      if !Exists(id) {
        return;
      }
      var disabled := !enable;
      if gameEvent[id].disabled == disabled {
        return;
      }
      gameEvent := gameEvent[id := gameEvent[id].(disabled := disabled)];
      if id !in activeEvents {
        return;
      }
      if id !in hardcodedList {
        StopEvent(id, true, now);
      }
    }

    /** One turn of the update's loop. */
    method UpdateOne(itr: nat, now: int, activeAtShutdown: set<nat>)
      requires Table(gameEvent) && 0 < itr < |gameEvent| && Regular(gameEvent[itr])
      modifies this
      ensures View() == Visit(old(View()), itr, now, activeAtShutdown)
    {
      hide Start, Stop, CheckOneGameEvent;
      if CheckOneGameEvent(gameEvent[itr], now) {
        if itr !in activeEvents {
          var resume := itr in activeAtShutdown;
          StartEvent(itr, false, resume, now);
        }
      } else {
        if itr in activeEvents {
          StopEvent(itr, false, now);
        } else if !isGameEventsInit {
          GameEventSpawn(Opposite(itr));
        }
      }
    }

    method Call(call: Call, now: int)
      requires Table(gameEvent)
      modifies this
      ensures View() == Act(old(View()), call, now)
    {
      match call {
        case StartEvent(id, overwrite) => StartEvent(id, overwrite, false, now);
        case StopEvent(id, overwrite) => StopEvent(id, overwrite, now);
        case EnableEvent(id, on) => EnableEvent(id, on, now);
      }
    }

    /** The hardcoded events make their calls, one after the other. */
    method UpdateHardcoded(calls: seq<Call>, now: int)
      requires Table(gameEvent)
      modifies this
      ensures View() == ActAll(old(View()), calls, now)
    {
      hide Act;
      for i := 0 to |calls|
        invariant Table(gameEvent) && ActAll(View(), calls[i..], now) == ActAll(old(View()), calls, now)
      {
        assert calls[i..][1..] == calls[i + 1..];
        Call(calls[i], now);
      }
    }

    /**
     The hardcoded events make their calls and ask for a delay, `wanted` being the least; then comes
     the loop over the regular events. The result is in milliseconds.
     */
    method Update(now: int, calls: seq<Call>, wanted: nat, activeAtShutdown: set<nat>) returns (delay: nat)
      requires Table(gameEvent)
      modifies this
      ensures View() == VisitAll(ActAll(old(View()), calls, now), 1, now, activeAtShutdown)
      ensures delay == Delay(ActAll(old(View()), calls, now).events, now, wanted)
    {
      hide ActAll, VisitAll;
      UpdateHardcoded(calls, now);
      delay := UpdateRegular(now, wanted, activeAtShutdown);
    }

    method UpdateRegular(now: int, wanted: nat, activeAtShutdown: set<nat>) returns (delay: nat)
      requires Table(gameEvent)
      modifies this
      ensures View() == VisitAll(old(View()), 1, now, activeAtShutdown)
      ensures delay == Delay(old(gameEvent), now, wanted)
    {
      hide Visit, NextCheck, CheckOneGameEvent;
      var nextEventDelay: nat := MAX_CHECK_DELAY;
      if wanted < nextEventDelay {
        nextEventDelay := wanted;
      }
      var itr := 1;
      while itr < |gameEvent|
        invariant Table(gameEvent) && gameEvent == old(gameEvent)
        invariant 1 <= itr
        invariant VisitAll(View(), itr, now, activeAtShutdown) == VisitAll(old(View()), 1, now, activeAtShutdown)
        invariant (LeastDelay(gameEvent, now, itr, nextEventDelay) + 1) * 1000 == Delay(gameEvent, now, wanted)
      {
        if gameEvent[itr].hardcoded || gameEvent[itr].disabled {
          VisitSkips(View(), itr, now, activeAtShutdown);
          itr := itr + 1;
          continue;
        }
        UpdateOne(itr, now, activeAtShutdown);
        var calcDelay := NextCheck(gameEvent[itr], now);
        if calcDelay < nextEventDelay {
          nextEventDelay := calcDelay;
        }
        itr := itr + 1;
      }
      delay := (nextEventDelay + 1) * 1000;
    }

    /** The first update after a start: what the status table still holds resumes without mail. */
    method InitializeAll(now: int, calls: seq<Call>, wanted: nat) returns (delay: nat)
      requires Table(gameEvent)
      modifies this
      ensures View() == Initialize(old(View()), calls, now)
      ensures delay == Delay(ActAll(old(View()).(active := {}, persisted := {}), calls, now).events, now, wanted)
    {
      hide ActAll, VisitAll;
      activeEvents := {};
      var activeAtShutdown := eventStatus;
      eventStatus := {};
      delay := Update(now, calls, wanted, activeAtShutdown);
      isGameEventsInit := true;
    }

    /** The event whose slot lists a creature first; 0 when none does. */
    method GetGameEventId(guids: seq<seq<nat>>, guid: nat) returns (id: int)
      requires |guids| == 2 * |gameEvent| - 1
      ensures forall i :: 0 <= i < |guids| && guid in guids[i] ==>
        0 <= Slot(|gameEvent|, id) <= i && guid in guids[Slot(|gameEvent|, id)]
      ensures (forall i :: 0 <= i < |guids| ==> guid !in guids[i]) ==> id == 0
    {
      for i := 0 to |guids|
        invariant forall j :: 0 <= j < i ==> guid !in guids[j]
      {
        for k := 0 to |guids[i]|
          invariant guid !in guids[i][..k]
        {
          if guids[i][k] == guid {
            return i + 1 - |gameEvent|;
          }
        }
      }
      return 0;
    }
  }
}
