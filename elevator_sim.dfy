/** The simulation as the program runs it: one object holding the car's
    fields, the building's floors and the exit log, with the car's
    methods updating them in place. Each method is proved against the
    matching function of ElevatorSpec. */
module ElevatorSim {
  import opened ElevatorSpec
  import ElevatorProps

  class Simulation {
    var currentFloor: int
    var passengers: seq<Passenger>
    var queue: seq<int>
    var isIdle: bool
    var idleStartTime: Tick
    var direction: Direction
    /** The waiting list of each floor. */
    const floors: array<seq<Passenger>>
    /** Passengers who got off, by floor, for display. */
    var exitLog: map<int, seq<ExitEntry>>

    /** The value of the whole simulation. */
    function State(): Sim
      reads this, floors
    {
      Sim(currentFloor, passengers, queue, isIdle, idleStartTime, direction, floors[..], exitLog)
    }

    ghost predicate Valid()
      reads this, floors
    {
      floors.Length == FloorCount && Inv(State())
    }

    constructor ()
      ensures Valid() && fresh(floors)
      ensures State() == Initial()
    {
      currentFloor := 0;
      passengers := [];
      queue := [];
      isIdle := false;
      idleStartTime := 0;
      direction := Idle;
      floors := new seq<Passenger>[FloorCount](_ => []);
      exitLog := map[];
    }

    method GetTotalWeight() returns (sum: int)
      ensures sum == SumWeights(passengers)
    {
      sum := 0;
      for i := 0 to |passengers|
        invariant sum == SumWeights(passengers[..i])
      {
        assert passengers[..i + 1][..i] == passengers[..i];
        sum := sum + passengers[i].weight;
      }
      assert passengers[..|passengers|] == passengers;
    }

    method GetPassengerCount() returns (n: int)
      ensures n == |passengers|
    {
      n := |passengers|;
    }

    method HasWaitingPassengers() returns (b: bool)
      requires Valid()
      ensures b <==> exists k :: 0 <= k < FloorCount && floors[k] != []
      ensures b <==> NearestWaiting(floors[..], currentFloor) != -1
    {
      ElevatorProps.NearestWaitingSpec(floors[..], currentFloor);
      for i := 0 to FloorCount
        invariant forall k :: 0 <= k < i ==> floors[k] == []
      {
        if floors[i] != [] {
          return true;
        }
      }
      return false;
    }

    method FindNearestWaitingFloor() returns (nearest: int)
      requires floors.Length == FloorCount
      ensures nearest == NearestWaiting(floors[..], currentFloor)
    {
      var minDistance := FloorCount + 1;
      nearest := -1;
      for i := 0 to FloorCount
        invariant NearestFrom(floors[..], currentFloor, i, minDistance, nearest)
               == NearestWaiting(floors[..], currentFloor)
      {
        if floors[i] != [] {
          var dist := Abs(currentFloor - i);
          if dist < minDistance {
            minDistance := dist;
            nearest := i;
          }
        }
      }
    }

    method AddDestination(floor: int)
      modifies this`queue
      ensures queue == AddDest(old(queue), floor)
    {
      if floor !in queue {
        queue := queue + [floor];
      }
    }

    method UnloadPassengers(now: Tick)
      modifies this`passengers, this`exitLog
      ensures State() == Unload(old(State()), now)
    {
      var f := currentFloor;
      var ps := passengers;
      var remaining := [];
      for i := 0 to |ps|
        invariant remaining == Staying(ps[..i], f)
        invariant exitLog == LogExits(old(exitLog), f, Stamp(Leaving(ps[..i], f), now))
      {
        var p := ps[i];
        assert ps[..i + 1] == ps[..i] + [p];
        ElevatorProps.StampSnoc(Leaving(ps[..i], f), p, now);
        ElevatorProps.LogExitsSnoc(old(exitLog), f, Stamp(Leaving(ps[..i], f), now), ExitEntry(now, p));
        if p.destinationFloor == f {
          exitLog := exitLog[f := Get(exitLog, f) + [ExitEntry(now, p)]];
        } else {
          remaining := remaining + [p];
        }
      }
      assert ps[..|ps|] == ps;
      passengers := remaining;
    }

    method LoadPassengers() returns (anyLeft: bool)
      requires floors.Length == FloorCount && 0 <= currentFloor < FloorCount
      modifies this`passengers, this`queue, floors
      ensures var r := Load(old(floors[currentFloor]), old(passengers), old(queue), direction, currentFloor);
        && floors[currentFloor] == r.stillWaiting && passengers == r.onboard
        && queue == r.queue && anyLeft == r.anyLeft
      ensures floors[..] == old(floors[..])[currentFloor := floors[currentFloor]]
    {
      var f, dir := currentFloor, direction;
      ghost var goal := Load(floors[f], passengers, queue, dir, f);
      ghost var kept: seq<Passenger> := [];
      ghost var rest := floors[f];
      anyLeft := false;
      var i := 0;
      while i < |floors[f]|
        invariant floors[f] == kept + rest && i == |kept|
        invariant floors[..] == old(floors[..])[f := floors[f]]
        invariant goal == Resume(kept, anyLeft, Load(rest, passengers, queue, dir, f))
        decreases |rest|
      {
        var total := GetTotalWeight();
        var waiting := floors[f];
        var p := waiting[i];
        assert p == rest[0];
        if total + p.weight <= MaxWeight {
          if dir == Idle || (dir == Up && p.destinationFloor > f)
                               || (dir == Down && p.destinationFloor < f) {
            AdmitStep(rest, passengers, queue, dir, f);
            EraseAt(kept, rest);
            ghost var before := floors[..];
            Admit(f, i);
            UpdateTwice(old(floors[..]), f, before[f], floors[f]);
            rest := rest[1..];
          } else {
            KeepStep(kept, anyLeft, rest, passengers, queue, dir, f);
            i := i + 1;
            kept, rest := kept + [p], rest[1..];
          }
        } else {
          KeepStep(kept, anyLeft, rest, passengers, queue, dir, f);
          anyLeft := true;
          i := i + 1;
          kept, rest := kept + [p], rest[1..];
        }
      }
      assert rest == [] && kept + rest == kept;
    }

    /** Erasing the first passenger of `rest` from the floor `kept + rest`. */
    static lemma EraseAt(kept: seq<Passenger>, rest: seq<Passenger>)
      requires rest != []
      ensures (kept + rest)[..|kept|] + (kept + rest)[|kept| + 1..] == kept + rest[1..]
    {
      assert (kept + rest)[..|kept|] == kept;
      assert (kept + rest)[|kept| + 1..] == rest[1..];
    }

    /** The `i`-th passenger waiting at floor `f` boards and their
        destination is queued; they leave the floor's list. */
    method Admit(f: int, i: int)
      requires floors.Length == FloorCount && 0 <= f < FloorCount && 0 <= i < |floors[f]|
      modifies this`passengers, this`queue, floors
      ensures passengers == old(passengers) + [old(floors[f][i])]
      ensures queue == AddDest(old(queue), old(floors[f][i]).destinationFloor)
      ensures floors[..] == old(floors[..])[f := old(floors[f][..i] + floors[f][i + 1..])]
    {
      var waiting := floors[f];
      var p := waiting[i];
      passengers := passengers + [p];
      AddDestination(p.destinationFloor);
      floors[f] := waiting[..i] + waiting[i + 1..];
    }

    /** Two writes to the same floor leave the second. */
    static lemma UpdateTwice(fs: seq<seq<Passenger>>, f: int, x: seq<Passenger>, y: seq<Passenger>)
      requires 0 <= f < |fs|
      ensures fs[f := x][f := y] == fs[f := y]
    {
    }

    /** The pass over `rest` once its first passenger has boarded. */
    static lemma AdmitStep(rest: seq<Passenger>, onboard: seq<Passenger>, queue: seq<int>, dir: Direction, f: int)
      requires rest != [] && SumWeights(onboard) + rest[0].weight <= MaxWeight
      requires Compatible(dir, rest[0].destinationFloor, f)
      ensures Load(rest, onboard, queue, dir, f)
           == Load(rest[1..], onboard + [rest[0]], AddDest(queue, rest[0].destinationFloor), dir, f)
    {
    }

    /** The pass over `rest` once its first passenger has been kept on the
        floor, by the weight cap or by the direction rule. */
    static lemma KeepStep(kept: seq<Passenger>, anyLeft: bool, rest: seq<Passenger>, onboard: seq<Passenger>, queue: seq<int>, dir: Direction, f: int)
      requires rest != []
      requires !(SumWeights(onboard) + rest[0].weight <= MaxWeight && Compatible(dir, rest[0].destinationFloor, f))
      ensures (kept + [rest[0]]) + rest[1..] == kept + rest
      ensures Resume(kept + [rest[0]], anyLeft || SumWeights(onboard) + rest[0].weight > MaxWeight, Load(rest[1..], onboard, queue, dir, f))
           == Resume(kept, anyLeft, Load(rest, onboard, queue, dir, f))
    {
      var next := Load(rest[1..], onboard, queue, dir, f);
      assert Load(rest, onboard, queue, dir, f).stillWaiting == [rest[0]] + next.stillWaiting;
      assert (kept + [rest[0]]) + next.stillWaiting == kept + ([rest[0]] + next.stillWaiting);
      assert rest == [rest[0]] + rest[1..];
    }

    /** A loading pass that has kept `kept` on the floor and seen a weight
        refusal when `anyLeft`, finished by the pass `r` over the rest. */
    static ghost function Resume(kept: seq<Passenger>, anyLeft: bool, r: Loading): Loading {
      Loading(kept + r.stillWaiting, r.onboard, r.queue, anyLeft || r.anyLeft)
    }

    /** One tick of the car at time `now`. */
    method Move(now: Tick)
      requires Valid()
      modifies this, floors
      ensures Valid()
      ensures State() == Step(old(State()), now)
    {
      ghost var s0 := State();
      if queue != [] {
        Serve(now);
      } else {
        Wait(now);
      }
      ElevatorProps.StepInv(s0, now);
    }

    /** The tick with a non-empty queue: one floor toward the front, unload,
        load, then settle the queue and the direction. */
    method Serve(now: Tick)
      requires Valid() && queue != []
      modifies this, floors
      ensures floors.Length == FloorCount
      ensures State() == Busy(old(State()), now)
    {
      ghost var s0 := State();
      var target := queue[0];
      Advance();
      UnloadPassengers(now);
      ghost var s1 := State();
      var reAdd := LoadPassengers();
      ghost var l := Board(s1);
      assert floors[..] == s1.floors[currentFloor := l.stillWaiting];
      ghost var s2 := State();
      assert s2 == AfterBoarding(s1, l);
      Settle(target, reAdd);
    }

    /** One floor toward the front of the queue. */
    method Advance()
      requires Valid() && queue != []
      modifies this`isIdle, this`currentFloor, this`direction
      ensures State() == Travel(old(State()))
    {
      isIdle := false;
      var target := queue[0];
      assert InRange(target);
      if target > currentFloor {
        currentFloor := currentFloor + 1;
        direction := Up;
      } else if target < currentFloor {
        currentFloor := currentFloor - 1;
        direction := Down;
      } else {
        direction := Idle;
      }
    }

    /** After loading: on reaching `target` its entry leaves the queue and
        the floor is queued again when `reAdd`; then the car faces the new
        front. */
    method Settle(target: int, reAdd: bool)
      requires queue != [] && queue[0] == target
      modifies this`queue, this`direction
      ensures queue == if target == currentFloor then Arrive(old(queue), currentFloor, reAdd) else old(queue)
      ensures direction == Heading(queue, currentFloor)
    {
      if target == currentFloor {
        queue := queue[1..];
        if reAdd && currentFloor !in queue {
          queue := queue + [currentFloor];
        }
      }
      if queue != [] {
        if queue[0] > currentFloor {
          direction := Up;
        } else if queue[0] < currentFloor {
          direction := Down;
        } else {
          direction := Idle;
        }
      } else {
        direction := Idle;
      }
    }

    /** The tick with an empty queue: seek the nearest waiting passenger,
        start the idle timer, or park at floor 0 once it has run out. */
    method Wait(now: Tick)
      requires Valid() && queue == []
      modifies this`queue, this`direction, this`isIdle, this`idleStartTime
      ensures State() == IdleTick(old(State()), now)
    {
      if passengers == [] {
        var nearest := FindNearestWaitingFloor();
        if nearest != -1 {
          queue := queue + [nearest];
          direction := if nearest > currentFloor then Up else Down;
          isIdle := false;
        } else {
          if !isIdle {
            idleStartTime := now;
            isIdle := true;
          } else {
            if Elapsed(now, idleStartTime) >= IdleTimeout && currentFloor != 0 {
              queue := queue + [0];
              direction := if currentFloor > 0 then Down else Up;
            }
          }
        }
      } else {
        isIdle := false;
        direction := if passengers[0].destinationFloor > currentFloor then Up else Down;
      }
    }

    /** A button press for a ride from `from` to `to`. */
    method PlaceCall(from: int, to: int)
      requires Valid() && InRange(from) && InRange(to)
      modifies floors, this`queue
      ensures Valid()
      ensures State() == Call(old(State()), from, to)
    {
      ghost var s0 := State();
      floors[from] := floors[from] + [Passenger(to, DefaultWeight)];
      AddDestination(from);
      ElevatorProps.CallInv(s0, from, to);
    }

    /** The window's command message: the low word of `wParam` is a
        command id, and a button's id is decoded into a call. */
    method HandleCommand(wParam: nat)
      requires Valid()
      modifies floors, this`queue
      ensures Valid()
      ensures DecodeButton(LowWord(wParam)).Some? ==>
        State() == Call(old(State()), DecodeButton(LowWord(wParam)).value.0, DecodeButton(LowWord(wParam)).value.1)
      ensures DecodeButton(LowWord(wParam)).None? ==> State() == old(State())
    {
      var code := LowWord(wParam);
      if ButtonBase <= code < ButtonBase + FloorCount * FloorCount {
        var id := code - ButtonBase;
        var from := id / FloorCount;
        var to := id % FloorCount;
        PlaceCall(from, to);
      }
    }

    /** The sweep that drops exit-log entries older than the display window. */
    method PurgeExitLog(now: Tick)
      modifies this`exitLog
      ensures exitLog == PurgeLog(old(exitLog), now)
    {
      for i := 0 to FloorCount
        invariant exitLog == PurgeFloors(old(exitLog), now, i)
      {
        var exiting := SweepFloor(Get(exitLog, i), now);
        exitLog := exitLog[i := exiting];
      }
    }

    /** One floor's part of the sweep: entries outside the window are
        erased in place, the others keep their order. */
    static method SweepFloor(entries: seq<ExitEntry>, now: Tick) returns (exiting: seq<ExitEntry>)
      ensures exiting == Fresh(entries, now)
    {
      exiting := entries;
      var j := 0;
      while j < |exiting|
        invariant 0 <= j <= |exiting|
        invariant exiting[..j] + Fresh(exiting[j..], now) == Fresh(entries, now)
        decreases |exiting| - j
      {
        if Elapsed(now, exiting[j].time) <= ExitWindow {
          ElevatorProps.FreshKeep(exiting, j, now);
          j := j + 1;
        } else {
          ElevatorProps.FreshDrop(exiting, j, now);
          exiting := exiting[..j] + exiting[j + 1..];
        }
      }
      ElevatorProps.FreshDone(exiting, j, now);
    }
  }
}
