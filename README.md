# Elevator dispatcher

A model of the single-car elevator simulation in `projekt_4.cpp`: a
building of five floors (0 to 4), one car with a 600 kg cap and
passengers of 70 kg each, a stop queue, and a log of who got off where
and when. A timer calls the car's `move()` once a second. A window
button "from i to j" adds a waiting passenger at floor i bound for j and
queues a stop at i. Each repaint sweeps from the exit log the entries
older than three seconds.

Four modules, one per file:

- `ElevatorSpec` (`elevator_spec.dfy`): the entities as values and
  each operation as a pure function on a whole-simulation value `Sim`.
  The entities are passengers, directions, exit-log entries and the
  simulation state.
  - `Step` is one `move()`; `Call` is one button press; `PurgeLog` is the
    exit-log sweep.
  - `Inv` is the state invariant every tick keeps.
  - `Everyone` is the census of people in the building: on board, waiting
    or in the exit log of floors 0 to 4.
- `ElevatorProps` (`elevator_props.dfy`): lemmas about those functions.
  - The invariant is preserved.
  - A tick moves the car by at most one floor.
  - The queue is updated as arrival demands.
  - Loading is a stable partition that respects direction and the weight cap.
  - Nobody is lost or duplicated by a tick.
  - A button id decodes back to its call.
  - The idle branch seeks the nearest waiting floor or parks at floor 0.
  - The exit-log sweep keeps exactly the entries inside the window.
- `ElevatorSim` (`elevator_sim.dfy`): the `Elevator` object as a class.
  - Its fields are the program's fields, the five waiting lists are an
    array, and the exit log is a map.
  - Each method is written with the program's loops and in-place updates.
  - Each method is proved to compute the matching `ElevatorSpec` function
    of the state before the call.
- `ElevatorScenarios` (`elevator_scenarios.dfy`): two runs worked out
  tick by tick.
  - A call from floor 3 down to floor 0 on a fresh simulation. The car
    reaches floor 3 moving Up, does not let in the rider going down,
    drops the stop, re-seeks floor 3 on the next tick and takes the rider
    on the tick after.
  - An empty car at floor 3 whose idle timer has run out, parking at floor 0.

The clock is a parameter. `GetTickCount()` becomes the argument `now` of
`Move`, `UnloadPassengers` and `PurgeExitLog`. One `move()` reads the
clock at most once: in `unloadPassengers` when the queue is non-empty,
otherwise at most once in the idle branch. A single `now` per tick is
therefore exact. Time differences are unsigned 32-bit subtractions (DWORD
arithmetic), written out in `Elapsed` modulo 2^32, so the five-second idle
timeout and the three-second exit window behave as in the program across
a wrap of the tick counter.

## Model

| member | source | states |
|---|---|---|
| ElevatorSpec.Initial | projekt_4.cpp:14-37 | the starting state (car at floor 0, nothing queued, nobody waiting, empty log) satisfies the invariant |
| ElevatorSpec.Elapsed | projekt_4.cpp:123 | `now - since` on 32-bit unsigned ticks, as in the idle timeout here and the exit window at line 242: below 2^32, the plain difference when `since <= now`, the difference plus 2^32 after a wrap |
| ElevatorSpec.AddDest | projekt_4.cpp:137-141 | the floor is in the new queue, a queue already holding it is unchanged, and the old queue is kept as a prefix with at most one entry appended |
| ElevatorSpec.Staying | projekt_4.cpp:143-155 | the passengers kept on board are passengers of the list not bound for this floor |
| ElevatorSpec.Leaving | projekt_4.cpp:143-155 | the passengers who get off are passengers of the list bound for this floor |
| ElevatorSpec.LogExits | projekt_4.cpp:147-148 | logging exits appends them to this floor's entries and leaves every other floor's entries alone |
| ElevatorSpec.Fresh | projekt_4.cpp:239-249 | an entry survives the sweep exactly when it was in the list and is at most 3000 ms old |
| ElevatorProps.FreshSplit | projekt_4.cpp:239-249 | the surviving and the erased entries interleave back into the floor's list, each in its original order, and together are the list as a multiset |
| ElevatorSpec.Load | projekt_4.cpp:157-179 | a loading pass never grows the waiting list, and keeps the old onboard list and the old queue as prefixes |
| ElevatorSpec.Travel | projekt_4.cpp:74-89 | one floor toward the queue front stays between floors 0 and 4 and changes only the car's own fields |
| ElevatorSpec.Unload | projekt_4.cpp:143-155 | unloading leaves the floor, the queue, the waiting lists and the direction unchanged |
| ElevatorSpec.LowWord | projekt_4.cpp:286 | the low 16 bits: below 2^16, equal to the parameter when it fits, and congruent to it modulo 2^16 |
| ElevatorSpec.DecodeButton | projekt_4.cpp:286-289 | a command id is decoded exactly when it lies in 1000 .. 1024, and then into two existing floors whose button id it is |
| ElevatorProps.AddDestSpec | projekt_4.cpp:137-141 | a floor is in the new queue iff it was queued or is the added one; distinct entries stay distinct |
| ElevatorProps.AddDestIdempotent | projekt_4.cpp:137-141 | adding the same destination twice is the same as adding it once |
| ElevatorProps.SumWeightsConcat | projekt_4.cpp:39-43 | total weight is additive over concatenation |
| ElevatorProps.StayingWeight | projekt_4.cpp:143-155 | unloading never raises the weight on board |
| ElevatorProps.UnloadSplit | projekt_4.cpp:143-155 | the passengers who stay and those who leave interleave back into the old list, each in order, and together are the old list as a multiset |
| ElevatorProps.InterleavingMultiset | projekt_4.cpp:143-155 | an interleaving of two lists holds exactly their elements |
| ElevatorProps.RidersStamp | projekt_4.cpp:147-148 | the passengers in freshly stamped log entries are exactly those stamped, in order |
| ElevatorProps.FreshIdempotent | projekt_4.cpp:239-249 | sweeping a swept list again changes nothing |
| ElevatorProps.PurgeLogSpec | projekt_4.cpp:235-251 | after the sweep floors 0 .. 4 all have a key and hold the surviving entries of their old list; other keys are untouched |
| ElevatorProps.LoadPartition | projekt_4.cpp:157-179 | who boards and who stays interleave back into the floor's list in order, together are the old list as a multiset, and boarders are appended after the old passengers |
| ElevatorProps.LoadAdmitsCompatible | projekt_4.cpp:162-164 | everyone admitted fits the car's direction: any destination when Idle, above when Up, below when Down |
| ElevatorProps.LoadWeightCap | projekt_4.cpp:161 | loading never takes the weight on board above 600 kg |
| ElevatorProps.LoadLeftBehind | projekt_4.cpp:157-179 | whoever stays either goes the wrong way or would not fit on the final load; with the flag clear everyone left goes the wrong way, with it set someone left would not fit, and a too-heavy first passenger sets it |
| ElevatorProps.LoadAdmitsAt | projekt_4.cpp:160-172 | at each passenger's turn in the scan, they board, appended to the load so far, exactly when they go the car's way and pass the weight test against the load boarded before them; otherwise the load is unchanged and the scan goes on |
| ElevatorProps.LoadWaitingAt | projekt_4.cpp:160-177 | the list left waiting keeps the scan order: at each passenger's turn, the list left so far is extended by that passenger exactly when they do not board, that is when they go the other way or fail the weight test against the load boarded before them |
| ElevatorProps.LoadOverweight | projekt_4.cpp:159-175 | the returned flag is set iff some passenger, at their turn in the scan and with the load boarded before them, fails the weight test; the weight test comes before the direction test |
| ElevatorProps.LoadQueue | projekt_4.cpp:166 | the new queue is the old one with each boarder's destination added, in boarding order, when not yet queued; so it holds exactly the old targets and the boarders' destinations |
| ElevatorProps.LoadNoDup | projekt_4.cpp:166 | loading keeps the queue free of duplicates |
| ElevatorProps.LoadBound | projekt_4.cpp:157-179 | loading keeps every destination and every queued target an existing floor |
| ElevatorProps.UnloadInv | projekt_4.cpp:143-155 | unloading preserves the invariant |
| ElevatorProps.BoardInv | projekt_4.cpp:157-179 | loading preserves the invariant |
| ElevatorProps.TravelInv | projekt_4.cpp:74-89 | the move of one floor preserves the invariant and leaves queue, passengers and waiting lists as they were |
| ElevatorProps.ArriveInv | projekt_4.cpp:94-108 | dropping the reached target and re-queueing on overweight preserves the invariant |
| ElevatorProps.IdleInv | projekt_4.cpp:110-134 | the empty-queue branch preserves the invariant |
| ElevatorProps.StepInv | projekt_4.cpp:73-135 | every tick preserves the invariant: five floors, car on a floor, distinct in-range targets, at most 600 kg on board, every destination a floor |
| ElevatorProps.StepMovement | projekt_4.cpp:73-135 | a tick moves the car at most one floor, toward the queue front, with the matching direction; with an empty queue the car stays; a busy tick ends facing the new queue front and not idle |
| ElevatorProps.ArriveSpec | projekt_4.cpp:94-99 | on arrival the queue becomes the rest of the queue in order, followed by the floor iff someone was left for weight; so the floor stays queued iff the flag is set, and other targets are unaffected |
| ElevatorProps.StepArrival | projekt_4.cpp:91-108 | on reaching the target the queue is the loaded queue without its front, in order, followed by the target iff the weight cap left someone behind; short of the target the queue is the loaded queue with the target still in front |
| ElevatorProps.WaitingUpdate | projekt_4.cpp:19-21 | replacing one floor's waiting list removes exactly the difference from the waiting census |
| ElevatorProps.LoggedExits | projekt_4.cpp:148 | logging exits on a floor adds exactly those riders to the log census |
| ElevatorProps.UnloadConserves | projekt_4.cpp:143-155 | unloading moves riders into the log and loses or adds nobody |
| ElevatorProps.BoardConserves | projekt_4.cpp:157-179 | loading moves waiting passengers into the car and loses or adds nobody |
| ElevatorProps.BusyConserves | projekt_4.cpp:74-108 | a tick with a non-empty queue keeps the census of the building |
| ElevatorProps.StepConserves | projekt_4.cpp:73-135 | every tick keeps the census: the multiset of people on board, waiting, and logged on floors 0 .. 4 |
| ElevatorProps.CallInv | projekt_4.cpp:285-292 | a button press between existing floors preserves the invariant |
| ElevatorProps.CallAdds | projekt_4.cpp:285-292 | a button press adds exactly one 70 kg passenger bound for `to` to the census |
| ElevatorProps.ButtonRoundTrip | projekt_4.cpp:264-269 | the id given to the button "from i to j" decodes back to the call (i, j) |
| ElevatorProps.IdleSeeks | projekt_4.cpp:111-116 | an empty, unqueued car with someone waiting queues exactly one floor: a non-empty floor nearest the car (the lowest on a tie), without moving |
| ElevatorProps.IdleParks | projekt_4.cpp:117-129 | with nobody anywhere the car starts its idle timer, then once 5000 ms have elapsed away from floor 0 queues floor 0 heading Down, and otherwise does nothing |
| ElevatorProps.NearestFromSpec | projekt_4.cpp:58-71 | the scan over the remaining floors finds -1 iff every floor is empty, otherwise a non-empty floor nearest the car, the lowest among equals |
| ElevatorProps.NearestWaitingSpec | projekt_4.cpp:58-71 | the nearest waiting floor is -1 iff nobody waits, otherwise a non-empty floor at least as near as every other, the lowest among equally near |
| ElevatorSim.Simulation.constructor | projekt_4.cpp:29-37 | a new simulation is the initial state and is valid |
| ElevatorSim.Simulation.GetTotalWeight | projekt_4.cpp:39-43 | the loop's sum is the total weight on board |
| ElevatorSim.Simulation.GetPassengerCount | projekt_4.cpp:45-47 | the count is the number of passengers on board |
| ElevatorSim.Simulation.HasWaitingPassengers | projekt_4.cpp:49-56 | true iff some floor has a waiting passenger, which is iff the nearest waiting floor exists |
| ElevatorSim.Simulation.FindNearestWaitingFloor | projekt_4.cpp:58-71 | the loop computes the nearest waiting floor |
| ElevatorSim.Simulation.AddDestination | projekt_4.cpp:137-141 | the queue becomes the old queue with the floor added when absent |
| ElevatorSim.Simulation.UnloadPassengers | projekt_4.cpp:143-155 | the new state is the unloading of the old one at `now` |
| ElevatorSim.Simulation.LoadPassengers | projekt_4.cpp:157-179 | erasing in place while scanning leaves the floor's list, the passengers, the queue and the result of one loading pass; other floors are untouched |
| ElevatorSim.Simulation.Admit | projekt_4.cpp:165-167 | the scanned passenger boards, their destination is queued, and they are erased from the floor's list |
| ElevatorSim.Simulation.Move | projekt_4.cpp:73-135 | one tick keeps the object valid and yields exactly `Step` of the old state |
| ElevatorSim.Simulation.Serve | projekt_4.cpp:74-108 | the non-empty-queue branch yields exactly `Busy` of the old state |
| ElevatorSim.Simulation.Advance | projekt_4.cpp:75-89 | the move toward the queue front is `Travel` of the old state |
| ElevatorSim.Simulation.Settle | projekt_4.cpp:94-108 | the queue is the arrival update when the target was reached and unchanged otherwise, and the direction faces the new front |
| ElevatorSim.Simulation.Wait | projekt_4.cpp:110-134 | the empty-queue branch yields exactly `IdleTick` of the old state |
| ElevatorSim.Simulation.PlaceCall | projekt_4.cpp:290-291 | a press adds the passenger and the stop, keeping the object valid |
| ElevatorSim.Simulation.HandleCommand | projekt_4.cpp:285-292 | a button's command id places its decoded call; any other command leaves the state unchanged |
| ElevatorSim.Simulation.PurgeExitLog | projekt_4.cpp:235-251 | the sweep over floors 0 .. 4 leaves exactly `PurgeLog` of the old log |
| ElevatorSim.Simulation.SweepFloor | projekt_4.cpp:239-249 | erasing stale entries in place while scanning leaves exactly the fresh entries, in order |
| ElevatorScenarios.CallFromThree | projekt_4.cpp:73-179 | a call 3 to 0 on a fresh simulation: three ticks up, the rider refused at floor 3 because the car arrives heading Up, the stop re-sought, and the rider boarding on the fifth tick with floor 0 queued |
| ElevatorScenarios.ParkFromThree | projekt_4.cpp:110-134 | an empty car at floor 3 whose timer ran out queues floor 0, descends in three ticks, restarts the timer, then stays put |

## Left out

- Drawing with GDI+, window creation, the message loop and the repaint
  request are not modelled; they compute nothing the dispatcher uses.
- The Win32 timer that calls `move()` once a second is not modelled; a
  run is a sequence of `Move` calls with their clock readings.
- `GetTickCount()` is not modelled as a call; its reading is the `now`
  parameter, one per tick and one per sweep.
- The exit-log sweep runs inside the paint routine in the program; here
  it is the standalone `PurgeExitLog`. The drawing of the survivors is
  left out and the loop's erase logic is kept.
- Passenger weights are natural numbers; the program's `int` weight is
  always 70. The `int` sum of at most a few hundred cannot overflow, so
  no 32-bit wrap is modelled for it.
- The button grid creates no button "from i to i". The command handler
  would still accept such an id, and `Call` models the handler, so it
  accepts `from == to`.
- The exit log is a `map` from `int` floors; the program's
  `std::map<int, ...>` also gains empty entries for floors 0 to 4 when
  the sweep reads them, and `PurgeFloors` models that.
- Fresh: its own contract says which entries survive the sweep, not in
  what order or how many times; FreshSplit proves both.
