/** Short runs of the dispatcher from concrete states, worked out tick by
    tick from the definitions in ElevatorSpec. */
module ElevatorScenarios {
  import opened ElevatorSpec

  /** With nobody on board, unloading changes nothing. */
  lemma NobodyLeaves(s: Sim, t: Tick)
    requires s.passengers == []
    ensures Unload(s, t) == s
  {
    assert Stamp(Leaving([], s.currentFloor), t) == [];
  }

  // ------------------------------------------- a call from floor 3 to 0

  const Rider := Passenger(0, DefaultWeight)
  const RiderAtThree: seq<seq<Passenger>> := [[], [], [], [Rider], []]

  const Called := Sim(0, [], [3], false, 0, Idle, RiderAtThree, map[])
  const AtOne := Sim(1, [], [3], false, 0, Up, RiderAtThree, map[])
  const AtTwo := Sim(2, [], [3], false, 0, Up, RiderAtThree, map[])
  const PassedBy := Sim(3, [], [], false, 0, Idle, RiderAtThree, map[])
  const Sought := Sim(3, [], [3], false, 0, Down, RiderAtThree, map[])
  const Boarded := Sim(3, [Rider], [0], false, 0, Down, NobodyWaiting, map[])

  /** The invariant holds of every empty car while the rider waits at floor 3. */
  lemma Awaiting(s: Sim)
    requires s.floors == RiderAtThree && s.passengers == []
    requires InRange(s.currentFloor) && NoDup(s.queue) && Targets(s.queue)
    ensures Inv(s)
  {
    forall k | 0 <= k < |s.floors|
      ensures Bound(s.floors[k])
    {
      assert s.floors[k] == [] || s.floors[k] == [Rider];
    }
  }

  lemma CallMade()
    ensures Call(Initial(), 3, 0) == Called && Inv(Called)
  {
    Awaiting(Called);
    assert NobodyWaiting[3] == [];
    assert [] + [Rider] == [Rider];
    assert NobodyWaiting[3 := [Rider]][3] == RiderAtThree[3];
    assert NobodyWaiting[3 := [Rider]] == RiderAtThree;
  }

  lemma ClimbToOne(t: Tick)
    ensures Inv(Called) && Step(Called, t) == AtOne
  {
    Awaiting(Called);
    assert Board(Unload(Travel(Called), t)) == Loading([], [], [3], false);
  }

  lemma ClimbToTwo(t: Tick)
    ensures Inv(AtOne) && Step(AtOne, t) == AtTwo
  {
    Awaiting(AtOne);
    assert Board(Unload(Travel(AtOne), t)) == Loading([], [], [3], false);
  }

  /** The car reaches floor 3 heading Up: the rider going down stays. */
  lemma PassBy(t: Tick)
    ensures Inv(AtTwo) && Step(AtTwo, t) == PassedBy
  {
    Awaiting(AtTwo);
    var s1 := Unload(Travel(AtTwo), t);
    NobodyLeaves(Travel(AtTwo), t);
    assert s1 == AtTwo.(currentFloor := 3);
    assert [Rider][1..] == [] && s1.floors[3] == [Rider];
    assert Load([], [], [3], Up, 3) == Loading([], [], [3], false);
    assert Board(s1) == Loading([Rider], [], [3], false);
    assert RiderAtThree[3 := [Rider]] == RiderAtThree;
  }

  /** With the queue empty, floor 3 is the nearest one with a rider. */
  lemma SeekThree(t: Tick)
    ensures Inv(PassedBy) && Step(PassedBy, t) == Sought
  {
    Awaiting(PassedBy);
    assert RiderAtThree[0] == [] && RiderAtThree[1] == [] && RiderAtThree[2] == [] && RiderAtThree[4] == [];
    assert NearestFrom(RiderAtThree, 3, 5, 0, 3) == 3;
    assert NearestFrom(RiderAtThree, 3, 4, 0, 3) == 3;
    assert NearestFrom(RiderAtThree, 3, 3, FloorCount + 1, -1) == 3;
    assert NearestFrom(RiderAtThree, 3, 2, FloorCount + 1, -1) == 3;
    assert NearestFrom(RiderAtThree, 3, 1, FloorCount + 1, -1) == 3;
    assert NearestWaiting(RiderAtThree, 3) == 3;
  }

  /** An Idle car at floor 3 takes the rider and queues floor 0. */
  lemma RiderBoards()
    ensures Load([Rider], [], [3], Idle, 3) == Loading([], [Rider], [3, 0], false)
  {
    assert [Rider][1..] == [] && [] + [Rider] == [Rider];
    assert AddDest([3], 0) == [3, 0];
    assert Load([], [Rider], [3, 0], Idle, 3) == Loading([], [Rider], [3, 0], false);
  }

  /** Standing at the target, the car is Idle and lets the rider in. */
  lemma LetIn(t: Tick)
    ensures Inv(Sought) && Step(Sought, t) == Boarded
  {
    Awaiting(Sought);
    var s1 := Unload(Travel(Sought), t);
    NobodyLeaves(Travel(Sought), t);
    assert s1 == Sought.(direction := Idle);
    assert s1.floors[3] == [Rider];
    RiderBoards();
    assert Board(s1) == Loading([], [Rider], [3, 0], false);
    assert RiderAtThree[3 := []] == NobodyWaiting;
  }

  /** A call from floor 3 down to floor 0 on a fresh simulation. The car
      climbs for three ticks and reaches floor 3 heading Up, so the rider
      going down is not let in and the stop is dropped; the fourth tick
      queues floor 3 again (heading Down, since 3 is not above 3), and the
      rider boards on the fifth, with floor 0 queued and the car facing
      Down. */
  lemma CallFromThree(t1: Tick, t2: Tick, t3: Tick, t4: Tick, t5: Tick)
    ensures Call(Initial(), 3, 0) == Called
    ensures Inv(Called) && Step(Called, t1) == AtOne
    ensures Inv(AtOne) && Step(AtOne, t2) == AtTwo
    ensures Inv(AtTwo) && Step(AtTwo, t3) == PassedBy
    ensures Inv(PassedBy) && Step(PassedBy, t4) == Sought
    ensures Inv(Sought) && Step(Sought, t5) == Boarded
  {
    CallMade();
    ClimbToOne(t1);
    ClimbToTwo(t2);
    PassBy(t3);
    SeekThree(t4);
    LetIn(t5);
  }

  // ------------------------------------------------ parking at floor 0

  /** The building with nobody anywhere, the car at `floor`. */
  function Vacant(floor: int, queue: seq<int>, isIdle: bool, since: Tick, dir: Direction): Sim {
    Sim(floor, [], queue, isIdle, since, dir, NobodyWaiting, map[])
  }

  lemma NobodyAnywhere(floor: int)
    ensures NearestWaiting(NobodyWaiting, floor) == -1
  {
    assert NearestFrom(NobodyWaiting, floor, 3, FloorCount + 1, -1) == -1;
  }

  /** The idle timer has run out at floor 3: floor 0 is queued, heading Down. */
  lemma CallParking(start: Tick, t: Tick)
    requires Elapsed(t, start) >= IdleTimeout
    ensures Inv(Vacant(3, [], true, start, Idle))
    ensures Step(Vacant(3, [], true, start, Idle), t) == Vacant(3, [0], true, start, Down)
  {
    NobodyAnywhere(3);
  }

  /** One floor down toward floor 0. */
  lemma Descend(floor: int, start: Tick, idle: bool, dir: Direction, t: Tick)
    requires 1 < floor <= 3
    ensures Inv(Vacant(floor, [0], idle, start, dir))
    ensures Step(Vacant(floor, [0], idle, start, dir), t) == Vacant(floor - 1, [0], false, start, Down)
  {
    var s := Vacant(floor, [0], idle, start, dir);
    var s1 := Vacant(floor - 1, [0], false, start, Down);
    assert Travel(s) == s1;
    NobodyLeaves(s1, t);
    assert NobodyWaiting[floor - 1] == [];
    assert Board(s1) == Loading([], [], [0], false);
    assert NobodyWaiting[floor - 1 := []] == NobodyWaiting;
  }

  /** Reaching floor 0 empties the queue. */
  lemma Land(start: Tick, t: Tick)
    ensures Inv(Vacant(1, [0], false, start, Down))
    ensures Step(Vacant(1, [0], false, start, Down), t) == Vacant(0, [], false, start, Idle)
  {
    var s := Vacant(1, [0], false, start, Down);
    NobodyLeaves(Travel(s), t);
    assert Board(Unload(Travel(s), t)) == Loading([], [], [0], false);
    assert NobodyWaiting[0 := []] == NobodyWaiting;
  }

  /** Parked, the car restarts its idle timer, and then stays put. */
  lemma Rest(start: Tick, t: Tick, t': Tick)
    ensures Inv(Vacant(0, [], false, start, Idle))
    ensures Step(Vacant(0, [], false, start, Idle), t) == Vacant(0, [], true, t, Idle)
    ensures Step(Vacant(0, [], true, t, Idle), t') == Vacant(0, [], true, t, Idle)
  {
    NobodyAnywhere(0);
  }

  /** An empty car idle at floor 3 whose timer ran out parks: floor 0 is
      queued, three ticks bring the car down, the next tick restarts the
      idle timer, and no later tick sends it anywhere, as it is already at
      floor 0. */
  lemma ParkFromThree(start: Tick, t1: Tick, t2: Tick, t3: Tick, t4: Tick, t5: Tick, t6: Tick)
    requires Elapsed(t1, start) >= IdleTimeout
    ensures Inv(Vacant(3, [], true, start, Idle))
    ensures Step(Vacant(3, [], true, start, Idle), t1) == Vacant(3, [0], true, start, Down)
    ensures Inv(Vacant(3, [0], true, start, Down))
    ensures Step(Vacant(3, [0], true, start, Down), t2) == Vacant(2, [0], false, start, Down)
    ensures Inv(Vacant(2, [0], false, start, Down))
    ensures Step(Vacant(2, [0], false, start, Down), t3) == Vacant(1, [0], false, start, Down)
    ensures Inv(Vacant(1, [0], false, start, Down))
    ensures Step(Vacant(1, [0], false, start, Down), t4) == Vacant(0, [], false, start, Idle)
    ensures Inv(Vacant(0, [], false, start, Idle))
    ensures Step(Vacant(0, [], false, start, Idle), t5) == Vacant(0, [], true, t5, Idle)
    ensures Inv(Vacant(0, [], true, t5, Idle))
    ensures Step(Vacant(0, [], true, t5, Idle), t6) == Vacant(0, [], true, t5, Idle)
  {
    CallParking(start, t1);
    Descend(3, start, true, Down, t2);
    Descend(2, start, false, Down, t3);
    Land(start, t4);
    Rest(start, t5, t6);
  }
}
