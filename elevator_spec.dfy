/** The values of the single-car elevator simulation and one tick of the
    dispatcher, written as functions. The class in ElevatorSim is proved
    against these definitions; ElevatorProps proves what they promise. */
module ElevatorSpec {

  /** Number of floors served, numbered 0 .. FloorCount - 1. */
  const FloorCount := 5
  /** Largest total weight the car may carry. */
  const MaxWeight := 600
  /** Weight given to every passenger created by a call. */
  const DefaultWeight := 70
  /** Idle time after which an empty car parks at floor 0. */
  const IdleTimeout := 5000
  /** How long a departed passenger stays in the exit log. */
  const ExitWindow := 3000
  /** Modulus of the host's 32-bit millisecond tick counter. */
  const TickModulus := 0x1_0000_0000
  /** Lowest id of the button grid, whose ids are 1000 + from * 5 + to. */
  const ButtonBase := 1000

  /** A reading of the host's unsigned 32-bit millisecond counter. */
  type Tick = t: int | 0 <= t < 0x1_0000_0000

  datatype Option<T> = None | Some(value: T)

  datatype Passenger = Passenger(destinationFloor: int, weight: nat)

  datatype Direction = Idle | Up | Down

  /** A passenger who got off, with the time they got off. */
  datatype ExitEntry = ExitEntry(time: Tick, passenger: Passenger)

  /** The whole simulation: the car's fields, each floor's waiting list
      and the exit log keyed by floor. */
  datatype Sim = Sim(
    currentFloor: int,
    passengers: seq<Passenger>,
    queue: seq<int>,
    isIdle: bool,
    idleStartTime: Tick,
    direction: Direction,
    floors: seq<seq<Passenger>>,
    exitLog: map<int, seq<ExitEntry>>)

  predicate InRange(floor: int) {
    0 <= floor < FloorCount
  }

  predicate NoDup(q: seq<int>) {
    forall i, j :: 0 <= i < j < |q| ==> q[i] != q[j]
  }

  /** Every passenger of `ps` is bound for an existing floor. */
  predicate Bound(ps: seq<Passenger>) {
    forall p :: p in ps ==> InRange(p.destinationFloor)
  }

  /** Every target of `q` is an existing floor. */
  predicate Targets(q: seq<int>) {
    forall i :: 0 <= i < |q| ==> InRange(q[i])
  }

  /** The state invariant the dispatcher keeps: five floors, the car on
      one of them, distinct in-range targets, the weight cap, and every
      passenger bound for an existing floor. */
  predicate Inv(s: Sim) {
    && |s.floors| == FloorCount
    && InRange(s.currentFloor)
    && NoDup(s.queue)
    && Targets(s.queue)
    && SumWeights(s.passengers) <= MaxWeight
    && Bound(s.passengers)
    && (forall k :: 0 <= k < |s.floors| ==> Bound(s.floors[k]))
  }

  /** Five floors with nobody waiting. */
  const NobodyWaiting: seq<seq<Passenger>> := [[], [], [], [], []]

  /** The simulation as the program starts it. */
  function Initial(): (s: Sim)
    ensures Inv(s)
  {
    Sim(0, [], [], false, 0, Idle, NobodyWaiting, map[])
  }

  // ---------------------------------------------------------------- clock

  /** `now - since` computed on unsigned 32-bit values. */
  function Elapsed(now: Tick, since: Tick): (d: nat)
    ensures d < TickModulus
    ensures since <= now ==> d == now - since
    ensures now < since ==> d == now - since + TickModulus
  {
    (now - since) % TickModulus
  }

  // ------------------------------------------------------------ the queue

  /** The queue after asking the car to stop at `floor`. */
  function AddDest(queue: seq<int>, floor: int): (r: seq<int>)
    ensures floor in r
    ensures floor in queue ==> r == queue
    ensures |queue| <= |r| <= |queue| + 1 && r[..|queue|] == queue
  {
    if floor in queue then queue else queue + [floor]
  }

  /** The queue after asking, in order, for a stop at each destination
      of `ps`. */
  function AddDests(queue: seq<int>, ps: seq<Passenger>): seq<int>
    decreases |ps|
  {
    if ps == [] then queue else AddDests(AddDest(queue, ps[0].destinationFloor), ps[1..])
  }

  /** The direction toward the next target, Idle when there is none or
      the car is already there. */
  function Heading(queue: seq<int>, floor: int): Direction {
    if queue == [] then Idle
    else if queue[0] > floor then Up
    else if queue[0] < floor then Down
    else Idle
  }

  // ------------------------------------------------------------ passengers

  /** Total weight of the passengers in `ps`. */
  function SumWeights(ps: seq<Passenger>): nat {
    if ps == [] then 0 else SumWeights(ps[..|ps| - 1]) + ps[|ps| - 1].weight
  }

  /** `w` is made of the elements of `a` and of `b`, each kept in order. */
  predicate Interleaving<T(==)>(w: seq<T>, a: seq<T>, b: seq<T>)
    decreases |w|
  {
    if w == [] then a == [] && b == []
    else
      || (a != [] && a[0] == w[0] && Interleaving(w[1..], a[1..], b))
      || (b != [] && b[0] == w[0] && Interleaving(w[1..], a, b[1..]))
  }

  /** The passengers of `ps` who ride on past `floor`, in order. */
  function Staying(ps: seq<Passenger>, floor: int): (r: seq<Passenger>)
    ensures forall p :: p in r ==> p in ps && p.destinationFloor != floor
  {
    if ps == [] then []
    else
      var p := ps[|ps| - 1];
      var init := Staying(ps[..|ps| - 1], floor);
      if p.destinationFloor == floor then init else init + [p]
  }

  /** The passengers of `ps` who get off at `floor`, in order. */
  function Leaving(ps: seq<Passenger>, floor: int): (r: seq<Passenger>)
    ensures forall p :: p in r ==> p in ps && p.destinationFloor == floor
  {
    if ps == [] then []
    else
      var p := ps[|ps| - 1];
      var init := Leaving(ps[..|ps| - 1], floor);
      if p.destinationFloor == floor then init + [p] else init
  }

  // -------------------------------------------------------------- the log

  function Stamp(ps: seq<Passenger>, now: Tick): (r: seq<ExitEntry>)
    ensures |r| == |ps|
    ensures forall i :: 0 <= i < |ps| ==> r[i] == ExitEntry(now, ps[i])
  {
    seq(|ps|, i requires 0 <= i < |ps| => ExitEntry(now, ps[i]))
  }

  function Riders(es: seq<ExitEntry>): (r: seq<Passenger>)
    ensures |r| == |es|
    ensures forall i :: 0 <= i < |es| ==> r[i] == es[i].passenger
  {
    seq(|es|, i requires 0 <= i < |es| => es[i].passenger)
  }

  /** The log entries of `floor`; a floor never logged has none. */
  function Get(log: map<int, seq<ExitEntry>>, floor: int): seq<ExitEntry> {
    if floor in log then log[floor] else []
  }

  /** The log after appending `es` at `floor`; the key is created only
      when something is appended. */
  function LogExits(log: map<int, seq<ExitEntry>>, floor: int, es: seq<ExitEntry>): (r: map<int, seq<ExitEntry>>)
    ensures Get(r, floor) == Get(log, floor) + es
    ensures forall k :: k != floor ==> Get(r, k) == Get(log, k)
  {
    if es == [] then log else log[floor := Get(log, floor) + es]
  }

  /** The entries of `es` that have left the display window at `now`. */
  function Stale(es: seq<ExitEntry>, now: Tick): (r: seq<ExitEntry>)
    ensures forall e :: e in r ==> e in es && Elapsed(now, e.time) > ExitWindow
  {
    if es == [] then []
    else if Elapsed(now, es[0].time) <= ExitWindow then Stale(es[1..], now)
    else [es[0]] + Stale(es[1..], now)
  }

  /** The entries of `es` still inside the display window at `now`. */
  function Fresh(es: seq<ExitEntry>, now: Tick): (r: seq<ExitEntry>)
    ensures forall e :: e in r ==> e in es && Elapsed(now, e.time) <= ExitWindow
    ensures forall e :: e in es && Elapsed(now, e.time) <= ExitWindow ==> e in r
  {
    if es == [] then []
    else if Elapsed(now, es[0].time) <= ExitWindow then [es[0]] + Fresh(es[1..], now)
    else Fresh(es[1..], now)
  }

  /** The log after sweeping floors 0 .. n - 1; each swept floor gets a
      key, as the program's map lookup by `operator[]` creates one. */
  function PurgeFloors(log: map<int, seq<ExitEntry>>, now: Tick, n: nat): map<int, seq<ExitEntry>> {
    if n == 0 then log
    else
      var m := PurgeFloors(log, now, n - 1);
      m[n - 1 := Fresh(Get(m, n - 1), now)]
  }

  function PurgeLog(log: map<int, seq<ExitEntry>>, now: Tick): map<int, seq<ExitEntry>> {
    PurgeFloors(log, now, FloorCount)
  }

  // -------------------------------------------------------------- loading

  /** Who may board a car heading `dir` at `floor`. */
  predicate Compatible(dir: Direction, dest: int, floor: int) {
    || dir == Idle
    || (dir == Up && dest > floor)
    || (dir == Down && dest < floor)
  }

  /** What a loading pass leaves behind: the floor's new waiting list, the
      new onboard list and queue, and whether the weight cap refused anyone. */
  datatype Loading = Loading(stillWaiting: seq<Passenger>, onboard: seq<Passenger>, queue: seq<int>, anyLeft: bool)

  /** One loading pass over `waiting` in order. The weight test comes
      first and uses the weight on board at that point of the scan. */
  function Load(waiting: seq<Passenger>, onboard: seq<Passenger>, queue: seq<int>, dir: Direction, floor: int): (r: Loading)
    ensures |r.stillWaiting| <= |waiting|
    ensures |onboard| <= |r.onboard| && r.onboard[..|onboard|] == onboard
    ensures |queue| <= |r.queue| && r.queue[..|queue|] == queue
    decreases |waiting|
  {
    if waiting == [] then Loading([], onboard, queue, false)
    else
      var p := waiting[0];
      if SumWeights(onboard) + p.weight <= MaxWeight then
        if Compatible(dir, p.destinationFloor, floor) then
          var r := Load(waiting[1..], onboard + [p], AddDest(queue, p.destinationFloor), dir, floor);
          assert r.onboard[..|onboard|] == (onboard + [p])[..|onboard|];
          assert r.queue[..|queue|] == AddDest(queue, p.destinationFloor)[..|queue|];
          r
        else
          var r := Load(waiting[1..], onboard, queue, dir, floor);
          r.(stillWaiting := [p] + r.stillWaiting)
      else
        var r := Load(waiting[1..], onboard, queue, dir, floor);
        r.(stillWaiting := [p] + r.stillWaiting, anyLeft := true)
  }

  /** The `i`-th passenger of `waiting` fails the weight test: with the
      load on board after the pass over the ones before them, they would
      take the car above the cap. */
  predicate RefusedAt(waiting: seq<Passenger>, onboard: seq<Passenger>, queue: seq<int>, dir: Direction, floor: int, i: int) {
    0 <= i < |waiting| && SumWeights(Load(waiting[..i], onboard, queue, dir, floor).onboard) + waiting[i].weight > MaxWeight
  }

  /** What the pass leaves waiting of the `i`-th passenger of `waiting`:
      nothing if they go the car's way and pass the weight test, else
      the passenger themself. */
  function LeftAt(waiting: seq<Passenger>, onboard: seq<Passenger>, queue: seq<int>, dir: Direction, floor: int, i: int): seq<Passenger>
    requires 0 <= i < |waiting|
  {
    if Compatible(dir, waiting[i].destinationFloor, floor) && !RefusedAt(waiting, onboard, queue, dir, floor, i) then [] else [waiting[i]]
  }

  // ----------------------------------------------------------- one tick

  /** The car's move of one floor toward the front of the queue; between
      floors 0 and 4 it stays between them, and only the car's own fields
      change. */
  function Travel(s: Sim): (r: Sim)
    requires s.queue != []
    ensures InRange(s.currentFloor) && InRange(s.queue[0]) ==> InRange(r.currentFloor)
    ensures r.queue == s.queue && r.passengers == s.passengers && r.floors == s.floors && r.exitLog == s.exitLog
  {
    var target := s.queue[0];
    if target > s.currentFloor then s.(isIdle := false, currentFloor := s.currentFloor + 1, direction := Up)
    else if target < s.currentFloor then s.(isIdle := false, currentFloor := s.currentFloor - 1, direction := Down)
    else s.(isIdle := false, direction := Idle)
  }

  /** Everyone bound for the current floor gets off into the exit log. */
  function Unload(s: Sim, now: Tick): (r: Sim)
    ensures r.currentFloor == s.currentFloor && r.queue == s.queue && r.floors == s.floors && r.direction == s.direction
  {
    var f := s.currentFloor;
    s.(passengers := Staying(s.passengers, f),
       exitLog := LogExits(s.exitLog, f, Stamp(Leaving(s.passengers, f), now)))
  }

  /** The loading pass at the current floor. */
  function Board(s: Sim): Loading
    requires 0 <= s.currentFloor < |s.floors|
  {
    Load(s.floors[s.currentFloor], s.passengers, s.queue, s.direction, s.currentFloor)
  }

  function AfterBoarding(s: Sim, l: Loading): Sim
    requires 0 <= s.currentFloor < |s.floors|
  {
    s.(floors := s.floors[s.currentFloor := l.stillWaiting], passengers := l.onboard, queue := l.queue)
  }

  /** The queue once the target is reached: the front is dropped, and the
      floor is queued again when the weight cap left someone behind. */
  function Arrive(queue: seq<int>, floor: int, anyLeft: bool): seq<int>
    requires queue != []
  {
    if anyLeft then AddDest(queue[1..], floor) else queue[1..]
  }

  /** A tick with a non-empty queue. */
  function Busy(s: Sim, now: Tick): Sim
    requires Inv(s) && s.queue != []
  {
    var target := s.queue[0];
    var s1 := Unload(Travel(s), now);
    var l := Board(s1);
    var s2 := AfterBoarding(s1, l);
    var q := if target == s2.currentFloor then Arrive(s2.queue, s2.currentFloor, l.anyLeft) else s2.queue;
    s2.(queue := q, direction := Heading(q, s2.currentFloor))
  }

  /** A tick with an empty queue: seek the nearest waiting passenger, or
      start the idle timer, or park at floor 0 once it has run out. */
  function IdleTick(s: Sim, now: Tick): Sim {
    if s.passengers == [] then
      var nearest := NearestWaiting(s.floors, s.currentFloor);
      if nearest != -1 then
        s.(queue := s.queue + [nearest], direction := if nearest > s.currentFloor then Up else Down, isIdle := false)
      else if !s.isIdle then
        s.(idleStartTime := now, isIdle := true)
      else if Elapsed(now, s.idleStartTime) >= IdleTimeout && s.currentFloor != 0 then
        s.(queue := s.queue + [0], direction := if s.currentFloor > 0 then Down else Up)
      else
        s
    else
      s.(isIdle := false, direction := if s.passengers[0].destinationFloor > s.currentFloor then Up else Down)
  }

  /** One tick of the dispatcher at time `now`. */
  function Step(s: Sim, now: Tick): Sim
    requires Inv(s)
  {
    if s.queue != [] then Busy(s, now) else IdleTick(s, now)
  }

  // ------------------------------------------------- nearest waiting floor

  function Abs(x: int): nat {
    if x < 0 then -x else x
  }

  /** The scan over floors i .. |floors| - 1 that keeps the closest
      non-empty floor seen so far, replacing it only when strictly closer. */
  function NearestFrom(floors: seq<seq<Passenger>>, floor: int, i: nat, minDistance: int, nearest: int): int
    requires i <= |floors|
    decreases |floors| - i
  {
    if i == |floors| then nearest
    else if floors[i] != [] && Abs(floor - i) < minDistance then
      NearestFrom(floors, floor, i + 1, Abs(floor - i), i)
    else
      NearestFrom(floors, floor, i + 1, minDistance, nearest)
  }

  /** No floor below `upto` where someone waits is closer to `floor` than
      `n`, and none as close is lower. */
  predicate Closest(floors: seq<seq<Passenger>>, floor: int, n: int, upto: int) {
    forall k :: 0 <= k < upto && k < |floors| && floors[k] != [] ==>
      || Abs(floor - n) < Abs(floor - k)
      || (Abs(floor - n) == Abs(floor - k) && n <= k)
  }

  /** The closest floor where someone waits, or -1 when nobody does. */
  function NearestWaiting(floors: seq<seq<Passenger>>, floor: int): int {
    NearestFrom(floors, floor, 0, FloorCount + 1, -1)
  }

  // ------------------------------------------------------------- census

  /** Everyone waiting on the floors of `floors`. */
  function WaitingAll(floors: seq<seq<Passenger>>): multiset<Passenger> {
    if floors == [] then multiset{}
    else WaitingAll(floors[..|floors| - 1]) + multiset(floors[|floors| - 1])
  }

  /** Everyone in the exit log of floors 0 .. n - 1. */
  function LoggedBelow(log: map<int, seq<ExitEntry>>, n: nat): multiset<Passenger> {
    if n == 0 then multiset{}
    else LoggedBelow(log, n - 1) + multiset(Riders(Get(log, n - 1)))
  }

  /** Every passenger the simulation knows of: riding, waiting or logged
      as having got off. */
  function Everyone(s: Sim): multiset<Passenger> {
    multiset(s.passengers) + WaitingAll(s.floors) + LoggedBelow(s.exitLog, FloorCount)
  }

  // ---------------------------------------------------------------- calls

  /** A call from floor `from` to floor `to`: a new waiting passenger and
      a stop at `from`. */
  function Call(s: Sim, from: int, to: int): Sim
    requires 0 <= from < |s.floors|
  {
    s.(floors := s.floors[from := s.floors[from] + [Passenger(to, DefaultWeight)]],
       queue := AddDest(s.queue, from))
  }

  /** The command id of the button "from `from` to `to`". */
  function ButtonId(from: int, to: int): int {
    ButtonBase + from * FloorCount + to
  }

  /** The low 16 bits of a message parameter, which carry a command id. */
  function LowWord(w: nat): (r: nat)
    ensures r < 0x1_0000
    ensures w < 0x1_0000 ==> r == w
    ensures (w - r) % 0x1_0000 == 0
  {
    w % 0x1_0000
  }

  /** The call a command id stands for, if it is a button's id: decoded
      exactly when the id lies in the button range, and then into a call
      between existing floors whose button id it is. */
  function DecodeButton(code: int): (r: Option<(int, int)>)
    ensures r.Some? <==> ButtonBase <= code < ButtonBase + FloorCount * FloorCount
    ensures r.Some? ==> InRange(r.value.0) && InRange(r.value.1) && ButtonId(r.value.0, r.value.1) == code
  {
    if ButtonBase <= code < ButtonBase + FloorCount * FloorCount then
      Some(((code - ButtonBase) / FloorCount, (code - ButtonBase) % FloorCount))
    else
      None
  }
}
