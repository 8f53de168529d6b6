/** What the dispatcher promises, proved about the functions of
    ElevatorSpec: the weight cap, distinct targets, one floor per tick,
    the admission rule, and that no passenger is created or lost. */
module ElevatorProps {
  import opened ElevatorSpec

  // ------------------------------------------------------------ the queue

  /** Asking for a stop adds the floor and nothing else, never twice. */
  lemma AddDestSpec(queue: seq<int>, floor: int)
    ensures forall x :: x in AddDest(queue, floor) <==> x in queue || x == floor
    ensures NoDup(queue) ==> NoDup(AddDest(queue, floor))
  {
  }

  /** Asking twice for the same stop is asking once. */
  lemma AddDestIdempotent(queue: seq<int>, floor: int)
    ensures AddDest(AddDest(queue, floor), floor) == AddDest(queue, floor)
  {
  }

  // ------------------------------------------------------ weights, order

  lemma {:induction false} SumWeightsConcat(a: seq<Passenger>, b: seq<Passenger>)
    ensures SumWeights(a + b) == SumWeights(a) + SumWeights(b)
    decreases |b|
  {
    if b != [] {
      var b' := b[..|b| - 1];
      assert (a + b)[..|a + b| - 1] == a + b';
      SumWeightsConcat(a, b');
    } else {
      assert a + b == a;
    }
  }

  /** Getting off never adds weight. */
  lemma {:induction false} StayingWeight(ps: seq<Passenger>, floor: int)
    ensures SumWeights(Staying(ps, floor)) <= SumWeights(ps)
    decreases |ps|
  {
    if ps != [] {
      var init := ps[..|ps| - 1];
      StayingWeight(init, floor);
      SumWeightsConcat(Staying(init, floor), [ps[|ps| - 1]]);
      assert [ps[|ps| - 1]][..0] == [];
    }
  }

  lemma {:induction false} InterleavingSnoc<T>(w: seq<T>, a: seq<T>, b: seq<T>, x: T)
    requires Interleaving(w, a, b)
    ensures Interleaving(w + [x], a + [x], b)
    ensures Interleaving(w + [x], a, b + [x])
    decreases |w|
  {
    if w == [] {
      assert (w + [x])[1..] == [];
      assert (a + [x])[1..] == [];
      assert (b + [x])[1..] == [];
    } else {
      assert (w + [x])[0] == w[0] && (w + [x])[1..] == w[1..] + [x];
      if a != [] && a[0] == w[0] && Interleaving(w[1..], a[1..], b) {
        InterleavingSnoc(w[1..], a[1..], b, x);
        assert (a + [x])[1..] == a[1..] + [x];
      } else {
        InterleavingSnoc(w[1..], a, b[1..], x);
        assert (b + [x])[1..] == b[1..] + [x];
      }
    }
  }

  /** An interleaving is a permutation of its two parts put together. */
  lemma {:induction false} InterleavingMultiset<T>(w: seq<T>, a: seq<T>, b: seq<T>)
    requires Interleaving(w, a, b)
    ensures multiset(w) == multiset(a) + multiset(b)
    decreases |w|
  {
    if w != [] {
      assert w == [w[0]] + w[1..];
      if a != [] && a[0] == w[0] && Interleaving(w[1..], a[1..], b) {
        InterleavingMultiset(w[1..], a[1..], b);
        assert a == [a[0]] + a[1..];
      } else {
        InterleavingMultiset(w[1..], a, b[1..]);
        assert b == [b[0]] + b[1..];
      }
    }
  }

  // --------------------------------------------------------------- unload

  /** Unloading splits the onboard list, each part in its old order, into
      those who stay and those who get off. */
  lemma {:induction false} UnloadSplit(ps: seq<Passenger>, floor: int)
    ensures Interleaving(ps, Staying(ps, floor), Leaving(ps, floor))
    ensures multiset(ps) == multiset(Staying(ps, floor)) + multiset(Leaving(ps, floor))
    decreases |ps|
  {
    if ps != [] {
      var init := ps[..|ps| - 1];
      UnloadSplit(init, floor);
      InterleavingSnoc(init, Staying(init, floor), Leaving(init, floor), ps[|ps| - 1]);
      assert init + [ps[|ps| - 1]] == ps;
    }
    InterleavingMultiset(ps, Staying(ps, floor), Leaving(ps, floor));
  }

  lemma LogExitsSnoc(log: map<int, seq<ExitEntry>>, floor: int, es: seq<ExitEntry>, e: ExitEntry)
    ensures LogExits(log, floor, es + [e])
         == LogExits(log, floor, es)[floor := Get(LogExits(log, floor, es), floor) + [e]]
  {
    if es == [] {
      assert es + [e] == [e];
    } else {
      var v := Get(log, floor) + es;
      assert Get(log, floor) + (es + [e]) == v + [e];
      assert log[floor := v + [e]] == log[floor := v][floor := v + [e]];
    }
  }

  lemma StampSnoc(ps: seq<Passenger>, p: Passenger, now: Tick)
    ensures Stamp(ps + [p], now) == Stamp(ps, now) + [ExitEntry(now, p)]
  {
  }

  lemma RidersStamp(ps: seq<Passenger>, now: Tick)
    ensures Riders(Stamp(ps, now)) == ps
  {
  }

  // ------------------------------------------------------------- the sweep

  /** Keeping entry `j` of a list swept up to `j`. */
  lemma FreshKeep(e: seq<ExitEntry>, j: nat, now: Tick)
    requires j < |e| && Elapsed(now, e[j].time) <= ExitWindow
    ensures e[..j + 1] + Fresh(e[j + 1..], now) == e[..j] + Fresh(e[j..], now)
  {
    assert e[j..] == [e[j]] + e[j + 1..];
    assert e[..j + 1] == e[..j] + [e[j]];
  }

  /** Erasing entry `j` of a list swept up to `j`. */
  lemma FreshDrop(e: seq<ExitEntry>, j: nat, now: Tick)
    requires j < |e| && Elapsed(now, e[j].time) > ExitWindow
    ensures var d := e[..j] + e[j + 1..];
      d[..j] + Fresh(d[j..], now) == e[..j] + Fresh(e[j..], now)
  {
    var d := e[..j] + e[j + 1..];
    assert e[j..] == [e[j]] + e[j + 1..];
    assert d[..j] == e[..j];
    assert d[j..] == e[j + 1..];
  }

  /** A list swept to its end is its own fresh part. */
  lemma FreshDone(e: seq<ExitEntry>, j: nat, now: Tick)
    requires j == |e|
    ensures e[..j] + Fresh(e[j..], now) == e
  {
    assert e[j..] == [];
  }

  /** The sweep splits a floor's entries into the fresh and the stale
      ones, each kept in order and with its multiplicity. */
  lemma {:induction false} FreshSplit(es: seq<ExitEntry>, now: Tick)
    ensures Interleaving(es, Fresh(es, now), Stale(es, now))
    ensures multiset(es) == multiset(Fresh(es, now)) + multiset(Stale(es, now))
    decreases |es|
  {
    if es != [] {
      FreshSplit(es[1..], now);
      if Elapsed(now, es[0].time) <= ExitWindow {
        assert Fresh(es, now)[1..] == Fresh(es[1..], now);
      } else {
        assert Stale(es, now)[1..] == Stale(es[1..], now);
      }
    }
    InterleavingMultiset(es, Fresh(es, now), Stale(es, now));
  }

  /** A second sweep at the same moment finds nothing more to drop. */
  lemma {:induction false} FreshIdempotent(es: seq<ExitEntry>, now: Tick)
    ensures Fresh(Fresh(es, now), now) == Fresh(es, now)
    decreases |es|
  {
    if es != [] {
      FreshIdempotent(es[1..], now);
      if Elapsed(now, es[0].time) <= ExitWindow {
        assert ([es[0]] + Fresh(es[1..], now))[1..] == Fresh(es[1..], now);
      }
    }
  }

  /** The sweep gives every floor 0 .. n - 1 a key holding that floor's
      fresh entries and leaves every other key as it was. */
  lemma {:induction false} PurgeFloorsSpec(log: map<int, seq<ExitEntry>>, now: Tick, n: nat)
    ensures forall k :: 0 <= k < n ==> k in PurgeFloors(log, now, n) && PurgeFloors(log, now, n)[k] == Fresh(Get(log, k), now)
    ensures forall k :: (k < 0 || n <= k) ==> (k in PurgeFloors(log, now, n) <==> k in log)
    ensures forall k :: (k < 0 || n <= k) && k in log ==> PurgeFloors(log, now, n)[k] == log[k]
    decreases n
  {
    if n > 0 {
      PurgeFloorsSpec(log, now, n - 1);
    }
  }

  /** The whole sweep: each of the five floors keeps exactly its entries
      inside the window, in order, and nothing else changes. */
  lemma PurgeLogSpec(log: map<int, seq<ExitEntry>>, now: Tick)
    ensures forall k :: InRange(k) ==> k in PurgeLog(log, now) && PurgeLog(log, now)[k] == Fresh(Get(log, k), now)
    ensures forall k :: !InRange(k) ==> (k in PurgeLog(log, now) <==> k in log)
    ensures forall k :: !InRange(k) && k in log ==> PurgeLog(log, now)[k] == log[k]
  {
    PurgeFloorsSpec(log, now, FloorCount);
  }

  // -------------------------------------------------------------- loading

  /** Every admitted passenger boards in waiting-list order and the rest
      stay waiting in their order: the waiting list is an interleaving of
      the two. */
  lemma {:induction false} LoadPartition(w: seq<Passenger>, onboard: seq<Passenger>, queue: seq<int>, dir: Direction, floor: int)
    ensures var r := Load(w, onboard, queue, dir, floor);
      && Interleaving(w, r.onboard[|onboard|..], r.stillWaiting)
      && multiset(w) == multiset(r.onboard[|onboard|..]) + multiset(r.stillWaiting)
      && r.onboard == onboard + r.onboard[|onboard|..]
    decreases |w|
  {
    var r := Load(w, onboard, queue, dir, floor);
    if w != [] {
      var p := w[0];
      if SumWeights(onboard) + p.weight <= MaxWeight && Compatible(dir, p.destinationFloor, floor) {
        LoadPartition(w[1..], onboard + [p], AddDest(queue, p.destinationFloor), dir, floor);
        var a := r.onboard[|onboard|..];
        assert r.onboard[..|onboard| + 1] == onboard + [p];
        assert a[0] == p;
        assert a[1..] == r.onboard[|onboard| + 1..];
      } else {
        LoadPartition(w[1..], onboard, queue, dir, floor);
        assert r.stillWaiting[1..] == Load(w[1..], onboard, queue, dir, floor).stillWaiting;
      }
    }
    InterleavingMultiset(w, r.onboard[|onboard|..], r.stillWaiting);
  }

  /** Loading never queues a floor twice. */
  lemma {:induction false} LoadNoDup(w: seq<Passenger>, onboard: seq<Passenger>, queue: seq<int>, dir: Direction, floor: int)
    requires NoDup(queue)
    ensures NoDup(Load(w, onboard, queue, dir, floor).queue)
    decreases |w|
  {
    if w != [] {
      var p := w[0];
      if SumWeights(onboard) + p.weight <= MaxWeight && Compatible(dir, p.destinationFloor, floor) {
        AddDestSpec(queue, p.destinationFloor);
        LoadNoDup(w[1..], onboard + [p], AddDest(queue, p.destinationFloor), dir, floor);
      } else {
        LoadNoDup(w[1..], onboard, queue, dir, floor);
      }
    }
  }

  /** Loading keeps every passenger and every target on an existing floor. */
  lemma {:induction false} LoadBound(w: seq<Passenger>, onboard: seq<Passenger>, queue: seq<int>, dir: Direction, floor: int)
    requires Bound(w) && Bound(onboard) && Targets(queue)
    ensures Bound(Load(w, onboard, queue, dir, floor).onboard)
    ensures Bound(Load(w, onboard, queue, dir, floor).stillWaiting)
    ensures Targets(Load(w, onboard, queue, dir, floor).queue)
    decreases |w|
  {
    if w != [] {
      var p := w[0];
      assert p in w;
      assert Bound(w[1..]) by {
        forall x | x in w[1..] ensures InRange(x.destinationFloor) {
          assert x in w;
        }
      }
      if SumWeights(onboard) + p.weight <= MaxWeight && Compatible(dir, p.destinationFloor, floor) {
        var q' := AddDest(queue, p.destinationFloor);
        assert Targets(q') by {
          forall i | 0 <= i < |q'| ensures InRange(q'[i]) {
            if i == |queue| {
              assert q'[i] == p.destinationFloor;
            } else {
              assert q'[i] == queue[i];
            }
          }
        }
        LoadBound(w[1..], onboard + [p], q', dir, floor);
      } else {
        LoadBound(w[1..], onboard, queue, dir, floor);
      }
    }
  }

  /** Whoever boards passed the direction rule. */
  lemma {:induction false} LoadAdmitsCompatible(w: seq<Passenger>, onboard: seq<Passenger>, queue: seq<int>, dir: Direction, floor: int)
    ensures
      forall i :: |onboard| <= i < |Load(w, onboard, queue, dir, floor).onboard| ==> Compatible(dir, Load(w, onboard, queue, dir, floor).onboard[i].destinationFloor, floor)
    decreases |w|
  {
    if w != [] {
      var p := w[0];
      var r := Load(w, onboard, queue, dir, floor);
      if SumWeights(onboard) + p.weight <= MaxWeight && Compatible(dir, p.destinationFloor, floor) {
        LoadAdmitsCompatible(w[1..], onboard + [p], AddDest(queue, p.destinationFloor), dir, floor);
        assert r.onboard[..|onboard| + 1] == onboard + [p];
        assert r.onboard[|onboard|] == p;
      } else {
        LoadAdmitsCompatible(w[1..], onboard, queue, dir, floor);
        var r' := Load(w[1..], onboard, queue, dir, floor);
        assert r.onboard == r'.onboard;
        forall i | |onboard| <= i < |r.onboard|
          ensures Compatible(dir, r.onboard[i].destinationFloor, floor)
        {
          assert r.onboard[i] == r'.onboard[i];
          assert |onboard| <= i < |r'.onboard|;
          assert Compatible(dir, r'.onboard[i].destinationFloor, floor);
        }
      }
    }
  }

  /** Loading keeps the weight cap. */
  lemma {:induction false} LoadWeightCap(w: seq<Passenger>, onboard: seq<Passenger>, queue: seq<int>, dir: Direction, floor: int)
    requires SumWeights(onboard) <= MaxWeight
    ensures SumWeights(Load(w, onboard, queue, dir, floor).onboard) <= MaxWeight
    decreases |w|
  {
    if w != [] {
      var p := w[0];
      if SumWeights(onboard) + p.weight <= MaxWeight && Compatible(dir, p.destinationFloor, floor) {
        SumWeightsConcat(onboard, [p]);
        assert [p][..0] == [];
        LoadWeightCap(w[1..], onboard + [p], AddDest(queue, p.destinationFloor), dir, floor);
      } else {
        LoadWeightCap(w[1..], onboard, queue, dir, floor);
      }
    }
  }

  /** Whoever is left waiting was heading the wrong way or would not fit
      by the end of the pass. With `anyLeft` clear, everyone left is
      heading the wrong way; with it set, someone left would not fit; a
      first passenger too heavy for the car sets it. LoadOverweight gives
      the flag exactly. */
  lemma LoadLeftBehind(w: seq<Passenger>, onboard: seq<Passenger>, queue: seq<int>, dir: Direction, floor: int)
    ensures
      && (forall p :: p in Load(w, onboard, queue, dir, floor).stillWaiting ==>
            !Compatible(dir, p.destinationFloor, floor) || SumWeights(Load(w, onboard, queue, dir, floor).onboard) + p.weight > MaxWeight)
      && (!Load(w, onboard, queue, dir, floor).anyLeft ==> forall p :: p in Load(w, onboard, queue, dir, floor).stillWaiting ==> !Compatible(dir, p.destinationFloor, floor))
      && (Load(w, onboard, queue, dir, floor).anyLeft ==> exists p :: p in Load(w, onboard, queue, dir, floor).stillWaiting && SumWeights(Load(w, onboard, queue, dir, floor).onboard) + p.weight > MaxWeight)
      && (w != [] && SumWeights(onboard) + w[0].weight > MaxWeight ==> Load(w, onboard, queue, dir, floor).anyLeft)
  {
    LoadStayers(w, onboard, queue, dir, floor);
    LoadFlagClear(w, onboard, queue, dir, floor);
    LoadFlagSet(w, onboard, queue, dir, floor);
  }

  /** Loading never takes weight off the car. */
  lemma LoadHeavier(w: seq<Passenger>, onboard: seq<Passenger>, queue: seq<int>, dir: Direction, floor: int)
    ensures SumWeights(onboard) <= SumWeights(Load(w, onboard, queue, dir, floor).onboard)
  {
    var r := Load(w, onboard, queue, dir, floor);
    LoadPartition(w, onboard, queue, dir, floor);
    SumWeightsConcat(onboard, r.onboard[|onboard|..]);
  }

  lemma {:induction false} LoadStayers(w: seq<Passenger>, onboard: seq<Passenger>, queue: seq<int>, dir: Direction, floor: int)
    ensures forall p :: p in Load(w, onboard, queue, dir, floor).stillWaiting ==>
      !Compatible(dir, p.destinationFloor, floor) || SumWeights(Load(w, onboard, queue, dir, floor).onboard) + p.weight > MaxWeight
    decreases |w|
  {
    if w != [] {
      var p := w[0];
      var r := Load(w, onboard, queue, dir, floor);
      if SumWeights(onboard) + p.weight <= MaxWeight {
        if Compatible(dir, p.destinationFloor, floor) {
          LoadStayers(w[1..], onboard + [p], AddDest(queue, p.destinationFloor), dir, floor);
        } else {
          var r' := Load(w[1..], onboard, queue, dir, floor);
          LoadStayers(w[1..], onboard, queue, dir, floor);
          StayersPrepend(p, r'.stillWaiting, r'.onboard, dir, floor);
        }
      } else {
        var r' := Load(w[1..], onboard, queue, dir, floor);
        LoadStayers(w[1..], onboard, queue, dir, floor);
        LoadHeavier(w[1..], onboard, queue, dir, floor);
        StayersPrepend(p, r'.stillWaiting, r'.onboard, dir, floor);
      }
    }
  }

  /** A passenger put in front of a list of stayers, who themself goes
      the wrong way or would not fit, keeps it a list of stayers. */
  lemma StayersPrepend(p: Passenger, stayers: seq<Passenger>, onboard: seq<Passenger>, dir: Direction, floor: int)
    requires forall x :: x in stayers ==> !Compatible(dir, x.destinationFloor, floor) || SumWeights(onboard) + x.weight > MaxWeight
    requires !Compatible(dir, p.destinationFloor, floor) || SumWeights(onboard) + p.weight > MaxWeight
    ensures forall x :: x in [p] + stayers ==> !Compatible(dir, x.destinationFloor, floor) || SumWeights(onboard) + x.weight > MaxWeight
  {
  }

  lemma {:induction false} LoadFlagClear(w: seq<Passenger>, onboard: seq<Passenger>, queue: seq<int>, dir: Direction, floor: int)
    ensures !Load(w, onboard, queue, dir, floor).anyLeft ==>
      forall p :: p in Load(w, onboard, queue, dir, floor).stillWaiting ==> !Compatible(dir, p.destinationFloor, floor)
    decreases |w|
  {
    if w != [] {
      var p := w[0];
      var r := Load(w, onboard, queue, dir, floor);
      if SumWeights(onboard) + p.weight <= MaxWeight {
        if Compatible(dir, p.destinationFloor, floor) {
          LoadFlagClear(w[1..], onboard + [p], AddDest(queue, p.destinationFloor), dir, floor);
        } else {
          LoadFlagClear(w[1..], onboard, queue, dir, floor);
          assert r.stillWaiting == [p] + Load(w[1..], onboard, queue, dir, floor).stillWaiting;
        }
      }
    }
  }

  lemma {:induction false} LoadFlagSet(w: seq<Passenger>, onboard: seq<Passenger>, queue: seq<int>, dir: Direction, floor: int)
    ensures Load(w, onboard, queue, dir, floor).anyLeft ==>
      exists p :: p in Load(w, onboard, queue, dir, floor).stillWaiting && SumWeights(Load(w, onboard, queue, dir, floor).onboard) + p.weight > MaxWeight
    ensures w != [] && SumWeights(onboard) + w[0].weight > MaxWeight ==> Load(w, onboard, queue, dir, floor).anyLeft
    decreases |w|
  {
    if w != [] {
      var p := w[0];
      var r := Load(w, onboard, queue, dir, floor);
      if SumWeights(onboard) + p.weight <= MaxWeight {
        if Compatible(dir, p.destinationFloor, floor) {
          LoadFlagSet(w[1..], onboard + [p], AddDest(queue, p.destinationFloor), dir, floor);
        } else {
          LoadFlagSet(w[1..], onboard, queue, dir, floor);
          var r' := Load(w[1..], onboard, queue, dir, floor);
          assert r.stillWaiting == [p] + r'.stillWaiting;
          if r.anyLeft {
            var q :| q in r'.stillWaiting && SumWeights(r.onboard) + q.weight > MaxWeight;
            assert q in r.stillWaiting;
          }
        }
      } else {
        assert r.stillWaiting == [p] + Load(w[1..], onboard, queue, dir, floor).stillWaiting;
        assert p in r.stillWaiting;
        LoadHeavier(w, onboard, queue, dir, floor);
      }
    }
  }

  /** The overweight flag is set exactly when some passenger, at their
      turn in the scan, fails the weight test; the weight test comes
      before the direction test, so a refused passenger may be one who
      goes the other way. */
  lemma {:induction false} LoadOverweight(w: seq<Passenger>, onboard: seq<Passenger>, queue: seq<int>, dir: Direction, floor: int)
    ensures Load(w, onboard, queue, dir, floor).anyLeft <==> exists i :: RefusedAt(w, onboard, queue, dir, floor, i)
    decreases |w|
  {
    if w != [] {
      var p := w[0];
      assert w[..0] == [];
      if SumWeights(onboard) + p.weight <= MaxWeight {
        var on', q' := onboard, queue;
        if Compatible(dir, p.destinationFloor, floor) {
          on', q' := onboard + [p], AddDest(queue, p.destinationFloor);
        }
        assert Load(w, onboard, queue, dir, floor).anyLeft == Load(w[1..], on', q', dir, floor).anyLeft;
        LoadOverweight(w[1..], on', q', dir, floor);
        RefusedShift(w, onboard, queue, dir, floor, on', q');
      } else {
        assert RefusedAt(w, onboard, queue, dir, floor, 0);
      }
    }
  }

  /** When the first passenger passes the weight test, the later refusals
      are those of the pass over the rest from the lists they leave. */
  lemma RefusedShift(w: seq<Passenger>, onboard: seq<Passenger>, queue: seq<int>, dir: Direction, floor: int, on': seq<Passenger>, q': seq<int>)
    requires 1 <= |w| && SumWeights(onboard) + w[0].weight <= MaxWeight
    requires Compatible(dir, w[0].destinationFloor, floor) ==> on' == onboard + [w[0]] && q' == AddDest(queue, w[0].destinationFloor)
    requires !Compatible(dir, w[0].destinationFloor, floor) ==> on' == onboard && q' == queue
    ensures (exists i :: RefusedAt(w, onboard, queue, dir, floor, i)) <==> (exists j :: RefusedAt(w[1..], on', q', dir, floor, j))
  {
    assert w[..0] == [];
    assert !RefusedAt(w, onboard, queue, dir, floor, 0);
    if exists j :: RefusedAt(w[1..], on', q', dir, floor, j) {
      var j :| RefusedAt(w[1..], on', q', dir, floor, j);
      PrefixOnboard(w, onboard, queue, dir, floor, j + 1, on', q');
      assert RefusedAt(w, onboard, queue, dir, floor, j + 1);
    }
    if exists i :: RefusedAt(w, onboard, queue, dir, floor, i) {
      var i :| RefusedAt(w, onboard, queue, dir, floor, i);
      PrefixOnboard(w, onboard, queue, dir, floor, i, on', q');
      assert RefusedAt(w[1..], on', q', dir, floor, i - 1);
    }
  }

  /** Passenger `p` boards a car holding `onboard`: they fit and go its way. */
  predicate Admits(p: Passenger, onboard: seq<Passenger>, dir: Direction, floor: int) {
    SumWeights(onboard) + p.weight <= MaxWeight && Compatible(dir, p.destinationFloor, floor)
  }

  /** A passenger whose turn comes in the scan boards exactly when they go
      the car's way and pass the weight test against the load boarded
      before them: the load after `i + 1` passengers is the load after `i`,
      with passenger `i` appended in that case only. */
  lemma {:induction false} LoadAdmitsAt(w: seq<Passenger>, onboard: seq<Passenger>, queue: seq<int>, dir: Direction, floor: int, i: int)
    requires 0 <= i < |w|
    ensures Load(w[..i + 1], onboard, queue, dir, floor).onboard
         == Load(w[..i], onboard, queue, dir, floor).onboard
            + (if Compatible(dir, w[i].destinationFloor, floor) && !RefusedAt(w, onboard, queue, dir, floor, i) then [w[i]] else [])
    decreases |w|
  {
    if i == 0 {
      LoadAdmitsFirst(w, onboard, queue, dir, floor);
    } else {
      var on', q' := onboard, queue;
      if Admits(w[0], onboard, dir, floor) {
        on', q' := onboard + [w[0]], AddDest(queue, w[0].destinationFloor);
      }
      LoadAdmitsAt(w[1..], on', q', dir, floor, i - 1);
      assert w[1..][..i - 1 + 1] == w[1..][..i];
      PrefixOnboard(w, onboard, queue, dir, floor, i + 1, on', q');
      PrefixOnboard(w, onboard, queue, dir, floor, i, on', q');
      RefusedAtShift(w, onboard, queue, dir, floor, i, on', q');
    }
  }

  /** The first passenger boards exactly when they go the car's way and fit. */
  lemma LoadAdmitsFirst(w: seq<Passenger>, onboard: seq<Passenger>, queue: seq<int>, dir: Direction, floor: int)
    requires 1 <= |w|
    ensures Load(w[..1], onboard, queue, dir, floor).onboard
         == Load(w[..0], onboard, queue, dir, floor).onboard
            + (if Compatible(dir, w[0].destinationFloor, floor) && !RefusedAt(w, onboard, queue, dir, floor, 0) then [w[0]] else [])
  {
    assert w[..0] == [] && w[..1] == [w[0]] && [w[0]][1..] == [];
  }

  /** Passenger `i`, `i` at least 1, is refused in the pass over `w`
      exactly when they are refused, one place earlier, in the pass over
      the rest from the lists left by the first passenger. */
  lemma RefusedAtShift(w: seq<Passenger>, onboard: seq<Passenger>, queue: seq<int>, dir: Direction, floor: int, i: int, on': seq<Passenger>, q': seq<int>)
    requires 1 <= i < |w|
    requires Admits(w[0], onboard, dir, floor) ==> on' == onboard + [w[0]] && q' == AddDest(queue, w[0].destinationFloor)
    requires !Admits(w[0], onboard, dir, floor) ==> on' == onboard && q' == queue
    ensures w[1..][i - 1] == w[i]
    ensures RefusedAt(w, onboard, queue, dir, floor, i) <==> RefusedAt(w[1..], on', q', dir, floor, i - 1)
  {
    PrefixOnboard(w, onboard, queue, dir, floor, i, on', q');
  }

  /** The list left waiting keeps the scan order: the list left after
      `i + 1` passengers is the list left after `i`, followed by
      passenger `i` exactly when they do not board. */
  lemma {:induction false} LoadWaitingAt(w: seq<Passenger>, onboard: seq<Passenger>, queue: seq<int>, dir: Direction, floor: int, i: int)
    requires 0 <= i < |w|
    ensures Load(w[..i + 1], onboard, queue, dir, floor).stillWaiting
         == Load(w[..i], onboard, queue, dir, floor).stillWaiting + LeftAt(w, onboard, queue, dir, floor, i)
    decreases |w|
  {
    if i == 0 {
      LoadWaitingFirst(w, onboard, queue, dir, floor);
    } else {
      var on', q' := onboard, queue;
      if Admits(w[0], onboard, dir, floor) {
        on', q' := onboard + [w[0]], AddDest(queue, w[0].destinationFloor);
      }
      var h := if Admits(w[0], onboard, dir, floor) then [] else [w[0]];
      LoadWaitingAt(w[1..], on', q', dir, floor, i - 1);
      assert w[1..][..i - 1 + 1] == w[1..][..i];
      PrefixWaiting(w, onboard, queue, dir, floor, i + 1, on', q');
      PrefixWaiting(w, onboard, queue, dir, floor, i, on', q');
      LeftAtShift(w, onboard, queue, dir, floor, i, on', q');
      ConcatAssoc(h, Load(w[1..][..i - 1], on', q', dir, floor).stillWaiting, LeftAt(w, onboard, queue, dir, floor, i));
    }
  }

  /** The first passenger is left waiting exactly when they do not board. */
  lemma LoadWaitingFirst(w: seq<Passenger>, onboard: seq<Passenger>, queue: seq<int>, dir: Direction, floor: int)
    requires 1 <= |w|
    ensures Load(w[..1], onboard, queue, dir, floor).stillWaiting
         == Load(w[..0], onboard, queue, dir, floor).stillWaiting + LeftAt(w, onboard, queue, dir, floor, 0)
  {
    assert w[..0] == [] && w[..1] == [w[0]] && [w[0]][1..] == [];
  }

  /** What passenger `i`, `i` at least 1, leaves waiting is what they
      leave, one place earlier, in the pass over the rest. */
  lemma LeftAtShift(w: seq<Passenger>, onboard: seq<Passenger>, queue: seq<int>, dir: Direction, floor: int, i: int, on': seq<Passenger>, q': seq<int>)
    requires 1 <= i < |w|
    requires Admits(w[0], onboard, dir, floor) ==> on' == onboard + [w[0]] && q' == AddDest(queue, w[0].destinationFloor)
    requires !Admits(w[0], onboard, dir, floor) ==> on' == onboard && q' == queue
    ensures LeftAt(w, onboard, queue, dir, floor, i) == LeftAt(w[1..], on', q', dir, floor, i - 1)
  {
    RefusedAtShift(w, onboard, queue, dir, floor, i, on', q');
  }

  /** The list left waiting by the first `i` passengers, `i` at least 1:
      the first passenger unless they board, then what the pass over the
      next `i - 1` leaves from the lists the first one left. */
  lemma PrefixWaiting(w: seq<Passenger>, onboard: seq<Passenger>, queue: seq<int>, dir: Direction, floor: int, i: int, on': seq<Passenger>, q': seq<int>)
    requires 1 <= i <= |w|
    requires Admits(w[0], onboard, dir, floor) ==> on' == onboard + [w[0]] && q' == AddDest(queue, w[0].destinationFloor)
    requires !Admits(w[0], onboard, dir, floor) ==> on' == onboard && q' == queue
    ensures Load(w[..i], onboard, queue, dir, floor).stillWaiting
         == (if Admits(w[0], onboard, dir, floor) then [] else [w[0]]) + Load(w[1..][..i - 1], on', q', dir, floor).stillWaiting
  {
    assert w[..i][0] == w[0] && w[..i][1..] == w[1..][..i - 1];
  }

  lemma ConcatAssoc(a: seq<Passenger>, b: seq<Passenger>, c: seq<Passenger>)
    ensures (a + b) + c == a + (b + c)
  {
  }

  /** The pass over the first `i` passengers, `i` at least 1, is the pass
      over the next `i - 1` from the lists left by the first passenger. */
  lemma PrefixOnboard(w: seq<Passenger>, onboard: seq<Passenger>, queue: seq<int>, dir: Direction, floor: int, i: int, on': seq<Passenger>, q': seq<int>)
    requires 1 <= i <= |w|
    requires Admits(w[0], onboard, dir, floor) ==> on' == onboard + [w[0]] && q' == AddDest(queue, w[0].destinationFloor)
    requires !Admits(w[0], onboard, dir, floor) ==> on' == onboard && q' == queue
    ensures Load(w[..i], onboard, queue, dir, floor).onboard == Load(w[1..][..i - 1], on', q', dir, floor).onboard
  {
    assert w[..i][0] == w[0] && w[..i][1..] == w[1..][..i - 1];
  }

  /** What loading does to the queue: each boarder's destination is
      added, in boarding order, when not yet queued; so a target is new
      exactly when it is a boarder's destination. */
  lemma LoadQueue(w: seq<Passenger>, onboard: seq<Passenger>, queue: seq<int>, dir: Direction, floor: int)
    ensures
      forall x :: x in Load(w, onboard, queue, dir, floor).queue <==> x in queue || exists i :: |onboard| <= i < |Load(w, onboard, queue, dir, floor).onboard| && Load(w, onboard, queue, dir, floor).onboard[i].destinationFloor == x
    ensures Load(w, onboard, queue, dir, floor).queue == AddDests(queue, Load(w, onboard, queue, dir, floor).onboard[|onboard|..])
  {
    var r := Load(w, onboard, queue, dir, floor);
    LoadQueueOrder(w, onboard, queue, dir, floor);
    AddDestsSpec(queue, r.onboard[|onboard|..]);
    forall x
      ensures x in r.queue <==> x in queue || exists i :: |onboard| <= i < |r.onboard| && r.onboard[i].destinationFloor == x
    {
      ShiftedDests(r.onboard, |onboard|, x);
    }
  }

  /** A destination among the passengers of `a` from index `n` on. */
  lemma ShiftedDests(a: seq<Passenger>, n: nat, x: int)
    requires n <= |a|
    ensures (exists i :: 0 <= i < |a[n..]| && a[n..][i].destinationFloor == x)
        <==> (exists i :: n <= i < |a| && a[i].destinationFloor == x)
  {
    var b := a[n..];
    if exists i :: 0 <= i < |b| && b[i].destinationFloor == x {
      var i :| 0 <= i < |b| && b[i].destinationFloor == x;
      assert a[n + i] == b[i];
    }
    if exists i :: n <= i < |a| && a[i].destinationFloor == x {
      var i :| n <= i < |a| && a[i].destinationFloor == x;
      assert b[i - n] == a[i];
    }
  }

  /** Asking for the destinations of `ps` in turn queues exactly those
      not yet queued. */
  lemma {:induction false} AddDestsSpec(queue: seq<int>, ps: seq<Passenger>)
    ensures forall x :: x in AddDests(queue, ps) <==> x in queue || exists i :: 0 <= i < |ps| && ps[i].destinationFloor == x
    decreases |ps|
  {
    if ps != [] {
      var q' := AddDest(queue, ps[0].destinationFloor);
      AddDestsSpec(q', ps[1..]);
      AddDestSpec(queue, ps[0].destinationFloor);
      forall x
        ensures x in AddDests(queue, ps) <==> x in queue || exists i :: 0 <= i < |ps| && ps[i].destinationFloor == x
      {
        if exists i :: 0 <= i < |ps| && ps[i].destinationFloor == x {
          var i :| 0 <= i < |ps| && ps[i].destinationFloor == x;
          if i > 0 {
            assert ps[1..][i - 1].destinationFloor == x;
          }
        }
        if exists j :: 0 <= j < |ps[1..]| && ps[1..][j].destinationFloor == x {
          var j :| 0 <= j < |ps[1..]| && ps[1..][j].destinationFloor == x;
          assert ps[j + 1].destinationFloor == x;
        }
      }
    }
  }

  lemma {:induction false} LoadQueueOrder(w: seq<Passenger>, onboard: seq<Passenger>, queue: seq<int>, dir: Direction, floor: int)
    ensures Load(w, onboard, queue, dir, floor).queue == AddDests(queue, Load(w, onboard, queue, dir, floor).onboard[|onboard|..])
    decreases |w|
  {
    var r := Load(w, onboard, queue, dir, floor);
    if w == [] {
      assert r.onboard[|onboard|..] == [];
    } else {
      var p := w[0];
      if SumWeights(onboard) + p.weight <= MaxWeight && Compatible(dir, p.destinationFloor, floor) {
        var q' := AddDest(queue, p.destinationFloor);
        LoadQueueOrder(w[1..], onboard + [p], q', dir, floor);
        OrderStep(onboard, p, queue, r.queue, r.onboard);
      } else {
        LoadQueueOrder(w[1..], onboard, queue, dir, floor);
      }
    }
  }

  /** The queue left by a boarder `p` and then by those after them is the
      queue left by all of them in turn. */
  lemma OrderStep(onboard: seq<Passenger>, p: Passenger, queue: seq<int>, rq: seq<int>, ro: seq<Passenger>)
    requires |onboard| + 1 <= |ro| && ro[..|onboard| + 1] == onboard + [p]
    requires rq == AddDests(AddDest(queue, p.destinationFloor), ro[|onboard| + 1..])
    ensures rq == AddDests(queue, ro[|onboard|..])
  {
    var b := ro[|onboard|..];
    assert b[0] == ro[..|onboard| + 1][|onboard|] == p;
    assert b[1..] == ro[|onboard| + 1..];
  }

  // ----------------------------------------------------------- invariant

  lemma TravelInv(s: Sim)
    requires Inv(s) && s.queue != []
    ensures Inv(Travel(s))
    ensures Travel(s).queue == s.queue && Travel(s).passengers == s.passengers && Travel(s).floors == s.floors
  {
    assert InRange(s.queue[0]);
  }

  lemma UnloadInv(s: Sim, now: Tick)
    requires Inv(s)
    ensures Inv(Unload(s, now))
  {
    StayingWeight(s.passengers, s.currentFloor);
  }

  lemma BoardInv(s: Sim)
    requires Inv(s)
    ensures Inv(AfterBoarding(s, Board(s)))
  {
    var w := s.floors[s.currentFloor];
    var r := Board(s);
    var t := AfterBoarding(s, r);
    LoadWeightCap(w, s.passengers, s.queue, s.direction, s.currentFloor);
    LoadNoDup(w, s.passengers, s.queue, s.direction, s.currentFloor);
    LoadBound(w, s.passengers, s.queue, s.direction, s.currentFloor);
    assert forall k :: 0 <= k < |t.floors| && k != s.currentFloor ==> t.floors[k] == s.floors[k];
  }

  lemma ArriveInv(s: Sim, anyLeft: bool)
    requires Inv(s) && s.queue != []
    ensures var q := Arrive(s.queue, s.currentFloor, anyLeft);
      Inv(s.(queue := q, direction := Heading(q, s.currentFloor)))
  {
    var tail := s.queue[1..];
    assert NoDup(tail);
    AddDestSpec(tail, s.currentFloor);
    assert forall i :: 0 <= i < |tail| ==> InRange(tail[i]) by {
      forall i | 0 <= i < |tail| ensures InRange(tail[i]) {
        assert tail[i] == s.queue[i + 1];
      }
    }
  }

  lemma IdleInv(s: Sim, now: Tick)
    requires Inv(s) && s.queue == []
    ensures Inv(IdleTick(s, now))
  {
    if s.passengers == [] {
      var n := NearestWaiting(s.floors, s.currentFloor);
      NearestWaitingSpec(s.floors, s.currentFloor);
    }
  }

  /** Every tick keeps the invariant: the weight cap, distinct in-range
      targets and the car on an existing floor. */
  lemma StepInv(s: Sim, now: Tick)
    requires Inv(s)
    ensures Inv(Step(s, now))
  {
    if s.queue != [] {
      var target := s.queue[0];
      TravelInv(s);
      var s1 := Unload(Travel(s), now);
      UnloadInv(Travel(s), now);
      var l := Board(s1);
      BoardInv(s1);
      var s2 := AfterBoarding(s1, l);
      if target == s2.currentFloor {
        ArriveInv(s2, l.anyLeft);
      }
    } else {
      IdleInv(s, now);
    }
  }

  // ------------------------------------------------------------- movement

  /** A tick moves the car at most one floor, strictly toward the front of
      the queue, and not at all when the queue is empty; while it moves the
      direction is Up on the way up, Down on the way down, Idle on arrival. */
  lemma StepMovement(s: Sim, now: Tick)
    requires Inv(s)
    ensures var t := Step(s, now);
      && -1 <= t.currentFloor - s.currentFloor <= 1
      && (s.queue == [] ==> t.currentFloor == s.currentFloor)
      && (s.queue != [] && s.queue[0] > s.currentFloor ==>
            t.currentFloor == s.currentFloor + 1 && Travel(s).direction == Up)
      && (s.queue != [] && s.queue[0] < s.currentFloor ==>
            t.currentFloor == s.currentFloor - 1 && Travel(s).direction == Down)
      && (s.queue != [] && s.queue[0] == s.currentFloor ==>
            t.currentFloor == s.currentFloor && Travel(s).direction == Idle)
      && (s.queue != [] ==> t.direction == Heading(t.queue, t.currentFloor) && !t.isIdle)
  {
  }

  /** Dropping the reached front of a queue of distinct floors: the other
      targets keep their order, and the floor stays queued exactly when
      `anyLeft`, then at the back. */
  lemma ArriveSpec(q: seq<int>, floor: int, anyLeft: bool)
    requires q != [] && NoDup(q) && q[0] == floor
    ensures var r := Arrive(q, floor, anyLeft);
      && (floor in r <==> anyLeft)
      && (anyLeft ==> r[|r| - 1] == floor)
      && (forall x :: x != floor ==> (x in r <==> x in q))
      && r == q[1..] + (if anyLeft then [floor] else [])
  {
    assert q == [q[0]] + q[1..];
    AddDestSpec(q[1..], floor);
    assert floor !in q[1..] by {
      forall i | 0 <= i < |q[1..]| ensures q[1..][i] != floor {
        assert q[1..][i] == q[i + 1];
      }
    }
  }

  /** On reaching the target the old front leaves the queue, the other
      targets keep their order, and the floor stays queued exactly when the
      weight cap left someone behind, at the back. Before that the front
      stays where it is. */
  lemma StepArrival(s: Sim, now: Tick)
    requires Inv(s) && s.queue != []
    ensures var t := Step(s, now);
      var target := s.queue[0];
      var l := Board(Unload(Travel(s), now));
      && (target == t.currentFloor ==> (target in t.queue <==> l.anyLeft))
      && (target == t.currentFloor && l.anyLeft ==> t.queue != [] && t.queue[|t.queue| - 1] == target)
      && (target == t.currentFloor ==> forall x :: x != target ==> (x in t.queue <==> x in l.queue))
      && (target != t.currentFloor ==> t.queue == l.queue && t.queue != [] && t.queue[0] == target)
      && (target == t.currentFloor ==> t.queue == l.queue[1..] + (if l.anyLeft then [target] else []))
  {
    var target := s.queue[0];
    var s1 := Unload(Travel(s), now);
    var l := Board(s1);
    var s2 := AfterBoarding(s1, l);
    assert s1.queue == s.queue;
    assert l.queue[..|s.queue|] == s.queue;
    assert l.queue[0] == target;
    LoadNoDup(s1.floors[s1.currentFloor], s1.passengers, s1.queue, s1.direction, s1.currentFloor);
    var t := Step(s, now);
    assert t.currentFloor == s2.currentFloor;
    if target == s2.currentFloor {
      assert t.queue == Arrive(l.queue, target, l.anyLeft);
      ArriveSpec(l.queue, target, l.anyLeft);
    } else {
      assert t.queue == l.queue;
    }
  }

  // ------------------------------------------------------------- census

  /** Replacing floor `f`'s list by `x` when the old list is `x` plus `m`
      takes exactly `m` out of the waiting census. */
  lemma {:induction false} WaitingUpdate(floors: seq<seq<Passenger>>, f: int, x: seq<Passenger>, m: multiset<Passenger>)
    requires 0 <= f < |floors| && multiset(floors[f]) == multiset(x) + m
    ensures WaitingAll(floors) == WaitingAll(floors[f := x]) + m
    decreases |floors|
  {
    var n := |floors| - 1;
    var u := floors[f := x];
    var top := multiset(floors[n]);
    if f < n {
      assert u[..n] == floors[..n][f := x];
      WaitingUpdate(floors[..n], f, x, m);
      assert WaitingAll(floors) == (WaitingAll(u[..n]) + m) + top;
      MultisetSwap(WaitingAll(u[..n]), m, top);
      assert WaitingAll(u) == WaitingAll(u[..n]) + top;
    } else {
      assert u[..n] == floors[..n];
      assert WaitingAll(floors) == WaitingAll(u[..n]) + (multiset(x) + m);
      MultisetSwap(WaitingAll(u[..n]), multiset(x), m);
      assert WaitingAll(u) == WaitingAll(u[..n]) + multiset(x);
    }
  }

  lemma {:induction false} RidersConcat(a: seq<ExitEntry>, b: seq<ExitEntry>)
    ensures Riders(a + b) == Riders(a) + Riders(b)
  {
    assert forall i :: 0 <= i < |a + b| ==> Riders(a + b)[i] == (Riders(a) + Riders(b))[i];
  }

  /** Appending `es` to floor `f`'s log adds its riders to the log census. */
  lemma LoggedExits(log: map<int, seq<ExitEntry>>, f: int, es: seq<ExitEntry>, n: nat)
    requires 0 <= f < n
    ensures LoggedBelow(LogExits(log, f, es), n) == LoggedBelow(log, n) + multiset(Riders(es))
  {
    var r := LogExits(log, f, es);
    RidersConcat(Get(log, f), es);
    LoggedReplace(log, r, f, n, multiset(Riders(es)));
  }

  /** Changing only floor `f`'s log, by adding `extra` riders to it, adds
      `extra` to the log census. */
  lemma {:induction false} LoggedReplace(log: map<int, seq<ExitEntry>>, r: map<int, seq<ExitEntry>>, f: int, n: nat, extra: multiset<Passenger>)
    requires 0 <= f < n
    requires forall k :: 0 <= k < n && k != f ==> Get(r, k) == Get(log, k)
    requires multiset(Riders(Get(r, f))) == multiset(Riders(Get(log, f))) + extra
    ensures LoggedBelow(r, n) == LoggedBelow(log, n) + extra
    decreases n
  {
    var top := multiset(Riders(Get(log, n - 1)));
    if f < n - 1 {
      LoggedReplace(log, r, f, n - 1, extra);
      assert Get(r, n - 1) == Get(log, n - 1);
      MultisetSwap(LoggedBelow(log, n - 1), extra, top);
    } else {
      LoggedUnchanged(log, r, n - 1);
      MultisetSwap(LoggedBelow(log, n - 1), top, extra);
    }
  }

  lemma MultisetSwap<T>(a: multiset<T>, b: multiset<T>, c: multiset<T>)
    ensures (a + b) + c == (a + c) + b
    ensures a + (b + c) == (a + b) + c
  {
  }

  lemma {:induction false} LoggedUnchanged(log: map<int, seq<ExitEntry>>, r: map<int, seq<ExitEntry>>, n: nat)
    requires forall k :: 0 <= k < n ==> Get(r, k) == Get(log, k)
    ensures LoggedBelow(r, n) == LoggedBelow(log, n)
    decreases n
  {
    if n > 0 {
      LoggedUnchanged(log, r, n - 1);
    }
  }

  /** Unloading moves whoever gets off from the car into the exit log. */
  lemma UnloadConserves(s: Sim, now: Tick)
    requires Inv(s)
    ensures Everyone(Unload(s, now)) == Everyone(s)
  {
    var f := s.currentFloor;
    UnloadSplit(s.passengers, f);
    LoggedExits(s.exitLog, f, Stamp(Leaving(s.passengers, f), now), FloorCount);
    RidersStamp(Leaving(s.passengers, f), now);
  }

  /** Loading moves whoever boards from the floor into the car. */
  lemma BoardConserves(s: Sim)
    requires Inv(s)
    ensures Everyone(AfterBoarding(s, Board(s))) == Everyone(s)
  {
    var f := s.currentFloor;
    var w := s.floors[f];
    var l := Board(s);
    LoadPartition(w, s.passengers, s.queue, s.direction, f);
    var a := multiset(l.onboard[|s.passengers|..]);
    WaitingUpdate(s.floors, f, l.stillWaiting, a);
    var t := AfterBoarding(s, l);
    var logged := LoggedBelow(s.exitLog, FloorCount);
    calc {
      Everyone(t);
      (multiset(s.passengers) + a) + WaitingAll(t.floors) + logged;
      multiset(s.passengers) + (WaitingAll(t.floors) + a) + logged;
      Everyone(s);
    }
  }

  /** The census only looks at the riders, the floors and the log. */
  lemma SameCensus(s: Sim, t: Sim)
    requires t.passengers == s.passengers && t.floors == s.floors && t.exitLog == s.exitLog
    ensures Everyone(t) == Everyone(s)
  {
  }

  lemma BusyConserves(s: Sim, now: Tick)
    requires Inv(s) && s.queue != []
    ensures Everyone(Busy(s, now)) == Everyone(s)
  {
    var s0 := Travel(s);
    TravelInv(s);
    SameCensus(s, s0);
    var s1 := Unload(s0, now);
    UnloadInv(s0, now);
    UnloadConserves(s0, now);
    var s2 := AfterBoarding(s1, Board(s1));
    BoardConserves(s1);
    var t := Busy(s, now);
    assert t.passengers == s2.passengers && t.floors == s2.floors && t.exitLog == s2.exitLog;
    SameCensus(s2, t);
  }

  /** No tick creates or loses a passenger: everyone is still riding,
      waiting or in the exit log. */
  lemma StepConserves(s: Sim, now: Tick)
    requires Inv(s)
    ensures Everyone(Step(s, now)) == Everyone(s)
  {
    if s.queue != [] {
      BusyConserves(s, now);
    } else {
      SameCensus(s, IdleTick(s, now));
    }
  }

  // ---------------------------------------------------------------- calls

  /** A call keeps the invariant. */
  lemma CallInv(s: Sim, from: int, to: int)
    requires Inv(s) && InRange(from) && InRange(to)
    ensures Inv(Call(s, from, to))
  {
    var t := Call(s, from, to);
    forall k, p | 0 <= k < |t.floors| && p in t.floors[k] ensures InRange(p.destinationFloor) {
      if k == from && p !in s.floors[from] {
        assert p == Passenger(to, DefaultWeight);
      }
    }
  }

  /** A call adds exactly one passenger, bound for `to`. */
  lemma CallAdds(s: Sim, from: int, to: int)
    requires Inv(s) && InRange(from) && InRange(to)
    ensures Everyone(Call(s, from, to)) == Everyone(s) + multiset{Passenger(to, DefaultWeight)}
  {
    var p := Passenger(to, DefaultWeight);
    var u := s.floors[from := s.floors[from] + [p]];
    assert multiset(u[from]) == multiset(s.floors[from]) + multiset{p};
    assert u[from := s.floors[from]] == s.floors;
    WaitingUpdate(u, from, s.floors[from], multiset{p});
  }

  /** Each button's id decodes back to its call. */
  lemma ButtonRoundTrip(from: int, to: int)
    requires InRange(from) && InRange(to)
    ensures DecodeButton(ButtonId(from, to)) == Some((from, to))
  {
    var id := from * FloorCount + to;
    assert id / FloorCount == from && id % FloorCount == to;
  }

  // -------------------------------------------------------------- idling

  /** With nothing queued and nobody on board, the car heads for the
      nearest floor where someone waits (the lowest such floor on a tie). */
  lemma IdleSeeks(s: Sim, now: Tick)
    requires Inv(s) && s.queue == [] && s.passengers == []
    requires exists k :: 0 <= k < FloorCount && s.floors[k] != []
    ensures var t := Step(s, now);
      && |t.queue| == 1 && InRange(t.queue[0]) && s.floors[t.queue[0]] != []
      && Closest(s.floors, s.currentFloor, t.queue[0], FloorCount)
      && !t.isIdle && t.currentFloor == s.currentFloor
  {
    NearestWaitingSpec(s.floors, s.currentFloor);
  }

  /** With nobody anywhere, the first idle tick starts the timer and a tick
      at least IdleTimeout later sends the car to floor 0; nothing else
      changes the queue. */
  lemma IdleParks(s: Sim, now: Tick)
    requires Inv(s) && s.queue == [] && s.passengers == []
    requires forall k :: 0 <= k < FloorCount ==> s.floors[k] == []
    ensures var t := Step(s, now);
      && (!s.isIdle ==> t == s.(isIdle := true, idleStartTime := now))
      && (s.isIdle && Elapsed(now, s.idleStartTime) >= IdleTimeout && s.currentFloor != 0 ==>
            t == s.(queue := [0], direction := Down))
      && (s.isIdle && (Elapsed(now, s.idleStartTime) < IdleTimeout || s.currentFloor == 0) ==> t == s)
  {
    NearestWaitingSpec(s.floors, s.currentFloor);
  }

  // --------------------------------------------------- the nearest floor

  lemma {:induction false} NearestFromSpec(floors: seq<seq<Passenger>>, floor: int, i: nat, m: int, nr: int)
    requires |floors| == FloorCount && InRange(floor) && i <= |floors|
    requires nr == -1 ==> m == FloorCount + 1 && forall k :: 0 <= k < i ==> floors[k] == []
    requires nr != -1 ==> 0 <= nr < i && floors[nr] != [] && m == Abs(floor - nr) && Closest(floors, floor, nr, i)
    ensures var n := NearestFrom(floors, floor, i, m, nr);
      && (n == -1 <==> forall k :: 0 <= k < |floors| ==> floors[k] == [])
      && (n != -1 ==> 0 <= n < |floors| && floors[n] != [] && Closest(floors, floor, n, |floors|))
    decreases |floors| - i
  {
    if i < |floors| {
      if floors[i] != [] && Abs(floor - i) < m {
        assert Closest(floors, floor, i, i + 1) by {
          forall k | 0 <= k < i + 1 && k < |floors| && floors[k] != []
            ensures Abs(floor - i) < Abs(floor - k) || (Abs(floor - i) == Abs(floor - k) && i <= k)
          {
            if k < i {
              assert (nr != -1) && (m < Abs(floor - k) || m == Abs(floor - k));
            }
          }
        }
        NearestFromSpec(floors, floor, i + 1, Abs(floor - i), i);
      } else {
        if nr != -1 {
          assert Closest(floors, floor, nr, i + 1) by {
            forall k | 0 <= k < i + 1 && k < |floors| && floors[k] != []
              ensures Abs(floor - nr) < Abs(floor - k) || (Abs(floor - nr) == Abs(floor - k) && nr <= k)
            {
              if k == i {
                assert nr < i;
              }
            }
          }
        }
        NearestFromSpec(floors, floor, i + 1, m, nr);
      }
    }
  }

  /** The nearest waiting floor is -1 exactly when nobody waits; otherwise
      it is a floor where someone waits, no farther than any other such
      floor, and the lowest of the closest ones. */
  lemma NearestWaitingSpec(floors: seq<seq<Passenger>>, floor: int)
    requires |floors| == FloorCount && InRange(floor)
    ensures var n := NearestWaiting(floors, floor);
      && (n == -1 <==> forall k :: 0 <= k < FloorCount ==> floors[k] == [])
      && (n != -1 ==> InRange(n) && floors[n] != [] && Closest(floors, floor, n, FloorCount))
  {
    NearestFromSpec(floors, floor, 0, FloorCount + 1, -1);
  }
}
