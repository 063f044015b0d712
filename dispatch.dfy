/**
 * The dispatch algorithm of the elevator as values: what servicing one floor
 * call does to the car and to the call's waiting list, and what servicing a
 * whole queue of calls does. The imperative engine (module ElevatorEngine)
 * is proved to compute exactly these values; the lemmas here state what the
 * values mean: capacity, conservation of people, drop-off at the visited
 * floors only, the sweep's bounds and early stop, and first-in first-out
 * servicing.
 */
module Dispatch {
  import opened Passenger
  import opened FloorCall

  /** The car as the dispatcher sees it: where it is and who is aboard, in boarding order. */
  datatype Car = Car(floor: int, inside: seq<Person>)

  /** The outcome of one call: the car afterwards, and who is still waiting at the call's floor. */
  datatype Served = Served(car: Car, leftBehind: seq<Person>)

  /** A queued call: the floor object (whose waiting list may change) with its number and direction. */
  datatype Queued = Queued(call: Floor, floorNumber: int, direction: string)

  /** The car together with the waiting list of every floor object that is queued. */
  datatype World = World(car: Car, waiting: map<Floor, seq<Person>>)

  function Min(a: int, b: int): int { if a <= b then a else b }
  function Max(a: int, b: int): int { if a <= b then b else a }

  /** Only the exact text "up" makes the car ascend; every other direction descends. */
  predicate GoesUp(direction: string) { direction == "up" }

  /** The person leaves the car if it stops anywhere in lo..hi. */
  predicate GetsOffIn(p: Person, lo: int, hi: int) { lo <= p.destinationFloor <= hi }

  // ---------------------------------------------------------------------------
  // Drop-off

  /** The occupants that stay aboard after stops at every floor of lo..hi, in their order. */
  function Remaining(s: seq<Person>, lo: int, hi: int): (r: seq<Person>)
    ensures |r| <= |s|
  {
    if s == [] then []
    else
      var rest := Remaining(s[..|s| - 1], lo, hi);
      var last := s[|s| - 1];
      if GetsOffIn(last, lo, hi) then rest else rest + [last]
  }

  lemma RemainingSnoc(s: seq<Person>, x: Person, lo: int, hi: int)
    ensures Remaining(s + [x], lo, hi) == Remaining(s, lo, hi) + (if GetsOffIn(x, lo, hi) then [] else [x])
  {
    assert (s + [x])[..|s|] == s;
  }

  /**
   * Exactly the occupants whose destination lies in lo..hi leave, all copies
   * of them; everybody else stays with the same multiplicity.
   */
  lemma {:induction false} RemainingCount(s: seq<Person>, lo: int, hi: int, p: Person)
    ensures multiset(Remaining(s, lo, hi))[p] == if GetsOffIn(p, lo, hi) then 0 else multiset(s)[p]
    decreases |s|
  {
    if s != [] {
      var init, last := s[..|s| - 1], s[|s| - 1];
      assert s == init + [last];
      RemainingSnoc(init, last, lo, hi);
      RemainingCount(init, lo, hi, p);
    }
  }

  /** A person is still aboard exactly when aboard before and not headed for lo..hi. */
  lemma RemainingMember(s: seq<Person>, lo: int, hi: int, p: Person)
    ensures p in Remaining(s, lo, hi) <==> p in s && !GetsOffIn(p, lo, hi)
  {
    RemainingCount(s, lo, hi, p);
  }

  lemma TakeAll<T>(s: seq<T>)
    ensures s[..|s|] == s
  {
  }

  lemma TakeOneMore<T>(s: seq<T>, n: nat)
    requires n < |s|
    ensures s[..n + 1] == s[..n] + [s[n]]
  {
  }

  lemma DropOneMore<T>(s: seq<T>, n: nat)
    requires n < |s|
    ensures s[n..] == [s[n]] + s[n + 1..]
  {
  }

  lemma SplitAt<T>(a: seq<T>, x: T, b: seq<T>)
    ensures var s := a + ([x] + b);
      && |a| < |s| && s[|a|] == x
      && s[..|a|] + s[|a| + 1..] == a + b
      && s == (a + [x]) + b
  {
  }

  /**
   * The state of the drop-off pass after examining the first j occupants of
   * the original car: kept are those of them that stay, and the car holds
   * kept followed by the occupants not yet examined.
   */
  ghost predicate Scanned(people: seq<Person>, floorNum: int, j: int, kept: seq<Person>, inside: seq<Person>)
  {
    0 <= j <= |people| && kept == Remaining(people[..j], floorNum, floorNum) && inside == kept + people[j..]
  }

  /** While occupants are left to examine, the next one is the next one of the original car. */
  lemma LetOffNext(people: seq<Person>, floorNum: int, j: int, kept: seq<Person>, inside: seq<Person>)
    requires Scanned(people, floorNum, j, kept, inside) && |kept| < |inside|
    ensures j < |people| && inside[|kept|] == people[j]
  {
  }

  /** Removing that occupant, who is headed for floorNum, advances the pass. */
  lemma LetOffDrop(people: seq<Person>, floorNum: int, j: int, kept: seq<Person>, inside: seq<Person>, i: nat)
    requires Scanned(people, floorNum, j, kept, inside) && i == |kept| < |inside|
    requires inside[i].destinationFloor == floorNum
    ensures Scanned(people, floorNum, j + 1, kept, inside[..i] + inside[i + 1..])
  {
    DropOneMore(people, j);
    TakeOneMore(people, j);
    SplitAt(kept, people[j], people[j + 1..]);
    RemainingSnoc(people[..j], people[j], floorNum, floorNum);
  }

  /** Stepping over that occupant, who is not headed for floorNum, advances the pass. */
  lemma LetOffKeep(people: seq<Person>, floorNum: int, j: int, kept: seq<Person>, inside: seq<Person>, i: nat)
    requires Scanned(people, floorNum, j, kept, inside) && i == |kept| < |inside|
    requires inside[i].destinationFloor != floorNum
    ensures Scanned(people, floorNum, j + 1, kept + [inside[i]], inside)
  {
    DropOneMore(people, j);
    TakeOneMore(people, j);
    SplitAt(kept, people[j], people[j + 1..]);
    RemainingSnoc(people[..j], people[j], floorNum, floorNum);
  }

  /** A pass with nothing left to examine has kept exactly the occupants that stay. */
  lemma LetOffDone(people: seq<Person>, floorNum: int, j: int, kept: seq<Person>, inside: seq<Person>)
    requires Scanned(people, floorNum, j, kept, inside) && |kept| >= |inside|
    ensures inside == Remaining(people, floorNum, floorNum)
  {
    TakeAll(people);
  }

  /**
   * The drop-off pass: walks the occupants once, removing in place everyone
   * whose destination is floorNum; the others keep their order.
   */
  method LetOff(people: seq<Person>, floorNum: int) returns (inside: seq<Person>)
    ensures inside == Remaining(people, floorNum, floorNum)
  {
    inside := people;
    ghost var j := 0;
    ghost var kept: seq<Person> := [];
    var i := 0;
    assert Scanned(people, floorNum, j, kept, inside);
    while i < |inside|
      invariant Scanned(people, floorNum, j, kept, inside) && i == |kept|
      decreases |people| - j
    {
      LetOffNext(people, floorNum, j, kept, inside);
      if inside[i].destinationFloor == floorNum {
        LetOffDrop(people, floorNum, j, kept, inside, i);
        inside := inside[..i] + inside[i + 1..];
      } else {
        LetOffKeep(people, floorNum, j, kept, inside, i);
        kept := kept + [inside[i]];
        i := i + 1;
      }
      j := j + 1;
    }
    LetOffDone(people, floorNum, j, kept, inside);
  }

  /** Survivors keep their relative order: the filter distributes over concatenation. */
  lemma {:induction false} RemainingAppend(a: seq<Person>, b: seq<Person>, lo: int, hi: int)
    ensures Remaining(a + b, lo, hi) == Remaining(a, lo, hi) + Remaining(b, lo, hi)
    decreases |b|
  {
    if b == [] {
      assert a + b == a;
    } else {
      var b', last := b[..|b| - 1], b[|b| - 1];
      assert a + b == (a + b') + [last];
      assert b == b' + [last];
      RemainingSnoc(a + b', last, lo, hi);
      RemainingSnoc(b', last, lo, hi);
      RemainingAppend(a, b', lo, hi);
    }
  }

  /** Stopping at no floor drops nobody. */
  lemma {:induction false} RemainingNone(s: seq<Person>, lo: int, hi: int)
    requires lo > hi
    ensures Remaining(s, lo, hi) == s
    decreases |s|
  {
    if s != [] {
      assert s == s[..|s| - 1] + [s[|s| - 1]];
      RemainingNone(s[..|s| - 1], lo, hi);
    }
  }

  /** Two rounds of stops whose floors together make up exactly lo..hi drop the same people as lo..hi. */
  lemma {:induction false} RemainingNest(s: seq<Person>, lo1: int, hi1: int, lo2: int, hi2: int, lo: int, hi: int)
    requires forall p :: p in s ==> (GetsOffIn(p, lo1, hi1) || GetsOffIn(p, lo2, hi2) <==> GetsOffIn(p, lo, hi))
    ensures Remaining(Remaining(s, lo1, hi1), lo2, hi2) == Remaining(s, lo, hi)
    decreases |s|
  {
    if s != [] {
      var init, last := s[..|s| - 1], s[|s| - 1];
      assert s == init + [last];
      RemainingSnoc(init, last, lo1, hi1);
      RemainingSnoc(init, last, lo, hi);
      if !GetsOffIn(last, lo1, hi1) {
        RemainingSnoc(Remaining(init, lo1, hi1), last, lo2, hi2);
      }
      RemainingNest(init, lo1, hi1, lo2, hi2, lo, hi);
    }
  }

  /** A stop at f followed by stops at f + 1..hi drops the same people as stops at f..hi. */
  lemma RemainingThenUp(s: seq<Person>, f: int, hi: int)
    requires f <= hi
    ensures Remaining(Remaining(s, f, f), f + 1, hi) == Remaining(s, f, hi)
  {
    RemainingNest(s, f, f, f + 1, hi, f, hi);
  }

  /** A stop at f followed by stops at lo..f - 1 drops the same people as stops at lo..f. */
  lemma RemainingThenDown(s: seq<Person>, lo: int, f: int)
    requires lo <= f
    ensures Remaining(Remaining(s, f, f), lo, f - 1) == Remaining(s, lo, f)
  {
    RemainingNest(s, f, f, lo, f - 1, lo, f);
  }

  // ---------------------------------------------------------------------------
  // Pickup

  /**
   * How many of the waiting people board a car holding `aboard` people: as
   * many as fit, but never more than are waiting, and nobody if the car is
   * already at or over capacity.
   */
  function Boarding(aboard: nat, waiting: nat, maxCapacity: int): (k: nat)
    ensures k <= waiting
    ensures k == 0 || aboard + k <= maxCapacity
    ensures k == waiting || aboard + k >= maxCapacity
  {
    if aboard >= maxCapacity then 0 else Min(maxCapacity - aboard, waiting)
  }

  /** The three properties of Boarding determine the count. */
  lemma BoardingUnique(aboard: nat, waiting: nat, maxCapacity: int, k: nat)
    requires k <= waiting
    requires k == 0 || aboard + k <= maxCapacity
    requires k == waiting || aboard + k >= maxCapacity
    ensures k == Boarding(aboard, waiting, maxCapacity)
  {
  }

  // ---------------------------------------------------------------------------
  // Sweeps

  /** Ascend one floor at a time up to top, dropping off at each floor, until the car is empty. */
  function Ascend(c: Car, top: int): Car
    decreases top - c.floor
  {
    if c.floor + 1 > top || c.inside == [] then c
    else Ascend(Car(c.floor + 1, Remaining(c.inside, c.floor + 1, c.floor + 1)), top)
  }

  /** Descend one floor at a time down to floor 0, dropping off at each floor, until the car is empty. */
  function Descend(c: Car): Car
    decreases c.floor
  {
    if c.floor - 1 < 0 || c.inside == [] then c
    else Descend(Car(c.floor - 1, Remaining(c.inside, c.floor - 1, c.floor - 1)))
  }

  /**
   * What an upward sweep from car c towards top ends in (r): it ends at some
   * floor between c's floor and max(c's floor, top); exactly the occupants
   * headed for the floors it passed (one above c's floor up to where it
   * stopped) have left; it stops short of the boundary only because the car
   * became empty, and it stops at the first floor where that happens.
   */
  ghost predicate AscendShape(c: Car, top: int, r: Car)
  {
    && c.floor <= r.floor <= Max(c.floor, top)
    && r.inside == Remaining(c.inside, c.floor + 1, r.floor)
    && (r.inside != [] ==> r.floor == Max(c.floor, top))
    && (r.floor > c.floor ==> Remaining(c.inside, c.floor + 1, r.floor - 1) != [])
  }

  lemma {:induction false} AscendClosedForm(c: Car, top: int)
    ensures AscendShape(c, top, Ascend(c, top))
    decreases top - c.floor
  {
    if c.floor + 1 > top || c.inside == [] {
      RemainingNone(c.inside, c.floor + 1, c.floor);
    } else {
      var next := Car(c.floor + 1, Remaining(c.inside, c.floor + 1, c.floor + 1));
      AscendClosedForm(next, top);
      AscendStep(c, top, next, Ascend(next, top));
    }
  }

  /** One floor up: dropping off at the next floor and then over the floors above it is one sweep from c. */
  lemma AscendStep(c: Car, top: int, next: Car, r: Car)
    requires c.floor + 1 <= top && c.inside != []
    requires next == Car(c.floor + 1, Remaining(c.inside, c.floor + 1, c.floor + 1))
    requires AscendShape(next, top, r)
    ensures AscendShape(c, top, r)
  {
    var s, f := c.inside, c.floor + 1;
    assert next.inside == Remaining(s, f, f) && next.floor + 1 == f + 1;
    assert Max(f, top) == top == Max(c.floor, top);
    RemainingThenUp(s, f, r.floor);
    assert r.inside == Remaining(s, f, r.floor);
    if r.floor > f {
      RemainingThenUp(s, f, r.floor - 1);
      assert Remaining(s, f, r.floor - 1) != [];
    } else {
      RemainingNone(s, f, f - 1);
      assert Remaining(s, f, r.floor - 1) == s;
    }
  }

  /**
   * What a downward sweep from car c ends in (r): it ends at some floor
   * between min(c's floor, 0) and c's floor; exactly the occupants headed for
   * the floors it passed have left; it stops above floor 0 only because the
   * car became empty, at the first floor where that happens.
   */
  ghost predicate DescendShape(c: Car, r: Car)
  {
    && Min(c.floor, 0) <= r.floor <= c.floor
    && r.inside == Remaining(c.inside, r.floor, c.floor - 1)
    && (r.inside != [] ==> r.floor == Min(c.floor, 0))
    && (r.floor < c.floor ==> Remaining(c.inside, r.floor + 1, c.floor - 1) != [])
  }

  lemma {:induction false} DescendClosedForm(c: Car)
    ensures DescendShape(c, Descend(c))
    decreases c.floor
  {
    if c.floor - 1 < 0 || c.inside == [] {
      RemainingNone(c.inside, c.floor, c.floor - 1);
    } else {
      var next := Car(c.floor - 1, Remaining(c.inside, c.floor - 1, c.floor - 1));
      DescendClosedForm(next);
      DescendStep(c, next, Descend(next));
    }
  }

  /** One floor down: dropping off at the next floor and then over the floors below it is one sweep from c. */
  lemma DescendStep(c: Car, next: Car, r: Car)
    requires c.floor - 1 >= 0 && c.inside != []
    requires next == Car(c.floor - 1, Remaining(c.inside, c.floor - 1, c.floor - 1))
    requires DescendShape(next, r)
    ensures DescendShape(c, r)
  {
    var s, f := c.inside, c.floor - 1;
    var t := Remaining(s, f, f);
    assert next.inside == t && next.floor == f;
    assert Min(f, 0) == 0 == Min(c.floor, 0);
    assert r.inside == Remaining(t, r.floor, f - 1);
    RemainingThenDown(s, r.floor, f);
    if r.floor < f {
      assert r.floor < next.floor;
      assert Remaining(next.inside, r.floor + 1, next.floor - 1) != [];
      RemainingThenDown(s, r.floor + 1, f);
    } else {
      RemainingNone(s, f + 1, f);
      assert Remaining(s, r.floor + 1, f) == s;
    }
  }

  // ---------------------------------------------------------------------------
  // One call

  /**
   * Servicing one call: go to the call's floor, board from the front of its
   * waiting list while there is room, then sweep in the call's direction.
   */
  function ServeCall(c: Car, waiting: seq<Person>, floorNumber: int, direction: string,
                     maxFloors: int, maxCapacity: int): Served
  {
    var k := Boarding(|c.inside|, |waiting|, maxCapacity);
    var boarded := Car(floorNumber, c.inside + waiting[..k]);
    Served(if GoesUp(direction) then Ascend(boarded, maxFloors) else Descend(boarded), waiting[k..])
  }

  /** The floors at which the car stopped to drop off, for a call at floorNumber whose sweep ended at last. */
  predicate DroppedDuring(p: Person, floorNumber: int, direction: string, last: int)
  {
    if GoesUp(direction) then GetsOffIn(p, floorNumber + 1, last) else GetsOffIn(p, last, floorNumber - 1)
  }

  /**
   * Capacity: a call never leaves more people aboard than the larger of the
   * previous load and the capacity; in particular a car within capacity
   * stays within capacity.
   */
  lemma ServeCallCapacity(c: Car, waiting: seq<Person>, floorNumber: int, direction: string,
                          maxFloors: int, maxCapacity: int)
    ensures |ServeCall(c, waiting, floorNumber, direction, maxFloors, maxCapacity).car.inside|
            <= Max(|c.inside|, maxCapacity)
  {
    var k := Boarding(|c.inside|, |waiting|, maxCapacity);
    var boarded := Car(floorNumber, c.inside + waiting[..k]);
    AscendClosedForm(boarded, maxFloors);
    DescendClosedForm(boarded);
  }

  /**
   * Nobody is invented or duplicated: a person not headed for a floor where
   * the car stopped is, in total, exactly as often aboard or still waiting
   * as before; a person headed for such a floor is no longer aboard, and can
   * only still be among those left waiting.
   */
  lemma ServeCallConserves(c: Car, waiting: seq<Person>, floorNumber: int, direction: string,
                           maxFloors: int, maxCapacity: int, p: Person)
    ensures var r := ServeCall(c, waiting, floorNumber, direction, maxFloors, maxCapacity);
      if DroppedDuring(p, floorNumber, direction, r.car.floor) then
        multiset(r.car.inside)[p] == 0 && multiset(r.leftBehind)[p] <= multiset(waiting)[p]
      else
        multiset(r.car.inside)[p] + multiset(r.leftBehind)[p] == multiset(c.inside)[p] + multiset(waiting)[p]
  {
    var k := Boarding(|c.inside|, |waiting|, maxCapacity);
    var boarded := Car(floorNumber, c.inside + waiting[..k]);
    assert waiting == waiting[..k] + waiting[k..];
    assert multiset(boarded.inside)[p] == multiset(c.inside)[p] + multiset(waiting[..k])[p];
    if GoesUp(direction) {
      AscendConserves(boarded, maxFloors, p);
    } else {
      DescendConserves(boarded, p);
    }
  }

  /** Going up, a person leaves exactly when their destination was passed. */
  lemma AscendConserves(b: Car, top: int, p: Person)
    ensures var r := Ascend(b, top);
      multiset(r.inside)[p] == if GetsOffIn(p, b.floor + 1, r.floor) then 0 else multiset(b.inside)[p]
  {
    AscendClosedForm(b, top);
    RemainingCount(b.inside, b.floor + 1, Ascend(b, top).floor, p);
  }

  /** Going down, a person leaves exactly when their destination was passed. */
  lemma DescendConserves(b: Car, p: Person)
    ensures var r := Descend(b);
      multiset(r.inside)[p] == if GetsOffIn(p, r.floor, b.floor - 1) then 0 else multiset(b.inside)[p]
  {
    DescendClosedForm(b);
    RemainingCount(b.inside, Descend(b).floor, b.floor - 1, p);
  }

  /**
   * Drop-off on the way up: an occupant is still aboard after the upward
   * sweep exactly when their destination is not one of the floors above the
   * start, up to top. In particular everyone headed for such a floor is let
   * off there, even when the sweep stops early.
   */
  lemma AscendDropsExactly(b: Car, top: int, p: Person)
    ensures p in Ascend(b, top).inside <==> p in b.inside && !(b.floor < p.destinationFloor <= top)
  {
    AscendClosedForm(b, top);
    AscendConserves(b, top, p);
  }

  /**
   * Drop-off on the way down: an occupant is still aboard after the downward
   * sweep exactly when their destination is not one of the floors from 0 up
   * to just below the start.
   */
  lemma DescendDropsExactly(b: Car, p: Person)
    ensures p in Descend(b).inside <==> p in b.inside && !(0 <= p.destinationFloor < b.floor)
  {
    DescendClosedForm(b);
    DescendConserves(b, p);
  }

  /**
   * The boundary policy: on an "up" call nobody headed at or below the
   * call's floor gets off, and on any other call nobody headed at or above
   * it. This holds both for earlier occupants and for those who just
   * boarded at the call: such people stay aboard.
   */
  lemma BoundaryPolicy(c: Car, waiting: seq<Person>, floorNumber: int, direction: string,
                       maxFloors: int, maxCapacity: int, p: Person)
    requires p in c.inside + waiting[..Boarding(|c.inside|, |waiting|, maxCapacity)]
    requires if GoesUp(direction) then p.destinationFloor <= floorNumber else p.destinationFloor >= floorNumber
    ensures p in ServeCall(c, waiting, floorNumber, direction, maxFloors, maxCapacity).car.inside
  {
    var k := Boarding(|c.inside|, |waiting|, maxCapacity);
    var boarded := Car(floorNumber, c.inside + waiting[..k]);
    var r := ServeCall(c, waiting, floorNumber, direction, maxFloors, maxCapacity);
    assert multiset(boarded.inside)[p] > 0;
    if GoesUp(direction) {
      AscendClosedForm(boarded, maxFloors);
      RemainingCount(boarded.inside, floorNumber + 1, r.car.floor, p);
    } else {
      DescendClosedForm(boarded);
      RemainingCount(boarded.inside, r.car.floor, floorNumber - 1, p);
    }
  }

  // ---------------------------------------------------------------------------
  // A queue of calls

  /** The waiting list the world records for a floor call; a call it does not know has nobody waiting. */
  function WaitingAt(s: World, f: Floor): seq<Person>
  {
    if f in s.waiting then s.waiting[f] else []
  }

  /** Servicing one queued call against the world: its floor object's waiting list is what is left behind. */
  function Serve1(s: World, q: Queued, maxFloors: int, maxCapacity: int): (r: World)
    ensures r.waiting.Keys == s.waiting.Keys + {q.call}
  {
    var served := ServeCall(s.car, WaitingAt(s, q.call), q.floorNumber, q.direction, maxFloors, maxCapacity);
    World(served.car, s.waiting[q.call := served.leftBehind])
  }

  /**
   * A proof hint for the engine: the world after one call, given what
   * ServeCall made of the car and of the call's waiting list. It only
   * unfolds Serve1 at a known floor object.
   */
  lemma ServedWorld(s: World, q: Queued, waiting: seq<Person>, served: Served, maxFloors: int, maxCapacity: int)
    requires q.call in s.waiting && s.waiting[q.call] == waiting
    requires served == ServeCall(s.car, waiting, q.floorNumber, q.direction, maxFloors, maxCapacity)
    ensures Serve1(s, q, maxFloors, maxCapacity) == World(served.car, s.waiting[q.call := served.leftBehind])
  {
  }

  /** Servicing the queued calls from the head, each exactly once. */
  function Pending(qs: seq<Queued>, s: World, maxFloors: int, maxCapacity: int): (r: World)
    ensures s.waiting.Keys <= r.waiting.Keys
    ensures forall q :: q in qs ==> q.call in r.waiting
    decreases |qs|
  {
    if qs == [] then s
    else Pending(qs[1..], Serve1(s, qs[0], maxFloors, maxCapacity), maxFloors, maxCapacity)
  }

  /**
   * Servicing a queue in two parts is servicing the first part and then the
   * second from the world the first left behind.
   */
  lemma {:induction false} PendingConcat(a: seq<Queued>, b: seq<Queued>, s: World, maxFloors: int, maxCapacity: int)
    ensures Pending(a + b, s, maxFloors, maxCapacity)
            == Pending(b, Pending(a, s, maxFloors, maxCapacity), maxFloors, maxCapacity)
    decreases |a|
  {
    if a == [] {
      assert a + b == b;
    } else {
      assert (a + b)[0] == a[0];
      assert (a + b)[1..] == a[1..] + b;
      PendingConcat(a[1..], b, Serve1(s, a[0], maxFloors, maxCapacity), maxFloors, maxCapacity);
    }
  }

  /**
   * First in, first out: a call appended at the tail is serviced after every
   * call already queued, against the world those calls left behind.
   */
  lemma PendingAppend(qs: seq<Queued>, q: Queued, s: World, maxFloors: int, maxCapacity: int)
    ensures Pending(qs + [q], s, maxFloors, maxCapacity)
            == Serve1(Pending(qs, s, maxFloors, maxCapacity), q, maxFloors, maxCapacity)
  {
    PendingConcat(qs, [q], s, maxFloors, maxCapacity);
    assert [q][1..] == [];
  }

  /** Capacity over a whole queue: a car within capacity stays within capacity after every call. */
  lemma {:induction false} PendingCapacity(qs: seq<Queued>, s: World, maxFloors: int, maxCapacity: int)
    requires |s.car.inside| <= maxCapacity
    ensures |Pending(qs, s, maxFloors, maxCapacity).car.inside| <= maxCapacity
    decreases |qs|
  {
    if qs != [] {
      ServeCallCapacity(s.car, WaitingAt(s, qs[0].call), qs[0].floorNumber, qs[0].direction, maxFloors, maxCapacity);
      PendingCapacity(qs[1..], Serve1(s, qs[0], maxFloors, maxCapacity), maxFloors, maxCapacity);
    }
  }

  // ---------------------------------------------------------------------------
  // Worked examples

  /**
   * Start at floor 3 with 10 floors and room for 5; a call at floor 1 going
   * "up" with Jim (to 7) and Mark (to 5) waiting: both board, Mark leaves at
   * 5, Jim at 7, and the sweep stops at 7 with the car empty.
   */
  lemma FirstDemoCall()
    ensures var jim, mark := Person("Jim", 1, 7), Person("Mark", 1, 5);
      ServeCall(Car(3, []), [jim, mark], 1, "up", 10, 5) == Served(Car(7, []), [])
  {
    var jim, mark := Person("Jim", 1, 7), Person("Mark", 1, 5);
    var boarded := Car(1, [jim, mark]);
    assert Boarding(0, 2, 5) == 2;
    assert [] + [jim, mark][..2] == [jim, mark] && [jim, mark][2..] == [];
    AscendClosedForm(boarded, 10);
    var r := Ascend(boarded, 10);
    JimAndMarkAbove(r.floor);
    JimAndMarkAbove(r.floor - 1);
    assert r == Car(7, []);
  }

  /** Who of Jim (to 7) and Mark (to 5) is still aboard after the floors 2..f. */
  lemma JimAndMarkAbove(f: int)
    ensures var jim, mark := Person("Jim", 1, 7), Person("Mark", 1, 5);
      Remaining([jim, mark], 2, f) == if f >= 7 then [] else if f >= 5 then [jim] else [jim, mark]
  {
    var jim, mark := Person("Jim", 1, 7), Person("Mark", 1, 5);
    RemainingSnoc([jim], mark, 2, f);
    RemainingSnoc([], jim, 2, f);
    assert [] + [jim] == [jim] && [jim] + [mark] == [jim, mark];
  }

  /**
   * Room for one; a call at floor 2 going "down" with A and B both headed
   * for floor 0: only A boards, B is still waiting afterwards, and the car
   * reaches floor 0 empty.
   */
  lemma CapacityOneDownCall()
    ensures var a, b := Person("A", 2, 0), Person("B", 2, 0);
      ServeCall(Car(3, []), [a, b], 2, "down", 10, 1) == Served(Car(0, []), [b])
  {
    var a, b := Person("A", 2, 0), Person("B", 2, 0);
    assert Boarding(0, 2, 1) == 1;
    assert [a, b][..1] == [a] && [a, b][1..] == [b];
    DescendClosedForm(Car(2, [a]));
    var r := Descend(Car(2, [a]));
    assert Remaining([a], r.floor, 1) == (if r.floor <= 0 then [] else [a]);
  }
}
