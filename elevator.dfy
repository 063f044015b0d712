/**
 * The elevator engine: one car with a current floor, the people inside it
 * in boarding order, and a first-in first-out queue of floor calls. Each
 * method is proved to change the car exactly as the dispatch specification
 * (module Dispatch) says; what that specification means is proved there.
 *
 * The source's endless service thread is modelled by its finite parts:
 * servicing the call at the head of the queue, and draining the queue.
 */
module ElevatorEngine {
  import opened Passenger
  import opened FloorCall
  import opened Dispatch

  /** The queued calls as values: each floor object with its number and direction. */
  function Snapshot(q: seq<Floor>): (r: seq<Queued>)
    reads q
    ensures |r| == |q|
    ensures forall i :: 0 <= i < |q| ==> r[i] == Queued(q[i], q[i].floorNumber, q[i].direction)
  {
    if q == [] then [] else [Queued(q[0], q[0].floorNumber, q[0].direction)] + Snapshot(q[1..])
  }

  /** The waiting list of every queued floor object. */
  function WaitingOf(q: seq<Floor>): map<Floor, seq<Person>>
    reads q
  {
    map f | f in q :: f.peopleWaiting
  }

  /** Two maps over the same keys that agree away from k differ by the one update at k. */
  lemma UpdatedAt<K, V>(before: map<K, V>, after: map<K, V>, k: K)
    requires k in after && before.Keys == after.Keys
    requires forall g :: g in before && g != k ==> after[g] == before[g]
    ensures after == before[k := after[k]]
  {
  }

  class Elevator {
    var peopleInside: seq<Person>
    var calledQueue: seq<Floor>
    var currentFloor: int
    const maxFloors: int
    const maxCapacity: int

    constructor (currentFloor: int, maxFloors: int, maxCapacity: int)
      ensures this.currentFloor == currentFloor
      ensures this.maxFloors == maxFloors && this.maxCapacity == maxCapacity
      ensures peopleInside == [] && calledQueue == []
    {
      this.currentFloor := currentFloor;
      this.maxFloors := maxFloors;
      this.maxCapacity := maxCapacity;
      peopleInside := [];
      calledQueue := [];
    }

    /** Where the car is and who is in it. */
    function Position(): Car
      reads this
    {
      Car(currentFloor, peopleInside)
    }

    /**
     * Travel to a floor. The travel delay is not modelled; the floor is
     * always reached, whether or not the simulated wait was interrupted.
     */
    method GoToFloor(floor: int)
      modifies this`currentFloor
      ensures currentFloor == floor
      ensures peopleInside == old(peopleInside) && calledQueue == old(calledQueue)
    {
      if floor != currentFloor {
        currentFloor := floor;
      }
    }

    /** Stop at a floor and let off, in one pass over the car, everybody headed there. */
    method CheckAndDropOff(floorNum: int)
      modifies this`currentFloor, this`peopleInside
      ensures currentFloor == floorNum
      ensures peopleInside == Remaining(old(peopleInside), floorNum, floorNum)
      ensures calledQueue == old(calledQueue)
    {
      GoToFloor(floorNum);
      peopleInside := LetOff(peopleInside, floorNum);
    }

    /**
     * Board from the front of the call's waiting list while the car has
     * room. The boarded people leave the call's own list.
     */
    method Board(floor: Floor)
      modifies this`peopleInside, floor`peopleWaiting
      ensures var k := Boarding(|old(peopleInside)|, |old(floor.peopleWaiting)|, maxCapacity);
        && peopleInside == old(peopleInside) + old(floor.peopleWaiting)[..k]
        && floor.peopleWaiting == old(floor.peopleWaiting)[k..]
    {
      while |peopleInside| < maxCapacity && |floor.peopleWaiting| > 0
        invariant peopleInside + floor.peopleWaiting == old(peopleInside) + old(floor.peopleWaiting)
        invariant |old(peopleInside)| <= |peopleInside|
        invariant |old(peopleInside)| >= maxCapacity ==> peopleInside == old(peopleInside)
        invariant |peopleInside| == |old(peopleInside)| || |peopleInside| <= maxCapacity
        decreases |floor.peopleWaiting|
      {
        peopleInside := peopleInside + [floor.peopleWaiting[0]];
        floor.peopleWaiting := floor.peopleWaiting[1..];
      }
      ghost var k := |peopleInside| - |old(peopleInside)|;
      ghost var all := old(peopleInside) + old(floor.peopleWaiting);
      assert peopleInside == all[..|peopleInside|];
      assert floor.peopleWaiting == all[|peopleInside|..];
      BoardingUnique(|old(peopleInside)|, |old(floor.peopleWaiting)|, maxCapacity, k);
    }

    /** Go up one floor at a time, dropping off, until the top floor or until the car is empty. */
    method SweepUp()
      modifies this`currentFloor, this`peopleInside
      ensures Position() == Ascend(old(Position()), maxFloors)
      ensures |peopleInside| <= |old(peopleInside)|
      ensures calledQueue == old(calledQueue)
    {
      var i := currentFloor + 1;
      while i <= maxFloors && peopleInside != []
        invariant i == currentFloor + 1
        invariant Ascend(Position(), maxFloors) == Ascend(old(Position()), maxFloors)
        invariant |peopleInside| <= |old(peopleInside)|
        invariant calledQueue == old(calledQueue)
        decreases maxFloors - i
      {
        CheckAndDropOff(i);
        i := i + 1;
      }
    }

    /** Go down one floor at a time, dropping off, until floor 0 or until the car is empty. */
    method SweepDown()
      modifies this`currentFloor, this`peopleInside
      ensures Position() == Descend(old(Position()))
      ensures |peopleInside| <= |old(peopleInside)|
      ensures calledQueue == old(calledQueue)
    {
      var i := currentFloor - 1;
      while i >= 0 && peopleInside != []
        invariant i == currentFloor - 1
        invariant Descend(Position()) == Descend(old(Position()))
        invariant |peopleInside| <= |old(peopleInside)|
        invariant calledQueue == old(calledQueue)
        decreases i
      {
        CheckAndDropOff(i);
        i := i - 1;
      }
    }

    /**
     * Service the call at the head of the queue: remove it, travel to its
     * floor, board, and sweep in its direction. The call's waiting list is
     * left holding whoever did not fit.
     */
    method ServiceOneCall(ghost floors: seq<Floor>)
      requires calledQueue != [] && calledQueue[0] in floors
      modifies this`currentFloor, this`peopleInside, this`calledQueue, (calledQueue[0] as Floor)`peopleWaiting
      ensures calledQueue == old(calledQueue[1..])
      ensures WaitingOf(floors) == old(WaitingOf(floors))[old(calledQueue[0]) := old(calledQueue[0]).peopleWaiting]
      ensures Served(Position(), old(calledQueue[0]).peopleWaiting)
              == ServeCall(old(Position()), old(calledQueue[0].peopleWaiting),
                           old(calledQueue[0].floorNumber), old(calledQueue[0].direction),
                           maxFloors, maxCapacity)
      ensures |old(peopleInside)| <= maxCapacity ==> |peopleInside| <= maxCapacity
    {
      var floor := calledQueue[0];
      var up := GoesUp(floor.direction);
      calledQueue := calledQueue[1..];
      GoToFloor(floor.floorNumber);
      Board(floor);
      if up {
        SweepUp();
      } else {
        SweepDown();
      }
      ServeCallCapacity(old(Position()), old(floor.peopleWaiting), floor.floorNumber, floor.direction,
                        maxFloors, maxCapacity);
      assert forall g :: g in floors && g != floor ==> g.peopleWaiting == old(g.peopleWaiting);
      UpdatedAt(old(WaitingOf(floors)), WaitingOf(floors), floor);
    }

    /**
     * Service calls from the head of the queue until it is empty. Every
     * queued call is serviced exactly once, in arrival order, and each floor
     * object's waiting list ends as the specification says; if the same
     * floor object was queued twice, its second service starts from what
     * the first left behind.
     */
    method Drain()
      modifies this`currentFloor, this`peopleInside, this`calledQueue, calledQueue`peopleWaiting
      ensures calledQueue == []
      ensures World(Position(), WaitingOf(old(calledQueue)))
              == Pending(old(Snapshot(calledQueue)), old(World(Position(), WaitingOf(calledQueue))),
                         maxFloors, maxCapacity)
      ensures |old(peopleInside)| <= maxCapacity ==> |peopleInside| <= maxCapacity
    {
      ghost var all := calledQueue;
      ghost var calls := Snapshot(calledQueue);
      ghost var start := World(Position(), WaitingOf(all));
      ghost var n := 0;
      while calledQueue != []
        invariant 0 <= n <= |all| && calledQueue == all[n..]
        invariant World(Position(), WaitingOf(all)) == Pending(calls[..n], start, maxFloors, maxCapacity)
        decreases |all| - n
      {
        assert calls[n] == Queued(all[n], all[n].floorNumber, all[n].direction);
        ghost var before := World(Position(), WaitingOf(all));
        ghost var served := ServeCall(Position(), all[n].peopleWaiting, all[n].floorNumber, all[n].direction,
                                      maxFloors, maxCapacity);
        ServedWorld(before, calls[n], all[n].peopleWaiting, served, maxFloors, maxCapacity);
        ServiceOneCall(all);
        PendingAppend(calls[..n], calls[n], start, maxFloors, maxCapacity);
        TakeOneMore(calls, n);
        n := n + 1;
      }
      assert n == |calls|;
      TakeAll(calls);
      if |start.car.inside| <= maxCapacity {
        PendingCapacity(calls, start, maxFloors, maxCapacity);
      }
    }

    /** Append a call at the tail of the queue. */
    method Enqueue(floor: Floor)
      modifies this`calledQueue
      ensures calledQueue == old(calledQueue) + [floor]
      ensures currentFloor == old(currentFloor) && peopleInside == old(peopleInside)
    {
      calledQueue := calledQueue + [floor];
    }

    /**
     * The source assigns the parameter to itself, so this setter changes
     * nothing: neither the queue nor any other field.
     */
    method SetPeopleWaiting(calledQueue: seq<Person>)
      ensures unchanged(this)
    {
    }

    /** Each occupant's name followed by ",", in boarding order; "" when the car is empty. */
    method PrintPeopleInside() returns (s: string)
      ensures s == Render(peopleInside)
    {
      s := RenderNames(peopleInside);
    }
  }

  /**
   * A client of the engine: the first call of the demonstration building
   * (start at floor 3, 10 floors, room for 5), enqueued and drained. The car
   * ends at floor 7, empty, and nobody is left waiting at the call.
   */
  method FirstDemoCallDrained() returns (floor: int, inside: seq<Person>, left: seq<Person>)
    ensures floor == 7 && inside == [] && left == []
  {
    var jim, mark := Person("Jim", 1, 7), Person("Mark", 1, 5);
    var elevator := new Elevator(3, 10, 5);
    var call := new Floor([jim, mark], 1, "up");
    elevator.Enqueue(call);
    elevator.Drain();
    FirstDemoCall();
    assert [call][1..] == [];
    floor, inside, left := elevator.currentFloor, elevator.peopleInside, call.peopleWaiting;
  }
}
