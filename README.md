# Elevator simulator: the single-car dispatch engine in Dafny

This project models the dispatch engine of the elevator simulator. One car
has a current floor, an ordered list of people inside, and a first-in
first-out queue of floor calls. A floor call carries the people waiting at a
floor, the floor's number and the direction they asked for. A person has a
name, the floor where they wait and the floor they want to reach.

Servicing one call does the following:

- pop the head of the queue and travel to its floor;
- board people from the front of the call's own waiting list while the car
  has room;
- sweep one floor at a time, up towards `maxFloors` for the direction
  `"up"` and down towards floor 0 for any other text;
- at every floor, drop off everybody headed there;
- stop the sweep early once the car is empty.

The project has four modules, one per file:

- `Passenger` (`passenger.dfy`): the person as a value, with its setters as
  functional updates. It also holds the comma-terminated rendering of a list
  of names that both diagnostic printers produce.
- `FloorCall` (`floor_call.dfy`): the floor call as a class. Its waiting list
  is a mutable field of the call, because the engine boards people by
  removing them from the list the call holds, and whoever is left stays
  visible in the call. The list is a value of the call, not an object other
  calls could share (see "Left out").
- `Dispatch` (`dispatch.dfy`): the algorithm as values, together with
  `LetOff`, the one in-place drop-off pass that `CheckAndDropOff` runs,
  proved against `Remaining`. It defines:
  - `Remaining`, who stays aboard after stops at a range of floors;
  - `Boarding`, how many board;
  - `Ascend` and `Descend`, the two sweeps;
  - `ServeCall`, one call;
  - `Pending`, a whole queue.

  The lemmas here say what these values mean: capacity, conservation of
  people, where the sweeps end, the boundary policy and first-in first-out
  servicing.
- `ElevatorEngine` (`elevator.dfy`): the engine as a class with the source's
  fields and loops. `CheckAndDropOff`, `Board`, `SweepUp`, `SweepDown`,
  `ServiceOneCall` and `Drain` are proved to compute exactly the values the
  `Dispatch` functions give. `GoToFloor`, `Enqueue` and `SetPeopleWaiting`
  state their new state directly, and `PrintPeopleInside` returns the
  rendering defined in `Passenger`.

## Model

| member | source | states |
|---|---|---|
| Passenger.WithName | src/main/java/com/cmonts/elevator/model/Person.java:40-42 | the name becomes the given one; both floors are unchanged |
| Passenger.WithCurrentFloor | src/main/java/com/cmonts/elevator/model/Person.java:58-60 | the waiting floor becomes the given one; name and destination are unchanged |
| Passenger.WithDestinationFloor | src/main/java/com/cmonts/elevator/model/Person.java:76-78 | the destination becomes the given one; name and waiting floor are unchanged |
| Passenger.Render | src/main/java/com/cmonts/elevator/model/Floor.java:91-97 | the text is never shorter than the list and is empty exactly when the list is; RenderAppend, RenderCons and SplitRender give the rest of its meaning |
| Passenger.RenderAppend | src/main/java/com/cmonts/elevator/model/Floor.java:91-97 | the rendered text of a concatenation is the concatenation of the texts, so names appear in list order |
| Passenger.RenderCons | src/main/java/com/cmonts/elevator/model/Floor.java:93-95 | the text of a list starts with the first person's name followed by "," |
| Passenger.SplitRender | src/main/java/com/cmonts/elevator/model/Floor.java:91-97 | when no name contains a comma, cutting the text at its commas gives back exactly the names, in order |
| Passenger.RenderNames | src/main/java/com/cmonts/elevator/model/Floor.java:92-96 | the loop that appends each name and "," builds exactly the rendered text; an empty list gives "" |
| FloorCall.Floor.constructor | src/main/java/com/cmonts/elevator/model/Floor.java:26-30 | stores exactly the given waiting list, floor number and direction, with no check on the direction |
| FloorCall.Floor.SetPeopleWaiting | src/main/java/com/cmonts/elevator/model/Floor.java:46-48 | replaces the waiting list; floor number and direction are unchanged |
| FloorCall.Floor.SetFloorNumber | src/main/java/com/cmonts/elevator/model/Floor.java:64-66 | replaces the floor number; waiting list and direction are unchanged |
| FloorCall.Floor.SetDirection | src/main/java/com/cmonts/elevator/model/Floor.java:82-84 | stores any direction text as given; waiting list and floor number are unchanged |
| FloorCall.Floor.PrintPeopleWaiting | src/main/java/com/cmonts/elevator/model/Floor.java:91-97 | returns each waiting person's name followed by ",", in list order |
| Dispatch.Remaining | src/main/java/com/cmonts/elevator/Elevator.java:104-111 | the car never grows at a drop-off; who exactly stays is stated by RemainingCount and RemainingMember |
| Dispatch.RemainingCount | src/main/java/com/cmonts/elevator/Elevator.java:104-111 | after stops at lo..hi, every copy of a person headed there has left and everybody else stays with the same multiplicity |
| Dispatch.RemainingMember | src/main/java/com/cmonts/elevator/Elevator.java:104-111 | a person is still aboard if and only if they were aboard and are not headed for a floor where the car stopped |
| Dispatch.RemainingAppend | src/main/java/com/cmonts/elevator/Elevator.java:104-111 | those who stay keep their relative order: the drop-off filter distributes over concatenation |
| Dispatch.RemainingNone | src/main/java/com/cmonts/elevator/Elevator.java:76 | a sweep that stops at no floor drops nobody |
| Dispatch.RemainingNest | src/main/java/com/cmonts/elevator/Elevator.java:76-78 | two rounds of stops whose floors together make up lo..hi drop the same people as stops at lo..hi |
| Dispatch.LetOff | src/main/java/com/cmonts/elevator/Elevator.java:104-111 | the one pass that removes in place everyone headed for the floor leaves exactly the occupants that stay, in order |
| Dispatch.Boarding | src/main/java/com/cmonts/elevator/Elevator.java:67-69 | the number boarding never exceeds the number waiting; it fills the car at most to capacity; it stops short of the waiting list only when the car is full |
| Dispatch.BoardingUnique | src/main/java/com/cmonts/elevator/Elevator.java:67-69 | those three properties determine the number boarding |
| Dispatch.Ascend | src/main/java/com/cmonts/elevator/Elevator.java:74-79 | the upward sweep, floor by floor; no contract of its own: SweepUp is proved to compute it, and AscendClosedForm and AscendConserves state where it ends and who leaves |
| Dispatch.Descend | src/main/java/com/cmonts/elevator/Elevator.java:80-86 | the downward sweep, floor by floor; no contract of its own: SweepDown is proved to compute it, and DescendClosedForm and DescendConserves state where it ends and who leaves |
| Dispatch.AscendClosedForm | src/main/java/com/cmonts/elevator/Elevator.java:74-79 | the upward sweep ends between the start floor and max(start, maxFloors); exactly those headed for a floor it passed have left; it ends short of the top only when the car is empty, at the first such floor |
| Dispatch.DescendClosedForm | src/main/java/com/cmonts/elevator/Elevator.java:80-86 | the downward sweep ends between min(start, 0) and the start floor; exactly those headed for a floor it passed have left; it ends above floor 0 only when the car is empty, at the first such floor |
| Dispatch.AscendConserves | src/main/java/com/cmonts/elevator/Elevator.java:74-79 | going up, a person leaves the car exactly when their destination lies between the floor above the start and the floor where the sweep ended |
| Dispatch.DescendConserves | src/main/java/com/cmonts/elevator/Elevator.java:80-86 | going down, a person leaves the car exactly when their destination lies between the floor where the sweep ended and the floor below the start |
| Dispatch.AscendDropsExactly | src/main/java/com/cmonts/elevator/Elevator.java:74-79 | after the upward sweep an occupant is still aboard if and only if their destination is not a floor above the start up to maxFloors, so everyone headed for such a floor is let off there |
| Dispatch.DescendDropsExactly | src/main/java/com/cmonts/elevator/Elevator.java:80-86 | after the downward sweep an occupant is still aboard if and only if their destination is not a floor from 0 to just below the start |
| Dispatch.ServeCall | src/main/java/com/cmonts/elevator/Elevator.java:64-86 | one call: travel, boarding and the sweep in the call's direction; no contract of its own: ServiceOneCall is proved to compute it, and ServeCallCapacity, ServeCallConserves and BoundaryPolicy state what it keeps |
| Dispatch.ServeCallCapacity | src/main/java/com/cmonts/elevator/Elevator.java:63-86 | one call never leaves more people aboard than the larger of the previous load and the capacity |
| Dispatch.ServeCallConserves | src/main/java/com/cmonts/elevator/Elevator.java:63-86 | nobody is invented or duplicated: a person not headed for a visited floor is aboard or waiting exactly as often as before; one headed there is no longer aboard |
| Dispatch.BoundaryPolicy | src/main/java/com/cmonts/elevator/Elevator.java:67-86 | anybody aboard after boarding, whether aboard before the call or just boarded at it, stays aboard when headed at or below the call's floor on an "up" call, or at or above it on any other call |
| Dispatch.Serve1 | src/main/java/com/cmonts/elevator/Elevator.java:64-86 | after one queued call, the world records a waiting list for that call's floor object and for every floor object it already knew |
| Dispatch.Pending | src/main/java/com/cmonts/elevator/Elevator.java:63-87 | the world after a whole queue still records every floor object it knew and records every queued one; Drain is proved to compute it, and PendingConcat, PendingAppend and PendingCapacity state its order and capacity |
| Dispatch.PendingConcat | src/main/java/com/cmonts/elevator/Elevator.java:63-64 | servicing a queue in two parts is servicing the first part, then the second from the world the first left behind |
| Dispatch.PendingAppend | src/main/java/com/cmonts/elevator/Elevator.java:119-121 | first in, first out: a call appended at the tail is serviced after every call already queued, against the world they left behind |
| Dispatch.PendingCapacity | src/main/java/com/cmonts/elevator/Elevator.java:63-87 | a car within capacity stays within capacity over a whole queue |
| Dispatch.FirstDemoCall | src/main/java/com/cmonts/elevator/ElevatorApplication.java:31-40 | from floor 3 (10 floors, room for 5), an "up" call at floor 1 with Jim (to 7) and Mark (to 5) ends at floor 7 with the car empty and nobody left waiting |
| Dispatch.CapacityOneDownCall | src/main/java/com/cmonts/elevator/Elevator.java:67-86 | with room for one, only the first of two people boards at a "down" call; the other is still waiting; the car reaches floor 0 empty |
| ElevatorEngine.Elevator.constructor | src/main/java/com/cmonts/elevator/Elevator.java:30-34 | stores the start floor, the number of floors and the capacity; the car and the queue start empty |
| ElevatorEngine.Elevator.GoToFloor | src/main/java/com/cmonts/elevator/Elevator.java:41-54 | the car always ends at the requested floor, also when it was already there; occupants and queue are unchanged |
| ElevatorEngine.Elevator.CheckAndDropOff | src/main/java/com/cmonts/elevator/Elevator.java:102-112 | the car ends at the floor, and the occupants are exactly those who stay after a stop there (see RemainingMember and RemainingAppend); the queue is unchanged |
| ElevatorEngine.Elevator.Board | src/main/java/com/cmonts/elevator/Elevator.java:67-69 | exactly k = Boarding(...) people move from the front of the call's own waiting list to the back of the car, and the call keeps the rest |
| ElevatorEngine.Elevator.SweepUp | src/main/java/com/cmonts/elevator/Elevator.java:74-79 | the car ends where Ascend says, with the occupants Ascend gives; the queue is unchanged |
| ElevatorEngine.Elevator.SweepDown | src/main/java/com/cmonts/elevator/Elevator.java:80-86 | the car ends where Descend says, with the occupants Descend gives; the queue is unchanged |
| ElevatorEngine.Elevator.ServiceOneCall | src/main/java/com/cmonts/elevator/Elevator.java:64-86 | the head call leaves the queue; the car and that call's waiting list become what ServeCall gives; no other floor's list changes; capacity is kept |
| ElevatorEngine.Elevator.Drain | src/main/java/com/cmonts/elevator/Elevator.java:63-87 | the queue ends empty; the car and every queued floor object's waiting list end as Pending says, each call serviced once in arrival order; capacity is kept |
| ElevatorEngine.Elevator.Enqueue | src/main/java/com/cmonts/elevator/Elevator.java:119-121 | the call is appended at the tail; the car is unchanged |
| ElevatorEngine.Elevator.SetPeopleWaiting | src/main/java/com/cmonts/elevator/Elevator.java:155-157 | the parameter is assigned to itself, so no field of the engine changes, the queue included |
| ElevatorEngine.Elevator.PrintPeopleInside | src/main/java/com/cmonts/elevator/Elevator.java:200-206 | returns each occupant's name followed by ",", in boarding order |
| ElevatorEngine.FirstDemoCallDrained | src/main/java/com/cmonts/elevator/ElevatorApplication.java:31-40 | the demo's first call, enqueued on a new engine (floor 3, 10 floors, room for 5) and drained through the engine's methods, leaves the car at floor 7, empty, with nobody waiting at the call |

## Left out

- The outer `while (true)` loop of `run`, its idle one-second sleep and the
  `RuntimeException` on interruption (Elevator.java:61-94). The loop never
  terminates, except through that exception, so the model has the finite steps `ServiceOneCall` and `Drain`
  instead.
- The travel delay in `goToFloor` (Elevator.java:44-49). Time is not
  modelled. The floor is reached whether or not the wait was interrupted.
- All logging output. It is diagnostic only.
- Concurrency: the queue is a `ConcurrentLinkedDeque` shared with the
  thread that enqueues. The model is sequential and the queue is a `seq`.
- Java's 32-bit `int`: floor arithmetic (`currentFloor + 1`, `i++`, `i--`)
  is unbounded here, so wrap-around at the extremes of `int` is not modelled.
- Sharing of waiting lists. In the source a floor call stores the very list
  it was given (Floor.java:27) and hands it out (Floor.java:37-39), so
  boarding's `remove(0)` (Elevator.java:68) is also seen by whoever still
  holds that list, such as the demo that built it
  (ElevatorApplication.java:33-38), and by any other call built on the same
  list. Here each `Floor` holds its waiting list as a `seq` value. A
  removal is seen through that call only, and two calls never share a list.
- Dispatch.LetOff: the iterator removal over a `LinkedList` is modelled as
  index-based removal from a `seq`. The list's node structure is not
  modelled.
- Dispatch.Serve1: a floor object that the world does not yet record is
  taken to have nobody waiting. This never arises from `Drain`, which
  records every queued floor object before servicing.
- The raw accessors of the engine that hand out or replace its state:
  `getPeopleInside`, `setPeopleInside`, `getCalledQueue`, `getMaxFloors`,
  `setMaxFloors`, `getCurrentFloor` and `setCurrentFloor`
  (Elevator.java:128-193). `setPeopleInside` could break the capacity
  property. `maxFloors` is a constant of the model.
- The getters of `Person` and `Floor`. They become the fields of the datatype
  and of the class, read directly.
- The no-argument `Floor()` constructor (Floor.java:17). It leaves the
  waiting list and the direction `null` and the floor number 0, and the
  engine would fail on such a call.
- The Spring bootstrap, `ElevatorApplication.java` and
  `service/BuildingService.java`. These files are not part of this model.
  Only the demo's first call and its configuration (start at floor 3,
  10 floors, room for 5) appear, as `Dispatch.FirstDemoCall` and the client
  method `ElevatorEngine.FirstDemoCallDrained`.
- Null values. A null direction makes the source throw at
  Elevator.java:74. A null waiting list throws at Elevator.java:67 unless the
  car is already full. In that case the list is never read, and the call is
  serviced as if nobody waited, which is the model's empty list. The model
  has no null values.
