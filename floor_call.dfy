/**
 * A floor call: the people waiting at a floor, the floor's number and the
 * direction they asked for. The waiting list is state of the call object:
 * the engine boards people by removing them from it, and what is left stays
 * visible in the call afterwards.
 */
module FloorCall {
  import opened Passenger

  class Floor {
    var peopleWaiting: seq<Person>
    var floorNumber: int
    /** Not validated: any text is stored; the engine treats all but "up" as down. */
    var direction: string

    constructor (peopleWaiting: seq<Person>, floorNumber: int, direction: string)
      ensures this.peopleWaiting == peopleWaiting
      ensures this.floorNumber == floorNumber
      ensures this.direction == direction
    {
      this.peopleWaiting := peopleWaiting;
      this.floorNumber := floorNumber;
      this.direction := direction;
    }

    method SetPeopleWaiting(peopleWaiting: seq<Person>)
      modifies this`peopleWaiting
      ensures this.peopleWaiting == peopleWaiting
      ensures floorNumber == old(floorNumber) && direction == old(direction)
    {
      this.peopleWaiting := peopleWaiting;
    }

    method SetFloorNumber(floorNumber: int)
      modifies this`floorNumber
      ensures this.floorNumber == floorNumber
      ensures peopleWaiting == old(peopleWaiting) && direction == old(direction)
    {
      this.floorNumber := floorNumber;
    }

    method SetDirection(direction: string)
      modifies this`direction
      ensures this.direction == direction
      ensures peopleWaiting == old(peopleWaiting) && floorNumber == old(floorNumber)
    {
      this.direction := direction;
    }

    /** Each waiting person's name followed by ",", in list order; "" when nobody waits. */
    method PrintPeopleWaiting() returns (s: string)
      ensures s == Render(peopleWaiting)
    {
      s := RenderNames(peopleWaiting);
    }
  }
}
