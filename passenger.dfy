/**
 * A passenger of the elevator: a name, the floor where the person waits and
 * the floor the person wants to reach. The dispatch engine only reads these
 * values, so a person is a value; each setter of the record becomes a
 * function returning the updated person.
 *
 * This module also holds the diagnostic rendering of a list of people
 * (each name followed by a comma), which both the floor call and the car use.
 */
module Passenger {

  datatype Person = Person(name: string, currentFloor: int, destinationFloor: int)

  /** Renames a person; the two floors are kept. */
  function WithName(p: Person, name: string): (r: Person)
    ensures r.name == name
    ensures r.currentFloor == p.currentFloor && r.destinationFloor == p.destinationFloor
  {
    p.(name := name)
  }

  /** Moves the person's waiting floor; name and destination are kept. */
  function WithCurrentFloor(p: Person, currentFloor: int): (r: Person)
    ensures r.currentFloor == currentFloor
    ensures r.name == p.name && r.destinationFloor == p.destinationFloor
  {
    p.(currentFloor := currentFloor)
  }

  /** Changes the person's destination; name and waiting floor are kept. */
  function WithDestinationFloor(p: Person, destinationFloor: int): (r: Person)
    ensures r.destinationFloor == destinationFloor
    ensures r.name == p.name && r.currentFloor == p.currentFloor
  {
    p.(destinationFloor := destinationFloor)
  }

  /** The names of the people, in list order. */
  function Names(ps: seq<Person>): (r: seq<string>)
    ensures |r| == |ps|
    ensures forall i :: 0 <= i < |ps| ==> r[i] == ps[i].name
  {
    if ps == [] then [] else [ps[0].name] + Names(ps[1..])
  }

  /** The diagnostic text for a list of people: every name followed by ",". */
  function Render(ps: seq<Person>): (r: string)
    ensures |r| >= |ps|
    ensures r == "" <==> ps == []
  {
    if ps == [] then "" else Render(ps[..|ps| - 1]) + ps[|ps| - 1].name + ","
  }

  /** Rendering distributes over concatenation: the text keeps list order. */
  lemma {:induction false} RenderAppend(a: seq<Person>, b: seq<Person>)
    ensures Render(a + b) == Render(a) + Render(b)
    decreases |b|
  {
    if b == [] {
      assert a + b == a;
    } else {
      var b' := b[..|b| - 1];
      assert (a + b)[..|a + b| - 1] == a + b';
      RenderAppend(a, b');
    }
  }

  lemma RenderCons(p: Person, ps: seq<Person>)
    ensures Render([p] + ps) == p.name + "," + Render(ps)
  {
    RenderAppend([p], ps);
    assert [p][..0] == [];
  }

  /** Position of the first occurrence of c in s, or |s| when there is none. */
  function IndexOf(s: string, c: char): (k: nat)
    ensures k <= |s|
    ensures forall i :: 0 <= i < k ==> s[i] != c
    ensures k < |s| ==> s[k] == c
  {
    if s == [] then 0 else if s[0] == c then 0 else 1 + IndexOf(s[1..], c)
  }

  /** Reads back a text made of comma-terminated fields. */
  function SplitFields(s: string): seq<string>
    decreases |s|
  {
    if s == [] then []
    else
      var k := IndexOf(s, ',');
      if k == |s| then [s] else [s[..k]] + SplitFields(s[k + 1..])
  }

  /** When no name contains a comma, the rendered text gives back exactly the names, in order. */
  lemma {:induction false} SplitRender(ps: seq<Person>)
    requires forall p :: p in ps ==> ',' !in p.name
    ensures SplitFields(Render(ps)) == Names(ps)
  {
    if ps != [] {
      var p, rest := ps[0], ps[1..];
      assert ps == [p] + rest;
      RenderCons(p, rest);
      var s := p.name + "," + Render(rest);
      assert s[|p.name|] == ',';
      var k := IndexOf(s, ',');
      assert k == |p.name|;
      assert s[..k] == p.name;
      assert s[k + 1..] == Render(rest);
      SplitRender(rest);
    }
  }

  /** Builds the diagnostic text name by name, as the source's loops do. */
  method RenderNames(ps: seq<Person>) returns (s: string)
    ensures s == Render(ps)
  {
    s := "";
    var i := 0;
    while i < |ps|
      invariant 0 <= i <= |ps|
      invariant s == Render(ps[..i])
    {
      assert ps[..i + 1][..i] == ps[..i];
      s := s + ps[i].name + ",";
      i := i + 1;
    }
    assert ps[..|ps|] == ps;
  }
}
