/**
  A pipe: a physical connection resource with a fixed diameter class, a
  length, and two status flags. The entity store keeps pipes by value, so a
  pipe is a datatype here and each setter is a record update. The class-wide
  id counter of the original becomes an explicit allocator object.
 */
module Pipes {
  import opened Text

  datatype Pipe = Pipe(
    id: int,
    name: string,
    length: real,      // km
    diameter: int,     // mm
    underRepair: bool,
    isConnected: bool)

  /** The default-constructed pipe: id 0, empty name, zero length and diameter. */
  const EmptyPipe := Pipe(0, "", 0.0, 0, false, false)

  /** The diameters a pipe may have, in mm. */
  const ValidDiameters: seq<int> := [500, 700, 1000, 1400]

  /** The diameter is one of the four allowed classes. */
  function IsValidDiameter(diameter: int): (valid: bool)
    ensures valid <==> diameter == 500 || diameter == 700 || diameter == 1000 || diameter == 1400
  {
    diameter in ValidDiameters
  }

  /** A pipe can back a new connection only when it is neither under repair
      nor already connected. */
  function IsAvailableForConnection(p: Pipe): (available: bool)
    ensures available ==> !p.isConnected
    ensures available ==> !p.underRepair
    ensures !p.isConnected && !p.underRepair ==> available
  {
    !p.underRepair && !p.isConnected
  }

  /** Case-insensitive name search: the empty query matches every pipe, any
      other query matches when its lower-case form occurs in the lower-case
      name. */
  function MatchesName(p: Pipe, searchName: string): (matches: bool)
    ensures searchName == [] ==> matches
    ensures matches <==> Contains(Lower(p.name), Lower(searchName))
  {
    if searchName == [] then
      assert OccursAt(Lower(p.name), Lower(searchName), 0);
      true
    else
      Find(Lower(p.name), Lower(searchName)) != -1
  }

  // Setters: each replaces exactly one field.

  function SetName(p: Pipe, name: string): (r: Pipe)
    ensures r.name == name && r.(name := p.name) == p
  {
    p.(name := name)
  }

  function SetLength(p: Pipe, length: real): (r: Pipe)
    ensures r.length == length && r.(length := p.length) == p
  {
    p.(length := length)
  }

  function SetDiameter(p: Pipe, diameter: int): (r: Pipe)
    ensures r.diameter == diameter && r.(diameter := p.diameter) == p
  {
    p.(diameter := diameter)
  }

  function SetUnderRepair(p: Pipe, status: bool): (r: Pipe)
    ensures r.underRepair == status && r.(underRepair := p.underRepair) == p
  {
    p.(underRepair := status)
  }

  function SetIsConnected(p: Pipe, connected: bool): (r: Pipe)
    ensures r.isConnected == connected && r.(isConnected := p.isConnected) == p
  {
    p.(isConnected := connected)
  }

  /** Marking a pipe connected takes it out of the available pool; marking it
      free puts it back exactly when it is not under repair. */
  lemma ConnectionFlagDecidesAvailability(p: Pipe)
    ensures !IsAvailableForConnection(SetIsConnected(p, true))
    ensures IsAvailableForConnection(SetIsConnected(p, false)) <==> !p.underRepair
    ensures SetIsConnected(SetIsConnected(p, true), p.isConnected) == p
  {
  }

  /** The class-wide id counter (`Pipe::nextId`), held as an explicit object. */
  class PipeIdAllocator {
    var nextId: int

    /** The counter starts at 1. */
    constructor ()
      ensures nextId == 1
    {
      nextId := 1;
    }

    /** `Pipe::resetId`. */
    method ResetId()
      modifies this
      ensures nextId == 1
    {
      nextId := 1;
    }

    /** The id assignment of `Pipe::input`: take the current value, then
        increment. */
    method TakeId() returns (id: int)
      modifies this
      ensures id == old(nextId) && nextId == id + 1
    {
      id := nextId;
      nextId := nextId + 1;
    }

    /** The constructor taking an explicit id: builds the pipe and moves the
        counter past that id, so ids handed out later never collide with it. */
    method NewPipe(id: int, name: string, length: real, diameter: int,
                   underRepair: bool, isConnected: bool) returns (p: Pipe)
      modifies this
      ensures p == Pipe(id, name, length, diameter, underRepair, isConnected)
      ensures nextId > id && nextId >= old(nextId)
      ensures nextId == if id >= old(nextId) then id + 1 else old(nextId)
    {
      p := Pipe(id, name, length, diameter, underRepair, isConnected);
      if id >= nextId {
        nextId := id + 1;
      }
    }
  }
}
