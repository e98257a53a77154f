/**
  The entity store: two hash maps from id to pipe and from id to compressor
  station. Lookups are pure, the filters walk the map and collect matching
  ids in the map's (unspecified) iteration order, and the delete and mark
  operations update the maps in place. Logging to the journal file is not
  part of this model.
 */
module PipelineNetworks {
  import opened Wrappers
  import opened Ordered
  import opened Pipes
  import opened CompressorStations

  class PipelineNetwork {
    var pipes: map<int, Pipe>
    var stations: map<int, CompressorStation>

    /** An empty store. */
    constructor ()
      ensures pipes == map[] && stations == map[]
    {
      pipes := map[];
      stations := map[];
    }

    /** Stores a pipe under its own id, replacing any pipe with that id. */
    method AddPipe(p: Pipe)
      modifies this
      ensures pipes == old(pipes)[p.id := p] && stations == old(stations)
    {
      pipes := pipes[p.id := p];
    }

    /** Stores a station under its own id, replacing any station with that id. */
    method AddStation(s: CompressorStation)
      modifies this
      ensures stations == old(stations)[s.id := s] && pipes == old(pipes)
    {
      stations := stations[s.id := s];
    }

    function PipeExists(id: int): (exists_: bool)
      reads this
      ensures exists_ <==> id in pipes
    {
      id in pipes
    }

    function StationExists(id: int): (exists_: bool)
      reads this
      ensures exists_ <==> id in stations
    {
      id in stations
    }

    /** The stored pipe, or None (the null result) for an unknown id. */
    function GetPipeById(id: int): (r: Option<Pipe>)
      reads this
      ensures r.Some? <==> id in pipes
      ensures r.Some? ==> r.value == pipes[id]
    {
      if id in pipes then Some(pipes[id]) else None
    }

    /** The stored station, or None (the null result) for an unknown id. */
    function GetStationById(id: int): (r: Option<CompressorStation>)
      reads this
      ensures r.Some? <==> id in stations
      ensures r.Some? ==> r.value == stations[id]
    {
      if id in stations then Some(stations[id]) else None
    }

    /** Sets the connected flag of one pipe; an unknown id changes nothing. */
    method MarkPipeAsConnected(pipeId: int, connected: bool)
      modifies this
      ensures stations == old(stations)
      ensures pipeId in old(pipes) ==>
        pipes == old(pipes)[pipeId := SetIsConnected(old(pipes)[pipeId], connected)]
      ensures pipeId !in old(pipes) ==> pipes == old(pipes)
    {
      if pipeId in pipes {
        pipes := pipes[pipeId := SetIsConnected(pipes[pipeId], connected)];
      }
    }

    /** Erases one pipe; other pipes, and the stations, are untouched. */
    method DeletePipe(id: int)
      modifies this
      ensures pipes == old(pipes) - {id} && stations == old(stations)
    {
      pipes := pipes - {id};
    }

    /** Erases one station; other stations, and the pipes, are untouched. */
    method DeleteStation(id: int)
      modifies this
      ensures stations == old(stations) - {id} && pipes == old(pipes)
    {
      stations := stations - {id};
    }

    /** The start/stop-shop transition of the station edit dialogue, applied
        to the stored station; an unknown id changes nothing. */
    method EditStation(id: int, command: ShopCommand)
      modifies this
      ensures pipes == old(pipes)
      ensures id in old(stations) ==>
        stations == old(stations)[id := ApplyShopCommand(old(stations)[id], command)]
      ensures id !in old(stations) ==> stations == old(stations)
    {
      if id in stations {
        stations := stations[id := ApplyShopCommand(stations[id], command)];
      }
    }

    /** The shared loop of the pipe searches: visits every stored pipe once,
        in no particular order, and collects the ids of those that pass. */
    method FilterPipeIds(keep: Pipe -> bool) returns (ids: seq<int>)
      ensures Distinct(ids)
      ensures forall id :: id in ids <==> id in pipes && keep(pipes[id])
    {
      ids := [];
      var rest := pipes.Keys;
      while rest != {}
        invariant rest <= pipes.Keys
        invariant Distinct(ids)
        invariant forall id :: id in ids <==> id in pipes && id !in rest && keep(pipes[id])
        decreases rest
      {
        if forall x :: x !in rest {
          assert false;
        }
        var id :| id in rest;
        if keep(pipes[id]) {
          ids := ids + [id];
        }
        rest := rest - {id};
      }
    }

    /** The shared loop of the station searches. */
    method FilterStationIds(keep: CompressorStation -> bool) returns (ids: seq<int>)
      ensures Distinct(ids)
      ensures forall id :: id in ids <==> id in stations && keep(stations[id])
    {
      ids := [];
      var rest := stations.Keys;
      while rest != {}
        invariant rest <= stations.Keys
        invariant Distinct(ids)
        invariant forall id :: id in ids <==> id in stations && id !in rest && keep(stations[id])
        decreases rest
      {
        if forall x :: x !in rest {
          assert false;
        }
        var id :| id in rest;
        if keep(stations[id]) {
          ids := ids + [id];
        }
        rest := rest - {id};
      }
    }

    method FindPipesByName(name: string) returns (ids: seq<int>)
      ensures Distinct(ids)
      ensures forall id :: id in ids <==> id in pipes && Pipes.MatchesName(pipes[id], name)
    {
      ids := FilterPipeIds((p: Pipe) => Pipes.MatchesName(p, name));
    }

    method FindPipesByRepairStatus(status: bool) returns (ids: seq<int>)
      ensures Distinct(ids)
      ensures forall id :: id in ids <==> id in pipes && pipes[id].underRepair == status
    {
      ids := FilterPipeIds((p: Pipe) => p.underRepair == status);
    }

    method FindPipesByDiameter(diameter: int) returns (ids: seq<int>)
      ensures Distinct(ids)
      ensures forall id :: id in ids <==> id in pipes && pipes[id].diameter == diameter
    {
      ids := FilterPipeIds((p: Pipe) => p.diameter == diameter);
    }

    method FindPipesByAvailability(available: bool) returns (ids: seq<int>)
      ensures Distinct(ids)
      ensures forall id :: id in ids <==> id in pipes && IsAvailableForConnection(pipes[id]) == available
    {
      ids := FilterPipeIds((p: Pipe) => IsAvailableForConnection(p) == available);
    }

    method FindStationsByName(name: string) returns (ids: seq<int>)
      ensures Distinct(ids)
      ensures forall id :: id in ids <==> id in stations && CompressorStations.MatchesName(stations[id], name)
    {
      ids := FilterStationIds((s: CompressorStation) => CompressorStations.MatchesName(s, name));
    }

    method FindStationsByUnusedPercentage(percentage: real) returns (ids: seq<int>)
      ensures Distinct(ids)
      ensures forall id :: id in ids <==> id in stations && UnusedPercentage(stations[id]) >= percentage
    {
      ids := FilterStationIds((s: CompressorStation) => UnusedPercentage(s) >= percentage);
    }

    /** The ids of the pipes a connection of diameter `diameter` could use. */
    ghost function AvailableIds(diameter: int): set<int>
      reads this
    {
      set id | id in pipes && pipes[id].diameter == diameter && IsAvailableForConnection(pipes[id])
    }

    /** A duplicate-free listing of a set is as long as the set is large. */
    static lemma CountMatches(ids: seq<int>, s: set<int>)
      requires Distinct(ids)
      requires forall id :: id in ids <==> id in s
      ensures |ids| == |s|
    {
      DistinctCard(ids);
      assert s == set x | x in ids by {
        forall x | x in s
          ensures x in set y | y in ids
        {
        }
      }
    }

    /** Copies of the stored pipes that have the requested diameter and are
        free for a new connection, one per stored pipe. */
    method GetAvailablePipesByDiameter(diameter: int) returns (r: seq<Pipe>)
      ensures forall p :: p in r ==> p in pipes.Values && p.diameter == diameter && IsAvailableForConnection(p)
      ensures forall id :: id in pipes && pipes[id].diameter == diameter && IsAvailableForConnection(pipes[id])
                ==> pipes[id] in r
      ensures |r| == |AvailableIds(diameter)|
    {
      var ids := FilterPipeIds((p: Pipe) => p.diameter == diameter && IsAvailableForConnection(p));
      forall j | 0 <= j < |ids|
        ensures ids[j] in pipes
      {
        var id := ids[j];
        assert id in ids;
      }
      r := [];
      for k := 0 to |ids|
        invariant |r| == k
        invariant forall j :: 0 <= j < |ids| ==> ids[j] in pipes
        invariant forall j :: 0 <= j < k ==> r[j] == pipes[ids[j]]
      {
        r := r + [pipes[ids[k]]];
      }
      CountMatches(ids, AvailableIds(diameter));
      forall p | p in r
        ensures p in pipes.Values
      {
        var j :| 0 <= j < |r| && r[j] == p;
        assert pipes[ids[j]] == p;
      }
      forall id | id in pipes && pipes[id].diameter == diameter && IsAvailableForConnection(pipes[id])
        ensures pipes[id] in r
      {
        var j :| 0 <= j < |ids| && ids[j] == id;
        assert r[j] == pipes[id];
      }
    }
  }
}
