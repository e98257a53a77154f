/**
  A compressor station: an id, a name, a number of shops of which some are
  working, and a class. The graph only uses its id; the shop counters are
  bookkeeping. Stations are kept by value in the entity store, so the
  start/stop transitions of the edit dialogue are record updates.
 */
module CompressorStations {
  import opened Text

  datatype CompressorStation = CompressorStation(
    id: int,
    name: string,
    totalShops: int,
    workingShops: int,
    stationClass: int)

  /** The default-constructed station: everything zero or empty. */
  const EmptyStation := CompressorStation(0, "", 0, 0, 0)

  /** The range that station input establishes and the transitions keep. */
  predicate ShopsInRange(s: CompressorStation) {
    0 <= s.workingShops <= s.totalShops
  }

  /** Percentage of shops standing idle; 0 for a station with no shops. */
  function UnusedPercentage(s: CompressorStation): (r: real)
    ensures s.totalShops == 0 ==> r == 0.0
    ensures s.totalShops != 0 ==>
      r * (s.totalShops as real) == ((s.totalShops - s.workingShops) * 100) as real
  {
    if s.totalShops == 0 then 0.0
    else ((s.totalShops - s.workingShops) as real * 100.0) / (s.totalShops as real)
  }

  /** For a station whose counters are in range the idle share is a
      percentage, 0 when every shop works and 100 when none does. */
  lemma UnusedPercentageBounds(s: CompressorStation)
    requires ShopsInRange(s) && s.totalShops > 0
    ensures 0.0 <= UnusedPercentage(s) <= 100.0
    ensures UnusedPercentage(s) == 0.0 <==> s.workingShops == s.totalShops
    ensures UnusedPercentage(s) == 100.0 <==> s.workingShops == 0
  {
    var t := s.totalShops as real;
    var idle := (s.totalShops - s.workingShops) as real;
    var r := UnusedPercentage(s);
    assert r * t == idle * 100.0;
    assert 0.0 <= idle <= t;
    if r == 100.0 {
      assert idle == t;
    }
  }

  /** The three answers of the station edit dialogue. */
  datatype ShopCommand = StartShop | StopShop | Cancel

  /** The effect of the edit dialogue once a valid choice has been read:
      starting a shop needs an idle one, stopping a shop needs a working one,
      and only the working-shop counter ever changes. */
  function ApplyShopCommand(s: CompressorStation, command: ShopCommand): (r: CompressorStation)
    ensures r.(workingShops := s.workingShops) == s
    ensures command == StartShop && s.workingShops < s.totalShops ==> r.workingShops == s.workingShops + 1
    ensures command == StopShop && s.workingShops > 0 ==> r.workingShops == s.workingShops - 1
    ensures command == StartShop && s.workingShops >= s.totalShops ==> r == s
    ensures command == StopShop && s.workingShops <= 0 ==> r == s
    ensures command == Cancel ==> r == s
    ensures ShopsInRange(s) ==> ShopsInRange(r)
  {
    match command
    case StartShop =>
      if s.workingShops < s.totalShops then s.(workingShops := s.workingShops + 1) else s
    case StopShop =>
      if s.workingShops > 0 then s.(workingShops := s.workingShops - 1) else s
    case Cancel => s
  }

  /** Starting a shop and then stopping one returns to the original station
      whenever a shop was idle. */
  lemma StartThenStopRestores(s: CompressorStation)
    requires s.workingShops < s.totalShops && s.workingShops >= 0
    ensures ApplyShopCommand(ApplyShopCommand(s, StartShop), StopShop) == s
  {
  }

  /** Case-sensitive name search (unlike the pipe search, no case folding and
      the empty query is not special-cased: it matches because "" occurs
      everywhere). */
  function MatchesName(s: CompressorStation, searchName: string): (matches: bool)
    ensures matches <==> Contains(s.name, searchName)
  {
    Find(s.name, searchName) != -1
  }

  /** Case matters for stations: an upper-case query does not find a
      lower-case name, while the pipe search would. */
  lemma StationSearchIsCaseSensitive()
    ensures !MatchesName(CompressorStation(1, "north", 1, 0, 1), "N")
    ensures MatchesName(CompressorStation(1, "north", 1, 0, 1), "")
  {
    var s := CompressorStation(1, "north", 1, 0, 1);
    forall i: nat
      ensures !OccursAt(s.name, "N", i)
    {
      if i < |s.name| {
        assert s.name[i] != 'N';
      }
    }
    assert OccursAt(s.name, "", 0);
  }
}
