/** The read side of the real-data loader: the typed getters over the loaded
    JSON document, the join of units with their residents, the statistics
    recomputed from that join, and the unit search over the joined list. */
module RealData {
  import opened Values
  import opened Seqs
  import Units

  /** The loaded document: five record lists and a statistics object. */
  datatype Data = Data(
    stickers: seq<Fields>,
    buildings: seq<Fields>,
    residents: seq<Fields>,
    units: seq<Fields>,
    parking: seq<Fields>,
    statistics: Fields)

  /** The loader's state: whether loading finished, and the document if any. */
  datatype Loader = Loader(loaded: bool, data: Option<Data>)

  /** A fresh loader: nothing loaded yet. */
  function NewLoader(): (l: Loader)
    ensures !Ready(l)
  {
    Loader(false, None)
  }

  /** Every getter first checks `loaded` and the document. */
  predicate Ready(l: Loader)
  {
    l.loaded && l.data.Some?
  }

  function FieldEquals(field: string, wanted: Option<Value>): Fields -> bool
  {
    x => Get(x, field) == wanted
  }

  /** An optional filter argument: a falsy one returns the list itself, a truthy
      one keeps, in order, exactly the records whose field is strictly equal to it. */
  function SelectBy(records: seq<Fields>, field: string, wanted: Option<Value>): (r: seq<Fields>)
    ensures !Truthy(wanted) ==> r == records
    ensures IsSubseq(r, records)
    ensures forall i :: 0 <= i < |r| ==> Truthy(wanted) ==> Get(r[i], field) == wanted
    ensures forall i :: 0 <= i < |records| && Get(records[i], field) == wanted ==> records[i] in r
    ensures Truthy(wanted) ==> |r| + |Filter(records, Not(FieldEquals(field, wanted)))| == |records|
  {
    SubseqRefl(records);
    FilterSplit(records, FieldEquals(field, wanted));
    if Truthy(wanted) then Filter(records, FieldEquals(field, wanted)) else records
  }

  /** Selecting twice by the same value selects nothing more. */
  lemma SelectByIdempotent(records: seq<Fields>, field: string, wanted: Option<Value>)
    ensures SelectBy(SelectBy(records, field, wanted), field, wanted) == SelectBy(records, field, wanted)
  {
    if Truthy(wanted) {
      var once := SelectBy(records, field, wanted);
      FilterAll(once, FieldEquals(field, wanted));
    }
  }

  /** getStickers: by `status`, or all of them. */
  function GetStickers(l: Loader, status: Option<Value>): (r: seq<Fields>)
    ensures !Ready(l) ==> r == []
    ensures Ready(l) ==> IsSubseq(r, l.data.value.stickers)
    ensures Ready(l) && Truthy(status) ==> forall i :: 0 <= i < |r| ==> Get(r[i], "status") == status
    ensures Ready(l) ==> forall i :: 0 <= i < |l.data.value.stickers| && Get(l.data.value.stickers[i], "status") == status ==>
              l.data.value.stickers[i] in r
    ensures Ready(l) && !Truthy(status) ==> r == l.data.value.stickers
    ensures Ready(l) && Truthy(status) ==>
              |r| + |Filter(l.data.value.stickers, Not(FieldEquals("status", status)))| == |l.data.value.stickers|
  {
    if !Ready(l) then [] else SelectBy(l.data.value.stickers, "status", status)
  }

  /** getBuildings: by `type`, or all of them. */
  function GetBuildings(l: Loader, buildingType: Option<Value>): (r: seq<Fields>)
    ensures !Ready(l) ==> r == []
    ensures Ready(l) ==> IsSubseq(r, l.data.value.buildings)
    ensures Ready(l) && Truthy(buildingType) ==> forall i :: 0 <= i < |r| ==> Get(r[i], "type") == buildingType
    ensures Ready(l) ==> forall i :: 0 <= i < |l.data.value.buildings| && Get(l.data.value.buildings[i], "type") == buildingType ==>
              l.data.value.buildings[i] in r
    ensures Ready(l) && !Truthy(buildingType) ==> r == l.data.value.buildings
    ensures Ready(l) && Truthy(buildingType) ==>
              |r| + |Filter(l.data.value.buildings, Not(FieldEquals("type", buildingType)))| == |l.data.value.buildings|
  {
    if !Ready(l) then [] else SelectBy(l.data.value.buildings, "type", buildingType)
  }

  /** getUnits: by `building_category`, or all of them. */
  function GetUnits(l: Loader, category: Option<Value>): (r: seq<Fields>)
    ensures !Ready(l) ==> r == []
    ensures Ready(l) ==> IsSubseq(r, l.data.value.units)
    ensures Ready(l) && Truthy(category) ==> forall i :: 0 <= i < |r| ==> Get(r[i], "building_category") == category
    ensures Ready(l) ==> forall i :: 0 <= i < |l.data.value.units| && Get(l.data.value.units[i], "building_category") == category ==>
              l.data.value.units[i] in r
    ensures Ready(l) && !Truthy(category) ==> r == l.data.value.units
    ensures Ready(l) && Truthy(category) ==>
              |r| + |Filter(l.data.value.units, Not(FieldEquals("building_category", category)))| == |l.data.value.units|
  {
    if !Ready(l) then [] else SelectBy(l.data.value.units, "building_category", category)
  }

  function GetResidents(l: Loader): seq<Fields>
  {
    if !Ready(l) then [] else l.data.value.residents
  }

  function GetParking(l: Loader): seq<Fields>
  {
    if !Ready(l) then [] else l.data.value.parking
  }

  /** Without the optional argument (`null`) each getter hands back the loaded list as it is. */
  lemma DefaultArgumentsReturnAll(l: Loader, d: Data)
    requires l == Loader(true, Some(d))
    ensures GetStickers(l, Some(Null)) == d.stickers && GetStickers(l, None) == d.stickers
    ensures GetBuildings(l, Some(Null)) == d.buildings
    ensures GetUnits(l, Some(Null)) == d.units
    ensures GetResidents(l) == d.residents && GetParking(l) == d.parking
  {
  }

  /** The resident record a unit is joined with: same building (the resident's
      `building_type`) and same unit number, compared strictly. */
  function Matches(unit: Fields): Fields -> bool
  {
    r => Get(r, "building_type") == Get(unit, "building_number") && Get(r, "unit_number") == Get(unit, "unit_number")
  }

  /** `residents.find(...)`. */
  function FindResident(unit: Fields, residents: seq<Fields>): (r: Option<Fields>)
    ensures r.None? <==> forall j :: 0 <= j < |residents| ==> !Matches(unit)(residents[j])
    ensures r.Some? ==>
              exists j :: 0 <= j < |residents| && residents[j] == r.value &&
                Matches(unit)(residents[j]) && forall k :: 0 <= k < j ==> !Matches(unit)(residents[k])
  {
    match FirstMatch(residents, Matches(unit))
    case None => None
    case Some(j) => Some(residents[j])
  }

  /** The six fields the join writes over the unit's own. */
  const JoinKeys: set<string> :=
    {"is_occupied", "occupancy_status", "resident_name", "resident_phone", "parking_number", "parking_area"}

  /** The unit's fields with the six join fields written over them, from the
      resident when one was found and null otherwise. */
  function Overlay(unit: Fields, found: bool, resident: Fields): (r: Fields)
    ensures Get(r, "is_occupied") == Some(Bool(found))
    ensures Get(r, "occupancy_status") == Some(Str(if found then Units.OccupiedStatus else Units.VacantStatus))
    ensures found ==>
              Get(r, "resident_name") == Get(resident, "name") && Get(r, "resident_phone") == Get(resident, "phone") &&
              Get(r, "parking_number") == Get(resident, "parking_number") &&
              Get(r, "parking_area") == Get(resident, "parking_area")
    ensures !found ==>
              Get(r, "resident_name") == Some(Null) && Get(r, "resident_phone") == Some(Null) &&
              Get(r, "parking_number") == Some(Null) && Get(r, "parking_area") == Some(Null)
    ensures forall k :: k !in JoinKeys ==> Get(r, k) == Get(unit, k)
  {
    var pick := (k: string) => if found then Get(resident, k) else Some(Null);
    var r1 := Put(unit, "is_occupied", Some(Bool(found)));
    var r2 := Put(r1, "occupancy_status", Some(Str(if found then Units.OccupiedStatus else Units.VacantStatus)));
    var r3 := Put(r2, "resident_name", pick("name"));
    var r4 := Put(r3, "resident_phone", pick("phone"));
    var r5 := Put(r4, "parking_number", pick("parking_number"));
    Put(r5, "parking_area", pick("parking_area"))
  }

  /** `{...unit, is_occupied: !!resident, …}`: a found resident's name, phone and
      parking (undefined when the resident lacks them), null for each otherwise. */
  function Joined(unit: Fields, residents: seq<Fields>): (r: Fields)
    ensures var found := exists j :: 0 <= j < |residents| && Matches(unit)(residents[j]);
      Get(r, "is_occupied") == Some(Bool(found)) &&
      Get(r, "occupancy_status") == Some(Str(if found then Units.OccupiedStatus else Units.VacantStatus))
    ensures (forall j :: 0 <= j < |residents| ==> !Matches(unit)(residents[j])) ==>
      Get(r, "resident_name") == Some(Null) && Get(r, "resident_phone") == Some(Null) &&
      Get(r, "parking_number") == Some(Null) && Get(r, "parking_area") == Some(Null)
    ensures (exists j :: 0 <= j < |residents| && Matches(unit)(residents[j])) ==>
      exists j :: 0 <= j < |residents| && Matches(unit)(residents[j]) &&
        (forall k :: 0 <= k < j ==> !Matches(unit)(residents[k])) &&
        Get(r, "resident_name") == Get(residents[j], "name") &&
        Get(r, "resident_phone") == Get(residents[j], "phone") &&
        Get(r, "parking_number") == Get(residents[j], "parking_number") &&
        Get(r, "parking_area") == Get(residents[j], "parking_area")
    ensures forall k :: k !in JoinKeys ==> Get(r, k) == Get(unit, k)
  {
    var resident := FindResident(unit, residents);
    Overlay(unit, resident.Some?, if resident.Some? then resident.value else map[])
  }

  /** getUnitsWithResidents: one joined record per unit, in the units' order. */
  function GetUnitsWithResidents(l: Loader): (r: seq<Fields>)
    ensures !Ready(l) ==> r == []
    ensures Ready(l) ==> |r| == |l.data.value.units|
    ensures Ready(l) ==> forall i :: 0 <= i < |r| ==> r[i] == Joined(l.data.value.units[i], l.data.value.residents)
  {
    if !Ready(l) then []
    else
      var d := l.data.value;
      seq(|d.units|, i requires 0 <= i < |d.units| => Joined(d.units[i], d.residents))
  }

  /** A unit has a resident in the document. */
  function Housed(residents: seq<Fields>): Fields -> bool
  {
    u => exists j :: 0 <= j < |residents| && Matches(u)(residents[j])
  }

  /** The joined list marks occupied exactly the units some resident matches. */
  lemma JoinedOccupancy(l: Loader, i: int)
    requires Ready(l) && 0 <= i < |l.data.value.units|
    ensures var u := l.data.value.units[i];
      Units.IsOccupied(GetUnitsWithResidents(l)[i]) <==> Housed(l.data.value.residents)(u)
  {
  }

  predicate IsOldBuilding(u: Fields)
  {
    Get(u, "building_category") == Some(Str(Units.OldCategory))
  }

  /** A numeric field of a statistics object. */
  function CountIn(f: Fields, k: string): Option<int>
  {
    match Get(f, k)
    case Some(Num(n)) => Some(n)
    case _ => None
  }

  /** The five counts getStatistics recomputes. */
  const StatisticsKeys: set<string> :=
    {"occupied_units", "vacant_units", "villas_count", "new_buildings_units", "old_buildings_units"}

  /** `{...statistics, occupied_units: …, …}`. */
  function WithCounts(statistics: Fields, occupied: int, vacant: int, villas: int, newer: int, older: int): (r: Fields)
    ensures forall k :: k !in StatisticsKeys ==> Get(r, k) == Get(statistics, k)
    ensures CountIn(r, "occupied_units") == Some(occupied) && CountIn(r, "vacant_units") == Some(vacant)
    ensures CountIn(r, "villas_count") == Some(villas)
    ensures CountIn(r, "new_buildings_units") == Some(newer) && CountIn(r, "old_buildings_units") == Some(older)
  {
    statistics
      ["occupied_units" := Num(occupied)]
      ["vacant_units" := Num(vacant)]
      ["villas_count" := Num(villas)]
      ["new_buildings_units" := Num(newer)]
      ["old_buildings_units" := Num(older)]
  }

  /** The stored statistics with the five counts taken over a list of units: every
      unit counted once as occupied or vacant, old and new buildings apart, every
      other key as stored. */
  function Tally(units: seq<Fields>, statistics: Fields): (r: Fields)
    ensures forall k :: k !in StatisticsKeys ==> Get(r, k) == Get(statistics, k)
    ensures CountIn(r, "occupied_units") == Some(|Filter(units, Units.IsOccupied)|)
    ensures CountIn(r, "vacant_units").Some? && CountIn(r, "occupied_units").value + CountIn(r, "vacant_units").value == |units|
    ensures CountIn(r, "villas_count") == Some(|Filter(units, Units.IsVilla)|)
    ensures CountIn(r, "new_buildings_units") == Some(|Filter(units, Units.InNewBuilding)|)
    ensures CountIn(r, "old_buildings_units") == Some(|Filter(units, IsOldBuilding)|)
  {
    FilterComplement(units, Units.IsOccupied, Units.IsVacant);
    WithCounts(statistics, |Filter(units, Units.IsOccupied)|, |Filter(units, Units.IsVacant)|,
               |Filter(units, Units.IsVilla)|, |Filter(units, Units.InNewBuilding)|, |Filter(units, IsOldBuilding)|)
  }

  /** Old and new buildings are counted apart: together never more than all units. */
  lemma TallyBuildingsApart(units: seq<Fields>, statistics: Fields)
    ensures var r := Tally(units, statistics);
      CountIn(r, "old_buildings_units").Some? && CountIn(r, "new_buildings_units").Some? &&
      CountIn(r, "old_buildings_units").value + CountIn(r, "new_buildings_units").value <= |units|
  {
    var all := (u: Fields) => true;
    FilterDisjointWithin(units, IsOldBuilding, Units.InNewBuilding, all);
    FilterAll(units, all);
  }

  /** getStatistics: the stored statistics object with the counts recomputed from
      the joined units; `{}` before loading. */
  function GetStatistics(l: Loader): (r: Fields)
    ensures !Ready(l) ==> r == map[]
    ensures Ready(l) ==> forall k :: k !in StatisticsKeys ==> Get(r, k) == Get(l.data.value.statistics, k)
    ensures Ready(l) ==>
              CountIn(r, "occupied_units").Some? && CountIn(r, "vacant_units").Some? &&
              CountIn(r, "occupied_units").value + CountIn(r, "vacant_units").value == |l.data.value.units|
    ensures Ready(l) ==>
              CountIn(r, "old_buildings_units").Some? && CountIn(r, "new_buildings_units").Some? &&
              CountIn(r, "old_buildings_units").value + CountIn(r, "new_buildings_units").value <= |l.data.value.units|
    ensures Ready(l) ==>
              CountIn(r, "villas_count") == Some(|Filter(l.data.value.units, Units.IsVilla)|) &&
              CountIn(r, "new_buildings_units") == Some(|Filter(l.data.value.units, Units.InNewBuilding)|) &&
              CountIn(r, "old_buildings_units") == Some(|Filter(l.data.value.units, IsOldBuilding)|)
  {
    if !Ready(l) then map[]
    else
      TallyBuildingsApart(GetUnitsWithResidents(l), l.data.value.statistics);
      JoinKeepsKinds(l);
      Tally(GetUnitsWithResidents(l), l.data.value.statistics)
  }

  /** The join leaves `unit_type` and `building_category` alone, so the villa and
      building counts over the joined list are those over the loaded units. */
  lemma JoinKeepsKinds(l: Loader)
    requires Ready(l)
    ensures var (joined, units) := (GetUnitsWithResidents(l), l.data.value.units);
            |Filter(joined, Units.IsVilla)| == |Filter(units, Units.IsVilla)| &&
            |Filter(joined, Units.InNewBuilding)| == |Filter(units, Units.InNewBuilding)| &&
            |Filter(joined, IsOldBuilding)| == |Filter(units, IsOldBuilding)|
  {
    var joined := GetUnitsWithResidents(l);
    var units := l.data.value.units;
    forall i | 0 <= i < |joined|
      ensures Get(joined[i], "unit_type") == Get(units[i], "unit_type")
      ensures Get(joined[i], "building_category") == Get(units[i], "building_category")
    {
      assert "unit_type" !in JoinKeys && "building_category" !in JoinKeys;
    }
    FilterCountAlong(joined, Units.IsVilla, units, Units.IsVilla);
    FilterCountAlong(joined, Units.InNewBuilding, units, Units.InNewBuilding);
    FilterCountAlong(joined, IsOldBuilding, units, IsOldBuilding);
  }

  /** The occupied count is the number of units that some resident matches. */
  lemma StatisticsCountsResidents(l: Loader)
    requires Ready(l)
    ensures CountIn(GetStatistics(l), "occupied_units") == Some(|Filter(l.data.value.units, Housed(l.data.value.residents))|)
  {
    var joined := GetUnitsWithResidents(l);
    forall i | 0 <= i < |joined|
      ensures Units.IsOccupied(joined[i]) <==> Housed(l.data.value.residents)(l.data.value.units[i])
    {
      JoinedOccupancy(l, i);
    }
    FilterCountAlong(joined, Units.IsOccupied, l.data.value.units, Housed(l.data.value.residents));
  }

  /** searchUnits: the unit search over the joined list, matching the term
      against each record's `name` field (not `unit_name`). */
  function SearchUnits(l: Loader, searchTerm: string, status: string, category: string): (r: Option<seq<Fields>>)
    ensures !Ready(l) ==> r == Some([])
    ensures r.None? <==>
              searchTerm != "" &&
              exists i :: 0 <= i < |GetUnitsWithResidents(l)| &&
                Units.SearchTest(GetUnitsWithResidents(l)[i], "name", ToLower(searchTerm)).None?
    ensures r.Some? ==> IsSubseq(r.value, GetUnitsWithResidents(l))
    ensures r.Some? ==> forall i :: 0 <= i < |r.value| ==>
              Units.Wanted(r.value[i], "name", searchTerm, status, category)
    ensures r.Some? ==>
              forall i ::
                0 <= i < |GetUnitsWithResidents(l)| &&
                Units.Wanted(GetUnitsWithResidents(l)[i], "name", searchTerm, status, category) ==>
                  GetUnitsWithResidents(l)[i] in r.value
    ensures r.Some? ==> r.value == Filter(GetUnitsWithResidents(l), Units.WantedBy("name", searchTerm, status, category))
  {
    Units.Search(GetUnitsWithResidents(l), "name", searchTerm, status, category)
  }

  /** Filtering the search by the occupied status returns only units that some
      resident of the document matches. */
  lemma OccupiedSearchHasResidents(l: Loader, searchTerm: string, category: string)
    requires Ready(l)
    requires SearchUnits(l, searchTerm, Units.OccupiedStatus, category).Some?
    ensures var found := SearchUnits(l, searchTerm, Units.OccupiedStatus, category).value;
      forall x :: x in found ==>
        exists i :: 0 <= i < |l.data.value.units| &&
          x == GetUnitsWithResidents(l)[i] && Housed(l.data.value.residents)(l.data.value.units[i])
  {
    var found := SearchUnits(l, searchTerm, Units.OccupiedStatus, category).value;
    var joined := GetUnitsWithResidents(l);
    forall x | x in found
      ensures exists i :: 0 <= i < |l.data.value.units| &&
                x == joined[i] && Housed(l.data.value.residents)(l.data.value.units[i])
    {
      var k :| 0 <= k < |found| && found[k] == x;
      assert Units.Wanted(x, "name", searchTerm, Units.OccupiedStatus, category);
      SubseqMember(found, joined, k);
      var i :| 0 <= i < |joined| && joined[i] == x;
      var u := l.data.value.units[i];
      assert Get(x, "occupancy_status") == Some(Str(Units.OccupiedStatus));
      assert Housed(l.data.value.residents)(u);
    }
  }
}
