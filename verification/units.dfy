/** The residential-unit catalogue (residential_units_data.js): the generated
    sample of old-building apartments, new-building apartments and villas, the
    occupancy statistics over the stored units, and the search-and-filter the
    units pages use. The random occupancy and the random resident of each unit
    are an input (`draw`), indexed by the unit's id. */
module Units {
  import opened Values
  import opened Seqs

  const OccupiedStatus := "مشغول"
  const VacantStatus := "شاغر"
  const OldCategory := "قديم"
  const NewCategory := "جديد"
  const VillaCategory := "فلل"
  const ApartmentType := "شقة"
  const VillaType := "فلة"

  /** The three blocks the catalogue is generated from, in generation order. */
  datatype Block = Old | New | Villas

  /** Where a generated unit sits, before its id and occupancy are assigned. */
  datatype Slot = Slot(block: Block, building: int, floor: int, unitNumber: int)

  /** The random outcome for one unit: whether it is occupied, and the generated
      resident name and phone (used only when it is). */
  datatype Draw = Draw(occupied: bool, name: string, phone: string)

  /** `lo, lo + 1, …, hi`; empty when hi < lo. */
  function Range(lo: int, hi: int): (r: seq<int>)
    ensures |r| == if hi < lo then 0 else hi - lo + 1
    ensures forall i :: 0 <= i < |r| ==> r[i] == lo + i
  {
    seq(if hi < lo then 0 else hi - lo + 1, i => lo + i)
  }

  predicate Increasing(s: seq<int>)
  {
    forall i, j :: 0 <= i < j < |s| ==> s[i] < s[j]
  }

  /** The storeys every building of a block has: floors bottom..top, with
      apartments 1..perFloor on each. */
  datatype Storeys = Storeys(bottom: int, top: int, perFloor: int)

  /** Old buildings 1-30: floors 0-4, four apartments a floor. */
  const OldBuildings: seq<int> := Range(1, 30)
  const OldStoreys := Storeys(0, 4, 4)

  /** New buildings 53-56, 61-68 and 71-79: floors 1-7, three apartments a floor. */
  const NewBuildings: seq<int> := Range(53, 56) + Range(61, 68) + Range(71, 79)
  const NewStoreys := Storeys(1, 7, 3)

  const VillaCount: int := 114

  lemma NewBuildingsFacts()
    ensures |NewBuildings| == 21
    ensures Increasing(NewBuildings)
    ensures forall i :: 0 <= i < |NewBuildings| ==> 53 <= NewBuildings[i] <= 79
  {
    ConcatIndex(Range(53, 56), Range(61, 68));
    ConcatIndex(Range(53, 56) + Range(61, 68), Range(71, 79));
  }

  lemma MulSucc(a: int, b: int)
    requires a >= 1
    ensures a * b == b + (a - 1) * b
  {
  }

  /** Apartments u..perFloor of one floor, numbered `floor * 10 + unitNum`. */
  function FloorSlots(block: Block, b: int, floor: int, u: int, perFloor: int): (r: seq<Slot>)
    ensures |r| == if perFloor < u then 0 else perFloor - u + 1
    ensures forall i :: 0 <= i < |r| ==> r[i] == Slot(block, b, floor, floor * 10 + u + i)
    decreases perFloor - u + 1
  {
    if perFloor < u then []
    else [Slot(block, b, floor, floor * 10 + u)] + FloorSlots(block, b, floor, u + 1, perFloor)
  }

  /** The number of apartments in one building of the given storeys. */
  function PerBuilding(st: Storeys): int
  {
    if st.top < st.bottom then 0 else (st.top - st.bottom + 1) * st.perFloor
  }

  /** Floors floor..top of building b, each with its apartments in order. */
  function BuildingSlots(block: Block, b: int, floor: int, st: Storeys): (r: seq<Slot>)
    requires st.perFloor >= 0
    ensures forall i :: 0 <= i < |r| ==>
              r[i].block == block && r[i].building == b && floor <= r[i].floor <= st.top &&
              1 <= r[i].unitNumber - 10 * r[i].floor <= st.perFloor
    decreases st.top - floor + 1
  {
    if st.top < floor then []
    else
      var here := FloorSlots(block, b, floor, 1, st.perFloor);
      var rest := BuildingSlots(block, b, floor + 1, st);
      ConcatIndex(here, rest);
      here + rest
  }

  /** A block of buildings in order, each with the block's storeys. */
  function BlockSlots(block: Block, buildings: seq<int>, st: Storeys): (r: seq<Slot>)
    requires st.perFloor >= 0
    ensures forall i :: 0 <= i < |r| ==>
              r[i].block == block && r[i].building in buildings && st.bottom <= r[i].floor <= st.top &&
              1 <= r[i].unitNumber - 10 * r[i].floor <= st.perFloor
  {
    if buildings == [] then []
    else
      var here := BuildingSlots(block, buildings[0], st.bottom, st);
      var rest := BlockSlots(block, buildings[1..], st);
      ConcatIndex(here, rest);
      here + rest
  }

  /** Villas `from..last`: villa v is unit v of building 1000 + v, on floor 1. */
  function VillaSlots(from: int, last: int): (r: seq<Slot>)
    ensures |r| == if last < from then 0 else last - from + 1
    ensures forall i :: 0 <= i < |r| ==> r[i] == Slot(Villas, 1000 + from + i, 1, from + i)
  {
    seq(if last < from then 0 else last - from + 1, i => Slot(Villas, 1000 + from + i, 1, from + i))
  }

  /** The old-building apartments: 30·5·4 of them. */
  function OldSlots(): (r: seq<Slot>)
    ensures |r| == 30 * 5 * 4
  {
    BlockLength(Old, OldBuildings, OldStoreys);
    BlockSlots(Old, OldBuildings, OldStoreys)
  }

  /** The new-building apartments: 21·7·3 of them. */
  function NewSlots(): (r: seq<Slot>)
    ensures |r| == 21 * 7 * 3
  {
    NewBuildingsFacts();
    BlockLength(New, NewBuildings, NewStoreys);
    BlockSlots(New, NewBuildings, NewStoreys)
  }

  /** Every unit of the sample, in generation order: old buildings 1-30 (floors
      0-4, four apartments a floor), the 21 new buildings (floors 1-7, three
      apartments a floor), then villas 1-114. */
  function Slots(): (r: seq<Slot>)
    ensures |r| == 30 * 5 * 4 + 21 * 7 * 3 + 114
  {
    OldSlots() + NewSlots() + VillaSlots(1, VillaCount)
  }

  lemma {:induction false} BuildingLength(block: Block, b: int, floor: int, st: Storeys)
    requires st.perFloor >= 0
    ensures |BuildingSlots(block, b, floor, st)| == if st.top < floor then 0 else (st.top - floor + 1) * st.perFloor
    decreases st.top - floor + 1
  {
    if floor <= st.top {
      BuildingLength(block, b, floor + 1, st);
      MulSucc(st.top - floor + 1, st.perFloor);
    }
  }

  lemma {:induction false} BlockLength(block: Block, buildings: seq<int>, st: Storeys)
    requires st.perFloor >= 0
    ensures |BlockSlots(block, buildings, st)| == |buildings| * PerBuilding(st)
    decreases |buildings|
  {
    if buildings != [] {
      BlockLength(block, buildings[1..], st);
      BuildingLength(block, buildings[0], st.bottom, st);
      MulSucc(|buildings|, PerBuilding(st));
    }
  }

  function Category(b: Block): string
  {
    match b
    case Old => OldCategory
    case New => NewCategory
    case Villas => VillaCategory
  }

  /** A residential unit as the sample generator builds it. */
  datatype Unit = Unit(
    id: nat, unitNumber: int, building: int, name: string, category: string,
    description: string, unitType: string, status: string, occupied: bool, floor: int,
    residentName: Option<string>, residentPhone: Option<string>, parking: Option<string>,
    area: int, rooms: int)

  /** The unit pushed for one slot, with the given id and draw. */
  function MakeUnit(id: nat, s: Slot, d: Draw): (u: Unit)
    ensures u.id == id && u.occupied == d.occupied
    ensures (u.status == OccupiedStatus <==> u.occupied) && (u.status == VacantStatus <==> !u.occupied)
    ensures (u.residentName.None? <==> !u.occupied) && (u.residentPhone.None? <==> !u.occupied)
    ensures u.parking.None? <==> u.unitType == VillaType
    ensures u.unitType == VillaType || u.unitType == ApartmentType
  {
    var villa := s.block == Villas;
    Unit(
      id := id,
      unitNumber := s.unitNumber,
      building := s.building,
      name := UnitName(s),
      category := Category(s.block),
      description := Description(s),
      unitType := if villa then VillaType else ApartmentType,
      status := if d.occupied then OccupiedStatus else VacantStatus,
      occupied := d.occupied,
      floor := s.floor,
      residentName := if d.occupied then Some(d.name) else None,
      residentPhone := if d.occupied then Some(d.phone) else None,
      parking := if villa then None else Some(ParkingNumber(s)),
      area := Area(s.block),
      rooms := Rooms(s.block))
  }

  /** `شقة ${fullUnitNum} عمارة ${buildingNum}`, or `فلة ${villaNum}`. */
  function UnitName(s: Slot): string
  {
    if s.block == Villas then "فلة " + IntToString(s.unitNumber)
    else "شقة " + IntToString(s.unitNumber) + " عمارة " + IntToString(s.building)
  }

  function Description(s: Slot): string
  {
    match s.block
    case Old => "عمارة " + IntToString(s.building) + " - المباني القديمة"
    case New => "عمارة " + IntToString(s.building) + " - المباني الجديدة"
    case Villas => "فلة " + IntToString(s.unitNumber) + " - الفلل الفردية"
  }

  /** `P-${buildingNum}-${fullUnitNum}`. */
  function ParkingNumber(s: Slot): string
  {
    "P-" + IntToString(s.building) + "-" + IntToString(s.unitNumber)
  }

  function Area(b: Block): int
  {
    match b
    case Old => 120
    case New => 150
    case Villas => 300
  }

  function Rooms(b: Block): int
  {
    match b
    case Old => 3
    case New => 4
    case Villas => 5
  }

  /** The units of the given slots in order, the counter giving ids from 1 up. */
  function Numbered(slots: seq<Slot>, draw: nat -> Draw): (units: seq<Unit>)
    ensures |units| == |slots|
    ensures forall i :: 0 <= i < |units| ==> units[i] == MakeUnit(i + 1, slots[i], draw(i + 1))
  {
    seq(|slots|, i requires 0 <= i < |slots| => MakeUnit(i + 1, slots[i], draw(i + 1)))
  }

  /** createSampleData: the 1155 units in generation order, with ids 1..1155
      from a counter, each unit's occupancy and resident taken from the draw
      for its id. */
  function CreateSampleData(draw: nat -> Draw): (units: seq<Unit>)
    ensures |units| == 1155
  {
    Numbered(Slots(), draw)
  }

  /** Unit i of the sample is built from slot i, with id i + 1 and the draw for that id. */
  lemma UnitFromSlot(draw: nat -> Draw, i: int)
    requires 0 <= i < 1155
    ensures CreateSampleData(draw)[i] == MakeUnit(i + 1, Slots()[i], draw(i + 1))
  {
  }

  /** The ids run 1..1155 in generation order, each unit taking the draw for its id. */
  lemma CatalogueIds(draw: nat -> Draw, i: int)
    requires 0 <= i < 1155
    ensures CreateSampleData(draw)[i].id == i + 1
    ensures CreateSampleData(draw)[i].occupied == draw(i + 1).occupied
  {
    UnitFromSlot(draw, i);
  }

  /** Every generated unit is consistent: the status agrees with the occupancy,
      a resident name and phone are recorded exactly for occupied units, and
      exactly the villas have no parking number. */
  lemma CatalogueUnit(draw: nat -> Draw, i: int)
    requires 0 <= i < 1155
    ensures var u := CreateSampleData(draw)[i];
      (u.status == OccupiedStatus <==> u.occupied) && (u.status == VacantStatus <==> !u.occupied)
    ensures var u := CreateSampleData(draw)[i];
      (u.residentName.None? <==> !u.occupied) && (u.residentPhone.None? <==> !u.occupied)
    ensures var u := CreateSampleData(draw)[i];
      (u.parking.None? <==> u.unitType == VillaType) && (u.unitType == VillaType || u.unitType == ApartmentType)
  {
    UnitFromSlot(draw, i);
  }

  /** Position i of the sample, read from the block it falls in. */
  lemma SlotAt(i: int)
    requires 0 <= i < 1155
    ensures i < 600 ==> Slots()[i] == OldSlots()[i]
    ensures 600 <= i < 1041 ==> Slots()[i] == NewSlots()[i - 600]
    ensures 1041 <= i ==> Slots()[i] == VillaSlots(1, VillaCount)[i - 1041]
  {
    var o := OldSlots();
    var n := NewSlots();
    var v := VillaSlots(1, VillaCount);
    if i < 600 {
      assert (o + n + v)[i] == (o + n)[i] == o[i];
    } else if i < 1041 {
      assert (o + n + v)[i] == (o + n)[i] == n[i - 600];
    } else {
      assert (o + n + v)[i] == v[i - 1041];
    }
  }

  /** Every building of a block lies within lo..hi when its building list does. */
  lemma BlockBuildings(block: Block, buildings: seq<int>, st: Storeys, lo: int, hi: int)
    requires st.perFloor >= 0
    requires forall k :: 0 <= k < |buildings| ==> lo <= buildings[k] <= hi
    ensures forall i :: 0 <= i < |BlockSlots(block, buildings, st)| ==>
              lo <= BlockSlots(block, buildings, st)[i].building <= hi
  {
    var r := BlockSlots(block, buildings, st);
    forall i | 0 <= i < |r|
      ensures lo <= r[i].building <= hi
    {
      assert r[i].building in buildings;
    }
  }

  lemma OldSlotShape(i: int)
    requires 0 <= i < |OldSlots()|
    ensures OldSlots()[i].block == Old
    ensures 1 <= OldSlots()[i].building <= 30 && 0 <= OldSlots()[i].floor <= 4
    ensures 1 <= OldSlots()[i].unitNumber - 10 * OldSlots()[i].floor <= 4
  {
    BlockBuildings(Old, OldBuildings, OldStoreys, 1, 30);
  }

  lemma NewSlotShape(i: int)
    requires 0 <= i < |NewSlots()|
    ensures NewSlots()[i].block == New
    ensures 53 <= NewSlots()[i].building <= 79 && 1 <= NewSlots()[i].floor <= 7
    ensures 1 <= NewSlots()[i].unitNumber - 10 * NewSlots()[i].floor <= 3
  {
    NewBuildingsFacts();
    BlockBuildings(New, NewBuildings, NewStoreys, 53, 79);
  }

  /** The slot at each position: its block and the ranges its numbers lie in. */
  lemma SlotFacts(i: int)
    requires 0 <= i < 1155
    ensures Slots()[i].block == (if i < 600 then Old else if i < 1041 then New else Villas)
    ensures i < 600 ==>
              1 <= Slots()[i].building <= 30 && 0 <= Slots()[i].floor <= 4 &&
              1 <= Slots()[i].unitNumber - 10 * Slots()[i].floor <= 4
    ensures 600 <= i < 1041 ==>
              53 <= Slots()[i].building <= 79 && 1 <= Slots()[i].floor <= 7 &&
              1 <= Slots()[i].unitNumber - 10 * Slots()[i].floor <= 3
    ensures 1041 <= i ==>
              Slots()[i].unitNumber == i - 1040 && Slots()[i].building == 1000 + Slots()[i].unitNumber &&
              Slots()[i].floor == 1
  {
    SlotAt(i);
    if i < 600 {
      OldSlotShape(i);
    } else if i < 1041 {
      NewSlotShape(i - 600);
    }
  }

  /** The numbering of each generated unit: units 0-599 are the old buildings
      1-30 (floors 0-4, apartment number floor·10 + 1..4), units 600-1040 the new
      buildings 53-79 (floors 1-7, floor·10 + 1..3), and the rest villas 1-114,
      each villa the only unit of building 1000 + its number. */
  lemma CatalogueNumbering(draw: nat -> Draw, i: int)
    requires 0 <= i < 1155
    ensures var u := CreateSampleData(draw)[i];
      (u.category == OldCategory <==> i < 600) &&
      (u.category == OldCategory ==>
         u.unitType == ApartmentType && 1 <= u.building <= 30 && 0 <= u.floor <= 4 &&
         1 <= u.unitNumber - 10 * u.floor <= 4)
    ensures var u := CreateSampleData(draw)[i];
      (u.category == NewCategory <==> 600 <= i < 1041) &&
      (u.category == NewCategory ==>
         u.unitType == ApartmentType && 53 <= u.building <= 79 && 1 <= u.floor <= 7 &&
         1 <= u.unitNumber - 10 * u.floor <= 3)
    ensures var u := CreateSampleData(draw)[i];
      (u.unitType == VillaType <==> 1041 <= i) &&
      (u.unitType == VillaType ==>
         u.category == VillaCategory && u.unitNumber == i - 1040 && u.building == 1000 + u.unitNumber && u.floor == 1)
  {
    UnitFromSlot(draw, i);
    SlotFacts(i);
  }

  /** No two slots share a (building, unit number) pair. */
  predicate PairsDistinct(s: seq<Slot>)
  {
    forall i, j :: 0 <= i < j < |s| ==> (s[i].building, s[i].unitNumber) != (s[j].building, s[j].unitNumber)
  }

  lemma DistinctAppend(a: seq<Slot>, b: seq<Slot>)
    requires PairsDistinct(a) && PairsDistinct(b)
    requires forall i, j :: 0 <= i < |a| && 0 <= j < |b| ==>
               (a[i].building, a[i].unitNumber) != (b[j].building, b[j].unitNumber)
    ensures PairsDistinct(a + b)
  {
    ConcatIndex(a, b);
  }

  lemma {:induction false} BuildingDistinct(block: Block, b: int, floor: int, st: Storeys)
    requires 0 <= st.perFloor <= 9
    ensures PairsDistinct(BuildingSlots(block, b, floor, st))
    decreases st.top - floor + 1
  {
    if floor <= st.top {
      var here := FloorSlots(block, b, floor, 1, st.perFloor);
      var rest := BuildingSlots(block, b, floor + 1, st);
      BuildingDistinct(block, b, floor + 1, st);
      forall i, j | 0 <= i < |here| && 0 <= j < |rest|
        ensures here[i].unitNumber < rest[j].unitNumber
      {
      }
      DistinctAppend(here, rest);
    }
  }

  lemma {:induction false} BlockDistinct(block: Block, buildings: seq<int>, st: Storeys)
    requires Increasing(buildings)
    requires 0 <= st.perFloor <= 9
    ensures PairsDistinct(BlockSlots(block, buildings, st))
    decreases |buildings|
  {
    if buildings != [] {
      var here := BuildingSlots(block, buildings[0], st.bottom, st);
      var rest := BlockSlots(block, buildings[1..], st);
      BuildingDistinct(block, buildings[0], st.bottom, st);
      BlockDistinct(block, buildings[1..], st);
      forall i, j | 0 <= i < |here| && 0 <= j < |rest|
        ensures here[i].building != rest[j].building
      {
        assert rest[j].building in buildings[1..];
      }
      DistinctAppend(here, rest);
    }
  }

  /** A block holding only buildings up to hi, followed by one holding only buildings above hi, stays distinct. */
  lemma DistinctByBuilding(a: seq<Slot>, b: seq<Slot>, hi: int)
    requires PairsDistinct(a) && PairsDistinct(b)
    requires forall i :: 0 <= i < |a| ==> a[i].building <= hi
    requires forall j :: 0 <= j < |b| ==> b[j].building > hi
    ensures PairsDistinct(a + b)
  {
    DistinctAppend(a, b);
  }

  lemma OldDistinct()
    ensures PairsDistinct(OldSlots())
    ensures forall i :: 0 <= i < |OldSlots()| ==> OldSlots()[i].building <= 30
  {
    BlockDistinct(Old, OldBuildings, OldStoreys);
    BlockBuildings(Old, OldBuildings, OldStoreys, 1, 30);
  }

  lemma NewDistinct()
    ensures PairsDistinct(NewSlots())
    ensures forall i :: 0 <= i < |NewSlots()| ==> 53 <= NewSlots()[i].building <= 79
  {
    NewBuildingsFacts();
    BlockDistinct(New, NewBuildings, NewStoreys);
    BlockBuildings(New, NewBuildings, NewStoreys, 53, 79);
  }

  lemma ApartmentsDistinct()
    ensures PairsDistinct(OldSlots() + NewSlots())
  {
    OldDistinct();
    NewDistinct();
    DistinctByBuilding(OldSlots(), NewSlots(), 30);
  }

  lemma ApartmentsBelowVillas()
    ensures forall i :: 0 <= i < |OldSlots() + NewSlots()| ==> (OldSlots() + NewSlots())[i].building <= 79
  {
    OldDistinct();
    NewDistinct();
    ConcatIndex(OldSlots(), NewSlots());
  }

  lemma VillasDistinct()
    ensures PairsDistinct(VillaSlots(1, VillaCount))
    ensures forall j :: 0 <= j < |VillaSlots(1, VillaCount)| ==> VillaSlots(1, VillaCount)[j].building > 79
  {
  }

  lemma PartsDistinct(apartments: seq<Slot>, villas: seq<Slot>)
    requires apartments == OldSlots() + NewSlots() && villas == VillaSlots(1, VillaCount)
    ensures PairsDistinct(apartments + villas)
  {
    assert PairsDistinct(apartments) by {
      ApartmentsDistinct();
    }
    assert forall i :: 0 <= i < |apartments| ==> apartments[i].building <= 79 by {
      ApartmentsBelowVillas();
    }
    assert PairsDistinct(villas) && forall j :: 0 <= j < |villas| ==> villas[j].building > 79 by {
      VillasDistinct();
    }
    DistinctByBuilding(apartments, villas, 79);
  }

  lemma SlotsDistinct()
    ensures PairsDistinct(Slots())
  {
    PartsDistinct(OldSlots() + NewSlots(), VillaSlots(1, VillaCount));
  }

  /** All (building_number, unit_number) pairs of the sample are distinct. */
  lemma CataloguePairsDistinct(draw: nat -> Draw)
    ensures var units := CreateSampleData(draw);
      forall i, j :: 0 <= i < j < |units| ==>
        (units[i].building, units[i].unitNumber) != (units[j].building, units[j].unitNumber)
  {
    SlotsDistinct();
  }

  /** The unit as it is stored and read back (`JSON.stringify`, then `JSON.parse`);
      an absent resident or parking number is stored as null. */
  function ToFields(u: Unit): Fields
  {
    map[
      "id" := Num(u.id),
      "unit_number" := Num(u.unitNumber),
      "building_number" := Num(u.building),
      "unit_name" := Str(u.name),
      "building_category" := Str(u.category),
      "building_description" := Str(u.description),
      "unit_type" := Str(u.unitType),
      "occupancy_status" := Str(u.status),
      "is_occupied" := Bool(u.occupied),
      "floor_number" := Num(u.floor),
      "resident_name" := (if u.residentName.Some? then Str(u.residentName.value) else Null),
      "resident_phone" := (if u.residentPhone.Some? then Str(u.residentPhone.value) else Null),
      "parking_number" := (if u.parking.Some? then Str(u.parking.value) else Null),
      "area_sqm" := Num(u.area),
      "rooms_count" := Num(u.rooms)
    ]
  }

  lemma ToFieldsCounted(u: Unit)
    ensures Get(ToFields(u), "is_occupied") == Some(Bool(u.occupied))
    ensures Get(ToFields(u), "unit_type") == Some(Str(u.unitType))
    ensures Get(ToFields(u), "building_category") == Some(Str(u.category))
  {
  }

  /** The stored form of a list of units. */
  function Stored(units: seq<Unit>): (r: seq<Fields>)
    ensures |r| == |units|
    ensures forall i :: 0 <= i < |r| ==> r[i] == ToFields(units[i])
  {
    seq(|units|, i requires 0 <= i < |units| => ToFields(units[i]))
  }

  /** The counts getStatistics reports over the stored units. */
  datatype Statistics = Statistics(total: nat, occupied: nat, vacant: nat, villas: nat, newBuildingUnits: nat)

  predicate IsOccupied(u: Fields)
  {
    Truthy(Get(u, "is_occupied"))
  }

  predicate IsVacant(u: Fields)
  {
    !Truthy(Get(u, "is_occupied"))
  }

  predicate IsVilla(u: Fields)
  {
    Get(u, "unit_type") == Some(Str(VillaType))
  }

  predicate InNewBuilding(u: Fields)
  {
    Get(u, "building_category") == Some(Str(NewCategory))
  }

  /** getStatistics: every unit is counted as occupied (truthy is_occupied) or vacant, never both. */
  function GetStatistics(units: seq<Fields>): (r: Statistics)
    ensures r.total == |units|
    ensures r.occupied + r.vacant == r.total
    ensures r.occupied == |Filter(units, IsOccupied)|
    ensures r.villas == |Filter(units, IsVilla)|
    ensures r.newBuildingUnits == |Filter(units, InNewBuilding)|
    ensures r.villas <= r.total && r.newBuildingUnits <= r.total
    ensures r.occupied == r.total <==> forall i :: 0 <= i < |units| ==> Truthy(Get(units[i], "is_occupied"))
  {
    FilterComplement(units, IsOccupied, IsVacant);
    FilterKeepsLength(units, IsOccupied);
    Statistics(|units|, |Filter(units, IsOccupied)|, |Filter(units, IsVacant)|,
               |Filter(units, IsVilla)|, |Filter(units, InNewBuilding)|)
  }

  /** The statistics of two lists of units together are the sums of their statistics. */
  lemma GetStatisticsAppend(a: seq<Fields>, b: seq<Fields>)
    ensures var (x, y, z) := (GetStatistics(a), GetStatistics(b), GetStatistics(a + b));
            z.total == x.total + y.total && z.occupied == x.occupied + y.occupied &&
            z.vacant == x.vacant + y.vacant && z.villas == x.villas + y.villas &&
            z.newBuildingUnits == x.newBuildingUnits + y.newBuildingUnits
  {
    FilterAppend(a, b, IsOccupied);
    FilterAppend(a, b, IsVacant);
    FilterAppend(a, b, IsVilla);
    FilterAppend(a, b, InNewBuilding);
  }

  /** Stored unit i of the sample is a villa exactly from index 1041 on, and in a new building exactly for 600..1040. */
  lemma StoredKind(draw: nat -> Draw, i: int)
    requires 0 <= i < 1155
    ensures IsVilla(Stored(CreateSampleData(draw))[i]) <==> 1041 <= i
    ensures InNewBuilding(Stored(CreateSampleData(draw))[i]) <==> 600 <= i < 1041
  {
    var u := CreateSampleData(draw)[i];
    ToFieldsCounted(u);
    CatalogueNumbering(draw, i);
  }

  lemma SampleVillaCount(draw: nat -> Draw)
    ensures |Filter(Stored(CreateSampleData(draw)), IsVilla)| == 114
  {
    var stored := Stored(CreateSampleData(draw));
    forall i | 0 <= i < |stored|
      ensures IsVilla(stored[i]) <==> 1041 <= i
    {
      StoredKind(draw, i);
    }
    FilterRangeCount(stored, IsVilla, 1041, 1155);
  }

  lemma SampleNewBuildingCount(draw: nat -> Draw)
    ensures |Filter(Stored(CreateSampleData(draw)), InNewBuilding)| == 441
  {
    var stored := Stored(CreateSampleData(draw));
    forall i | 0 <= i < |stored|
      ensures InNewBuilding(stored[i]) <==> 600 <= i < 1041
    {
      StoredKind(draw, i);
    }
    FilterRangeCount(stored, InNewBuilding, 600, 1041);
  }

  /** Over the stored sample: 1155 units, 114 of them villas and 441 in the new buildings. */
  lemma SampleStatistics(draw: nat -> Draw)
    ensures GetStatistics(Stored(CreateSampleData(draw))).total == 1155
    ensures GetStatistics(Stored(CreateSampleData(draw))).villas == 114
    ensures GetStatistics(Stored(CreateSampleData(draw))).newBuildingUnits == 441
  {
    SampleVillaCount(draw);
    SampleNewBuildingCount(draw);
  }

  /** One unit under the search test, in its evaluation order: the name field and
      the resident name are lower-cased (None when such a truthy field is not a
      string, so the filter throws), building and unit numbers go through `toString`. */
  function SearchTest(u: Fields, nameField: string, term: string): (r: Option<bool>)
  {
    var name := Get(u, nameField);
    var building := Get(u, "building_number");
    var number := Get(u, "unit_number");
    var resident := Get(u, "resident_name");
    if Truthy(name) && !name.value.Str? then None
    else if Truthy(name) && Includes(ToLower(name.value.s), term) then Some(true)
    else if Truthy(building) && Includes(ValueToString(building.value), term) then Some(true)
    else if Truthy(number) && Includes(ValueToString(number.value), term) then Some(true)
    else if Truthy(resident) && !resident.value.Str? then None
    else Some(Truthy(resident) && Includes(ToLower(resident.value.s), term))
  }

  function SearchHit(nameField: string, term: string): Fields -> bool
  {
    u => SearchTest(u, nameField, term) == Some(true)
  }

  function FieldIs(field: string, s: string): Fields -> bool
  {
    u => Get(u, field) == Some(Str(s))
  }

  /** The three filters in one: a unit is wanted when it passes each non-empty one. */
  predicate Wanted(u: Fields, nameField: string, searchTerm: string, status: string, category: string)
  {
    (searchTerm == "" || SearchTest(u, nameField, ToLower(searchTerm)) == Some(true)) &&
    (status == "" || Get(u, "occupancy_status") == Some(Str(status))) &&
    (category == "" || Get(u, "building_category") == Some(Str(category)))
  }

  function WantedBy(nameField: string, searchTerm: string, status: string, category: string): Fields -> bool
  {
    u => Wanted(u, nameField, searchTerm, status, category)
  }

  /** The search, then the exact status filter, then the exact category filter,
      each skipped when its argument is empty. */
  function Staged(units: seq<Fields>, nameField: string, searchTerm: string, status: string, category: string): seq<Fields>
  {
    var found := if searchTerm != "" then Filter(units, SearchHit(nameField, ToLower(searchTerm))) else units;
    var byStatus := if status != "" then Filter(found, FieldIs("occupancy_status", status)) else found;
    if category != "" then Filter(byStatus, FieldIs("building_category", category)) else byStatus
  }

  /** The three successive filters keep exactly the units that pass all of them, in order. */
  lemma StagedIsOneFilter(units: seq<Fields>, nameField: string, searchTerm: string, status: string, category: string)
    ensures Staged(units, nameField, searchTerm, status, category) ==
            Filter(units, WantedBy(nameField, searchTerm, status, category))
  {
    var term := ToLower(searchTerm);
    var s1 := (u: Fields) => searchTerm == "" || SearchTest(u, nameField, term) == Some(true);
    var s2 := (u: Fields) => s1(u) && (status == "" || Get(u, "occupancy_status") == Some(Str(status)));
    var found := if searchTerm != "" then Filter(units, SearchHit(nameField, term)) else units;
    var byStatus := if status != "" then Filter(found, FieldIs("occupancy_status", status)) else found;
    if searchTerm != "" {
      FilterExt(units, SearchHit(nameField, term), s1);
    } else {
      FilterAll(units, s1);
    }
    assert found == Filter(units, s1);
    if status != "" {
      FilterConj(units, s1, FieldIs("occupancy_status", status), s2);
    } else {
      FilterExt(units, s1, s2);
    }
    assert byStatus == Filter(units, s2);
    if category != "" {
      FilterConj(units, s2, FieldIs("building_category", category), WantedBy(nameField, searchTerm, status, category));
    } else {
      FilterExt(units, s2, WantedBy(nameField, searchTerm, status, category));
    }
  }

  /** The search-and-filter shared by both unit sources: None when the search
      test throws on some unit; otherwise, in order, exactly the units that pass
      every non-empty filter. */
  function Search(units: seq<Fields>, nameField: string, searchTerm: string, status: string, category: string): (r: Option<seq<Fields>>)
    ensures r.None? <==> searchTerm != "" && exists i :: 0 <= i < |units| && SearchTest(units[i], nameField, ToLower(searchTerm)).None?
    ensures r.Some? ==> IsSubseq(r.value, units)
    ensures r.Some? ==> forall i :: 0 <= i < |r.value| ==>
              r.value[i] in units && Wanted(r.value[i], nameField, searchTerm, status, category)
    ensures r.Some? ==> forall i :: 0 <= i < |units| && Wanted(units[i], nameField, searchTerm, status, category) ==>
              units[i] in r.value
    ensures r.Some? ==> r.value == Filter(units, WantedBy(nameField, searchTerm, status, category))
  {
    if searchTerm != "" && exists i :: 0 <= i < |units| && SearchTest(units[i], nameField, ToLower(searchTerm)).None? then None
    else
      StagedIsOneFilter(units, nameField, searchTerm, status, category);
      Some(Staged(units, nameField, searchTerm, status, category))
  }

  /** With every filter empty the search returns all units unchanged. */
  lemma SearchEmptyKeepsAll(units: seq<Fields>, nameField: string)
    ensures Search(units, nameField, "", "", "") == Some(units)
  {
  }

  /** The status and category filters are exact: a unit whose status differs from a
      non-empty status filter is never returned. */
  lemma StatusFilterExact(units: seq<Fields>, nameField: string, searchTerm: string, status: string, category: string, u: Fields)
    requires status != ""
    requires Search(units, nameField, searchTerm, status, category).Some?
    requires u in Search(units, nameField, searchTerm, status, category).value
    ensures Get(u, "occupancy_status") == Some(Str(status))
    ensures category != "" ==> Get(u, "building_category") == Some(Str(category))
  {
  }

  /** searchAndFilter: the search over `unit_name`, building number, unit number and resident name. */
  function SearchAndFilter(units: seq<Fields>, searchTerm: string, status: string, category: string): (r: Option<seq<Fields>>)
    ensures r.None? <==> searchTerm != "" && exists i :: 0 <= i < |units| && SearchTest(units[i], "unit_name", ToLower(searchTerm)).None?
    ensures r.Some? ==> IsSubseq(r.value, units)
    ensures r.Some? ==> forall i :: 0 <= i < |r.value| ==>
              r.value[i] in units && Wanted(r.value[i], "unit_name", searchTerm, status, category)
    ensures r.Some? ==> forall i :: 0 <= i < |units| && Wanted(units[i], "unit_name", searchTerm, status, category) ==>
              units[i] in r.value
    ensures r.Some? ==> r.value == Filter(units, WantedBy("unit_name", searchTerm, status, category))
    ensures searchTerm == "" && status == "" && category == "" ==> r == Some(units)
  {
    Search(units, "unit_name", searchTerm, status, category)
  }
}
