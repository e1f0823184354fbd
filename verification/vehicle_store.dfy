/** The stand-alone vehicle store: registered vehicles, plate-recognition
    results and violations, each a list of schemaless objects with a random
    `id`. Modelled here are its queries (plate matching, repeat counts,
    repeat violators, multi-criteria search, per-type and per-building
    reports) and its targeted updates and deletions. A call that would throw
    a TypeError in the browser (calling `includes` on a property that is not
    a string, or accumulating under a key that every object inherits) yields
    `None`. */
module VehicleStore {
  import opened Values
  import opened Seqs
  import opened Sorting
  import opened Grouping

  /** `item.plateNumber`. */
  function PlateOf(v: Fields): Option<Value>
  {
    Get(v, "plateNumber")
  }

  /** Every item's plate is a string, so calling `includes` on it cannot throw. */
  predicate PlatesAreText(items: seq<Fields>)
  {
    forall i :: 0 <= i < |items| ==> Text(PlateOf(items[i])).Some?
  }

  /** `p.includes(q) || q.includes(p)`: either plate text contains the other. */
  predicate Overlap(p: string, q: string)
  {
    Includes(p, q) || Includes(q, p)
  }

  /** The test of findVehicleByPlate for the query q. */
  function OverlapsQuery(q: string): Fields -> bool
  {
    v => Text(PlateOf(v)).Some? && Overlap(Text(PlateOf(v)).value, q)
  }

  /** findVehicleByPlate: the vehicles whose plate contains the query or is contained in
      it, in stored order. */
  function FindVehicleByPlate(vehicles: seq<Fields>, q: string): (r: Option<seq<Fields>>)
    ensures r.None? <==> !PlatesAreText(vehicles)
    ensures r.Some? ==>
              (forall i :: 0 <= i < |r.value| ==>
                 r.value[i] in vehicles && Overlap(Text(PlateOf(r.value[i])).value, q)) &&
              (forall i :: 0 <= i < |vehicles| && Overlap(Text(PlateOf(vehicles[i])).value, q) ==>
                 vehicles[i] in r.value) &&
              IsSubseq(r.value, vehicles)
    ensures r.Some? ==> |r.value| + |Filter(vehicles, Not(OverlapsQuery(q)))| == |vehicles|
  {
    if !PlatesAreText(vehicles) then None
    else
      FilterSplit(vehicles, OverlapsQuery(q));
      Some(Filter(vehicles, OverlapsQuery(q)))
  }

  /** The plates no stored vehicle overlaps with. */
  function IsNew(vehicles: seq<Fields>): string -> bool
  {
    p => forall i :: 0 <= i < |vehicles| ==> !OverlapsQuery(p)(vehicles[i])
  }

  /** getNewVehicles: the given plates for which findVehicleByPlate finds nothing, in the
      given order. It throws only when it searches, that is for a non-empty list. */
  function GetNewVehicles(vehicles: seq<Fields>, plates: seq<string>): (r: Option<seq<string>>)
    ensures r.None? <==> plates != [] && !PlatesAreText(vehicles)
    ensures r.Some? ==>
              (forall i :: 0 <= i < |plates| ==>
                 (plates[i] in r.value <==> FindVehicleByPlate(vehicles, plates[i]) == Some([]))) &&
              (forall i :: 0 <= i < |r.value| ==> r.value[i] in plates) &&
              IsSubseq(r.value, plates)
    ensures r.Some? ==> |r.value| + |Filter(plates, Not(IsNew(vehicles)))| == |plates|
  {
    if plates == [] then Some([])
    else if !PlatesAreText(vehicles) then None
    else
      var r := Filter(plates, IsNew(vehicles));
      FilterSplit(plates, IsNew(vehicles));
      forall i | 0 <= i < |plates|
        ensures plates[i] in r <==> FindVehicleByPlate(vehicles, plates[i]) == Some([])
      {
        var found := Filter(vehicles, OverlapsQuery(plates[i]));
        if IsNew(vehicles)(plates[i]) {
          FilterNone(vehicles, OverlapsQuery(plates[i]));
        } else {
          var j :| 0 <= j < |vehicles| && OverlapsQuery(plates[i])(vehicles[j]);
          assert vehicles[j] in found;
        }
      }
      Some(r)
  }

  /** A stored vehicle's own plate is never reported as new. */
  lemma StoredPlateIsNotNew(vehicles: seq<Fields>, plates: seq<string>, j: nat)
    requires j < |vehicles| && PlatesAreText(vehicles)
    ensures GetNewVehicles(vehicles, plates).Some?
    ensures Text(PlateOf(vehicles[j])).value !in GetNewVehicles(vehicles, plates).value
  {
    var p := Text(PlateOf(vehicles[j])).value;
    IncludesSelf(p);
    assert OverlapsQuery(p)(vehicles[j]);
    if p in plates {
      var i :| 0 <= i < |plates| && plates[i] == p;
      assert vehicles[j] in Filter(vehicles, OverlapsQuery(p));
    }
  }

  /** `items.filter(x => x.plateNumber === p)`. */
  function PlateIs(p: Option<Value>): Fields -> bool
  {
    v => PlateOf(v) == p
  }

  /** getVehicleViolations: the violations with exactly that plate, in stored order. */
  function GetVehicleViolations(violations: seq<Fields>, p: Option<Value>): (r: seq<Fields>)
    ensures forall i :: 0 <= i < |r| ==> r[i] in violations && PlateOf(r[i]) == p
    ensures forall i :: 0 <= i < |violations| && PlateOf(violations[i]) == p ==> violations[i] in r
    ensures IsSubseq(r, violations)
    ensures |r| + |Filter(violations, Not(PlateIs(p)))| == |violations|
  {
    FilterSplit(violations, PlateIs(p));
    Filter(violations, PlateIs(p))
  }

  /** The result of getVehicleRepeatCount. */
  datatype RepeatCount = RepeatCount(total: nat, database: nat, recognitions: nat, violations: nat)

  /** getVehicleRepeatCount: how often a plate occurs among the vehicles, the recognitions
      and the violations, and the sum of the three. */
  function GetVehicleRepeatCount(vehicles: seq<Fields>, recognitions: seq<Fields>, violations: seq<Fields>,
                                 p: Option<Value>): (c: RepeatCount)
    ensures c.total == c.database + c.recognitions + c.violations
    ensures c.database == |Filter(vehicles, PlateIs(p))|
    ensures c.recognitions == |Filter(recognitions, PlateIs(p))|
    ensures c.violations == |GetVehicleViolations(violations, p)|
  {
    var d := |Filter(vehicles, PlateIs(p))|;
    var g := |Filter(recognitions, PlateIs(p))|;
    var v := |Filter(violations, PlateIs(p))|;
    RepeatCount(d + g + v, d, g, v)
  }

  /** A filter keeps nothing exactly when no element passes it. */
  lemma {:induction false} FilterNone<T>(s: seq<T>, p: T -> bool)
    ensures Filter(s, p) == [] <==> forall i :: 0 <= i < |s| ==> !p(s[i])
    decreases |s|
  {
    if s != [] {
      FilterNone(s[1..], p);
      assert forall i :: 1 <= i < |s| ==> s[i] == s[1..][i - 1];
    }
  }

  /** Each count is zero exactly when the plate does not occur in that list, so the total
      is zero exactly when the plate occurs nowhere. */
  lemma RepeatCountZero(vehicles: seq<Fields>, recognitions: seq<Fields>, violations: seq<Fields>, p: Option<Value>)
    ensures var c := GetVehicleRepeatCount(vehicles, recognitions, violations, p);
            (c.database == 0 <==> forall i :: 0 <= i < |vehicles| ==> PlateOf(vehicles[i]) != p) &&
            (c.recognitions == 0 <==> forall i :: 0 <= i < |recognitions| ==> PlateOf(recognitions[i]) != p) &&
            (c.violations == 0 <==> forall i :: 0 <= i < |violations| ==> PlateOf(violations[i]) != p)
  {
    FilterNone(vehicles, PlateIs(p));
    FilterNone(recognitions, PlateIs(p));
    FilterNone(violations, PlateIs(p));
  }

  /** The count of one group, the sort key of the reports. */
  function GroupCount<T>(g: Group<string, T>): int
  {
    g.count
  }

  function CountAtLeast<T>(min: int): Group<string, T> -> bool
  {
    (g: Group<string, T>) => g.count >= min
  }

  /** Whether accumulating the items under `key` throws: some key names a member every
      object inherits, whose `count`/list the accumulation then cannot update. */
  predicate KeyClash(s: seq<Fields>, key: Fields -> string)
  {
    exists i :: 0 <= i < |s| && key(s[i]) in InheritedKeys
  }

  /** What every entry drawn from GroupBy satisfies. */
  lemma EntryFacts(s: seq<Fields>, key: Fields -> string, g: Group<string, Fields>)
    requires g in GroupBy(s, key)
    ensures g.count == |g.members| >= 1
    ensures g.members == WithKey(s, key, g.key)
  {
    var gs := GroupBy(s, key);
    var j :| 0 <= j < |gs| && gs[j] == g;
    GroupByNonEmpty(s, key, j);
  }

  /** Every key of the items has an entry in GroupBy. */
  lemma EntryExists(s: seq<Fields>, key: Fields -> string, i: nat)
    requires i < |s|
    ensures exists j :: 0 <= j < |GroupBy(s, key)| && GroupBy(s, key)[j].key == key(s[i])
  {
    var ks := DistinctKeys(s, key);
    var j :| 0 <= j < |ks| && ks[j] == key(s[i]);
    assert GroupBy(s, key)[j].key == key(s[i]);
  }

  /** The accumulate, `Object.values` and sort-by-count-descending pipeline of the
      per-type and per-building reports. */
  function Ranked(s: seq<Fields>, key: Fields -> string): (r: Option<seq<Group<string, Fields>>>)
    ensures r.None? <==> KeyClash(s, key)
    ensures r.Some? ==>
              SumCounts(r.value) == |s| && KeysDistinct(r.value) && SortedDesc(r.value, GroupCount) &&
              (forall j :: 0 <= j < |r.value| ==>
                 r.value[j].count == |r.value[j].members| >= 1 &&
                 r.value[j].members == WithKey(s, key, r.value[j].key)) &&
              Covers(s, key, r.value)
  {
    if KeyClash(s, key) then None
    else
      var gs := GroupBy(s, key);
      var r := SortDesc(ObjectValues(gs), GroupCount);
      RankedFacts(s, key, gs, r);
      Some(r)
  }

  lemma RankedFacts(s: seq<Fields>, key: Fields -> string, gs: seq<Group<string, Fields>>, r: seq<Group<string, Fields>>)
    requires gs == GroupBy(s, key)
    requires multiset(r) == multiset(gs)
    ensures SumCounts(r) == |s| && KeysDistinct(r)
    ensures forall j :: 0 <= j < |r| ==>
              r[j].count == |r[j].members| >= 1 && r[j].members == WithKey(s, key, r[j].key)
    ensures Covers(s, key, r)
  {
    GroupByCountsSum(s, key);
    SumCountsPerm(gs, r);
    GroupByKeysDistinct(s, key);
    PermKeysDistinct(gs, r);
    forall j | 0 <= j < |r|
      ensures r[j].count == |r[j].members| >= 1 && r[j].members == WithKey(s, key, r[j].key)
    {
      assert r[j] in multiset(gs);
      EntryFacts(s, key, r[j]);
    }
    forall i | 0 <= i < |s|
      ensures exists j :: 0 <= j < |r| && r[j].key == key(s[i])
    {
      EntryExists(s, key, i);
      var j :| 0 <= j < |gs| && gs[j].key == key(s[i]);
      assert gs[j] in multiset(r);
    }
    ReportCovers(s, key, r);
  }

  /** `v.violationType` as a report key. */
  function TypeKey(v: Fields): string
  {
    KeyOf(Get(v, "violationType"))
  }

  /** `v.buildingNumber || 'غير محدد'` as a report key. */
  function BuildingKey(v: Fields): string
  {
    KeyOf(Some(OrElse(Get(v, "buildingNumber"), Str("غير محدد"))))
  }

  /** getViolationsByType: one entry per violation type, most frequent first; the counts
      add up to the number of violations. */
  function ViolationsByType(violations: seq<Fields>): (r: Option<seq<Group<string, Fields>>>)
    ensures r.None? <==> KeyClash(violations, TypeKey)
    ensures r.Some? ==>
              SumCounts(r.value) == |violations| && KeysDistinct(r.value) && SortedDesc(r.value, GroupCount) &&
              (forall j :: 0 <= j < |r.value| ==>
                 r.value[j].count == |r.value[j].members| >= 1 &&
                 r.value[j].members == WithKey(violations, TypeKey, r.value[j].key)) &&
              Covers(violations, TypeKey, r.value)
  {
    Ranked(violations, TypeKey)
  }

  /** getViolationsByBuilding: one entry per building, most violations first; violations
      without a building are counted under 'غير محدد'. */
  function ViolationsByBuilding(violations: seq<Fields>): (r: Option<seq<Group<string, Fields>>>)
    ensures r.None? <==> KeyClash(violations, BuildingKey)
    ensures r.Some? ==>
              SumCounts(r.value) == |violations| && KeysDistinct(r.value) && SortedDesc(r.value, GroupCount) &&
              (forall j :: 0 <= j < |r.value| ==>
                 r.value[j].count == |r.value[j].members| >= 1 &&
                 r.value[j].members == WithKey(violations, BuildingKey, r.value[j].key)) &&
              Covers(violations, BuildingKey, r.value)
  {
    Ranked(violations, BuildingKey)
  }

  /** Every element of s is among the members of the entry for its key. */
  predicate Covers(s: seq<Fields>, key: Fields -> string, gs: seq<Group<string, Fields>>)
  {
    forall i :: 0 <= i < |s| ==>
      exists j :: 0 <= j < |gs| && gs[j].key == key(s[i]) && s[i] in gs[j].members
  }

  lemma ReportCovers(s: seq<Fields>, key: Fields -> string, r: seq<Group<string, Fields>>)
    requires forall j :: 0 <= j < |r| ==> r[j].members == WithKey(s, key, r[j].key)
    requires forall i :: 0 <= i < |s| ==> exists j :: 0 <= j < |r| && r[j].key == key(s[i])
    ensures Covers(s, key, r)
  {
    forall i | 0 <= i < |s|
      ensures exists j :: 0 <= j < |r| && r[j].key == key(s[i]) && s[i] in r[j].members
    {
      var j :| 0 <= j < |r| && r[j].key == key(s[i]);
      assert s[i] in WithKey(s, key, r[j].key);
    }
  }

  /** A violation with no building (absent, null or empty) is filed under 'غير محدد',
      together with any whose building is literally that text. */
  lemma MissingBuildingFiled(v: Fields)
    requires !Truthy(Get(v, "buildingNumber"))
    ensures BuildingKey(v) == "غير محدد"
  {
  }

  /** `v.plateNumber` as an accumulator key. */
  function PlateKey(v: Fields): string
  {
    KeyOf(PlateOf(v))
  }

  /** getRepeatedViolators(min), min defaulting to 3: one entry per plate with at least
      min violations, each holding exactly that plate's violations, most first. */
  function RepeatedViolators(violations: seq<Fields>, min: int): (r: Option<seq<Group<string, Fields>>>)
    ensures r.None? <==> KeyClash(violations, PlateKey)
    ensures r.Some? ==>
              KeysDistinct(r.value) && SortedDesc(r.value, GroupCount) &&
              (forall j :: 0 <= j < |r.value| ==>
                 r.value[j].count == |r.value[j].members| && r.value[j].count >= min &&
                 r.value[j].members == WithKey(violations, PlateKey, r.value[j].key)) &&
              (forall i :: (0 <= i < |violations| &&
                             |WithKey(violations, PlateKey, PlateKey(violations[i]))| >= min) ==>
                 exists j :: 0 <= j < |r.value| && r.value[j].key == PlateKey(violations[i]))
  {
    if KeyClash(violations, PlateKey) then None
    else
      var gs := GroupBy(violations, PlateKey);
      var ov := ObjectValues(gs);
      var picked := Filter(ov, CountAtLeast(min));
      var r := SortDesc(picked, CountKey);
      RepeatedViolatorsFacts(violations, min, gs, ov, picked, r);
      Some(r)
  }

  /** The sort key of getRepeatedViolators: the entry's count. */
  function CountKey(g: Group<string, Fields>): int
  {
    GroupCount(g)
  }

  lemma RepeatedViolatorsFacts(violations: seq<Fields>, min: int, gs: seq<Group<string, Fields>>,
                               ov: seq<Group<string, Fields>>, picked: seq<Group<string, Fields>>,
                               r: seq<Group<string, Fields>>)
    requires gs == GroupBy(violations, PlateKey)
    requires multiset(ov) == multiset(gs)
    requires picked == Filter(ov, CountAtLeast(min))
    requires r == SortDesc(picked, CountKey)
    ensures KeysDistinct(r) && SortedDesc(r, GroupCount)
    ensures forall j :: 0 <= j < |r| ==>
              r[j].count == |r[j].members| && r[j].count >= min &&
              r[j].members == WithKey(violations, PlateKey, r[j].key)
    ensures forall i :: (0 <= i < |violations| &&
                         |WithKey(violations, PlateKey, PlateKey(violations[i]))| >= min) ==>
              exists j :: 0 <= j < |r| && r[j].key == PlateKey(violations[i])
  {
    RepeatedOrder(violations, min, gs, ov, picked, r);
    RepeatedEntries(violations, min, gs, ov, picked, r);
    RepeatedCoverage(violations, min, gs, ov, picked, r);
  }

  /** The entries keep distinct plates and come out by descending count. */
  lemma RepeatedOrder(violations: seq<Fields>, min: int, gs: seq<Group<string, Fields>>,
                               ov: seq<Group<string, Fields>>, picked: seq<Group<string, Fields>>,
                               r: seq<Group<string, Fields>>)
    requires gs == GroupBy(violations, PlateKey)
    requires multiset(ov) == multiset(gs)
    requires picked == Filter(ov, CountAtLeast(min))
    requires r == SortDesc(picked, CountKey)
    ensures KeysDistinct(r) && SortedDesc(r, GroupCount)
  {
    GroupByKeysDistinct(violations, PlateKey);
    PermKeysDistinct(gs, ov);
    FilterKeysDistinct(ov, CountAtLeast(min));
    PermKeysDistinct(picked, r);
    assert forall g :: CountKey(g) == GroupCount(g);
  }

  /** Each entry holds every violation of its plate, at least min of them. */
  lemma RepeatedEntries(violations: seq<Fields>, min: int, gs: seq<Group<string, Fields>>,
                               ov: seq<Group<string, Fields>>, picked: seq<Group<string, Fields>>,
                               r: seq<Group<string, Fields>>)
    requires gs == GroupBy(violations, PlateKey)
    requires multiset(ov) == multiset(gs)
    requires picked == Filter(ov, CountAtLeast(min))
    requires r == SortDesc(picked, CountKey)
    ensures forall j :: 0 <= j < |r| ==>
              r[j].count == |r[j].members| && r[j].count >= min &&
              r[j].members == WithKey(violations, PlateKey, r[j].key)
  {
    forall j | 0 <= j < |r|
      ensures r[j].count == |r[j].members| && r[j].count >= min
      ensures r[j].members == WithKey(violations, PlateKey, r[j].key)
    {
      var g := r[j];
      assert g in picked && g.count >= min by {
        SortDescMembers(picked, CountKey, g);
        var k :| 0 <= k < |picked| && picked[k] == g;
      }
      assert g in GroupBy(violations, PlateKey) by {
        var k :| 0 <= k < |picked| && picked[k] == g;
        assert g in ov;
        assert g in multiset(ov);
      }
      EntryFacts(violations, PlateKey, g);
    }
  }

  /** Every plate with at least min violations has an entry. */
  lemma RepeatedCoverage(violations: seq<Fields>, min: int, gs: seq<Group<string, Fields>>,
                               ov: seq<Group<string, Fields>>, picked: seq<Group<string, Fields>>,
                               r: seq<Group<string, Fields>>)
    requires gs == GroupBy(violations, PlateKey)
    requires multiset(ov) == multiset(gs)
    requires picked == Filter(ov, CountAtLeast(min))
    requires r == SortDesc(picked, CountKey)
    ensures forall i :: (0 <= i < |violations| &&
                         |WithKey(violations, PlateKey, PlateKey(violations[i]))| >= min) ==>
              exists j :: 0 <= j < |r| && r[j].key == PlateKey(violations[i])
  {
    forall i | 0 <= i < |violations| && |WithKey(violations, PlateKey, PlateKey(violations[i]))| >= min
      ensures exists j :: 0 <= j < |r| && r[j].key == PlateKey(violations[i])
    {
      EntryExists(violations, PlateKey, i);
      var j :| 0 <= j < |gs| && gs[j].key == PlateKey(violations[i]);
      assert gs[j] in multiset(ov);
      var k :| 0 <= k < |ov| && ov[k] == gs[j];
      assert CountAtLeast(min)(ov[k]);
      assert ov[k] in picked;
      SortDescMembers(picked, CountKey, ov[k]);
    }
  }

  /** `item.id`. */
  function IdOf(v: Fields): Option<Value>
  {
    Get(v, "id")
  }

  function IdIs(id: Option<Value>): Fields -> bool
  {
    v => IdOf(v) == id
  }

  function IdIsNot(id: Option<Value>): Fields -> bool
  {
    v => IdOf(v) != id
  }

  /** deleteVehicle / deleteViolation: every item with the id removed, the others kept in order. */
  function DeleteById(items: seq<Fields>, id: Option<Value>): (r: seq<Fields>)
    ensures forall i :: 0 <= i < |r| ==> IdOf(r[i]) != id && r[i] in items
    ensures forall i :: 0 <= i < |items| && IdOf(items[i]) != id ==> items[i] in r
    ensures IsSubseq(r, items)
    ensures |r| + |Filter(items, IdIs(id))| == |items|
  {
    FilterComplement(items, IdIsNot(id), IdIs(id));
    Filter(items, IdIsNot(id))
  }

  /** `items.find(x => x.id === id)`, as an index, with |items| standing for -1. */
  function IndexOfId(items: seq<Fields>, id: Option<Value>): (i: nat)
    ensures i <= |items|
    ensures i < |items| ==> IdOf(items[i]) == id
    ensures forall j :: 0 <= j < i ==> IdOf(items[j]) != id
    decreases |items|
  {
    if items == [] then 0 else if IdOf(items[0]) == id then 0 else 1 + IndexOfId(items[1..], id)
  }

  /** updateViolationStatus: sets the first matching violation's status, notes (default
      '') and update time; null, with nothing changed, when no violation has the id. */
  function UpdateViolationStatus(violations: seq<Fields>, id: Option<Value>, status: Option<Value>,
                                 notes: Option<Value>, now: string): (r: (seq<Fields>, Option<Fields>))
    ensures r.1.None? <==> forall j :: 0 <= j < |violations| ==> IdOf(violations[j]) != id
    ensures r.1.None? ==> r.0 == violations
    ensures r.1.Some? ==>
              var i := IndexOfId(violations, id);
              i < |violations| && r.0 == violations[i := r.1.value] &&
              Get(r.1.value, "status") == status &&
              Get(r.1.value, "notes") == Some(if notes.None? then Str("") else notes.value) &&
              Get(r.1.value, "updatedAt") == Some(Str(now)) &&
              forall k :: k !in {"status", "notes", "updatedAt"} ==> Get(r.1.value, k) == Get(violations[i], k)
  {
    var i := IndexOfId(violations, id);
    if i == |violations| then (violations, None)
    else
      var n := if notes.None? then Str("") else notes.value;
      var v := Put(violations[i], "status", status)["notes" := n]["updatedAt" := Str(now)];
      (violations[i := v], Some(v))
  }

  /** One criterion of advancedSearch: the field it reads, the wanted value, and whether it
      is a substring test (`includes`) or an exact one (`===`). */
  datatype Criterion = Criterion(field: string, wanted: Value, substring: bool)

  /** Whether an item passes a criterion. */
  function Passes(c: Criterion): Fields -> bool
  {
    v => if c.substring then Text(Get(v, c.field)).Some? && Includes(Text(Get(v, c.field)).value, ValueToString(c.wanted))
         else Get(v, c.field) == Some(c.wanted)
  }

  /** Whether testing an item against a criterion throws (`includes` on a non-string). */
  predicate Throws(c: Criterion, v: Fields)
  {
    c.substring && Text(Get(v, c.field)).None?
  }

  /** The fields advancedSearch consults, in its order, and how. */
  const SearchFields: seq<(string, bool)> :=
    [("plateNumber", true), ("vehicleType", false), ("color", false), ("buildingNumber", false), ("ownerName", true)]

  /** The criteria that are set (truthy), in order. */
  function ActiveCriteria(criteria: Fields, fields: seq<(string, bool)>): (cs: seq<Criterion>)
    ensures |cs| <= |fields|
    ensures forall j :: 0 <= j < |cs| ==> Truthy(Get(criteria, cs[j].field)) && Get(criteria, cs[j].field) == Some(cs[j].wanted)
    ensures forall j :: 0 <= j < |cs| ==> exists i :: 0 <= i < |fields| && fields[i] == (cs[j].field, cs[j].substring)
    decreases |fields|
  {
    if fields == [] then []
    else
      var rest := ActiveCriteria(criteria, fields[1..]);
      var v := Get(criteria, fields[0].0);
      assert forall j :: 0 <= j < |rest| ==> exists i :: 0 <= i < |fields| && fields[i] == (rest[j].field, rest[j].substring) by {
        forall j | 0 <= j < |rest|
          ensures exists i :: 0 <= i < |fields| && fields[i] == (rest[j].field, rest[j].substring)
        {
          var i :| 0 <= i < |fields[1..]| && fields[1..][i] == (rest[j].field, rest[j].substring);
          assert fields[i + 1] == fields[1..][i];
        }
      }
      if Truthy(v) then [Criterion(fields[0].0, v.value, fields[0].1)] + rest else rest
  }

  /** Passing every criterion of a list. */
  function PassesAll(cs: seq<Criterion>): Fields -> bool
  {
    v => AllPass(cs, v)
  }

  /** v passes every criterion of cs. */
  predicate AllPass(cs: seq<Criterion>, v: Fields)
  {
    forall j :: 0 <= j < |cs| ==> Passes(cs[j])(v)
  }

  /** Passing a list of criteria headed by c is passing c and then the rest. */
  lemma PassesAllCons(c: Criterion, rest: seq<Criterion>)
    ensures forall v :: PassesAll([c] + rest)(v) == (Passes(c)(v) && PassesAll(rest)(v))
  {
    ConsIndex(c, rest);
    forall v
      ensures AllPass([c] + rest, v) == (Passes(c)(v) && AllPass(rest, v))
    {
      assert ([c] + rest)[0] == c;
      if Passes(c)(v) && AllPass(rest, v) {
        forall j | 0 <= j < |[c] + rest|
          ensures Passes(([c] + rest)[j])(v)
        {
          if j > 0 {
            assert ([c] + rest)[j] == rest[j - 1];
          }
        }
      }
      if AllPass([c] + rest, v) {
        forall j | 0 <= j < |rest|
          ensures Passes(rest[j])(v)
        {
          assert ([c] + rest)[j + 1] == rest[j];
        }
      }
    }
  }

  /** The successive `results = results.filter(...)` steps; None when a step throws. */
  function Narrow(items: seq<Fields>, cs: seq<Criterion>): (r: Option<seq<Fields>>)
    ensures r.Some? ==> r.value == Filter(items, PassesAll(cs))
    ensures (forall j, i :: 0 <= j < |cs| && 0 <= i < |items| ==> !Throws(cs[j], items[i])) ==> r.Some?
    ensures r.None? ==> exists j, i :: 0 <= j < |cs| && 0 <= i < |items| && Throws(cs[j], items[i])
    decreases |cs|, 1
  {
    if cs == [] then
      FilterAll(items, PassesAll(cs));
      Some(items)
    else if exists i :: 0 <= i < |items| && Throws(cs[0], items[i]) then None
    else
      var first := Filter(items, Passes(cs[0]));
      var r := Narrow(first, cs[1..]);
      NarrowStep(items, cs, r);
      r
  }

  lemma NarrowStep(items: seq<Fields>, cs: seq<Criterion>, r: Option<seq<Fields>>)
    requires cs != []
    requires r.Some? ==> r.value == Filter(Filter(items, Passes(cs[0])), PassesAll(cs[1..]))
    requires (forall j, i :: 0 <= j < |cs[1..]| && 0 <= i < |Filter(items, Passes(cs[0]))| ==>
                !Throws(cs[1..][j], Filter(items, Passes(cs[0]))[i])) ==> r.Some?
    requires r.None? ==>
               exists j, i :: 0 <= j < |cs[1..]| && 0 <= i < |Filter(items, Passes(cs[0]))| &&
                 Throws(cs[1..][j], Filter(items, Passes(cs[0]))[i])
    ensures r.Some? ==> r.value == Filter(items, PassesAll(cs))
    ensures (forall j, i :: 0 <= j < |cs| && 0 <= i < |items| ==> !Throws(cs[j], items[i])) ==> r.Some?
    ensures r.None? ==> exists j, i :: 0 <= j < |cs| && 0 <= i < |items| && Throws(cs[j], items[i])
  {
    NarrowKeeps(items, cs);
    NarrowNoThrow(items, cs);
    NarrowThrow(items, cs);
  }

  lemma NarrowKeeps(items: seq<Fields>, cs: seq<Criterion>)
    requires cs != []
    ensures Filter(Filter(items, Passes(cs[0])), PassesAll(cs[1..])) == Filter(items, PassesAll(cs))
  {
    assert [cs[0]] + cs[1..] == cs;
    PassesAllCons(cs[0], cs[1..]);
    FilterConj(items, Passes(cs[0]), PassesAll(cs[1..]), PassesAll(cs));
  }

  lemma NarrowNoThrow(items: seq<Fields>, cs: seq<Criterion>)
    requires cs != []
    ensures var first := Filter(items, Passes(cs[0]));
            (forall j, i :: 0 <= j < |cs| && 0 <= i < |items| ==> !Throws(cs[j], items[i])) ==>
            (forall j, i :: 0 <= j < |cs[1..]| && 0 <= i < |first| ==> !Throws(cs[1..][j], first[i]))
  {
    var first := Filter(items, Passes(cs[0]));
    if forall j, i :: 0 <= j < |cs| && 0 <= i < |items| ==> !Throws(cs[j], items[i]) {
      forall j, i | 0 <= j < |cs[1..]| && 0 <= i < |first|
        ensures !Throws(cs[1..][j], first[i])
      {
        var k :| 0 <= k < |items| && items[k] == first[i];
        assert cs[1..][j] == cs[j + 1];
      }
    }
  }

  lemma NarrowThrow(items: seq<Fields>, cs: seq<Criterion>)
    requires cs != []
    ensures var first := Filter(items, Passes(cs[0]));
            (exists j, i :: 0 <= j < |cs[1..]| && 0 <= i < |first| && Throws(cs[1..][j], first[i])) ==>
            (exists j, i :: 0 <= j < |cs| && 0 <= i < |items| && Throws(cs[j], items[i]))
  {
    var first := Filter(items, Passes(cs[0]));
    if exists j, i :: 0 <= j < |cs[1..]| && 0 <= i < |first| && Throws(cs[1..][j], first[i]) {
      var j, i :| 0 <= j < |cs[1..]| && 0 <= i < |first| && Throws(cs[1..][j], first[i]);
      var k :| 0 <= k < |items| && items[k] == first[i];
      assert Throws(cs[j + 1], items[k]);
    }
  }

  /** v passes every criterion of cs before the j-th and makes the j-th throw. */
  predicate StopsAt(cs: seq<Criterion>, j: int, v: Fields)
  {
    0 <= j < |cs| && AllPass(cs[..j], v) && Throws(cs[j], v)
  }

  /** Some item of items stops the narrowing by cs. */
  predicate Stopped(items: seq<Fields>, cs: seq<Criterion>)
  {
    exists j, i :: 0 <= j < |cs| && 0 <= i < |items| && StopsAt(cs, j, items[i])
  }

  /** The narrowing throws exactly when some item passes every criterion before one that
      it makes throw: the filters before that one have kept it. */
  lemma {:induction false} NarrowNone(items: seq<Fields>, cs: seq<Criterion>)
    ensures Narrow(items, cs).None? <==> Stopped(items, cs)
    decreases |cs|
  {
    if cs != [] {
      if exists i :: 0 <= i < |items| && Throws(cs[0], items[i]) {
        var i :| 0 <= i < |items| && Throws(cs[0], items[i]);
        assert AllPass(cs[..0], items[i]);
        assert StopsAt(cs, 0, items[i]);
      } else {
        var first := Filter(items, Passes(cs[0]));
        NarrowNone(first, cs[1..]);
        StoppedLater(items, cs);
        StoppedEarlier(items, cs);
      }
    }
  }

  /** An item stopping the rest of the criteria after the first filter stops them all. */
  lemma StoppedLater(items: seq<Fields>, cs: seq<Criterion>)
    requires cs != []
    ensures Stopped(Filter(items, Passes(cs[0])), cs[1..]) ==> Stopped(items, cs)
  {
    var first := Filter(items, Passes(cs[0]));
    if Stopped(first, cs[1..]) {
      var j, k :| 0 <= j < |cs[1..]| && 0 <= k < |first| && StopsAt(cs[1..], j, first[k]);
      var i :| 0 <= i < |items| && items[i] == first[k];
      assert cs[..j + 1] == [cs[0]] + cs[1..][..j];
      PassesAllCons(cs[0], cs[1..][..j]);
      assert cs[1..][j] == cs[j + 1];
      assert StopsAt(cs, j + 1, items[i]);
    }
  }

  /** When no item throws on the first criterion, an item stopping the narrowing survives
      the first filter and stops the rest. */
  lemma StoppedEarlier(items: seq<Fields>, cs: seq<Criterion>)
    requires cs != []
    requires forall i :: 0 <= i < |items| ==> !Throws(cs[0], items[i])
    ensures Stopped(items, cs) ==> Stopped(Filter(items, Passes(cs[0])), cs[1..])
  {
    var first := Filter(items, Passes(cs[0]));
    if Stopped(items, cs) {
      var j, i :| 0 <= j < |cs| && 0 <= i < |items| && StopsAt(cs, j, items[i]);
      assert j > 0;
      assert cs[..j] == [cs[0]] + cs[1..][..j - 1];
      PassesAllCons(cs[0], cs[1..][..j - 1]);
      var k :| 0 <= k < |first| && first[k] == items[i];
      assert cs[1..][j - 1] == cs[j];
      assert StopsAt(cs[1..], j - 1, first[k]);
    }
  }

  /** Adding a field at the end of the form adds its criterion at the end when it is set. */
  lemma {:induction false} ActiveCriteriaSnoc(criteria: Fields, fields: seq<(string, bool)>, f: (string, bool))
    ensures ActiveCriteria(criteria, fields + [f]) ==
              ActiveCriteria(criteria, fields) + (if Truthy(Get(criteria, f.0)) then [CriterionFor(criteria, f)] else [])
    decreases |fields|
  {
    if fields != [] {
      assert (fields + [f])[1..] == fields[1..] + [f];
      ActiveCriteriaSnoc(criteria, fields[1..], f);
    } else {
      assert ([] + [f])[1..] == [];
    }
  }


  /** Whether an item meets every set criterion of advancedSearch; unset ones are skipped. */
  predicate MeetsCriteria(criteria: Fields, v: Fields)
  {
    FieldsPass(criteria, SearchFields, v)
  }

  /** advancedSearch: the vehicles meeting every set criterion, in stored order. */
  function AdvancedSearch(vehicles: seq<Fields>, criteria: Fields): (r: Option<seq<Fields>>)
    ensures r.Some? ==>
              (forall i :: 0 <= i < |r.value| ==> r.value[i] in vehicles && MeetsCriteria(criteria, r.value[i])) &&
              (forall i :: 0 <= i < |vehicles| && MeetsCriteria(criteria, vehicles[i]) ==> vehicles[i] in r.value) &&
              IsSubseq(r.value, vehicles)
    ensures r.Some? ==> r.value == Filter(vehicles, (v: Fields) => MeetsCriteria(criteria, v))
    ensures (forall i :: 0 <= i < |vehicles| ==>
               (Truthy(Get(criteria, "plateNumber")) ==> Text(Get(vehicles[i], "plateNumber")).Some?) &&
               (Truthy(Get(criteria, "ownerName")) ==> Text(Get(vehicles[i], "ownerName")).Some?)) ==> r.Some?
    ensures r.None? ==>
              exists i :: 0 <= i < |vehicles| &&
                ((Truthy(Get(criteria, "plateNumber")) && Text(Get(vehicles[i], "plateNumber")).None?) ||
                 (Truthy(Get(criteria, "ownerName")) && Text(Get(vehicles[i], "ownerName")).None?))
    ensures r.None? <==> PlateThrows(vehicles, criteria) || OwnerThrows(vehicles, criteria)
  {
    SearchSelects(vehicles, criteria);
    SearchThrows(vehicles, criteria);
    SearchThrowsExact(vehicles, criteria);
    Narrow(vehicles, ActiveCriteria(criteria, SearchFields))
  }

  /** What the narrowing returns is exactly the vehicles meeting the criteria. */
  lemma SearchSelects(vehicles: seq<Fields>, criteria: Fields)
    ensures var r := Narrow(vehicles, ActiveCriteria(criteria, SearchFields));
      r.Some? ==>
        (forall i :: 0 <= i < |r.value| ==> r.value[i] in vehicles && MeetsCriteria(criteria, r.value[i])) &&
        (forall i :: 0 <= i < |vehicles| && MeetsCriteria(criteria, vehicles[i]) ==> vehicles[i] in r.value) &&
        IsSubseq(r.value, vehicles) &&
        r.value == Filter(vehicles, (v: Fields) => MeetsCriteria(criteria, v))
  {
    var cs := ActiveCriteria(criteria, SearchFields);
    CriteriaAgree(criteria, cs);
    FilterExt(vehicles, PassesAll(cs), (v: Fields) => MeetsCriteria(criteria, v));
  }

  /** The narrowing fails exactly when a set text criterion meets a vehicle whose field is not a string. */
  lemma SearchThrows(vehicles: seq<Fields>, criteria: Fields)
    ensures var r := Narrow(vehicles, ActiveCriteria(criteria, SearchFields));
      (forall i :: 0 <= i < |vehicles| ==>
         (Truthy(Get(criteria, "plateNumber")) ==> Text(Get(vehicles[i], "plateNumber")).Some?) &&
         (Truthy(Get(criteria, "ownerName")) ==> Text(Get(vehicles[i], "ownerName")).Some?)) ==> r.Some?
    ensures var r := Narrow(vehicles, ActiveCriteria(criteria, SearchFields));
      r.None? ==>
        exists i :: 0 <= i < |vehicles| &&
          ((Truthy(Get(criteria, "plateNumber")) && Text(Get(vehicles[i], "plateNumber")).None?) ||
           (Truthy(Get(criteria, "ownerName")) && Text(Get(vehicles[i], "ownerName")).None?))
  {
    var cs := ActiveCriteria(criteria, SearchFields);
    var r := Narrow(vehicles, cs);
    CriteriaAgree(criteria, cs);
    if r.None? {
      var j, i :| 0 <= j < |cs| && 0 <= i < |vehicles| && Throws(cs[j], vehicles[i]);
      assert (cs[j].field == "plateNumber" || cs[j].field == "ownerName") && Truthy(Get(criteria, cs[j].field)) &&
             Text(Get(vehicles[i], cs[j].field)).None?;
    }
  }

  /** The plate filter runs first, over every vehicle: a set plate criterion throws on any
      vehicle whose plate is not a string. */
  predicate PlateThrows(vehicles: seq<Fields>, criteria: Fields)
  {
    Truthy(Get(criteria, "plateNumber")) &&
    exists i :: 0 <= i < |vehicles| && Text(Get(vehicles[i], "plateNumber")).None?
  }

  /** The owner filter runs last: a set owner criterion throws on a vehicle that passed the
      plate, type, colour and building filters and whose owner is not a string. */
  predicate OwnerThrows(vehicles: seq<Fields>, criteria: Fields)
  {
    Truthy(Get(criteria, "ownerName")) &&
    exists i :: 0 <= i < |vehicles| && FieldsPass(criteria, SearchFields[..4], vehicles[i]) &&
      Text(Get(vehicles[i], "ownerName")).None?
  }

  /** The narrowing throws exactly in the two cases above. */
  lemma SearchThrowsExact(vehicles: seq<Fields>, criteria: Fields)
    ensures Narrow(vehicles, ActiveCriteria(criteria, SearchFields)).None? <==>
              PlateThrows(vehicles, criteria) || OwnerThrows(vehicles, criteria)
  {
    var cs := ActiveCriteria(criteria, SearchFields);
    NarrowNone(vehicles, cs);
    SearchCriteriaSplit(criteria);
    if Stopped(vehicles, cs) {
      var j, i :| 0 <= j < |cs| && 0 <= i < |vehicles| && StopsAt(cs, j, vehicles[i]);
      StopsAtField(vehicles, criteria, j, i);
    }
    PlateStops(vehicles, criteria);
    OwnerStops(vehicles, criteria);
  }

  /** The search criteria are those of the first four fields, then the owner's when set. */
  lemma SearchCriteriaSplit(criteria: Fields)
    ensures ActiveCriteria(criteria, SearchFields) ==
              ActiveCriteria(criteria, SearchFields[..4]) +
              (if Truthy(Get(criteria, "ownerName")) then [CriterionFor(criteria, SearchFields[4])] else [])
    ensures forall j :: 0 <= j < |ActiveCriteria(criteria, SearchFields[..4])| ==>
              ActiveCriteria(criteria, SearchFields[..4])[j].field != "ownerName"
  {
    assert SearchFields[..4] + [SearchFields[4]] == SearchFields;
    ActiveCriteriaSnoc(criteria, SearchFields[..4], SearchFields[4]);
    var cs4 := ActiveCriteria(criteria, SearchFields[..4]);
    forall j | 0 <= j < |cs4|
      ensures cs4[j].field != "ownerName"
    {
      var t :| 0 <= t < |SearchFields[..4]| && SearchFields[..4][t] == (cs4[j].field, cs4[j].substring);
    }
  }

  /** A vehicle that stops the search does so at the plate or at the owner criterion. */
  lemma StopsAtField(vehicles: seq<Fields>, criteria: Fields, j: int, i: int)
    requires 0 <= i < |vehicles|
    requires StopsAt(ActiveCriteria(criteria, SearchFields), j, vehicles[i])
    ensures PlateThrows(vehicles, criteria) || OwnerThrows(vehicles, criteria)
  {
    var cs := ActiveCriteria(criteria, SearchFields);
    var cs4 := ActiveCriteria(criteria, SearchFields[..4]);
    SearchCriteriaSplit(criteria);
    CriteriaAgree(criteria, cs);
    assert Throws(cs[j], vehicles[i]);
    if cs[j].field == "ownerName" {
      assert j == |cs4|;
      assert cs[..j] == cs4;
      ActiveCriteriaExact(criteria, SearchFields[..4], vehicles[i]);
      assert FieldsPass(criteria, SearchFields[..4], vehicles[i]);
    }
  }

  /** A set plate criterion is the first one, so a vehicle without a string plate stops it. */
  lemma PlateStops(vehicles: seq<Fields>, criteria: Fields)
    ensures PlateThrows(vehicles, criteria) ==> Stopped(vehicles, ActiveCriteria(criteria, SearchFields))
  {
    var cs := ActiveCriteria(criteria, SearchFields);
    if PlateThrows(vehicles, criteria) {
      var i :| 0 <= i < |vehicles| && Text(Get(vehicles[i], "plateNumber")).None?;
      assert cs[0] == CriterionFor(criteria, SearchFields[0]);
      assert AllPass(cs[..0], vehicles[i]);
      assert StopsAt(cs, 0, vehicles[i]);
    }
  }

  /** A set owner criterion is the last one, so a vehicle passing the other four without a
      string owner stops it. */
  lemma OwnerStops(vehicles: seq<Fields>, criteria: Fields)
    ensures OwnerThrows(vehicles, criteria) ==> Stopped(vehicles, ActiveCriteria(criteria, SearchFields))
  {
    var cs := ActiveCriteria(criteria, SearchFields);
    var cs4 := ActiveCriteria(criteria, SearchFields[..4]);
    if OwnerThrows(vehicles, criteria) {
      SearchCriteriaSplit(criteria);
      var i :| 0 <= i < |vehicles| && FieldsPass(criteria, SearchFields[..4], vehicles[i]) &&
        Text(Get(vehicles[i], "ownerName")).None?;
      ActiveCriteriaExact(criteria, SearchFields[..4], vehicles[i]);
      assert cs[..|cs4|] == cs4;
      assert StopsAt(cs, |cs4|, vehicles[i]);
    }
  }

  /** The set criteria, taken one by one, say what MeetsCriteria says, and only the two
      substring tests can throw. */
  lemma CriteriaAgree(criteria: Fields, cs: seq<Criterion>)
    requires cs == ActiveCriteria(criteria, SearchFields)
    ensures forall v :: PassesAll(cs)(v) <==> MeetsCriteria(criteria, v)
    ensures forall j, v :: 0 <= j < |cs| && Throws(cs[j], v) ==>
              (cs[j].field == "plateNumber" || cs[j].field == "ownerName") && Truthy(Get(criteria, cs[j].field)) &&
              Text(Get(v, cs[j].field)).None?
  {
    forall v
      ensures PassesAll(cs)(v) <==> MeetsCriteria(criteria, v)
    {
      ActiveCriteriaExact(criteria, SearchFields, v);
    }
  }

  /** The criterion a field of the search form stands for. */
  function CriterionFor(criteria: Fields, f: (string, bool)): Criterion
    requires Truthy(Get(criteria, f.0))
  {
    Criterion(f.0, Get(criteria, f.0).value, f.1)
  }

  /** Every field whose criterion is set is passed. */
  predicate FieldsPass(criteria: Fields, fields: seq<(string, bool)>, v: Fields)
  {
    forall i :: 0 <= i < |fields| && Truthy(Get(criteria, fields[i].0)) ==> Passes(CriterionFor(criteria, fields[i]))(v)
  }

  /** Passing the active criteria is passing every field whose criterion is set. */
  lemma {:induction false} ActiveCriteriaExact(criteria: Fields, fields: seq<(string, bool)>, v: Fields)
    ensures PassesAll(ActiveCriteria(criteria, fields))(v) <==> FieldsPass(criteria, fields, v)
    decreases |fields|
  {
    if fields != [] {
      ActiveCriteriaExact(criteria, fields[1..], v);
      var rest := ActiveCriteria(criteria, fields[1..]);
      var c := Get(criteria, fields[0].0);
      assert FieldsPass(criteria, fields, v) <==>
             (Truthy(c) ==> Passes(CriterionFor(criteria, fields[0]))(v)) && FieldsPass(criteria, fields[1..], v) by {
        assert forall i :: 1 <= i < |fields| ==> fields[i] == fields[1..][i - 1];
      }
      if Truthy(c) {
        assert ActiveCriteria(criteria, fields) == [CriterionFor(criteria, fields[0])] + rest;
        PassesAllCons(CriterionFor(criteria, fields[0]), rest);
      }
    }
  }

  /** With no criterion set, advancedSearch returns every vehicle. */
  lemma SearchWithoutCriteria(vehicles: seq<Fields>, criteria: Fields)
    requires forall i :: 0 <= i < |SearchFields| ==> !Truthy(Get(criteria, SearchFields[i].0))
    ensures AdvancedSearch(vehicles, criteria) == Some(vehicles)
  {
    var cs := ActiveCriteria(criteria, SearchFields);
    assert cs == [] by {
      if cs != [] {
        var i :| 0 <= i < |SearchFields| && SearchFields[i] == (cs[0].field, cs[0].substring);
      }
    }
    FilterAll(vehicles, PassesAll(cs));
  }
}
