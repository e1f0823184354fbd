/** The plate-keyed vehicle cache kept next to the violation records: each
    vehicle's violation count, latest violation date and risk status are
    recomputed from the violations, vehicles are created for plates that
    have none, and repeat offenders are ranked by count. A vehicle is a
    schemaless object keyed by its `plateNumber`; plates are compared with
    `===`, so two records without a plate share the (undefined) plate. */
module VehicleCache {
  import opened Values
  import opened Seqs
  import opened Sorting
  import opened Grouping
  import opened Database

  /** `vehicle.plateNumber`. */
  function PlateOf(v: Fields): Option<Value>
  {
    Get(v, "plateNumber")
  }

  /** `violation.plateNumber`. */
  function ViolationPlate(x: Record): Option<Value>
  {
    Get(x.fields, "plateNumber")
  }

  /** `violation.date || violation.createdDate`. */
  function DateOf(x: Record): Option<Value>
  {
    Or(Get(x.fields, "date"), Get(x.fields, "createdDate"))
  }

  /** The sort key `new Date(date || createdDate)`, with date parsing given as `when`. */
  function DateKey(when: Option<Value> -> int): Record -> int
  {
    x => when(DateOf(x))
  }

  const Danger: string := "خطر"
  const Warning: string := "تحذير"
  const Normal: string := "نشط"

  /** The risk status for a violation count: thresholds at 5 and 3. */
  function Classify(n: nat): (s: string)
    ensures s == Danger <==> n >= 5
    ensures s == Warning <==> 3 <= n < 5
    ensures s == Normal <==> n < 3
  {
    if n >= 5 then Danger else if n >= 3 then Warning else Normal
  }

  /** The level a status stands for (0 normal, 1 warning, 2 danger). */
  function Level(s: string): nat
  {
    if s == Danger then 2 else if s == Warning then 1 else 0
  }

  /** More violations never mean a lower risk level. */
  lemma ClassifyMonotone(m: nat, n: nat)
    requires m <= n
    ensures Level(Classify(m)) <= Level(Classify(n))
  {
  }

  /** The predicate `x => x.plateNumber === plate` on violations. */
  function ViolationPlateIs(plate: Option<Value>): Record -> bool
  {
    x => ViolationPlate(x) == plate
  }

  /** The violations whose plate is exactly the vehicle's, in stored order. */
  function PlateViolations(violations: seq<Record>, plate: Option<Value>): (r: seq<Record>)
    ensures forall i :: 0 <= i < |r| ==> r[i] in violations && ViolationPlate(r[i]) == plate
    ensures forall i :: 0 <= i < |violations| && ViolationPlate(violations[i]) == plate ==> violations[i] in r
    ensures IsSubseq(r, violations)
    ensures |r| + |Filter(violations, Not(ViolationPlateIs(plate)))| == |violations|
  {
    WithKeyIsFilter(violations, ViolationPlate, plate, ViolationPlateIs(plate));
    FilterSplit(violations, ViolationPlateIs(plate));
    WithKey(violations, ViolationPlate, plate)
  }

  lemma CacheKeysApart()
    ensures "violationsCount" != "lastViolationDate" && "violationsCount" != "status"
    ensures "lastViolationDate" != "status"
    ensures "plateNumber" !in {"violationsCount", "lastViolationDate", "status"}
  {
  }

  /** `vs.sort((a, b) => when(b) - when(a))[0]`: a violation with the latest date. */
  function Latest(vs: seq<Record>, when: Option<Value> -> int): (d: Record)
    requires vs != []
    ensures d in vs
    ensures forall i :: 0 <= i < |vs| ==> when(DateOf(vs[i])) <= when(DateOf(d))
  {
    SortDescHeadIsMax(vs, DateKey(when));
    SortDesc(vs, DateKey(when))[0]
  }

  /** Writes the three cached properties and leaves every other one alone. */
  function Stamp(v: Fields, n: nat, last: Option<Value>, status: string): (r: Fields)
    ensures Get(r, "violationsCount") == Some(Num(n))
    ensures Get(r, "lastViolationDate") == last
    ensures Get(r, "status") == Some(Str(status))
    ensures forall k :: k !in {"violationsCount", "lastViolationDate", "status"} ==> Get(r, k) == Get(v, k)
  {
    CacheKeysApart();
    Put(v["violationsCount" := Num(n)], "lastViolationDate", last)["status" := Str(status)]
  }

  /** One pass of the `forEach` in calculateVehicleViolations: count the vehicle's
      violations, take the date of the latest one and classify the count. */
  function RecomputeOne(v: Fields, violations: seq<Record>, when: Option<Value> -> int): (r: Fields)
    ensures Get(r, "violationsCount") == Some(Num(|PlateViolations(violations, PlateOf(v))|))
    ensures Get(r, "status") == Some(Str(Classify(|PlateViolations(violations, PlateOf(v))|)))
    ensures PlateViolations(violations, PlateOf(v)) == [] ==> Get(r, "lastViolationDate") == Some(Null)
    ensures PlateViolations(violations, PlateOf(v)) != [] ==>
              exists i :: 0 <= i < |violations| && ViolationPlate(violations[i]) == PlateOf(v) &&
                Get(r, "lastViolationDate") == DateOf(violations[i]) &&
                forall j :: 0 <= j < |violations| && ViolationPlate(violations[j]) == PlateOf(v) ==>
                  when(DateOf(violations[j])) <= when(DateOf(violations[i]))
    ensures forall k :: k !in {"violationsCount", "lastViolationDate", "status"} ==> Get(r, k) == Get(v, k)
  {
    var vs := PlateViolations(violations, PlateOf(v));
    if vs == [] then
      Stamp(v, 0, Some(Null), Normal)
    else
      var latest := Latest(vs, when);
      LatestIsMax(violations, vs, PlateOf(v), when, latest);
      Stamp(v, |vs|, DateOf(latest), Classify(|vs|))
  }

  lemma LatestIsMax(violations: seq<Record>, vs: seq<Record>, plate: Option<Value>,
                    when: Option<Value> -> int, latest: Record)
    requires vs == PlateViolations(violations, plate)
    requires latest in vs
    requires forall i :: 0 <= i < |vs| ==> when(DateOf(vs[i])) <= when(DateOf(latest))
    ensures exists i :: 0 <= i < |violations| && ViolationPlate(violations[i]) == plate &&
              DateOf(latest) == DateOf(violations[i]) &&
              forall j :: 0 <= j < |violations| && ViolationPlate(violations[j]) == plate ==>
                when(DateOf(violations[j])) <= when(DateOf(violations[i]))
  {
    var i :| 0 <= i < |violations| && violations[i] == latest;
    forall j | 0 <= j < |violations| && ViolationPlate(violations[j]) == plate
      ensures when(DateOf(violations[j])) <= when(DateOf(violations[i]))
    {
      var k :| 0 <= k < |vs| && vs[k] == violations[j];
    }
  }

  /** The pass keeps the plate. */
  lemma RecomputeOneKeepsPlate(v: Fields, violations: seq<Record>, when: Option<Value> -> int)
    ensures PlateOf(RecomputeOne(v, violations, when)) == PlateOf(v)
  {
    CacheKeysApart();
  }

  /** calculateVehicleViolations: every vehicle recomputed, in place. */
  function Recompute(vehicles: seq<Fields>, violations: seq<Record>, when: Option<Value> -> int): (r: seq<Fields>)
    ensures |r| == |vehicles|
    ensures forall i :: 0 <= i < |r| ==> r[i] == RecomputeOne(vehicles[i], violations, when)
    ensures forall i :: 0 <= i < |r| ==> PlateOf(r[i]) == PlateOf(vehicles[i])
  {
    var r := seq(|vehicles|, i requires 0 <= i < |vehicles| => RecomputeOne(vehicles[i], violations, when));
    assert forall i :: 0 <= i < |r| ==> PlateOf(r[i]) == PlateOf(vehicles[i]) by {
      CacheKeysApart();
    }
    r
  }

  /** Recomputing twice changes nothing more: the pass depends only on the plate, which it keeps. */
  lemma RecomputeIdempotent(vehicles: seq<Fields>, violations: seq<Record>, when: Option<Value> -> int)
    ensures Recompute(Recompute(vehicles, violations, when), violations, when) == Recompute(vehicles, violations, when)
  {
    var once := Recompute(vehicles, violations, when);
    var twice := Recompute(once, violations, when);
    forall i | 0 <= i < |vehicles|
      ensures twice[i] == once[i]
    {
      RecomputeOneIdempotent(vehicles[i], violations, when);
    }
  }

  /** Writing the same three properties twice is writing them once. */
  lemma StampTwice(v: Fields, n: nat, last: Option<Value>, status: string)
    ensures Stamp(Stamp(v, n, last, status), n, last, status) == Stamp(v, n, last, status)
  {
    var a := Stamp(v, n, last, status);
    var b := Stamp(a, n, last, status);
    CacheKeysApart();
    forall k
      ensures k in a <==> k in b
      ensures k in a ==> a[k] == b[k]
    {
      assert Get(b, k) == Get(a, k);
    }
  }

  lemma RecomputeOneIdempotent(v: Fields, violations: seq<Record>, when: Option<Value> -> int)
    ensures RecomputeOne(RecomputeOne(v, violations, when), violations, when) == RecomputeOne(v, violations, when)
  {
    var a := RecomputeOne(v, violations, when);
    RecomputeOneKeepsPlate(v, violations, when);
    var vs := PlateViolations(violations, PlateOf(v));
    if vs == [] {
      StampTwice(v, 0, Some(Null), Normal);
    } else {
      StampTwice(v, |vs|, DateOf(Latest(vs, when)), Classify(|vs|));
    }
  }

  /** `v.violationsCount >= min`, for a numeric count. */
  function AtLeast(min: int): Fields -> bool
  {
    v => var c := Get(v, "violationsCount"); c.Some? && c.value.Num? && c.value.n >= min
  }

  /** The sort key `violationsCount` (0 for a non-numeric count, which the filter has dropped). */
  function CountKey(v: Fields): int
  {
    var c := Get(v, "violationsCount");
    if c.Some? && c.value.Num? then c.value.n else 0
  }

  /** getRepeatedOffenders(min): the vehicles with at least min violations, most first,
      equal counts keeping their stored order. The source's default min is 2. */
  function RepeatedOffenders(vehicles: seq<Fields>, min: int): (r: seq<Fields>)
    ensures forall i :: 0 <= i < |r| ==> r[i] in vehicles && AtLeast(min)(r[i])
    ensures forall i :: 0 <= i < |vehicles| && AtLeast(min)(vehicles[i]) ==> vehicles[i] in r
    ensures SortedDesc(r, CountKey)
    ensures forall n :: WithKey(r, CountKey, n) == WithKey(Filter(vehicles, AtLeast(min)), CountKey, n)
    ensures |r| == |Filter(vehicles, AtLeast(min))|
  {
    var picked := Filter(vehicles, AtLeast(min));
    var r := SortDesc(picked, CountKey);
    forall i | 0 <= i < |r|
      ensures r[i] in vehicles && AtLeast(min)(r[i])
    {
      SortDescMembers(picked, CountKey, r[i]);
      var j :| 0 <= j < |picked| && picked[j] == r[i];
    }
    forall x | x in picked
      ensures x in r
    {
      SortDescMembers(picked, CountKey, x);
    }
    r
  }

  /** The vehicle syncVehiclesFromViolations creates for a violation's plate. */
  function VehicleFromViolation(x: Record, now: string): (v: Fields)
    ensures PlateOf(v) == ViolationPlate(x)
    ensures Get(v, "violationsCount") == Some(Num(0))
    ensures Get(v, "status") == Some(Str(Normal))
    ensures Get(v, "lastViolationDate") == Some(Null)
  {
    var f := map["vehicleType" := OrElse(Get(x.fields, "vehicleType"), Str("غير محدد")),
                 "ownerName" := OrElse(Get(x.fields, "driverName"),
                                       OrElse(Get(x.fields, "ownerName"), Str("غير محدد"))),
                 "ownerPhone" := OrElse(Get(x.fields, "driverPhone"), Str("")),
                 "ownerEmail" := Str(""),
                 "violationsCount" := Num(0),
                 "lastViolationDate" := Null,
                 "status" := Str(Normal),
                 "createdDate" := Str(now),
                 "notes" := Str("تم الإضافة تلقائياً من المخالفات")];
    assert "plateNumber" !in f;
    Put(f, "plateNumber", ViolationPlate(x))
  }

  /** Whether some vehicle carries the plate (`vehicles.find(v => v.plateNumber === p)`). */
  predicate HasPlate(vehicles: seq<Fields>, p: Option<Value>)
  {
    exists j :: 0 <= j < |vehicles| && PlateOf(vehicles[j]) == p
  }

  /** The plates of a list of vehicles. */
  function Plates(vehicles: seq<Fields>): (ps: seq<Option<Value>>)
    ensures |ps| == |vehicles|
    decreases |vehicles|
    ensures forall i :: 0 <= i < |ps| ==> ps[i] == PlateOf(vehicles[i])
  {
    if vehicles == [] then [] else [PlateOf(vehicles[0])] + Plates(vehicles[1..])
  }

  /** Violations whose plate no vehicle of the original list has. */
  function Unmatched(vehicles: seq<Fields>): Record -> bool
  {
    x => !HasPlate(vehicles, ViolationPlate(x))
  }

  /** The vehicles from index n on carry plates that no earlier vehicle carries. */
  predicate FreshFrom(r: seq<Fields>, n: nat)
  {
    forall a, b :: 0 <= a < b < |r| && n <= b ==> PlateOf(r[a]) != PlateOf(r[b])
  }

  /** A vehicle builder that gives the new vehicle the violation's plate. */
  ghost predicate KeepsPlate(make: Record -> Fields)
  {
    forall x :: PlateOf(make(x)) == ViolationPlate(x)
  }

  /** What one step of the reconciliation loop does to the list. */
  function ReconcileAdd(r: seq<Fields>, x: Record, make: Record -> Fields): seq<Fields>
  {
    if HasPlate(r, ViolationPlate(x)) then r else r + [make(x)]
  }

  /** The first loop of syncVehiclesFromViolations, with the vehicle builder as a
      parameter: for each violation in order, add a vehicle when none carries its plate
      yet. The existing vehicles stay in place, every violation plate ends up on the
      list, and each added vehicle is built from a violation and carries a plate no
      other vehicle has. */
  function Reconcile(vehicles: seq<Fields>, violations: seq<Record>, make: Record -> Fields): (r: seq<Fields>)
    requires KeepsPlate(make)
    ensures |r| >= |vehicles| && r[..|vehicles|] == vehicles
    ensures forall i :: 0 <= i < |violations| ==> HasPlate(r, ViolationPlate(violations[i]))
    ensures forall j :: |vehicles| <= j < |r| ==>
              exists i :: 0 <= i < |violations| && r[j] == make(violations[i])
    ensures FreshFrom(r, |vehicles|)
    decreases |violations|
  {
    if violations == [] then vehicles
    else
      var r := Reconcile(vehicles, violations[..|violations| - 1], make);
      ReconcileStep(vehicles, violations, make, r);
      ReconcileAdd(r, violations[|violations| - 1], make)
  }

  lemma ReconcileStep(vehicles: seq<Fields>, violations: seq<Record>, make: Record -> Fields, r: seq<Fields>)
    requires KeepsPlate(make)
    requires violations != []
    requires var init := violations[..|violations| - 1];
             |r| >= |vehicles| && r[..|vehicles|] == vehicles &&
             (forall i :: 0 <= i < |init| ==> HasPlate(r, ViolationPlate(init[i]))) &&
             (forall j :: |vehicles| <= j < |r| ==>
                exists i :: 0 <= i < |init| && r[j] == make(init[i])) &&
             FreshFrom(r, |vehicles|)
    ensures var r' := ReconcileAdd(r, violations[|violations| - 1], make);
            |r'| >= |vehicles| && r'[..|vehicles|] == vehicles &&
            (forall i :: 0 <= i < |violations| ==> HasPlate(r', ViolationPlate(violations[i]))) &&
            (forall j :: |vehicles| <= j < |r'| ==>
               exists i :: 0 <= i < |violations| && r'[j] == make(violations[i])) &&
            FreshFrom(r', |vehicles|)
  {
    var n := |violations| - 1;
    var init := violations[..n];
    var x := violations[n];
    var p := ViolationPlate(x);
    var r' := ReconcileAdd(r, x, make);
    forall i | 0 <= i < n
      ensures violations[i] == init[i]
    {
    }
    if HasPlate(r, p) {
      assert r' == r;
    } else {
      var v := make(x);
      assert r' == r + [v];
      assert r'[..|vehicles|] == r[..|vehicles|];
      forall i | 0 <= i < |violations|
        ensures HasPlate(r', ViolationPlate(violations[i]))
      {
        if i == n {
          assert PlateOf(r'[|r|]) == p;
        } else {
          var j :| 0 <= j < |r| && PlateOf(r[j]) == ViolationPlate(init[i]);
          assert r'[j] == r[j];
        }
      }
      forall j | |vehicles| <= j < |r'|
        ensures exists i :: 0 <= i < |violations| && r'[j] == make(violations[i])
      {
        if j == |r| {
          assert r'[j] == make(violations[n]);
        } else {
          var i :| 0 <= i < |init| && r[j] == make(init[i]);
          assert r'[j] == make(violations[i]);
        }
      }
      forall a, b | 0 <= a < b < |r'| && |vehicles| <= b
        ensures PlateOf(r'[a]) != PlateOf(r'[b])
      {
        if b == |r| {
          assert r'[a] == r[a];
        } else {
          assert r'[a] == r[a] && r'[b] == r[b];
        }
      }
    }
  }

  /** The added vehicles' plates are exactly the distinct plates of the violations no
      original vehicle matched, in order of first occurrence. */
  lemma {:induction false} ReconcileOrder(vehicles: seq<Fields>, violations: seq<Record>, make: Record -> Fields)
    requires KeepsPlate(make)
    ensures var r := Reconcile(vehicles, violations, make);
            Plates(r[|vehicles|..]) == DistinctKeys(Filter(violations, Unmatched(vehicles)), ViolationPlate)
    decreases |violations|
  {
    if violations != [] {
      var n := |violations| - 1;
      var init := violations[..n];
      var r := Reconcile(vehicles, init, make);
      ReconcileOrder(vehicles, init, make);
      assert violations == init + [violations[n]];
      ReconcileOrderStep(vehicles, init, violations[n], make, r);
    }
  }

  lemma ReconcileOrderStep(vehicles: seq<Fields>, init: seq<Record>, x: Record, make: Record -> Fields, r: seq<Fields>)
    requires KeepsPlate(make)
    requires |r| >= |vehicles| && r[..|vehicles|] == vehicles
    requires Plates(r[|vehicles|..]) == DistinctKeys(Filter(init, Unmatched(vehicles)), ViolationPlate)
    ensures Plates(ReconcileAdd(r, x, make)[|vehicles|..]) ==
            DistinctKeys(Filter(init + [x], Unmatched(vehicles)), ViolationPlate)
  {
    var p := ViolationPlate(x);
    var t := Filter(init, Unmatched(vehicles));
    FilterSnoc(init, x, Unmatched(vehicles));
    DistinctKeysSnoc(t, x, ViolationPlate);
    SplitAt(r, |vehicles|);
    PlateOnList(vehicles, r[|vehicles|..], r, p);
    ReconcileAddSuffix(r, |vehicles|, x, make);
    if !Unmatched(vehicles)(x) {
      assert t + [] == t;
    }
  }

  /** The suffix after the original vehicles, after one reconciliation step. */
  lemma ReconcileAddSuffix(r: seq<Fields>, n: nat, x: Record, make: Record -> Fields)
    requires KeepsPlate(make)
    requires n <= |r|
    ensures Plates(ReconcileAdd(r, x, make)[n..]) ==
            if HasPlate(r, ViolationPlate(x)) then Plates(r[n..]) else Plates(r[n..]) + [ViolationPlate(x)]
  {
    if !HasPlate(r, ViolationPlate(x)) {
      assert (r + [make(x)])[n..] == r[n..] + [make(x)];
      PlatesSnoc(r[n..], make(x));
    }
  }

  lemma PlatesSnoc(vs: seq<Fields>, v: Fields)
    ensures Plates(vs + [v]) == Plates(vs) + [PlateOf(v)]
  {
  }

  /** A plate is on vehicles + added exactly when an original vehicle or an added one has it. */
  lemma PlateOnList(vehicles: seq<Fields>, added: seq<Fields>, r: seq<Fields>, p: Option<Value>)
    requires r == vehicles + added
    ensures HasPlate(r, p) <==> HasPlate(vehicles, p) || p in Plates(added)
  {
    if HasPlate(r, p) {
      var j :| 0 <= j < |r| && PlateOf(r[j]) == p;
      if j >= |vehicles| {
        assert Plates(added)[j - |vehicles|] == p;
      } else {
        assert r[j] == vehicles[j];
      }
    }
    if p in Plates(added) {
      var j :| 0 <= j < |added| && Plates(added)[j] == p;
      assert PlateOf(r[|vehicles| + j]) == p;
    }
    if HasPlate(vehicles, p) {
      var j :| 0 <= j < |vehicles| && PlateOf(vehicles[j]) == p;
      assert r[j] == vehicles[j];
    }
  }

  /** The vehicle builder syncVehiclesFromViolations uses at time `now`. */
  function FromViolation(now: string): Record -> Fields
  {
    x => VehicleFromViolation(x, now)
  }

  /** Some vehicle carries the violation's plate and counts at least one violation. */
  predicate CountedFor(vehicles: seq<Fields>, x: Record)
  {
    exists j :: 0 <= j < |vehicles| && PlateOf(vehicles[j]) == ViolationPlate(x) && CountKey(vehicles[j]) >= 1
  }

  /** syncVehiclesFromViolations: reconcile, then recompute every vehicle. Afterwards the
      original vehicles keep their places and plates, and every violation's plate has a
      vehicle whose count includes it. */
  function SyncVehicles(vehicles: seq<Fields>, violations: seq<Record>, now: string,
                        when: Option<Value> -> int): (r: seq<Fields>)
    ensures |r| >= |vehicles|
    ensures forall i :: 0 <= i < |vehicles| ==> PlateOf(r[i]) == PlateOf(vehicles[i])
    ensures forall i :: 0 <= i < |violations| ==>
              CountedFor(r, violations[i])
  {
    var rec := Reconcile(vehicles, violations, FromViolation(now));
    var r := Recompute(rec, violations, when);
    SyncCovers(vehicles, violations, rec, r, when);
    r
  }

  lemma SyncCovers(vehicles: seq<Fields>, violations: seq<Record>, rec: seq<Fields>, r: seq<Fields>,
                   when: Option<Value> -> int)
    requires |rec| >= |vehicles| && rec[..|vehicles|] == vehicles
    requires forall i :: 0 <= i < |violations| ==> HasPlate(rec, ViolationPlate(violations[i]))
    requires r == Recompute(rec, violations, when)
    ensures forall i :: 0 <= i < |vehicles| ==> PlateOf(r[i]) == PlateOf(vehicles[i])
    ensures forall i :: 0 <= i < |violations| ==>
              CountedFor(r, violations[i])
  {
    forall i | 0 <= i < |vehicles|
      ensures PlateOf(r[i]) == PlateOf(vehicles[i])
    {
      assert rec[..|vehicles|][i] == rec[i];
    }
    forall i | 0 <= i < |violations|
      ensures CountedFor(r, violations[i])
    {
      var j :| 0 <= j < |rec| && PlateOf(rec[j]) == ViolationPlate(violations[i]);
      assert violations[i] in PlateViolations(violations, PlateOf(rec[j]));
      assert CountKey(r[j]) == |PlateViolations(violations, PlateOf(rec[j]))|;
    }
  }

  /** `vehicles.findIndex(v => v.plateNumber === p)`, with |vehicles| standing for -1. */
  function PlateIndex(vehicles: seq<Fields>, p: Option<Value>): (i: nat)
    ensures i <= |vehicles|
    ensures i < |vehicles| ==> PlateOf(vehicles[i]) == p
    ensures forall j :: 0 <= j < i ==> PlateOf(vehicles[j]) != p
    decreases |vehicles|
  {
    if vehicles == [] then 0
    else if PlateOf(vehicles[0]) == p then 0
    else 1 + PlateIndex(vehicles[1..], p)
  }

  /** getVehicleByPlateNumber: the first vehicle with exactly that plate. */
  function GetVehicleByPlate(vehicles: seq<Fields>, p: Option<Value>): (r: Option<Fields>)
    ensures r.None? <==> !HasPlate(vehicles, p)
    ensures r.Some? ==> exists i :: 0 <= i < |vehicles| && vehicles[i] == r.value && PlateOf(r.value) == p &&
                          forall j :: 0 <= j < i ==> PlateOf(vehicles[j]) != p
  {
    var i := PlateIndex(vehicles, p);
    if i < |vehicles| then Some(vehicles[i]) else None
  }

  /** The vehicle addOrUpdateVehicle creates for an unknown plate. */
  function NewVehicle(data: Fields, now: string): (v: Fields)
    ensures PlateOf(v) == PlateOf(data)
    ensures Get(v, "violationsCount") == Some(Num(0))
    ensures Get(v, "status") == Some(Str(Normal))
    ensures Get(v, "lastViolationDate") == Some(Null)
  {
    var f := map["vehicleType" := OrElse(Get(data, "vehicleType"), Str("غير محدد")),
                 "ownerName" := OrElse(Get(data, "ownerName"), Str("غير محدد")),
                 "ownerPhone" := OrElse(Get(data, "ownerPhone"), Str("")),
                 "ownerEmail" := OrElse(Get(data, "ownerEmail"), Str("")),
                 "violationsCount" := Num(0),
                 "lastViolationDate" := Null,
                 "status" := Str(Normal),
                 "createdDate" := Str(now),
                 "notes" := OrElse(Get(data, "notes"), Str(""))];
    assert "plateNumber" !in f;
    Put(f, "plateNumber", PlateOf(data))
  }

  /** addOrUpdateVehicle: merges the data into the first vehicle with its plate and stamps
      `updatedDate`, or appends a new vehicle when the plate is unknown. */
  function AddOrUpdateVehicle(vehicles: seq<Fields>, data: Fields, now: string): (r: seq<Fields>)
    ensures HasPlate(vehicles, PlateOf(data)) ==>
              var i := PlateIndex(vehicles, PlateOf(data));
              |r| == |vehicles| &&
              (forall j :: 0 <= j < |r| && j != i ==> r[j] == vehicles[j]) &&
              (forall k :: k != "updatedDate" ==>
                 Get(r[i], k) == (if k in data then Get(data, k) else Get(vehicles[i], k))) &&
              Get(r[i], "updatedDate") == Some(Str(now))
    ensures !HasPlate(vehicles, PlateOf(data)) ==>
              |r| == |vehicles| + 1 && r[..|vehicles|] == vehicles &&
              PlateOf(r[|vehicles|]) == PlateOf(data) &&
              Get(r[|vehicles|], "violationsCount") == Some(Num(0)) &&
              Get(r[|vehicles|], "status") == Some(Str(Normal)) &&
              Get(r[|vehicles|], "lastViolationDate") == Some(Null)
    ensures HasPlate(r, PlateOf(data))
  {
    var i := PlateIndex(vehicles, PlateOf(data));
    if i < |vehicles| then
      vehicles[i := (vehicles[i] + data)["updatedDate" := Str(now)]]
    else
      var r := vehicles + [NewVehicle(data, now)];
      assert PlateOf(r[|vehicles|]) == PlateOf(data);
      r
  }

  /** After addOrUpdateVehicle the plate finds the vehicle it merged into or appended. */
  lemma AddOrUpdateThenGet(vehicles: seq<Fields>, data: Fields, now: string)
    ensures var r := AddOrUpdateVehicle(vehicles, data, now);
            var i := PlateIndex(vehicles, PlateOf(data));
            i < |r| && GetVehicleByPlate(r, PlateOf(data)) == Some(r[i])
  {
    var r := AddOrUpdateVehicle(vehicles, data, now);
    var p := PlateOf(data);
    var i := PlateIndex(vehicles, p);
    if i < |vehicles| {
      assert PlateOf(r[i]) == p by {
        assert "plateNumber" != "updatedDate";
      }
      assert forall j :: 0 <= j < i ==> r[j] == vehicles[j];
      assert PlateIndex(r, p) == i by {
        PlateIndexAt(r, p, i);
      }
    } else {
      assert forall j :: 0 <= j < |vehicles| ==> r[j] == r[..|vehicles|][j];
      PlateIndexAt(r, p, i);
    }
  }

  /** The first position holding the plate is the one PlateIndex finds. */
  lemma {:induction false} PlateIndexAt(vehicles: seq<Fields>, p: Option<Value>, i: nat)
    requires i < |vehicles| && PlateOf(vehicles[i]) == p
    requires forall j :: 0 <= j < i ==> PlateOf(vehicles[j]) != p
    ensures PlateIndex(vehicles, p) == i
    decreases i
  {
    if i > 0 {
      PlateIndexAt(vehicles[1..], p, i - 1);
    }
  }

  /** The predicate `v => v.plateNumber !== p`. */
  function PlateIsNot(p: Option<Value>): Fields -> bool
  {
    v => PlateOf(v) != p
  }

  /** deleteVehicle: drops every vehicle with the plate; fails, changing nothing, when none has it. */
  function DeleteVehicle(vehicles: seq<Fields>, p: Option<Value>): (r: (seq<Fields>, bool))
    ensures !r.1 <==> !HasPlate(vehicles, p)
    ensures !r.1 ==> r.0 == vehicles
    ensures !HasPlate(r.0, p)
    ensures forall j :: 0 <= j < |vehicles| && PlateOf(vehicles[j]) != p ==> vehicles[j] in r.0
    ensures IsSubseq(r.0, vehicles)
    ensures |r.0| + |Filter(vehicles, Not(PlateIsNot(p)))| == |vehicles|
  {
    var kept := Filter(vehicles, PlateIsNot(p));
    FilterKeepsLength(vehicles, PlateIsNot(p));
    FilterSplit(vehicles, PlateIsNot(p));
    if |kept| == |vehicles| then
      FilterAll(vehicles, PlateIsNot(p));
      (vehicles, false)
    else
      (kept, true)
  }

  /** After deleteVehicle the deleted plate is no longer found, and every other plate is
      found exactly when it was found before. */
  lemma DeleteVehicleThenGet(vehicles: seq<Fields>, p: Option<Value>, q: Option<Value>)
    ensures GetVehicleByPlate(DeleteVehicle(vehicles, p).0, p).None?
    ensures q != p ==>
              (GetVehicleByPlate(DeleteVehicle(vehicles, p).0, q).Some? <==> GetVehicleByPlate(vehicles, q).Some?)
  {
    var r := DeleteVehicle(vehicles, p).0;
    if q != p && HasPlate(vehicles, q) {
      var j :| 0 <= j < |vehicles| && PlateOf(vehicles[j]) == q;
      assert vehicles[j] in r;
      var k :| 0 <= k < |r| && r[k] == vehicles[j];
      assert PlateOf(r[k]) == q;
    }
    if q != p && HasPlate(r, q) {
      var k :| 0 <= k < |r| && PlateOf(r[k]) == q;
      SubseqMember(r, vehicles, k);
    }
  }

  /** One vehicle under searchVehicles' test, in its evaluation order: None when the
      test throws (a field that is not a string where `toLowerCase` or `includes` is called). */
  function SearchTest(v: Fields, term: string): (r: Option<bool>)
  {
    var plate := Get(v, "plateNumber");
    var kind := Get(v, "vehicleType");
    var owner := Get(v, "ownerName");
    var phone := Get(v, "ownerPhone");
    if !(plate.Some? && plate.value.Str?) then None
    else if Includes(ToLower(plate.value.s), term) then Some(true)
    else if !(kind.Some? && kind.value.Str?) then None
    else if Includes(ToLower(kind.value.s), term) then Some(true)
    else if !(owner.Some? && owner.value.Str?) then None
    else if Includes(ToLower(owner.value.s), term) then Some(true)
    else if !Truthy(phone) then Some(false)
    else if !phone.value.Str? then None
    else Some(Includes(phone.value.s, term))
  }

  function SearchHit(term: string): Fields -> bool
  {
    v => SearchTest(v, term) == Some(true)
  }

  /** searchVehicles: the vehicles whose plate, type or owner (lower-cased) or phone
      contains the lower-cased term; [] when the test throws on any vehicle. */
  function SearchVehicles(vehicles: seq<Fields>, term: string): (r: seq<Fields>)
    ensures (exists i :: 0 <= i < |vehicles| && SearchTest(vehicles[i], ToLower(term)).None?) ==> r == []
    ensures (forall i :: 0 <= i < |vehicles| ==> SearchTest(vehicles[i], ToLower(term)).Some?) ==>
              (forall i :: 0 <= i < |r| ==> r[i] in vehicles && SearchTest(r[i], ToLower(term)) == Some(true)) &&
              (forall i :: 0 <= i < |vehicles| && SearchTest(vehicles[i], ToLower(term)) == Some(true) ==>
                 vehicles[i] in r) &&
              IsSubseq(r, vehicles) &&
              |r| + |Filter(vehicles, Not(SearchHit(ToLower(term))))| == |vehicles|
  {
    var t := ToLower(term);
    if exists i :: 0 <= i < |vehicles| && SearchTest(vehicles[i], t).None? then []
    else
      FilterSplit(vehicles, SearchHit(t));
      Filter(vehicles, SearchHit(t))
  }

  /** Lower-casing twice is lower-casing once. */
  lemma ToLowerIdempotent(s: string)
    ensures ToLower(ToLower(s)) == ToLower(s)
  {
    var a := ToLower(s);
    assert forall i :: 0 <= i < |s| ==> LowerChar(a[i]) == a[i];
  }

  /** Searching for a vehicle's own plate, in any letter case, finds it. */
  lemma SearchFindsPlate(vehicles: seq<Fields>, i: nat)
    requires i < |vehicles|
    requires PlateOf(vehicles[i]).Some? && PlateOf(vehicles[i]).value.Str?
    requires forall j :: 0 <= j < |vehicles| ==>
               SearchTest(vehicles[j], ToLower(PlateOf(vehicles[i]).value.s)).Some?
    ensures vehicles[i] in SearchVehicles(vehicles, PlateOf(vehicles[i]).value.s)
  {
    var p := PlateOf(vehicles[i]).value.s;
    ToLowerIdempotent(p);
    IncludesSelf(ToLower(p));
    assert SearchTest(vehicles[i], ToLower(p)) == Some(true);
  }

  /** `v.status === s`. */
  function StatusIs(s: string): Fields -> bool
  {
    v => Get(v, "status") == Some(Str(s))
  }

  /** `v.violationType || 'غير محدد'`, as the object key it becomes. */
  function TypeKey(x: Record): string
  {
    ValueToString(OrElse(Get(x.fields, "violationType"), Str("غير محدد")))
  }

  /** The modelled part of getAdvancedStatistics' result. */
  datatype AdvancedStats = AdvancedStats(totalVehicles: nat, totalViolations: nat,
                                         repeatedOffenders: nat, dangerousVehicles: nat,
                                         warningVehicles: nat, violationsByType: map<string, nat>)

  /** getAdvancedStatistics without the per-month table and the average. */
  function AdvancedStatistics(vehicles: seq<Fields>, violations: seq<Record>): (s: AdvancedStats)
    ensures s.totalVehicles == |vehicles| && s.totalViolations == |violations|
    ensures s.dangerousVehicles == |Filter(vehicles, StatusIs(Danger))|
    ensures s.warningVehicles == |Filter(vehicles, StatusIs(Warning))|
    ensures s.dangerousVehicles + s.warningVehicles <= s.totalVehicles
    ensures s.repeatedOffenders == |RepeatedOffenders(vehicles, 2)|
    ensures forall i :: 0 <= i < |violations| ==> TypeKey(violations[i]) in s.violationsByType
    ensures forall k :: k in s.violationsByType ==>
              s.violationsByType[k] == |WithKey(violations, TypeKey, k)| && s.violationsByType[k] >= 1
  {
    FilterDisjointWithin(vehicles, StatusIs(Danger), StatusIs(Warning), (v: Fields) => true);
    FilterAll(vehicles, (v: Fields) => true);
    AdvancedStats(|vehicles|, |violations|, |Filter(vehicles, AtLeast(2))|,
                  |Filter(vehicles, StatusIs(Danger))|, |Filter(vehicles, StatusIs(Warning))|,
                  CountBy(violations, TypeKey))
  }

  /** On a freshly recomputed cache, dangerous and warning vehicles are all repeat offenders. */
  lemma RiskyAreRepeated(vehicles: seq<Fields>, violations: seq<Record>, when: Option<Value> -> int)
    ensures var s := AdvancedStatistics(Recompute(vehicles, violations, when), violations);
            s.dangerousVehicles + s.warningVehicles <= s.repeatedOffenders
  {
    var r := Recompute(vehicles, violations, when);
    forall v | v in r
      ensures StatusIs(Danger)(v) ==> AtLeast(2)(v)
      ensures StatusIs(Warning)(v) ==> AtLeast(2)(v)
    {
      var i :| 0 <= i < |r| && r[i] == v;
    }
    FilterDisjointWithin(r, StatusIs(Danger), StatusIs(Warning), AtLeast(2));
  }
}
