/** The record store of the application: three collections (users, stickers,
    violations) of schemaless JSON objects, each identified by an integer
    `id`. Every operation reads a whole collection, changes it and writes it
    back, so each is modelled as a function from the collection (and the
    call's arguments) to the new collection and the reply. The clock and the
    signed-in user are parameters. */
module Database {
  import opened Values
  import opened Seqs

  /** A stored object: its `id` and every other property. */
  datatype Record = Record(id: int, fields: Fields)

  /** Why a write was refused. */
  datatype Failure = UsernameTaken | NotFound

  /** The collection after a call, and what the call answered. */
  datatype Step<R> = Step(store: seq<Record>, reply: Result<R, Failure>)

  /** No two records share an id. */
  predicate UniqueIds(rs: seq<Record>)
  {
    forall i, j :: 0 <= i < j < |rs| ==> rs[i].id != rs[j].id
  }

  /** No two users share a `username` (two users without one count as sharing it). */
  predicate UniqueUsernames(rs: seq<Record>)
  {
    forall i, j :: 0 <= i < j < |rs| ==> Get(rs[i].fields, "username") != Get(rs[j].fields, "username")
  }

  /** `Math.max(...rs.map(r => r.id))`. */
  function MaxId(rs: seq<Record>): (m: int)
    requires rs != []
    ensures forall i :: 0 <= i < |rs| ==> rs[i].id <= m
    ensures exists i :: 0 <= i < |rs| && rs[i].id == m
    decreases |rs|
  {
    if |rs| == 1 then rs[0].id
    else
      var m := MaxId(rs[1..]);
      assert forall i :: 1 <= i < |rs| ==> rs[i] == rs[1..][i - 1];
      if rs[0].id >= m then rs[0].id else m
  }

  /** The id a new record gets: one more than the largest, or 1 for an empty collection. */
  function NewId(rs: seq<Record>): (n: int)
    ensures forall i :: 0 <= i < |rs| ==> rs[i].id < n
    ensures rs == [] ==> n == 1
    ensures rs != [] ==> exists i :: 0 <= i < |rs| && rs[i].id == n - 1
  {
    if rs == [] then 1 else MaxId(rs) + 1
  }

  /** `rs.findIndex(r => r.id === id)`, with |rs| standing for -1. */
  function IndexOf(rs: seq<Record>, id: int): (i: nat)
    ensures i <= |rs|
    ensures i < |rs| ==> rs[i].id == id
    ensures forall j :: 0 <= j < i ==> rs[j].id != id
    decreases |rs|
  {
    if rs == [] then 0 else if rs[0].id == id then 0 else 1 + IndexOf(rs[1..], id)
  }

  /** `rs.find(r => r.id === id)`: the first record with that id. */
  function GetById(rs: seq<Record>, id: int): (r: Option<Record>)
    ensures r.None? <==> forall j :: 0 <= j < |rs| ==> rs[j].id != id
    ensures r.Some? ==> exists j :: 0 <= j < |rs| && rs[j] == r.value && r.value.id == id &&
                                   forall k :: 0 <= k < j ==> rs[k].id != id
  {
    var i := IndexOf(rs, id);
    if i < |rs| then Some(rs[i]) else None
  }

  /** In a collection with unique ids, the record found by id is the one holding it. */
  lemma GetByIdUnique(rs: seq<Record>, j: nat)
    requires UniqueIds(rs)
    requires j < |rs|
    ensures GetById(rs, rs[j].id) == Some(rs[j])
  {
    var i := IndexOf(rs, rs[j].id);
    assert i <= j;
  }

  /** Whether some user carries this `username` (compared with `===`, so an absent
      name matches a user without one). */
  predicate NameInUse(users: seq<Record>, name: Option<Value>)
  {
    exists i :: 0 <= i < |users| && Get(users[i].fields, "username") == name
  }

  /** `users.find(u => u.username === username)`: the first user carrying the name. */
  function GetUserByUsername(users: seq<Record>, name: Option<Value>): (r: Option<Record>)
    ensures r.None? <==> !NameInUse(users, name)
    ensures r.Some? ==> exists i :: 0 <= i < |users| && users[i] == r.value &&
                          Get(r.value.fields, "username") == name &&
                          forall j :: 0 <= j < i ==> Get(users[j].fields, "username") != name
    decreases |users|
  {
    if users == [] then None
    else if Get(users[0].fields, "username") == name then Some(users[0])
    else
      var r := GetUserByUsername(users[1..], name);
      assert forall i :: 1 <= i < |users| ==> users[i] == users[1..][i - 1];
      r
  }

  /** The properties addUser copies from its argument. */
  const UserKeys: seq<string> := ["username", "password", "name", "email", "role"]

  /** Copies the listed properties of data onto f; a property data lacks is left out. */
  function Copy(f: Fields, data: Fields, keys: seq<string>): (r: Fields)
    ensures forall k :: k in keys ==> Get(r, k) == Get(data, k)
    ensures forall k :: k !in keys ==> Get(r, k) == Get(f, k)
    decreases |keys|
  {
    if keys == [] then f else Copy(Put(f, keys[0], Get(data, keys[0])), data, keys[1..])
  }

  lemma UserKeysApart()
    ensures "status" !in UserKeys && "createdDate" !in UserKeys && "lastLogin" !in UserKeys && "id" !in UserKeys
  {
  }

  /** The properties addUser sets itself: `status` (defaulting to 'active'),
      `createdDate` and a null `lastLogin`. */
  function UserDefaults(data: Fields, today: string): (f: Fields)
    ensures Truthy(Get(data, "status")) ==> Get(f, "status") == Get(data, "status")
    ensures !Truthy(Get(data, "status")) ==> Get(f, "status") == Some(Str("active"))
    ensures Get(f, "createdDate") == Some(Str(today))
    ensures Get(f, "lastLogin") == Some(Null)
    ensures "id" !in f
  {
    var base: Fields := map["createdDate" := Str(today), "lastLogin" := Null];
    var f := Put(base, "status", Or(Get(data, "status"), Some(Str("active"))));
    assert Get(f, "createdDate") == Get(base, "createdDate");
    assert Get(f, "lastLogin") == Get(base, "lastLogin");
    assert Get(f, "id") == Get(base, "id");
    f
  }

  /** The object addUser builds: the copied properties, `status` defaulting to
      'active', the creation day and a null `lastLogin`. */
  function NewUser(id: int, data: Fields, today: string): (u: Record)
    ensures u.id == id
    ensures forall k :: k in UserKeys ==> Get(u.fields, k) == Get(data, k)
    ensures forall k :: k !in UserKeys ==> Get(u.fields, k) == Get(UserDefaults(data, today), k)
  {
    Record(id, Copy(UserDefaults(data, today), data, UserKeys))
  }

  /** addUser: refuses a username already in use, otherwise appends a user with a fresh id. */
  function AddUser(users: seq<Record>, data: Fields, today: string): (r: Step<Record>)
    ensures r.reply.Failure? <==> NameInUse(users, Get(data, "username"))
    ensures r.reply.Failure? ==> r.reply.error == UsernameTaken && r.store == users
    ensures r.reply.Success? ==>
              var u := r.reply.value;
              r.store == users + [u] &&
              (forall i :: 0 <= i < |users| ==> users[i].id < u.id) &&
              (forall k :: k in UserKeys ==> Get(u.fields, k) == Get(data, k)) &&
              (Truthy(Get(data, "status")) ==> Get(u.fields, "status") == Get(data, "status")) &&
              (!Truthy(Get(data, "status")) ==> Get(u.fields, "status") == Some(Str("active"))) &&
              Get(u.fields, "createdDate") == Some(Str(today)) &&
              Get(u.fields, "lastLogin") == Some(Null) &&
              "id" !in u.fields
  {
    if NameInUse(users, Get(data, "username")) then Step(users, Failure(UsernameTaken))
    else
      var u := NewUser(NewId(users), data, today);
      UserKeysApart();
      Step(users + [u], Success(u))
  }

  /** In a collection with unique usernames, looking up a user's name finds that user. */
  lemma GetUserByUsernameUnique(users: seq<Record>, j: nat)
    requires UniqueUsernames(users)
    requires j < |users|
    ensures GetUserByUsername(users, Get(users[j].fields, "username")) == Some(users[j])
  {
  }

  /** The user addUser appends is the one its username now finds. */
  lemma AddUserThenFind(users: seq<Record>, data: Fields, today: string)
    ensures var r := AddUser(users, data, today);
            r.reply.Success? ==> GetUserByUsername(r.store, Get(data, "username")) == Some(r.reply.value)
  {
    var r := AddUser(users, data, today);
    if r.reply.Success? {
      var name := Get(data, "username");
      assert "username" in UserKeys;
      assert r.store[|users|] == r.reply.value;
      assert !NameInUse(users, name);
      var f := GetUserByUsername(r.store, name);
      assert f.Some? by {
        assert Get(r.store[|users|].fields, "username") == name;
      }
      assert forall i :: 0 <= i < |users| ==> r.store[i] == users[i];
    }
  }

  /** Adding a user keeps ids and usernames unique. */
  lemma AddUserKeepsUnique(users: seq<Record>, data: Fields, today: string)
    requires UniqueIds(users) && UniqueUsernames(users)
    ensures UniqueIds(AddUser(users, data, today).store)
    ensures UniqueUsernames(AddUser(users, data, today).store)
  {
    var r := AddUser(users, data, today);
    if r.reply.Success? {
      var s := r.store;
      forall i, j | 0 <= i < j < |s|
        ensures s[i].id != s[j].id
        ensures Get(s[i].fields, "username") != Get(s[j].fields, "username")
      {
        if j == |users| {
          assert s[i] == users[i];
          assert "username" in UserKeys;
        }
      }
    }
  }

  /** `{...old, ...patch, id}` without the `id`: the patch wins on every property it names. */
  function Merge(base: Fields, patch: Fields): (r: Fields)
    ensures forall k :: k != "id" && k in patch ==> Get(r, k) == Get(patch, k)
    ensures forall k :: k != "id" && k !in patch ==> Get(r, k) == Get(base, k)
    ensures "id" !in r
  {
    (base + patch) - {"id"}
  }

  /** Whether a user other than `id` already carries the name. */
  predicate NameTakenByOther(users: seq<Record>, name: Option<Value>, id: int)
  {
    exists j :: 0 <= j < |users| && Get(users[j].fields, "username") == name && users[j].id != id
  }

  /** updateUser: merges the patch into the first user with the id; a new, truthy
      username that another user holds is refused, and a falsy one is not checked. */
  function UpdateUser(users: seq<Record>, id: int, patch: Fields): (r: Step<Record>)
    ensures r.reply == Failure(NotFound) <==> forall j :: 0 <= j < |users| ==> users[j].id != id
    ensures r.reply.Failure? ==> r.store == users
    ensures r.reply.Success? <==>
              (exists i :: 0 <= i < |users| && users[i].id == id) &&
              !(Truthy(Get(patch, "username")) &&
                Get(patch, "username") != Get(users[IndexOf(users, id)].fields, "username") &&
                NameTakenByOther(users, Get(patch, "username"), id))
    ensures r.reply == Failure(UsernameTaken) <==>
              (exists i :: 0 <= i < |users| && users[i].id == id) &&
              Truthy(Get(patch, "username")) &&
              Get(patch, "username") != Get(users[IndexOf(users, id)].fields, "username") &&
              NameTakenByOther(users, Get(patch, "username"), id)
    ensures r.reply.Success? ==>
              exists i :: 0 <= i < |users| && users[i].id == id &&
                (forall j :: 0 <= j < i ==> users[j].id != id) &&
                r.store == users[i := r.reply.value] &&
                r.reply.value.id == id &&
                (forall k :: k != "id" ==>
                   Get(r.reply.value.fields, k) == (if k in patch then Get(patch, k) else Get(users[i].fields, k)))
  {
    var i := IndexOf(users, id);
    if i == |users| then Step(users, Failure(NotFound))
    else
      var name := Get(patch, "username");
      if Truthy(name) && name != Get(users[i].fields, "username") && NameTakenByOther(users, name, id)
      then Step(users, Failure(UsernameTaken))
      else
        var u := Record(id, Merge(users[i].fields, patch));
        Step(users[i := u], Success(u))
  }

  /** A successful update keeps ids unique, and the merged user is then found by its id. */
  lemma UpdateUserThenGet(users: seq<Record>, id: int, patch: Fields)
    requires UniqueIds(users)
    ensures var r := UpdateUser(users, id, patch);
            r.reply.Success? ==> UniqueIds(r.store) && GetById(r.store, id) == Some(r.reply.value)
  {
    var r := UpdateUser(users, id, patch);
    if r.reply.Success? {
      var i := IndexOf(users, id);
      assert r.store == users[i := r.reply.value];
      assert forall k :: 0 <= k < |users| ==> r.store[k].id == users[k].id;
      GetByIdUnique(r.store, i);
    }
  }

  /** Updating keeps ids unique, and keeps usernames unique whenever the patch either
      leaves the username alone or sets a truthy one. */
  lemma UpdateUserKeepsUnique(users: seq<Record>, id: int, patch: Fields)
    requires UniqueIds(users) && UniqueUsernames(users)
    requires "username" in patch ==> Truthy(Get(patch, "username"))
    ensures UniqueIds(UpdateUser(users, id, patch).store)
    ensures UniqueUsernames(UpdateUser(users, id, patch).store)
  {
    var r := UpdateUser(users, id, patch);
    var i := IndexOf(users, id);
    if r.reply.Success? {
      var s := r.store;
      var u := r.reply.value;
      assert s == users[i := u];
      var name := Get(u.fields, "username");
      assert name == Get(patch, "username") || name == Get(users[i].fields, "username");
      forall a, b | 0 <= a < b < |s|
        ensures s[a].id != s[b].id
        ensures Get(s[a].fields, "username") != Get(s[b].fields, "username")
      {
        if a == i || b == i {
          var o := if a == i then b else a;
          assert s[o] == users[o];
          assert users[o].id != id;
        }
      }
    }
  }

  /** Without the check for a falsy name, a patch with an empty username can
      give two users the same name: the precondition above is needed. */
  lemma UpdateUserEmptyNameCollides()
    ensures var users := [Record(1, map["username" := Str("")]), Record(2, map["username" := Str("b")])];
            UniqueUsernames(users) &&
            !UniqueUsernames(UpdateUser(users, 2, map["username" := Str("")]).store)
  {
    var users := [Record(1, map["username" := Str("")]), Record(2, map["username" := Str("b")])];
    var patch := map["username" := Str("")];
    assert IndexOf(users, 2) == 1;
    var u := Record(2, Merge(users[1].fields, patch));
    assert UpdateUser(users, 2, patch) == Step(users[1 := u], Success(u));
    assert Get(u.fields, "username") == Some(Str(""));
    assert Get(users[0].fields, "username") == Some(Str("")) && Get(users[1].fields, "username") == Some(Str("b"));
    var s := UpdateUser(users, 2, patch).store;
    assert s[0] == users[0] && s[1] == u;
    assert Get(s[0].fields, "username") == Get(s[1].fields, "username");
  }

  /** The predicate `r => r.id !== id`. */
  function IdIsNot(id: int): Record -> bool
  {
    (r: Record) => r.id != id
  }

  /** The predicate `r => r.id === id`. */
  function IdIs(id: int): Record -> bool
  {
    (r: Record) => r.id == id
  }

  /** deleteUser / deleteSticker / deleteViolation: drops every record with the id;
      fails, changing nothing, when none has it. */
  function DeleteById(rs: seq<Record>, id: int): (r: Step<()>)
    ensures r.reply.Failure? <==> forall j :: 0 <= j < |rs| ==> rs[j].id != id
    ensures r.reply.Failure? ==> r.reply.error == NotFound && r.store == rs
    ensures forall j :: 0 <= j < |r.store| ==> r.store[j].id != id
    ensures forall j :: 0 <= j < |rs| && rs[j].id != id ==> rs[j] in r.store
    ensures IsSubseq(r.store, rs)
    ensures |r.store| + |Filter(rs, IdIs(id))| == |rs|
  {
    var kept := Filter(rs, IdIsNot(id));
    FilterKeepsLength(rs, IdIsNot(id));
    FilterComplement(rs, IdIsNot(id), IdIs(id));
    if |kept| == |rs| then
      FilterAll(rs, IdIsNot(id));
      Step(rs, Failure(NotFound))
    else
      Step(kept, Success(()))
  }

  /** After a delete the id is no longer found. */
  lemma DeleteThenGet(rs: seq<Record>, id: int)
    ensures GetById(DeleteById(rs, id).store, id).None?
  {
  }

  /** updateLastLogin: stamps the first user with the id; nothing changes when there is none. */
  function UpdateLastLogin(users: seq<Record>, id: int, now: string): (r: seq<Record>)
    ensures |r| == |users|
    ensures forall j :: 0 <= j < |users| && j != IndexOf(users, id) ==> r[j] == users[j]
    ensures IndexOf(users, id) < |users| ==>
              var j := IndexOf(users, id);
              r[j].id == id && r[j].fields == users[j].fields["lastLogin" := Str(now)]
  {
    var i := IndexOf(users, id);
    if i < |users| then users[i := Record(id, users[i].fields["lastLogin" := Str(now)])] else users
  }

  /** `{id: newId, ...data, createdDate, createdBy}`: addSticker and addViolation. A
      numeric `id` in the data is spread after the generated one and so wins. */
  function AddStamped(rs: seq<Record>, data: Fields, now: string, author: Option<Value>): (r: Step<Record>)
    requires "id" in data ==> data["id"].Num?
    ensures r.reply.Success?
    ensures r.store == rs + [r.reply.value]
    ensures "id" !in data ==> forall i :: 0 <= i < |rs| ==> rs[i].id < r.reply.value.id
    ensures "id" in data ==> r.reply.value.id == data["id"].n
    ensures forall k :: k !in {"id", "createdDate", "createdBy"} ==> Get(r.reply.value.fields, k) == Get(data, k)
    ensures Get(r.reply.value.fields, "createdDate") == Some(Str(now))
    ensures Get(r.reply.value.fields, "createdBy") == author
    ensures "id" !in r.reply.value.fields
  {
    var id := if "id" in data then data["id"].n else NewId(rs);
    var rec := Record(id, Put((data - {"id"})["createdDate" := Str(now)], "createdBy", author));
    Step(rs + [rec], Success(rec))
  }

  /** Adding data without an id keeps ids unique, and the new record is then found by its id. */
  lemma AddStampedFresh(rs: seq<Record>, data: Fields, now: string, author: Option<Value>)
    requires UniqueIds(rs)
    requires "id" !in data
    ensures UniqueIds(AddStamped(rs, data, now, author).store)
    ensures var r := AddStamped(rs, data, now, author);
            GetById(r.store, r.reply.value.id) == Some(r.reply.value)
  {
    var r := AddStamped(rs, data, now, author);
    GetByIdUnique(r.store, |rs|);
  }

  /** A caller-supplied id is kept even when another record already has it. */
  lemma AddStampedCallerIdClash()
    ensures var rs := [Record(1, map[])];
            UniqueIds(rs) && !UniqueIds(AddStamped(rs, map["id" := Num(1)], "t", None).store)
  {
    var s := AddStamped([Record(1, map[])], map["id" := Num(1)], "t", None).store;
    assert s[0].id == s[1].id;
  }

  /** `{...old, ...data, id, updatedDate, updatedBy}`: updateSticker and updateViolation. */
  function UpdateStamped(rs: seq<Record>, id: int, data: Fields, now: string, author: Option<Value>): (r: Step<Record>)
    ensures r.reply.Failure? <==> forall j :: 0 <= j < |rs| ==> rs[j].id != id
    ensures r.reply.Failure? ==> r.reply.error == NotFound && r.store == rs
    ensures r.reply.Success? ==>
              var i := IndexOf(rs, id);
              var u := r.reply.value;
              r.store == rs[i := u] && u.id == id &&
              (forall k :: k !in {"id", "updatedDate", "updatedBy"} ==>
                 Get(u.fields, k) == (if k in data then Get(data, k) else Get(rs[i].fields, k))) &&
              Get(u.fields, "updatedDate") == Some(Str(now)) &&
              Get(u.fields, "updatedBy") == author
  {
    var i := IndexOf(rs, id);
    if i == |rs| then Step(rs, Failure(NotFound))
    else
      var u := Record(id, Put(Merge(rs[i].fields, data)["updatedDate" := Str(now)], "updatedBy", author));
      Step(rs[i := u], Success(u))
  }

  /** An update keeps the set of ids, so it keeps them unique, and the updated record is found by its id. */
  lemma UpdateStampedThenGet(rs: seq<Record>, id: int, data: Fields, now: string, author: Option<Value>)
    requires UniqueIds(rs)
    ensures UniqueIds(UpdateStamped(rs, id, data, now, author).store)
    ensures var r := UpdateStamped(rs, id, data, now, author);
            r.reply.Success? ==> GetById(r.store, id) == Some(r.reply.value)
  {
    var r := UpdateStamped(rs, id, data, now, author);
    if r.reply.Success? {
      var i := IndexOf(rs, id);
      GetByIdUnique(r.store, i);
    }
  }

  /** How a search compares a field with the query. */
  datatype Match = Contains | StartsWith

  /** `r.f && r.f.includes(q)` (or `startsWith`) for a field holding a string. */
  predicate Hit(v: Option<Value>, q: string, m: Match)
  {
    v.Some? && v.value.Str? && v.value.s != "" &&
    match m
    case Contains => Includes(v.value.s, q)
    case StartsWith => IsPrefix(q, v.value.s)
  }

  /** A truthy field that is not a string has no `includes`: the search throws. */
  predicate Throws(v: Option<Value>)
  {
    Truthy(v) && !v.value.Str?
  }

  function Matcher(field: string, q: string, m: Match): Record -> bool
  {
    (r: Record) => Hit(Get(r.fields, field), q, m)
  }

  /** The records a search leaves out. */
  function Misses(field: string, q: string, m: Match): Record -> bool
  {
    (r: Record) => !Hit(Get(r.fields, field), q, m)
  }

  /** searchStickersByIdNumber, searchStickersByPlate, searchViolationsByPlate
      (Contains) and searchViolationsByDate (StartsWith): the matching records in
      order, or None when some record's field makes the filter throw. */
  function Search(rs: seq<Record>, field: string, q: string, m: Match): (r: Option<seq<Record>>)
    ensures r.None? <==> exists i :: 0 <= i < |rs| && Throws(Get(rs[i].fields, field))
    ensures r.Some? ==> forall i :: 0 <= i < |r.value| ==> r.value[i] in rs && Hit(Get(r.value[i].fields, field), q, m)
    ensures r.Some? ==> forall i :: 0 <= i < |rs| && Hit(Get(rs[i].fields, field), q, m) ==> rs[i] in r.value
    ensures r.Some? ==> IsSubseq(r.value, rs)
    ensures r.Some? ==> |r.value| + |Filter(rs, Misses(field, q, m))| == |rs|
  {
    if exists i :: 0 <= i < |rs| && Throws(Get(rs[i].fields, field)) then None
    else
      FilterComplement(rs, Matcher(field, q, m), Misses(field, q, m));
      Some(Filter(rs, Matcher(field, q, m)))
  }

  /** Searching for a record's full, non-empty field value finds that record, by either kind of match. */
  lemma SearchFindsExact(rs: seq<Record>, field: string, i: nat, m: Match)
    requires i < |rs|
    requires Get(rs[i].fields, field).Some? && Get(rs[i].fields, field).value.Str?
    requires Get(rs[i].fields, field).value.s != ""
    requires Search(rs, field, Get(rs[i].fields, field).value.s, m).Some?
    ensures rs[i] in Search(rs, field, Get(rs[i].fields, field).value.s, m).value
  {
    var q := Get(rs[i].fields, field).value.s;
    assert IsPrefix(q, q);
    IncludesSelf(q);
  }

  /** The predicate `r => r.f === v`. */
  function FieldIs(field: string, v: Value): Record -> bool
  {
    (r: Record) => Get(r.fields, field) == Some(v)
  }

  /** The number of records whose field is exactly v (`filter(r => r.f === v).length`). */
  function CountWhere(rs: seq<Record>, field: string, v: Value): (n: nat)
    ensures n == |Filter(rs, FieldIs(field, v))|
    decreases |rs|
  {
    if rs == [] then 0
    else (if Get(rs[0].fields, field) == Some(v) then 1 else 0) + CountWhere(rs[1..], field, v)
  }

  /** The total of CountWhere over several values. */
  function CountAny(rs: seq<Record>, field: string, vs: seq<Value>): nat
    decreases |vs|
  {
    if vs == [] then 0 else CountWhere(rs, field, vs[0]) + CountAny(rs, field, vs[1..])
  }

  /** How many of vs equal x. */
  function Occurrences(vs: seq<Value>, x: Option<Value>): nat
    decreases |vs|
  {
    if vs == [] then 0 else (if x == Some(vs[0]) then 1 else 0) + Occurrences(vs[1..], x)
  }

  lemma {:induction false} OccurrencesDistinct(vs: seq<Value>, x: Option<Value>)
    requires forall i, j :: 0 <= i < j < |vs| ==> vs[i] != vs[j]
    ensures Occurrences(vs, x) <= 1
    ensures x.Some? && x.value in vs ==> Occurrences(vs, x) == 1
    decreases |vs|
  {
    if vs != [] {
      OccurrencesDistinct(vs[1..], x);
      if x == Some(vs[0]) {
        assert x.value !in vs[1..];
        OccurrencesNone(vs[1..], x);
      }
    }
  }

  lemma {:induction false} OccurrencesNone(vs: seq<Value>, x: Option<Value>)
    requires x.Some? ==> x.value !in vs
    ensures Occurrences(vs, x) == 0
    decreases |vs|
  {
    if vs != [] {
      OccurrencesNone(vs[1..], x);
    }
  }

  lemma {:induction false} CountAnyStep(rs: seq<Record>, field: string, vs: seq<Value>)
    requires rs != []
    ensures CountAny(rs, field, vs) == Occurrences(vs, Get(rs[0].fields, field)) + CountAny(rs[1..], field, vs)
    decreases |vs|
  {
    if vs != [] {
      CountAnyStep(rs, field, vs[1..]);
    }
  }

  /** Counting records by distinct values of one field never counts a record twice. */
  lemma {:induction false} CountAnyBound(rs: seq<Record>, field: string, vs: seq<Value>)
    requires forall i, j :: 0 <= i < j < |vs| ==> vs[i] != vs[j]
    ensures CountAny(rs, field, vs) <= |rs|
    decreases |rs|
  {
    if rs == [] {
      CountAnyEmpty(field, vs);
    } else {
      CountAnyStep(rs, field, vs);
      OccurrencesDistinct(vs, Get(rs[0].fields, field));
      CountAnyBound(rs[1..], field, vs);
    }
  }

  lemma {:induction false} CountAnyEmpty(field: string, vs: seq<Value>)
    ensures CountAny([], field, vs) == 0
    decreases |vs|
  {
    if vs != [] {
      CountAnyEmpty(field, vs[1..]);
    }
  }

  /** The result of getUserStats. */
  datatype UserStats = UserStats(total: nat, active: nat, inactive: nat,
                                 admins: nat, violationOfficers: nat, inquiryUsers: nat)

  /** getUserStats: the users counted by status and by role. */
  function GetUserStats(users: seq<Record>): (s: UserStats)
    ensures s.total == |users|
    ensures s.active == |Filter(users, FieldIs("status", Str("active")))|
    ensures s.inactive == |Filter(users, FieldIs("status", Str("inactive")))|
    ensures s.admins == |Filter(users, FieldIs("role", Str("admin")))|
    ensures s.violationOfficers == |Filter(users, FieldIs("role", Str("violation_entry")))|
    ensures s.inquiryUsers == |Filter(users, FieldIs("role", Str("inquiry")))|
    ensures s.active + s.inactive <= s.total
    ensures s.admins + s.violationOfficers + s.inquiryUsers <= s.total
  {
    var statuses := [Str("active"), Str("inactive")];
    var roles := [Str("admin"), Str("violation_entry"), Str("inquiry")];
    CountAnyBound(users, "status", statuses);
    CountAnyBound(users, "role", roles);
    UserStats(|users|,
              CountWhere(users, "status", Str("active")),
              CountWhere(users, "status", Str("inactive")),
              CountWhere(users, "role", Str("admin")),
              CountWhere(users, "role", Str("violation_entry")),
              CountWhere(users, "role", Str("inquiry")))
  }

  /** The sticker statuses the statistics count. */
  const StickerStatuses: seq<Value> := [Str("فعال"), Str("غير فعال"), Str("ملغي"), Str("مخالف")]

  /** The result of getStickerStats. */
  datatype StickerStats = StickerStats(total: nat, active: nat, inactive: nat, canceled: nat,
                                       violated: nat, today: nat, thisWeek: nat,
                                       villas: nat, apartments: nat)

  /** `s.issueDate >= weekAgo`: a string comparison; any other value compares false. */
  function IssuedSince(weekAgo: string): Record -> bool
  {
    (r: Record) => var d := Get(r.fields, "issueDate"); d.Some? && d.value.Str? && LexLe(weekAgo, d.value.s)
  }

  /** getStickerStats, with today's and a week ago's day strings ("YYYY-MM-DD") as parameters. */
  function GetStickerStats(stickers: seq<Record>, today: string, weekAgo: string): (s: StickerStats)
    ensures s.total == |stickers|
    ensures s.active == |Filter(stickers, FieldIs("status", Str("فعال")))|
    ensures s.inactive == |Filter(stickers, FieldIs("status", Str("غير فعال")))|
    ensures s.canceled == |Filter(stickers, FieldIs("status", Str("ملغي")))|
    ensures s.violated == |Filter(stickers, FieldIs("status", Str("مخالف")))|
    ensures s.today == |Filter(stickers, FieldIs("issueDate", Str(today)))|
    ensures s.thisWeek == |Filter(stickers, IssuedSince(weekAgo))|
    ensures s.villas == |Filter(stickers, FieldIs("unitType", Str("V")))|
    ensures s.apartments == |Filter(stickers, FieldIs("unitType", Str("A")))|
    ensures s.active + s.inactive + s.canceled + s.violated <= s.total
    ensures s.villas + s.apartments <= s.total
    ensures LexLe(weekAgo, today) ==> s.today <= s.thisWeek
  {
    CountAnyBound(stickers, "status", StickerStatuses);
    CountAnyBound(stickers, "unitType", [Str("V"), Str("A")]);
    var since := IssuedSince(weekAgo);
    assert LexLe(weekAgo, today) ==> CountWhere(stickers, "issueDate", Str(today)) <= |Filter(stickers, since)| by {
      if LexLe(weekAgo, today) {
        CountWhereWithin(stickers, "issueDate", Str(today), since);
      }
    }
    StickerStats(|stickers|,
                 CountWhere(stickers, "status", StickerStatuses[0]),
                 CountWhere(stickers, "status", StickerStatuses[1]),
                 CountWhere(stickers, "status", StickerStatuses[2]),
                 CountWhere(stickers, "status", StickerStatuses[3]),
                 CountWhere(stickers, "issueDate", Str(today)),
                 |Filter(stickers, since)|,
                 CountWhere(stickers, "unitType", Str("V")),
                 CountWhere(stickers, "unitType", Str("A")))
  }

  /** Records with field value v are no more than those passing a filter that accepts them all. */
  lemma {:induction false} CountWhereWithin(rs: seq<Record>, field: string, v: Value, p: Record -> bool)
    requires forall r: Record :: Get(r.fields, field) == Some(v) ==> p(r)
    ensures CountWhere(rs, field, v) <= |Filter(rs, p)|
    decreases |rs|
  {
    if rs != [] {
      CountWhereWithin(rs[1..], field, v, p);
    }
  }

  /** When every user is either active or inactive, the two status counts make up the total. */
  lemma UserStatusesPartition(users: seq<Record>)
    requires forall i :: 0 <= i < |users| ==>
               Get(users[i].fields, "status") in {Some(Str("active")), Some(Str("inactive"))}
    ensures GetUserStats(users).active + GetUserStats(users).inactive == |users|
  {
    var active := FieldIs("status", Str("active"));
    var other: Record -> bool := (r: Record) => !active(r);
    FilterComplement(users, active, other);
    FilterExt(users, other, FieldIs("status", Str("inactive")));
  }

  /** The users shipped with a fresh installation; `now` and `today` are the clock. */
  function DefaultUsers(today: string, now: string): (users: seq<Record>)
    ensures UniqueIds(users) && UniqueUsernames(users)
    ensures forall i :: 0 <= i < |users| ==> Get(users[i].fields, "status") == Some(Str("active"))
    ensures |users| == 3
  {
    [ Record(1, map["username" := Str("admin"), "password" := Str("admin123"),
                    "name" := Str("مدير النظام"), "email" := Str("admin@university.edu.sa"),
                    "role" := Str("admin"), "status" := Str("active"),
                    "createdDate" := Str(today), "lastLogin" := Str(now)]),
      Record(2, map["username" := Str("violations_officer"), "password" := Str("violations123"),
                    "name" := Str("مسؤول المخالفات"), "email" := Str("violations@university.edu.sa"),
                    "role" := Str("violation_entry"), "status" := Str("active"),
                    "createdDate" := Str(today), "lastLogin" := Str(now)]),
      Record(3, map["username" := Str("inquiry_user"), "password" := Str("inquiry123"),
                    "name" := Str("موظف الاستعلام"), "email" := Str("inquiry@university.edu.sa"),
                    "role" := Str("inquiry"), "status" := Str("active"),
                    "createdDate" := Str(today), "lastLogin" := Str(now)]) ]
  }
}
