/** Role-based access control and the idle-timeout session of the
    application. The signed-in user, the time of the last activity and the
    session saved in browser storage form the state; the clock is a
    parameter, and the redirects and alerts that accompany a refusal are not
    modelled, only the decisions. */
module Auth {
  import opened Values
  import opened Database
  import Grouping

  /** The three roles, stored in a user's `role` property as their keys. */
  datatype Role = Admin | ViolationEntry | Inquiry

  /** The ten permission flags of the permission table. */
  datatype Flag = ViewDashboard | AddViolation | EditViolation | DeleteViolation | ViewViolation
                | ManageUsers | ViewReports | ExportData | ImportData | ManageSystem

  function RoleKey(r: Role): string
  {
    match r
    case Admin => "admin"
    case ViolationEntry => "violation_entry"
    case Inquiry => "inquiry"
  }

  /** The role a key of the permission table names, if any. */
  function RoleOf(k: string): (r: Option<Role>)
    ensures r.Some? ==> RoleKey(r.value) == k
    ensures r.None? ==> forall role: Role :: RoleKey(role) != k
  {
    if k == "admin" then Some(Admin)
    else if k == "violation_entry" then Some(ViolationEntry)
    else if k == "inquiry" then Some(Inquiry)
    else None
  }

  function FlagKey(f: Flag): string
  {
    match f
    case ViewDashboard => "canViewDashboard"
    case AddViolation => "canAddViolation"
    case EditViolation => "canEditViolation"
    case DeleteViolation => "canDeleteViolation"
    case ViewViolation => "canViewViolation"
    case ManageUsers => "canManageUsers"
    case ViewReports => "canViewReports"
    case ExportData => "canExportData"
    case ImportData => "canImportData"
    case ManageSystem => "canManageSystem"
  }

  /** The flag a permission name names, if any. */
  function FlagOf(k: string): (f: Option<Flag>)
    ensures f.Some? ==> FlagKey(f.value) == k
    ensures f.None? ==> forall flag: Flag :: FlagKey(flag) != k
  {
    if k == "canViewDashboard" then Some(ViewDashboard)
    else if k == "canAddViolation" then Some(AddViolation)
    else if k == "canEditViolation" then Some(EditViolation)
    else if k == "canDeleteViolation" then Some(DeleteViolation)
    else if k == "canViewViolation" then Some(ViewViolation)
    else if k == "canManageUsers" then Some(ManageUsers)
    else if k == "canViewReports" then Some(ViewReports)
    else if k == "canExportData" then Some(ExportData)
    else if k == "canImportData" then Some(ImportData)
    else if k == "canManageSystem" then Some(ManageSystem)
    else None
  }

  /** Role and flag names are recovered from their keys. */
  lemma KeysRoundTrip(r: Role, f: Flag)
    ensures RoleOf(RoleKey(r)) == Some(r)
    ensures FlagOf(FlagKey(f)) == Some(f)
  {
  }

  /** The permission table: one row per role, one column per flag. */
  function Granted(r: Role, f: Flag): bool
  {
    match r
    case Admin => true
    case ViolationEntry => f == AddViolation || f == ViewViolation
    case Inquiry => f == ViewViolation || f == ViewReports || f == ExportData
  }

  /** The shape of the table: the administrator holds every flag, the
      violation clerk may add and view violations and nothing else, and the inquiry role may
      view violations and reports and export, nothing else. */
  lemma GrantedShape(f: Flag)
    ensures Granted(Admin, f)
    ensures Granted(ViolationEntry, f) <==> f in {AddViolation, ViewViolation}
    ensures Granted(Inquiry, f) <==> f in {ViewViolation, ViewReports, ExportData}
    ensures f == ViewViolation <==> forall r: Role :: Granted(r, f)
  {
    if f != ViewViolation {
      assert !Granted(ViolationEntry, f) || !Granted(Inquiry, f);
    }
  }

  /** `session.timeout`: thirty minutes in milliseconds. */
  const Timeout: int := 30 * 60 * 1000

  /** The `userSession` entry of browser storage. */
  datatype Stored = Absent | Corrupt | Saved(user: Record, lastActivity: int)

  /** The authentication manager's state. */
  datatype AuthState = AuthState(current: Option<Record>, lastActivity: int, stored: Stored)

  /** logout: forget the user and the stored session. */
  function Logout(st: AuthState): (r: AuthState)
    ensures r.current.None? && r.stored.Absent?
    ensures r.lastActivity == st.lastActivity
  {
    AuthState(None, st.lastActivity, Absent)
  }

  /** Whether a stored session saved at `last` is still live at `now`: the
      boundary gap of exactly thirty minutes still counts as live. */
  predicate Live(last: int, now: int)
  {
    now - last <= Timeout
  }

  /** checkSession: restore the stored session when it is live, log out when it is
      expired or unreadable, and report whether a session was restored. */
  function CheckSession(st: AuthState, now: int): (r: (AuthState, bool))
    ensures r.1 <==> st.stored.Saved? && Live(st.stored.lastActivity, now)
    ensures r.1 ==> r.0 == AuthState(Some(st.stored.user), st.stored.lastActivity, st.stored)
    ensures st.stored.Absent? ==> r.0 == st
    ensures !r.1 && !st.stored.Absent? ==> r.0 == Logout(st)
  {
    match st.stored
    case Absent => (st, false)
    case Corrupt => (Logout(st), false)
    case Saved(user, last) =>
      if now - last > Timeout then (Logout(st), false)
      else (AuthState(Some(user), last, st.stored), true)
  }

  /** The user validateCredentials accepts: equal name, equal password and status 'active'. */
  predicate Accepts(u: Record, username: string, password: string)
  {
    Get(u.fields, "username") == Some(Str(username)) &&
    Get(u.fields, "password") == Some(Str(password)) &&
    Get(u.fields, "status") == Some(Str("active"))
  }

  /** `users.find(...)` for the credentials, as an index, with |users| standing for -1. */
  function FindAccepted(users: seq<Record>, username: string, password: string): (i: nat)
    ensures i <= |users|
    ensures i < |users| ==> Accepts(users[i], username, password)
    ensures forall j :: 0 <= j < i ==> !Accepts(users[j], username, password)
    decreases |users|
  {
    if users == [] then 0
    else if Accepts(users[0], username, password) then 0
    else 1 + FindAccepted(users[1..], username, password)
  }

  /** validateCredentials: the first active user with these credentials, without its password. */
  function ValidateCredentials(users: seq<Record>, username: string, password: string): (r: Option<Record>)
    ensures r.Some? <==> exists i :: 0 <= i < |users| && Accepts(users[i], username, password)
    ensures r.Some? ==>
              exists i :: 0 <= i < |users| && Accepts(users[i], username, password) &&
                (forall j :: 0 <= j < i ==> !Accepts(users[j], username, password)) &&
                r.value.id == users[i].id && "password" !in r.value.fields &&
                forall k :: k != "password" ==> Get(r.value.fields, k) == Get(users[i].fields, k)
  {
    var i := FindAccepted(users, username, password);
    if i < |users| then
      var u := users[i];
      Some(Record(u.id, u.fields - {"password"}))
    else None
  }

  /** login: on valid credentials, sign the user in at `now` and save the session. */
  function Login(st: AuthState, users: seq<Record>, username: string, password: string, now: int): (r: (AuthState, bool))
    ensures r.1 <==> ValidateCredentials(users, username, password).Some?
    ensures !r.1 ==> r.0 == st
    ensures r.1 ==> var u := ValidateCredentials(users, username, password).value;
                    r.0 == AuthState(Some(u), now, Saved(u, now))
  {
    match ValidateCredentials(users, username, password)
    case None => (st, false)
    case Some(u) => (AuthState(Some(u), now, Saved(u, now)), true)
  }

  /** updateActivity: the user acted at `now`; a signed-in session is saved again. */
  function UpdateActivity(st: AuthState, now: int): (r: AuthState)
    ensures r.lastActivity == now && r.current == st.current
    ensures st.current.Some? ==> r.stored == Saved(st.current.value, now)
    ensures st.current.None? ==> r.stored == st.stored
  {
    var st' := st.(lastActivity := now);
    if st.current.Some? then st'.(stored := Saved(st.current.value, now)) else st'
  }

  /** The once-a-minute timer: log a signed-in user out once idle longer than the timeout. */
  function Tick(st: AuthState, now: int): (r: AuthState)
    ensures st.current.Some? && !Live(st.lastActivity, now) ==> r == Logout(st)
    ensures st.current.None? || Live(st.lastActivity, now) ==> r == st
  {
    if st.current.Some? && now - st.lastActivity > Timeout then Logout(st) else st
  }

  /** getCurrentUser: restore the stored session first when nobody is signed in. */
  function GetCurrentUser(st: AuthState, now: int): (r: (AuthState, Option<Record>))
    ensures st.current.Some? ==> r == (st, st.current)
    ensures st.current.None? ==> r.0 == CheckSession(st, now).0 && r.1 == r.0.current
  {
    if st.current.Some? then (st, st.current)
    else var st' := CheckSession(st, now).0; (st', st'.current)
  }

  /** The role a user's `role` property names, if it is one of the table's keys. */
  function UserRole(u: Record): (r: Option<Role>)
    ensures r.Some? <==> exists role: Role :: Get(u.fields, "role") == Some(Str(RoleKey(role)))
    ensures r.Some? ==> Get(u.fields, "role") == Some(Str(RoleKey(r.value)))
  {
    var v := Get(u.fields, "role");
    if v.Some? && v.value.Str? then RoleOf(v.value.s) else None
  }

  /** hasPermission: false with nobody signed in, an unknown role or an unknown
      permission name; otherwise the table entry. */
  function HasPermission(st: AuthState, p: string): (r: bool)
    ensures r <==> st.current.Some? && UserRole(st.current.value).Some? &&
                   exists f: Flag :: FlagKey(f) == p && Granted(UserRole(st.current.value).value, f)
  {
    if st.current.None? then false
    else
      var role := UserRole(st.current.value);
      var f := FlagOf(p);
      role.Some? && f.Some? && Granted(role.value, f.value)
  }

  /** The permission names of the table. */
  const FlagNames: set<string> := {"canViewDashboard", "canAddViolation", "canEditViolation",
                                   "canDeleteViolation", "canViewViolation", "canManageUsers",
                                   "canViewReports", "canExportData", "canImportData", "canManageSystem"}

  /** getAllPermissions: the row of the signed-in user's role, or {} with nobody
      signed in or an unknown role. */
  function GetAllPermissions(st: AuthState): (r: map<string, bool>)
    ensures st.current.None? || UserRole(st.current.value).None? ==> r == map[]
  {
    if st.current.None? then map[]
    else
      match UserRole(st.current.value)
      case None => map[]
      case Some(role) => map k | k in FlagNames :: FlagOf(k).Some? && Granted(role, FlagOf(k).value)
  }

  /** The row getAllPermissions returns agrees with hasPermission on every name:
      a permission holds exactly when the row lists it as true. */
  lemma PermissionsAgree(st: AuthState, p: string)
    ensures HasPermission(st, p) <==> p in GetAllPermissions(st) && GetAllPermissions(st)[p]
  {
    if st.current.Some? && UserRole(st.current.value).Some? {
      var f := FlagOf(p);
      if f.Some? {
        assert p in FlagNames by {
          match f.value
          case ViewDashboard => case AddViolation => case EditViolation => case DeleteViolation =>
          case ViewViolation => case ManageUsers => case ViewReports => case ExportData =>
          case ImportData => case ManageSystem =>
        }
      }
    }
  }

  /** A signed-in user of a known role has a row naming all ten flags. */
  lemma AllPermissionsComplete(st: AuthState, f: Flag)
    requires st.current.Some? && UserRole(st.current.value).Some?
    ensures FlagKey(f) in GetAllPermissions(st)
    ensures GetAllPermissions(st)[FlagKey(f)] == Granted(UserRole(st.current.value).value, f)
  {
    KeysRoundTrip(Admin, f);
  }

  /** hasRole: the signed-in user's `role` is strictly equal to the argument. */
  function HasRole(st: AuthState, role: Option<Value>): (r: bool)
    ensures st.current.None? ==> !r
    ensures st.current.Some? ==> (r <==> Get(st.current.value.fields, "role") == role)
  {
    st.current.Some? && Get(st.current.value.fields, "role") == role
  }

  /** hasAnyRole: the signed-in user's `role` is one of the list's entries. */
  function HasAnyRole(st: AuthState, roles: seq<Option<Value>>): (r: bool)
    ensures st.current.None? ==> !r
    ensures st.current.Some? ==> (r <==> exists i :: 0 <= i < |roles| && HasRole(st, roles[i]))
  {
    st.current.Some? && Get(st.current.value.fields, "role") in roles
  }

  /** isAuthenticated: somebody is signed in and the stored session is live. The
      session check runs only when somebody is signed in, and may log out. */
  function IsAuthenticated(st: AuthState, now: int): (r: (AuthState, bool))
    ensures r.1 <==> st.current.Some? && st.stored.Saved? && Live(st.stored.lastActivity, now)
    ensures st.current.None? ==> r.0 == st
    ensures st.current.Some? ==> r.0 == CheckSession(st, now).0
  {
    if st.current.None? then (st, false) else CheckSession(st, now)
  }

  /** requireAuth: a protected page opens only for a live session whose stored
      user has one of the required roles; `None` stands for the default null,
      which admits any role, while an empty list admits nobody. */
  function RequireAuth(st: AuthState, now: int, required: Option<seq<Option<Value>>>): (r: (AuthState, bool))
    ensures r.1 <==> st.current.Some? && st.stored.Saved? && Live(st.stored.lastActivity, now) &&
                     (required.None? || Get(st.stored.user.fields, "role") in required.value)
    ensures r.0 == IsAuthenticated(st, now).0
  {
    var (st', ok) := IsAuthenticated(st, now);
    if !ok then (st', false)
    else if required.Some? && !HasAnyRole(st', required.value) then (st', false)
    else (st', true)
  }

  /** The Arabic display names of the roles. */
  function RoleName(r: Role): string
  {
    match r
    case Admin => "مدير النظام"
    case ViolationEntry => "مسجل المخالفات"
    case Inquiry => "الاستعلام"
  }

  /** getRoleName: the Arabic name of a role key. A name every object inherits
      (`constructor`, `toString`, ...) finds the inherited member, a truthy value that
      is not a string, shown here as None; any other input comes back unchanged. */
  function GetRoleName(k: string): (r: Option<string>)
    ensures RoleOf(k).Some? ==> r == Some(RoleName(RoleOf(k).value))
    ensures k in Grouping.InheritedKeys ==> r.None?
    ensures RoleOf(k).None? && k !in Grouping.InheritedKeys ==> r == Some(k)
  {
    match RoleOf(k)
    case Some(role) => Some(RoleName(role))
    case None => if k in Grouping.InheritedKeys then None else Some(k)
  }

  /** Distinct roles are shown under distinct names, and no display name is itself a
      role key, so a name shown once is never translated again. */
  lemma RoleNamesDistinct(a: Role, b: Role)
    ensures GetRoleName(RoleKey(a)) == GetRoleName(RoleKey(b)) <==> a == b
    ensures GetRoleName(RoleName(a)) == Some(RoleName(a))
  {
    KeysRoundTrip(a, ViewDashboard);
    KeysRoundTrip(b, ViewDashboard);
  }

  /** Signing in and checking again: the session survives exactly while the gap since
      sign-in is at most thirty minutes, and then restores the signed-in user. */
  lemma LoginThenCheck(st: AuthState, users: seq<Record>, username: string, password: string, t: int, now: int)
    requires Login(st, users, username, password, t).1
    ensures var s := Login(st, users, username, password, t).0;
            var c := CheckSession(s, now);
            (c.1 <==> now - t <= Timeout) && (c.1 ==> c.0.current == s.current)
  {
  }

  /** Activity keeps the session alive: after activity at t, neither the timer nor a
      page guard with no role list logs the user out up to thirty minutes later. */
  lemma ActivityKeepsSession(st: AuthState, t: int, now: int)
    requires st.current.Some?
    requires t <= now <= t + Timeout
    ensures var s := UpdateActivity(st, t);
            Tick(s, now) == s && RequireAuth(s, now, None).1
  {
  }

  /** After logout nothing is permitted and every page guard refuses. */
  lemma LogoutDeniesAll(st: AuthState, p: string, now: int, required: Option<seq<Option<Value>>>)
    ensures !HasPermission(Logout(st), p) && GetAllPermissions(Logout(st)) == map[]
    ensures !RequireAuth(Logout(st), now, required).1
  {
  }
}
