# Housing and traffic administration: a verified model of the record logic

The modelled application is a browser-only administration tool for a faculty
housing compound. It does four jobs:

- It keeps users, parking stickers and traffic violations in browser storage.
- It keeps a plate-keyed vehicle cache, with risk levels, next to the violations.
- It guards its pages with a fixed role/permission table and a 30-minute idle session.
- It manages the residential-unit catalogue and a loaded real-data document.

Beneath the storage and DOM plumbing sits sequential logic over in-memory
collections. This project restates that logic as pure Dafny functions over
immutable sequences and proves what the code promises about it.

A JavaScript object is modelled as `Fields = map<string, Value>`:

- A missing key is JavaScript's `undefined`, written `None`.
- `Null`, `Bool`, `Num` and `Str` are the JSON values.
- `||`, `!!` and `if (x)` follow JavaScript truthiness (`Values.Truthy`).

Time, randomness and parsing of dates are parameters:

- timestamps are integers, and ISO day strings are given;
- `when` turns a stored date into a comparable number;
- `draw` gives the random occupancy of each generated unit.

A call that can throw in JavaScript returns `None` in the model. Examples are
`includes` on a number, or accumulating into a key such as `constructor`
that every object inherits.

Modules:

| module | file | models |
|---|---|---|
| Values | values.dfy | JSON-like values, `Option`/`Result`, truthiness, `||`, ASCII lower-casing, number printing and padding |
| Seqs | seqs.dfy | filters, key classes and subsequences, the building blocks of `Array.prototype.filter` |
| Sorting | sorting.dfy | the stable `sort((a, b) => key(b) - key(a))` |
| Grouping | grouping.dfy | the "accumulate into an object keyed by a field" idiom and `Object.values` key order |
| Database | database.dfy | users, stickers and violations in js/database.js |
| VehicleCache | vehicle_cache.dfy | the vehicle cache in js/database.js |
| Auth | auth.dfy | js/auth.js |
| VehicleStore | vehicle_store.dfy | vehicle_database.js |
| DirtyTracking | dirty_tracking.dfy | js/unsaved-changes.js |
| Upload | upload.dfy | image-upload-security.js |
| Report | report.dfy | `groupByPlateAndDate` and `generateReportNumber` of advanced_export_professional.js |
| Units | units.dfy | residential_units_data.js |
| RealData | real_data.dfy | real_data_loader.js |

## Model

| member | source | states |
|---|---|---|
| Grouping.DistinctKeys | advanced_export_professional.js:43-47 | the keys of a list, each once: every item's key is listed, every listed key belongs to an item, and no key repeats |
| Grouping.DistinctKeysOrdered | advanced_export_professional.js:43-65 | the distinct keys come in strictly increasing order of first occurrence |
| Grouping.GroupBy | vehicle_database.js:141-153 | folding every item into the accumulator gives one entry per distinct key, in first-occurrence order; each entry's counter equals the size of its list, and the list is exactly the items with that key, in input order |
| Grouping.GroupByCountsSum | vehicle_database.js:143-153 | the counters of all entries add up to the number of items, so every item is counted exactly once |
| Grouping.GroupByKeysDistinct | vehicle_database.js:144-150 | an entry is created only on first sight of a key, so no two entries share a key |
| Grouping.GroupByNonEmpty | vehicle_database.js:144-152 | every entry holds at least one item |
| Grouping.SumCountsPerm | vehicle_database.js:155-157 | reordering the entries (Object.values, sort) does not change the total count |
| Grouping.CountBy | js/database.js:895-899 | produces a table that holds every item's key, each with the exact number of items carrying it, never 0 |
| Grouping.ObjectValues | vehicle_database.js:155 | Object.values returns the same entries, with canonical array-index keys first in ascending numeric order and then every other key in insertion order |
| Sorting.SortDesc | vehicle_database.js:157 | the sort returns a permutation of its input in non-increasing key order, and ties keep their original relative order (same key classes, in order) |
| Sorting.SortDescMembers | js/database.js:871-872 | sorting neither adds nor drops an element |
| Sorting.SortDescHeadIsMax | js/database.js:830-833 | the first element after the descending sort is an input element with the largest key |
| Database.MaxId | js/database.js:171 | `Math.max` over the ids of a non-empty list is an id in the list that no other id exceeds |
| Database.NewId | js/database.js:171 | a new id is greater than every existing id: 1 for an empty collection, otherwise the maximum plus one |
| Database.IndexOf | js/database.js:207 | `findIndex` by id gives the first position holding the id, or the length when none does |
| Database.GetById | js/database.js:142-145 | `find` by id is absent exactly when no record has the id; otherwise it is the first record with it |
| Database.GetByIdUnique | js/database.js:364-367 | when ids are unique, looking up a record's id returns that record |
| Database.GetUserByUsername | js/database.js:150-153 | the lookup fails exactly when no user has the name, and otherwise returns the first user with that name |
| Database.GetUserByUsernameUnique | js/database.js:150-168 | when usernames are unique, looking up a user's name returns that user |
| Database.Copy | js/database.js:173-178 | the listed properties come from the data, and all the others are left as they were |
| Database.UserKeysApart | js/database.js:173-183 | the properties addUser copies never collide with the ones it sets itself |
| Database.UserDefaults | js/database.js:179-182 | the status defaults to 'active' unless a truthy one is given; createdDate is today and lastLogin is null |
| Database.NewUser | js/database.js:173-183 | the built user has the new id, the caller's username/password/name/email/role, and the defaults for the rest |
| Database.AddUser | js/database.js:158-199 | a username already in use is refused, with the collection unchanged; otherwise exactly one user is appended, with an id above every existing id, the copied fields and a status defaulting to 'active' |
| Database.AddUserKeepsUnique | js/database.js:163-185 | adding a user keeps ids unique and usernames unique |
| Database.AddUserThenFind | js/database.js:158-199 | after a successful addUser its username finds the new user |
| Database.Merge | js/database.js:226-230 | in `{...old, ...patch}` the patch wins on every property it names, and the other properties are kept |
| Database.UpdateUser | js/database.js:204-245 | fails with NotFound, nothing changed, exactly when no record has the id; succeeds exactly when the id exists and no truthy new username held by another user is given; on success only the first record with the id is replaced, by the merge, keeping the id |
| Database.UpdateUserKeepsUnique | js/database.js:216-230 | updating keeps ids unique, and it keeps usernames unique when the patch carries no falsy username |
| Database.UpdateUserThenGet | js/database.js:204-245 | a successful update keeps ids unique, and looking up the id returns the updated record |
| Database.UpdateUserEmptyNameCollides | js/database.js:217 | a falsy username skips the uniqueness check, so an update can give two users the same (empty) name |
| Database.DeleteById | js/database.js:250-274 | delete fails, with the collection unchanged, exactly when no record has the id; otherwise the result is the records without the id, in order, one copy each: its length is the total less the number of records with the id |
| Database.DeleteThenGet | js/database.js:443-467 | after a delete the id is no longer found |
| Database.UpdateLastLogin | js/database.js:279-291 | only the first user with the id gets a new lastLogin; every other record is unchanged, and an unknown id changes nothing |
| Database.AddStamped | js/database.js:372-400 | addSticker/addViolation always append one record with createdDate and createdBy; the id exceeds every existing id unless the data carries its own id, which then wins |
| Database.AddStampedFresh | js/database.js:526-554 | for data without an id, appending keeps ids unique and the new record is found by its id |
| Database.AddStampedCallerIdClash | js/database.js:377-381 | a caller-supplied id overrides the generated one, so it can duplicate an existing id |
| Database.UpdateStamped | js/database.js:405-438 | updateSticker/updateViolation fail, with nothing changed, exactly for an unknown id; otherwise they merge the data into the first record with the id, keep the id, and stamp updatedDate and updatedBy |
| Database.UpdateStampedThenGet | js/database.js:559-592 | an update keeps ids unique, and the updated record is what a lookup of its id returns |
| Database.Search | js/database.js:472-487 | the search returns the records whose field is a string containing the query (or starting with it), in stored order, and exactly as many as there are such records; it throws (None) exactly when some record's field is truthy and not a string |
| Database.SearchFindsExact | js/database.js:626-641 | searching for a record's full, non-empty field value finds that record, by plate or by date prefix |
| Database.CountWhere | js/database.js:646-656 | the count is exactly the number of records whose field equals the value |
| Database.CountAnyBound | js/database.js:492-508 | counts by distinct status values never count a sticker twice, so together they stay within the total |
| Database.GetUserStats | js/database.js:646-656 | total is the number of users; active, inactive, admins, entry clerks and inquiry users are each the number of users with that status or role |
| Database.UserStatusesPartition | js/database.js:646-656 | when every status is active or inactive, the two counts add up to the number of users |
| Database.GetStickerStats | js/database.js:492-508 | total is the number of stickers; each status count, the villa and apartment counts, today's count and this week's count are the numbers of stickers meeting that test; today's stickers are among this week's whenever the week start is not after today |
| Database.CountWhereWithin | js/database.js:503-504 | a count by exact value is bounded by any filter that accepts all such records |
| Database.DefaultUsers | js/database.js:85-124 | the three shipped users have unique ids and usernames and are all active |
| VehicleCache.Classify | js/database.js:836-845 | the risk status is 'خطر' exactly for 5 or more violations, 'تحذير' exactly for 3 or 4, and 'نشط' below 3 |
| VehicleCache.ClassifyMonotone | js/database.js:836-842 | more violations never lower the risk level |
| VehicleCache.PlateViolations | js/database.js:825 | the violations kept are exactly those whose plate equals the vehicle's, in stored order, one copy each |
| VehicleCache.Latest | js/database.js:830-833 | the head of the date-descending sort is a violation with no later date |
| VehicleCache.Stamp | js/database.js:826-845 | the three cached properties are written and every other property is left alone |
| VehicleCache.RecomputeOne | js/database.js:824-846 | violationsCount is the number of exact-plate violations, status is their classification, and lastViolationDate is null with none or otherwise the latest `date || createdDate` among them; other properties are unchanged |
| VehicleCache.RecomputeOneKeepsPlate | js/database.js:824-826 | the recomputation never changes the plate |
| VehicleCache.Recompute | js/database.js:818-862 | calculateVehicleViolations recomputes every vehicle in place: same length, same plates |
| VehicleCache.RecomputeIdempotent | js/database.js:818-847 | recomputing twice gives the same cache as recomputing once |
| VehicleCache.RepeatedOffenders | js/database.js:868-877 | exactly the vehicles with a numeric count of at least min, as many as there are, in non-increasing count order, with ties keeping their stored order |
| VehicleCache.VehicleFromViolation | js/database.js:942-953 | a vehicle created from a violation carries its plate, count 0, null last date and status 'نشط' |
| VehicleCache.Reconcile | js/database.js:940-956 | existing vehicles stay in place; every violation plate ends with a vehicle; each added vehicle comes from a violation, and no added plate repeats an earlier one |
| VehicleCache.ReconcileOrder | js/database.js:940-956 | the added vehicles' plates are exactly the distinct plates of the unmatched violations, in first-occurrence order |
| VehicleCache.SyncVehicles | js/database.js:934-974 | after syncing, existing vehicles keep their plates, and every violation plate has a vehicle with a count of at least 1 |
| VehicleCache.PlateIndex | js/database.js:766 | `findIndex` by plate gives the first vehicle with exactly that plate, or the length |
| VehicleCache.GetVehicleByPlate | js/database.js:810-813 | the lookup fails exactly when no vehicle has the plate, and otherwise returns the first vehicle that has it |
| VehicleCache.NewVehicle | js/database.js:777-788 | a new vehicle carries the given plate, count 0, null last date and status 'نشط' |
| VehicleCache.AddOrUpdateVehicle | js/database.js:763-805 | a known plate merges the data into that vehicle in place and stamps updatedDate, with the size unchanged; an unknown plate appends one new vehicle; afterwards the plate is present |
| VehicleCache.AddOrUpdateThenGet | js/database.js:763-813 | after addOrUpdateVehicle its plate finds the vehicle merged into or appended |
| VehicleCache.DeleteVehicle | js/database.js:979-1004 | delete fails, with nothing changed, exactly when no vehicle has the plate; otherwise the result is the other vehicles in order, as many as there are vehicles without the plate |
| VehicleCache.DeleteVehicleThenGet | js/database.js:979-1004 | after deleteVehicle the plate is no longer found, and every other plate is found exactly when it was before |
| VehicleCache.SearchVehicles | js/database.js:1009-1024 | the vehicles whose lower-cased plate, type or owner, or raw phone, contains the lower-cased term, in stored order and as many as pass; a non-string field makes the search throw, and the catch returns [] |
| VehicleCache.SearchFindsPlate | js/database.js:1012-1015 | searching for a vehicle's own plate finds that vehicle, whenever the search does not throw |
| VehicleCache.AdvancedStatistics | js/database.js:882-929 | totals match the list sizes; dangerousVehicles and warningVehicles are the numbers of vehicles with those statuses; repeatedOffenders equals getRepeatedOffenders(2)'s size; each violation type maps to its exact count |
| VehicleCache.RiskyAreRepeated | js/database.js:890-892 | on a freshly recomputed cache, dangerous plus warning vehicles never outnumber the repeat offenders (counts of at least 2) |
| Auth.RoleOf | js/auth.js:8-12 | the role a key names, and none for a key that names no role |
| Auth.FlagOf | js/auth.js:16-27 | the flag a permission name names, and none for any other name |
| Auth.KeysRoundTrip | js/auth.js:15-52 | role and flag keys are read back to the role and flag they came from |
| Auth.GrantedShape | js/auth.js:15-52 | admin has all ten flags; violation_entry exactly add and view violation; inquiry exactly view violation, view reports and export; only view violation is granted to every role |
| Auth.Logout | js/auth.js:185-192 | logout forgets the current user and the stored session |
| Auth.CheckSession | js/auth.js:83-106 | a stored session is restored exactly when `now - lastActivity <= 30 min`; a stale one logs out; no stored session changes nothing |
| Auth.FindAccepted | js/auth.js:159 | the first user with equal username, equal password and status 'active', or the length |
| Auth.ValidateCredentials | js/auth.js:153-168 | a user is returned exactly when some user matches the username and password and is active; it is the first such user, without its password field |
| Auth.Login | js/auth.js:111-141 | login succeeds exactly when the credentials validate, and then saves a session stamped now; on failure the state is unchanged |
| Auth.UpdateActivity | js/auth.js:302-307 | activity moves lastActivity to now, and re-saves the session of a signed-in user |
| Auth.Tick | js/auth.js:286-296 | the timer logs out a signed-in user idle beyond the timeout, and changes nothing otherwise |
| Auth.GetCurrentUser | js/auth.js:197-202 | the current user, restoring a live stored session first when nobody is signed in |
| Auth.UserRole | js/auth.js:209-212 | a user's role property names a role exactly when it is one of the table's keys |
| Auth.HasPermission | js/auth.js:207-214 | false with nobody signed in, an unknown role or an unknown name; otherwise exactly the table's entry |
| Auth.GetAllPermissions | js/auth.js:319-324 | {} with nobody signed in or an unknown role |
| Auth.PermissionsAgree | js/auth.js:207-214 | the row getAllPermissions returns agrees with hasPermission on every name |
| Auth.AllPermissionsComplete | js/auth.js:319-324 | a known role's row names all ten flags, with the table's values |
| Auth.HasRole | js/auth.js:219-224 | false with nobody signed in; otherwise true exactly when the user's role equals the argument |
| Auth.HasAnyRole | js/auth.js:229-234 | false with nobody signed in; otherwise true exactly when the user's role is in the list |
| Auth.IsAuthenticated | js/auth.js:239-241 | true exactly for a signed-in user whose stored session is still live |
| Auth.RequireAuth | js/auth.js:246-259 | the page opens exactly for a live session whose role is in the required list, or when no list is given; an empty list denies |
| Auth.GetRoleName | js/auth.js:312-314 | the Arabic name for the three role keys; none for a name every object inherits (the inherited member is returned); any other input unchanged |
| Auth.RoleNamesDistinct | js/auth.js:55-59 | distinct roles have distinct names, and a displayed name is returned unchanged |
| Auth.LoginThenCheck | js/auth.js:88-98 | after a login at t, a later check keeps the session exactly while now - t is at most 30 minutes |
| Auth.ActivityKeepsSession | js/auth.js:277-307 | within the timeout after activity, neither the timer nor the page guard ends the session |
| Auth.LogoutDeniesAll | js/auth.js:185-192 | after logout no permission is granted, getAllPermissions is {}, and every page guard refuses |
| VehicleStore.FindVehicleByPlate | vehicle_database.js:64-68 | exactly the vehicles whose plate contains the query or is contained in it, in stored order and as many as match; the call throws when some plate is not a string |
| VehicleStore.GetNewVehicles | vehicle_database.js:184-189 | exactly the given plates that no stored vehicle overlaps, in input order, repeats included; it throws when there is a plate to check and some stored plate is not a string |
| VehicleStore.StoredPlateIsNotNew | vehicle_database.js:184-189 | a stored vehicle's own plate is never reported as new |
| VehicleStore.GetVehicleViolations | vehicle_database.js:135-137 | exactly the violations with that plate, in stored order, as many as carry it |
| VehicleStore.GetVehicleRepeatCount | vehicle_database.js:71-87 | database, recognitions and violations are the numbers of exact-plate entries in each list, and the total is their sum |
| VehicleStore.RepeatCountZero | vehicle_database.js:73-79 | each count is zero exactly when the plate does not occur in that list |
| VehicleStore.EntryFacts | vehicle_database.js:143-153 | every accumulated entry counts its own list, which is exactly the items with its key |
| VehicleStore.Ranked | vehicle_database.js:329-345 | the accumulate, Object.values and sort pipeline gives distinct keys, counts summing to the input size and sorted descending, each entry listing exactly its items; it throws exactly on an inherited key |
| VehicleStore.ViolationsByType | vehicle_database.js:329-345 | one group per violation type, counts summing to the number of violations, most frequent first; each group's count is its number of members and its members are exactly the violations of that type; every violation is in its group |
| VehicleStore.ViolationsByBuilding | vehicle_database.js:348-365 | one group per building, counts summing to the number of violations, most frequent first; each group's count is its number of members and its members are exactly the violations of that building (missing ones under 'غير محدد'); every violation is in its group |
| VehicleStore.MissingBuildingFiled | vehicle_database.js:352 | a violation without a building is filed under 'غير محدد' |
| VehicleStore.RepeatedViolators | vehicle_database.js:140-158 | one entry per plate with at least min violations, and every such plate has one; each entry's count is its list's length and the list is exactly that plate's violations; sorted by count, descending |
| VehicleStore.RepeatedViolatorsFacts | vehicle_database.js:155-157 | filter then sort keeps the entries' facts, the distinct keys and the coverage of every plate at or above min |
| VehicleStore.DeleteById | vehicle_database.js:221-230 | exactly the records with the id are removed, and the rest are kept in order |
| VehicleStore.IndexOfId | vehicle_database.js:209 | the first violation with the id, or the length |
| VehicleStore.UpdateViolationStatus | vehicle_database.js:208-218 | an unknown id returns null and changes nothing; otherwise only that violation changes, getting the status, the notes (default '') and updatedAt |
| VehicleStore.ActiveCriteria | vehicle_database.js:305-323 | only the truthy criteria are applied, each with its form field's way of matching |
| VehicleStore.Narrow | vehicle_database.js:302-326 | the successive filters keep exactly the items passing every criterion; they throw only when a criterion meets a non-string field |
| VehicleStore.NarrowNone | vehicle_database.js:302-326 | the successive filters throw exactly when some item passes every criterion before one on which it throws |
| VehicleStore.AdvancedSearch | vehicle_database.js:302-326 | exactly the vehicles meeting every set criterion, in stored order, one copy each (the filter of the vehicles by that test); it throws exactly when the plate criterion is set and some vehicle's plate is not a string, or the owner criterion is set and some vehicle passing the other four set criteria has an owner that is not a string |
| VehicleStore.CriteriaAgree | vehicle_database.js:305-323 | applying the set criteria one after another is the same test as meeting all of them at once |
| VehicleStore.SearchWithoutCriteria | vehicle_database.js:302-326 | with no criterion set, every vehicle is returned |
| DirtyTracking.Lookup | js/unsaved-changes.js:93 | an own property is found exactly when the object has an entry with that name |
| DirtyTracking.Assign | js/unsaved-changes.js:76 | `obj[k] = v` makes k read v and leaves every other name alone, except that `__proto__` is not stored as data |
| DirtyTracking.Snapshot | js/unsaved-changes.js:72-79 | the snapshot has one property per entry name (except `__proto__`), and no others |
| DirtyTracking.SnapshotKeepsLast | js/unsaved-changes.js:75-77 | for a repeated name the snapshot keeps the value of the last entry |
| DirtyTracking.FirstValue | js/unsaved-changes.js:94 | `FormData.get` returns the first entry with the name, and none when there is none |
| DirtyTracking.ValueChanged | js/unsaved-changes.js:93-99 | true exactly when some snapshot property differs from the current first value (missing reads as '') |
| DirtyTracking.FieldAdded | js/unsaved-changes.js:102-107 | true exactly when some current entry is not in the snapshot (inherited names count as in it) and is non-empty |
| DirtyTracking.HasChanges | js/unsaved-changes.js:85-110 | the loops report dirty exactly when a snapshot value changed or a non-empty field was added |
| DirtyTracking.CleanAfterSnapshot | js/unsaved-changes.js:72-107 | checking right after a snapshot reports clean when every name has a single entry |
| DirtyTracking.RepeatedNameLooksDirty | js/unsaved-changes.js:75-95 | with a repeated name, an unchanged form reads dirty, because the snapshot keeps the last value and get() reads the first |
| DirtyTracking.InheritedNameNeverNew | js/unsaved-changes.js:103 | a field named like an Object.prototype member is never reported as added |
| DirtyTracking.Initial | js/unsaved-changes.js:13-20 | the detector starts clean, enabled and tracking no form |
| DirtyTracking.SetUnsaved | js/unsaved-changes.js:116-124 | only the flag changes |
| DirtyTracking.TrackForm | js/unsaved-changes.js:41-66 | an invalid form changes nothing; otherwise the form is tracked with a fresh snapshot, and the flag is unchanged |
| DirtyTracking.CheckForChanges | js/unsaved-changes.js:85-110 | a form without a snapshot is ignored; otherwise the flag becomes that form's result alone |
| DirtyTracking.MarkAsSaved | js/unsaved-changes.js:130-147 | re-snapshots the given form or every tracked form, and clears the flag |
| DirtyTracking.ResetForm | js/unsaved-changes.js:153-163 | a resolved form is re-snapshotted from its reset data and the flag is cleared; otherwise nothing changes |
| DirtyTracking.UntrackForm | js/unsaved-changes.js:185-199 | the form and its snapshot are forgotten; the flag is cleared exactly when no tracked form is left |
| DirtyTracking.SetEnabled | js/unsaved-changes.js:169-171 | only the enabled switch changes |
| DirtyTracking.ConfirmNavigation | js/unsaved-changes.js:206-213 | clean: leave without a prompt; dirty: prompt with the given message or the default, and leave on the answer |
| DirtyTracking.ClickBlocked | js/unsaved-changes.js:219-231 | a click is cancelled exactly when the flag is set, warnings are enabled and the user declines |
| DirtyTracking.LastCheckWins | js/unsaved-changes.js:109 | after two checks the flag is the second form's result, whatever the first said |
| DirtyTracking.DirtyFormMasked | js/unsaved-changes.js:109-117 | an edited form's dirtiness is hidden by a later clean check of another form |
| DirtyTracking.SavedFormReadsClean | js/unsaved-changes.js:130-147 | after saving every form, the page is not held and an unchanged form checks clean |
| Upload.NumberOr | image-upload-security.js:14-19 | a numeric option falls back to its default when absent or 0 |
| Upload.ListOr | image-upload-security.js:15 | a list option, even an empty one, replaces the default |
| Upload.MakeConfig | image-upload-security.js:11-24 | every limit takes its option or default; the two switches are on unless explicitly false |
| Upload.DefaultConfig | image-upload-security.js:13-23 | the defaults are 5 MB, 100 to 4096 pixels a side, five types and five extensions, both switches on |
| Upload.LastIndexOf | image-upload-security.js:116 | the position of the last occurrence, or -1 when absent |
| Upload.Extension | image-upload-security.js:116 | the suffix from the last dot, starting with that dot and containing no other; the whole name when there is no dot |
| Upload.IsValidExtension | image-upload-security.js:115-118 | true exactly when the lower-cased suffix from the last dot is an allowed extension |
| Upload.LowerKeepsDots | image-upload-security.js:116 | lower-casing keeps the last dot in place |
| Upload.UpperCaseExtensionAccepted | image-upload-security.js:116 | the extension check ignores letter case ("CAR.PNG" passes) |
| Upload.BareExtensionRejected | image-upload-security.js:116-117 | a name without a dot is taken whole as its extension, so "png" fails |
| Upload.Scrub | image-upload-security.js:134 | every character outside letters, digits, the Arabic block, '.', '_' and '-' becomes '_', and the others are kept in place |
| Upload.CollapseDots | image-upload-security.js:137 | the result has no two consecutive dots, keeps the first character and keeps every non-dot character in order |
| Upload.CollapseDotsSnoc | image-upload-security.js:137 | appending a character: a dot right after a dot is absorbed, any other character is kept, so each run of dots becomes exactly one dot |
| Upload.CollapseDotsKeepsSingleDot | image-upload-security.js:137 | a single dot between two names is kept ("a.b" stays "a.b") |
| Upload.CollapseDotsKeeps | image-upload-security.js:137 | a name without double dots is left alone |
| Upload.AvoidLeadingDot | image-upload-security.js:140-142 | a leading dot gets the prefix "file", so the result never starts with a dot |
| Upload.Prepared | image-upload-security.js:134-142 | before the length limit, the name has only allowed characters, no double dots and no leading dot |
| Upload.PreparedClean | image-upload-security.js:132-142 | a clean name goes through the replacements unchanged |
| Upload.SanitizeAsWrittenFacts | image-upload-security.js:132-152 | the written sanitiser keeps only allowed characters; without truncation it adds no double dot or leading dot; with an extension of at most 255 it returns exactly 255 characters ending with that extension |
| Upload.NoDotStaysOverlong | image-upload-security.js:145-149 | a name without a dot is not shortened: 256 letters come back at 256 characters |
| Upload.LongExtensionLeadingDot | image-upload-security.js:147-148 | an extension of 255 or more characters is all that remains, so the result starts with a dot |
| Upload.CutBeforeDotDoubles | image-upload-security.js:147-148 | a cut that ends on a dot is joined to an extension starting with one, giving ".." |
| Upload.TrimTrailingDot | image-upload-security.js:147-148 | at most one trailing dot is dropped |
| Upload.Truncate | image-upload-security.js:145-149 | the intended limit: at most 255 characters; shorter names unchanged; no double or leading dot; the extension kept when it is shorter than the limit |
| Upload.Sanitize | image-upload-security.js:132-152 | the result has only allowed characters, no double dots, no leading dot, and at most 255 characters |
| Upload.SanitizeKeepsClean | image-upload-security.js:60-61 | an already clean name comes back unchanged, from both versions of the sanitiser |
| Upload.SanitizeIdempotent | image-upload-security.js:132-152 | sanitising twice changes nothing more |
| Upload.SanitizeAgrees | image-upload-security.js:145-146 | the intended and the written sanitiser agree whenever no truncation is needed |
| Upload.ValidateDimensions | image-upload-security.js:158-213 | read and decode failures give their one error; otherwise the too-large error appears exactly when a side exceeds its maximum, the too-small error exactly when one is below its minimum, and the warning exactly when a side exceeds 2048 |
| Upload.BasicErrors | image-upload-security.js:44-56 | no error exactly when the type, the extension and the size are all valid |
| Upload.RenameWarning | image-upload-security.js:59-64 | the rename warning is present exactly when sanitising is on and the intended sanitiser changes the name |
| Upload.ValidateFile | image-upload-security.js:32-101 | a missing file is invalid with one error; when a type, extension or size check fails, those errors are the whole list and no image is read; the result is valid exactly when the basic checks pass, the image decodes and, when enabled, the dimensions fit; the sanitised name is always reported, and whenever no truncation is needed it and the rename warning are those of the written sanitiser |
| Upload.LargeImageWarning | image-upload-security.js:67-75 | the large-image warning appears exactly when dimensions were checked (enabled, no earlier error, decoded) and a side exceeds 2048 |
| Upload.CleanNameNoWarning | image-upload-security.js:59-64 | a clean name never draws the rename warning |
| Report.ToRow | advanced_export_professional.js:48-57 | a row carries the first sighting's fields, and its image count equals the lengths of its sightings and image names |
| Report.GroupByPlateAndDate | advanced_export_professional.js:40-66 | one row per distinct plate_date key, in first-occurrence order; each row lists exactly the sightings with its key, in input order, and an image name ('' when absent) for each |
| Report.ImagesAddUp | advanced_export_professional.js:43-58 | the image counts add up to the number of sightings |
| Report.RowsInFirstSightingOrder | advanced_export_professional.js:43-65 | rows come in increasing order of their key's first sighting |
| Report.RowKeys | advanced_export_professional.js:45-49 | a row's key is the key of its first sighting |
| Report.EverySightingHasRow | advanced_export_professional.js:43-58 | every sighting lands in some row |
| Report.PlatesAtMostRows | advanced_export_professional.js:536 | the summary's distinct plates never outnumber the rows |
| Report.PaddedFacts | advanced_export_professional.js:23-25 | `padStart` of a number below 100 (1000) gives exactly two (three) digits that read back to the number |
| Report.FourDigitYear | advanced_export_professional.js:22 | a year from 1000 to 9999 prints as four digits that read back to it |
| Report.ReportNumber | advanced_export_professional.js:20-27 | the number starts with "TR-", has a '-' before the three-digit draw, and has length 15 for a four-digit year |
| Report.ReportNumberRoundTrip | advanced_export_professional.js:20-27 | a report number reads back to its year, month, day and draw |
| Report.ReportNumberInjective | advanced_export_professional.js:20-27 | two report numbers are equal only for the same date and draw |
| Units.Range | residential_units_data.js:62-64 | `Array.from({length}, (_, i) => lo + i)`: consecutive integers from lo |
| Units.NewBuildingsFacts | residential_units_data.js:61-65 | there are 21 new buildings, in increasing order, numbered 53 to 79 |
| Units.FloorSlots | residential_units_data.js:72-73 | apartment u of a floor is numbered floor·10 + u |
| Units.VillaSlots | residential_units_data.js:98-104 | villa v is unit v of building 1000 + v |
| Units.Slots | residential_units_data.js:29-118 | the generation order yields 30·5·4 + 21·7·3 + 114 = 1155 units |
| Units.MakeUnit | residential_units_data.js:39-55 | occupancy_status is 'مشغول' exactly when occupied; resident name and phone are null exactly when vacant; parking is null exactly for villas |
| Units.Numbered | residential_units_data.js:40 | the running counter gives ids 1, 2, … in push order |
| Units.CreateSampleData | residential_units_data.js:25-125 | the sample has 1155 units |
| Units.CatalogueIds | residential_units_data.js:27-40 | unit i of the sample has id i + 1, so ids run 1..1155 consecutively |
| Units.CatalogueUnit | residential_units_data.js:47-52 | every generated unit's status, resident and parking agree with its occupancy and type |
| Units.CatalogueNumbering | residential_units_data.js:29-118 | the first 600 units are old-building apartments (buildings 1-30, floors 0-4, 4 a floor); the next 441 are new-building ones (53-79, floors 1-7, 3 a floor); the last 114 are villas numbered 1..114 in buildings 1001..1114 |
| Units.CataloguePairsDistinct | residential_units_data.js:36-104 | no two units share a (building_number, unit_number) pair |
| Units.ToFieldsCounted | residential_units_data.js:39-55 | the stored record carries the unit's occupancy, type and category |
| Units.GetStatistics | residential_units_data.js:169-179 | occupied, villas and newBuildingUnits are the numbers of units with that property, and occupied plus vacant equals the total; everything is occupied exactly when every unit's is_occupied is truthy |
| Units.GetStatisticsAppend | residential_units_data.js:169-179 | every count over two lists put together is the sum of the counts over each |
| Units.SampleStatistics | residential_units_data.js:172-177 | over the generated sample: 1155 units, 114 villas, 441 in new buildings |
| Units.StagedIsOneFilter | residential_units_data.js:188-206 | the three successive filters keep exactly the units that pass all three |
| Units.Search | residential_units_data.js:184-209 | exactly the units that pass every non-empty filter, in order, one copy each (the result is the filter of the units by that test); it throws exactly when a search term is given and some unit's name field cannot be lower-cased |
| Units.SearchEmptyKeepsAll | residential_units_data.js:184-209 | with every filter empty, all units are returned |
| Units.StatusFilterExact | residential_units_data.js:199-206 | the status and category filters are exact matches |
| Units.SearchAndFilter | residential_units_data.js:184-209 | searchAndFilter searches `unit_name` and returns exactly the units passing every non-empty filter, in order; with all filters empty it returns everything |
| RealData.NewLoader | real_data_loader.js:8-12 | a fresh loader has nothing loaded |
| RealData.SelectBy | real_data_loader.js:108-112 | a falsy filter returns the list itself; a truthy one returns exactly the records with an equal field, in order, as many as there are |
| RealData.SelectByIdempotent | real_data_loader.js:108-110 | filtering twice by the same value filters nothing more |
| RealData.GetStickers | real_data_loader.js:105-113 | [] before loading; otherwise exactly the stickers with the given status, in order and as many as there are, or all of them |
| RealData.GetBuildings | real_data_loader.js:118-126 | [] before loading; otherwise exactly the buildings of the given type, in order and as many as there are, or all of them |
| RealData.GetUnits | real_data_loader.js:139-147 | [] before loading; otherwise exactly the units of the given building_category, in order and as many as there are, or all of them |
| RealData.DefaultArgumentsReturnAll | real_data_loader.js:105-183 | with no argument every getter returns its loaded list as it is |
| RealData.FindResident | real_data_loader.js:160-163 | the first resident whose building_type equals the unit's building_number and whose unit_number is equal; none when no resident matches |
| RealData.Overlay | real_data_loader.js:165-173 | the spread writes the six join fields over the unit and keeps every other field |
| RealData.Joined | real_data_loader.js:158-174 | a unit is occupied exactly when some resident matches, and the first match supplies name, phone and parking; an unmatched unit gets 'شاغر' and nulls |
| RealData.GetUnitsWithResidents | real_data_loader.js:152-175 | [] before loading; otherwise one joined record per unit, keeping length and order |
| RealData.JoinedOccupancy | real_data_loader.js:160-167 | the joined list marks occupied exactly the units some resident matches |
| RealData.WithCounts | real_data_loader.js:193-200 | the computed counts override same-named base statistics, and every other base field is kept |
| RealData.Tally | real_data_loader.js:193-200 | occupied, villas, new-building and old-building counts are the numbers of units with that property, and occupied plus vacant is the number of units |
| RealData.TallyBuildingsApart | real_data_loader.js:198-199 | old plus new building units never exceed the number of units |
| RealData.JoinKeepsKinds | real_data_loader.js:165-173 | the join leaves unit_type and building_category alone, so villa and building counts over joined units equal those over loaded units |
| RealData.GetStatistics | real_data_loader.js:188-201 | {} before loading; otherwise the base statistics with occupied + vacant = units and the villa, new-building and old-building counts of the loaded units |
| RealData.StatisticsCountsResidents | real_data_loader.js:195 | occupied_units is the number of units some resident matches |
| RealData.SearchUnits | real_data_loader.js:206-231 | [] before loading; it throws exactly when a search term is given and some joined unit has a truthy `name` or `resident_name` that is not a string, met before a hit; otherwise exactly the joined units passing every non-empty filter, in order, one copy each |
| RealData.OccupiedSearchHasResidents | real_data_loader.js:221-223 | filtering by the occupied status returns only units some resident matches |

## Left out

- Storage, JSON and network: localStorage reads and writes, JSON parse/stringify, the `fetch` of real_data_loader.js:17-100, `init`, `clearAll`, `reset`, `exportData`, `importData` and `resetDatabase`. Collections are passed in and out as sequences.
- DOM, events and dialogs: listeners, `setInterval`, the custom `unsavedChangesChanged` event, `confirm`/`alert`, redirects and `redirectToDefaultPage`. The decisions behind them are kept: `Tick`, `ClickBlocked`, `BeforeUnloadBlocks` and the `answer` parameter of `ConfirmNavigation`.
- Clock, randomness and date parsing are parameters:
  - timestamps are integers and day strings are inputs;
  - random occupancy is `draw`, random names and phones are not modelled, and the report suffix is `draw`;
  - `new Date(...)` ordering is the `when` function.
- Message texts: errors and warnings are modelled as tags without their Arabic wording.
- Floating point:
  - confidence averaging in advanced_export_professional.js:59-61;
  - `averageViolationsPerVehicle` and the per-month table of `getAdvancedStatistics`;
  - `formatFileSize` and `compressImage`.
- `getViolationStats` (js/database.js:661-678) compares calendar months of parsed dates. This is date arithmetic on the clock, so it is left out.
- `initializeDefaultStickers` (js/database.js:296-346): fixed sample data with no logic.
- `getUsers`, `getStickers`, `getViolations`, `getVehiclesDatabase`: plain storage reads. The lookups `getUserById` and `getStickerById` are both `Database.GetById`.
- vehicle_database.js `addVehicle`, `addPlateRecognition`, `addViolation`, `linkVehicleToResident`, `getStatistics`, `exportToCSV` and `formatRowForCSV`. They have no candidate property here: random ids, clock stamps, defaults and CSV text.
- image-upload-security.js:
  - `validateMultipleFiles` and `generateSafeFilename`;
  - the FileReader/Image decoding itself, whose outcome is the `Decoded` input.
- Unicode case mapping: `toLowerCase` is modelled on ASCII letters only (`Values.ToLower`). Arabic has no case, so it is unaffected.
- `password` comparison is plain string equality, as in the code. No hashing is modelled.
- Auth.GetAllPermissions: states only the empty case in its own contract. The row contents are stated by `Auth.PermissionsAgree` and `Auth.AllPermissionsComplete`. A role named like an inherited member (`constructor`, `toString`, ...) finds that member in js/auth.js:323 and returns it; the model returns {} for every unknown role.
- VehicleCache.RepeatedOffenders: only a numeric `violationsCount` is compared. JavaScript's `>=` and the comparator's subtraction (js/database.js:871-872) convert other values to numbers, so the code keeps a count of "3" at min 2, and a null count at min 0 or below; the model drops them. Counts the code writes itself are always numbers (js/database.js:783, 826, 948).
- VehicleCache.AdvancedStatistics: `repeatedOffenders` is the size of `RepeatedOffenders` at min 2, so it shares that numeric-count restriction (js/database.js:890).
- Database.Merge: a map cannot hold a property that is present with the value `undefined`. In the code `{...old, ...{name: undefined}}` leaves `name` undefined (js/database.js:226-230); the model keeps the old value. Records are also assumed to carry an integer `id`.
- CountBy: an inherited key is counted like any other. In js/database.js:897 `counts["constructor"]` starts from the inherited function, so the stored value is a string, and `counts["__proto__"]` never becomes an own entry. Only own, non-inherited keys get the exact counts stated.
- AdvancedStatistics: `violationsByType` is `CountBy` of the types, so a violation type named like an inherited member is left out as for CountBy.
- Units.CreateSampleData: states only the size in its own contract. The shape of each unit is stated by `Units.CatalogueIds`, `Units.CatalogueUnit`, `Units.CatalogueNumbering` and `Units.CataloguePairsDistinct`.
- Database.AddStamped: a caller-supplied `id` is modelled only when it is a number, because records carry integer ids.
- Upload.Scrub: works on Unicode characters, while the regular expression in image-upload-security.js:134 has no `u` flag and replaces each UTF-16 code unit. A character outside the Basic Multilingual Plane becomes two '_' in the code and one in the model ("😀.png" gives "__.png" there and "_.png" here).
- Upload.Sanitize: the 255 limit counts characters, not UTF-16 code units, so a name with characters outside the Basic Multilingual Plane is measured differently than in the code.
- RenameWarning: uses the corrected `Upload.Sanitize`, so a name the written sanitiser would leave too long (256 × 'a') draws the warning here and not in the code. Without truncation both agree (`Upload.SanitizeAgrees`).
- ValidateFile: reports the corrected `Upload.Sanitize` as `sanitizedName`, so for 256 × 'a' it gives 255 characters where the code gives 256. Whenever no truncation is needed the contract states the written sanitiser's name and warning.
- CleanAfterSnapshot: form entries are strings. A file input yields a new `File` object for every `new FormData`, so `!==` always holds and such a form reads dirty in the code; the model does not represent it.
- SavedFormReadsClean: for the same reason, a saved form with a file input still reads dirty in the code, which the model does not represent.
- VehicleCache.Latest: assumes every violation date is valid. A missing or invalid date makes `new Date(...)` NaN, the comparator in js/database.js:830-833 becomes inconsistent, and the chosen element then depends on the sort implementation.
- VehicleCache.RecomputeOne: its lastViolationDate is that of `VehicleCache.Latest`, so it assumes valid dates likewise.
- Report.GroupByPlateAndDate: assumes every timestamp is a valid date; `toISOString` throws RangeError on an invalid one, which the total `day` function does not model.
- Report.GroupByPlateAndDate: requires the day function to give calendar days as `toISOString` does, which contain '-'. A key `plate_day` then never names an inherited member such as `__proto__`, and never looks like an array index, so `Object.values` keeps insertion order. Days without a '-' are not modelled.
- RealData.GetResidents, RealData.GetParking: plain getters with no contract of their own. `RealData.DefaultArgumentsReturnAll` states what they return.
- RealData.SearchUnits: matches the search term against the joined unit's `name`, as the code does, rather than `unit_name` as `searchAndFilter` does.
- DirtyTracking.CheckForChanges: the global flag is the result of the form checked last, not an OR across tracked forms. This follows the code (js/unsaved-changes.js:109).

## Findings

| source | as written | input that shows it | evidently intended | confidence | as-written member | corrected member |
|---|---|---|---|---|---|---|
| image-upload-security.js:145-149 | the length cap cuts before the last dot, so a name without a dot is never shortened | 256 × 'a' comes back at 256 characters | the result never exceeds 255 characters | not executed | Upload.NoDotStaysOverlong | Upload.Sanitize |
| image-upload-security.js:147-148 | when the extension is 255 characters or longer only the extension survives | "a." + 254 × 'b' comes back starting with '.' | the result never starts with a dot | not executed | Upload.LongExtensionLeadingDot | Upload.Truncate |
| image-upload-security.js:147-148 | the cut can end on a dot that is then joined to the extension's dot | 250 × 'a' + "." + 10 × 'b' + ".png" comes back containing "..png" | the result has no two consecutive dots, and sanitising is idempotent | not executed | Upload.CutBeforeDotDoubles | Upload.SanitizeIdempotent |
