/** Form dirty-tracking (js/unsaved-changes.js): a snapshot of each tracked form's
    name/value pairs, a diff of the current pairs against it, and one global
    "unsaved changes" flag that the beforeunload hook and the link guard consult. */
module DirtyTracking {
  import opened Values
  import Grouping

  /** The entries of a `FormData`, in document order; a name may repeat. */
  type Entries = seq<(string, string)>

  /** A plain JS object built by assignment: its own properties in insertion order. */
  type Obj = seq<(string, string)>

  /** Own property lookup. */
  function Lookup(o: Obj, k: string): (r: Option<string>)
    ensures r.Some? <==> exists i :: 0 <= i < |o| && o[i].0 == k
    ensures r.Some? ==> exists i :: 0 <= i < |o| && o[i] == (k, r.value)
  {
    if o == [] then None
    else if o[0].0 == k then Some(o[0].1)
    else Lookup(o[1..], k)
  }

  /** Every property name occurs once. */
  predicate UniqueNames(o: seq<(string, string)>)
  {
    forall i, j :: 0 <= i < j < |o| ==> o[i].0 != o[j].0
  }

  /** `key in obj`: an own property, or one inherited from Object.prototype. */
  predicate InObject(o: Obj, k: string)
  {
    Lookup(o, k).Some? || k in Grouping.InheritedKeys
  }

  /** `obj[k] = v`: overwrites an own property in place, appends a new one; assigning a
      string to `__proto__` changes nothing. */
  function Assign(o: Obj, k: string, v: string): (r: Obj)
    requires UniqueNames(o)
    ensures UniqueNames(r)
    ensures k != "__proto__" ==> Lookup(r, k) == Some(v)
    ensures k == "__proto__" ==> r == o
    ensures forall k' :: k' != k ==> Lookup(r, k') == Lookup(o, k')
  {
    if k == "__proto__" then o
    else if Lookup(o, k).Some? then AssignExisting(o, k, v)
    else
      assert forall k' :: k' != k ==> Lookup(o + [(k, v)], k') == Lookup(o, k') by {
        LookupSnoc(o, k, v);
      }
      LookupSnoc(o, k, v);
      o + [(k, v)]
  }

  /** Overwriting a property that is already there. */
  function AssignExisting(o: Obj, k: string, v: string): (r: Obj)
    requires UniqueNames(o)
    ensures |r| == |o| && UniqueNames(r)
    ensures forall i :: 0 <= i < |o| ==> r[i].0 == o[i].0
    ensures Lookup(o, k).Some? ==> Lookup(r, k) == Some(v)
    ensures forall k' :: k' != k ==> Lookup(r, k') == Lookup(o, k')
  {
    if o == [] then []
    else
      var rest := AssignExisting(o[1..], k, v);
      var r := [if o[0].0 == k then (k, v) else o[0]] + rest;
      assert r[1..] == rest;
      r
  }

  lemma LookupSnoc(o: Obj, k: string, v: string)
    requires Lookup(o, k).None?
    ensures Lookup(o + [(k, v)], k) == Some(v)
    ensures forall k' :: k' != k ==> Lookup(o + [(k, v)], k') == Lookup(o, k')
    ensures UniqueNames(o) ==> UniqueNames(o + [(k, v)])
  {
    if o != [] {
      assert (o + [(k, v)])[1..] == o[1..] + [(k, v)];
      LookupSnoc(o[1..], k, v);
    }
  }

  /** saveOriginalFormData: `data[key] = value` for every entry, in order. */
  function Snapshot(entries: Entries): (r: Obj)
    ensures UniqueNames(r)
    ensures forall k :: Lookup(r, k).Some? <==>
              k != "__proto__" && exists i :: 0 <= i < |entries| && entries[i].0 == k
    decreases |entries|
  {
    if entries == [] then []
    else
      var init := entries[..|entries| - 1];
      var last := entries[|entries| - 1];
      var o := Snapshot(init);
      var r := Assign(o, last.0, last.1);
      assert forall i :: 0 <= i < |init| ==> init[i] == entries[i];
      r
  }

  /** The snapshot holds, for every name, the value of its LAST entry. */
  lemma {:induction false} SnapshotKeepsLast(entries: Entries, i: nat)
    requires i < |entries| && entries[i].0 != "__proto__"
    requires forall j :: i < j < |entries| ==> entries[j].0 != entries[i].0
    ensures Lookup(Snapshot(entries), entries[i].0) == Some(entries[i].1)
    decreases |entries|
  {
    var init := entries[..|entries| - 1];
    if i < |entries| - 1 {
      assert init[i] == entries[i];
      SnapshotKeepsLast(init, i);
    }
  }

  /** `FormData.get(name)`: the FIRST entry with that name. */
  function FirstValue(entries: Entries, k: string): (r: Option<string>)
    ensures r.None? <==> forall i :: 0 <= i < |entries| ==> entries[i].0 != k
    ensures r.Some? ==> exists i :: 0 <= i < |entries| && entries[i] == (k, r.value) &&
                          forall j :: 0 <= j < i ==> entries[j].0 != k
  {
    if entries == [] then None
    else if entries[0].0 == k then Some(entries[0].1)
    else
      var r := FirstValue(entries[1..], k);
      assert r.Some? ==> forall j :: 1 <= j < |entries| ==> entries[j] == entries[1..][j - 1];
      r
  }

  /** `currentData.get(key) || ''`. */
  function Current(entries: Entries, k: string): string
  {
    match FirstValue(entries, k)
    case None => ""
    case Some(v) => v
  }

  /** The first loop of checkForChanges: some snapshot property differs from the current value. */
  function ValueChanged(original: Obj, entries: Entries): (r: bool)
    ensures r <==> exists i :: 0 <= i < |original| && original[i].1 != Current(entries, original[i].0)
  {
    if original == [] then false
    else if original[0].1 != Current(entries, original[0].0) then true
    else
      var r := ValueChanged(original[1..], entries);
      assert forall i :: 1 <= i < |original| ==> original[i] == original[1..][i - 1];
      r
  }

  /** The second loop of checkForChanges: some current entry is new and non-empty. */
  function FieldAdded(original: Obj, entries: Entries): (r: bool)
    ensures r <==> exists i :: 0 <= i < |entries| && !InObject(original, entries[i].0) && entries[i].1 != ""
  {
    if entries == [] then false
    else if !InObject(original, entries[0].0) && entries[0].1 != "" then true
    else
      var r := FieldAdded(original, entries[1..]);
      assert forall i :: 1 <= i < |entries| ==> entries[i] == entries[1..][i - 1];
      r
  }

  /** The declarative meaning of "this form has unsaved changes". */
  ghost predicate Dirty(original: Obj, entries: Entries)
  {
    (exists k :: Lookup(original, k).Some? && Lookup(original, k).value != Current(entries, k)) ||
    (exists i :: 0 <= i < |entries| && !InObject(original, entries[i].0) && entries[i].1 != "")
  }

  /** The `hasChanges` that checkForChanges computes. */
  function HasChanges(original: Obj, entries: Entries): (r: bool)
    requires UniqueNames(original)
    ensures r <==> Dirty(original, entries)
  {
    var r := ValueChanged(original, entries) || FieldAdded(original, entries);
    assert ValueChanged(original, entries) <==>
           exists k :: Lookup(original, k).Some? && Lookup(original, k).value != Current(entries, k) by {
      if ValueChanged(original, entries) {
        var i :| 0 <= i < |original| && original[i].1 != Current(entries, original[i].0);
        LookupUnique(original, i);
      }
    }
    r
  }

  lemma {:induction false} LookupUnique(o: Obj, i: nat)
    requires UniqueNames(o) && i < |o|
    ensures Lookup(o, o[i].0) == Some(o[i].1)
  {
    if i > 0 {
      LookupUnique(o[1..], i - 1);
    }
  }

  /** Checking right after a snapshot reports clean when every name has a single entry. */
  lemma CleanAfterSnapshot(entries: Entries)
    requires UniqueNames(entries)
    ensures !HasChanges(Snapshot(entries), entries)
  {
    var o := Snapshot(entries);
    forall k | Lookup(o, k).Some?
      ensures Lookup(o, k).value == Current(entries, k)
    {
      var i :| 0 <= i < |entries| && entries[i].0 == k;
      SnapshotKeepsLast(entries, i);
      assert FirstValue(entries, k) == Some(entries[i].1);
    }
    forall i | 0 <= i < |entries|
      ensures InObject(o, entries[i].0)
    {
      if entries[i].0 != "__proto__" {
        assert Lookup(o, entries[i].0).Some?;
      }
    }
  }

  /** With a repeated name (a checkbox group, a multi-select) the snapshot keeps the last
      value but the check reads the first, so an untouched form reports changes. */
  lemma RepeatedNameLooksDirty()
    ensures HasChanges(Snapshot([("tags", "a"), ("tags", "b")]), [("tags", "a"), ("tags", "b")])
  {
    var e := [("tags", "a"), ("tags", "b")];
    SnapshotKeepsLast(e, 1);
    assert Current(e, "tags") == "a";
  }

  /** A field named after an Object.prototype member is never reported as new. */
  lemma InheritedNameNeverNew(original: Obj, entries: Entries)
    requires UniqueNames(original)
    requires forall k :: Lookup(original, k).None?
    requires forall i :: 0 <= i < |entries| ==> entries[i].0 == "constructor"
    ensures !HasChanges(original, entries)
  {
  }

  /** Forms are identified by their element. */
  type FormId = nat

  /** The detector's state. */
  datatype Detector = Detector(unsaved: bool, tracked: set<FormId>, originals: map<FormId, Obj>, enabled: bool)

  /** Every stored snapshot is a well-formed object. */
  predicate Valid(d: Detector)
  {
    forall f :: f in d.originals ==> UniqueNames(d.originals[f])
  }

  const CustomMessage: string := "لديك تغييرات غير محفوظة. هل تريد المغادرة؟"

  /** The constructor. */
  function Initial(): (d: Detector)
    ensures Valid(d) && !d.unsaved && d.enabled && d.tracked == {}
  {
    Detector(false, {}, map[], true)
  }

  /** setUnsavedChanges (the event it dispatches is not modelled). */
  function SetUnsaved(d: Detector, b: bool): (r: Detector)
    ensures r.unsaved == b
    ensures r.tracked == d.tracked && r.originals == d.originals && r.enabled == d.enabled
  {
    d.(unsaved := b)
  }

  /** trackForm: `form` is the element the argument resolves to, None when it is not a
      form; `entries` is the form's data at that moment. */
  function TrackForm(d: Detector, form: Option<FormId>, entries: Entries): (r: Detector)
    requires Valid(d)
    ensures Valid(r)
    ensures form.None? ==> r == d
    ensures form.Some? ==> r.tracked == d.tracked + {form.value} &&
                           r.originals == d.originals[form.value := Snapshot(entries)] &&
                           r.unsaved == d.unsaved && r.enabled == d.enabled
  {
    match form
    case None => d
    case Some(f) => d.(tracked := d.tracked + {f}, originals := d.originals[f := Snapshot(entries)])
  }

  /** checkForChanges: a form without a snapshot is ignored; otherwise the global flag
      becomes this form's verdict, whatever other forms said before. */
  function CheckForChanges(d: Detector, form: FormId, entries: Entries): (r: Detector)
    requires Valid(d)
    ensures Valid(r)
    ensures form !in d.originals ==> r == d
    ensures form in d.originals ==> r.unsaved == Dirty(d.originals[form], entries)
    ensures r.tracked == d.tracked && r.originals == d.originals && r.enabled == d.enabled
  {
    if form !in d.originals then d
    else SetUnsaved(d, HasChanges(d.originals[form], entries))
  }

  /** What markAsSaved is asked to re-snapshot. */
  datatype Target = AllForms | OneForm(form: Option<FormId>)

  /** markAsSaved: re-snapshot the given form (if it resolves) or every tracked form, then
      clear the flag; `contents` gives each form's current data. */
  function MarkAsSaved(d: Detector, target: Target, contents: FormId -> Entries): (r: Detector)
    requires Valid(d)
    ensures Valid(r) && !r.unsaved
    ensures r.tracked == d.tracked && r.enabled == d.enabled
    ensures target.AllForms? ==>
              r.originals.Keys == d.originals.Keys + d.tracked &&
              (forall f :: f in d.tracked ==> r.originals[f] == Snapshot(contents(f))) &&
              (forall f :: f in d.originals && f !in d.tracked ==> r.originals[f] == d.originals[f])
    ensures target.OneForm? && target.form.Some? ==>
              r.originals == d.originals[target.form.value := Snapshot(contents(target.form.value))]
    ensures target.OneForm? && target.form.None? ==> r.originals == d.originals
  {
    var originals :=
      match target
      case AllForms =>
        map f | f in d.originals.Keys + d.tracked ::
          if f in d.tracked then Snapshot(contents(f)) else d.originals[f]
      case OneForm(None) => d.originals
      case OneForm(Some(f)) => d.originals[f := Snapshot(contents(f))];
    Detector(false, d.tracked, originals, d.enabled)
  }

  /** resetForm: `defaults` is the form's data after `form.reset()`. */
  function ResetForm(d: Detector, form: Option<FormId>, defaults: Entries): (r: Detector)
    requires Valid(d)
    ensures Valid(r)
    ensures form.None? ==> r == d
    ensures form.Some? ==> !r.unsaved && r.originals == d.originals[form.value := Snapshot(defaults)] &&
                           r.tracked == d.tracked && r.enabled == d.enabled
  {
    match form
    case None => d
    case Some(f) => Detector(false, d.tracked, d.originals[f := Snapshot(defaults)], d.enabled)
  }

  /** untrackForm: forget the form; the flag is cleared only when no tracked form is left. */
  function UntrackForm(d: Detector, form: Option<FormId>): (r: Detector)
    requires Valid(d)
    ensures Valid(r)
    ensures form.None? ==> r == d
    ensures form.Some? ==> r.tracked == d.tracked - {form.value} &&
                           r.originals == d.originals - {form.value} && r.enabled == d.enabled
    ensures form.Some? ==> (r.unsaved <==> d.unsaved && r.tracked != {})
  {
    match form
    case None => d
    case Some(f) =>
      var e := d.(tracked := d.tracked - {f}, originals := d.originals - {f});
      if e.tracked == {} then SetUnsaved(e, false) else e
  }

  /** setEnabled. */
  function SetEnabled(d: Detector, enabled: bool): (r: Detector)
    ensures r.enabled == enabled
    ensures r.unsaved == d.unsaved && r.tracked == d.tracked && r.originals == d.originals
  {
    d.(enabled := enabled)
  }

  /** confirmNavigation: the message shown (None: no prompt) and whether to leave;
      `answer` is the user's reply to `confirm`. */
  function ConfirmNavigation(d: Detector, message: Option<string>, answer: string -> bool): (r: (Option<string>, bool))
    ensures !d.unsaved ==> r == (None, true)
    ensures d.unsaved ==> r.0.Some? && r.1 == answer(r.0.value)
    ensures d.unsaved ==> r.0.value == (if message.Some? && message.value != "" then message.value else CustomMessage)
  {
    if !d.unsaved then (None, true)
    else
      var shown := if message.Some? && message.value != "" then message.value else CustomMessage;
      (Some(shown), answer(shown))
  }

  /** The beforeunload hook asks the browser to hold the page. */
  predicate BeforeUnloadBlocks(d: Detector)
  {
    d.unsaved && d.enabled
  }

  /** The protectNavigation click guard cancels the click. */
  function ClickBlocked(d: Detector, answer: string -> bool): (r: bool)
    ensures r <==> d.unsaved && d.enabled && !answer(CustomMessage)
  {
    d.unsaved && d.enabled && !ConfirmNavigation(d, None, answer).1
  }

  /** The flag follows the form checked last: a clean check after a dirty one clears it. */
  lemma LastCheckWins(d: Detector, a: FormId, ea: Entries, b: FormId, eb: Entries)
    requires Valid(d) && a in d.originals && b in d.originals
    ensures CheckForChanges(CheckForChanges(d, a, ea), b, eb).unsaved == Dirty(d.originals[b], eb)
  {
  }

  /** Two tracked forms, the first edited: checking the untouched second one afterwards
      clears the flag although the first form still has unsaved changes. */
  lemma DirtyFormMasked()
    ensures var d0 := TrackForm(TrackForm(Initial(), Some(1), [("plate", "")]), Some(2), [("note", "")]);
            var d1 := CheckForChanges(d0, 1, [("plate", "ABC")]);
            var d2 := CheckForChanges(d1, 2, [("note", "")]);
            d1.unsaved && !d2.unsaved && Dirty(d2.originals[1], [("plate", "ABC")])
  {
    var e1: Entries := [("plate", "")];
    var e2: Entries := [("note", "")];
    assert Lookup(Snapshot(e1), "plate") == Some("");
    assert Current([("plate", "ABC")], "plate") == "ABC";
    CleanAfterSnapshot(e2);
  }

  /** After markAsSaved of every form, a tracked form whose data did not change since
      reads clean, and nothing blocks leaving the page. */
  lemma SavedFormReadsClean(d: Detector, contents: FormId -> Entries, f: FormId)
    requires Valid(d) && f in d.tracked && UniqueNames(contents(f))
    ensures !BeforeUnloadBlocks(MarkAsSaved(d, AllForms, contents))
    ensures !CheckForChanges(MarkAsSaved(d, AllForms, contents), f, contents(f)).unsaved
  {
    CleanAfterSnapshot(contents(f));
  }
}
