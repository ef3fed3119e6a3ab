/** The main screen (MainActivity.kt): the older `saveAppList`/`loadAppList` codec, which
    stores each blocked app as a "packageName::name" entry of a string set, the lock
    action, and how a click on a row reaches the view model. */
module Lock {
  import opened Wrappers
  import opened Strings
  import opened AppInfos
  import opened Selection
  import opened ListAdapter
  import opened Blocker
  import opened Platform

  /** `DELIMITER`. */
  const Delimiter: string := "::"

  /** The entry saved for one record; its flag is not stored. */
  function EntryOf(a: AppInfo): string
  {
    a.packageName + Delimiter + a.name
  }

  /** `saveAppList`: the set of entries, one per distinct package and name. */
  function SaveAppList(l: seq<AppInfo>): (r: set<string>)
    ensures forall a :: a in l ==> EntryOf(a) in r
    ensures forall e :: e in r ==> exists i :: 0 <= i < |l| && EntryOf(l[i]) == e
  {
    set a | a in l :: EntryOf(a)
  }

  /** One entry of `loadAppList`: split parts 0 and 1, blocked; None where part 1 does
      not exist (an entry without the delimiter). */
  function LoadEntry(e: string): (r: Option<AppInfo>)
    ensures r.None? <==> !ContainsText(e, Delimiter)
    ensures r.Some? ==> r.value.blocked
  {
    SplitOnePart(e, Delimiter);
    var parts := Split(e, Delimiter);
    if |parts| < 2 then None else Some(AppInfo(parts[0], parts[1], true))
  }

  /** An entry holds no delimiter. */
  predicate SomeEntryFails(entries: seq<string>)
  {
    exists i :: 0 <= i < |entries| && !ContainsText(entries[i], Delimiter)
  }

  lemma SomeEntryFailsCons(entries: seq<string>)
    requires entries != []
    ensures SomeEntryFails(entries) <==> !ContainsText(entries[0], Delimiter) || SomeEntryFails(entries[1..])
  {
    assert forall i :: 1 <= i < |entries| ==> entries[1..][i - 1] == entries[i];
    if SomeEntryFails(entries[1..]) {
      var i :| 0 <= i < |entries[1..]| && !ContainsText(entries[1..][i], Delimiter);
      assert entries[i + 1] == entries[1..][i];
    }
  }

  /** The `map` over the stored entries, in the order the set yields them. */
  function LoadAll(entries: seq<string>): (r: Option<seq<AppInfo>>)
    ensures r.None? <==> SomeEntryFails(entries)
    ensures r.Some? ==> |r.value| == |entries|
    ensures r.Some? ==> forall i :: 0 <= i < |entries| ==> LoadEntry(entries[i]) == Some(r.value[i])
  {
    if entries == [] then Some([])
    else
      var head := LoadEntry(entries[0]);
      var tail := LoadAll(entries[1..]);
      SomeEntryFailsCons(entries);
      if head.None? || tail.None? then None
      else
        MappedCons(LoadEntry, entries, head.value, tail.value);
        Some([head.value] + tail.value)
  }

  /** Mapping `f` over the head and over the tail maps it over the whole sequence. */
  lemma MappedCons<A, B>(f: A -> Option<B>, xs: seq<A>, y: B, ys: seq<B>)
    requires xs != [] && f(xs[0]) == Some(y) && |ys| == |xs| - 1
    requires forall i :: 0 <= i < |ys| ==> f(xs[1..][i]) == Some(ys[i])
    ensures forall i :: 0 <= i < |xs| ==> f(xs[i]) == Some(([y] + ys)[i])
  {
    forall i | 1 <= i < |xs|
      ensures f(xs[i]) == Some(([y] + ys)[i])
    {
      assert xs[i] == xs[1..][i - 1];
    }
  }

  /** `loadAppList`: a missing key loads as the empty list; otherwise one blocked record
      per entry, or None (the exception) when an entry holds no delimiter. */
  function LoadAppList(stored: Option<seq<string>>): (r: Option<seq<AppInfo>>)
    ensures stored.None? ==> r == Some([])
    ensures stored.Some? ==> (r.None? <==> SomeEntryFails(stored.value))
    ensures r.Some? ==> forall i :: 0 <= i < |r.value| ==> r.value[i].blocked
    ensures stored.Some? && r.Some? ==>
      |r.value| == |stored.value| && forall i :: 0 <= i < |r.value| ==> LoadEntry(stored.value[i]) == Some(r.value[i])
  {
    match stored
    case None => Some([])
    case Some(entries) => LoadAll(entries)
  }

  /** A record whose entry reads back: neither field holds "::" and, since "::" overlaps
      itself, the package name does not end with ':'. */
  predicate Saveable(a: AppInfo)
  {
    && !ContainsText(a.packageName, Delimiter) && !ContainsText(a.name, Delimiter)
    && (a.packageName == [] || a.packageName[|a.packageName| - 1] != ':')
  }

  /** A saveable record's entry splits into exactly its package and name. */
  lemma EntrySplits(a: AppInfo)
    requires Saveable(a)
    ensures Split(EntryOf(a), Delimiter) == [a.packageName, a.name]
  {
    DoubleColonEndsCleanly(a.packageName);
    assert Join([a.packageName, a.name], Delimiter) == EntryOf(a) by {
      assert [a.packageName, a.name][1..] == [a.name];
    }
    SplitOfJoin([a.packageName, a.name], Delimiter);
  }

  lemma LoadEntryOfSaved(a: AppInfo)
    requires Saveable(a)
    ensures LoadEntry(EntryOf(a)) == Some(a.(blocked := true))
  {
    EntrySplits(a);
  }

  /** The saved records as they load: every flag set. */
  function AllBlocked(l: seq<AppInfo>): set<AppInfo>
  {
    set a | a in l :: a.(blocked := true)
  }

  /** Every saved entry loads as one of the saved records, blocked. */
  lemma SavedEntryLoads(l: seq<AppInfo>, e: string)
    requires forall i :: 0 <= i < |l| ==> Saveable(l[i])
    requires e in SaveAppList(l)
    ensures LoadEntry(e).Some? && LoadEntry(e).value in AllBlocked(l)
  {
    var j :| 0 <= j < |l| && EntryOf(l[j]) == e;
    LoadEntryOfSaved(l[j]);
    assert l[j] in l;
  }

  /** Every entry of an enumeration of the saved set loads. */
  lemma EnumeratedEntriesLoad(l: seq<AppInfo>, entries: seq<string>)
    requires forall i :: 0 <= i < |l| ==> Saveable(l[i])
    requires (set e | e in entries) == SaveAppList(l)
    ensures LoadAll(entries).Some?
    ensures forall x :: x in LoadAll(entries).value ==> x in AllBlocked(l)
  {
    forall i | 0 <= i < |entries| ensures LoadEntry(entries[i]).Some? && LoadEntry(entries[i]).value in AllBlocked(l) {
      assert entries[i] in (set e | e in entries);
      SavedEntryLoads(l, entries[i]);
    }
  }

  /** Every saved record is among the loaded ones. */
  lemma SavedRecordLoaded(l: seq<AppInfo>, entries: seq<string>, j: int)
    requires forall i :: 0 <= i < |l| ==> Saveable(l[i])
    requires (set e | e in entries) == SaveAppList(l)
    requires LoadAll(entries).Some? && 0 <= j < |l|
    ensures l[j].(blocked := true) in LoadAll(entries).value
  {
    assert EntryOf(l[j]) in (set e | e in entries);
    var i :| 0 <= i < |entries| && entries[i] == EntryOf(l[j]);
    LoadEntryOfSaved(l[j]);
    assert LoadAll(entries).value[i] == l[j].(blocked := true);
  }

  /** Round trip: however the stored set is enumerated, loading what was saved gives
      back the saved records, each marked blocked. */
  lemma SaveLoadRoundTrip(l: seq<AppInfo>, entries: seq<string>)
    requires forall i :: 0 <= i < |l| ==> Saveable(l[i])
    requires (set e | e in entries) == SaveAppList(l)
    ensures LoadAppList(Some(entries)).Some?
    ensures (set x | x in LoadAppList(Some(entries)).value) == AllBlocked(l)
  {
    EnumeratedEntriesLoad(l, entries);
    var loaded := LoadAll(entries).value;
    forall x | x in AllBlocked(l) ensures x in loaded {
      var a :| a in l && x == a.(blocked := true);
      var j :| 0 <= j < |l| && l[j] == a;
      SavedRecordLoaded(l, entries, j);
    }
  }

  /** A name holding "::" comes back cut at its first "::". */
  lemma LoadTruncatesName(a: AppInfo)
    requires !ContainsText(a.packageName, Delimiter)
    requires a.packageName == [] || a.packageName[|a.packageName| - 1] != ':'
    requires ContainsText(a.name, Delimiter)
    ensures LoadEntry(EntryOf(a)).Some?
    ensures var b := LoadEntry(EntryOf(a)).value;
      b.packageName == a.packageName && b.name == Split(a.name, Delimiter)[0] && b.name != a.name
  {
    DoubleColonEndsCleanly(a.packageName);
    SplitCut(a.packageName, Delimiter, a.name);
    SplitOnePart(a.name, Delimiter);
  }

  /** The package-name condition is needed: "a:" with name "b" is saved as "a:::b", which
      splits at its first "::" into "a" and ":b". */
  lemma ColonEndingPackageMisread()
    ensures var a := AppInfo("a:", "b", true);
      LoadEntry(EntryOf(a)) == Some(AppInfo("a", ":b", true))
  {
    assert EntryOf(AppInfo("a:", "b", true)) == "a" + Delimiter + ":b";
    assert !ContainsText("a", Delimiter);
    DoubleColonEndsCleanly("a");
    SplitCut("a", Delimiter, ":b");
    assert !ContainsText(":b", Delimiter) by {
      assert !OccursAt(":b", Delimiter, 0) by {
        assert ":b"[0..2] == ":b";
      }
    }
    SplitOnePart(":b", Delimiter);
  }

  /** The package and name pairs of a list. */
  function Pairs(l: seq<AppInfo>): set<(string, string)>
  {
    set a | a in l :: (a.packageName, a.name)
  }

  lemma SavedFromPairs(l1: seq<AppInfo>, l2: seq<AppInfo>, e: string)
    requires Pairs(l1) == Pairs(l2) && e in SaveAppList(l1)
    ensures e in SaveAppList(l2)
  {
    var i :| 0 <= i < |l1| && EntryOf(l1[i]) == e;
    assert l1[i] in l1;
    assert (l1[i].packageName, l1[i].name) in Pairs(l2);
    var b :| b in l2 && (b.packageName, b.name) == (l1[i].packageName, l1[i].name);
    assert EntryOf(b) == e;
  }

  /** What is saved depends only on the package and name pairs the list holds: not on
      order, repeats or flags. */
  lemma SaveDependsOnPairs(l1: seq<AppInfo>, l2: seq<AppInfo>)
    requires Pairs(l1) == Pairs(l2)
    ensures SaveAppList(l1) == SaveAppList(l2)
  {
    forall e | e in SaveAppList(l1) ensures e in SaveAppList(l2) {
      SavedFromPairs(l1, l2, e);
    }
    forall e | e in SaveAppList(l2) ensures e in SaveAppList(l1) {
      SavedFromPairs(l2, l1, e);
    }
  }

  /** What the lock action does besides returning. */
  datatype LockEffect =
    | Nothing
    | ShowPermissionDialog
    | LockAndFinish(saved: set<string>, intent: Option<ServiceIntent>)

  datatype LockOutcome = LockOutcome(handled: bool, effect: LockEffect)

  /** The lock branch of `onOptionsItemSelected`: unhandled for an empty selection; the
      permission dialog without usage permission; otherwise save the selection, start
      the service with it and finish. */
  function OnLockSelected(blocked: seq<AppInfo>, mode: int, permissionGranted: bool): (r: LockOutcome)
    ensures !r.handled <==> blocked == []
    ensures blocked == [] ==> r.effect == Nothing
    ensures r.effect.ShowPermissionDialog? <==> blocked != [] && !HasAppUsagePermission(mode, permissionGranted)
    ensures r.effect.LockAndFinish? <==> blocked != [] && HasAppUsagePermission(mode, permissionGranted)
    ensures r.effect.LockAndFinish? ==>
      r.effect.saved == SaveAppList(blocked) && r.effect.intent.Some?
      && r.effect.intent.value.appList == Some(AppMapOf(blocked))
      && r.effect.intent.value.scanInterval == Some(DefaultScanInterval)
  {
    if blocked == [] then LockOutcome(false, Nothing)
    else if !HasAppUsagePermission(mode, permissionGranted) then LockOutcome(true, ShowPermissionDialog)
    else LockOutcome(true, LockAndFinish(SaveAppList(blocked), StartIntent(blocked, DefaultScanInterval)))
  }

  /** A click on a displayed row sends its toggled record to `update`, which succeeds on
      both Android paths, gives the clicked row the new flag, and keeps the screen in
      step with the blocked list. */
  lemma ClickKeepsSelectionInStep(blocked: seq<AppInfo>, displayed: seq<AppInfo>, i: int, atLeastNougat: bool)
    requires InStep(blocked, displayed) && DistinctPackages(blocked) && DistinctPackages(displayed)
    requires 0 <= i < |displayed|
    ensures var a := Toggled(displayed[i]);
      && AddedIfBlockedOrRemoved(blocked, a, atLeastNougat).Some?
      && UpdatedBlocked(displayed, a)[i] == a
      && InStep(AddedIfBlockedOrRemoved(blocked, a, atLeastNougat).value, UpdatedBlocked(displayed, a))
      && DistinctPackages(AddedIfBlockedOrRemoved(blocked, a, atLeastNougat).value)
      && DistinctPackages(UpdatedBlocked(displayed, a))
  {
    var a := Toggled(displayed[i]);
    UpdateKeepsInStep(blocked, displayed, a, atLeastNougat);
    assert IsFirstFor(displayed, i, a.packageName);
  }
}
