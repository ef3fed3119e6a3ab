/** The main screen's view model (MainActivityViewModel.kt): the persisted list of
    blocked apps and the displayed list of installed apps, kept in step. */
module Selection {
  import opened Strings
  import opened AppInfos

  /** Neighbours are in non-decreasing name order. */
  predicate SortedByName(s: seq<AppInfo>)
  {
    forall i :: 0 <= i < |s| - 1 ==> !Less(s[i + 1].name, s[i].name)
  }

  /** The records named `n`, in order. */
  function Named(s: seq<AppInfo>, n: string): seq<AppInfo>
  {
    if s == [] then [] else (if s[0].name == n then [s[0]] else []) + Named(s[1..], n)
  }

  /** Puts `x` before the first record whose name is not smaller than its own. */
  function InsertByName(x: AppInfo, s: seq<AppInfo>): (r: seq<AppInfo>)
    requires SortedByName(s)
    ensures SortedByName(r)
    ensures multiset(r) == multiset(s) + multiset{x}
    ensures r[0] == x || (s != [] && r[0] == s[0])
  {
    if s == [] || !Less(s[0].name, x.name) then
      SortedCons(x, s);
      [x] + s
    else
      var rest := InsertByName(x, s[1..]);
      LessAsymmetric(s[0].name, x.name);
      LessIrreflexive(x.name);
      SortedCons(s[0], s[1..]);
      assert s == [s[0]] + s[1..];
      SortedCons(s[0], rest);
      [s[0]] + rest
  }

  lemma NamedCons(h: AppInfo, t: seq<AppInfo>, n: string)
    ensures Named([h] + t, n) == (if h.name == n then [h] else []) + Named(t, n)
  {
    assert ([h] + t)[1..] == t;
  }

  /** The tail of a name-sorted list is name-sorted. */
  lemma SortedTail(s: seq<AppInfo>)
    requires SortedByName(s) && s != []
    ensures SortedByName(s[1..])
  {
    forall i | 0 <= i < |s| - 2 ensures !Less(s[1..][i + 1].name, s[1..][i].name) {
      assert s[1..][i + 1] == s[i + 2] && s[1..][i] == s[i + 1];
    }
  }

  /** A record in front of a sorted list keeps it sorted iff it is not after the head;
      and the tail of a sorted list is sorted. */
  lemma SortedCons(h: AppInfo, t: seq<AppInfo>)
    ensures SortedByName([h] + t) <==> SortedByName(t) && (t != [] ==> !Less(t[0].name, h.name))
  {
    var s := [h] + t;
    assert forall i :: 1 <= i < |s| ==> s[i] == t[i - 1];
    if SortedByName(t) && (t != [] ==> !Less(t[0].name, h.name)) {
      forall i | 0 <= i < |s| - 1 ensures !Less(s[i + 1].name, s[i].name) {
        if i > 0 {
          assert s[i + 1] == t[i] && s[i] == t[i - 1];
        }
      }
    }
    if SortedByName(s) {
      if t != [] {
        assert s[1] == t[0] && s[0] == h;
      }
      forall i | 0 <= i < |t| - 1 ensures !Less(t[i + 1].name, t[i].name) {
        assert t[i + 1] == s[i + 2] && t[i] == s[i + 1];
      }
    }
  }

  /** Kotlin's `sortedBy { it.name }`, a stable sort (insertion sort here). */
  function SortByName(s: seq<AppInfo>): (r: seq<AppInfo>)
    ensures SortedByName(r)
    ensures multiset(r) == multiset(s)
  {
    if s == [] then []
    else
      assert s == [s[0]] + s[1..];
      InsertByName(s[0], SortByName(s[1..]))
  }

  /** Inserting `x` puts it in front of the records with its name and moves no other
      record past one of the same name. */
  lemma {:induction false} InsertByNameStable(x: AppInfo, s: seq<AppInfo>, n: string)
    requires SortedByName(s)
    ensures Named(InsertByName(x, s), n) == if x.name == n then [x] + Named(s, n) else Named(s, n)
  {
    if s == [] || !Less(s[0].name, x.name) {
      assert InsertByName(x, s) == [x] + s;
      NamedCons(x, s, n);
    } else {
      SortedTail(s);
      var rest := InsertByName(x, s[1..]);
      assert InsertByName(x, s) == [s[0]] + rest;
      InsertByNameStable(x, s[1..], n);
      LessIrreflexive(x.name);
      assert s == [s[0]] + s[1..];
      NamedCons(s[0], s[1..], n);
      NamedCons(s[0], rest, n);
      if x.name == n {
        assert s[0].name != n;
      }
    }
  }

  /** `sortedBy` is stable: the records of each name keep their relative order. */
  lemma {:induction false} SortByNameStable(s: seq<AppInfo>, n: string)
    ensures Named(SortByName(s), n) == Named(s, n)
  {
    if s != [] {
      SortByNameStable(s[1..], n);
      InsertByNameStable(s[0], SortByName(s[1..]), n);
      NamedCons(s[0], s[1..], n);
      assert s == [s[0]] + s[1..];
    }
  }

  /** A record as `init` builds it for a package: labelled, blocked iff the stored list has it. */
  predicate BuiltFrom(x: AppInfo, stored: seq<AppInfo>, labels: map<string, string>)
  {
    x == AppInfoFor(labels, x.packageName, Contains(stored, x.packageName))
  }

  /** The `filter` and `map` steps of `init`: one record per installed package except this
      app's own, each built from the stored blocked list and the labels. */
  function Listed(installed: seq<string>, ownPackage: string, stored: seq<AppInfo>,
                  labels: map<string, string>): (r: seq<AppInfo>)
    ensures forall x :: x in r ==> BuiltFrom(x, stored, labels)
    ensures PackagesOf(r) == set p | p in installed && p != ownPackage
  {
    if installed == [] then []
    else
      var p := installed[0];
      var rest := Listed(installed[1..], ownPackage, stored, labels);
      var head := if p == ownPackage then [] else [AppInfoFor(labels, p, Contains(stored, p))];
      assert installed == [p] + installed[1..];
      assert PackagesOf(head + rest) == PackagesOf(head) + PackagesOf(rest);
      head + rest
  }

  /** Sorting keeps exactly the records it was given. */
  lemma SortByNameMembers(s: seq<AppInfo>)
    ensures forall x :: x in SortByName(s) <==> x in s
  {
    var r := SortByName(s);
    forall x ensures x in r <==> x in s {
      assert x in r <==> x in multiset(r);
      assert x in s <==> x in multiset(s);
    }
  }

  /** The list `init` posts: one record per installed package except this app's own, each
      blocked iff the stored blocked list has its package, sorted by name. */
  function InitialList(installed: seq<string>, ownPackage: string, stored: seq<AppInfo>,
                       labels: map<string, string>): (r: seq<AppInfo>)
    ensures forall i :: 0 <= i < |r| ==> BuiltFrom(r[i], stored, labels)
    ensures PackagesOf(r) == set p | p in installed && p != ownPackage
    ensures SortedByName(r)
    ensures InStep(stored, r)
  {
    var listed := Listed(installed, ownPackage, stored, labels);
    SortByNameMembers(listed);
    var r := SortByName(listed);
    assert PackagesOf(r) == PackagesOf(listed);
    r
  }

  /** Every displayed flag agrees with membership in the blocked list. */
  predicate InStep(blocked: seq<AppInfo>, displayed: seq<AppInfo>)
  {
    forall i :: 0 <= i < |displayed| ==> displayed[i].blocked == Contains(blocked, displayed[i].packageName)
  }

  predicate DistinctStrings(s: seq<string>)
  {
    forall i, j :: 0 <= i < j < |s| ==> s[i] != s[j]
  }

  lemma {:induction false} ListedDistinct(installed: seq<string>, ownPackage: string, stored: seq<AppInfo>,
                                          labels: map<string, string>)
    requires DistinctStrings(installed)
    ensures DistinctPackages(Listed(installed, ownPackage, stored, labels))
  {
    if installed != [] {
      var rest := installed[1..];
      ListedDistinct(rest, ownPackage, stored, labels);
      var tail := Listed(rest, ownPackage, stored, labels);
      forall x | x in tail ensures x.packageName != installed[0] {
        assert x.packageName in PackagesOf(tail);
        var i :| 0 <= i < |rest| && rest[i] == x.packageName;
        assert rest[i] == installed[i + 1];
      }
    }
  }

  lemma {:induction false} InsertByNameDistinct(x: AppInfo, s: seq<AppInfo>)
    requires SortedByName(s) && DistinctPackages(s)
    requires forall y :: y in s ==> y.packageName != x.packageName
    ensures DistinctPackages(InsertByName(x, s))
  {
    if s == [] || !Less(s[0].name, x.name) {
      assert InsertByName(x, s) == [x] + s;
      ConsDistinct(x, s);
    } else {
      assert s == [s[0]] + s[1..];
      ConsDistinct(s[0], s[1..]);
      SortedTail(s);
      var rest := InsertByName(x, s[1..]);
      InsertByNameDistinct(x, s[1..]);
      forall y | y in rest ensures y.packageName != s[0].packageName {
        assert y in multiset(rest);
        if y != x {
          assert y in multiset(s[1..]);
        }
      }
      ConsDistinct(s[0], rest);
      assert InsertByName(x, s) == [s[0]] + rest;
    }
  }

  /** A record in front of a list keeps one record per package iff the list does and
      has no record of its package. */
  lemma ConsDistinct(h: AppInfo, t: seq<AppInfo>)
    ensures DistinctPackages([h] + t) <==>
      DistinctPackages(t) && forall y :: y in t ==> y.packageName != h.packageName
  {
    var s := [h] + t;
    assert forall i :: 1 <= i < |s| ==> s[i] == t[i - 1];
    if DistinctPackages(s) {
      forall i, j | 0 <= i < j < |t| ensures t[i].packageName != t[j].packageName {
        assert t[i] == s[i + 1] && t[j] == s[j + 1];
      }
      forall y | y in t ensures y.packageName != h.packageName {
        var k :| 0 <= k < |t| && t[k] == y;
        assert s[k + 1] == y && s[0] == h;
      }
    }
  }

  lemma {:induction false} SortByNameDistinct(s: seq<AppInfo>)
    requires DistinctPackages(s)
    ensures DistinctPackages(SortByName(s))
  {
    if s != [] {
      SortByNameDistinct(s[1..]);
      var sorted := SortByName(s[1..]);
      forall y | y in sorted ensures y.packageName != s[0].packageName {
        assert y in multiset(sorted);
        assert y in s[1..];
      }
      InsertByNameDistinct(s[0], sorted);
    }
  }

  /** Installed packages are distinct, so the displayed list names each package once. */
  lemma InitialListDistinct(installed: seq<string>, ownPackage: string, stored: seq<AppInfo>,
                            labels: map<string, string>)
    requires DistinctStrings(installed)
    ensures DistinctPackages(InitialList(installed, ownPackage, stored, labels))
  {
    ListedDistinct(installed, ownPackage, stored, labels);
    SortByNameDistinct(Listed(installed, ownPackage, stored, labels));
  }

  /** After a toggle the blocked list holds the package iff the new flag is set, and
      every other package as before. */
  lemma ToggleMembership(blocked: seq<AppInfo>, a: AppInfo, atLeastNougat: bool)
    requires DistinctPackages(blocked)
    requires a.blocked != Contains(blocked, a.packageName)
    ensures AddedIfBlockedOrRemoved(blocked, a, atLeastNougat).Some?
    ensures forall p :: Contains(AddedIfBlockedOrRemoved(blocked, a, atLeastNougat).value, p) ==
                        if p == a.packageName then a.blocked else Contains(blocked, p)
  {
    forall p | p != a.packageName
      ensures Contains(AddedIfBlockedOrRemoved(blocked, a, atLeastNougat).value, p) == Contains(blocked, p)
    {
      AddOrRemoveMembership(blocked, a, atLeastNougat, p);
    }
    AddOrRemoveMembership(blocked, a, atLeastNougat, a.packageName + ['.']);
  }

  /** After a toggle the blocked list still has one record per package. */
  lemma ToggleKeepsDistinct(blocked: seq<AppInfo>, a: AppInfo, atLeastNougat: bool)
    requires DistinctPackages(blocked)
    requires a.blocked != Contains(blocked, a.packageName)
    requires AddedIfBlockedOrRemoved(blocked, a, atLeastNougat).Some?
    ensures DistinctPackages(AddedIfBlockedOrRemoved(blocked, a, atLeastNougat).value)
  {
    if a.blocked {
      AppendedDistinct(blocked, a);
    } else if atLeastNougat {
      RemovedAllDistinct(blocked, a.packageName);
    } else {
      RemovedAtDistinct(blocked, IndexOfFirst(blocked, a.packageName));
    }
  }

  lemma AppendedDistinct(s: seq<AppInfo>, a: AppInfo)
    requires DistinctPackages(s) && !Contains(s, a.packageName)
    ensures DistinctPackages(s + [a])
  {
    assert forall i :: 0 <= i < |s| ==> (s + [a])[i] == s[i];
  }

  lemma RemovedAtDistinct(s: seq<AppInfo>, k: int)
    requires DistinctPackages(s) && 0 <= k < |s|
    ensures DistinctPackages(s[..k] + s[k + 1..])
  {
    var r := s[..k] + s[k + 1..];
    assert forall i :: 0 <= i < |r| ==> r[i] == if i < k then s[i] else s[i + 1];
  }

  /** Setting the flag of a package's displayed entry to its new membership keeps the
      displayed list in step. */
  lemma UpdatedBlockedInStep(b: seq<AppInfo>, displayed: seq<AppInfo>, a: AppInfo)
    requires DistinctPackages(displayed)
    requires forall i :: 0 <= i < |displayed| && displayed[i].packageName != a.packageName ==>
      displayed[i].blocked == Contains(b, displayed[i].packageName)
    requires Contains(b, a.packageName) == a.blocked
    ensures InStep(b, UpdatedBlocked(displayed, a))
    ensures DistinctPackages(UpdatedBlocked(displayed, a))
  {
    var d := UpdatedBlocked(displayed, a);
    forall i | 0 <= i < |d| ensures d[i].blocked == Contains(b, d[i].packageName) {
      if displayed[i].packageName == a.packageName {
        assert IsFirstFor(displayed, i, a.packageName);
      }
    }
  }

  /** A toggle (the new flag is the opposite of the package's current membership) keeps
      the two lists in step: `update` succeeds on both Android paths, the package's
      membership becomes the new flag, and both lists keep one record per package. */
  lemma UpdateKeepsInStep(blocked: seq<AppInfo>, displayed: seq<AppInfo>, a: AppInfo, atLeastNougat: bool)
    requires InStep(blocked, displayed) && DistinctPackages(blocked) && DistinctPackages(displayed)
    requires a.blocked != Contains(blocked, a.packageName)
    ensures AddedIfBlockedOrRemoved(blocked, a, atLeastNougat).Some?
    ensures var b := AddedIfBlockedOrRemoved(blocked, a, atLeastNougat).value;
      && Contains(b, a.packageName) == a.blocked
      && InStep(b, UpdatedBlocked(displayed, a))
      && DistinctPackages(b)
      && DistinctPackages(UpdatedBlocked(displayed, a))
  {
    ToggleMembership(blocked, a, atLeastNougat);
    ToggleKeepsDistinct(blocked, a, atLeastNougat);
    var b := AddedIfBlockedOrRemoved(blocked, a, atLeastNougat).value;
    UpdatedBlockedInStep(b, displayed, a);
  }

  /** Removing every record of one package keeps one record per package. */
  lemma {:induction false} RemovedAllDistinct(s: seq<AppInfo>, packageName: string)
    requires DistinctPackages(s)
    ensures DistinctPackages(RemovedAll(s, packageName))
  {
    if s != [] {
      var init := s[..|s| - 1];
      var last := s[|s| - 1];
      assert forall i :: 0 <= i < |init| ==> init[i] == s[i];
      RemovedAllDistinct(init, packageName);
      var r := RemovedAll(init, packageName);
      if last.packageName != packageName {
        forall k | 0 <= k < |r| ensures r[k].packageName != last.packageName {
          assert r[k] in multiset(r);
          var j :| 0 <= j < |init| && init[j] == r[k];
        }
        AppendedDistinct(r, last);
      }
    }
  }

  /** The view model: `blockedApps` (persisted through the preference converter) and the
      value of the `appList` LiveData, null until the loading coroutine posts it. */
  class MainActivityViewModel {
    const ownPackage: string
    const blockedApps: AppInfoList
    var appList: AppInfoList?

    ghost predicate Valid()
      reads this
    {
      appList != blockedApps
    }

    /** Everything the screen shows agrees with the blocked list, one record per package. */
    ghost predicate Consistent()
      reads this, blockedApps, appList
    {
      && DistinctPackages(blockedApps.items)
      && (appList != null ==> DistinctPackages(appList.items) && InStep(blockedApps.items, appList.items))
    }

    constructor (ownPackage: string, stored: seq<AppInfo>)
      ensures Valid() && fresh(blockedApps)
      ensures this.ownPackage == ownPackage && blockedApps.items == stored && appList == null
    {
      this.ownPackage := ownPackage;
      blockedApps := new AppInfoList(stored);
      appList := null;
    }

    /** The `init` coroutine: build the list from the installed packages and post it. */
    method PostInitialList(installed: seq<string>, labels: map<string, string>)
      requires Valid()
      modifies this
      ensures Valid() && appList != null && fresh(appList)
      ensures appList.items == InitialList(installed, ownPackage, blockedApps.items, labels)
      ensures DistinctStrings(installed) && DistinctPackages(blockedApps.items) ==> Consistent()
    {
      var l := new AppInfoList(InitialList(installed, ownPackage, blockedApps.items, labels));
      appList := l;
      if DistinctStrings(installed) {
        InitialListDistinct(installed, ownPackage, blockedApps.items, labels);
      }
    }

    /** `update(appInfo)`: add or remove the record in the blocked list, then set the flag
        of its displayed entry. `ok` is false when the pre-N removal throws; then nothing changes. */
    method Update(a: AppInfo, atLeastNougat: bool) returns (ok: bool)
      requires Valid()
      modifies blockedApps, appList
      ensures Valid() && appList == old(appList)
      ensures ok == AddedIfBlockedOrRemoved(old(blockedApps.items), a, atLeastNougat).Some?
      ensures blockedApps.items ==
        if ok then AddedIfBlockedOrRemoved(old(blockedApps.items), a, atLeastNougat).value else old(blockedApps.items)
      ensures appList != null ==> appList.items == if ok then UpdatedBlocked(old(appList.items), a) else old(appList.items)
      ensures old(Consistent()) && a.blocked != Contains(old(blockedApps.items), a.packageName) ==> ok && Consistent()
    {
      ghost var blocked := blockedApps.items;
      ghost var displayed := if appList != null then appList.items else [];
      ok := blockedApps.AddIfBlockedOrRemove(a, atLeastNougat);
      if ok && appList != null {
        appList.UpdateBlocked(a);
      }
      if old(Consistent()) && a.blocked != Contains(blocked, a.packageName) {
        UpdateKeepsInStep(blocked, displayed, a, atLeastNougat);
      }
    }

    /** `clearSelection`: empty the blocked list and unblock every displayed entry. */
    method ClearSelection()
      requires Valid()
      modifies blockedApps, appList
      ensures Valid() && appList == old(appList)
      ensures blockedApps.items == []
      ensures appList != null ==> (|appList.items| == |old(appList.items)| &&
        forall i :: 0 <= i < |appList.items| ==> appList.items[i] == old(appList.items[i]).(blocked := false))
      ensures old(Consistent()) ==> Consistent()
    {
      blockedApps.Clear();
      if appList != null {
        appList.ResetBlocked();
      }
    }
  }
}
