/** The blocked-app record: its string encoding and the list helpers that keep
    the user's selection (AppInfo.kt). */
module AppInfos {
  import opened Wrappers
  import opened Strings

  /** One installed app as the selection sees it; data-class equality is structural. */
  datatype AppInfo = AppInfo(packageName: string, name: string, blocked: bool)

  /** Field separator of the record encoding. */
  const Separator: string := "<<>>"

  /** The secondary constructor: the name is the app's label, or "" when the
      package manager does not know the package. */
  function AppInfoFor(labels: map<string, string>, packageName: string, blocked: bool): AppInfo
  {
    AppInfo(packageName, if packageName in labels then labels[packageName] else "", blocked)
  }

  /** `serialize`: the three fields joined by the separator, the flag as "true"/"false". */
  function Serialize(a: AppInfo): string
  {
    a.packageName + Separator + a.name + Separator + BoolText(a.blocked)
  }

  /** `deserialize`: split at the separator and read parts 0, 1 and 2; None stands for
      the index-out-of-range failure when there are fewer than three parts. */
  function Deserialize(raw: string): Option<AppInfo>
  {
    var parts := Split(raw, Separator);
    if |parts| < 3 then None else Some(AppInfo(parts[0], parts[1], ToBoolean(parts[2])))
  }

  /** The fields of a record can be written without ambiguity. */
  predicate Encodable(a: AppInfo)
  {
    !ContainsText(a.packageName, Separator) && !ContainsText(a.name, Separator)
  }

  /** The encoding of a record is its fields joined by the separator. */
  lemma SerializeIsJoin(a: AppInfo)
    ensures Serialize(a) == Join([a.packageName, a.name, BoolText(a.blocked)], Separator)
  {
    var parts := [a.packageName, a.name, BoolText(a.blocked)];
    assert parts[1..][1..] == [BoolText(a.blocked)];
    assert Join(parts[1..], Separator) == a.name + Separator + BoolText(a.blocked);
  }

  /** Splitting an encoding gives back exactly the three fields. */
  lemma SerializeFields(a: AppInfo)
    requires Encodable(a)
    ensures Split(Serialize(a), Separator) == [a.packageName, a.name, BoolText(a.blocked)]
  {
    var parts := [a.packageName, a.name, BoolText(a.blocked)];
    SerializeIsJoin(a);
    AngleSeparatorEndsCleanly(a.packageName);
    AngleSeparatorEndsCleanly(a.name);
    WithoutFirstChar(BoolText(a.blocked), Separator);
    SplitOfJoin(parts, Separator);
  }

  /** Round trip: decoding an encoding gives the record back. */
  lemma DeserializeSerialize(a: AppInfo)
    requires Encodable(a)
    ensures Deserialize(Serialize(a)) == Some(a)
  {
    SerializeFields(a);
  }

  /** Parts after the third are ignored: any three separator-free parts followed by
      further data decode to the record of those three parts. */
  lemma DeserializeIgnoresExtraParts(p0: string, p1: string, p2: string, extra: string)
    requires !ContainsText(p0, Separator) && !ContainsText(p1, Separator) && !ContainsText(p2, Separator)
    ensures Deserialize(p0 + Separator + p1 + Separator + p2 + Separator + extra)
      == Some(AppInfo(p0, p1, ToBoolean(p2)))
  {
    AngleSeparatorEndsCleanly(p0);
    AngleSeparatorEndsCleanly(p1);
    AngleSeparatorEndsCleanly(p2);
    var tail := p2 + Separator + extra;
    var mid := p1 + Separator + tail;
    assert p0 + Separator + p1 + Separator + p2 + Separator + extra == p0 + Separator + mid;
    SplitCut(p0, Separator, mid);
    SplitCut(p1, Separator, tail);
    SplitCut(p2, Separator, extra);
  }

  /** A text of exactly three parts decodes to those parts, the third read by
      `toBoolean`, whatever text it holds. */
  lemma DeserializeThreeParts(p0: string, p1: string, p2: string)
    requires !ContainsText(p0, Separator) && !ContainsText(p1, Separator) && !ContainsText(p2, Separator)
    ensures Deserialize(p0 + Separator + p1 + Separator + p2) == Some(AppInfo(p0, p1, ToBoolean(p2)))
  {
    AngleSeparatorEndsCleanly(p0);
    AngleSeparatorEndsCleanly(p1);
    var mid := p1 + Separator + p2;
    assert p0 + Separator + p1 + Separator + p2 == p0 + Separator + mid;
    SplitCut(p0, Separator, mid);
    SplitCut(p1, Separator, p2);
    SplitOnePart(p2, Separator);
  }

  /** A text without the separator is one part, so decoding it fails. */
  lemma DeserializeWithoutSeparatorFails(raw: string)
    requires !ContainsText(raw, Separator)
    ensures Deserialize(raw) == None
  {
    SplitOfJoin([raw], Separator);
  }

  /** A text with a single separator is two parts, so decoding it fails. */
  lemma DeserializeOneSeparatorFails(first: string, second: string)
    requires !ContainsText(first, Separator) && !ContainsText(second, Separator)
    ensures Deserialize(first + Separator + second) == None
  {
    AngleSeparatorEndsCleanly(first);
    SplitCut(first, Separator, second);
    SplitOfJoin([second], Separator);
  }

  /** Index of the first record of `packageName`, or -1 (Kotlin's `indexOfFirst`). */
  function IndexOfFirst(s: seq<AppInfo>, packageName: string): (r: int)
    ensures -1 <= r < |s|
    ensures r >= 0 ==> s[r].packageName == packageName
    ensures forall j :: 0 <= j < |s| && (r < 0 || j < r) ==> s[j].packageName != packageName
  {
    if s == [] then -1
    else if s[0].packageName == packageName then 0
    else
      var r := IndexOfFirst(s[1..], packageName);
      if r < 0 then -1 else r + 1
  }

  /** `contains(packageName)`: `find` over the package names succeeds. */
  function Contains(s: seq<AppInfo>, packageName: string): (b: bool)
    ensures b <==> exists i :: 0 <= i < |s| && s[i].packageName == packageName
  {
    IndexOfFirst(s, packageName) >= 0
  }

  /** Position `j` holds the first record of `packageName`. */
  predicate IsFirstFor(s: seq<AppInfo>, j: int, packageName: string)
    requires 0 <= j < |s|
  {
    s[j].packageName == packageName && forall k :: 0 <= k < j ==> s[k].packageName != packageName
  }

  /** `updateBlocked(a)`: the first record of `a`'s package takes `a`'s flag. */
  function UpdatedBlocked(s: seq<AppInfo>, a: AppInfo): (r: seq<AppInfo>)
    ensures |r| == |s|
    ensures forall j :: 0 <= j < |s| ==>
      r[j] == if IsFirstFor(s, j, a.packageName) then s[j].(blocked := a.blocked) else s[j]
    ensures !Contains(s, a.packageName) ==> r == s
  {
    var i := IndexOfFirst(s, a.packageName);
    if i < 0 then s else s[i := s[i].(blocked := a.blocked)]
  }

  /** `removeIf { it.packageName == packageName }`: every record of that package
      is dropped, the others keep their order. */
  function RemovedAll(s: seq<AppInfo>, packageName: string): (r: seq<AppInfo>)
    ensures forall x :: multiset(r)[x] == if x.packageName == packageName then 0 else multiset(s)[x]
    ensures !Contains(r, packageName)
  {
    if s == [] then []
    else
      var last := s[|s| - 1];
      assert s == s[..|s| - 1] + [last];
      RemovedAll(s[..|s| - 1], packageName) + if last.packageName == packageName then [] else [last]
  }

  /** `removeIf` over one more record extends the kept records by that record unless it
      has the package. */
  lemma RemovedAllStep(s: seq<AppInfo>, i: int, packageName: string)
    requires 0 <= i < |s|
    ensures RemovedAll(s[..i + 1], packageName)
      == RemovedAll(s[..i], packageName) + if s[i].packageName == packageName then [] else [s[i]]
  {
    assert s[..i + 1][..i] == s[..i];
  }

  /** `removeIf` keeps the order of the records it keeps: removing from a concatenation
      concatenates what is kept of each part. */
  lemma {:induction false} RemovedAllConcat(s1: seq<AppInfo>, s2: seq<AppInfo>, packageName: string)
    ensures RemovedAll(s1 + s2, packageName) == RemovedAll(s1, packageName) + RemovedAll(s2, packageName)
    decreases |s2|
  {
    if s2 == [] {
      assert s1 + s2 == s1;
    } else {
      var init := s2[..|s2| - 1];
      var last := s2[|s2| - 1];
      var kept := if last.packageName == packageName then [] else [last];
      assert (s1 + s2)[..|s1 + s2| - 1] == s1 + init;
      assert (s1 + s2)[|s1 + s2| - 1] == last;
      RemovedAllLast(s1 + s2, packageName);
      RemovedAllConcat(s1, init, packageName);
      RemovedAllLast(s2, packageName);
      AppendAssociates(RemovedAll(s1, packageName), RemovedAll(init, packageName), kept);
    }
  }

  lemma AppendAssociates(a: seq<AppInfo>, b: seq<AppInfo>, c: seq<AppInfo>)
    ensures (a + b) + c == a + (b + c)
  {
  }

  /** `removeIf` on a non-empty list: what is kept of all but the last record, then the
      last record unless it has the package. */
  lemma RemovedAllLast(s: seq<AppInfo>, packageName: string)
    requires s != []
    ensures RemovedAll(s, packageName) == RemovedAll(s[..|s| - 1], packageName)
      + if s[|s| - 1].packageName == packageName then [] else [s[|s| - 1]]
  {
  }

  /** `addIfBlockedOrRemove(a)` as a value: a blocked record is appended; an unblocked
      one removes every record of its package from Android N on, and before N only
      the first one, where None stands for `removeAt(-1)` failing when there is none. */
  function AddedIfBlockedOrRemoved(s: seq<AppInfo>, a: AppInfo, atLeastNougat: bool): Option<seq<AppInfo>>
  {
    if a.blocked then Some(s + [a])
    else if atLeastNougat then Some(RemovedAll(s, a.packageName))
    else
      var i := IndexOfFirst(s, a.packageName);
      if i < 0 then None else Some(s[..i] + s[i + 1..])
  }

  /** No package has two records. */
  predicate DistinctPackages(s: seq<AppInfo>)
  {
    forall i, j :: 0 <= i < j < |s| ==> s[i].packageName != s[j].packageName
  }

  /** The packages a list holds records of. */
  function PackagesOf(s: seq<AppInfo>): set<string>
  {
    set x | x in s :: x.packageName
  }

  /** The pre-N path fails exactly when an unblocked record's package is not in the list. */
  lemma AddOrRemoveFails(s: seq<AppInfo>, a: AppInfo, atLeastNougat: bool)
    ensures AddedIfBlockedOrRemoved(s, a, atLeastNougat).None?
        <==> !a.blocked && !atLeastNougat && !Contains(s, a.packageName)
  {
  }

  lemma RemovedAllMembership(s: seq<AppInfo>, packageName: string, other: string)
    requires other != packageName
    ensures Contains(RemovedAll(s, packageName), other) == Contains(s, other)
  {
    var r := RemovedAll(s, packageName);
    if Contains(s, other) {
      var i :| 0 <= i < |s| && s[i].packageName == other;
      assert s[i] in multiset(s);
      assert s[i] in multiset(r);
    }
    if Contains(r, other) {
      var i :| 0 <= i < |r| && r[i].packageName == other;
      assert r[i] in multiset(r);
    }
  }

  lemma RemovedAtMembership(s: seq<AppInfo>, k: nat, other: string)
    requires k < |s|
    ensures var r := s[..k] + s[k + 1..];
      (other != s[k].packageName ==> Contains(r, other) == Contains(s, other))
      && (DistinctPackages(s) ==> !Contains(r, s[k].packageName))
  {
    var r := s[..k] + s[k + 1..];
    assert forall i :: 0 <= i < |r| ==> r[i] == if i < k then s[i] else s[i + 1];
    if other != s[k].packageName && Contains(s, other) {
      var i :| 0 <= i < |s| && s[i].packageName == other;
      assert r[if i < k then i else i - 1] == s[i];
    }
  }

  /** After a successful call, `a`'s package is in the list iff `a` is blocked (on the
      pre-N path only when the package had at most one record), and membership of
      every other package is unchanged. */
  lemma AddOrRemoveMembership(s: seq<AppInfo>, a: AppInfo, atLeastNougat: bool, other: string)
    requires AddedIfBlockedOrRemoved(s, a, atLeastNougat).Some?
    requires a.blocked || atLeastNougat || DistinctPackages(s)
    requires other != a.packageName
    ensures var r := AddedIfBlockedOrRemoved(s, a, atLeastNougat).value;
      Contains(r, a.packageName) == a.blocked && Contains(r, other) == Contains(s, other)
  {
    var r := AddedIfBlockedOrRemoved(s, a, atLeastNougat).value;
    if a.blocked {
      assert r[|s|] == a;
      if Contains(s, other) {
        var i :| 0 <= i < |s| && s[i].packageName == other;
        assert r[i] == s[i];
      }
    } else if atLeastNougat {
      RemovedAllMembership(s, a.packageName, other);
    } else {
      RemovedAtMembership(s, IndexOfFirst(s, a.packageName), other);
    }
  }

  /** A Kotlin `MutableList<AppInfo>` that the list helpers change in place. */
  class AppInfoList {
    var items: seq<AppInfo>

    constructor (items: seq<AppInfo>)
      ensures this.items == items
    {
      this.items := items;
    }

    /** `indexOfFirst { it.packageName == packageName }`, the scan behind `find` as well. */
    method IndexOfFirstMatch(packageName: string) returns (i: int)
      ensures i == IndexOfFirst(items, packageName)
    {
      i := 0;
      while i < |items| && items[i].packageName != packageName
        invariant 0 <= i <= |items|
        invariant forall k :: 0 <= k < i ==> items[k].packageName != packageName
      {
        i := i + 1;
      }
      if i == |items| {
        i := -1;
      }
    }

    /** `updateBlocked`: `find` the first record of the package and set its flag. */
    method UpdateBlocked(a: AppInfo)
      modifies this
      ensures items == UpdatedBlocked(old(items), a)
    {
      var i := IndexOfFirstMatch(a.packageName);
      if i >= 0 {
        items := items[i := items[i].(blocked := a.blocked)];
      }
    }

    /** `resetBlocked`: every record becomes unblocked; nothing else changes. */
    method ResetBlocked()
      modifies this
      ensures |items| == |old(items)|
      ensures forall i :: 0 <= i < |items| ==> items[i] == old(items)[i].(blocked := false)
    {
      var i := 0;
      while i < |items|
        invariant 0 <= i <= |items| == |old(items)|
        invariant forall k :: 0 <= k < i ==> items[k] == old(items)[k].(blocked := false)
        invariant forall k :: i <= k < |items| ==> items[k] == old(items)[k]
      {
        items := items[i := items[i].(blocked := false)];
        i := i + 1;
      }
    }

    /** `clear()`. */
    method Clear()
      modifies this
      ensures items == []
    {
      items := [];
    }

    /** `removeIf { it.packageName == packageName }`. */
    method RemoveIf(packageName: string)
      modifies this
      ensures items == RemovedAll(old(items), packageName)
    {
      var s := items;
      var kept := [];
      for i := 0 to |s|
        invariant kept == RemovedAll(s[..i], packageName)
      {
        RemovedAllStep(s, i, packageName);
        if s[i].packageName != packageName {
          kept := kept + [s[i]];
        }
      }
      assert s[..|s|] == s;
      items := kept;
    }

    /** `addIfBlockedOrRemove`; `ok` is false when `removeAt(-1)` throws, and then the list is unchanged. */
    method AddIfBlockedOrRemove(a: AppInfo, atLeastNougat: bool) returns (ok: bool)
      modifies this
      ensures ok == AddedIfBlockedOrRemoved(old(items), a, atLeastNougat).Some?
      ensures items == if ok then AddedIfBlockedOrRemoved(old(items), a, atLeastNougat).value else old(items)
    {
      ghost var before := items;
      if a.blocked {
        items := items + [a];
        ok := true;
        assert AddedIfBlockedOrRemoved(before, a, atLeastNougat) == Some(items);
      } else if atLeastNougat {
        RemoveIf(a.packageName);
        ok := true;
        assert AddedIfBlockedOrRemoved(before, a, atLeastNougat) == Some(items);
      } else {
        var i := IndexOfFirstMatch(a.packageName);
        ok := i >= 0;
        if ok {
          items := items[..i] + items[i + 1..];
          assert AddedIfBlockedOrRemoved(before, a, atLeastNougat) == Some(items);
        } else {
          assert AddedIfBlockedOrRemoved(before, a, atLeastNougat) == None;
        }
      }
    }
  }
}
