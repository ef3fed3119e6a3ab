/** The blocking service (BlockerService.kt): how the main screen packs its parameters,
    how the service reads them back, the notification it shows and the rule it applies
    on every scan tick. */
module Blocker {
  import opened Wrappers
  import opened Strings
  import opened AppInfos

  /** `Service.START_STICKY` and `Service.START_NOT_STICKY`. */
  const StartSticky: int := 1
  const StartNotSticky: int := 2

  /** `DEFAULT_SCAN_INTERVAL`, in milliseconds. */
  const DefaultScanInterval: int := 3000

  /** The extras of the Intent that starts the service: the app map (None when it is
      absent or not a string map) and the scan interval (None when absent). */
  datatype ServiceIntent = ServiceIntent(appList: Option<map<string, string>>, scanInterval: Option<int>)

  /** No later record of `l` has the package of record `i`. */
  predicate LastOfPackage(l: seq<AppInfo>, i: int)
    requires 0 <= i < |l|
  {
    forall j :: i < j < |l| ==> l[j].packageName != l[i].packageName
  }

  /** The map `startBlockerService` fills: package name to app name, a later record
      overwriting an earlier one of the same package. */
  function AppMapOf(l: seq<AppInfo>): (m: map<string, string>)
    ensures m.Keys == PackagesOf(l)
    ensures forall i :: 0 <= i < |l| && LastOfPackage(l, i) ==> m[l[i].packageName] == l[i].name
  {
    if l == [] then map[]
    else
      var init := l[..|l| - 1];
      var last := l[|l| - 1];
      PackagesOfSnoc(l);
      LastOfPackageSnoc(l);
      AppMapOf(init)[last.packageName := last.name]
  }

  lemma PackagesOfSnoc(l: seq<AppInfo>)
    requires l != []
    ensures PackagesOf(l) == PackagesOf(l[..|l| - 1]) + {l[|l| - 1].packageName}
  {
    assert l == l[..|l| - 1] + [l[|l| - 1]];
  }

  /** A record before the last that is the last of its package in `l` is so in the
      prefix too, and its package is not the last record's. */
  lemma LastOfPackageSnoc(l: seq<AppInfo>)
    requires l != []
    ensures forall i :: 0 <= i < |l| - 1 && LastOfPackage(l, i) ==>
      LastOfPackage(l[..|l| - 1], i) && l[i] == l[..|l| - 1][i] && l[i].packageName != l[|l| - 1].packageName
  {
  }

  /** The `forEach` loop that fills the map. */
  method PackAppMap(l: seq<AppInfo>) returns (m: map<string, string>)
    ensures m == AppMapOf(l)
  {
    m := map[];
    var i := 0;
    while i < |l|
      invariant 0 <= i <= |l|
      invariant m == AppMapOf(l[..i])
    {
      assert l[..i + 1][..i] == l[..i];
      m := m[l[i].packageName := l[i].name];
      i := i + 1;
    }
    assert l[..|l|] == l;
  }

  /** The Intent `startBlockerService` sends; none for an empty list. */
  function StartIntent(l: seq<AppInfo>, scanInterval: int): (r: Option<ServiceIntent>)
    ensures r.None? <==> l == []
    ensures r.Some? ==> r.value.appList == Some(AppMapOf(l)) && r.value.scanInterval == Some(scanInterval)
  {
    if l == [] then None else Some(ServiceIntent(Some(AppMapOf(l)), Some(scanInterval)))
  }

  /** `startBlockerService(appList, scanInterval)`: returns the Intent handed to
      `startForegroundServiceCompat`, or None when nothing is started. */
  method StartBlockerService(l: seq<AppInfo>, scanInterval: int := DefaultScanInterval)
    returns (intent: Option<ServiceIntent>)
    ensures intent == StartIntent(l, scanInterval)
  {
    if l != [] {
      var m := PackAppMap(l);
      intent := Some(ServiceIntent(Some(m), Some(scanInterval)));
    } else {
      intent := None;
    }
  }

  /** `extractParam`: the app map and the interval, which defaults when absent; null
      when there is no app map. */
  function ExtractParam(intent: ServiceIntent): (r: Option<(map<string, string>, int)>)
    ensures r.None? <==> intent.appList.None?
    ensures r.Some? ==> r.value.0 == intent.appList.value
    ensures r.Some? && intent.scanInterval.None? ==> r.value.1 == DefaultScanInterval
    ensures r.Some? && intent.scanInterval.Some? ==> r.value.1 == intent.scanInterval.value
  {
    match intent.appList
    case None => None
    case Some(m) => Some((m, intent.scanInterval.GetOr(DefaultScanInterval)))
  }

  /** What one `onStartCommand` call does: the value it returns, whether it stops the
      service, and the map and interval it starts scanning with, if any. */
  datatype StartOutcome = StartOutcome(result: int, stopped: bool, scanning: Option<(map<string, string>, int)>)

  /** `onStartCommand`. None stands for the exception `makeForeground` raises on an
      empty app map, where `reduce` over no names throws before scanning starts. */
  function OnStartCommand(isForeground: bool, intent: ServiceIntent): (r: Option<StartOutcome>)
    ensures isForeground ==> r == Some(StartOutcome(StartSticky, false, None))
    ensures !isForeground && intent.appList.None? ==> r == Some(StartOutcome(StartNotSticky, true, None))
    ensures !isForeground && intent.appList.Some? ==> (r.None? <==> intent.appList.value == map[])
    ensures !isForeground && intent.appList.Some? && r.Some? ==>
      r.value.result == StartSticky && !r.value.stopped && r.value.scanning == ExtractParam(intent)
  {
    if isForeground then Some(StartOutcome(StartSticky, false, None))
    else
      match ExtractParam(intent)
      case None => Some(StartOutcome(StartNotSticky, true, None))
      case Some(param) =>
        if |param.0| == 0 then None else Some(StartOutcome(StartSticky, false, Some(param)))
  }

  /** The start fails exactly where the notification body does: `names` are the map's
      values in the order the map yields them, one per entry. */
  lemma StartFailsIffNoBody(intent: ServiceIntent, names: seq<string>, text: string)
    requires intent.appList.Some? && |names| == |intent.appList.value|
    ensures OnStartCommand(false, intent).None? <==> NotificationBody(names, text).None?
  {
    if intent.appList.value != map[] {
      var k :| k in intent.appList.value;
      assert |intent.appList.value| > 0 by {
        assert k in intent.appList.value.Keys;
      }
    }
  }

  /** The notification title: the number of apps, a space, then the singular title for
      exactly one app and the plural title otherwise. */
  function ContentTitle(appList: map<string, string>, singular: string, plural: string): string
  {
    NatToString(|appList|) + " " + (if |appList| == 1 then singular else plural)
  }

  /** The title starts with the decimal count, which reads back as the number of apps,
      and what follows the space is the singular title exactly for one app. */
  lemma TitleShowsCount(appList: map<string, string>, singular: string, plural: string)
    ensures var t := ContentTitle(appList, singular, plural);
      var k := |NatToString(|appList|)|;
      && k < |t| && AllDigits(t[..k]) && DigitsValue(t[..k]) == |appList|
      && t[k] == ' '
      && t[k + 1..] == if |appList| == 1 then singular else plural
  {
    var t := ContentTitle(appList, singular, plural);
    var k := |NatToString(|appList|)|;
    assert t[..k] == NatToString(|appList|);
    NatToStringRoundTrip(|appList|);
  }

  /** Neighbours are in non-decreasing order. */
  predicate SortedStrings(s: seq<string>)
  {
    forall i :: 0 <= i < |s| - 1 ==> !Less(s[i + 1], s[i])
  }

  function InsertString(x: string, s: seq<string>): (r: seq<string>)
    requires SortedStrings(s)
    ensures SortedStrings(r)
    ensures multiset(r) == multiset(s) + multiset{x}
    ensures r[0] == x || (s != [] && r[0] == s[0])
  {
    if s == [] || !Less(s[0], x) then
      [x] + s
    else
      var rest := InsertString(x, s[1..]);
      LessAsymmetric(s[0], x);
      assert s == [s[0]] + s[1..];
      [s[0]] + rest
  }

  /** `sortedBy { it.toString() }` on the app names. */
  function SortStrings(s: seq<string>): (r: seq<string>)
    ensures SortedStrings(r)
    ensures multiset(r) == multiset(s)
  {
    if s == [] then []
    else
      assert s == [s[0]] + s[1..];
      InsertString(s[0], SortStrings(s[1..]))
  }

  lemma {:induction false} SortedHeadIsLeast(s: seq<string>, k: int)
    requires SortedStrings(s) && 0 <= k < |s|
    ensures !Less(s[k], s[0])
  {
    LessIrreflexive(s[0]);
    if k > 0 {
      SortedHeadIsLeast(s, k - 1);
      assert !Less(s[(k - 1) + 1], s[k - 1]);
      LessTotal(s[k], s[k - 1]);
      LessTotal(s[k - 1], s[0]);
      if Less(s[k], s[0]) {
        LessAsymmetric(s[k], s[0]);
        LessTransitive(s[0], s[k - 1], s[k]);
        assert false;
      }
    }
  }

  /** Dropping the head keeps a list sorted and removes one copy of the head. */
  lemma SortedTail(a: seq<string>)
    requires SortedStrings(a) && a != []
    ensures SortedStrings(a[1..])
    ensures multiset(a[1..]) == multiset(a) - multiset{a[0]}
  {
    assert a == [a[0]] + a[1..];
    assert forall i :: 1 <= i < |a| ==> a[1..][i - 1] == a[i];
  }

  /** Two sorted arrangements of the same non-empty multiset start alike. */
  lemma SortedSameHead(a: seq<string>, b: seq<string>)
    requires SortedStrings(a) && SortedStrings(b) && multiset(a) == multiset(b) && a != []
    ensures b != [] && a[0] == b[0]
  {
    assert a[0] in multiset(b);
    var i :| 0 <= i < |b| && b[i] == a[0];
    assert b[0] in multiset(a);
    var j :| 0 <= j < |a| && a[j] == b[0];
    SortedHeadIsLeast(b, i);
    SortedHeadIsLeast(a, j);
    LessTotal(a[0], b[0]);
  }

  /** A multiset of strings has one sorted arrangement. */
  lemma {:induction false} SortedUnique(a: seq<string>, b: seq<string>)
    requires SortedStrings(a) && SortedStrings(b) && multiset(a) == multiset(b)
    ensures a == b
    decreases |a|
  {
    if a == [] {
      assert |b| == |multiset(b)| == 0;
    } else {
      SortedSameHead(a, b);
      SortedTail(a);
      SortedTail(b);
      SortedUnique(a[1..], b[1..]);
      assert a == [a[0]] + a[1..] && b == [b[0]] + b[1..];
    }
  }

  /** The long notification text: the app names sorted, one per line, then the short
      text. None for no names, where `reduce` throws. */
  function NotificationBody(names: seq<string>, text: string): (r: Option<string>)
    ensures r.None? <==> names == []
  {
    if names == [] then None else Some(Join(SortStrings(names), "\n") + "\n" + text)
  }

  /** The body lists the names in sorted order whatever order the map yields them in:
      it is the same for any arrangement of the same names. */
  lemma BodyListsNamesSorted(names: seq<string>, sorted: seq<string>, text: string)
    requires names != [] && SortedStrings(sorted) && multiset(sorted) == multiset(names)
    ensures NotificationBody(names, text) == Some(Join(sorted, "\n") + "\n" + text)
  {
    SortedUnique(SortStrings(names), sorted);
  }

  /** What a scan tick does besides re-posting itself. */
  datatype TickEffect = StopSelf | GoHome | NoEffect

  /** One run of the scanning Runnable: while the screen is interactive, an unknown
      foreground app stops the service and a blocked one sends the user home; the
      Runnable re-posts itself after `scanInterval` in every case. */
  datatype TickOutcome = TickOutcome(effect: TickEffect, repostAfter: int)

  function ScanTick(interactive: bool, foregroundApp: Option<string>, appList: map<string, string>,
                    scanInterval: int): (r: TickOutcome)
    ensures r.repostAfter == scanInterval
    ensures r.effect == StopSelf <==> interactive && foregroundApp.None?
    ensures r.effect == GoHome <==> interactive && foregroundApp.Some? && foregroundApp.value in appList
  {
    var effect :=
      if !interactive then NoEffect
      else match foregroundApp
        case None => StopSelf
        case Some(p) => if p in appList then GoHome else NoEffect;
    TickOutcome(effect, scanInterval)
  }

  /** From the lock action to a tick: a service started with a non-empty list scans
      with that list's packages at the requested interval, and on an interactive
      screen sends the user home exactly when the foreground app is one of them. */
  lemma StartedServiceBlocksListed(l: seq<AppInfo>, scanInterval: int, foregroundApp: string)
    requires l != []
    ensures var intent := StartIntent(l, scanInterval).value;
      var outcome := OnStartCommand(false, intent);
      && outcome.Some? && outcome.value.result == StartSticky && !outcome.value.stopped
      && outcome.value.scanning == Some((AppMapOf(l), scanInterval))
      && (ScanTick(true, Some(foregroundApp), AppMapOf(l), scanInterval).effect == GoHome
          <==> Contains(l, foregroundApp))
  {
    var m := AppMapOf(l);
    assert l[0] in l;
    assert l[0].packageName in m;
    if Contains(l, foregroundApp) {
      var i :| 0 <= i < |l| && l[i].packageName == foregroundApp;
      assert l[i] in l;
    }
  }
}
