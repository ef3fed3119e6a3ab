/** Platform helpers (Util.kt), with what the platform reports passed in as values:
    the running services, the installed applications, the app-op mode and the
    usage events. */
module Platform {
  import opened Wrappers

  /** `ActivityManager.RunningServiceInfo`: the service's class name and whether it
      runs in the foreground. */
  datatype RunningServiceInfo = RunningServiceInfo(className: string, foreground: bool)

  /** The position of the first service with that class name, -1 when none has it. */
  function FirstServiceIndex(services: seq<RunningServiceInfo>, className: string): (r: int)
    ensures -1 <= r < |services|
    ensures r >= 0 ==> services[r].className == className
    ensures forall k :: 0 <= k < |services| && (r < 0 || k < r) ==> services[k].className != className
  {
    if services == [] then -1
    else if services[0].className == className then 0
    else
      var r := FirstServiceIndex(services[1..], className);
      if r < 0 then -1 else r + 1
  }

  /** `getRunningServiceInfo`: the first matching service, null when none matches. */
  method GetRunningServiceInfo(services: seq<RunningServiceInfo>, className: string)
    returns (info: Option<RunningServiceInfo>)
    ensures info.None? <==> FirstServiceIndex(services, className) < 0
    ensures info.Some? ==> info.value == services[FirstServiceIndex(services, className)]
  {
    for i := 0 to |services|
      invariant forall k :: 0 <= k < i ==> services[k].className != className
    {
      if className == services[i].className {
        return Some(services[i]);
      }
    }
    return None;
  }

  /** `isForegroundServiceRunning`: false when no service matches, otherwise the first
      match's foreground flag. */
  method IsForegroundServiceRunning(services: seq<RunningServiceInfo>, className: string) returns (b: bool)
    ensures b <==> exists k :: 0 <= k < |services| && services[k].className == className &&
                                services[k].foreground && forall j :: 0 <= j < k ==> services[j].className != className
  {
    var info := GetRunningServiceInfo(services, className);
    b := info.Some? && info.value.foreground;
    if b {
      assert services[FirstServiceIndex(services, className)].foreground;
    }
  }

  /** `ApplicationInfo` with the two nullable fields the filter reads. */
  datatype ApplicationInfo = ApplicationInfo(packageName: Option<string>, name: Option<string>)

  /** Kept by `getInstalledAppsWithLaunchIntent`: a non-empty package name, a non-empty
      name, and a launch intent (`launchable` holds the packages that have one). */
  predicate Launchable(app: ApplicationInfo, launchable: set<string>)
  {
    && app.packageName.Some? && |app.packageName.value| > 0
    && app.name.Some? && |app.name.value| > 0
    && app.packageName.value in launchable
  }

  /** The three `filter` steps of `getInstalledAppsWithLaunchIntent`. */
  function InstalledAppsWithLaunchIntent(apps: seq<ApplicationInfo>, launchable: set<string>)
    : (r: seq<ApplicationInfo>)
    ensures forall x :: x in r <==> x in apps && Launchable(x, launchable)
    ensures |r| <= |apps|
  {
    if apps == [] then []
    else
      (if Launchable(apps[0], launchable) then [apps[0]] else [])
      + InstalledAppsWithLaunchIntent(apps[1..], launchable)
  }

  /** The filter keeps the original order: filtering a concatenation is concatenating
      the filtered parts. */
  lemma {:induction false} InstalledAppsKeepOrder(a: seq<ApplicationInfo>, b: seq<ApplicationInfo>,
                                                  launchable: set<string>)
    ensures InstalledAppsWithLaunchIntent(a + b, launchable)
      == InstalledAppsWithLaunchIntent(a, launchable) + InstalledAppsWithLaunchIntent(b, launchable)
  {
    if a == [] {
      assert a + b == b;
    } else {
      assert (a + b)[1..] == a[1..] + b;
      InstalledAppsKeepOrder(a[1..], b, launchable);
    }
  }

  /** `AppOpsManager.MODE_ALLOWED` and `MODE_DEFAULT`. */
  const ModeAllowed: int := 0
  const ModeDefault: int := 3

  /** `hasAppUsagePermission`: under the default mode the runtime permission decides,
      otherwise only the allowed mode grants. */
  function HasAppUsagePermission(mode: int, permissionGranted: bool): (r: bool)
    ensures mode == ModeDefault ==> (r <==> permissionGranted)
    ensures mode != ModeDefault ==> (r <==> mode == ModeAllowed)
  {
    if mode == ModeDefault then permissionGranted else mode == ModeAllowed
  }

  /** `UsageEvents.Event.MOVE_TO_FOREGROUND`. */
  const MoveToForeground: int := 1

  datatype UsageEvent = UsageEvent(eventType: int, packageName: string)
  {
    predicate MovesToForeground()
    {
      eventType == MoveToForeground
    }
  }

  /** Some event moves an app to the foreground. */
  predicate AnyMove(events: seq<UsageEvent>)
  {
    exists i :: 0 <= i < |events| && events[i].MovesToForeground()
  }

  /** No event after position `i` moves an app to the foreground. */
  predicate LastMoveAt(events: seq<UsageEvent>, i: int)
    requires 0 <= i < |events|
  {
    events[i].MovesToForeground() && forall j :: i < j < |events| ==> !events[j].MovesToForeground()
  }

  /** The package of the last event that moved an app to the foreground, "" if none did. */
  function LastForeground(events: seq<UsageEvent>): (r: string)
    ensures !AnyMove(events) ==> r == ""
    ensures forall i :: 0 <= i < |events| && LastMoveAt(events, i) ==> r == events[i].packageName
  {
    if events == [] then ""
    else
      var init := events[..|events| - 1];
      var last := events[|events| - 1];
      if last.MovesToForeground() then last.packageName
      else
        assert forall i :: 0 <= i < |init| ==> init[i] == events[i];
        assert !AnyMove(events) ==> !AnyMove(init);
        assert forall i :: 0 <= i < |init| && LastMoveAt(events, i) ==> LastMoveAt(init, i);
        LastForeground(init)
  }

  /** Only the latest events matter: once a later batch moves something to the
      foreground, the earlier ones are irrelevant. */
  lemma {:induction false} LastForegroundAppend(a: seq<UsageEvent>, b: seq<UsageEvent>)
    ensures LastForeground(a + b) == if AnyMove(b) then LastForeground(b) else LastForeground(a)
  {
    if b == [] {
      assert a + b == a;
    } else {
      var init := b[..|b| - 1];
      var last := b[|b| - 1];
      assert (a + b)[..|a + b| - 1] == a + init;
      assert (a + b)[|a + b| - 1] == last;
      if !last.MovesToForeground() {
        LastForegroundAppend(a, init);
        assert LastForeground(a + b) == LastForeground(a + init);
        assert LastForeground(b) == LastForeground(init);
        AnyMoveBeforeLast(b);
      }
    }
  }

  lemma AnyMoveBeforeLast(b: seq<UsageEvent>)
    requires b != [] && !b[|b| - 1].MovesToForeground()
    ensures AnyMove(b) <==> AnyMove(b[..|b| - 1])
  {
    var init := b[..|b| - 1];
    if AnyMove(b) {
      var i :| 0 <= i < |b| && b[i].MovesToForeground();
      assert init[i] == b[i];
    }
    if AnyMove(init) {
      var i :| 0 <= i < |init| && init[i].MovesToForeground();
      assert b[i] == init[i];
    }
  }

  /** `detectForegroundApp`: null without usage permission, otherwise the package of
      the last MOVE_TO_FOREGROUND event in the queried window, "" if there is none. */
  method DetectForegroundApp(mode: int, permissionGranted: bool, events: seq<UsageEvent>)
    returns (r: Option<string>)
    ensures !HasAppUsagePermission(mode, permissionGranted) ==> r == None
    ensures HasAppUsagePermission(mode, permissionGranted) ==> r == Some(LastForeground(events))
  {
    if !HasAppUsagePermission(mode, permissionGranted) {
      return None;
    }
    var foregroundApp := "";
    var i := 0;
    while i < |events|
      invariant 0 <= i <= |events|
      invariant foregroundApp == LastForeground(events[..i])
    {
      assert events[..i + 1][..i] == events[..i];
      if events[i].MovesToForeground() {
        foregroundApp := events[i].packageName;
      }
      i := i + 1;
    }
    assert events[..|events|] == events;
    return Some(foregroundApp);
  }
}
