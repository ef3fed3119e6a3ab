# fitnaphone: the blocked-app selection, its codecs and the blocker's decision rules

fitnaphone is an Android app. The user picks installed apps to lock. A foreground
service then polls the foreground app and sends the user to the home screen whenever
a locked app comes up. This project models the parts of the app that can be stated
without the Android runtime.

- **The `AppInfo` record and its list helpers** (module `AppInfos`).
  - The record is a package name, a display name and a `blocked` flag.
  - It is encoded as `packageName<<>>name<<>>true|false`.
  - `contains` is a read-only query, modelled as the function `AppInfos.Contains`.
  - `updateBlocked` and `resetBlocked` change the `blocked` field of records in a list.
    `addIfBlockedOrRemove` adds records to a `MutableList<AppInfo>` or removes them.
  - Records are values here, so all three are methods of the class `AppInfoList` that
    replace its items. Each is proved against a value-level function.
- **The preference converter for a list of records** (module `PrefConverter`). It joins
  the record encodings with `::` and splits them back. An empty string is the empty list.
- **The older `saveAppList`/`loadAppList` codec and the lock action** (module `Lock`).
  - Each record is saved as a `packageName::name` entry of a string set.
  - Loading reads parts 0 and 1 of each entry and marks the record blocked.
  - The lock action needs a non-empty selection and usage permission. It then saves
    the selection, starts the service and finishes.
- **The view model** (module `Selection`). It holds the persisted blocked list and the
  displayed list of installed apps, as two `AppInfoList` objects.
  - It builds the initial list: drop this app's own package, mark each entry by
    membership in the blocked list, then sort by name.
  - It applies `update` and `clearSelection` to both lists.
  - The central invariant is `Consistent`: both lists hold one record per package, and
    the two lists are `InStep`, meaning every displayed flag agrees with membership in
    the blocked list.
- **The list adapter** (module `ListAdapter`): the DiffUtil callback, the shown items,
  the memoising icon store and the click toggle.
- **The blocker service** (module `Blocker`).
  - How the parameters are packed into a package-to-name map and read back. The scan
    interval defaults to 3000 ms.
  - The notification title: the count, then the singular title for exactly one app
    and the plural title otherwise.
  - The notification body: the names sorted, one per line.
  - The `onStartCommand` guard.
  - The per-tick rule: on an interactive screen, an unknown foreground app stops the
    service and a locked one sends the user home. Every tick re-posts itself.
- **The platform helpers of Util.kt** (module `Platform`).
  - The first-match running-service lookup.
  - The installed-app filter.
  - The usage-permission rule.
  - "The last MOVE_TO_FOREGROUND event wins".

Kotlin's string operations are modelled in module `Strings`.

- `split` with a multi-character delimiter is modelled exactly: the leftmost
  occurrence, non-overlapping, keeping empty parts.
- The `joinToString` that inverts it, `String.toBoolean`, `compareTo` on strings and
  the decimal rendering of a count are modelled the same way.

Everything the platform answers is a plain input, and effects are returned as values:

| platform question or effect | model |
|---|---|
| running services | a sequence of records |
| installed applications and launch intents | a sequence of records and a set of packages |
| app labels and icons | maps |
| app-op mode and runtime permission | an integer and a boolean |
| usage events | a sequence |
| screen interactivity | a boolean |
| foreground package | an `Option` |
| stop, go home, re-post, start a service | datatypes |

Kotlin exceptions are `None` results (or a failure flag on a method). There are three kinds:
- the index-out-of-range of a split with too few parts, in `deserialize` and `loadAppList`;
- `removeAt(-1)` in `addIfBlockedOrRemove`;
- `reduce` on no names, in the notification body and so in `onStartCommand` for an
  empty app map.

### Package names may repeat in the blocked list

The code does not enforce one record per package: `addIfBlockedOrRemove` appends a
blocked record even when its package is already present (AppInfo.kt:49). The model
follows the code. It proves that one record per package is kept by the toggle a row
click produces
(`Selection.UpdateKeepsInStep`, `Lock.ClickKeepsSelectionInStep`).

### Conditions under which the codecs round-trip

- **Record codec.** `deserialize(serialize(a)) == a` whenever neither field contains
  `<<>>`. The separator cannot overlap itself, so no further condition is needed.
- **Preference converter.** A list round-trips when, in addition, no field contains `::`.
  Every record encoding ends with the `e` of `true`/`false`, so the overlap of `::` with
  itself does no harm there.
- **`packageName::name` entries.** Neither field may contain `::`, and the package name
  must not end with `:`. The entry `a:::b` saved for package `a:` splits as `a` and `:b`.
  This cannot arise from Android package names, which have no colons.

## Model

| member | source | states |
|---|---|---|
| Strings.IndexOf | app/src/main/java/io/github/achmadhafid/fitnaphone/AppInfo.kt:29 | the result is the leftmost occurrence of the delimiter, or -1 exactly when there is none (the search behind `split`) |
| Strings.Split | app/src/main/java/io/github/achmadhafid/fitnaphone/AppInfo.kt:29 | `split` yields at least one part, joining the parts back with the delimiter restores the text, and no part contains the delimiter |
| Strings.Join | app/src/main/java/io/github/achmadhafid/fitnaphone/App.kt:35 | `joinToString(d)`; `Strings.Split` and `Strings.SplitOfJoin` state that splitting inverts it, and `Strings.JoinStartsWithFirst` that it begins with the first part |
| Strings.SplitOnePart | app/src/main/java/io/github/achmadhafid/fitnaphone/MainActivity.kt:171 | a text splits into a single part exactly when it does not contain the delimiter |
| Strings.SplitCut | app/src/main/java/io/github/achmadhafid/fitnaphone/AppInfo.kt:29 | a leading part that cannot overlap the delimiter is cut off whole, and splitting continues after the delimiter |
| Strings.SplitOfJoin | app/src/main/java/io/github/achmadhafid/fitnaphone/App.kt:34-43 | `split` inverts `joinToString` when every cut is unambiguous |
| Strings.DoubleColonEndsCleanly | app/src/main/java/io/github/achmadhafid/fitnaphone/MainActivity.kt:185 | a part cuts cleanly at "::" when it contains no "::" and does not end with ':' |
| Strings.AngleSeparatorEndsCleanly | app/src/main/java/io/github/achmadhafid/fitnaphone/AppInfo.kt:27 | every part without "<<>>" cuts cleanly at "<<>>" |
| Strings.JoinStartsWithFirst | app/src/main/java/io/github/achmadhafid/fitnaphone/App.kt:35 | a joined list begins with its first part, so a non-empty list of encodings never serialises to "" |
| Strings.LessIrreflexive | app/src/main/java/io/github/achmadhafid/fitnaphone/MainActivityViewModel.kt:29 | no name sorts before itself |
| Strings.LessAsymmetric | app/src/main/java/io/github/achmadhafid/fitnaphone/MainActivityViewModel.kt:29 | two names are never each before the other |
| Strings.LessTransitive | app/src/main/java/io/github/achmadhafid/fitnaphone/MainActivityViewModel.kt:29 | string order is transitive |
| Strings.LessTotal | app/src/main/java/io/github/achmadhafid/fitnaphone/MainActivityViewModel.kt:29 | any two different names are ordered one way or the other |
| Strings.Less | app/src/main/java/io/github/achmadhafid/fitnaphone/MainActivityViewModel.kt:29 | `compareTo` on names; `Strings.LessIrreflexive`, `LessAsymmetric`, `LessTransitive` and `LessTotal` state that it is a strict total order |
| Strings.BoolText | app/src/main/java/io/github/achmadhafid/fitnaphone/AppInfo.kt:24 | the flag's text reads back as the flag through `toBoolean`; it holds no '<' or ':' and ends with 'e' |
| Strings.ToBoolean | app/src/main/java/io/github/achmadhafid/fitnaphone/AppInfo.kt:30 | `toBoolean` is true exactly of the four letters "true" in any ASCII letter case; `Strings.BoolText` states that it reads "true" and "false" back as their flags |
| Strings.NatToString | app/src/main/java/io/github/achmadhafid/fitnaphone/BlockerService.kt:93 | a count is rendered as a non-empty string of decimal digits, with no leading zero unless the count is 0 |
| Strings.NatToStringRoundTrip | app/src/main/java/io/github/achmadhafid/fitnaphone/BlockerService.kt:93 | the rendered digits denote the count |
| AppInfos.SerializeIsJoin | app/src/main/java/io/github/achmadhafid/fitnaphone/AppInfo.kt:24 | the encoding is exactly packageName, "<<>>", name, "<<>>", then "true" or "false" |
| AppInfos.AppInfoFor | app/src/main/java/io/github/achmadhafid/fitnaphone/AppInfo.kt:14-22 | the secondary constructor: the label, or "" when there is none; `Selection.Listed` states the records `init` builds with it |
| AppInfos.Serialize | app/src/main/java/io/github/achmadhafid/fitnaphone/AppInfo.kt:24 | `serialize`; `AppInfos.SerializeIsJoin`, `SerializeFields` and `DeserializeSerialize` state its form and its round trip |
| AppInfos.Deserialize | app/src/main/java/io/github/achmadhafid/fitnaphone/AppInfo.kt:29-31 | `deserialize`; `AppInfos.DeserializeSerialize`, `DeserializeIgnoresExtraParts` and the two `…Fails` lemmas state what it reads and where it fails |
| AppInfos.SerializeFields | app/src/main/java/io/github/achmadhafid/fitnaphone/AppInfo.kt:24-30 | when no field contains "<<>>", the encoding splits into exactly the three fields |
| AppInfos.DeserializeSerialize | app/src/main/java/io/github/achmadhafid/fitnaphone/AppInfo.kt:24-31 | round trip: decoding the encoding of a record whose fields hold no "<<>>" gives the record back |
| AppInfos.DeserializeIgnoresExtraParts | app/src/main/java/io/github/achmadhafid/fitnaphone/AppInfo.kt:29-31 | parts after the third are ignored: any three parts without "<<>>", followed by more data, decode to the record of those three parts |
| AppInfos.DeserializeWithoutSeparatorFails | app/src/main/java/io/github/achmadhafid/fitnaphone/AppInfo.kt:29-31 | a text without the separator has one part, so decoding fails |
| AppInfos.DeserializeOneSeparatorFails | app/src/main/java/io/github/achmadhafid/fitnaphone/AppInfo.kt:29-31 | a text with a single separator has two parts, so decoding fails |
| AppInfos.DeserializeThreeParts | app/src/main/java/io/github/achmadhafid/fitnaphone/AppInfo.kt:29-31 | any three parts without "<<>>" decode to the record of those parts, whatever the third one holds (read by `toBoolean`) |
| AppInfos.IndexOfFirst | app/src/main/java/io/github/achmadhafid/fitnaphone/AppInfo.kt:51 | `indexOfFirst`: the first record of the package, or -1 exactly when there is none |
| AppInfos.Contains | app/src/main/java/io/github/achmadhafid/fitnaphone/AppInfo.kt:35-36 | `contains(p)` holds iff some record has package `p` |
| AppInfos.UpdatedBlocked | app/src/main/java/io/github/achmadhafid/fitnaphone/AppInfo.kt:38-40 | only the first record of the package takes the new flag; length and every other record are unchanged; nothing changes without a match |
| AppInfos.RemovedAll | app/src/main/java/io/github/achmadhafid/fitnaphone/AppInfo.kt:50 | `removeIf` drops every record of the package and keeps every other record with its multiplicity |
| AppInfos.RemovedAllConcat | app/src/main/java/io/github/achmadhafid/fitnaphone/AppInfo.kt:50 | `removeIf` keeps the kept records in their order: removing from a concatenation concatenates what is kept of each part |
| AppInfos.AddOrRemoveFails | app/src/main/java/io/github/achmadhafid/fitnaphone/AppInfo.kt:46-53 | `addIfBlockedOrRemove` fails exactly on the pre-N path, for an unblocked record whose package is absent |
| AppInfos.AddedIfBlockedOrRemoved | app/src/main/java/io/github/achmadhafid/fitnaphone/AppInfo.kt:46-53 | `addIfBlockedOrRemove` as a value; `AppInfos.AddOrRemoveFails` states where it fails and `AppInfos.AddOrRemoveMembership` the membership afterwards |
| AppInfos.RemovedAllMembership | app/src/main/java/io/github/achmadhafid/fitnaphone/AppInfo.kt:50 | removing a package's records leaves membership of every other package unchanged |
| AppInfos.RemovedAtMembership | app/src/main/java/io/github/achmadhafid/fitnaphone/AppInfo.kt:51 | `removeAt` of one record leaves every other package's membership unchanged, and with one record per package removes that package |
| AppInfos.AddOrRemoveMembership | app/src/main/java/io/github/achmadhafid/fitnaphone/AppInfo.kt:46-53 | after a successful call the package is present iff the record is blocked (pre-N: given one record per package), and other packages are untouched |
| AppInfos.AppInfoList.IndexOfFirstMatch | app/src/main/java/io/github/achmadhafid/fitnaphone/AppInfo.kt:51 | the scanning loop returns the first index of the package, or -1 |
| AppInfos.AppInfoList.UpdateBlocked | app/src/main/java/io/github/achmadhafid/fitnaphone/AppInfo.kt:38-40 | in place, the list becomes `UpdatedBlocked` of the old list |
| AppInfos.AppInfoList.ResetBlocked | app/src/main/java/io/github/achmadhafid/fitnaphone/AppInfo.kt:42-44 | in place, every record becomes unblocked; length, order, package names and names are unchanged |
| AppInfos.AppInfoList.Clear | app/src/main/java/io/github/achmadhafid/fitnaphone/MainActivityViewModel.kt:46 | the list becomes empty |
| AppInfos.AppInfoList.RemoveIf | app/src/main/java/io/github/achmadhafid/fitnaphone/AppInfo.kt:50 | in place, the list becomes `RemovedAll` of the old list |
| AppInfos.AppInfoList.AddIfBlockedOrRemove | app/src/main/java/io/github/achmadhafid/fitnaphone/AppInfo.kt:46-53 | appends a blocked record even if its package is present; from N on removes every record of an unblocked one, before N only the first; reports failure and leaves the list unchanged when `removeAt(-1)` would throw |
| PrefConverter.DeserializeAll | app/src/main/java/io/github/achmadhafid/fitnaphone/App.kt:41-43 | one record per segment, in order; fails iff some segment is not a record encoding |
| PrefConverter.SerializeList | app/src/main/java/io/github/achmadhafid/fitnaphone/App.kt:34-38 | the stored string; `PrefConverter.SerializeListSegments` and `DeserializeSerializeList` state that it splits back and reads back as the list |
| PrefConverter.DeserializeList | app/src/main/java/io/github/achmadhafid/fitnaphone/App.kt:39-44 | "" is the empty list; otherwise record i is the decoding of "::" segment i, one per segment, and decoding fails iff some segment fails |
| PrefConverter.SerializeAvoidsListDelimiter | app/src/main/java/io/github/achmadhafid/fitnaphone/App.kt:34-38 | the encoding of a record whose fields hold neither delimiter contains no "::" and ends with 'e' |
| PrefConverter.SerializeListSegments | app/src/main/java/io/github/achmadhafid/fitnaphone/App.kt:34-43 | the stored string splits back into the record encodings in list order |
| PrefConverter.DeserializeSerializeList | app/src/main/java/io/github/achmadhafid/fitnaphone/App.kt:34-44 | round trip: a list whose fields hold neither "::" nor "<<>>" reads back as itself, the empty list included |
| Selection.InsertByName | app/src/main/java/io/github/achmadhafid/fitnaphone/MainActivityViewModel.kt:29 | inserting into a name-sorted list keeps it sorted and adds exactly that record |
| Selection.SortByName | app/src/main/java/io/github/achmadhafid/fitnaphone/MainActivityViewModel.kt:29 | `sortedBy { it.name }` yields a name-sorted permutation of its input |
| Selection.InsertByNameStable | app/src/main/java/io/github/achmadhafid/fitnaphone/MainActivityViewModel.kt:29 | the inserted record goes in front of the records with its name, and the records of every name keep their order |
| Selection.SortByNameStable | app/src/main/java/io/github/achmadhafid/fitnaphone/MainActivityViewModel.kt:29 | the sort is stable: the records of each name come out in their original order |
| Selection.SortByNameMembers | app/src/main/java/io/github/achmadhafid/fitnaphone/MainActivityViewModel.kt:29 | sorting keeps exactly the records it was given |
| Selection.Listed | app/src/main/java/io/github/achmadhafid/fitnaphone/MainActivityViewModel.kt:26-28 | the filter and map keep exactly the installed packages other than this app's own, each record built from the labels and marked blocked iff the stored list has it |
| Selection.InitialList | app/src/main/java/io/github/achmadhafid/fitnaphone/MainActivityViewModel.kt:24-31 | the initial list holds exactly the installed packages except this app's own, each blocked iff the stored list contains it, sorted by name, in step with the stored list |
| Selection.ListedDistinct | app/src/main/java/io/github/achmadhafid/fitnaphone/MainActivityViewModel.kt:26-28 | distinct installed packages give one record per package |
| Selection.InsertByNameDistinct | app/src/main/java/io/github/achmadhafid/fitnaphone/MainActivityViewModel.kt:29 | inserting a new package keeps one record per package |
| Selection.SortByNameDistinct | app/src/main/java/io/github/achmadhafid/fitnaphone/MainActivityViewModel.kt:29 | sorting keeps one record per package |
| Selection.InitialListDistinct | app/src/main/java/io/github/achmadhafid/fitnaphone/MainActivityViewModel.kt:24-31 | the displayed list names each package once |
| Selection.ToggleMembership | app/src/main/java/io/github/achmadhafid/fitnaphone/MainActivityViewModel.kt:35 | a toggle succeeds on both Android paths; afterwards the package is in the blocked list iff the new flag is set, and every other package is as before |
| Selection.ToggleKeepsDistinct | app/src/main/java/io/github/achmadhafid/fitnaphone/MainActivityViewModel.kt:35 | a toggle keeps one record per package in the blocked list |
| Selection.AppendedDistinct | app/src/main/java/io/github/achmadhafid/fitnaphone/AppInfo.kt:49 | appending a record of an absent package keeps one record per package |
| Selection.RemovedAtDistinct | app/src/main/java/io/github/achmadhafid/fitnaphone/AppInfo.kt:51 | removing one record keeps one record per package |
| Selection.RemovedAllDistinct | app/src/main/java/io/github/achmadhafid/fitnaphone/AppInfo.kt:50 | removing all records of a package keeps one record per package |
| Selection.UpdatedBlockedInStep | app/src/main/java/io/github/achmadhafid/fitnaphone/MainActivityViewModel.kt:37-41 | setting the package's displayed flag to its new membership puts the displayed list back in step |
| Selection.UpdateKeepsInStep | app/src/main/java/io/github/achmadhafid/fitnaphone/MainActivityViewModel.kt:34-43 | from in-step lists with one record per package, a toggle leaves them in step with one record per package |
| Selection.MainActivityViewModel.constructor | app/src/main/java/io/github/achmadhafid/fitnaphone/MainActivityViewModel.kt:20-22 | the blocked list is the stored one and no app list has been posted |
| Selection.MainActivityViewModel.PostInitialList | app/src/main/java/io/github/achmadhafid/fitnaphone/MainActivityViewModel.kt:24-31 | posts `InitialList` of the installed packages; with distinct packages on both sides the view model is consistent |
| Selection.MainActivityViewModel.Update | app/src/main/java/io/github/achmadhafid/fitnaphone/MainActivityViewModel.kt:34-43 | applies `addIfBlockedOrRemove` to the blocked list and `updateBlocked` to the displayed list (only the blocked list when none is posted); a toggle keeps the view model consistent |
| Selection.MainActivityViewModel.ClearSelection | app/src/main/java/io/github/achmadhafid/fitnaphone/MainActivityViewModel.kt:45-54 | the blocked list becomes empty and every displayed entry is unblocked, otherwise unchanged; consistency is kept |
| ListAdapter.SameItemMeansSameFields | app/src/main/java/io/github/achmadhafid/fitnaphone/AppListAdapter.kt:123-131 | two items are the same iff their contents are the same iff all three fields agree; identical lists match position by position |
| ListAdapter.DiffCallback.AreContentsTheSame | app/src/main/java/io/github/achmadhafid/fitnaphone/AppListAdapter.kt:129-130 | data-class equality of the two records; `ListAdapter.SameItemMeansSameFields` states it field by field |
| ListAdapter.DiffCallback.AreItemsTheSame | app/src/main/java/io/github/achmadhafid/fitnaphone/AppListAdapter.kt:123-124 | delegates to `areContentsTheSame`; `ListAdapter.SameItemMeansSameFields` states that the two agree |
| ListAdapter.Toggled | app/src/main/java/io/github/achmadhafid/fitnaphone/AppListAdapter.kt:79 | a click keeps package and name and flips the flag |
| ListAdapter.ToggledTwice | app/src/main/java/io/github/achmadhafid/fitnaphone/AppListAdapter.kt:79 | two clicks restore the record |
| ListAdapter.LookUpIcon | app/src/main/java/io/github/achmadhafid/fitnaphone/AppListAdapter.kt:55-60 | a hit returns the stored icon and does not query; a miss returns the platform's icon and stores it only when it is not null; a store that agrees with the platform keeps agreeing and answers as the platform would |
| ListAdapter.LookUpAll | app/src/main/java/io/github/achmadhafid/fitnaphone/AppListAdapter.kt:44-52 | a run of lookups answers once per query |
| ListAdapter.LookUpsAgree | app/src/main/java/io/github/achmadhafid/fitnaphone/AppListAdapter.kt:44-60 | memoisation is invisible: any run of lookups answers exactly what the platform would |
| ListAdapter.AppListAdapter.constructor | app/src/main/java/io/github/achmadhafid/fitnaphone/AppListAdapter.kt:21-22 | no items and an empty icon store |
| ListAdapter.AppListAdapter.SetItems | app/src/main/java/io/github/achmadhafid/fitnaphone/AppListAdapter.kt:25-31 | the diff compares the new list against the old items, then `items == l` and the count is `\|l\|`; the icon store is untouched |
| ListAdapter.AppListAdapter.GetIconDrawable | app/src/main/java/io/github/achmadhafid/fitnaphone/AppListAdapter.kt:55-60 | answers and updates the store as `LookUpIcon` |
| ListAdapter.AppListAdapter.OnItemClick | app/src/main/java/io/github/achmadhafid/fitnaphone/AppListAdapter.kt:78-81 | the clicked record's flag flips in place and the flipped record goes to the listener |
| Blocker.AppMapOf | app/src/main/java/io/github/achmadhafid/fitnaphone/BlockerService.kt:170-173 | the map's keys are exactly the list's packages, and for a repeated package the later record's name wins |
| Blocker.PackAppMap | app/src/main/java/io/github/achmadhafid/fitnaphone/BlockerService.kt:170-173 | the `forEach` loop builds `AppMapOf` of the list |
| Blocker.StartIntent | app/src/main/java/io/github/achmadhafid/fitnaphone/BlockerService.kt:165-180 | nothing is started for an empty list; otherwise the intent carries the packed map and the interval |
| Blocker.StartBlockerService | app/src/main/java/io/github/achmadhafid/fitnaphone/BlockerService.kt:165-180 | the method sends `StartIntent` of the list, the interval defaulting to 3000 ms |
| Blocker.ExtractParam | app/src/main/java/io/github/achmadhafid/fitnaphone/BlockerService.kt:182-193 | null iff the app map is missing; the interval defaults to 3000 ms when absent |
| Blocker.OnStartCommand | app/src/main/java/io/github/achmadhafid/fitnaphone/BlockerService.kt:44-62 | an already-foreground service only returns START_STICKY; a missing app map stops the service with START_NOT_STICKY; an empty app map throws in `makeForeground` before scanning; otherwise START_STICKY, and scanning starts with the extracted parameters |
| Blocker.StartFailsIffNoBody | app/src/main/java/io/github/achmadhafid/fitnaphone/BlockerService.kt:57-115 | the start throws exactly when the notification body has no names to `reduce` |
| Blocker.TitleShowsCount | app/src/main/java/io/github/achmadhafid/fitnaphone/BlockerService.kt:93-96 | the title's leading digits read back as the number of apps, then a space, then the singular title iff there is exactly one app |
| Blocker.ContentTitle | app/src/main/java/io/github/achmadhafid/fitnaphone/BlockerService.kt:93-96 | the notification title; `Blocker.TitleShowsCount` states that it reads as the count, a space and the singular or plural title |
| Blocker.InsertString | app/src/main/java/io/github/achmadhafid/fitnaphone/BlockerService.kt:114 | inserting into a sorted list of names keeps it sorted and adds exactly that name |
| Blocker.SortStrings | app/src/main/java/io/github/achmadhafid/fitnaphone/BlockerService.kt:114 | the names come out sorted and as a permutation |
| Blocker.SortedHeadIsLeast | app/src/main/java/io/github/achmadhafid/fitnaphone/BlockerService.kt:114 | nothing in a sorted list sorts before its head |
| Blocker.SortedUnique | app/src/main/java/io/github/achmadhafid/fitnaphone/BlockerService.kt:114 | a collection of names has exactly one sorted arrangement |
| Blocker.NotificationBody | app/src/main/java/io/github/achmadhafid/fitnaphone/BlockerService.kt:104-117 | there is a body iff there is at least one name (`reduce` throws on none) |
| Blocker.BodyListsNamesSorted | app/src/main/java/io/github/achmadhafid/fitnaphone/BlockerService.kt:104-117 | the body is the names in sorted order, one per line, then the short text, whatever order the map yields them in |
| Blocker.ScanTick | app/src/main/java/io/github/achmadhafid/fitnaphone/BlockerService.kt:140-153 | every tick re-posts after the interval; it stops the service iff the screen is interactive and the foreground app is unknown, and goes home iff interactive and the foreground app is in the map |
| Blocker.StartedServiceBlocksListed | app/src/main/java/io/github/achmadhafid/fitnaphone/BlockerService.kt:165-173 | the app's own start path never sends an empty map, so a service started with a non-empty list does not throw; it scans that list's packages at the requested interval and, on an interactive screen, goes home exactly when one of them is in the foreground |
| Platform.FirstServiceIndex | app/src/main/java/io/github/achmadhafid/fitnaphone/Util.kt:47-54 | the first service with the class name, or -1 exactly when none has it |
| Platform.GetRunningServiceInfo | app/src/main/java/io/github/achmadhafid/fitnaphone/Util.kt:47-54 | the loop returns the first matching service, or null when none matches |
| Platform.IsForegroundServiceRunning | app/src/main/java/io/github/achmadhafid/fitnaphone/Util.kt:56-59 | true iff there is a matching service and the first match is in the foreground |
| Platform.InstalledAppsWithLaunchIntent | app/src/main/java/io/github/achmadhafid/fitnaphone/Util.kt:115-119 | keeps exactly the apps with a non-empty package name, a non-empty name and a launch intent |
| Platform.InstalledAppsKeepOrder | app/src/main/java/io/github/achmadhafid/fitnaphone/Util.kt:115-119 | filtering a concatenation concatenates the filtered parts, so the original order is kept |
| Platform.HasAppUsagePermission | app/src/main/java/io/github/achmadhafid/fitnaphone/Util.kt:150-164 | under MODE_DEFAULT the runtime permission decides; otherwise only MODE_ALLOWED grants |
| Platform.LastForeground | app/src/main/java/io/github/achmadhafid/fitnaphone/Util.kt:177-185 | the package of the last MOVE_TO_FOREGROUND event, "" when there is none |
| Platform.LastForegroundAppend | app/src/main/java/io/github/achmadhafid/fitnaphone/Util.kt:171-185 | events before the latest batch with a MOVE_TO_FOREGROUND do not matter |
| Platform.DetectForegroundApp | app/src/main/java/io/github/achmadhafid/fitnaphone/Util.kt:166-186 | null without usage permission; otherwise the loop returns `LastForeground` of the events |
| Lock.SaveAppList | app/src/main/java/io/github/achmadhafid/fitnaphone/MainActivity.kt:159-164 | the saved set holds exactly the entries `packageName::name` of the list's records |
| Lock.EntryOf | app/src/main/java/io/github/achmadhafid/fitnaphone/MainActivity.kt:161 | the `packageName::name` entry; `Lock.EntrySplits` and `Lock.LoadEntryOfSaved` state that it reads back |
| Lock.LoadEntry | app/src/main/java/io/github/achmadhafid/fitnaphone/MainActivity.kt:171 | an entry loads iff it contains "::", and always as blocked |
| Lock.LoadAll | app/src/main/java/io/github/achmadhafid/fitnaphone/MainActivity.kt:169-172 | one record per entry, in order; fails iff some entry has no "::" |
| Lock.LoadAppList | app/src/main/java/io/github/achmadhafid/fitnaphone/MainActivity.kt:169-173 | a missing key loads as the empty list; otherwise record i is entry i loaded, one per entry, and loading fails iff some entry has no "::"; every loaded record is blocked |
| Lock.EntrySplits | app/src/main/java/io/github/achmadhafid/fitnaphone/MainActivity.kt:161-171 | a saveable record's entry splits into exactly its package and name |
| Lock.LoadEntryOfSaved | app/src/main/java/io/github/achmadhafid/fitnaphone/MainActivity.kt:161-171 | a saveable record's entry loads as the record, blocked |
| Lock.SaveLoadRoundTrip | app/src/main/java/io/github/achmadhafid/fitnaphone/MainActivity.kt:159-173 | however the stored set is enumerated, loading what was saved gives exactly the saved records, each blocked |
| Lock.LoadTruncatesName | app/src/main/java/io/github/achmadhafid/fitnaphone/MainActivity.kt:171 | a name containing "::" loads cut at its first "::", so it differs from the saved name |
| Lock.ColonEndingPackageMisread | app/src/main/java/io/github/achmadhafid/fitnaphone/MainActivity.kt:161-171 | the package "a:" with name "b" loads as package "a" with name ":b" |
| Lock.SaveDependsOnPairs | app/src/main/java/io/github/achmadhafid/fitnaphone/MainActivity.kt:161 | the saved set depends only on the package and name pairs: not on order, repeats or flags |
| Lock.OnLockSelected | app/src/main/java/io/github/achmadhafid/fitnaphone/MainActivity.kt:130-142 | unhandled, with no effect, iff the selection is empty; the permission dialog iff usage permission is missing; otherwise saves the selection and starts the service with it |
| Lock.ClickKeepsSelectionInStep | app/src/main/java/io/github/achmadhafid/fitnaphone/MainActivity.kt:47-49 | the toggled record a row click sends to `update` always succeeds and gives that row the new flag; both lists keep one record per package and stay in step |

## Left out

- User interface: view holders, the lock-icon animations and their float alpha values,
  menus, the toolbar badge, the tutorial, dialogs, toasts and theme switching. These are
  GUI toolkit behaviour.
- Persistence I/O: SharedPreferences and the preference wrapper's `savePref`,
  `saveThanDisposePref` and `deleteAppList`. Only the string codecs and the list values
  are modelled.
- Dependency injection and application start-up beyond the converter lambdas. This
  covers Koin, `Once` and AppModule.kt, which are framework wiring.
- Concurrency and timing.
  - The `init` coroutine is the single step `PostInitialList`.
  - The timing of `postValue`/`notifyObserver` is not modelled.
  - A Handler tick is one `ScanTick`. Real time, and the lifecycle handler dropping
    re-posts after the service is destroyed, are not modelled.
- The clock: the usage-stats query window (the current time minus 600000 ms, although
  the comment says one minute). The events of the window are an input.
- The platform itself: PackageManager, UsageStatsManager, AppOpsManager, ActivityManager,
  PowerManager, NotificationManager, notification channels, `startForeground` and the
  home-launcher intent. Their answers are inputs and their effects are returned values.
- The `foregroundApp` and `homeLauncher` helpers the service calls come from a library
  that is not part of this model. The foreground package is an `Option<string>` input,
  and going home is an effect.
- Notification styling: the bold and bullet spans. The body is modelled as plain text.
- Aliasing of mutable `AppInfo` objects. In the app, the adapter, the displayed list and
  the listener share one object, so a click flips the flag everywhere at once. Here
  records are values, and each list changes only through its own operation.
- Iteration order of a HashMap or HashSet. The map's values and the stored entry set
  arrive as sequences in some order. `SaveLoadRoundTrip` and `BodyListsNamesSorted`
  hold for every order.
- Strings.Less: orders strings by Unicode code point, while Java's `compareTo`
  compares UTF-16 code units. The two differ only for characters outside the Basic
  Multilingual Plane.
- Exceptions are modelled as `None` or a failure flag: a split with too few parts,
  `removeAt(-1)`, and `reduce` on no names. How the crash propagates is not modelled.
- A wrong-typed app map extra makes the `as?` cast yield null. `Blocker.ExtractParam`
  folds that into a missing map, as the code does.
- Code in MainActivity.kt that calls members absent from the other files:
  `updateAppInfo`, `initializeIfNeeded`, `blockedAppList`, assigning `items`, and a
  three-argument adapter constructor (MainActivity.kt:48,76,79,82). This covers the
  `onCreate` observer that deletes the stored list, and `onPrepareOptionsMenu`.
  Line 48 is read as passing the clicked record to `update`.
- The second `AppInfo` declaration at AppListAdapter.kt:135-139. The declaration in
  AppInfo.kt is the one modelled.
- Build configuration: the Gradle scripts and buildSrc.
