/** The app list's RecyclerView adapter (AppListAdapter.kt): the diff callback it hands
    to DiffUtil, the items it shows, the memoising icon store and the click toggle. */
module ListAdapter {
  import opened Wrappers
  import opened AppInfos

  /** An application icon, only ever compared and passed along. */
  datatype Drawable = Drawable(id: nat)

  /** `DiffUtilCallback(newItems, oldItems)`. */
  datatype DiffCallback = DiffCallback(newItems: seq<AppInfo>, oldItems: seq<AppInfo>)
  {
    function OldListSize(): nat
    {
      |oldItems|
    }

    function NewListSize(): nat
    {
      |newItems|
    }

    /** Data-class equality of the two records. */
    predicate AreContentsTheSame(oldPosition: nat, newPosition: nat)
      requires oldPosition < |oldItems| && newPosition < |newItems|
    {
      newItems[newPosition] == oldItems[oldPosition]
    }

    /** Delegates to `areContentsTheSame`. */
    predicate AreItemsTheSame(oldPosition: nat, newPosition: nat)
      requires oldPosition < |oldItems| && newPosition < |newItems|
    {
      AreContentsTheSame(oldPosition, newPosition)
    }
  }

  /** Two positions name the same item exactly when the records agree field by field,
      so a record whose flag changed is a different item, and identical lists match
      position by position. */
  lemma SameItemMeansSameFields(d: DiffCallback, o: nat, n: nat)
    requires o < |d.oldItems| && n < |d.newItems|
    ensures d.AreItemsTheSame(o, n) <==> d.AreContentsTheSame(o, n)
    ensures d.AreItemsTheSame(o, n) <==>
      && d.oldItems[o].packageName == d.newItems[n].packageName
      && d.oldItems[o].name == d.newItems[n].name
      && d.oldItems[o].blocked == d.newItems[n].blocked
    ensures d.newItems == d.oldItems && o == n ==> d.AreItemsTheSame(o, n)
  {
  }

  /** The click handler's record: the same app with its flag flipped. */
  function Toggled(a: AppInfo): (r: AppInfo)
    ensures r.packageName == a.packageName && r.name == a.name
    ensures r.blocked != a.blocked
  {
    a.(blocked := !a.blocked)
  }

  /** Two clicks restore the record. */
  lemma ToggledTwice(a: AppInfo)
    ensures Toggled(Toggled(a)) == a
  {
  }

  /** The store agrees with the platform's icons: everything it holds is that package's icon. */
  predicate StoreAgrees(store: map<string, Drawable>, icons: map<string, Drawable>)
  {
    forall p :: p in store ==> p in icons && store[p] == icons[p]
  }

  /** `getIconDrawable` as a value: the stored icon on a hit; on a miss the platform's
      icon (`icons`, where a missing key is a null `getAppIcon`), stored only when there is one. */
  function LookUpIcon(store: map<string, Drawable>, icons: map<string, Drawable>, packageName: string)
    : (r: (Option<Drawable>, map<string, Drawable>))
    ensures packageName in store ==> r == (Some(store[packageName]), store)
    ensures packageName !in store && packageName !in icons ==> r == (None, store)
    ensures packageName !in store && packageName in icons ==>
      r.0 == Some(icons[packageName]) && r.1 == store[packageName := icons[packageName]]
    ensures r.1.Keys == store.Keys + if r.0.Some? then {packageName} else {}
    ensures StoreAgrees(store, icons) ==>
      StoreAgrees(r.1, icons) && r.0 == (if packageName in icons then Some(icons[packageName]) else None)
  {
    if packageName in store then (Some(store[packageName]), store)
    else if packageName in icons then (Some(icons[packageName]), store[packageName := icons[packageName]])
    else (None, store)
  }

  /** Memoisation is invisible: from a store that agrees with the platform (the empty one
      included), any sequence of lookups
      answers exactly what the platform would, and the store stays in agreement. */
  lemma {:induction false} LookUpsAgree(store: map<string, Drawable>, icons: map<string, Drawable>,
                                        queries: seq<string>)
    requires StoreAgrees(store, icons)
    ensures StoreAgrees(LookUpAll(store, icons, queries).1, icons)
    ensures forall i :: 0 <= i < |queries| ==>
      LookUpAll(store, icons, queries).0[i] == if queries[i] in icons then Some(icons[queries[i]]) else None
    decreases |queries|
  {
    if queries != [] {
      var (icon, next) := LookUpIcon(store, icons, queries[0]);
      LookUpsAgree(next, icons, queries[1..]);
    }
  }

  /** The icons a run of `onBindViewHolder` calls would get, and the store afterwards. */
  function LookUpAll(store: map<string, Drawable>, icons: map<string, Drawable>, queries: seq<string>)
    : (r: (seq<Option<Drawable>>, map<string, Drawable>))
    ensures |r.0| == |queries|
    decreases |queries|
  {
    if queries == [] then ([], store)
    else
      var (icon, next) := LookUpIcon(store, icons, queries[0]);
      var (rest, last) := LookUpAll(next, icons, queries[1..]);
      ([icon] + rest, last)
  }

  /** The adapter's state: the shown records and the icon store. */
  class AppListAdapter {
    var items: seq<AppInfo>
    var iconStore: map<string, Drawable>

    constructor ()
      ensures items == [] && iconStore == map[]
    {
      items := [];
      iconStore := map[];
    }

    /** `getItemCount`. */
    function ItemCount(): nat
      reads this
    {
      |items|
    }

    /** `setItems`: the diff is computed against the old items, then the new ones are shown. */
    method SetItems(l: seq<AppInfo>) returns (diff: DiffCallback)
      modifies this
      ensures diff.newItems == l && diff.oldItems == old(items)
      ensures diff.OldListSize() == old(ItemCount()) && diff.NewListSize() == |l|
      ensures items == l && ItemCount() == |l|
      ensures iconStore == old(iconStore)
    {
      diff := DiffCallback(l, items);
      items := l;
    }

    /** `getIconDrawable(packageName)` against the platform's icons `icons`. */
    method GetIconDrawable(packageName: string, icons: map<string, Drawable>) returns (icon: Option<Drawable>)
      modifies this
      ensures (icon, iconStore) == LookUpIcon(old(iconStore), icons, packageName)
      ensures items == old(items)
    {
      if packageName in iconStore {
        icon := Some(iconStore[packageName]);
      } else if packageName in icons {
        icon := Some(icons[packageName]);
        iconStore := iconStore[packageName := icon.value];
      } else {
        icon := None;
      }
    }

    /** A click on the row at `position`: its record's flag flips in place and the flipped
        record goes to the block listener. */
    method OnItemClick(position: nat) returns (clicked: AppInfo)
      requires position < |items|
      modifies this
      ensures clicked == Toggled(old(items)[position])
      ensures items == old(items)[position := clicked]
      ensures iconStore == old(iconStore)
    {
      clicked := Toggled(items[position]);
      items := items[position := clicked];
    }
  }
}
