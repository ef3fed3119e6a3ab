/** The preference converter for `MutableList<AppInfo>` that the application
    registers at start-up (App.kt): a list is stored as its record encodings
    joined by "::". */
module PrefConverter {
  import opened Wrappers
  import opened Strings
  import opened AppInfos

  const ListDelimiter: string := "::"

  /** `onSerialize`: `joinToString("::") { it.serialize() }`. */
  function SerializeList(l: seq<AppInfo>): string
  {
    Join(Encodings(l), ListDelimiter)
  }

  function Encodings(l: seq<AppInfo>): seq<string>
  {
    seq(|l|, i requires 0 <= i < |l| => Serialize(l[i]))
  }

  /** Some part is not a record encoding. */
  predicate SomePartFails(parts: seq<string>)
  {
    exists i :: 0 <= i < |parts| && Deserialize(parts[i]).None?
  }

  /** `map { AppInfo.deserialize(item) }`: one record per part, in order; None when any part fails. */
  function DeserializeAll(parts: seq<string>): (r: Option<seq<AppInfo>>)
    ensures r.None? <==> SomePartFails(parts)
    ensures r.Some? ==> |r.value| == |parts|
    ensures r.Some? ==> forall i :: 0 <= i < |parts| ==> Deserialize(parts[i]) == Some(r.value[i])
  {
    if parts == [] then Some([])
    else
      match Deserialize(parts[0])
      case None => None
      case Some(a) =>
        match DeserializeAll(parts[1..])
        case None => None
        case Some(rest) => Some([a] + rest)
  }

  /** `onDeserialize`: the empty string is the empty list, anything else one record
      per "::"-separated part; None when some part is not a record. */
  function DeserializeList(raw: string): (r: Option<seq<AppInfo>>)
    ensures raw == [] ==> r == Some([])
    ensures raw != [] ==> (r.None? <==> SomePartFails(Split(raw, ListDelimiter)))
    ensures raw != [] && r.Some? ==> |r.value| == |Split(raw, ListDelimiter)|
    ensures raw != [] && r.Some? ==>
      forall i :: 0 <= i < |r.value| ==> Deserialize(Split(raw, ListDelimiter)[i]) == Some(r.value[i])
  {
    if raw == [] then Some([])
    else
      var parts := Split(raw, ListDelimiter);
      DeserializeAll(parts)
  }

  /** A record that survives the list encoding: no field holds either delimiter. */
  predicate Storable(a: AppInfo)
  {
    Encodable(a) && !ContainsText(a.packageName, ListDelimiter) && !ContainsText(a.name, ListDelimiter)
  }

  /** The encoding of a storable record holds no "::" and ends with the 'e' of "true"/"false". */
  lemma SerializeAvoidsListDelimiter(a: AppInfo)
    requires Storable(a)
    ensures !ContainsText(Serialize(a), ListDelimiter)
    ensures Serialize(a)[|Serialize(a)| - 1] == 'e'
  {
    var d := ListDelimiter;
    var flag := BoolText(a.blocked);
    WithoutFirstChar(Separator, d);
    WithoutFirstChar(flag, d);
    var t1 := a.packageName + Separator;
    ConcatAvoidsPair(a.packageName, Separator, d);
    var t2 := t1 + a.name;
    assert t1[|t1| - 1] == '>';
    ConcatAvoidsPair(t1, a.name, d);
    var t3 := t2 + Separator;
    ConcatAvoidsPair(t2, Separator, d);
    assert flag[0] in flag;
    ConcatAvoidsPair(t3, flag, d);
    assert Serialize(a) == t3 + flag;
  }

  /** The stored string splits back into the record encodings, in list order. */
  lemma SerializeListSegments(l: seq<AppInfo>)
    requires |l| > 0
    requires forall i :: 0 <= i < |l| ==> Storable(l[i])
    ensures Split(SerializeList(l), ListDelimiter) == Encodings(l)
  {
    var encs := Encodings(l);
    forall i | 0 <= i < |encs|
      ensures EndsCleanly(encs[i], ListDelimiter) && !ContainsText(encs[i], ListDelimiter)
    {
      SerializeAvoidsListDelimiter(l[i]);
      DoubleColonEndsCleanly(encs[i]);
    }
    SplitOfJoin(encs, ListDelimiter);
  }

  /** Round trip: a list of storable records reads back as the same list; the
      empty list is stored as "" and reads back as the empty list. */
  lemma DeserializeSerializeList(l: seq<AppInfo>)
    requires forall i :: 0 <= i < |l| ==> Storable(l[i])
    ensures DeserializeList(SerializeList(l)) == Some(l)
  {
    if l != [] {
      var encs := Encodings(l);
      SerializeListSegments(l);
      JoinStartsWithFirst(encs, ListDelimiter);
      assert |Serialize(l[0])| > 0;
      forall i | 0 <= i < |l| ensures Deserialize(encs[i]) == Some(l[i]) {
        DeserializeSerialize(l[i]);
      }
      var r := DeserializeAll(encs);
      assert r.Some?;
      assert r.value == l;
    }
  }
}
