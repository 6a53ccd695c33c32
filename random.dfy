/**
 * Uniform picks. `Math.random()` is modelled as an arbitrary real `r` with
 * `0 <= r < 1`, so `Math.floor(Math.random() * n)` becomes `RandomIndex(r, n)`,
 * and every property is proved for every such `r`.
 */
module Random {
  import opened Wrappers

  /** `Math.floor(r * n)`: always a valid index of an n-element list. */
  function RandomIndex(r: real, n: nat): (i: nat)
    requires 0.0 <= r < 1.0 && 0 < n
    ensures i < n
  {
    assert r * n as real < 1.0 * n as real;
    (r * n as real).Floor
  }

  /** Every index of an n-element list is drawn for some value of the random source. */
  lemma RandomIndexCovers(n: nat, i: nat)
    requires i < n
    ensures exists r :: 0.0 <= r < 1.0 && RandomIndex(r, n) == i
  {
    var r := i as real / n as real;
    assert r * n as real == i as real;
    assert RandomIndex(r, n) == i;
  }

  /** `getRandomItem(array)`: null for a missing or empty list, else one of its elements. */
  function GetRandomItem<T>(list: Option<seq<T>>, r: real): (item: Option<T>)
    requires 0.0 <= r < 1.0
    ensures item.None? <==> list.None? || |list.value| == 0
    ensures item.Some? ==> item.value in list.value
  {
    if list.None? || |list.value| == 0 then None
    else Some(list.value[RandomIndex(r, |list.value|)])
  }

  /** The pick can land on any element of a non-empty list. */
  lemma GetRandomItemReachesAll<T>(list: seq<T>, i: nat)
    requires i < |list|
    ensures exists r :: 0.0 <= r < 1.0 && GetRandomItem(Some(list), r) == Some(list[i])
  {
    RandomIndexCovers(|list|, i);
    var r :| 0.0 <= r < 1.0 && RandomIndex(r, |list|) == i;
    assert GetRandomItem(Some(list), r) == Some(list[i]);
  }

  /** `records.find(item => item.name === name)`: the first record carrying that name. */
  function FindByName<R(==)>(records: seq<R>, nameOf: R -> string, name: string): (found: Option<R>)
    ensures found.Some? ==> found.value in records && nameOf(found.value) == name
    ensures found.Some? ==> exists i :: 0 <= i < |records| && records[i] == found.value &&
                              forall j :: 0 <= j < i ==> nameOf(records[j]) != name
    ensures found.None? <==> forall i :: 0 <= i < |records| ==> nameOf(records[i]) != name
  {
    if records == [] then None
    else if nameOf(records[0]) == name then Some(records[0])
    else
      var rest := FindByName(records[1..], nameOf, name);
      assert forall i :: 0 < i < |records| ==> records[i] == records[1..][i - 1];
      if rest.Some? then
        var i :| 0 <= i < |records[1..]| && records[1..][i] == rest.value &&
                 forall j :: 0 <= j < i ==> nameOf(records[1..][j]) != name;
        assert records[i + 1] == rest.value;
        rest
      else rest
  }

  /** The names of a record list, in order (`itemsData.PRIMARY.map(item => item.name)`). */
  function NamesOf<R>(records: seq<R>, nameOf: R -> string): (names: seq<string>)
    ensures |names| == |records|
    ensures forall i :: 0 <= i < |records| ==> names[i] == nameOf(records[i])
  {
    seq(|records|, i requires 0 <= i < |records| => nameOf(records[i]))
  }

  /** What `getRandomItemWithData` yields: null, undefined (no record found), or a record. */
  datatype Lookup<R> = NoList | NotFound(name: string) | Found(record: R)

  /**
   * `getRandomItemWithData(itemsArray, itemsData, category)`: pick a name uniformly and
   * return the first record of `itemsData[category]` carrying it.
   */
  function GetRandomItemWithData<R(==)>(itemsArray: Option<seq<string>>, itemsData: map<string, seq<R>>,
                                    nameOf: R -> string, category: string, r: real): (res: Lookup<R>)
    requires 0.0 <= r < 1.0
    requires itemsArray.Some? && |itemsArray.value| > 0 ==> category in itemsData
    ensures res.NoList? <==> itemsArray.None? || |itemsArray.value| == 0
    ensures res.Found? ==> res.record in itemsData[category] && nameOf(res.record) in itemsArray.value
    ensures res.Found? ==> exists i :: 0 <= i < |itemsData[category]| && itemsData[category][i] == res.record &&
                              forall j :: 0 <= j < i ==> nameOf(itemsData[category][j]) != nameOf(res.record)
    ensures res.NotFound? ==> res.name in itemsArray.value &&
                              forall rec :: rec in itemsData[category] ==> nameOf(rec) != res.name
  {
    match GetRandomItem(itemsArray, r)
    case None => NoList
    case Some(name) =>
      match FindByName(itemsData[category], nameOf, name)
      case None => NotFound(name)
      case Some(rec) => Found(rec)
  }

  /**
   * When the name list is the one the loader derives from the same records, the lookup
   * always finds a record, and the record's name was one of the list's names.
   */
  lemma GetRandomItemWithDataFinds<R>(itemsData: map<string, seq<R>>, nameOf: R -> string,
                                      category: string, r: real)
    requires 0.0 <= r < 1.0 && category in itemsData && |itemsData[category]| > 0
    ensures GetRandomItemWithData(Some(NamesOf(itemsData[category], nameOf)), itemsData, nameOf, category, r).Found?
  {
  }
}
