/**
 * The single-slot reroll of the `/api/random/stratagem` handler: build one
 * admissible pool and pick one name from it, or report that no stratagem is
 * available.
 */
module Reroll {
  import opened Wrappers
  import opened Seqs
  import opened Catalog
  import opened Modes
  import opened Random
  import opened Sampler

  /**
   * The pool the handler picks from: the Only category's list as it is, or else
   * the pool of every category not marked No, minus the excluded names.
   */
  function RerollPool(c: Catalog, m: ModeMap, exclude: seq<string>): seq<string> {
    match OnlyCategory(m)
    case Some(k) => c.Names(k)
    case None => Without(Pool(c, m), exclude)
  }

  /** Which names the reroll pool holds, in each branch. */
  lemma RerollPoolMembership(c: Catalog, m: ModeMap, exclude: seq<string>)
    ensures OnlyCategory(m).Some? ==>
      forall x :: x in RerollPool(c, m, exclude) <==> x in c.Names(OnlyCategory(m).value)
    ensures OnlyCategory(m).None? ==>
      forall x :: x in RerollPool(c, m, exclude) <==> Admissible(c, m, x) && x !in exclude
  {
    PoolMembership(c, m);
  }

  /**
   * The handler's pool building and pick: `None` stands for the 404 "no stratagems
   * available" answer.
   */
  method RerollStratagem(c: Catalog, options: map<Category, Mode>, exclude: seq<string>)
    returns (pick: Option<string>)
    ensures pick.None? <==> RerollPool(c, Merge(options), exclude) == []
    ensures pick.Some? ==> pick.value in RerollPool(c, Merge(options), exclude)
    ensures var m := Merge(options); OnlyCategory(m).None? && pick.Some? ==>
      pick.value !in exclude && Admissible(c, m, pick.value)
    ensures var m := Merge(options); OnlyCategory(m).Some? && pick.Some? ==>
      pick.value in c.Names(OnlyCategory(m).value)
  {
    var m := Merge(options);
    RerollPoolMembership(c, m, exclude);
    var names: seq<string>;
    var only := OnlyCategory(m);
    if only.Some? {
      names := c.Names(only.value);
    } else {
      var excluded := CategoriesWith(m, No);
      names := BuildPool(c, excluded);
      names := Without(names, exclude);
    }
    if |names| == 0 {
      return None;
    }
    var r :| 0.0 <= r < 1.0;
    pick := Some(names[RandomIndex(r, |names|)]);
  }

  /**
   * As written, the Only branch ignores the exclusion list: with Defense = ["A"] set
   * to Only and "A" still on screen, the reroll can only hand back "A" again.
   */
  lemma OnlyRerollRepeatsExcluded()
    ensures var c := Catalog(["A"], [], [], []);
      RerollPool(c, Merge(map[Defense := Only]), ["A"]) == ["A"]
  {
  }

  /** The pool with the exclusion list applied in both branches. */
  function ExcludingRerollPool(c: Catalog, m: ModeMap, exclude: seq<string>): (r: seq<string>)
    ensures forall x :: x in r ==> x !in exclude
    ensures OnlyCategory(m).Some? ==>
      forall x :: x in r <==> x in c.Names(OnlyCategory(m).value) && x !in exclude
    ensures OnlyCategory(m).None? ==> r == RerollPool(c, m, exclude)
  {
    match OnlyCategory(m)
    case Some(k) => Without(c.Names(k), exclude)
    case None => Without(Pool(c, m), exclude)
  }
}
