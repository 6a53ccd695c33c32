/**
 * Per-category selection modes and how the sampler classifies them: the merge
 * with the all-Normal defaults, the exclusive Only category, and the lists of
 * Heavy, Light and No categories.
 */
module Modes {
  import opened Wrappers
  import opened Seqs
  import opened Catalog

  /** The five mode strings the sampler compares against; any other string acts as Normal. */
  datatype Mode = Normal | Heavy | Light | No | Only

  /** A mode for every category. */
  datatype ModeMap = ModeMap(defense: Mode, eagles: Mode, orbitals: Mode, support: Mode)
  {
    function Of(k: Category): Mode {
      match k
      case Defense => defense
      case Eagles => eagles
      case Orbitals => orbitals
      case Support => support
    }
  }

  function OptionOr(options: map<Category, Mode>, k: Category): Mode {
    if k in options then options[k] else Normal
  }

  /** `{ ...defaultOptions, ...options }`: a given mode wins, a missing one is Normal. */
  function Merge(options: map<Category, Mode>): (m: ModeMap)
    ensures forall k :: k in options ==> m.Of(k) == options[k]
    ensures forall k :: k !in options ==> m.Of(k) == Normal
  {
    ModeMap(OptionOr(options, Defense), OptionOr(options, Eagles),
            OptionOr(options, Orbitals), OptionOr(options, Support))
  }

  /**
   * The first category, in category order, whose mode is Only; None when there is
   * none. Later Only categories are ignored.
   */
  function OnlyCategory(m: ModeMap): (r: Option<Category>)
    ensures r.None? <==> forall k :: m.Of(k) != Only
    ensures r.Some? ==> m.Of(r.value) == Only
    ensures r.Some? ==> forall k :: Rank(k) < Rank(r.value) ==> m.Of(k) != Only
  {
    if m.defense == Only then assert m.Of(Defense) == Only; Some(Defense)
    else if m.eagles == Only then assert m.Of(Eagles) == Only; Some(Eagles)
    else if m.orbitals == Only then assert m.Of(Orbitals) == Only; Some(Orbitals)
    else if m.support == Only then assert m.Of(Support) == Only; Some(Support)
    else None
  }

  /** Categories listed in strictly increasing `Rank`. */
  predicate InRankOrder(cats: seq<Category>) {
    forall i, j :: 0 <= i < j < |cats| ==> Rank(cats[i]) < Rank(cats[j])
  }

  /** The categories of `cats` whose mode is `mode`, in the order of `cats`. */
  function Select(m: ModeMap, cats: seq<Category>, mode: Mode): (r: seq<Category>)
    ensures forall k :: k in r <==> k in cats && m.Of(k) == mode
    ensures NoDuplicates(cats) ==> NoDuplicates(r)
  {
    if cats == [] then []
    else
      var rest := Select(m, cats[1..], mode);
      assert forall k :: k in cats <==> k == cats[0] || k in cats[1..];
      if m.Of(cats[0]) != mode then rest
      else
        assert NoDuplicates(cats) ==> cats[0] !in cats[1..] && NoDuplicates(cats[1..]);
        [cats[0]] + rest
  }

  /** Selecting keeps the order of `cats`. */
  lemma {:induction false} SelectInRankOrder(m: ModeMap, cats: seq<Category>, mode: Mode)
    requires InRankOrder(cats)
    ensures InRankOrder(Select(m, cats, mode))
  {
    if cats != [] {
      var tail := cats[1..];
      assert InRankOrder(tail);
      SelectInRankOrder(m, tail, mode);
      if m.Of(cats[0]) == mode {
        var rest := Select(m, tail, mode);
        forall k | k in rest ensures Rank(cats[0]) < Rank(k) {
          var i :| 0 <= i < |tail| && tail[i] == k;
          assert cats[i + 1] == k;
        }
        ConsInRankOrder(cats[0], rest);
      }
    }
  }

  lemma ConsInRankOrder(k: Category, rest: seq<Category>)
    requires InRankOrder(rest) && forall k' :: k' in rest ==> Rank(k) < Rank(k')
    ensures InRankOrder([k] + rest)
  {
    var r := [k] + rest;
    forall i, j | 0 <= i < j < |r| ensures Rank(r[i]) < Rank(r[j]) {
      assert r[j] == rest[j - 1];
      if i > 0 {
        assert r[i] == rest[i - 1];
      }
    }
  }

  /**
   * `Object.entries(categoryOptions).filter(([_, v]) => v === mode).map(([k]) => k)`:
   * each category with that mode, once.
   */
  function CategoriesWith(m: ModeMap, mode: Mode): (r: seq<Category>)
    ensures forall k :: k in r <==> m.Of(k) == mode
    ensures NoDuplicates(r)
    ensures InRankOrder(r)
  {
    CategoriesComplete();
    SelectInRankOrder(m, Categories, mode);
    Select(m, Categories, mode)
  }
}
