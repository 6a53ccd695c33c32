/**
 * `getRandomStratagems`: draw up to `count` stratagem names honouring the
 * per-category modes. With an Only category it draws from that category alone;
 * otherwise it draws up to two names from each Heavy category, one from each
 * Light category, and tops up from the pool of every category not marked No,
 * discarding a second name from a Light category.
 */
module Sampler {
  import opened Wrappers
  import opened Seqs
  import opened Catalog
  import opened Modes
  import opened Random

  /** The number of stratagems drawn when the caller gives no count. */
  const DefaultCount: nat := 4

  function Min(a: nat, b: nat): nat {
    if a < b then a else b
  }

  /** The names the general branch draws from: every category not marked No, in category order. */
  function Pool(c: Catalog, m: ModeMap): seq<string> {
    Gather(c, Categories, CategoriesWith(m, No))
  }

  /** `x` is listed in some category that is not marked No. */
  ghost predicate Admissible(c: Catalog, m: ModeMap, x: string) {
    exists k :: m.Of(k) != No && x in c.Names(k)
  }

  /** The pool holds exactly the admissible names, each once when names are unique. */
  lemma PoolMembership(c: Catalog, m: ModeMap)
    ensures forall x :: x in Pool(c, m) <==> Admissible(c, m, x)
    ensures UniqueNames(c) ==> NoDuplicates(Pool(c, m))
  {
    CategoriesComplete();
    GatherMembership(c, Categories, CategoriesWith(m, No));
    if UniqueNames(c) {
      GatherNoDuplicates(c, Categories, CategoriesWith(m, No));
    }
  }

  /**
   * An empty pool means every category not marked No is empty, so the empty result
   * meets every guarantee of the general branch.
   */
  lemma EmptyPool(c: Catalog, m: ModeMap, count: nat)
    requires Pool(c, m) == []
    ensures forall k :: m.Of(k) != No ==> c.Names(k) == []
    ensures HeavyQuota(c, m, count, []) && LightFloor(c, m, count, []) && Filled(c, m, count, []) &&
      LightCap(c, m, [])
    ensures HeavyShare(c, CategoriesWith(m, Heavy), count, []) &&
      LightShare(c, CategoriesWith(m, Light), count, 2 * |CategoriesWith(m, Heavy)|, [])
  {
    PoolMembership(c, m);
    forall k | m.Of(k) != No ensures c.Names(k) == [] {
      if c.Names(k) != [] {
        assert Admissible(c, m, c.Names(k)[0]);
      }
    }
    EmptyResult(c, m, count);
  }

  /** When every category not marked No is empty, no quota asks for anything. */
  lemma EmptyResult(c: Catalog, m: ModeMap, count: nat)
    requires Pool(c, m) == [] && forall k :: m.Of(k) != No ==> c.Names(k) == []
    ensures HeavyQuota(c, m, count, []) && LightFloor(c, m, count, []) && Filled(c, m, count, []) &&
      LightCap(c, m, [])
    ensures HeavyShare(c, CategoriesWith(m, Heavy), count, []) &&
      LightShare(c, CategoriesWith(m, Light), count, 2 * |CategoriesWith(m, Heavy)|, [])
  {
    forall k ensures CountIn([], c.Names(k)) == 0 && (m.Of(k) == Heavy || m.Of(k) == Light ==> c.Names(k) == []) { }
  }

  /*
   * Facts about one state of the draw: `selected` so far, `available` (what is
   * left of the pool) and `used` (the Light categories that have contributed).
   */

  /** Every name of the pool is still available, already selected, or from a used Light category. */
  ghost predicate Accounted(c: Catalog, pool: seq<string>, selected: seq<string>, available: seq<string>,
                            used: set<Category>) {
    (forall x :: x in available ==> x in pool) &&
    (forall x :: x in pool ==> x in available || x in selected || exists l :: l in used && x in c.Names(l))
  }

  /** Nothing is selected twice and nothing selected is still available. */
  ghost predicate Distinct(selected: seq<string>, available: seq<string>) {
    NoDuplicates(selected) && NoDuplicates(available) && forall x :: x in selected ==> x !in available
  }

  /** Moving the available name at `index` into the selection keeps both sides distinct. */
  lemma DistinctMove(selected: seq<string>, available: seq<string>, index: nat)
    requires index < |available| && Distinct(selected, available)
    ensures Distinct(selected + [available[index]], Splice(available, index))
  {
    SpliceNoDuplicates(available, index);
    SpliceMembers(available, index);
    AppendNoDuplicates(selected, available[index]);
  }

  /** Selecting a fresh name and removing it from the pool keeps both sides distinct. */
  lemma DistinctPush(selected: seq<string>, available: seq<string>, x: string)
    requires Distinct(selected, available) && x !in selected
    ensures Distinct(selected + [x], RemoveFirst(available, x))
  {
    AppendNoDuplicates(selected, x);
  }

  ghost predicate AllAdmissible(c: Catalog, m: ModeMap, selected: seq<string>) {
    forall x :: x in selected ==> Admissible(c, m, x)
  }

  /** Every used category is a Light category that has contributed a name. */
  ghost predicate UsedContributed(c: Catalog, m: ModeMap, selected: seq<string>, used: set<Category>) {
    forall l :: l in used ==> m.Of(l) == Light && CountIn(selected, c.Names(l)) > 0
  }

  /** A Light category has contributed exactly one name if it is used, none otherwise. */
  ghost predicate LightTally(c: Catalog, m: ModeMap, selected: seq<string>, used: set<Category>) {
    forall l :: m.Of(l) == Light ==> CountIn(selected, c.Names(l)) == if l in used then 1 else 0
  }

  /** Each Heavy category has given two names (or all it has), unless every slot is filled. */
  ghost predicate HeavyQuota(c: Catalog, m: ModeMap, count: nat, selected: seq<string>) {
    forall h :: m.Of(h) == Heavy ==> |selected| == count || CountIn(selected, c.Names(h)) >= Min(2, |c.Names(h)|)
  }

  /** Each non-empty Light category has given a name, unless every slot is filled. */
  ghost predicate LightFloor(c: Catalog, m: ModeMap, count: nat, selected: seq<string>) {
    forall l :: m.Of(l) == Light && |c.Names(l)| > 0 ==> |selected| == count || CountIn(selected, c.Names(l)) > 0
  }

  /**
   * The Heavy pass in turn order: `heavy[j]` starts its turn with at most `2 * j` slots
   * taken, so it gives two names, or all it has, or every slot that is left.
   */
  ghost predicate HeavyShare(c: Catalog, heavy: seq<Category>, count: nat, selected: seq<string>) {
    forall j :: 0 <= j < |heavy| && 2 * j <= count ==>
      CountIn(selected, c.Names(heavy[j])) >= Min(Min(2, |c.Names(heavy[j])|), count - 2 * j)
  }

  /**
   * The Light pass in turn order, after `base` earlier picks: a non-empty `light[j]`
   * whose turn comes while `base + j < count` gives a name.
   */
  ghost predicate LightShare(c: Catalog, light: seq<Category>, count: nat, base: nat, selected: seq<string>) {
    forall j :: 0 <= j < |light| && base + j < count && |c.Names(light[j])| > 0 ==>
      CountIn(selected, c.Names(light[j])) > 0
  }

  /** No Light category has given more than one name. */
  ghost predicate LightCap(c: Catalog, m: ModeMap, selected: seq<string>) {
    forall l :: m.Of(l) == Light ==> CountIn(selected, c.Names(l)) <= 1
  }

  /**
   * A short result leaves nothing drawable behind: each pool name was selected or
   * belongs to a Light category that has already contributed.
   */
  ghost predicate Filled(c: Catalog, m: ModeMap, count: nat, selected: seq<string>) {
    |selected| < count ==>
      forall x :: x in Pool(c, m) ==>
        x in selected || exists l :: m.Of(l) == Light && x in c.Names(l) && CountIn(selected, c.Names(l)) > 0
  }

  /** The pool loop: the lists of the categories not in `excluded`, appended in category order. */
  method BuildPool(c: Catalog, excluded: seq<Category>) returns (pool: seq<string>)
    ensures pool == Gather(c, Categories, excluded)
  {
    pool := [];
    for n := 0 to |Categories|
      invariant pool == Gather(c, Categories[..n], excluded)
    {
      var k := Categories[n];
      assert Categories[..n + 1][..n] == Categories[..n];
      if k !in excluded {
        pool := pool + c.Names(k);
      }
    }
    assert Categories[..|Categories|] == Categories;
  }

  /** The loop that finds the first Light category listing `name`. */
  method FindLightCategory(c: Catalog, light: seq<Category>, name: string) returns (found: Option<Category>)
    ensures found.None? <==> forall l :: l in light ==> name !in c.Names(l)
    ensures found.Some? ==> exists n :: 0 <= n < |light| && light[n] == found.value && name in c.Names(light[n]) &&
                                        forall j :: 0 <= j < n ==> name !in c.Names(light[j])
  {
    found := None;
    for n := 0 to |light|
      invariant found.None?
      invariant forall j :: 0 <= j < n ==> name !in c.Names(light[j])
    {
      if name in c.Names(light[n]) {
        found := Some(light[n]);
        return;
      }
    }
  }

  /** The Only branch: up to `count` draws without replacement from one category's list. */
  method DrawOnly(names: seq<string>, count: nat) returns (selected: seq<string>)
    ensures |selected| == Min(count, |names|)
    ensures multiset(selected) <= multiset(names)
    ensures NoDuplicates(names) ==> NoDuplicates(selected)
  {
    var available := names;
    selected := [];
    var i := 0;
    while i < count && |available| > 0
      invariant i <= count && |selected| == i
      invariant multiset(selected) + multiset(available) == multiset(names)
      invariant |selected| + |available| == |names|
      invariant NoDuplicates(names) ==> Distinct(selected, available)
      decreases count - i
    {
      var r :| 0.0 <= r < 1.0;
      var index := RandomIndex(r, |available|);
      var x := available[index];
      if NoDuplicates(names) {
        DistinctMove(selected, available, index);
      }
      selected := selected + [x];
      available := Splice(available, index);
      i := i + 1;
    }
  }

  /**
   * One Heavy category's turn: draw from a copy of its list until it has given two
   * names, the copy is empty, or every slot is filled. How many names it adds is
   * fixed; which ones is up to the random source.
   */
  method HeavyTurn(c: Catalog, m: ModeMap, h: Category, count: nat, pool: seq<string>,
                   selected0: seq<string>, available0: seq<string>)
    returns (selected: seq<string>, available: seq<string>)
    requires |selected0| <= count
    requires Accounted(c, pool, selected0, available0, {})
    requires UniqueNames(c) ==> Distinct(selected0, available0) && forall x :: x in selected0 ==> x !in c.Names(h)
    ensures selected0 <= selected
    ensures |selected| == |selected0| + Min(Min(2, |c.Names(h)|), count - |selected0|)
    ensures forall x :: x in selected ==> x in selected0 || x in c.Names(h)
    ensures forall i :: |selected0| <= i < |selected| ==> selected[i] in c.Names(h)
    ensures CountIn(selected, c.Names(h)) >= CountIn(selected0, c.Names(h)) + |selected| - |selected0|
    ensures Accounted(c, pool, selected, available, {})
    ensures UniqueNames(c) ==> Distinct(selected, available)
  {
    selected, available := selected0, available0;
    var names := c.Names(h);
    var taken := 0;
    while taken < 2 && |names| > 0 && |selected| < count
      invariant |selected| <= count && selected0 <= selected && |selected| == |selected0| + taken
      invariant taken <= 2 && |names| + taken == |c.Names(h)|
      invariant forall x :: x in names ==> x in c.Names(h)
      invariant forall x :: x in selected ==> x in selected0 || x in c.Names(h)
      invariant forall i :: |selected0| <= i < |selected| ==> selected[i] in c.Names(h)
      invariant CountIn(selected, c.Names(h)) >= CountIn(selected0, c.Names(h)) + taken
      invariant Accounted(c, pool, selected, available, {})
      invariant UniqueNames(c) ==>
        Distinct(selected, available) && NoDuplicates(names) && forall x :: x in selected ==> x !in names
      decreases |names|
    {
      var r :| 0.0 <= r < 1.0;
      var index := RandomIndex(r, |names|);
      var x := names[index];
      SpliceMembers(names, index);
      if UniqueNames(c) {
        SpliceNoDuplicates(names, index);
        DistinctPush(selected, available, x);
      }
      CountInAppend(selected, x);
      selected := selected + [x];
      taken := taken + 1;
      names := Splice(names, index);
      available := RemoveFirst(available, x);
    }
  }

  /** The Heavy pass: one turn for each Heavy category, in category order. */
  method HeavyPass(c: Catalog, m: ModeMap, heavy: seq<Category>, count: nat, pool: seq<string>)
    returns (selected: seq<string>, available: seq<string>)
    requires heavy == CategoriesWith(m, Heavy)
    requires pool == Pool(c, m)
    ensures |selected| <= count && |selected| <= 2 * |heavy|
    ensures forall x :: x in selected ==> exists h :: m.Of(h) == Heavy && x in c.Names(h)
    ensures HeavyQuota(c, m, count, selected)
    ensures HeavyShare(c, heavy, count, selected)
    ensures UniqueNames(c) ==> forall j :: 0 <= j < |heavy| ==> CountIn(selected, c.Names(heavy[j])) <= 2
    ensures Accounted(c, pool, selected, available, {})
    ensures UniqueNames(c) ==> Distinct(selected, available)
  {
    PoolMembership(c, m);
    selected, available := [], pool;
    for n := 0 to |heavy|
      invariant |selected| <= count && |selected| <= 2 * n
      invariant forall x :: x in selected ==> exists j :: 0 <= j < n && x in c.Names(heavy[j])
      invariant forall j :: 0 <= j < n ==>
        |selected| == count || CountIn(selected, c.Names(heavy[j])) >= Min(2, |c.Names(heavy[j])|)
      invariant forall j :: 0 <= j < n && 2 * j <= count ==>
        CountIn(selected, c.Names(heavy[j])) >= Min(Min(2, |c.Names(heavy[j])|), count - 2 * j)
      invariant UniqueNames(c) ==> HeavyCap(c, heavy, n, selected)
      invariant Accounted(c, pool, selected, available, {})
      invariant UniqueNames(c) ==> Distinct(selected, available)
    {
      var h := heavy[n];
      if UniqueNames(c) {
        forall x | x in selected ensures x !in c.Names(h) {
          var j :| 0 <= j < n && x in c.Names(heavy[j]);
          assert heavy[j] != h;
        }
      }
      ghost var before := selected;
      selected, available := HeavyTurn(c, m, h, count, pool, selected, available);
      HeavyStep(c, heavy, count, n, before, selected);
      if UniqueNames(c) {
        HeavyCapStep(c, heavy, n, before, selected);
      }
    }
  }

  /** The first `n` Heavy categories have given at most two names each, the others none. */
  ghost predicate HeavyCap(c: Catalog, heavy: seq<Category>, n: nat, selected: seq<string>) {
    forall j :: 0 <= j < |heavy| ==> CountIn(selected, c.Names(heavy[j])) <= if j < n then 2 else 0
  }

  /**
   * With unique names, `heavy[n]`'s turn adds at most two names, all its own, so it
   * leaves every other category's count alone.
   */
  lemma HeavyCapStep(c: Catalog, heavy: seq<Category>, n: nat, before: seq<string>, selected: seq<string>)
    requires UniqueNames(c) && NoDuplicates(heavy) && n < |heavy|
    requires before <= selected && |selected| <= |before| + 2
    requires forall i :: |before| <= i < |selected| ==> selected[i] in c.Names(heavy[n])
    requires HeavyCap(c, heavy, n, before)
    ensures HeavyCap(c, heavy, n + 1, selected)
  {
    forall j | 0 <= j < |heavy|
      ensures CountIn(selected, c.Names(heavy[j])) <= if j < n + 1 then 2 else 0
    {
      CountInExtend(before, selected, c.Names(heavy[j]));
      if j != n {
        assert heavy[j] != heavy[n];
        assert forall i :: |before| <= i < |selected| ==> selected[i] !in c.Names(heavy[j]);
      }
    }
  }

  /** After `heavy[n]`'s turn, the quotas of the turns so far hold for `heavy[..n + 1]`. */
  lemma HeavyStep(c: Catalog, heavy: seq<Category>, count: nat, n: nat, before: seq<string>, selected: seq<string>)
    requires n < |heavy| && before <= selected && |selected| <= count && |before| <= 2 * n
    requires |selected| == |before| + Min(Min(2, |c.Names(heavy[n])|), count - |before|)
    requires CountIn(selected, c.Names(heavy[n])) >= CountIn(before, c.Names(heavy[n])) + |selected| - |before|
    requires forall j :: 0 <= j < n ==>
      |before| == count || CountIn(before, c.Names(heavy[j])) >= Min(2, |c.Names(heavy[j])|)
    requires forall j :: 0 <= j < n && 2 * j <= count ==>
      CountIn(before, c.Names(heavy[j])) >= Min(Min(2, |c.Names(heavy[j])|), count - 2 * j)
    ensures |selected| <= 2 * (n + 1)
    ensures forall j :: 0 <= j < n + 1 ==>
      |selected| == count || CountIn(selected, c.Names(heavy[j])) >= Min(2, |c.Names(heavy[j])|)
    ensures forall j :: 0 <= j < n + 1 && 2 * j <= count ==>
      CountIn(selected, c.Names(heavy[j])) >= Min(Min(2, |c.Names(heavy[j])|), count - 2 * j)
  {
    CountInPrefix(before, selected);
    forall j | 0 <= j < n + 1
      ensures |selected| == count || CountIn(selected, c.Names(heavy[j])) >= Min(2, |c.Names(heavy[j])|)
      ensures 2 * j <= count ==>
        CountIn(selected, c.Names(heavy[j])) >= Min(Min(2, |c.Names(heavy[j])|), count - 2 * j)
    {
      var names := c.Names(heavy[j]);
      if j < n {
        assert CountIn(before, names) <= CountIn(selected, names);
      } else {
        var taken := |selected| - |before|;
        assert CountIn(selected, names) >= taken;
        assert taken == Min(Min(2, |names|), count - |before|);
      }
    }
  }

  /** One Light-pass draw: a name of an unused Light category is selected and marks it used. */
  lemma LightStep(c: Catalog, m: ModeMap, pool: seq<string>, selected: seq<string>, available: seq<string>,
                  used: set<Category>, l: Category, x: string)
    requires m.Of(l) == Light && l !in used && x in c.Names(l)
    requires AllAdmissible(c, m, selected)
    requires UsedContributed(c, m, selected, used)
    requires Accounted(c, pool, selected, available, used)
    requires UniqueNames(c) ==> Distinct(selected, available) && LightTally(c, m, selected, used)
    ensures AllAdmissible(c, m, selected + [x])
    ensures UsedContributed(c, m, selected + [x], used + {l})
    ensures Accounted(c, pool, selected + [x], RemoveFirst(available, x), used + {l})
    ensures UniqueNames(c) ==>
      Distinct(selected + [x], RemoveFirst(available, x)) && LightTally(c, m, selected + [x], used + {l})
  {
    assert m.Of(l) != No;
    CountInAppend(selected, x);
    if UniqueNames(c) {
      CountInZero(selected, c.Names(l));
      DistinctPush(selected, available, x);
      forall l' | m.Of(l') == Light && l' != l ensures x !in c.Names(l') { }
    }
  }

  /** One Light category's turn: a non-empty list gives one name and marks the category used. */
  method LightTurn(c: Catalog, m: ModeMap, l: Category, pool: seq<string>,
                   selected0: seq<string>, available0: seq<string>, used0: set<Category>)
    returns (selected: seq<string>, available: seq<string>, used: set<Category>)
    requires m.Of(l) == Light && l !in used0
    requires AllAdmissible(c, m, selected0)
    requires UsedContributed(c, m, selected0, used0)
    requires Accounted(c, pool, selected0, available0, used0)
    requires UniqueNames(c) ==> Distinct(selected0, available0) && LightTally(c, m, selected0, used0)
    ensures selected0 <= selected && |selected| == |selected0| + (if |c.Names(l)| > 0 then 1 else 0)
    ensures forall x :: x in selected ==> x in selected0 || x in c.Names(l)
    ensures used == if |c.Names(l)| > 0 then used0 + {l} else used0
    ensures used0 <= used && (|c.Names(l)| > 0 ==> l in used)
    ensures AllAdmissible(c, m, selected)
    ensures UsedContributed(c, m, selected, used)
    ensures Accounted(c, pool, selected, available, used)
    ensures UniqueNames(c) ==> Distinct(selected, available) && LightTally(c, m, selected, used)
  {
    selected, available, used := selected0, available0, used0;
    var names := c.Names(l);
    if |names| > 0 {
      var r :| 0.0 <= r < 1.0;
      var x := names[RandomIndex(r, |names|)];
      LightStep(c, m, pool, selected, available, used, l, x);
      selected := selected + [x];
      used := used + {l};
      available := RemoveFirst(available, x);
    }
  }

  /**
   * The Light pass: one draw from each non-empty Light category, in category order,
   * stopping once the slots are filled.
   */
  method LightPass(c: Catalog, m: ModeMap, light: seq<Category>, count: nat, pool: seq<string>,
                   selected0: seq<string>, available0: seq<string>)
    returns (selected: seq<string>, available: seq<string>, used: set<Category>)
    requires NoDuplicates(light) && forall l :: l in light <==> m.Of(l) == Light
    requires |selected0| <= count
    requires forall x :: x in selected0 ==> exists h :: m.Of(h) == Heavy && x in c.Names(h)
    requires Accounted(c, pool, selected0, available0, {})
    requires UniqueNames(c) ==> Distinct(selected0, available0)
    ensures |selected| <= count && selected0 <= selected
    ensures AllAdmissible(c, m, selected)
    ensures UsedContributed(c, m, selected, used)
    ensures LightFloor(c, m, count, selected)
    ensures LightShare(c, light, count, |selected0|, selected)
    ensures Accounted(c, pool, selected, available, used)
    ensures UniqueNames(c) ==> Distinct(selected, available) && LightTally(c, m, selected, used)
  {
    selected, available, used := selected0, available0, {};
    HeavyPicksBeforeLight(c, m, selected0);
    var n := 0;
    while n < |light| && |selected| < count
      invariant n <= |light|
      invariant |selected| <= count && selected0 <= selected && |selected| <= |selected0| + n
      invariant AllAdmissible(c, m, selected)
      invariant forall l :: l in used ==> l in light[..n]
      invariant UsedContributed(c, m, selected, used)
      invariant forall l :: l in light[..n] && |c.Names(l)| > 0 ==> l in used
      invariant Accounted(c, pool, selected, available, used)
      invariant UniqueNames(c) ==> Distinct(selected, available) && LightTally(c, m, selected, used)
    {
      var l := light[n];
      assert l !in used;
      selected, available, used := LightTurn(c, m, l, pool, selected, available, used);
      n := n + 1;
    }
    LightTurnsTaken(c, m, light, count, n, selected0, selected, used);
  }

  /** Names drawn from Heavy categories are admissible and count for no Light category. */
  lemma HeavyPicksBeforeLight(c: Catalog, m: ModeMap, selected: seq<string>)
    requires forall x :: x in selected ==> exists h :: m.Of(h) == Heavy && x in c.Names(h)
    ensures AllAdmissible(c, m, selected)
    ensures UniqueNames(c) ==> LightTally(c, m, selected, {})
  {
    forall x | x in selected ensures Admissible(c, m, x) {
      var h :| m.Of(h) == Heavy && x in c.Names(h);
    }
    if UniqueNames(c) {
      forall l | m.Of(l) == Light ensures CountIn(selected, c.Names(l)) == 0 {
        forall x | x in selected ensures x !in c.Names(l) {
          var h :| m.Of(h) == Heavy && x in c.Names(h);
        }
        CountInZero(selected, c.Names(l));
      }
    }
  }

  /**
   * When the Light pass stops (every category had its turn, or the slots ran out),
   * the floor holds and every turn that came while a slot was free gave a name.
   */
  lemma LightTurnsTaken(c: Catalog, m: ModeMap, light: seq<Category>, count: nat, n: nat,
                        selected0: seq<string>, selected: seq<string>, used: set<Category>)
    requires forall l :: l in light <==> m.Of(l) == Light
    requires n <= |light| && (n == |light| || |selected| >= count)
    requires |selected| <= count && |selected| <= |selected0| + n
    requires UsedContributed(c, m, selected, used)
    requires forall l :: l in light[..n] && |c.Names(l)| > 0 ==> l in used
    ensures LightFloor(c, m, count, selected)
    ensures LightShare(c, light, count, |selected0|, selected)
  {
    assert forall j :: 0 <= j < n ==> light[j] in light[..n];
    forall l | m.Of(l) == Light && |c.Names(l)| > 0 && |selected| < count
      ensures CountIn(selected, c.Names(l)) > 0
    {
      var j :| 0 <= j < |light| && light[j] == l;
    }
  }

  /** A discarded draw (a second name from a used Light category) keeps the bookkeeping. */
  lemma DiscardStep(c: Catalog, pool: seq<string>, selected: seq<string>, available: seq<string>,
                    used: set<Category>, index: nat, l: Category)
    requires index < |available| && l in used && available[index] in c.Names(l)
    requires Accounted(c, pool, selected, available, used)
    ensures Accounted(c, pool, selected, Splice(available, index), used)
    ensures Distinct(selected, available) ==> Distinct(selected, Splice(available, index))
  {
    SpliceMembers(available, index);
    if NoDuplicates(available) {
      SpliceNoDuplicates(available, index);
    }
  }

  /** An accepted top-up draw keeps every fact of the state, marking its Light category as used. */
  lemma AcceptStep(c: Catalog, m: ModeMap, light: seq<Category>, pool: seq<string>, selected: seq<string>,
                   available: seq<string>, used: set<Category>, index: nat, found: Option<Category>)
    requires light == CategoriesWith(m, Light) && pool == Pool(c, m)
    requires index < |available|
    requires found.None? <==> forall l :: l in light ==> available[index] !in c.Names(l)
    requires found.Some? ==> found.value in light && available[index] in c.Names(found.value) && found.value !in used
    requires AllAdmissible(c, m, selected)
    requires UsedContributed(c, m, selected, used)
    requires Accounted(c, pool, selected, available, used)
    requires UniqueNames(c) ==> Distinct(selected, available) && LightTally(c, m, selected, used)
    ensures var x, used' := available[index], if found.Some? then used + {found.value} else used;
      AllAdmissible(c, m, selected + [x]) &&
      UsedContributed(c, m, selected + [x], used') &&
      Accounted(c, pool, selected + [x], Splice(available, index), used') &&
      (UniqueNames(c) ==> Distinct(selected + [x], Splice(available, index)) &&
                          LightTally(c, m, selected + [x], used'))
  {
    var x, used' := available[index], if found.Some? then used + {found.value} else used;
    PoolMembership(c, m);
    SpliceMembers(available, index);
    CountInAppend(selected, x);
    if UniqueNames(c) {
      DistinctMove(selected, available, index);
      forall l | m.Of(l) == Light
        ensures CountIn(selected + [x], c.Names(l)) == if l in used' then 1 else 0
      {
        if found.Some? && l == found.value {
        } else {
          assert x !in c.Names(l);
        }
      }
    }
  }

  /**
   * The top-up loop: draw from what is left of the pool until every slot is filled or
   * the pool is empty; a draw from a Light category that has already contributed is
   * discarded, never retried. Every iteration takes the drawn name out of `available`.
   */
  method FillLoop(c: Catalog, m: ModeMap, light: seq<Category>, count: nat, pool: seq<string>,
                  selected0: seq<string>, available0: seq<string>, used0: set<Category>)
    returns (selected: seq<string>)
    requires light == CategoriesWith(m, Light)
    requires pool == Pool(c, m)
    requires |selected0| <= count
    requires AllAdmissible(c, m, selected0)
    requires UsedContributed(c, m, selected0, used0)
    requires Accounted(c, pool, selected0, available0, used0)
    requires UniqueNames(c) ==> Distinct(selected0, available0) && LightTally(c, m, selected0, used0)
    ensures |selected| <= count && selected0 <= selected
    ensures AllAdmissible(c, m, selected)
    ensures Filled(c, m, count, selected)
    ensures UniqueNames(c) ==> NoDuplicates(selected) && LightCap(c, m, selected)
  {
    PoolMembership(c, m);
    var available, used := available0, used0;
    selected := selected0;
    while |selected| < count && |available| > 0
      invariant |selected| <= count && selected0 <= selected
      invariant AllAdmissible(c, m, selected)
      invariant UsedContributed(c, m, selected, used)
      invariant Accounted(c, pool, selected, available, used)
      invariant UniqueNames(c) ==> Distinct(selected, available) && LightTally(c, m, selected, used)
      decreases |available|
    {
      var r :| 0.0 <= r < 1.0;
      var index := RandomIndex(r, |available|);
      var x := available[index];
      var lightCategory := FindLightCategory(c, light, x);
      if lightCategory.Some? && lightCategory.value in used {
        DiscardStep(c, pool, selected, available, used, index, lightCategory.value);
        available := Splice(available, index);
      } else {
        AcceptStep(c, m, light, pool, selected, available, used, index, lightCategory);
        selected := selected + [x];
        if lightCategory.Some? {
          used := used + {lightCategory.value};
        }
        available := Splice(available, index);
      }
    }
  }

  /** The Heavy pass followed by the Light pass, with what the top-up loop starts from. */
  method QuotaPasses(c: Catalog, m: ModeMap, heavy: seq<Category>, light: seq<Category>, count: nat,
                     pool: seq<string>)
    returns (selected: seq<string>, available: seq<string>, used: set<Category>)
    requires heavy == CategoriesWith(m, Heavy) && light == CategoriesWith(m, Light)
    requires pool == Pool(c, m)
    ensures |selected| <= count
    ensures AllAdmissible(c, m, selected)
    ensures UsedContributed(c, m, selected, used)
    ensures HeavyQuota(c, m, count, selected) && LightFloor(c, m, count, selected)
    ensures HeavyShare(c, heavy, count, selected) && LightShare(c, light, count, 2 * |heavy|, selected)
    ensures Accounted(c, pool, selected, available, used)
    ensures UniqueNames(c) ==> Distinct(selected, available) && LightTally(c, m, selected, used)
  {
    selected, available := HeavyPass(c, m, heavy, count, pool);
    ghost var afterHeavy := selected;
    selected, available, used := LightPass(c, m, light, count, pool, selected, available);
    QuotasKept(c, m, count, afterHeavy, selected);
    SharesKept(c, heavy, light, count, |afterHeavy|, 2 * |heavy|, afterHeavy, selected);
    SharesKept(c, heavy, light, count, |afterHeavy|, 2 * |heavy|, selected, selected);
  }

  /**
   * The branch of `getRandomStratagems` taken when no category is Only: build the pool,
   * then the Heavy pass, the Light pass and the top-up loop.
   */
  method DrawGeneral(c: Catalog, m: ModeMap, count: nat) returns (selected: seq<string>)
    ensures |selected| <= count
    ensures UniqueNames(c) ==> NoDuplicates(selected)
    ensures AllAdmissible(c, m, selected) && HeavyQuota(c, m, count, selected) &&
      LightFloor(c, m, count, selected) && Filled(c, m, count, selected)
    ensures var heavy, light := CategoriesWith(m, Heavy), CategoriesWith(m, Light);
      HeavyShare(c, heavy, count, selected) && LightShare(c, light, count, 2 * |heavy|, selected)
    ensures UniqueNames(c) ==>
      LightCap(c, m, selected) && forall x, k :: x in selected && m.Of(k) == No ==> x !in c.Names(k)
    ensures (forall k :: m.Of(k) == No) ==> selected == []
    ensures UniqueNames(c) && (forall k :: m.Of(k) != Light) ==> |selected| == Min(count, |Pool(c, m)|)
  {
    PoolMembership(c, m);
    var heavy := CategoriesWith(m, Heavy);
    var light := CategoriesWith(m, Light);
    var excluded := CategoriesWith(m, No);
    var pool := BuildPool(c, excluded);
    if |pool| == 0 {
      EmptyPool(c, m, count);
      return [];
    }
    assert Admissible(c, m, pool[0]);
    var available, used;
    selected, available, used := QuotaPasses(c, m, heavy, light, count, pool);
    ghost var afterQuotas := selected;
    selected := FillLoop(c, m, light, count, pool, selected, available, used);
    QuotasKept(c, m, count, afterQuotas, selected);
    SharesKept(c, heavy, light, count, 2 * |heavy|, 2 * |heavy|, afterQuotas, selected);
    if UniqueNames(c) {
      NoExcludedNames(c, m, selected);
      if forall k :: m.Of(k) != Light {
        FilledLength(c, m, count, selected);
      }
    }
  }

  /**
   * `getRandomStratagems(stratagems, stratagemCategories, stratagemsData, options, count)`.
   * The flat name list the source takes separately is `AllNames(c)`, as the loader builds it.
   * `heavy[j]` and `light[j]` are the `j`-th Heavy and Light categories in category order.
   */
  method GetRandomStratagems(c: Catalog, options: map<Category, Mode>, count: nat) returns (selected: seq<string>)
    ensures |selected| <= count
    ensures AllNames(c) == [] ==> selected == []
    ensures UniqueNames(c) ==> NoDuplicates(selected)
    ensures var m := Merge(options); OnlyCategory(m).Some? ==>
      var k := OnlyCategory(m).value;
      multiset(selected) <= multiset(c.Names(k)) && |selected| == Min(count, |c.Names(k)|)
    ensures var m := Merge(options); OnlyCategory(m).None? ==>
      AllAdmissible(c, m, selected) && HeavyQuota(c, m, count, selected) &&
      LightFloor(c, m, count, selected) && Filled(c, m, count, selected)
    ensures var m := Merge(options); var heavy, light := CategoriesWith(m, Heavy), CategoriesWith(m, Light);
      OnlyCategory(m).None? ==>
        HeavyShare(c, heavy, count, selected) && LightShare(c, light, count, 2 * |heavy|, selected)
    ensures var m := Merge(options); OnlyCategory(m).None? && 2 * |CategoriesWith(m, Heavy)| <= count ==>
      forall h :: m.Of(h) == Heavy ==> CountIn(selected, c.Names(h)) >= Min(2, |c.Names(h)|)
    ensures var m := Merge(options);
      OnlyCategory(m).None? && 2 * |CategoriesWith(m, Heavy)| + |CategoriesWith(m, Light)| <= count ==>
        forall l :: m.Of(l) == Light && |c.Names(l)| > 0 ==> CountIn(selected, c.Names(l)) > 0
    ensures var m := Merge(options); OnlyCategory(m).None? && UniqueNames(c) ==>
      LightCap(c, m, selected) && forall x, k :: x in selected && m.Of(k) == No ==> x !in c.Names(k)
    ensures var m := Merge(options); (forall k :: m.Of(k) == No) ==> selected == []
    ensures var m := Merge(options); OnlyCategory(m).None? && UniqueNames(c) && (forall k :: m.Of(k) != Light) ==>
      |selected| == Min(count, |Pool(c, m)|)
  {
    var m := Merge(options);
    if |AllNames(c)| == 0 {
      EmptyCatalog(c, m);
      EmptyPool(c, m, count);
      return [];
    }
    var only := OnlyCategory(m);
    if only.Some? {
      selected := DrawOnly(c.Names(only.value), count);
      return;
    }
    selected := DrawGeneral(c, m, count);
    SharesWhenRoomy(c, m, count, selected);
  }

  /** An empty catalog has an empty pool. */
  lemma EmptyCatalog(c: Catalog, m: ModeMap)
    requires AllNames(c) == []
    ensures forall k :: c.Names(k) == []
    ensures Pool(c, m) == []
  {
    PoolMembership(c, m);
    forall k ensures c.Names(k) == [] {
      assert forall x :: x in c.Names(k) ==> x in AllNames(c);
    }
    assert Pool(c, m) != [] ==> Admissible(c, m, Pool(c, m)[0]);
  }

  /** Later draws only append, so quotas met earlier stay met. */
  lemma QuotasKept(c: Catalog, m: ModeMap, count: nat, early: seq<string>, selected: seq<string>)
    requires early <= selected && |selected| <= count
    ensures HeavyQuota(c, m, count, early) ==> HeavyQuota(c, m, count, selected)
    ensures LightFloor(c, m, count, early) ==> LightFloor(c, m, count, selected)
  {
    CountInPrefix(early, selected);
  }

  /**
   * The turn-order quotas survive later appends, and a Light turn guaranteed after
   * `base0` earlier picks is still guaranteed when at most `base >= base0` is assumed.
   */
  lemma SharesKept(c: Catalog, heavy: seq<Category>, light: seq<Category>, count: nat, base0: nat, base: nat,
                   early: seq<string>, selected: seq<string>)
    requires early <= selected && base0 <= base
    ensures HeavyShare(c, heavy, count, early) ==> HeavyShare(c, heavy, count, selected)
    ensures LightShare(c, light, count, base0, early) ==> LightShare(c, light, count, base, selected)
  {
    CountInPrefix(early, selected);
  }

  /**
   * With room for two names per Heavy category, every Heavy category gets two (or all
   * it has); with room for one more per Light category, every non-empty Light category
   * gets one.
   */
  lemma SharesWhenRoomy(c: Catalog, m: ModeMap, count: nat, selected: seq<string>)
    requires HeavyShare(c, CategoriesWith(m, Heavy), count, selected)
    requires LightShare(c, CategoriesWith(m, Light), count, 2 * |CategoriesWith(m, Heavy)|, selected)
    ensures 2 * |CategoriesWith(m, Heavy)| <= count ==>
      forall h :: m.Of(h) == Heavy ==> CountIn(selected, c.Names(h)) >= Min(2, |c.Names(h)|)
    ensures 2 * |CategoriesWith(m, Heavy)| + |CategoriesWith(m, Light)| <= count ==>
      forall l :: m.Of(l) == Light && |c.Names(l)| > 0 ==> CountIn(selected, c.Names(l)) > 0
  {
    var heavy, light := CategoriesWith(m, Heavy), CategoriesWith(m, Light);
    forall h | m.Of(h) == Heavy && 2 * |heavy| <= count
      ensures CountIn(selected, c.Names(h)) >= Min(2, |c.Names(h)|)
    {
      var j :| 0 <= j < |heavy| && heavy[j] == h;
    }
    forall l | m.Of(l) == Light && |c.Names(l)| > 0 && 2 * |heavy| + |light| <= count
      ensures CountIn(selected, c.Names(l)) > 0
    {
      var j :| 0 <= j < |light| && light[j] == l;
    }
  }

  /** With unique names, an admissible name is listed in no category marked No. */
  lemma NoExcludedNames(c: Catalog, m: ModeMap, selected: seq<string>)
    requires UniqueNames(c) && AllAdmissible(c, m, selected)
    ensures forall x, k :: x in selected && m.Of(k) == No ==> x !in c.Names(k)
  {
    forall x, k | x in selected && m.Of(k) == No ensures x !in c.Names(k) {
      var k' :| m.Of(k') != No && x in c.Names(k');
      assert k != k';
    }
  }

  /**
   * Without Light categories nothing is ever discarded, so a duplicate-free admissible
   * selection that satisfies `Filled` has exactly `min(count, |pool|)` names.
   */
  lemma FilledLength(c: Catalog, m: ModeMap, count: nat, selected: seq<string>)
    requires UniqueNames(c) && NoDuplicates(selected) && |selected| <= count
    requires AllAdmissible(c, m, selected) && Filled(c, m, count, selected)
    requires forall k :: m.Of(k) != Light
    ensures |selected| == Min(count, |Pool(c, m)|)
  {
    PoolMembership(c, m);
    NoDuplicatesSubsetLength(selected, Pool(c, m));
    if |selected| < count {
      NoDuplicatesSubsetLength(Pool(c, m), selected);
    }
  }

  /**
   * The loadout routes with no stratagem options in the query: every category Normal
   * and the default count. With unique names the result has four names, or every
   * name when the catalog holds fewer.
   */
  method DefaultLoadoutStratagems(c: Catalog) returns (selected: seq<string>)
    ensures UniqueNames(c) ==> NoDuplicates(selected) && |selected| == Min(DefaultCount, |AllNames(c)|)
    ensures forall x :: x in selected ==> x in AllNames(c)
  {
    var options := map[Defense := Normal, Eagles := Normal, Orbitals := Normal, Support := Normal];
    selected := GetRandomStratagems(c, options, DefaultCount);
    var m := Merge(options);
    assert Pool(c, m) == AllNames(c);
    PoolMembership(c, m);
  }
}
