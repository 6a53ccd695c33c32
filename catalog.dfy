/**
 * The stratagem catalog: four fixed categories, each holding an ordered list of
 * stratagem names, and the views the server derives from it when it loads
 * (the flat list of every name, and the name-to-category lookup table).
 */
module Catalog {
  import opened Wrappers
  import opened Seqs

  datatype Category = Defense | Eagles | Orbitals | Support

  /** The categories in the order the server enumerates them. */
  const Categories: seq<Category> := [Defense, Eagles, Orbitals, Support]

  /** Position of a category in `Categories`. */
  function Rank(k: Category): (r: nat)
    ensures r < |Categories| && Categories[r] == k
  {
    match k
    case Defense => 0
    case Eagles => 1
    case Orbitals => 2
    case Support => 3
  }

  lemma CategoriesComplete()
    ensures forall k :: k in Categories
    ensures NoDuplicates(Categories)
  {
    forall k ensures k in Categories { assert Categories[Rank(k)] == k; }
  }

  /** The parsed stratagem catalog: one list of stratagem names per category. */
  datatype Catalog = Catalog(defense: seq<string>, eagles: seq<string>, orbitals: seq<string>, support: seq<string>)
  {
    /** `stratagemCategories[k]`. */
    function Names(k: Category): seq<string> {
      match k
      case Defense => defense
      case Eagles => eagles
      case Orbitals => orbitals
      case Support => support
    }
  }

  /**
   * The names of the categories in `cats` that are not in `excluded`, concatenated
   * in the order of `cats`: what a loop appending each admitted category's list builds.
   */
  function Gather(c: Catalog, cats: seq<Category>, excluded: seq<Category>): seq<string> {
    if cats == [] then []
    else
      var k := cats[|cats| - 1];
      Gather(c, cats[..|cats| - 1], excluded) + (if k in excluded then [] else c.Names(k))
  }

  lemma {:induction false} GatherMembership(c: Catalog, cats: seq<Category>, excluded: seq<Category>)
    ensures forall x :: x in Gather(c, cats, excluded) <==> exists k :: k in cats && k !in excluded && x in c.Names(k)
  {
    if cats != [] {
      var cats' := cats[..|cats| - 1];
      GatherMembership(c, cats', excluded);
      assert forall k :: k in cats <==> k in cats' || k == cats[|cats| - 1];
    }
  }

  /** Names are unique inside each category and no name is shared by two categories. */
  predicate UniqueNames(c: Catalog) {
    (forall k :: NoDuplicates(c.Names(k))) &&
    (forall k1, k2, x :: k1 != k2 && x in c.Names(k1) ==> x !in c.Names(k2))
  }

  lemma {:induction false} GatherNoDuplicates(c: Catalog, cats: seq<Category>, excluded: seq<Category>)
    requires UniqueNames(c) && NoDuplicates(cats)
    ensures NoDuplicates(Gather(c, cats, excluded))
  {
    if cats != [] {
      var cats' := cats[..|cats| - 1];
      var k := cats[|cats| - 1];
      GatherNoDuplicates(c, cats', excluded);
      GatherMembership(c, cats', excluded);
      var front := Gather(c, cats', excluded);
      var back := if k in excluded then [] else c.Names(k);
      assert forall x :: x in front ==> x !in back by {
        forall x | x in front ensures x !in back {
          var k' :| k' in cats' && k' !in excluded && x in c.Names(k');
          assert k' != k;
        }
      }
      var r := front + back;
      forall a, b | 0 <= a < b < |r| ensures r[a] != r[b] {
        if b < |front| {
        } else if a >= |front| {
          assert r[a] == back[a - |front|] && r[b] == back[b - |front|];
        } else {
          assert r[a] in front && r[b] == back[b - |front|];
        }
      }
    }
  }

  lemma GatherUnfold(c: Catalog)
    ensures Gather(c, Categories, []) == c.Names(Defense) + c.Names(Eagles) + c.Names(Orbitals) + c.Names(Support)
  {
    var d, e, o := [Defense], [Defense, Eagles], [Defense, Eagles, Orbitals];
    assert Categories[..3] == o && o[..2] == e && e[..1] == d && d[..0] == [];
    assert Gather(c, d, []) == c.Names(Defense);
    assert Gather(c, e, []) == c.Names(Defense) + c.Names(Eagles);
    assert Gather(c, o, []) == c.Names(Defense) + c.Names(Eagles) + c.Names(Orbitals);
  }

  /**
   * The flat list of every stratagem name, category by category
   * (`allStratagems` in the loader): it holds exactly the names of all categories.
   */
  function AllNames(c: Catalog): (r: seq<string>)
    ensures forall x :: x in r <==> exists k :: x in c.Names(k)
    ensures |r| == |c.Names(Defense)| + |c.Names(Eagles)| + |c.Names(Orbitals)| + |c.Names(Support)|
    ensures UniqueNames(c) ==> NoDuplicates(r)
  {
    CategoriesComplete();
    GatherMembership(c, Categories, []);
    GatherUnfold(c);
    if UniqueNames(c) then GatherNoDuplicates(c, Categories, []); Gather(c, Categories, [])
    else Gather(c, Categories, [])
  }

  lemma {:induction false} NoDuplicatesSplit(a: seq<string>, b: seq<string>)
    requires NoDuplicates(a + b)
    ensures NoDuplicates(a) && NoDuplicates(b)
    ensures forall x :: x in a ==> x !in b
  {
    var r := a + b;
    forall i, j | 0 <= i < j < |a| ensures a[i] != a[j] { assert a[i] == r[i] && a[j] == r[j]; }
    forall i, j | 0 <= i < j < |b| ensures b[i] != b[j] { assert b[i] == r[|a| + i] && b[j] == r[|a| + j]; }
    forall x | x in a ensures x !in b {
      var i :| 0 <= i < |a| && a[i] == x;
      assert r[i] == x;
      forall j | 0 <= j < |b| ensures b[j] != x { assert r[|a| + j] == b[j]; }
    }
  }

  /** The flat list is duplicate-free exactly when the catalog's names are unique. */
  lemma AllNamesUnique(c: Catalog)
    ensures UniqueNames(c) <==> NoDuplicates(AllNames(c))
  {
    if NoDuplicates(AllNames(c)) {
      var d, e, o, s := c.Names(Defense), c.Names(Eagles), c.Names(Orbitals), c.Names(Support);
      GatherUnfold(c);
      assert AllNames(c) == ((d + e) + o) + s;
      NoDuplicatesSplit((d + e) + o, s);
      NoDuplicatesSplit(d + e, o);
      NoDuplicatesSplit(d, e);
      forall k1, k2, x | k1 != k2 && x in c.Names(k1) ensures x !in c.Names(k2) {
        if Rank(k1) > Rank(k2) {
          assert x in c.Names(k2) ==> x in c.Names(k1);
        }
      }
    }
  }

  /**
   * The category the server's name-to-record table attaches to `name`: the table
   * is filled category by category and later writes win, so a name listed twice
   * keeps the later category (`RecordCategoryCorrect`).
   */
  function RecordCategoryIn(c: Catalog, cats: seq<Category>, name: string): Option<Category> {
    if cats == [] then None
    else if name in c.Names(cats[|cats| - 1]) then Some(cats[|cats| - 1])
    else RecordCategoryIn(c, cats[..|cats| - 1], name)
  }

  function RecordCategory(c: Catalog, name: string): Option<Category> {
    RecordCategoryIn(c, Categories, name)
  }

  lemma {:induction false} RecordCategoryInFound(c: Catalog, cats: seq<Category>, name: string)
    ensures RecordCategoryIn(c, cats, name).Some? ==>
      RecordCategoryIn(c, cats, name).value in cats && name in c.Names(RecordCategoryIn(c, cats, name).value)
    ensures RecordCategoryIn(c, cats, name).None? <==> forall k :: k in cats ==> name !in c.Names(k)
  {
    if cats != [] {
      var cats' := cats[..|cats| - 1];
      RecordCategoryInFound(c, cats', name);
      assert forall k :: k in cats <==> k in cats' || k == cats[|cats| - 1];
    }
  }

  /** The table entry comes from a position of `cats` after which no category lists the name. */
  lemma {:induction false} RecordCategoryInLast(c: Catalog, cats: seq<Category>, name: string)
    requires RecordCategoryIn(c, cats, name).Some?
    ensures exists n :: 0 <= n < |cats| && cats[n] == RecordCategoryIn(c, cats, name).value &&
                        forall i :: n < i < |cats| ==> name !in c.Names(cats[i])
  {
    var last := |cats| - 1;
    var r := RecordCategoryIn(c, cats, name).value;
    if name in c.Names(cats[last]) {
      assert cats[last] == r;
    } else {
      var cats' := cats[..last];
      assert RecordCategoryIn(c, cats', name).value == r;
      RecordCategoryInLast(c, cats', name);
      var n :| 0 <= n < |cats'| && cats'[n] == r && forall i :: n < i < |cats'| ==> name !in c.Names(cats'[i]);
      forall i | n < i < |cats| ensures name !in c.Names(cats[i]) {
        if i < last { assert cats[i] == cats'[i]; }
      }
      assert cats[n] == r;
    }
  }

  /**
   * The lookup table knows every catalogued name and only those. It attaches the last
   * category listing the name, which with unique names is the one category listing it.
   */
  lemma RecordCategoryCorrect(c: Catalog, name: string)
    ensures RecordCategory(c, name).None? <==> forall k :: name !in c.Names(k)
    ensures RecordCategory(c, name).Some? ==> name in c.Names(RecordCategory(c, name).value)
    ensures RecordCategory(c, name).Some? ==>
      forall k :: Rank(RecordCategory(c, name).value) < Rank(k) ==> name !in c.Names(k)
    ensures UniqueNames(c) ==> forall k :: name in c.Names(k) ==> RecordCategory(c, name) == Some(k)
  {
    CategoriesComplete();
    RecordCategoryInFound(c, Categories, name);
    if RecordCategory(c, name).Some? {
      var r := RecordCategory(c, name).value;
      RecordCategoryInLast(c, Categories, name);
      var n :| 0 <= n < |Categories| && Categories[n] == r &&
               forall i :: n < i < |Categories| ==> name !in c.Names(Categories[i]);
      assert n == Rank(r);
      forall k | Rank(r) < Rank(k) ensures name !in c.Names(k) {
        assert Categories[Rank(k)] == k;
      }
    }
  }
}
