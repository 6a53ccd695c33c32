/**
 * The JavaScript array primitives the sampler relies on (`splice(i, 1)`,
 * `findIndex`, `filter(... !includes ...)`), stated over sequences, together with
 * the counting function used to state per-category quotas.
 */
module Seqs {

  /** No value occurs twice. */
  predicate NoDuplicates<T(==)>(s: seq<T>) {
    forall i, j :: 0 <= i < j < |s| ==> s[i] != s[j]
  }

  /** `s.splice(i, 1)`: the sequence without the element at index `i`. */
  function Splice<T>(s: seq<T>, i: nat): (r: seq<T>)
    requires i < |s|
    ensures |r| == |s| - 1
    ensures forall k :: 0 <= k < i ==> r[k] == s[k]
    ensures forall k :: i <= k < |r| ==> r[k] == s[k + 1]
    ensures multiset(r) == multiset(s) - multiset{s[i]}
  {
    assert s == s[..i] + [s[i]] + s[i + 1..];
    s[..i] + s[i + 1..]
  }

  /** Removing one position keeps every other value and adds none. */
  lemma SpliceMembers<T>(s: seq<T>, i: nat)
    requires i < |s|
    ensures forall x :: x in Splice(s, i) ==> x in s
    ensures forall x :: x in s && x != s[i] ==> x in Splice(s, i)
  {
    var r := Splice(s, i);
    forall x | x in s && x != s[i] ensures x in r {
      var k :| 0 <= k < |s| && s[k] == x;
      if k < i { assert r[k] == x; } else { assert r[k - 1] == x; }
    }
  }

  /** Removing a position from a duplicate-free sequence removes that value entirely. */
  lemma SpliceNoDuplicates<T>(s: seq<T>, i: nat)
    requires i < |s| && NoDuplicates(s)
    ensures NoDuplicates(Splice(s, i))
    ensures s[i] !in Splice(s, i)
  {
    var r := Splice(s, i);
    forall a, b | 0 <= a < b < |r| ensures r[a] != r[b] {
      var a' := if a < i then a else a + 1;
      var b' := if b < i then b else b + 1;
      assert r[a] == s[a'] && r[b] == s[b'];
    }
  }

  lemma AppendNoDuplicates<T>(s: seq<T>, x: T)
    requires NoDuplicates(s) && x !in s
    ensures NoDuplicates(s + [x])
  {
    var r := s + [x];
    forall i, j | 0 <= i < j < |r| ensures r[i] != r[j] {
      if j < |s| { assert r[i] == s[i] && r[j] == s[j]; } else { assert r[i] in s; }
    }
  }

  /** `s.findIndex(v => v === x)`: the first index holding `x`, or -1. */
  function IndexOf<T(==)>(s: seq<T>, x: T): (r: int)
    ensures r == -1 <==> x !in s
    ensures r != -1 ==> 0 <= r < |s| && s[r] == x && forall j :: 0 <= j < r ==> s[j] != x
  {
    if |s| == 0 then -1
    else if s[0] == x then 0
    else
      var k := IndexOf(s[1..], x);
      if k == -1 then -1 else k + 1
  }

  /**
   * `const i = s.findIndex(v => v === x); if (i !== -1) s.splice(i, 1);`:
   * one occurrence of `x` is removed when there is one.
   */
  function RemoveFirst<T(==,!new)>(s: seq<T>, x: T): (r: seq<T>)
    ensures x !in s ==> r == s
    ensures x in s ==> |r| == |s| - 1 && multiset(r) == multiset(s) - multiset{x}
    ensures forall y :: y in r ==> y in s
    ensures forall y :: y in s && y != x ==> y in r
    ensures NoDuplicates(s) ==> NoDuplicates(r) && x !in r
  {
    var i := IndexOf(s, x);
    if i == -1 then s
    else
      SpliceMembers(s, i);
      if NoDuplicates(s) then SpliceNoDuplicates(s, i); Splice(s, i) else Splice(s, i)
  }

  /** `s.filter(v => !exclude.includes(v))`. */
  function Without<T(==,!new)>(s: seq<T>, exclude: seq<T>): (r: seq<T>)
    ensures forall x :: x in r <==> x in s && x !in exclude
    ensures |r| <= |s|
    ensures NoDuplicates(s) ==> NoDuplicates(r)
  {
    if s == [] then []
    else
      var rest := Without(s[1..], exclude);
      assert forall x :: x in s <==> x == s[0] || x in s[1..];
      if s[0] in exclude then rest
      else
        assert NoDuplicates(s) ==> s[0] !in s[1..] && NoDuplicates(s[1..]);
        [s[0]] + rest
  }

  /** How many positions of `s` hold a value that occurs in `names`. */
  function CountIn<T(==)>(s: seq<T>, names: seq<T>): nat {
    if s == [] then 0
    else CountIn(s[..|s| - 1], names) + (if s[|s| - 1] in names then 1 else 0)
  }

  lemma {:induction false} CountInConcat<T>(a: seq<T>, b: seq<T>, names: seq<T>)
    ensures CountIn(a + b, names) == CountIn(a, names) + CountIn(b, names)
  {
    if b != [] {
      var b' := b[..|b| - 1];
      assert (a + b)[..|a + b| - 1] == a + b';
      CountInConcat(a, b', names);
    } else {
      assert a + b == a;
    }
  }

  /** Appending one value raises the count by one exactly when the value is counted. */
  lemma CountInAppend<T>(s: seq<T>, x: T)
    ensures forall names :: CountIn(s + [x], names) == CountIn(s, names) + (if x in names then 1 else 0)
  {
    assert (s + [x])[..|s|] == s;
  }

  /** Extending a sequence never lowers a count. */
  lemma CountInPrefix<T>(a: seq<T>, b: seq<T>)
    requires a <= b
    ensures forall names :: CountIn(a, names) <= CountIn(b, names)
  {
    assert b == a + b[|a|..];
    forall names ensures CountIn(a, names) <= CountIn(b, names) {
      CountInConcat(a, b[|a|..], names);
    }
  }

  lemma {:induction false} CountInLength<T>(s: seq<T>, names: seq<T>)
    ensures CountIn(s, names) <= |s|
  {
    if s != [] {
      CountInLength(s[..|s| - 1], names);
    }
  }

  /**
   * Extending `a` to `b` raises a count by at most the number of added positions,
   * and not at all when no added position holds a counted value.
   */
  lemma CountInExtend<T>(a: seq<T>, b: seq<T>, names: seq<T>)
    requires a <= b
    ensures CountIn(b, names) <= CountIn(a, names) + |b| - |a|
    ensures (forall i :: |a| <= i < |b| ==> b[i] !in names) ==> CountIn(b, names) == CountIn(a, names)
  {
    var d := b[|a|..];
    assert b == a + d;
    CountInConcat(a, d, names);
    CountInLength(d, names);
    CountInZero(d, names);
    if forall i :: |a| <= i < |b| ==> b[i] !in names {
      forall x | x in d ensures x !in names {
        var i :| 0 <= i < |d| && d[i] == x;
        assert b[|a| + i] == x;
      }
    }
  }

  /** The count is zero exactly when no position of `s` holds a counted value. */
  lemma {:induction false} CountInZero<T>(s: seq<T>, names: seq<T>)
    ensures CountIn(s, names) == 0 <==> forall x :: x in s ==> x !in names
  {
    if s != [] {
      var s' := s[..|s| - 1];
      assert s == s' + [s[|s| - 1]];
      CountInZero(s', names);
      assert forall x :: x in s <==> x in s' || x == s[|s| - 1];
    }
  }

  /**
   * A duplicate-free sequence whose values all occur in `b` is no longer than `b`:
   * the counting fact behind "the sampler fills every slot it can".
   */
  lemma {:induction false} NoDuplicatesSubsetLength<T(!new)>(a: seq<T>, b: seq<T>)
    requires NoDuplicates(a)
    requires forall x :: x in a ==> x in b
    ensures |a| <= |b|
  {
    if a != [] {
      var b' := RemoveFirst(b, a[0]);
      assert forall x :: x in a[1..] ==> x != a[0] && x in a;
      NoDuplicatesSubsetLength(a[1..], b');
    }
  }
}
