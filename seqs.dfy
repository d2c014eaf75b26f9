/**
 * Facts about sequences used by the repositories: distinctness, the set of
 * elements, and the filter that an SQL `WHERE x IN (...)` performs.
 */
module Seqs {

  /** No element occurs twice. */
  predicate Distinct<T(==)>(s: seq<T>) {
    forall i, j | 0 <= i < j < |s| :: s[i] != s[j]
  }

  /** The elements of a sequence, as a set. */
  function Elems<T>(s: seq<T>): set<T> {
    set x | x in s
  }

  /** The elements of `keys` that also occur in `ids`, in the order of `keys`. */
  function FilterIn(keys: seq<int>, ids: seq<int>): (r: seq<int>)
    ensures |r| <= |keys|
    ensures forall x :: x in r <==> x in keys && x in ids
    ensures Distinct(keys) ==> Distinct(r)
  {
    if keys == [] then []
    else
      var rest := FilterIn(keys[1..], ids);
      DistinctCons(keys);
      if keys[0] in ids then [keys[0]] + rest else rest
  }

  lemma DistinctCons<T>(s: seq<T>)
    requires |s| > 0
    ensures Distinct(s) <==> s[0] !in s[1..] && Distinct(s[1..])
  {
    if Distinct(s) {
      forall j | 0 <= j < |s[1..]| ensures s[1..][j] != s[0] {
        assert s[1..][j] == s[j + 1];
      }
      forall i, j | 0 <= i < j < |s[1..]| ensures s[1..][i] != s[1..][j] {
        assert s[1..][i] == s[i + 1] && s[1..][j] == s[j + 1];
      }
    }
    if s[0] !in s[1..] && Distinct(s[1..]) {
      forall i, j | 0 <= i < j < |s| ensures s[i] != s[j] {
        if i == 0 {
          assert s[j] == s[1..][j - 1];
        } else {
          assert s[i] == s[1..][i - 1] && s[j] == s[1..][j - 1];
        }
      }
    }
  }

  /** A sequence has at most as many distinct elements as entries, exactly as many when it is distinct. */
  lemma {:induction false} ElemsCard<T>(s: seq<T>)
    ensures |Elems(s)| <= |s|
    ensures |Elems(s)| == |s| <==> Distinct(s)
  {
    if s != [] {
      ElemsCard(s[1..]);
      DistinctCons(s);
      assert Elems(s) == {s[0]} + Elems(s[1..]);
      if s[0] in s[1..] {
        assert Elems(s) == Elems(s[1..]);
      } else {
        assert s[0] !in Elems(s[1..]);
      }
    }
  }

  lemma SubsetOfSameSize<T>(a: set<T>, b: set<T>)
    requires a <= b && |a| == |b|
    ensures a == b
  {
    assert b == a + (b - a);
    assert |b| == |a| + |b - a|;
  }

  /**
   * Looking up a list of ids against distinct keys finds as many entries as
   * the list is long exactly when the list repeats no id and every id is a key.
   */
  lemma {:induction false} AllFoundIff(keys: seq<int>, ids: seq<int>)
    requires Distinct(keys)
    ensures |FilterIn(keys, ids)| <= |ids|
    ensures |FilterIn(keys, ids)| == |ids| <==> Distinct(ids) && forall id :: id in ids ==> id in keys
  {
    var found := FilterIn(keys, ids);
    ElemsCard(found);
    ElemsCard(ids);
    assert Elems(found) <= Elems(ids);
    assert |Elems(found)| <= |Elems(ids)| by {
      assert Elems(ids) == Elems(found) + (Elems(ids) - Elems(found));
    }
    if |found| == |ids| {
      SubsetOfSameSize(Elems(found), Elems(ids));
      forall id | id in ids ensures id in keys {
        assert id in Elems(ids);
      }
    }
    if Distinct(ids) && forall id :: id in ids ==> id in keys {
      assert Elems(found) == Elems(ids);
    }
  }

  /**
   * Against distinct keys, the lookup finds at most one entry per distinct id
   * of the list, and exactly one per distinct id when every id is a key.
   */
  lemma DistinctFoundIff(keys: seq<int>, ids: seq<int>)
    requires Distinct(keys)
    ensures |FilterIn(keys, ids)| <= |Elems(ids)|
    ensures |FilterIn(keys, ids)| == |Elems(ids)| <==> forall id :: id in ids ==> id in keys
  {
    var found := FilterIn(keys, ids);
    ElemsCard(found);
    assert Elems(found) <= Elems(ids);
    assert Elems(ids) == Elems(found) + (Elems(ids) - Elems(found));
    if |found| == |Elems(ids)| {
      SubsetOfSameSize(Elems(found), Elems(ids));
      forall id | id in ids ensures id in keys {
        assert id in Elems(ids);
      }
    }
    if forall id :: id in ids ==> id in keys {
      assert Elems(found) == Elems(ids);
    }
  }

  /** `m` is the smallest of `keys`. */
  predicate IsMin(m: int, keys: set<int>) {
    m in keys && forall k | k in keys :: m <= k
  }

  /** The unique smallest key. */
  function MinOf(keys: set<int>): (m: int)
    requires keys != {}
    ensures IsMin(m, keys)
  {
    MinExists(keys);
    var m :| IsMin(m, keys); m
  }

  lemma NoElementsIsEmpty(s: set<int>)
    requires forall x :: x !in s
    ensures s == {}
  {
    assert forall x :: x in s <==> x in {};
  }

  /** A non-empty set has an element to pick. */
  lemma HasElement(s: set<int>)
    requires s != {}
    ensures exists x :: x in s
  {
    if forall x :: x !in s {
      NoElementsIsEmpty(s);
      assert false;
    }
  }

  lemma {:induction false} MinExists(keys: set<int>)
    requires keys != {}
    ensures exists m :: IsMin(m, keys)
    decreases |keys|
  {
    HasElement(keys);
    var x :| x in keys;
    var rest := keys - {x};
    if rest == {} {
      forall k | k in keys ensures x <= k {
        assert k !in rest;
      }
      assert IsMin(x, keys);
    } else {
      MinExists(rest);
      var m :| IsMin(m, rest);
      var least := if x < m then x else m;
      forall k | k in keys ensures least <= k {
        if k != x {
          assert k in rest;
        }
      }
      assert IsMin(least, keys);
    }
  }

  /**
   * The integer keys of a record in the order `Object.values` enumerates
   * them: ascending.
   */
  function SortedKeys(keys: set<int>): (r: seq<int>)
    ensures |r| == |keys|
    ensures forall k :: k in r <==> k in keys
    ensures forall i, j | 0 <= i < j < |r| :: r[i] < r[j]
    decreases |keys|
  {
    if keys == {} then []
    else
      var m := MinOf(keys);
      var rest := SortedKeys(keys - {m});
      PrependMin(m, keys, rest);
      [m] + rest
  }

  lemma PrependMin(m: int, keys: set<int>, rest: seq<int>)
    requires IsMin(m, keys)
    requires |rest| == |keys - {m}|
    requires forall k :: k in rest <==> k in keys - {m}
    requires forall i, j | 0 <= i < j < |rest| :: rest[i] < rest[j]
    ensures |[m] + rest| == |keys|
    ensures forall k :: k in [m] + rest <==> k in keys
    ensures forall i, j | 0 <= i < j < |[m] + rest| :: ([m] + rest)[i] < ([m] + rest)[j]
  {
    assert keys == (keys - {m}) + {m};
    var r := [m] + rest;
    forall i, j | 0 <= i < j < |r| ensures r[i] < r[j] {
      assert r[j] == rest[j - 1];
      if i > 0 {
        assert r[i] == rest[i - 1];
      } else {
        assert rest[j - 1] in keys - {m};
      }
    }
  }
}
