/** Sequence helpers for the working lists of a bracket: identity-based
    removal (Python's list.remove) and filtering. */
module Lists {

  /** No element occurs twice (a list of distinct object identities). */
  predicate Distinct<T(==)>(xs: seq<T>) {
    forall i, j :: 0 <= i < j < |xs| ==> xs[i] != xs[j]
  }

  /** The set of elements of xs. */
  function Elems<T>(xs: seq<T>): (r: set<T>)
    ensures forall x :: x in r ==> x in xs
    ensures forall x :: x in xs ==> x in r
  {
    set x | x in xs
  }

  /** The elements of xs that are not in drop, in their original order. */
  function Without<T(==)>(xs: seq<T>, drop: set<T>): (r: seq<T>)
    ensures forall x :: x in r ==> x in xs && x !in drop
    ensures forall x :: x in xs && x !in drop ==> x in r
    ensures |r| <= |xs|
  {
    if xs == [] then [] else (if xs[0] in drop then [] else [xs[0]]) + Without(xs[1..], drop)
  }

  /** Python's list.remove(x): drops the first occurrence of x. */
  function RemoveFirst<T(==)>(xs: seq<T>, x: T): (r: seq<T>)
    requires x in xs
    ensures |r| == |xs| - 1
    ensures multiset(r) == multiset(xs) - multiset{x}
  {
    if xs[0] == x then
      assert xs == [xs[0]] + xs[1..];
      xs[1..]
    else
      assert xs == [xs[0]] + xs[1..];
      [xs[0]] + RemoveFirst(xs[1..], x)
  }

  /** A list is distinct exactly when no element is counted twice. */
  lemma {:induction false} DistinctCounts<T>(xs: seq<T>)
    ensures Distinct(xs) <==> forall x :: multiset(xs)[x] <= 1
  {
    if xs != [] {
      var t := xs[1..];
      assert xs == [xs[0]] + t;
      DistinctCounts(t);
      if Distinct(xs) {
        assert Distinct(t) by {
          forall i, j | 0 <= i < j < |t| ensures t[i] != t[j] {
            assert t[i] == xs[i + 1] && t[j] == xs[j + 1];
          }
        }
        assert xs[0] !in t by {
          forall j | 0 <= j < |t| ensures t[j] != xs[0] {
            assert t[j] == xs[j + 1];
          }
        }
      }
      if forall x :: multiset(xs)[x] <= 1 {
        forall x ensures multiset(t)[x] <= 1 {
          assert multiset(xs)[x] <= 1;
        }
        assert multiset(xs)[xs[0]] <= 1;
        assert xs[0] !in multiset(t);
        forall i, j | 0 <= i < j < |xs| ensures xs[i] != xs[j] {
          if i == 0 {
            assert xs[j] == t[j - 1];
            assert xs[j] in t;
          } else {
            assert xs[i] == t[i - 1] && xs[j] == t[j - 1];
          }
        }
      }
    }
  }

  /** Distinctness is inherited by any sub-multiset, in particular by any permutation. */
  lemma DistinctSub<T>(xs: seq<T>, ys: seq<T>)
    requires Distinct(xs) && multiset(ys) <= multiset(xs)
    ensures Distinct(ys)
  {
    DistinctCounts(xs);
    DistinctCounts(ys);
    forall y ensures multiset(ys)[y] <= 1 {
      assert multiset(ys)[y] <= multiset(xs)[y];
    }
  }

  /** Two distinct lists with no common element concatenate to a distinct list. */
  lemma DistinctConcat<T>(xs: seq<T>, ys: seq<T>)
    requires Distinct(xs) && Distinct(ys)
    requires forall x :: x in xs ==> x !in ys
    ensures Distinct(xs + ys)
  {
    var zs := xs + ys;
    forall i, j | 0 <= i < j < |zs| ensures zs[i] != zs[j] {
      if j < |xs| {
        assert zs[i] == xs[i] && zs[j] == xs[j];
      } else if i >= |xs| {
        assert zs[i] == ys[i - |xs|] && zs[j] == ys[j - |xs|];
      } else {
        assert zs[i] == xs[i] && zs[j] == ys[j - |xs|];
        assert zs[j] in ys;
      }
    }
  }

  /** Filtering keeps a list distinct. */
  lemma {:induction false} DistinctWithout<T>(xs: seq<T>, drop: set<T>)
    requires Distinct(xs)
    ensures Distinct(Without(xs, drop))
  {
    if xs != [] {
      assert Distinct(xs[1..]) by {
        forall i, j | 0 <= i < j < |xs[1..]| ensures xs[1..][i] != xs[1..][j] {
          assert xs[1..][i] == xs[i + 1] && xs[1..][j] == xs[j + 1];
        }
      }
      DistinctWithout(xs[1..], drop);
      var head := if xs[0] in drop then [] else [xs[0]];
      assert forall x :: x in head ==> x !in Without(xs[1..], drop) by {
        forall j | 0 <= j < |xs[1..]| ensures xs[1..][j] != xs[0] {
          assert xs[1..][j] == xs[j + 1];
        }
      }
      DistinctConcat(head, Without(xs[1..], drop));
    }
  }

  /** Removing, by identity, an element that has not been dropped yet is the same as
      dropping it too: a loop of list.remove calls computes a filter. */
  lemma {:induction false} RemoveFirstWithout<T>(xs: seq<T>, drop: set<T>, x: T)
    requires Distinct(xs) && x in xs && x !in drop
    ensures x in Without(xs, drop)
    ensures RemoveFirst(Without(xs, drop), x) == Without(xs, drop + {x})
  {
    var t := xs[1..];
    assert Distinct(t) by {
      forall i, j | 0 <= i < j < |t| ensures t[i] != t[j] {
        assert t[i] == xs[i + 1] && t[j] == xs[j + 1];
      }
    }
    assert xs[0] !in t by {
      forall j | 0 <= j < |t| ensures t[j] != xs[0] {
        assert t[j] == xs[j + 1];
      }
    }
    var w := Without(t, drop);
    assert Without(xs, drop) == (if xs[0] in drop then [] else [xs[0]]) + w;
    if xs[0] == x {
      WithoutAbsent(t, drop, x);
      assert Without(xs, drop) == [x] + w;
      assert Without(xs, drop + {x}) == Without(t, drop + {x});
    } else {
      assert x in t;
      RemoveFirstWithout(t, drop, x);
      if xs[0] in drop {
        assert Without(xs, drop) == w;
        assert Without(xs, drop + {x}) == Without(t, drop + {x});
      } else {
        var v := [xs[0]] + w;
        assert Without(xs, drop) == v && v[0] != x && v[1..] == w;
        assert RemoveFirst(v, x) == [xs[0]] + RemoveFirst(w, x);
        assert Without(xs, drop + {x}) == [xs[0]] + Without(t, drop + {x});
      }
    }
  }

  /** The j-th list.remove of a loop removing the distinct elements ys from xs one
      by one: it finds its element, and afterwards ys[..j+1] has been filtered out. */
  lemma RemoveNext<T>(xs: seq<T>, ys: seq<T>, j: nat)
    requires Distinct(xs) && Distinct(ys) && j < |ys|
    requires forall y :: y in ys ==> y in xs
    ensures ys[j] in Without(xs, Elems(ys[..j]))
    ensures RemoveFirst(Without(xs, Elems(ys[..j])), ys[j]) == Without(xs, Elems(ys[..j + 1]))
  {
    var removed := Elems(ys[..j]);
    assert ys[j] !in removed by {
      forall t | 0 <= t < j ensures ys[..j][t] != ys[j] {
        assert ys[..j][t] == ys[t];
      }
    }
    assert ys[..j + 1] == ys[..j] + [ys[j]];
    assert Elems(ys[..j + 1]) == removed + {ys[j]};
    RemoveFirstWithout(xs, removed, ys[j]);
  }

  /** Filtering the first j of the distinct members ys out of a list without
      repetitions leaves |xs| - j elements. */
  lemma {:induction false} WithoutCount<T>(xs: seq<T>, ys: seq<T>, j: nat)
    requires Distinct(xs) && Distinct(ys) && j <= |ys|
    requires forall y :: y in ys ==> y in xs
    ensures |Without(xs, Elems(ys[..j]))| == |xs| - j
  {
    if j == 0 {
      WithoutNone(xs, ys);
    } else {
      WithoutCount(xs, ys, j - 1);
      WithoutOneMore(xs, ys, j);
    }
  }

  /** Filtering out the members of an empty prefix keeps every element. */
  lemma WithoutNone<T>(xs: seq<T>, ys: seq<T>)
    ensures |Without(xs, Elems(ys[..0]))| == |xs|
  {
    WithoutNothing(xs);
    assert Elems(ys[..0]) == {};
  }

  /** Filtering out one more of the distinct members ys removes exactly one element. */
  lemma WithoutOneMore<T>(xs: seq<T>, ys: seq<T>, j: nat)
    requires Distinct(xs) && Distinct(ys) && 0 < j <= |ys|
    requires forall y :: y in ys ==> y in xs
    ensures |Without(xs, Elems(ys[..j]))| == |Without(xs, Elems(ys[..j - 1]))| - 1
  {
    RemoveNext(xs, ys, j - 1);
  }

  /** Dropping nothing keeps the list. */
  lemma {:induction false} WithoutNothing<T>(xs: seq<T>)
    ensures Without(xs, {}) == xs
  {
    if xs != [] {
      WithoutNothing(xs[1..]);
      assert xs == [xs[0]] + xs[1..];
    }
  }

  /** Adding to the drop set an element that does not occur changes nothing. */
  lemma {:induction false} WithoutAbsent<T>(xs: seq<T>, drop: set<T>, x: T)
    requires x !in xs
    ensures Without(xs, drop + {x}) == Without(xs, drop)
  {
    if xs != [] {
      assert x != xs[0] && x !in xs[1..];
      WithoutAbsent(xs[1..], drop, x);
    }
  }
}
