/** Ranking of a rung's working list: the comparison behind isBetter, Python's
    stable `sorted(candidates, key=score, reverse=minimize)` and the repeated
    `pop()` that takes the best candidates from the tail of the sorted list. */
module Ranking {
  import opened Lists

  /** a is strictly better than b: smaller when minimising, larger when maximising. */
  predicate Better(minimize: bool, a: real, b: real) {
    if minimize then a < b else a > b
  }

  /** Every element has a score. */
  predicate Keyed<T>(xs: seq<T>, key: map<T, real>) {
    forall i :: 0 <= i < |xs| ==> xs[i] in key
  }

  /** Sorted from worst to best: no element is strictly better than one after it. */
  predicate Ordered<T>(xs: seq<T>, key: map<T, real>, minimize: bool)
    requires Keyed(xs, key)
  {
    forall i, j :: 0 <= i < j < |xs| ==> !Better(minimize, key[xs[i]], key[xs[j]])
  }

  /** Inserts x, which precedes every element of s in the input, in front of the
      first element of s that is not strictly worse than x (this keeps ties in input order). */
  function Insert<T>(x: T, s: seq<T>, key: map<T, real>, minimize: bool): (r: seq<T>)
    requires x in key && Keyed(s, key)
    ensures |r| == |s| + 1
    ensures multiset(r) == multiset(s) + multiset{x}
    ensures Keyed(r, key)
  {
    if s != [] && Better(minimize, key[x], key[s[0]]) then
      assert s == [s[0]] + s[1..];
      [s[0]] + Insert(x, s[1..], key, minimize)
    else
      [x] + s
  }

  /** The list Python's stable `sorted(xs, key=key, reverse=minimize)` returns:
      worst first, best last, equal scores in input order. */
  function SortBy<T>(xs: seq<T>, key: map<T, real>, minimize: bool): (r: seq<T>)
    requires Keyed(xs, key)
    ensures |r| == |xs|
    ensures multiset(r) == multiset(xs)
    ensures Keyed(r, key)
  {
    if xs == [] then []
    else
      assert xs == [xs[0]] + xs[1..];
      Insert(xs[0], SortBy(xs[1..], key, minimize), key, minimize)
  }

  /** What m successive `pop()` calls on s return, in the order they return it. */
  function PopTail<T>(s: seq<T>, m: nat): (r: seq<T>)
    requires m <= |s|
    ensures |r| == m
    ensures forall t :: 0 <= t < m ==> r[t] == s[|s| - 1 - t]
  {
    if m == 0 then [] else PopTail(s, m - 1) + [s[|s| - m]]
  }

  /** Insertion keeps a list sorted from worst to best. */
  lemma {:induction false} InsertOrdered<T>(x: T, s: seq<T>, key: map<T, real>, minimize: bool)
    requires x in key && Keyed(s, key) && Ordered(s, key, minimize)
    ensures Ordered(Insert(x, s, key, minimize), key, minimize)
  {
    if s != [] && Better(minimize, key[x], key[s[0]]) {
      var t := s[1..];
      OrderedTail(s, key, minimize);
      InsertOrdered(x, t, key, minimize);
      var r' := Insert(x, t, key, minimize);
      forall j | 0 <= j < |r'| ensures !Better(minimize, key[s[0]], key[r'[j]]) {
        assert r'[j] in multiset(r');
        if r'[j] != x {
          assert r'[j] in multiset(t);
          var u :| 0 <= u < |t| && t[u] == r'[j];
          assert t[u] == s[u + 1];
        }
      }
      OrderedCons(s[0], r', key, minimize);
    } else {
      forall j | 0 <= j < |s| ensures !Better(minimize, key[x], key[s[j]]) {
        if j > 0 {
          assert !Better(minimize, key[s[0]], key[s[j]]);
        }
      }
      OrderedCons(x, s, key, minimize);
    }
  }

  /** An element no better than any element of a sorted list can go in front of it. */
  lemma OrderedCons<T>(h: T, t: seq<T>, key: map<T, real>, minimize: bool)
    requires h in key && Keyed(t, key) && Ordered(t, key, minimize)
    requires forall j :: 0 <= j < |t| ==> !Better(minimize, key[h], key[t[j]])
    ensures Keyed([h] + t, key) && Ordered([h] + t, key, minimize)
  {
    var r := [h] + t;
    forall i, j | 0 <= i < j < |r| ensures !Better(minimize, key[r[i]], key[r[j]]) {
      assert r[j] == t[j - 1];
      if i > 0 {
        assert r[i] == t[i - 1];
      }
    }
  }

  /** The tail of a sorted list is sorted. */
  lemma OrderedTail<T>(s: seq<T>, key: map<T, real>, minimize: bool)
    requires s != [] && Keyed(s, key) && Ordered(s, key, minimize)
    ensures Keyed(s[1..], key) && Ordered(s[1..], key, minimize)
  {
    var t := s[1..];
    forall i, j | 0 <= i < j < |t| ensures !Better(minimize, key[t[i]], key[t[j]]) {
      assert t[i] == s[i + 1] && t[j] == s[j + 1];
    }
  }

  /** SortBy sorts from worst to best. */
  lemma {:induction false} SortByOrdered<T>(xs: seq<T>, key: map<T, real>, minimize: bool)
    requires Keyed(xs, key)
    ensures Ordered(SortBy(xs, key, minimize), key, minimize)
  {
    if xs != [] {
      assert Keyed(xs[1..], key) by {
        forall i | 0 <= i < |xs[1..]| ensures xs[1..][i] in key {
          assert xs[1..][i] == xs[i + 1];
        }
      }
      SortByOrdered(xs[1..], key, minimize);
      InsertOrdered(xs[0], SortBy(xs[1..], key, minimize), key, minimize);
    }
  }

  /** The popped elements are the last m elements of s, and what remains is the rest. */
  lemma PopTailSplit<T>(s: seq<T>, m: nat)
    requires m <= |s|
    ensures multiset(PopTail(s, m)) == multiset(s[|s| - m..])
    ensures multiset(PopTail(s, m)) + multiset(s[..|s| - m]) == multiset(s)
  {
    PopTailMultiset(s, m);
    assert s == s[..|s| - m] + s[|s| - m..];
  }

  /** m pops take, in some order, exactly the last m elements. */
  lemma {:induction false} PopTailMultiset<T>(s: seq<T>, m: nat)
    requires m <= |s|
    ensures multiset(PopTail(s, m)) == multiset(s[|s| - m..])
  {
    if m > 0 {
      PopTailMultiset(s, m - 1);
      assert s[|s| - m..] == [s[|s| - m]] + s[|s| - m + 1..];
    }
  }

  /** The m candidates the rung keeps: sort with `sorted(..., reverse=minimize)`,
      then `pop()` m times. */
  function Best<T>(xs: seq<T>, key: map<T, real>, minimize: bool, m: nat): seq<T>
    requires Keyed(xs, key) && m <= |xs|
  {
    PopTail(SortBy(xs, key, minimize), m)
  }

  /** The m candidates kept are the best m: they are drawn from the input,
      each is at least as good as every candidate left behind, and they come
      out best first. */
  lemma PoppedAreBest<T>(xs: seq<T>, key: map<T, real>, minimize: bool, m: nat)
    requires Keyed(xs, key) && m <= |xs|
    ensures |Best(xs, key, minimize, m)| == m
    ensures multiset(Best(xs, key, minimize, m)) <= multiset(xs)
    ensures forall a, b ::
      a in Best(xs, key, minimize, m) && b in xs && b !in Best(xs, key, minimize, m) ==>
        !Better(minimize, key[b], key[a])
    ensures forall i, j :: 0 <= i < j < m ==>
      !Better(minimize, key[Best(xs, key, minimize, m)[j]], key[Best(xs, key, minimize, m)[i]])
  {
    PopTailSplit(SortBy(xs, key, minimize), m);
    BestBeatsRest(xs, key, minimize, m);
    BestInOrder(xs, key, minimize, m);
  }

  /** The m candidates kept are members of the input. */
  lemma BestWithin<T>(xs: seq<T>, key: map<T, real>, minimize: bool, m: nat)
    requires Keyed(xs, key) && m <= |xs|
    ensures forall x :: x in Best(xs, key, minimize, m) ==> x in xs
  {
    var sorted := SortBy(xs, key, minimize);
    var top := Best(xs, key, minimize, m);
    PopTailSplit(sorted, m);
    assert multiset(top) <= multiset(xs);
    forall x | x in top ensures x in xs {
      assert x in multiset(top);
      assert x in multiset(xs);
    }
  }

  lemma BestBeatsRest<T>(xs: seq<T>, key: map<T, real>, minimize: bool, m: nat)
    requires Keyed(xs, key) && m <= |xs|
    ensures forall a, b ::
      a in Best(xs, key, minimize, m) && b in xs && b !in Best(xs, key, minimize, m) ==>
        !Better(minimize, key[b], key[a])
  {
    var s := SortBy(xs, key, minimize);
    SortByOrdered(xs, key, minimize);
    PopTailBeatsRest(s, key, minimize, m);
    forall b | b in xs ensures b in s {
      assert b in multiset(xs);
    }
  }

  lemma BestInOrder<T>(xs: seq<T>, key: map<T, real>, minimize: bool, m: nat)
    requires Keyed(xs, key) && m <= |xs|
    ensures forall i, j :: 0 <= i < j < m ==>
      !Better(minimize, key[Best(xs, key, minimize, m)[j]], key[Best(xs, key, minimize, m)[i]])
  {
    var s := SortBy(xs, key, minimize);
    var top := PopTail(s, m);
    SortByOrdered(xs, key, minimize);
    forall i, j | 0 <= i < j < m ensures !Better(minimize, key[top[j]], key[top[i]]) {
      assert top[j] == s[|s| - 1 - j] && top[i] == s[|s| - 1 - i];
    }
  }

  /** In a list sorted from worst to best, an element not among the m popped from
      the tail is no better than any popped one. */
  lemma PopTailBeatsRest<T>(s: seq<T>, key: map<T, real>, minimize: bool, m: nat)
    requires Keyed(s, key) && Ordered(s, key, minimize) && m <= |s|
    ensures forall a, b :: a in PopTail(s, m) && b in s && b !in PopTail(s, m) ==> !Better(minimize, key[b], key[a])
  {
    var top := PopTail(s, m);
    forall u | |s| - m <= u < |s| ensures s[u] in top {
      assert top[|s| - 1 - u] == s[u];
    }
    forall a, b | a in top && b in s && b !in top ensures !Better(minimize, key[b], key[a]) {
      var t :| 0 <= t < m && top[t] == a;
      var u :| 0 <= u < |s| && s[u] == b;
      assert u < |s| - m;
      assert s[|s| - 1 - t] == a;
    }
  }
}
