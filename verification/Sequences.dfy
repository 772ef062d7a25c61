/** Sequences without repetition. */
module Sequences {

  ghost predicate NoDuplicates<T>(xs: seq<T>) {
    forall i, j | 0 <= i < j < |xs| :: xs[i] != xs[j]
  }

  lemma AppendOnce<T>(xs: seq<T>, w: T)
    requires NoDuplicates(xs) && w !in xs
    ensures NoDuplicates(xs + [w])
  {
    forall i, j | 0 <= i < j < |xs + [w]| ensures (xs + [w])[i] != (xs + [w])[j] {
      assert (xs + [w])[i] == xs[i] && xs[i] in xs;
    }
  }

  lemma BothOnce<T>(xs: seq<T>, ys: seq<T>)
    requires NoDuplicates(xs) && NoDuplicates(ys)
    requires forall i, j | 0 <= i < |xs| && 0 <= j < |ys| :: xs[i] != ys[j]
    ensures NoDuplicates(xs + ys)
  {
    var all := xs + ys;
    assert forall k | 0 <= k < |all| :: all[k] == if k < |xs| then xs[k] else ys[k - |xs|];
  }

  /** At most n distinct numbers are below n. */
  lemma {:induction false} DistinctBelow(xs: seq<nat>, n: nat)
    requires NoDuplicates(xs) && forall x | x in xs :: x < n
    ensures |xs| <= n
  {
    if xs == [] {
    } else if n > 0 && n - 1 in xs {
      var i :| 0 <= i < |xs| && xs[i] == n - 1;
      var rest := xs[..i] + xs[i + 1..];
      assert forall j | 0 <= j < |rest| :: rest[j] == if j < i then xs[j] else xs[j + 1];
      forall x | x in rest ensures x < n - 1 {
        var j :| 0 <= j < |rest| && rest[j] == x;
        assert x in xs && x != n - 1;
      }
      DistinctBelow(rest, n - 1);
    } else {
      assert xs[0] in xs;
      DistinctBelow(xs, n - 1);
    }
  }

  /** A list without repetition is as long as the set of its members. */
  lemma {:induction false} DistinctCount<T>(xs: seq<T>, members: set<T>)
    requires NoDuplicates(xs) && forall x :: x in members <==> x in xs
    ensures |xs| == |members|
  {
    if xs != [] {
      var last := xs[|xs| - 1];
      var rest := xs[..|xs| - 1];
      forall x ensures x in members - {last} <==> x in rest {
        assert xs == rest + [last];
      }
      DistinctCount(rest, members - {last});
    } else {
      assert members == {};
    }
  }
}
