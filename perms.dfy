/** The orders in which generatePossibleNumberCombinations (generator.php:
    127-139) hands out the free numbers: its foreach takes each remaining
    number in turn as the next one and recurses on the others. `Perms` is that
    enumeration stated on its own, with the facts the generator's theorems
    need: it lists every ordering, nothing else, k! of them, in ascending
    dictionary order when the numbers ascend. */
module Permutations {

  /** The sequence without its j-th entry: `unset($numbersTemp[$key])`. */
  function RemoveAt(xs: seq<int>, j: int): (r: seq<int>)
    requires 0 <= j < |xs|
    ensures |r| == |xs| - 1
    ensures forall i :: 0 <= i < j ==> r[i] == xs[i]
    ensures forall i :: j <= i < |r| ==> r[i] == xs[i + 1]
  {
    xs[..j] + xs[j + 1..]
  }

  lemma RemoveAtMultiset(xs: seq<int>, j: int)
    requires 0 <= j < |xs|
    ensures multiset(RemoveAt(xs, j)) + multiset{xs[j]} == multiset(xs)
  {
    assert xs == xs[..j] + [xs[j]] + xs[j + 1..];
  }

  /** Every sequence of ps with x in front. */
  function Prepend(x: int, ps: seq<seq<int>>): (r: seq<seq<int>>)
    ensures |r| == |ps|
  {
    seq(|ps|, i requires 0 <= i < |ps| => [x] + ps[i])
  }

  /** The orderings of xs in the order the foreach produces them: those that
      start with xs[0], then those that start with xs[1], and so on. */
  function Perms(xs: seq<int>): seq<seq<int>>
    decreases |xs|, 1, 0
  {
    if xs == [] then [[]] else PermsUpTo(xs, |xs|)
  }

  /** The orderings that start with one of xs[0], ..., xs[j - 1]. */
  function PermsUpTo(xs: seq<int>, j: int): seq<seq<int>>
    requires 0 <= j <= |xs|
    decreases |xs|, 0, j
  {
    if j == 0 then [] else PermsUpTo(xs, j - 1) + Prepend(xs[j - 1], Perms(RemoveAt(xs, j - 1)))
  }

  lemma PermsSingle(x: int)
    ensures Perms([x]) == [[x]]
  {
    assert RemoveAt([x], 0) == [];
    assert PermsUpTo([x], 1) == [] + Prepend(x, [[]]);
    assert Prepend(x, [[]])[0] == [x];
  }

  function Factorial(k: nat): nat {
    if k == 0 then 1 else k * Factorial(k - 1)
  }

  /** k numbers have k! orderings. */
  lemma {:induction false} PermsCount(xs: seq<int>)
    ensures |Perms(xs)| == Factorial(|xs|)
    decreases |xs|, 1, 0
  {
    if xs != [] {
      PermsUpToCount(xs, |xs|);
    }
  }

  lemma {:induction false} PermsUpToCount(xs: seq<int>, j: int)
    requires 0 <= j <= |xs| && xs != []
    ensures |PermsUpTo(xs, j)| == j * Factorial(|xs| - 1)
    decreases |xs|, 0, j
  {
    if j > 0 {
      PermsUpToCount(xs, j - 1);
      PermsCount(RemoveAt(xs, j - 1));
      assert j * Factorial(|xs| - 1) == (j - 1) * Factorial(|xs| - 1) + Factorial(|xs| - 1);
    }
  }

  /** Every listed ordering holds exactly the numbers of xs. */
  lemma {:induction false} PermsArePermutations(xs: seq<int>)
    ensures forall i :: 0 <= i < |Perms(xs)| ==> multiset(Perms(xs)[i]) == multiset(xs)
    decreases |xs|, 1, 0
  {
    if xs != [] {
      PermsUpToArePermutations(xs, |xs|);
    }
  }

  lemma {:induction false} PermsUpToArePermutations(xs: seq<int>, j: int)
    requires 0 <= j <= |xs|
    ensures forall i :: 0 <= i < |PermsUpTo(xs, j)| ==> multiset(PermsUpTo(xs, j)[i]) == multiset(xs)
    decreases |xs|, 0, j
  {
    if j > 0 {
      var front, rest := PermsUpTo(xs, j - 1), RemoveAt(xs, j - 1);
      var tail := Prepend(xs[j - 1], Perms(rest));
      PermsUpToArePermutations(xs, j - 1);
      PermsArePermutations(rest);
      RemoveAtMultiset(xs, j - 1);
      forall i | 0 <= i < |tail| ensures multiset(tail[i]) == multiset(xs) {
        assert tail[i] == [xs[j - 1]] + Perms(rest)[i];
      }
      assert PermsUpTo(xs, j) == front + tail;
    }
  }

  /** Every ordering of xs is listed. */
  lemma {:induction false} PermsComplete(xs: seq<int>, q: seq<int>)
    requires multiset(q) == multiset(xs)
    ensures q in Perms(xs)
    decreases |xs|
  {
    if xs == [] {
      assert q == [];
    } else {
      assert q[0] in multiset(xs);
      assert q[0] in xs;
      var j :| 0 <= j < |xs| && xs[j] == q[0];
      var rest := RemoveAt(xs, j);
      TailIsRemoval(xs, q, j);
      PermsComplete(rest, q[1..]);
      var k :| 0 <= k < |Perms(rest)| && Perms(rest)[k] == q[1..];
      assert Prepend(xs[j], Perms(rest))[k] == q;
      PermsUpToContains(xs, |xs|, j, k);
    }
  }

  lemma TailIsRemoval(xs: seq<int>, q: seq<int>, j: int)
    requires multiset(q) == multiset(xs) && 0 <= j < |xs| && q != [] && xs[j] == q[0]
    ensures multiset(q[1..]) == multiset(RemoveAt(xs, j))
  {
    var a, b := multiset(q[1..]), multiset(RemoveAt(xs, j));
    RemoveAtMultiset(xs, j);
    assert q == [q[0]] + q[1..];
    assert a + multiset{q[0]} == b + multiset{q[0]};
    forall v ensures a[v] == b[v] {
      assert (a + multiset{q[0]})[v] == (b + multiset{q[0]})[v];
    }
  }

  /** The block for a candidate k below j is part of PermsUpTo(xs, j). */
  lemma {:induction false} PermsUpToContains(xs: seq<int>, j: int, k: int, i: int)
    requires 0 <= k < j <= |xs| && 0 <= i < |Perms(RemoveAt(xs, k))|
    ensures Prepend(xs[k], Perms(RemoveAt(xs, k)))[i] in PermsUpTo(xs, j)
    decreases j
  {
    if k < j - 1 {
      PermsUpToContains(xs, j - 1, k, i);
    }
  }

  /** Strictly ascending numbers. */
  predicate Increasing(xs: seq<int>) {
    forall i, j :: 0 <= i < j < |xs| ==> xs[i] < xs[j]
  }

  /** a comes strictly before b in dictionary order. */
  predicate LexLess(a: seq<int>, b: seq<int>) {
    exists i :: 0 <= i < |a| && i < |b| && a[..i] == b[..i] && a[i] < b[i]
  }

  /** Every earlier entry comes strictly before every later one; in
      particular no entry repeats. */
  predicate LexSorted(ps: seq<seq<int>>) {
    forall i, j :: 0 <= i < j < |ps| ==> LexLess(ps[i], ps[j])
  }

  /** The same first entry in front keeps the dictionary order. */
  lemma PrependKeepsOrder(x: int, a: seq<int>, b: seq<int>)
    requires LexLess(a, b)
    ensures LexLess([x] + a, [x] + b)
  {
    var i :| 0 <= i < |a| && i < |b| && a[..i] == b[..i] && a[i] < b[i];
    assert ([x] + a)[..i + 1] == [x] + a[..i];
    assert ([x] + b)[..i + 1] == [x] + b[..i];
    assert ([x] + a)[i + 1] == a[i] && ([x] + b)[i + 1] == b[i];
  }

  lemma PrependSorted(x: int, ps: seq<seq<int>>)
    requires LexSorted(ps)
    ensures LexSorted(Prepend(x, ps))
  {
    forall i, j | 0 <= i < j < |ps| ensures LexLess(Prepend(x, ps)[i], Prepend(x, ps)[j]) {
      PrependKeepsOrder(x, ps[i], ps[j]);
    }
  }

  lemma RemoveAtIncreasing(xs: seq<int>, j: int)
    requires 0 <= j < |xs| && Increasing(xs)
    ensures Increasing(RemoveAt(xs, j))
  {
    var r := RemoveAt(xs, j);
    forall a, b | 0 <= a < b < |r| ensures r[a] < r[b] {
      var a' := if a < j then a else a + 1;
      var b' := if b < j then b else b + 1;
      assert r[a] == xs[a'] && r[b] == xs[b'];
    }
  }

  /** For ascending numbers the orderings come out in ascending dictionary
      order, so each appears once. */
  lemma {:induction false} PermsSorted(xs: seq<int>)
    requires Increasing(xs)
    ensures LexSorted(Perms(xs))
    decreases |xs|, 1, 0
  {
    if xs != [] {
      PermsUpToSorted(xs, |xs|);
    }
  }

  lemma {:induction false} PermsUpToSorted(xs: seq<int>, j: int)
    requires 0 <= j <= |xs| && Increasing(xs)
    ensures LexSorted(PermsUpTo(xs, j))
    ensures j > 0 ==> forall i :: 0 <= i < |PermsUpTo(xs, j)| ==>
      PermsUpTo(xs, j)[i] != [] && PermsUpTo(xs, j)[i][0] <= xs[j - 1]
    decreases |xs|, 0, j
  {
    if j > 0 {
      var front, rest := PermsUpTo(xs, j - 1), RemoveAt(xs, j - 1);
      var tail := Prepend(xs[j - 1], Perms(rest));
      PermsUpToSorted(xs, j - 1);
      RemoveAtIncreasing(xs, j - 1);
      PermsSorted(rest);
      PrependSorted(xs[j - 1], Perms(rest));
      assert PermsUpTo(xs, j) == front + tail;
      forall a, b | 0 <= a < |front| && 0 <= b < |tail| ensures LexLess(front[a], tail[b]) {
        assert tail[b] == [xs[j - 1]] + Perms(rest)[b];
        assert front[a][0] <= xs[j - 2] < xs[j - 1];
        assert front[a][..0] == tail[b][..0];
      }
      forall i | 0 <= i < |tail| ensures tail[i] != [] && tail[i][0] == xs[j - 1] {
        assert tail[i] == [xs[j - 1]] + Perms(rest)[i];
      }
      forall i | 0 <= i < |front| ensures front[i][0] <= xs[j - 1] {
        assert front[i][0] <= xs[j - 2];
      }
    }
  }
}
