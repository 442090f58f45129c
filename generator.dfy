/** SudokuGenerator (generator.php): the combinations of one block that keep
    the digits already placed, and the conversion of the browser's cell array
    into a gameset. A symbol is an int as in the calculator (0 is an empty
    cell); a combination or a gameset is a sequence of symbols. */
module Generator {
  import opened Wrappers
  import opened SudokuGame
  import opened Permutations
  import Rules

  // ---------------------------------------------------------------------
  // generatePossibleNumberCombinations, generator.php:104-149
  // ---------------------------------------------------------------------

  /** `reset($numbers); current($numbers)` appended to a string: the first
      remaining number, or nothing at all, as `current` of an empty array is
      false and false prints as the empty string. */
  function First(numbers: seq<int>): (r: seq<int>)
    ensures |r| == if numbers == [] then 0 else 1
    ensures numbers != [] ==> r[0] == numbers[0]
  {
    if numbers == [] then [] else [numbers[0]]
  }

  /** The combinations one call appends to generatedCombinations, in order.
      `fixed` maps a position of the combination to the symbol already
      placed there; `comb` is the combination built so far. */
  function Combinations(numbers: seq<int>, fixed: map<int, int>, comb: seq<int>): seq<seq<int>>
    decreases |numbers| + |fixed|, 1, 0
  {
    var L := |comb|;
    if L in fixed then
      var placed, rest := comb + [fixed[L]], fixed - {L};
      if |numbers| == 0 && |rest| == 0 then [placed]
      else if |numbers| > 1 || |rest| > 0 then Combinations(numbers, rest, placed)
      else [placed + First(numbers)]
    else if |numbers| > 1 || |fixed| > 0 then Branches(numbers, fixed, comb, |numbers|)
    else [comb + First(numbers)]
  }

  /** The first j rounds of the foreach over the remaining numbers. */
  function Branches(numbers: seq<int>, fixed: map<int, int>, comb: seq<int>, j: int): seq<seq<int>>
    requires 0 <= j <= |numbers|
    decreases |numbers| + |fixed|, 0, j
  {
    if j == 0 then []
    else Branches(numbers, fixed, comb, j - 1) + Combinations(RemoveAt(numbers, j - 1), fixed, comb + [numbers[j - 1]])
  }

  /** The cells from position pos on: a fixed position takes its symbol, any
      other the next number of p; it ends when p runs out at a free cell. */
  function Fill(fixed: map<int, int>, pos: int, p: seq<int>): seq<int>
    decreases |fixed| + |p|
  {
    if pos in fixed then [fixed[pos]] + Fill(fixed - {pos}, pos + 1, p)
    else if p == [] then []
    else [p[0]] + Fill(fixed, pos + 1, p[1..])
  }

  /** Every fixed position lies among the k + |fixed| cells from pos on. */
  predicate Fits(fixed: map<int, int>, pos: int, k: int) {
    forall key :: key in fixed ==> pos <= key < pos + k + |fixed|
  }

  /** Each ordering filled into the free cells after comb. */
  function Completed(ps: seq<seq<int>>, fixed: map<int, int>, comb: seq<int>): (r: seq<seq<int>>)
    ensures |r| == |ps|
  {
    seq(|ps|, i requires 0 <= i < |ps| => comb + Fill(fixed, |comb|, ps[i]))
  }

  lemma CompletedAppend(a: seq<seq<int>>, b: seq<seq<int>>, fixed: map<int, int>, comb: seq<int>)
    ensures Completed(a + b, fixed, comb) == Completed(a, fixed, comb) + Completed(b, fixed, comb)
  {
  }

  lemma {:induction false} FillNothingFixed(pos: int, p: seq<int>)
    ensures Fill(map[], pos, p) == p
    decreases |p|
  {
    if p != [] {
      FillNothingFixed(pos + 1, p[1..]);
    }
  }

  /** More positions than cells to hold them: a set of keys inside [lo, hi). */
  lemma {:induction false} KeysWithin(keys: set<int>, lo: int, hi: int)
    requires forall k :: k in keys ==> lo <= k < hi
    ensures |keys| <= if lo <= hi then hi - lo else 0
    decreases hi - lo
  {
    if hi <= lo {
      assert forall k :: k !in keys;
      assert keys == {};
    } else {
      KeysWithin(keys - {hi - 1}, lo, hi - 1);
    }
  }

  /** When no number is left and pos is free, nothing can still be fixed. */
  lemma NothingLeftToFix(fixed: map<int, int>, pos: int)
    requires Fits(fixed, pos, 0) && pos !in fixed
    ensures fixed == map[]
  {
    KeysWithin(fixed.Keys, pos + 1, pos + |fixed|);
    assert |fixed.Keys| == |fixed|;
  }

  lemma FitsPlaced(fixed: map<int, int>, pos: int, k: int)
    requires pos in fixed && k >= 0
    ensures Fits(fixed - {pos}, pos + 1, k) <==> Fits(fixed, pos, k)
  {
    var rest := fixed - {pos};
    assert |rest| == |fixed| - 1;
    if Fits(rest, pos + 1, k) {
      forall key | key in fixed ensures pos <= key < pos + k + |fixed| {
        if key != pos {
          assert key in rest;
        }
      }
    }
  }

  lemma FitsFree(fixed: map<int, int>, pos: int, k: int)
    requires pos !in fixed
    ensures Fits(fixed, pos + 1, k - 1) <==> Fits(fixed, pos, k)
  {
  }

  /** Taking the fixed symbol at the next cell is filling from the cell
      after it. */
  lemma CompletedPlaced(ps: seq<seq<int>>, fixed: map<int, int>, comb: seq<int>)
    requires |comb| in fixed
    ensures Completed(ps, fixed - {|comb|}, comb + [fixed[|comb|]]) == Completed(ps, fixed, comb)
  {
    var L := |comb|;
    forall i | 0 <= i < |ps|
      ensures Completed(ps, fixed - {L}, comb + [fixed[L]])[i] == Completed(ps, fixed, comb)[i]
    {
      assert Fill(fixed, L, ps[i]) == [fixed[L]] + Fill(fixed - {L}, L + 1, ps[i]);
    }
  }

  /** Taking x at a free cell is filling orderings that start with x. */
  lemma CompletedFree(ps: seq<seq<int>>, fixed: map<int, int>, comb: seq<int>, x: int)
    requires |comb| !in fixed
    ensures Completed(ps, fixed, comb + [x]) == Completed(Prepend(x, ps), fixed, comb)
  {
    var L := |comb|;
    forall i | 0 <= i < |ps|
      ensures Completed(ps, fixed, comb + [x])[i] == Completed(Prepend(x, ps), fixed, comb)[i]
    {
      assert Prepend(x, ps)[i] == [x] + ps[i];
      assert ([x] + ps[i])[1..] == ps[i];
      assert Fill(fixed, L, [x] + ps[i]) == [x] + Fill(fixed, L + 1, ps[i]);
    }
  }

  /** generatePossibleNumberCombinations lists every ordering of the
      remaining numbers, in the foreach's order, filled into the free cells;
      a fixed position beyond the cells the numbers can reach yields
      nothing. */
  lemma {:induction false} CombinationsAreFilled(numbers: seq<int>, fixed: map<int, int>, comb: seq<int>)
    ensures Combinations(numbers, fixed, comb) ==
      if Fits(fixed, |comb|, |numbers|) then Completed(Perms(numbers), fixed, comb) else []
    decreases |numbers| + |fixed|, 1, 0
  {
    var L := |comb|;
    if L in fixed {
      var placed, rest := comb + [fixed[L]], fixed - {L};
      FitsPlaced(fixed, L, |numbers|);
      CompletedPlaced(Perms(numbers), fixed, comb);
      if |numbers| == 0 && |rest| == 0 {
        assert rest == map[] && numbers == [];
        FillNothingFixed(L + 1, []);
        assert Perms(numbers) == [[]];
        assert Completed([[]], rest, placed)[0] == placed + Fill(rest, L + 1, []) == placed;
        assert Completed([[]], rest, placed) == [placed];
        assert Fits(rest, L + 1, 0);
      } else if |numbers| > 1 || |rest| > 0 {
        CombinationsAreFilled(numbers, rest, placed);
      } else {
        assert rest == map[];
        PermsSingle(numbers[0]);
        assert numbers == [numbers[0]];
        FillNothingFixed(L + 1, numbers);
        assert [] + numbers == numbers;
      }
    } else if |numbers| > 1 || |fixed| > 0 {
      BranchesAreFilled(numbers, fixed, comb, |numbers|);
      if numbers == [] && Fits(fixed, L, 0) {
        NothingLeftToFix(fixed, L);
      }
    } else {
      assert fixed == map[];
      FillNothingFixed(L, numbers);
      if numbers != [] {
        PermsSingle(numbers[0]);
        assert numbers == [numbers[0]];
      }
    }
  }

  lemma {:induction false} BranchesAreFilled(numbers: seq<int>, fixed: map<int, int>, comb: seq<int>, j: int)
    requires 0 <= j <= |numbers| && |comb| !in fixed
    ensures Branches(numbers, fixed, comb, j) ==
      if Fits(fixed, |comb|, |numbers|) then Completed(PermsUpTo(numbers, j), fixed, comb) else []
    decreases |numbers| + |fixed|, 0, j
  {
    if j > 0 {
      var x, rest := numbers[j - 1], RemoveAt(numbers, j - 1);
      BranchesAreFilled(numbers, fixed, comb, j - 1);
      CombinationsAreFilled(rest, fixed, comb + [x]);
      FitsFree(fixed, |comb|, |numbers|);
      if Fits(fixed, |comb|, |numbers|) {
        CompletedFree(Perms(rest), fixed, comb, x);
        CompletedAppend(PermsUpTo(numbers, j - 1), Prepend(x, Perms(rest)), fixed, comb);
      }
    }
  }

  /** Filling keeps dictionary order between two orderings. */
  lemma {:induction false} FillKeepsOrder(fixed: map<int, int>, pos: int, p: seq<int>, q: seq<int>)
    requires LexLess(p, q)
    ensures LexLess(Fill(fixed, pos, p), Fill(fixed, pos, q))
    decreases |fixed| + |p|
  {
    if pos in fixed {
      FillKeepsOrder(fixed - {pos}, pos + 1, p, q);
      PrependKeepsOrder(fixed[pos], Fill(fixed - {pos}, pos + 1, p), Fill(fixed - {pos}, pos + 1, q));
    } else {
      var i :| 0 <= i < |p| && i < |q| && p[..i] == q[..i] && p[i] < q[i];
      var fp, fq := Fill(fixed, pos, p), Fill(fixed, pos, q);
      if i == 0 {
        assert fp[..0] == fq[..0] && fp[0] < fq[0];
      } else {
        assert p[0] == p[..i][0] == q[..i][0] == q[0];
        assert p[1..][..i - 1] == p[..i][1..] == q[..i][1..] == q[1..][..i - 1];
        assert LexLess(p[1..], q[1..]) by {
          assert p[1..][i - 1] < q[1..][i - 1];
        }
        FillKeepsOrder(fixed, pos + 1, p[1..], q[1..]);
        PrependKeepsOrder(p[0], Fill(fixed, pos + 1, p[1..]), Fill(fixed, pos + 1, q[1..]));
      }
    }
  }

  lemma CompletedSorted(ps: seq<seq<int>>, fixed: map<int, int>, comb: seq<int>)
    requires LexSorted(ps)
    ensures LexSorted(Completed(ps, fixed, comb))
  {
    var r := Completed(ps, fixed, comb);
    forall i, j | 0 <= i < j < |ps| ensures LexLess(r[i], r[j]) {
      FillKeepsOrder(fixed, |comb|, ps[i], ps[j]);
      AppendKeepsOrder(comb, Fill(fixed, |comb|, ps[i]), Fill(fixed, |comb|, ps[j]));
    }
  }

  lemma AppendKeepsOrder(comb: seq<int>, a: seq<int>, b: seq<int>)
    requires LexLess(a, b)
    ensures LexLess(comb + a, comb + b)
  {
    var i :| 0 <= i < |a| && i < |b| && a[..i] == b[..i] && a[i] < b[i];
    var j := |comb| + i;
    assert (comb + a)[..j] == comb + a[..i];
    assert (comb + b)[..j] == comb + b[..i];
    assert (comb + a)[j] == a[i] && (comb + b)[j] == b[i];
  }

  // ---------------------------------------------------------------------
  // The fixed positions of a gameset string, generator.php:63-83
  // ---------------------------------------------------------------------

  /** `array_search`: the first index holding x. */
  function IndexOf(xs: seq<int>, x: int): (r: Option<nat>)
    ensures r.None? <==> x !in xs
    ensures r.Some? ==> r.value < |xs| && xs[r.value] == x
  {
    if xs == [] then None
    else if xs[0] == x then Some(0)
    else match IndexOf(xs[1..], x)
      case None => None
      case Some(k) => Some(k + 1)
  }

  /** The loop over the given string from position i on: '0' is skipped,
      any other symbol is recorded at its position and taken out of the
      numbers still available, and one no longer available is refused. */
  function ScanFrom(s: seq<int>, i: nat, range: seq<int>, fixed: map<int, int>):
    Result<(seq<int>, map<int, int>)>
    decreases |s| - i
  {
    if i >= |s| then Ok((range, fixed))
    else if s[i] == 0 then ScanFrom(s, i + 1, range, fixed)
    else match IndexOf(range, s[i])
      case None => Err(UnknownNumber)
      case Some(k) => ScanFrom(s, i + 1, RemoveAt(range, k), fixed[i := s[i]])
  }

  /** generateBlockCombinations as a function of the game size n and the
      given string. */
  function BlockCombinations(n: int, s: seq<int>): Result<seq<seq<int>>> {
    var scan :- ScanFrom(s, 0, Range(1, n), map[]);
    Ok(Combinations(scan.0, scan.1, []))
  }

  /** The symbols already placed between positions lo and hi. */
  function Fixed(s: seq<int>, lo: int, hi: int): map<int, int>
    requires 0 <= lo && hi <= |s|
  {
    map k | lo <= k < hi && s[k] != 0 :: s[k]
  }

  /** The numbers of xs that do not occur in used, in order. */
  function Without(xs: seq<int>, used: seq<int>): seq<int> {
    if xs == [] then [] else (if xs[0] in used then [] else [xs[0]]) + Without(xs[1..], used)
  }

  /** Every symbol other than '0' is one of 1..n and occurs once. */
  predicate Acceptable(n: int, s: seq<int>) {
    (forall k :: 0 <= k < |s| && s[k] != 0 ==> 1 <= s[k] <= n) && Rules.NoRepeats(s)
  }

  /** What the scan of a whole string ends with: the unused numbers in
      ascending order and the placed symbols by position, or the refusal. */
  function Scanned(n: int, s: seq<int>): Result<(seq<int>, map<int, int>)> {
    if Acceptable(n, s) then Ok((Without(Range(1, n), s), Fixed(s, 0, |s|))) else Err(UnknownNumber)
  }

  /** Every symbol other than '0' stands at one of the n cells of a block. */
  predicate WithinBlock(n: int, s: seq<int>) {
    forall k :: 0 <= k < |s| && s[k] != 0 ==> k < n
  }

  /** The block combinations the source is meant to produce: n cells holding
      each of 1..n once and keeping every symbol already placed. */
  predicate Completes(n: int, s: seq<int>, c: seq<int>) {
    |c| == n && multiset(c) == multiset(Range(1, n)) &&
    forall k :: 0 <= k < |s| && s[k] != 0 ==> k < n && c[k] == s[k]
  }

  lemma RangeFacts(n: int)
    requires n >= 1
    ensures Increasing(Range(1, n))
    ensures forall x :: x in Range(1, n) <==> 1 <= x <= n
  {
    var r := Range(1, n);
    forall x ensures x in r <==> 1 <= x <= n {
      if 1 <= x <= n {
        assert r[x - 1] == x;
      }
    }
  }

  lemma {:induction false} WithoutMembers(xs: seq<int>, used: seq<int>)
    ensures forall x :: x in Without(xs, used) <==> x in xs && x !in used
    decreases |xs|
  {
    if xs != [] {
      WithoutMembers(xs[1..], used);
      assert xs == [xs[0]] + xs[1..];
    }
  }

  lemma {:induction false} WithoutIncreasing(xs: seq<int>, used: seq<int>)
    requires Increasing(xs)
    ensures Increasing(Without(xs, used))
    decreases |xs|
  {
    if xs != [] {
      WithoutIncreasing(xs[1..], used);
      WithoutMembers(xs[1..], used);
      var w := Without(xs[1..], used);
      forall k | 0 <= k < |w| ensures xs[0] < w[k] {
        assert w[k] in w;
        assert w[k] in xs[1..];
      }
    }
  }

  /** A used value that xs does not hold changes nothing. */
  lemma {:induction false} WithoutIgnores(xs: seq<int>, used: seq<int>, x: int)
    requires x !in xs
    ensures Without(xs, used + [x]) == Without(xs, used)
    decreases |xs|
  {
    if xs != [] {
      WithoutIgnores(xs[1..], used, x);
    }
  }

  /** Taking out the entry x of Without(xs, used) is using x as well. */
  lemma {:induction false} WithoutRemove(xs: seq<int>, used: seq<int>, x: int, k: int)
    requires Increasing(xs) && 0 <= k < |Without(xs, used)| && Without(xs, used)[k] == x
    ensures RemoveAt(Without(xs, used), k) == Without(xs, used + [x])
    decreases |xs|
  {
    assert Increasing(xs[1..]);
    if xs[0] in used {
      assert Without(xs, used) == Without(xs[1..], used);
      assert Without(xs, used + [x]) == Without(xs[1..], used + [x]);
      WithoutRemove(xs[1..], used, x, k);
    } else if k == 0 {
      WithoutRemoveFirst(xs, used, x);
    } else {
      var w' := Without(xs[1..], used);
      assert Without(xs, used) == [xs[0]] + w';
      WithoutRemoveLater(xs, used, x, k);
      WithoutRemove(xs[1..], used, x, k - 1);
      assert RemoveAt([xs[0]] + w', k) == [xs[0]] + RemoveAt(w', k - 1);
    }
  }

  lemma WithoutRemoveFirst(xs: seq<int>, used: seq<int>, x: int)
    requires Increasing(xs) && xs != [] && xs[0] !in used && xs[0] == x
    ensures RemoveAt(Without(xs, used), 0) == Without(xs, used + [x])
  {
    assert x !in xs[1..];
    WithoutIgnores(xs[1..], used, x);
  }

  /** An entry after the first of Without(xs, used) is not xs[0]. */
  lemma WithoutRemoveLater(xs: seq<int>, used: seq<int>, x: int, k: int)
    requires Increasing(xs) && xs != [] && xs[0] !in used
    requires 0 < k < |Without(xs, used)| && Without(xs, used)[k] == x
    ensures xs[0] != x && Without(xs, used + [x]) == [xs[0]] + Without(xs[1..], used + [x])
  {
    var w' := Without(xs[1..], used);
    assert Without(xs, used) == [xs[0]] + w';
    WithoutMembers(xs[1..], used);
    assert w'[k - 1] == x && x in w';
    assert xs[0] !in xs[1..];
  }

  lemma {:induction false} WithoutNothing(xs: seq<int>)
    ensures Without(xs, []) == xs
    decreases |xs|
  {
    if xs != [] {
      WithoutNothing(xs[1..]);
    }
  }

  lemma AcceptablePrefix(n: int, s: seq<int>, i: int)
    requires 0 <= i <= |s| && Acceptable(n, s)
    ensures Acceptable(n, s[..i])
  {
  }

  lemma RefusedPrefix(n: int, s: seq<int>, i: int)
    requires 0 <= i <= |s| && !Acceptable(n, s[..i])
    ensures !Acceptable(n, s)
  {
    if Acceptable(n, s) {
      AcceptablePrefix(n, s, i);
    }
  }

  /** One more symbol is accepted when it is '0', or one of 1..n not seen
      before. */
  lemma AcceptableStep(n: int, s: seq<int>, i: int)
    requires 0 <= i < |s| && Acceptable(n, s[..i])
    ensures Acceptable(n, s[..i + 1]) <==> s[i] == 0 || (1 <= s[i] <= n && s[i] !in s[..i])
  {
    var t, u, x := s[..i], s[..i + 1], s[i];
    assert u == t + [x];
    if x != 0 && x in t {
      var j :| 0 <= j < i && t[j] == x;
      assert u[j] == u[i] && u[j] != 0;
    }
    if x == 0 || (1 <= x <= n && x !in t) {
      forall a, b | 0 <= a < b < |u| && u[a] != 0 ensures u[a] != u[b] {
        if b == i {
          assert u[a] == t[a];
        } else {
          assert u[a] == t[a] && u[b] == t[b];
        }
      }
    }
  }

  lemma FixedStep(s: seq<int>, i: int)
    requires 0 <= i < |s|
    ensures s[i] != 0 ==> Fixed(s, 0, i)[i := s[i]] == Fixed(s, 0, i + 1)
    ensures s[i] == 0 ==> Fixed(s, 0, i) == Fixed(s, 0, i + 1)
  {
  }

  /** The loop over the string from position i on, given that the symbols
      before i were accepted. */
  lemma {:induction false} ScanFromSpec(n: int, s: seq<int>, i: int)
    requires n >= 1 && 0 <= i <= |s| && Acceptable(n, s[..i])
    ensures ScanFrom(s, i, Without(Range(1, n), s[..i]), Fixed(s, 0, i)) == Scanned(n, s)
    decreases |s| - i
  {
    var R := Range(1, n);
    if i == |s| {
      assert s[..i] == s;
    } else {
      var t, x := s[..i], s[i];
      assert s[..i + 1] == t + [x];
      AcceptableStep(n, s, i);
      FixedStep(s, i);
      RangeFacts(n);
      if x == 0 {
        WithoutIgnores(R, t, 0);
        ScanFromSpec(n, s, i + 1);
      } else {
        var w := Without(R, t);
        WithoutMembers(R, t);
        if IndexOf(w, x).None? {
          RefusedPrefix(n, s, i + 1);
        } else {
          WithoutRemove(R, t, x, IndexOf(w, x).value);
          ScanFromSpec(n, s, i + 1);
        }
      }
    }
  }

  /** The loop of generateBlockCombinations succeeds exactly when every
      symbol is one of 1..n and none repeats. */
  lemma ScanStart(n: int, s: seq<int>)
    requires n >= 1
    ensures ScanFrom(s, 0, Range(1, n), map[]) == Scanned(n, s)
  {
    assert s[..0] == [];
    WithoutNothing(Range(1, n));
    assert Fixed(s, 0, 0) == map[];
    ScanFromSpec(n, s, 0);
  }

  lemma {:induction false} NonZeroSnoc(t: seq<int>, x: int)
    ensures Rules.NonZero(t + [x]) == Rules.NonZero(t) + (if x == 0 then [] else [x])
    decreases |t|
  {
    if t == [] {
      assert [x][1..] == [];
    } else {
      NonZeroSnoc(t[1..], x);
      assert (t + [x])[1..] == t[1..] + [x];
    }
  }

  /** The unused numbers and the placed symbols are together 1..n. */
  lemma {:induction false} RemainingMultiset(n: int, s: seq<int>)
    requires n >= 1 && Acceptable(n, s)
    ensures multiset(Without(Range(1, n), s)) + multiset(Rules.NonZero(s)) == multiset(Range(1, n))
    decreases |s|
  {
    if s == [] {
      WithoutNothing(Range(1, n));
    } else {
      var i := |s| - 1;
      var t, x := s[..i], s[i];
      assert s == t + [x];
      assert Acceptable(n, t) && (x == 0 || (1 <= x <= n && x !in t)) by {
        AcceptablePrefix(n, s, i);
        assert s[..i + 1] == s;
        AcceptableStep(n, s, i);
      }
      RemainingMultiset(n, t);
      RemainingSnoc(n, t, x);
    }
  }

  /** One more accepted symbol keeps the unused numbers and the placed
      symbols together equal to 1..n. */
  lemma RemainingSnoc(n: int, t: seq<int>, x: int)
    requires n >= 1 && (x == 0 || (1 <= x <= n && x !in t))
    requires multiset(Without(Range(1, n), t)) + multiset(Rules.NonZero(t)) == multiset(Range(1, n))
    ensures multiset(Without(Range(1, n), t + [x])) + multiset(Rules.NonZero(t + [x])) == multiset(Range(1, n))
  {
    var R := Range(1, n);
    NonZeroSnoc(t, x);
    RangeFacts(n);
    if x == 0 {
      WithoutIgnores(R, t, 0);
    } else {
      UseOne(R, t, x);
    }
  }

  /** Using one more number x of xs takes exactly x out. */
  lemma UseOne(xs: seq<int>, used: seq<int>, x: int)
    requires Increasing(xs) && x in xs && x !in used
    ensures multiset(Without(xs, used + [x])) + multiset{x} == multiset(Without(xs, used))
  {
    var w := Without(xs, used);
    WithoutMembers(xs, used);
    assert x in w;
    var k := IndexOf(w, x).value;
    WithoutRemove(xs, used, x, k);
    RemoveAtMultiset(w, k);
  }

  lemma FixedFrom(s: seq<int>, pos: int)
    requires 0 <= pos < |s|
    ensures s[pos] != 0 ==> Fixed(s, pos, |s|) - {pos} == Fixed(s, pos + 1, |s|)
    ensures s[pos] == 0 ==> Fixed(s, pos, |s|) == Fixed(s, pos + 1, |s|)
  {
  }

  /** The placed symbols from pos on are as many as the nonzero entries. */
  lemma {:induction false} FixedCount(s: seq<int>, pos: int)
    requires 0 <= pos <= |s|
    ensures |Fixed(s, pos, |s|)| == |Rules.NonZero(s[pos..])|
    decreases |s| - pos
  {
    if pos == |s| {
      assert Fixed(s, pos, |s|) == map[];
    } else {
      FixedCount(s, pos + 1);
      FixedFrom(s, pos);
      assert s[pos..][1..] == s[pos + 1..];
    }
  }

  lemma {:induction false} AllBlank(t: seq<int>)
    requires forall k :: 0 <= k < |t| ==> t[k] == 0
    ensures Rules.NonZero(t) == []
    decreases |t|
  {
    if t != [] {
      AllBlank(t[1..]);
    }
  }

  /** fixed holds exactly the symbols of s other than '0' from pos on, by
      position. */
  predicate Places(fixed: map<int, int>, s: seq<int>, pos: int) {
    0 <= pos &&
    (forall k :: k in fixed ==> pos <= k < |s| && s[k] != 0 && fixed[k] == s[k]) &&
    (forall k :: pos <= k < |s| && s[k] != 0 ==> k in fixed)
  }

  lemma FixedPlaces(s: seq<int>, pos: int)
    requires 0 <= pos <= |s|
    ensures Places(Fixed(s, pos, |s|), s, pos)
  {
  }

  /** Filling the free cells of s from pos on with q gives the placed
      symbols and the numbers of q. */
  lemma {:induction false} FillGamesetCount(s: seq<int>, pos: int, fixed: map<int, int>, q: seq<int>)
    requires 0 <= pos <= |s| && Places(fixed, s, pos) && Fits(fixed, pos, |q|)
    ensures multiset(Fill(fixed, pos, q)) == multiset(Rules.NonZero(s[pos..])) + multiset(q)
    ensures |Fill(fixed, pos, q)| == |Rules.NonZero(s[pos..])| + |q|
    decreases |s| - pos, 1
  {
    if pos == |s| {
      assert forall k :: k !in fixed;
      assert fixed == map[];
      FillNothingFixed(pos, q);
    } else if s[pos] != 0 {
      CountPlaced(s, pos, fixed, q);
    } else if q == [] {
      assert pos !in fixed;
      NothingLeftToFix(fixed, pos);
      AllBlank(s[pos..]);
    } else {
      CountFree(s, pos, fixed, q);
    }
  }

  /** FillGamesetCount at a placed cell. */
  lemma {:induction false} CountPlaced(s: seq<int>, pos: int, fixed: map<int, int>, q: seq<int>)
    requires 0 <= pos < |s| && s[pos] != 0 && Places(fixed, s, pos) && Fits(fixed, pos, |q|)
    ensures multiset(Fill(fixed, pos, q)) == multiset(Rules.NonZero(s[pos..])) + multiset(q)
    ensures |Fill(fixed, pos, q)| == |Rules.NonZero(s[pos..])| + |q|
    decreases |s| - pos, 0
  {
    assert pos in fixed;
    var next := fixed - {pos};
    FitsPlaced(fixed, pos, |q|);
    FillGamesetCount(s, pos + 1, next, q);
    assert Fill(fixed, pos, q) == [s[pos]] + Fill(next, pos + 1, q);
    NonZeroFrom(s, pos);
  }

  /** FillGamesetCount at a free cell with numbers left to place. */
  lemma {:induction false} CountFree(s: seq<int>, pos: int, fixed: map<int, int>, q: seq<int>)
    requires 0 <= pos < |s| && s[pos] == 0 && q != [] && Places(fixed, s, pos) && Fits(fixed, pos, |q|)
    ensures multiset(Fill(fixed, pos, q)) == multiset(Rules.NonZero(s[pos..])) + multiset(q)
    ensures |Fill(fixed, pos, q)| == |Rules.NonZero(s[pos..])| + |q|
    decreases |s| - pos, 0
  {
    assert pos !in fixed;
    FitsFree(fixed, pos, |q|);
    FillGamesetCount(s, pos + 1, fixed, q[1..]);
    FreeCountStep(s, pos, fixed, q);
  }

  /** The count at a free cell from the count at the next one. */
  lemma FreeCountStep(s: seq<int>, pos: int, fixed: map<int, int>, q: seq<int>)
    requires 0 <= pos < |s| && s[pos] == 0 && q != [] && pos !in fixed
    requires multiset(Fill(fixed, pos + 1, q[1..])) == multiset(Rules.NonZero(s[pos + 1..])) + multiset(q[1..])
    requires |Fill(fixed, pos + 1, q[1..])| == |Rules.NonZero(s[pos + 1..])| + |q[1..]|
    ensures multiset(Fill(fixed, pos, q)) == multiset(Rules.NonZero(s[pos..])) + multiset(q)
    ensures |Fill(fixed, pos, q)| == |Rules.NonZero(s[pos..])| + |q|
  {
    var rest := q[1..];
    FillFreeAt(fixed, pos, q);
    NonZeroFrom(s, pos);
    assert q == [q[0]] + rest;
    FrontCount(q[0], Fill(fixed, pos + 1, rest), Rules.NonZero(s[pos + 1..]), rest);
  }

  /** At a free cell Fill takes the next number of p. */
  lemma FillFreeAt(fixed: map<int, int>, pos: int, p: seq<int>)
    requires pos !in fixed && p != []
    ensures Fill(fixed, pos, p) == [p[0]] + Fill(fixed, pos + 1, p[1..])
  {
  }

  /** Dropping the first remaining entry of s. */
  lemma NonZeroFrom(s: seq<int>, pos: int)
    requires 0 <= pos < |s|
    ensures Rules.NonZero(s[pos..]) == (if s[pos] == 0 then [] else [s[pos]]) + Rules.NonZero(s[pos + 1..])
  {
    assert s[pos..][1..] == s[pos + 1..];
  }

  /** One more number in front of a filling and of the numbers it places. */
  lemma FrontCount(x: int, f: seq<int>, z: seq<int>, rest: seq<int>)
    requires multiset(f) == multiset(z) + multiset(rest) && |f| == |z| + |rest|
    ensures multiset([x] + f) == multiset(z) + multiset([x] + rest)
    ensures |[x] + f| == |z| + |[x] + rest|
  {
  }

  /** Filling keeps every placed symbol at its position. */
  lemma {:induction false} FillGamesetKeeps(s: seq<int>, pos: int, fixed: map<int, int>, q: seq<int>)
    requires 0 <= pos <= |s| && Places(fixed, s, pos) && Fits(fixed, pos, |q|)
    ensures forall k :: pos <= k < |s| && s[k] != 0 ==>
      k - pos < |Fill(fixed, pos, q)| && Fill(fixed, pos, q)[k - pos] == s[k]
    decreases |s| - pos
  {
    if pos < |s| {
      var f := Fill(fixed, pos, q);
      if s[pos] != 0 {
        assert pos in fixed;
        var next := fixed - {pos};
        FitsPlaced(fixed, pos, |q|);
        FillGamesetKeeps(s, pos + 1, next, q);
        var f' := Fill(next, pos + 1, q);
        assert f == [s[pos]] + f';
        forall k | pos < k < |s| && s[k] != 0 ensures k - pos < |f| && f[k - pos] == s[k] {
          assert f[k - pos] == f'[k - (pos + 1)];
        }
      } else if q == [] {
        assert pos !in fixed;
        NothingLeftToFix(fixed, pos);
      } else {
        assert pos !in fixed;
        FitsFree(fixed, pos, |q|);
        FillGamesetKeeps(s, pos + 1, fixed, q[1..]);
        var f' := Fill(fixed, pos + 1, q[1..]);
        assert f == [q[0]] + f';
        forall k | pos < k < |s| && s[k] != 0 ensures k - pos < |f| && f[k - pos] == s[k] {
          assert f[k - pos] == f'[k - (pos + 1)];
        }
      }
    }
  }

  /** The entries of c at the cells t leaves free, in order. */
  function FreeOf(t: seq<int>, c: seq<int>): seq<int>
    decreases |c|
  {
    if c == [] then []
    else if t != [] && t[0] != 0 then FreeOf(t[1..], c[1..])
    else [c[0]] + FreeOf(if t == [] then [] else t[1..], c[1..])
  }

  lemma {:induction false} FreeOfNothing(c: seq<int>)
    ensures FreeOf([], c) == c
    decreases |c|
  {
    if c != [] {
      FreeOfNothing(c[1..]);
    }
  }

  /** Every placed symbol from pos on has its cell in c and agrees with it. */
  predicate KeepsFrom(s: seq<int>, pos: int, c: seq<int>) {
    forall k :: 0 <= pos <= k < |s| && s[k] != 0 ==> k - pos < |c| && c[k - pos] == s[k]
  }

  /** A sequence that keeps the placed symbols is the filling of its own
      free entries. */
  lemma {:induction false} FillFree(s: seq<int>, pos: int, c: seq<int>)
    requires 0 <= pos <= |s| && KeepsFrom(s, pos, c)
    ensures Fill(Fixed(s, pos, |s|), pos, FreeOf(s[pos..], c)) == c
    decreases |c|
  {
    var fixed := Fixed(s, pos, |s|);
    if pos == |s| {
      assert fixed == map[] && s[pos..] == [];
      FreeOfNothing(c);
      FillNothingFixed(pos, c);
    } else if c == [] {
      assert forall k :: k !in fixed;
      assert fixed == map[];
    } else {
      FixedFrom(s, pos);
      assert s[pos..][1..] == s[pos + 1..];
      assert KeepsFrom(s, pos + 1, c[1..]);
      FillFree(s, pos + 1, c[1..]);
    }
  }

  /** The free entries and the placed symbols are together the entries of c. */
  lemma {:induction false} FreeMultiset(s: seq<int>, pos: int, c: seq<int>)
    requires 0 <= pos <= |s| && KeepsFrom(s, pos, c)
    ensures multiset(FreeOf(s[pos..], c)) + multiset(Rules.NonZero(s[pos..])) == multiset(c)
    decreases |c|
  {
    if pos == |s| {
      assert s[pos..] == [];
      FreeOfNothing(c);
    } else if c == [] {
      assert forall k :: pos <= k < |s| ==> s[k] == 0;
      AllBlank(s[pos..]);
    } else {
      assert s[pos..][1..] == s[pos + 1..];
      assert KeepsFrom(s, pos + 1, c[1..]);
      assert c == [c[0]] + c[1..];
      FreeMultiset(s, pos + 1, c[1..]);
    }
  }

  lemma MultisetCancel(a: multiset<int>, b: multiset<int>, c: multiset<int>)
    requires a + c == b + c
    ensures a == b
  {
    forall v ensures a[v] == b[v] {
      assert (a + c)[v] == (b + c)[v];
    }
  }

  /** The string is refused exactly when a symbol is not one of 1..n or
      repeats; the exception is 'A unknown number has been provided'. */
  lemma BlockCombinationsFails(n: int, s: seq<int>)
    requires n >= 1
    ensures BlockCombinations(n, s).Err? <==> !Acceptable(n, s)
    ensures BlockCombinations(n, s).Err? ==> BlockCombinations(n, s).error == UnknownNumber
  {
    ScanStart(n, s);
  }

  /** For an accepted string the unused numbers ascend and they and the
      placed symbols make up 1..n. */
  lemma RemainingFacts(n: int, s: seq<int>)
    requires n >= 1 && Acceptable(n, s)
    ensures Increasing(Without(Range(1, n), s))
    ensures multiset(Without(Range(1, n), s)) + multiset(Rules.NonZero(s)) == multiset(Range(1, n))
    ensures |Without(Range(1, n), s)| + |Rules.NonZero(s)| == n
  {
    var R := Range(1, n);
    RangeFacts(n);
    WithoutIncreasing(R, s);
    RemainingMultiset(n, s);
    assert |multiset(Without(R, s)) + multiset(Rules.NonZero(s))| == |R|;
  }

  /** The placed symbols all fit exactly when they stand inside the block. */
  lemma FitsIffWithin(n: int, s: seq<int>)
    requires n >= 1 && Acceptable(n, s)
    ensures Fits(Fixed(s, 0, |s|), 0, |Without(Range(1, n), s)|) <==> WithinBlock(n, s)
  {
    RemainingFacts(n, s);
    FixedCount(s, 0);
    assert s[0..] == s;
    assert forall k :: 0 <= k < |s| && s[k] != 0 ==> k in Fixed(s, 0, |s|);
  }

  /** Filling the orderings of the unused numbers gives what the block
      must hold. */
  lemma FilledCompletes(n: int, s: seq<int>, q: seq<int>)
    requires n >= 1 && Acceptable(n, s) && WithinBlock(n, s)
    requires multiset(q) == multiset(Without(Range(1, n), s))
    ensures Completes(n, s, Fill(Fixed(s, 0, |s|), 0, q))
  {
    var rem, fixed := Without(Range(1, n), s), Fixed(s, 0, |s|);
    assert |q| == |rem| by {
      assert |multiset(q)| == |multiset(rem)|;
    }
    assert Fits(fixed, 0, |q|) by {
      FitsIffWithin(n, s);
    }
    FilledCount(n, s, q);
    FilledKeeps(n, s, q);
  }

  lemma FilledCount(n: int, s: seq<int>, q: seq<int>)
    requires n >= 1 && Acceptable(n, s) && Fits(Fixed(s, 0, |s|), 0, |q|)
    requires multiset(q) == multiset(Without(Range(1, n), s))
    ensures multiset(Fill(Fixed(s, 0, |s|), 0, q)) == multiset(Range(1, n))
    ensures |Fill(Fixed(s, 0, |s|), 0, q)| == n
  {
    RemainingFacts(n, s);
    FixedPlaces(s, 0);
    FillGamesetCount(s, 0, Fixed(s, 0, |s|), q);
    assert s[0..] == s;
  }

  lemma FilledKeeps(n: int, s: seq<int>, q: seq<int>)
    requires WithinBlock(n, s) && Fits(Fixed(s, 0, |s|), 0, |q|)
    ensures forall k :: 0 <= k < |s| && s[k] != 0 ==>
      k < n && k < |Fill(Fixed(s, 0, |s|), 0, q)| && Fill(Fixed(s, 0, |s|), 0, q)[k] == s[k]
  {
    FixedPlaces(s, 0);
    FillGamesetKeeps(s, 0, Fixed(s, 0, |s|), q);
  }

  /** The combinations of an accepted string are the orderings of the unused
      numbers filled in, or none when a symbol stands beyond the block. */
  lemma BlockShape(n: int, s: seq<int>)
    requires n >= 1 && Acceptable(n, s)
    ensures BlockCombinations(n, s) == Ok(if WithinBlock(n, s)
      then Completed(Perms(Without(Range(1, n), s)), Fixed(s, 0, |s|), []) else [])
  {
    ScanStart(n, s);
    RemainingFacts(n, s);
    FitsIffWithin(n, s);
    CombinationsAreFilled(Without(Range(1, n), s), Fixed(s, 0, |s|), []);
  }

  /** Every combination has n cells, keeps the placed symbols and holds each
      of 1..n once. */
  lemma BlockCombinationsSound(n: int, s: seq<int>, c: seq<int>)
    requires n >= 1 && BlockCombinations(n, s).Ok? && c in BlockCombinations(n, s).value
    ensures Completes(n, s, c)
  {
    BlockCombinationsFails(n, s);
    BlockShape(n, s);
    var rem, fixed := Without(Range(1, n), s), Fixed(s, 0, |s|);
    var ps := Perms(rem);
    var i :| 0 <= i < |ps| && c == Completed(ps, fixed, [])[i];
    assert c == Fill(fixed, 0, ps[i]);
    PermsArePermutations(rem);
    FilledCompletes(n, s, ps[i]);
  }

  /** Every such combination is produced. */
  lemma BlockCombinationsComplete(n: int, s: seq<int>, c: seq<int>)
    requires n >= 1 && Acceptable(n, s) && Completes(n, s, c)
    ensures BlockCombinations(n, s).Ok? && c in BlockCombinations(n, s).value
  {
    BlockShape(n, s);
    RemainingFacts(n, s);
    var rem, fixed := Without(Range(1, n), s), Fixed(s, 0, |s|);
    assert s[0..] == s;
    assert KeepsFrom(s, 0, c);
    assert WithinBlock(n, s);
    FillFree(s, 0, c);
    FreeMultiset(s, 0, c);
    var q := FreeOf(s, c);
    MultisetCancel(multiset(q), multiset(rem), multiset(Rules.NonZero(s)));
    PermsComplete(rem, q);
    var i :| 0 <= i < |Perms(rem)| && Perms(rem)[i] == q;
    assert Completed(Perms(rem), fixed, [])[i] == c;
  }

  /** The combinations come in ascending dictionary order, so none repeats,
      and there are k! of them for the k unused numbers. */
  lemma BlockCombinationsOrdered(n: int, s: seq<int>)
    requires n >= 1 && Acceptable(n, s)
    ensures BlockCombinations(n, s).Ok?
    ensures LexSorted(BlockCombinations(n, s).value)
    ensures |Rules.NonZero(s)| <= n
    ensures |BlockCombinations(n, s).value| ==
      if WithinBlock(n, s) then Factorial(n - |Rules.NonZero(s)|) else 0
  {
    BlockShape(n, s);
    RemainingFacts(n, s);
    var rem := Without(Range(1, n), s);
    PermsSorted(rem);
    CompletedSorted(Perms(rem), Fixed(s, 0, |s|), []);
    PermsCount(rem);
  }

  /** A block whose every cell is given yields that block alone. */
  lemma FullyFixedBlock(n: int, s: seq<int>)
    requires n >= 1 && |s| == n && 0 !in s && Acceptable(n, s)
    ensures BlockCombinations(n, s) == Ok([s])
  {
    BlockCombinationsOrdered(n, s);
    NonZeroOfFull(s);
    var out := BlockCombinations(n, s).value;
    assert |out| == 1;
    BlockCombinationsSound(n, s, out[0]);
    assert out[0] == s;
    assert out == [s];
  }

  lemma {:induction false} NonZeroOfFull(s: seq<int>)
    requires 0 !in s
    ensures Rules.NonZero(s) == s
    decreases |s|
  {
    if s != [] {
      NonZeroOfFull(s[1..]);
    }
  }

  // ---------------------------------------------------------------------
  // generateNumberStringFromArray, generator.php:161-172
  // ---------------------------------------------------------------------

  lemma HasMember(keys: set<int>)
    requires keys != {}
    ensures exists k :: k in keys
  {
    if forall k :: k !in keys {
      assert false;
    }
  }

  /** The least key. */
  ghost function Least(keys: set<int>): (k: int)
    requires keys != {}
    ensures k in keys && forall j :: j in keys ==> k <= j
    decreases |keys|
  {
    HasMember(keys);
    var x :| x in keys;
    if keys == {x} then x
    else
      var m := Least(keys - {x});
      assert forall j :: j in keys && j != x ==> j in keys - {x};
      if x < m then x else m
  }

  /** The keys in ascending order: the order `ksort` leaves the array in. */
  ghost function SortedKeys(keys: set<int>): seq<int>
    decreases |keys|
  {
    if keys == {} then [] else [Least(keys)] + SortedKeys(keys - {Least(keys)})
  }

  /** SortedKeys lists every key once, ascending. */
  lemma {:induction false} SortedKeysAscend(keys: set<int>)
    ensures Increasing(SortedKeys(keys))
    ensures forall k :: k in SortedKeys(keys) <==> k in keys
    decreases |keys|
  {
    if keys != {} {
      var k := Least(keys);
      var rest := SortedKeys(keys - {k});
      SortedKeysAscend(keys - {k});
      var r := [k] + rest;
      assert SortedKeys(keys) == r;
      forall a, b | 0 <= a < b < |r| ensures r[a] < r[b] {
        assert r[b] == rest[b - 1] && rest[b - 1] in rest;
        if a > 0 {
          assert r[a] == rest[a - 1];
        }
      }
      forall j ensures j in r <==> j in keys {
        assert j in r <==> j == k || j in rest;
      }
    }
  }

  /** Without its first entry an ascending sequence holds the rest. */
  lemma TailMembers(a: seq<int>)
    requires Increasing(a) && a != []
    ensures forall x :: x in a[1..] <==> x in a && x != a[0]
  {
    forall x | x in a && x != a[0] ensures x in a[1..] {
      var i :| 0 <= i < |a| && a[i] == x;
      assert a[1..][i - 1] == x;
    }
  }

  /** Two ascending sequences with the same entries are the same. */
  lemma {:induction false} IncreasingUnique(a: seq<int>, b: seq<int>)
    requires Increasing(a) && Increasing(b) && forall x :: x in a <==> x in b
    ensures a == b
    decreases |a|
  {
    assert a != [] ==> a[0] in a;
    assert b != [] ==> b[0] in b;
    if a == [] {
      assert b == [];
    } else {
      assert a[0] == b[0] by {
        assert a[0] in a && b[0] in b;
        var j :| 0 <= j < |b| && b[j] == a[0];
        var i :| 0 <= i < |a| && a[i] == b[0];
        assert b[0] <= b[j] && a[0] <= a[i];
      }
      TailMembers(a);
      TailMembers(b);
      IncreasingUnique(a[1..], b[1..]);
      assert a == [a[0]] + a[1..] && b == [b[0]] + b[1..];
    }
  }

  /** ksort's order is the only ascending listing of the keys. */
  lemma SortedKeysUnique(keys: set<int>, ks: seq<int>)
    requires Increasing(ks) && forall k :: k in ks <==> k in keys
    ensures ks == SortedKeys(keys)
  {
    SortedKeysAscend(keys);
    IncreasingUnique(ks, SortedKeys(keys));
  }

  /** `implode('', ...)` of the values of m under the keys ks, in that order. */
  function Implode(m: map<int, seq<int>>, ks: seq<int>): seq<int>
    requires forall i :: 0 <= i < |ks| ==> ks[i] in m
  {
    if ks == [] then [] else Implode(m, ks[..|ks| - 1]) + m[ks[|ks| - 1]]
  }

  lemma ImplodeSnoc(m: map<int, seq<int>>, ks: seq<int>, k: int)
    requires (forall i :: 0 <= i < |ks| ==> ks[i] in m) && k in m
    ensures Implode(m, ks + [k]) == Implode(m, ks) + m[k]
  {
    assert (ks + [k])[..|ks|] == ks;
  }

  lemma SortedKeysStep(keys: set<int>, done: seq<int>, remaining: set<int>)
    requires remaining != {} && SortedKeys(keys) == done + SortedKeys(remaining)
    ensures SortedKeys(keys) == (done + [Least(remaining)]) + SortedKeys(remaining - {Least(remaining)})
  {
  }

  lemma BlockCombinationsOfScan(n: int, s: seq<int>)
    ensures ScanFrom(s, 0, Range(1, n), map[]).Err? ==>
      BlockCombinations(n, s) == Err(ScanFrom(s, 0, Range(1, n), map[]).error)
    ensures ScanFrom(s, 0, Range(1, n), map[]).Ok? ==>
      BlockCombinations(n, s) == Ok(Combinations(ScanFrom(s, 0, Range(1, n), map[]).value.0, ScanFrom(s, 0, Range(1, n), map[]).value.1, []))
  {
  }

  /** The values joined in ascending key order. */
  ghost function Joined(m: map<int, seq<int>>): seq<int> {
    SortedKeysAscend(m.Keys);
    Implode(m, SortedKeys(m.Keys))
  }

  /** Any ascending listing of the keys joins to the same string: the order
      is the keys' own and not the order the entries were made in. */
  lemma JoinedInKeyOrder(m: map<int, seq<int>>, ks: seq<int>)
    requires Increasing(ks) && forall k :: k in ks <==> k in m
    ensures forall i :: 0 <= i < |ks| ==> ks[i] in m
    ensures Joined(m) == Implode(m, ks)
  {
    SortedKeysUnique(m.Keys, ks);
  }

  /** Joining reads only the values under the keys it is given. */
  lemma {:induction false} ImplodeAgrees(m: map<int, seq<int>>, m': map<int, seq<int>>, ks: seq<int>)
    requires forall i :: 0 <= i < |ks| ==> ks[i] in m && ks[i] in m' && m[ks[i]] == m'[ks[i]]
    ensures Implode(m, ks) == Implode(m', ks)
    decreases |ks|
  {
    if ks != [] {
      ImplodeAgrees(m, m', ks[..|ks| - 1]);
    }
  }

  /** A cell with a key above all others goes at the end of the string. */
  lemma JoinedAppendsLast(m: map<int, seq<int>>, k: int, v: seq<int>)
    requires forall j :: j in m ==> j < k
    ensures Joined(m[k := v]) == Joined(m) + v
  {
    var m' := m[k := v];
    var ks := SortedKeys(m.Keys);
    SortedKeysAscend(m.Keys);
    SnocIncreasing(ks, k);
    SnocKeys(m, k, v, ks);
    JoinedInKeyOrder(m', ks + [k]);
    ImplodeSnoc(m', ks, k);
    ImplodeAgrees(m, m', ks);
  }

  lemma SnocKeys(m: map<int, seq<int>>, k: int, v: seq<int>, ks: seq<int>)
    requires forall j :: j in ks <==> j in m
    ensures forall j :: j in ks + [k] <==> j in m[k := v]
  {
    assert forall j :: j in ks + [k] <==> j in ks || j == k;
  }

  lemma SnocIncreasing(ks: seq<int>, k: int)
    requires Increasing(ks) && forall j :: j in ks ==> j < k
    ensures Increasing(ks + [k])
  {
    var ks' := ks + [k];
    forall a, b | 0 <= a < b < |ks'| ensures ks'[a] < ks'[b] {
      assert ks'[a] == ks[a] && ks[a] in ks;
      if b < |ks| {
        assert ks'[b] == ks[b];
      }
    }
  }

  lemma AppendAssociates(a: seq<seq<int>>, b: seq<seq<int>>, c: seq<seq<int>>)
    ensures (a + b) + c == a + (b + c)
  {
  }

  // ---------------------------------------------------------------------
  // The class
  // ---------------------------------------------------------------------

  class SudokuGenerator {
    /** The game whose numbers the blocks are made of. */
    const sudoku: Sudoku

    /** The combinations of the block worked on. */
    var generatedCombinations: seq<seq<int>>

    /** __construct, generator.php:35-43: keeps the game handler. */
    constructor (sudoku: Sudoku)
      ensures this.sudoku == sudoku && generatedCombinations == []
    {
      this.sudoku := sudoku;
      generatedCombinations := [];
    }

    /** generateBlockCombinations: forgets the previous block, scans the given
        string for placed symbols and lists the combinations. The field is
        left empty when a symbol is refused. */
    method GenerateBlockCombinations(fixedPositions: seq<int>) returns (r: Result<seq<seq<int>>>)
      modifies this
      ensures r == BlockCombinations(sudoku.rangeMax, fixedPositions)
      ensures generatedCombinations == if r.Ok? then r.value else []
    {
      generatedCombinations := [];
      BlockCombinationsOfScan(sudoku.rangeMax, fixedPositions);
      var scan := ScanFixedPositions(fixedPositions);
      if scan.Err? {
        return Err(scan.error);
      }
      ghost var n := sudoku.rangeMax;
      GeneratePossibleNumberCombinations(scan.value.0, scan.value.1, []);
      assert sudoku.rangeMax == n;
      assert generatedCombinations == Combinations(scan.value.0, scan.value.1, []);
      return Ok(generatedCombinations);
    }

    /** The scanning loop of generateBlockCombinations: every symbol other
        than '0' is recorded at its position and taken out of the numbers
        still to place; a symbol that is not among them ends the call with an
        error. */
    method ScanFixedPositions(fixedPositions: seq<int>) returns (r: Result<(seq<int>, map<int, int>)>)
      ensures r == ScanFrom(fixedPositions, 0, Range(1, sudoku.rangeMax), map[])
    {
      var numberRange := sudoku.AvailableNumbers();
      var fixedNumbers: map<int, int> := map[];
      ghost var scan := ScanFrom(fixedPositions, 0, numberRange, fixedNumbers);
      var position := 0;
      while position < |fixedPositions|
        invariant 0 <= position <= |fixedPositions|
        invariant ScanFrom(fixedPositions, position, numberRange, fixedNumbers) == scan
      {
        var number := fixedPositions[position];
        if number == 0 {
          position := position + 1;
          continue;
        }
        fixedNumbers := fixedNumbers[position := number];
        var numberPosition := IndexOf(numberRange, number);
        if numberPosition.None? {
          return Err(UnknownNumber);
        }
        numberRange := RemoveAt(numberRange, numberPosition.value);
        position := position + 1;
      }
      return Ok((numberRange, fixedNumbers));
    }

    /** generatePossibleNumberCombinations: appends its combinations to the
        field, recursing once per remaining number. */
    method GeneratePossibleNumberCombinations(numbers: seq<int>, fixedPositions: map<int, int>, combination: seq<int>)
      modifies this
      ensures generatedCombinations == old(generatedCombinations) + Combinations(numbers, fixedPositions, combination)
      decreases |numbers| + |fixedPositions|
    {
      ghost var all := Combinations(numbers, fixedPositions, combination);
      var fixed, comb := fixedPositions, combination;
      var performLoop := true;
      if |comb| in fixed {
        comb := comb + [fixed[|comb|]];
        performLoop := false;
        fixed := fixed - {|comb| - 1};
        if |numbers| == 0 && |fixed| == 0 {
          assert all == [comb];
          generatedCombinations := generatedCombinations + [comb];
          return;
        }
      }
      if |numbers| > 1 || |fixed| > 0 {
        if !performLoop {
          assert all == Combinations(numbers, fixed, comb);
          GeneratePossibleNumberCombinations(numbers, fixed, comb);
        } else {
          assert all == Branches(numbers, fixed, comb, |numbers|);
          var j := 0;
          while j < |numbers|
            invariant 0 <= j <= |numbers|
            invariant generatedCombinations == old(generatedCombinations) + Branches(numbers, fixed, comb, j)
          {
            var numbersTemp := RemoveAt(numbers, j);
            var newCombination := comb + [numbers[j]];
            GeneratePossibleNumberCombinations(numbersTemp, fixed, newCombination);
            ghost var branch := Combinations(numbersTemp, fixed, newCombination);
            assert Branches(numbers, fixed, comb, j + 1) == Branches(numbers, fixed, comb, j) + branch;
            AppendAssociates(old(generatedCombinations), Branches(numbers, fixed, comb, j), branch);
            j := j + 1;
          }
        }
      } else {
        assert all == [comb + First(numbers)];
        comb := comb + First(numbers);
        generatedCombinations := generatedCombinations + [comb];
      }
    }

    /** generateNumberStringFromArray: refuses an empty array, otherwise
        joins the values in ascending key order. */
    method GenerateNumberStringFromArray(numberArray: map<int, seq<int>>) returns (r: Result<seq<int>>)
      ensures numberArray == map[] ==> r == Err(InvalidInput)
      ensures numberArray != map[] ==> r == Ok(Joined(numberArray))
    {
      if numberArray == map[] {
        return Err(InvalidInput);
      }
      var remaining := numberArray.Keys;
      var out := [];
      ghost var done: seq<int> := [];
      while remaining != {}
        invariant remaining <= numberArray.Keys
        invariant forall i :: 0 <= i < |done| ==> done[i] in numberArray
        invariant SortedKeys(numberArray.Keys) == done + SortedKeys(remaining)
        invariant out == Implode(numberArray, done)
        decreases |remaining|
      {
        ghost var least := Least(remaining);
        var k :| k in remaining && forall j :: j in remaining ==> k <= j;
        assert k == least;
        out := out + numberArray[k];
        ImplodeSnoc(numberArray, done, k);
        SortedKeysStep(numberArray.Keys, done, remaining);
        done := done + [k];
        remaining := remaining - {k};
      }
      assert SortedKeys(remaining) == [];
      assert done == SortedKeys(numberArray.Keys);
      SortedKeysAscend(numberArray.Keys);
      return Ok(out);
    }
  }
}
