/** What backtrackSolution (calculator.php:163-195) computes, as a function:
    the depth-first search that fills the first '0' with 1, 2, ..., n in turn,
    prunes every candidate that the judge (checkRows) refuses, and stops at
    the first completed string. The search is stated for any judge; its
    theorems assume only the two properties of checkRows they need
    (`FailsOnlyWhenLong`, `KeepsOnBlanking`), which calculator.dfy proves of
    checkRows. The class in calculator.dfy runs the same search as a
    recursive method and is proved to agree with `Backtrack`. */
module Search {
  import opened Wrappers
  import opened Rules
  import opened Permutations

  /** The verdict the search prunes with: accept, refuse, or throw. */
  type Judge = seq<int> -> Result<bool>

  /** The judge throws exactly for strings longer than the board, and then
      GamesetTooLong, as checkRows does. */
  ghost predicate FailsOnlyWhenLong(judge: Judge, size: int) {
    forall t :: (judge(t).Err? <==> |t| > size) && (judge(t).Err? ==> judge(t).error == GamesetTooLong)
  }

  /** Turning cells of an accepted string back into '0' keeps it accepted. */
  ghost predicate KeepsOnBlanking(judge: Judge) {
    forall a, b :: Blanks(a, b) && judge(b) == Ok(true) ==> judge(a) == Ok(true)
  }

  /** PHP's `strpos(s, '0')`: the first empty cell, if any. */
  function FirstZero(s: seq<int>): (r: Option<nat>)
    ensures r.None? <==> 0 !in s
    ensures r.Some? ==> r.value < |s| && s[r.value] == 0 && forall j :: 0 <= j < r.value ==> s[j] != 0
  {
    if s == [] then None
    else if s[0] == 0 then Some(0)
    else match FirstZero(s[1..])
      case None => None
      case Some(p) => Some(p + 1)
  }

  /** The number of empty cells: the measure the search decreases. */
  function ZeroCount(s: seq<int>): nat {
    if s == [] then 0 else (if s[0] == 0 then 1 else 0) + ZeroCount(s[1..])
  }

  /** Writing a symbol other than '0' over an empty cell leaves one empty cell
      fewer, so every recursive call of the search gets a smaller string. */
  lemma {:induction false} ZeroCountFill(s: seq<int>, p: int, v: int)
    requires 0 <= p < |s| && s[p] == 0 && v != 0
    ensures ZeroCount(s[p := v]) == ZeroCount(s) - 1
  {
    if p > 0 {
      ZeroCountFill(s[1..], p - 1, v);
      assert s[p := v][1..] == s[1..][p - 1 := v];
    }
  }

  /** backtrackSolution: the completed string it appends to finalSolutions
      (`Ok(Some(...))`, the source returns true), `Ok(None)` when it returns
      false, or the exception of the judge. */
  function Backtrack(n: nat, judge: Judge, s: seq<int>): Result<Option<seq<int>>>
    decreases ZeroCount(s), 1, 0
  {
    match FirstZero(s)
    case None => Ok(Some(s))
    case Some(p) => TryFrom(n, judge, s, p, 1)
  }

  /** The foreach of backtrackSolution from candidate v onwards, for the empty
      cell p. */
  function TryFrom(n: nat, judge: Judge, s: seq<int>, p: nat, v: int): Result<Option<seq<int>>>
    requires p < |s| && s[p] == 0 && v >= 1
    decreases ZeroCount(s), 0, n + 1 - v
  {
    if v > n then Ok(None)
    else
      var t := s[p := v];
      match judge(t)
      case Err(e) => Err(e)
      case Ok(ok) =>
        if !ok then TryFrom(n, judge, s, p, v + 1)
        else
          ZeroCountFill(s, p, v);
          match Backtrack(n, judge, t)
          case Err(e) => Err(e)
          case Ok(found) =>
            if found.Some? then Ok(found) else TryFrom(n, judge, s, p, v + 1)
  }

  /** One candidate of the foreach: what trying v for the empty cell p leads
      to, in terms of the judge on the filled string and the search below it. */
  lemma TryFromStep(n: nat, judge: Judge, s: seq<int>, p: nat, v: int)
    requires p < |s| && s[p] == 0 && 1 <= v <= n
    ensures ZeroCount(s[p := v]) < ZeroCount(s)
    ensures judge(s[p := v]).Err? ==> TryFrom(n, judge, s, p, v) == Err(judge(s[p := v]).error)
    ensures judge(s[p := v]) == Ok(false) ==> TryFrom(n, judge, s, p, v) == TryFrom(n, judge, s, p, v + 1)
    ensures judge(s[p := v]) == Ok(true) ==>
      var below := Backtrack(n, judge, s[p := v]);
      (below.Err? ==> TryFrom(n, judge, s, p, v) == Err(below.error)) &&
      (below.Ok? && below.value.Some? ==> TryFrom(n, judge, s, p, v) == below) &&
      (below == Ok(None) ==> TryFrom(n, judge, s, p, v) == TryFrom(n, judge, s, p, v + 1))
  {
    ZeroCountFill(s, p, v);
  }

  /** f completes s: it keeps every given cell and puts one of 1..n in every
      empty one. */
  predicate IsFilling(n: nat, s: seq<int>, f: seq<int>) {
    |f| == |s| &&
    forall i :: 0 <= i < |s| ==> if s[i] != 0 then f[i] == s[i] else 1 <= f[i] <= n
  }

  /** f is a completion of s that the judge accepts. */
  predicate Solves(n: nat, judge: Judge, s: seq<int>, f: seq<int>)
  {
    IsFilling(n, s, f) && judge(f) == Ok(true)
  }

  /** Filling one more empty cell keeps the completions of the result
      completions of the original. */
  lemma FillingStep(n: nat, s: seq<int>, p: nat, v: int, f: seq<int>)
    requires p < |s| && s[p] == 0 && 1 <= v <= n && IsFilling(n, s[p := v], f)
    ensures IsFilling(n, s, f)
  {
    forall i | 0 <= i < |s| ensures if s[i] != 0 then f[i] == s[i] else 1 <= f[i] <= n {
      if i != p {
        assert s[p := v][i] == s[i];
      }
    }
  }

  /** A string without '0' is its own and only completion. */
  lemma FilledIsFilling(n: nat, s: seq<int>)
    requires 0 !in s
    ensures IsFilling(n, s, s)
  {
    forall i | 0 <= i < |s| ensures s[i] != 0 {
      assert s[i] in s;
    }
  }

  /** The search raises the exception of the judge exactly when it has an
      empty cell to fill in a string longer than the board. */
  lemma {:induction false} BacktrackErr(n: nat, judge: Judge, size: int, s: seq<int>)
    requires n >= 1 && FailsOnlyWhenLong(judge, size)
    ensures Backtrack(n, judge, s).Err? <==> 0 in s && |s| > size
    ensures Backtrack(n, judge, s).Err? ==> Backtrack(n, judge, s).error == GamesetTooLong
    decreases ZeroCount(s), 1, 0
  {
    match FirstZero(s)
    case None =>
    case Some(p) =>
      if |s| > size {
        assert judge(s[p := 1]) == Err(GamesetTooLong);
      } else {
        TryFromOk(n, judge, size, s, p, 1);
      }
  }

  /** The foreach never raises an exception for a string that fits. */
  lemma {:induction false} TryFromOk(n: nat, judge: Judge, size: int, s: seq<int>, p: nat, v: int)
    requires FailsOnlyWhenLong(judge, size)
    requires p < |s| && s[p] == 0 && v >= 1 && |s| <= size
    ensures TryFrom(n, judge, s, p, v).Ok?
    decreases ZeroCount(s), 0, n + 1 - v
  {
    if v <= n {
      var t := s[p := v];
      ZeroCountFill(s, p, v);
      BacktrackErr(n, judge, size, t);
      if judge(t) == Ok(false) || (judge(t) == Ok(true) && Backtrack(n, judge, t) == Ok(None)) {
        TryFromOk(n, judge, size, s, p, v + 1);
      }
    }
  }

  /** Soundness: the appended string completes the input, has no '0' left
      and, when something had to be filled in, passes the judge; an input
      without '0' is appended as it is. */
  lemma {:induction false} BacktrackSound(n: nat, judge: Judge, s: seq<int>, sol: seq<int>)
    requires Backtrack(n, judge, s) == Ok(Some(sol))
    ensures IsFilling(n, s, sol) && 0 !in sol
    ensures 0 in s ==> judge(sol) == Ok(true)
    ensures 0 !in s ==> sol == s
    decreases ZeroCount(s), 1, 0
  {
    match FirstZero(s)
    case None =>
      FilledIsFilling(n, s);
    case Some(p) =>
      TrySound(n, judge, s, p, 1, sol);
  }

  /** Soundness of the foreach. */
  lemma {:induction false} TrySound(n: nat, judge: Judge, s: seq<int>, p: nat, v: int, sol: seq<int>)
    requires p < |s| && s[p] == 0 && v >= 1 && TryFrom(n, judge, s, p, v) == Ok(Some(sol))
    ensures IsFilling(n, s, sol) && 0 !in sol && judge(sol) == Ok(true)
    decreases ZeroCount(s), 0, n + 1 - v
  {
    var t := s[p := v];
    ZeroCountFill(s, p, v);
    if judge(t) == Ok(true) && Backtrack(n, judge, t) == Ok(Some(sol)) {
      BacktrackSound(n, judge, t, sol);
      FillingStep(n, s, p, v, sol);
    } else {
      TrySound(n, judge, s, p, v + 1, sol);
    }
  }

  /** Filling the empty cell p of s as the completion c does leaves a string
      that c completes and of which c is a filled-in version. */
  lemma FillAsCompletion(n: nat, s: seq<int>, p: nat, c: seq<int>)
    requires p < |s| && s[p] == 0 && IsFilling(n, s, c)
    ensures Blanks(s[p := c[p]], c) && IsFilling(n, s[p := c[p]], c)
  {
    var t := s[p := c[p]];
    forall i | 0 <= i < |t| ensures (t[i] == c[i] || t[i] == 0) && (if t[i] != 0 then c[i] == t[i] else 1 <= c[i] <= n) {
      if i != p {
        assert t[i] == s[i];
      }
    }
  }

  /** Completeness: when some completion of an input with an empty cell
      passes the judge, the search finds one. It rests on KeepsOnBlanking:
      every partial string on the way to that completion passes too. */
  lemma {:induction false} BacktrackComplete(n: nat, judge: Judge, size: int, s: seq<int>, c: seq<int>)
    requires FailsOnlyWhenLong(judge, size) && KeepsOnBlanking(judge)
    requires Solves(n, judge, s, c)
    ensures Backtrack(n, judge, s).Ok? && Backtrack(n, judge, s).value.Some?
    decreases ZeroCount(s), 1, 0
  {
    match FirstZero(s)
    case None =>
    case Some(p) =>
      TryComplete(n, judge, size, s, p, 1, c);
  }

  /** Completeness of the foreach: no candidate up to the one c uses is
      passed over without a result. */
  lemma {:induction false} TryComplete(n: nat, judge: Judge, size: int, s: seq<int>, p: nat, v: int, c: seq<int>)
    requires FailsOnlyWhenLong(judge, size) && KeepsOnBlanking(judge)
    requires p < |s| && s[p] == 0 && Solves(n, judge, s, c) && 1 <= v <= c[p]
    ensures TryFrom(n, judge, s, p, v).Ok? && TryFrom(n, judge, s, p, v).value.Some?
    decreases ZeroCount(s), 0, c[p] - v
  {
    var t := s[p := v];
    ZeroCountFill(s, p, v);
    assert |t| <= size;
    BacktrackErr(n, judge, size, t);
    if v == c[p] {
      FillAsCompletion(n, s, p, c);
      BacktrackComplete(n, judge, size, t, c);
    } else if judge(t) == Ok(false) || Backtrack(n, judge, t) == Ok(None) {
      TryComplete(n, judge, size, s, p, v + 1, c);
    }
  }

  /** backtrackSolution returns false exactly when the input has an empty
      cell, fits the board, and no completion of it passes the judge. */
  lemma BacktrackNone(n: nat, judge: Judge, size: int, s: seq<int>)
    requires n >= 1 && FailsOnlyWhenLong(judge, size) && KeepsOnBlanking(judge)
    ensures Backtrack(n, judge, s) == Ok(None) <==>
      0 in s && |s| <= size && forall c :: IsFilling(n, s, c) ==> judge(c) != Ok(true)
  {
    BacktrackErr(n, judge, size, s);
    if Backtrack(n, judge, s) == Ok(None) {
      forall c | IsFilling(n, s, c) ensures judge(c) != Ok(true) {
        if judge(c) == Ok(true) {
          BacktrackComplete(n, judge, size, s, c);
        }
      }
    }
    if Backtrack(n, judge, s).Ok? && Backtrack(n, judge, s).value.Some? {
      BacktrackSound(n, judge, s, Backtrack(n, judge, s).value.value);
    }
  }

  /** a comes strictly before b in dictionary order, among strings of one
      length. */
  predicate LexBelow(a: seq<int>, b: seq<int>) {
    |a| == |b| && LexLess(a, b)
  }

  /** Because candidates are tried in ascending order and the judge never
      prunes a prefix of a valid completion, the string the search appends is
      the least valid completion in dictionary order. */
  lemma {:induction false} BacktrackLeast(n: nat, judge: Judge, size: int, s: seq<int>, c: seq<int>)
    requires FailsOnlyWhenLong(judge, size) && KeepsOnBlanking(judge)
    requires 0 in s && Solves(n, judge, s, c)
    requires Backtrack(n, judge, s).Ok? && Backtrack(n, judge, s).value.Some?
    ensures Backtrack(n, judge, s).value.value == c || LexBelow(Backtrack(n, judge, s).value.value, c)
    decreases ZeroCount(s), 1, 0, 0
  {
    var p := FirstZero(s).value;
    TryLeast(n, judge, size, s, p, 1, c);
  }

  /** The foreach part of BacktrackLeast: a result found from candidate v on,
      with v not past the symbol c puts in the cell, is not above c. */
  lemma {:induction false} TryLeast(n: nat, judge: Judge, size: int, s: seq<int>, p: nat, v: int, c: seq<int>)
    requires FailsOnlyWhenLong(judge, size) && KeepsOnBlanking(judge)
    requires FirstZero(s) == Some(p) && Solves(n, judge, s, c) && 1 <= v <= c[p]
    requires TryFrom(n, judge, s, p, v).Ok? && TryFrom(n, judge, s, p, v).value.Some?
    ensures TryFrom(n, judge, s, p, v).value.value == c || LexBelow(TryFrom(n, judge, s, p, v).value.value, c)
    decreases ZeroCount(s), 0, c[p] - v, 1
  {
    var t := s[p := v];
    ZeroCountFill(s, p, v);
    if v == c[p] {
      LastCandidateSucceeds(n, judge, size, s, p, c);
      TryLeastHere(n, judge, size, s, p, v, c);
    } else if judge(t) == Ok(true) && Backtrack(n, judge, t).Ok? && Backtrack(n, judge, t).value.Some? {
      TryLeastHere(n, judge, size, s, p, v, c);
    } else {
      TryLeast(n, judge, size, s, p, v + 1, c);
    }
  }

  /** The symbol c puts in the cell is accepted and leads to a solution. */
  lemma LastCandidateSucceeds(n: nat, judge: Judge, size: int, s: seq<int>, p: nat, c: seq<int>)
    requires FailsOnlyWhenLong(judge, size) && KeepsOnBlanking(judge)
    requires p < |s| && s[p] == 0 && Solves(n, judge, s, c)
    ensures judge(s[p := c[p]]) == Ok(true)
    ensures Backtrack(n, judge, s[p := c[p]]).Ok? && Backtrack(n, judge, s[p := c[p]]).value.Some?
  {
    FillAsCompletion(n, s, p, c);
    BacktrackComplete(n, judge, size, s[p := c[p]], c);
  }

  /** The case where candidate v itself leads to a solution. */
  lemma {:induction false} TryLeastHere(n: nat, judge: Judge, size: int, s: seq<int>, p: nat, v: int, c: seq<int>)
    requires FailsOnlyWhenLong(judge, size) && KeepsOnBlanking(judge)
    requires FirstZero(s) == Some(p) && Solves(n, judge, s, c) && 1 <= v <= c[p]
    requires judge(s[p := v]) == Ok(true)
    requires Backtrack(n, judge, s[p := v]).Ok? && Backtrack(n, judge, s[p := v]).value.Some?
    ensures Backtrack(n, judge, s[p := v]).value.value == c || LexBelow(Backtrack(n, judge, s[p := v]).value.value, c)
    decreases ZeroCount(s), 0, c[p] - v, 0
  {
    var t := s[p := v];
    var sol := Backtrack(n, judge, t).value.value;
    ZeroCountFill(s, p, v);
    BacktrackSound(n, judge, t, sol);
    FillingStep(n, s, p, v, sol);
    if v < c[p] {
      forall j | 0 <= j < p ensures sol[j] == c[j] {
        assert s[j] != 0;
      }
      assert sol[..p] == c[..p] && sol[p] == v;
    } else {
      FillAsCompletion(n, s, p, c);
      if 0 in t {
        BacktrackLeast(n, judge, size, t, c);
      } else {
        FilledIsFilling(n, t);
        assert c == t;
      }
    }
  }
}
