/** `shuffleArray`: the in-place Fisher–Yates pass that deals the deck. `Math.random` is outside
    the model: the index drawn at each step is an input, so the outcome is a function of the draws. */
module Shuffle {

  /** The sequence with the elements at `i` and `j` exchanged (`[a[i], a[j]] = [a[j], a[i]]`). */
  function Swap<T>(s: seq<T>, i: nat, j: nat): (r: seq<T>)
    requires i < |s| && j < |s|
    ensures |r| == |s| && r[i] == s[j] && r[j] == s[i]
    ensures forall k :: 0 <= k < |s| && k != i && k != j ==> r[k] == s[k]
  {
    s[i := s[j]][j := s[i]]
  }

  /** A swap keeps the length and the elements, each as often. */
  lemma SwapPermutes<T>(s: seq<T>, i: nat, j: nat)
    requires i < |s| && j < |s|
    ensures |Swap(s, i, j)| == |s|
    ensures multiset(Swap(s, i, j)) == multiset(s)
  {
    if i == j {
      assert Swap(s, i, j) == s;
    } else {
      assert multiset(s[i := s[j]]) == multiset(s) - multiset{s[i]} + multiset{s[j]};
    }
  }

  /** The draws for the turns at positions `i`, `i - 1`, ..., `1`, in that order: the turn at
      position `p` draws `Math.floor(Math.random() * (p + 1))`, which lies in `[0, p]`. */
  predicate ValidDraws(i: nat, draws: seq<nat>) {
    |draws| == i && forall k :: 0 <= k < i ==> draws[k] <= i - k
  }

  /** The rest of the pass from position `i` down to 1. */
  function Pass<T>(s: seq<T>, draws: seq<nat>, i: nat): (r: seq<T>)
    requires i < |s| && ValidDraws(i, draws)
    ensures |r| == |s|
    decreases i
  {
    if i == 0 then s
    else Pass(Swap(s, i, draws[0]), draws[1..], i - 1)
  }

  /** The number of draws a whole pass over `n` elements consumes. */
  function Turns(n: nat): nat {
    if n == 0 then 0 else n - 1
  }

  /** The outcome of the whole pass, from the last index down to 1. */
  function FisherYates<T>(s: seq<T>, draws: seq<nat>): (r: seq<T>)
    requires ValidDraws(Turns(|s|), draws)
    ensures |r| == |s|
  {
    if |s| == 0 then s else Pass(s, draws, |s| - 1)
  }

  /** The pass keeps the length and is a permutation: the same elements, each as often. */
  lemma {:induction false} PassPermutes<T>(s: seq<T>, draws: seq<nat>, i: nat)
    requires i < |s| && ValidDraws(i, draws)
    ensures |Pass(s, draws, i)| == |s|
    ensures multiset(Pass(s, draws, i)) == multiset(s)
    decreases i
  {
    if i > 0 {
      SwapPermutes(s, i, draws[0]);
      PassPermutes(Swap(s, i, draws[0]), draws[1..], i - 1);
    }
  }

  /** The shuffle keeps the length and is a permutation of its input. */
  lemma FisherYatesPermutes<T>(s: seq<T>, draws: seq<nat>)
    requires ValidDraws(Turns(|s|), draws)
    ensures |FisherYates(s, draws)| == |s|
    ensures multiset(FisherYates(s, draws)) == multiset(s)
  {
    if |s| > 0 {
      PassPermutes(s, draws, |s| - 1);
    }
  }

  /** Every arrangement that agrees with `s` after position `i` and holds the same elements up
      to `i` is reached by some draws. */
  lemma {:induction false} PassReaches<T>(s: seq<T>, goal: seq<T>, i: nat)
    requires i < |s| == |goal|
    requires s[i + 1..] == goal[i + 1..]
    requires multiset(s[..i + 1]) == multiset(goal[..i + 1])
    ensures exists draws :: ValidDraws(i, draws) && Pass(s, draws, i) == goal
    decreases i
  {
    if i == 0 {
      assert goal[0] in multiset(s[..1]) by { assert goal[..1] == [goal[0]]; }
      assert s == s[..1] + s[1..] && goal == goal[..1] + goal[1..];
      assert ValidDraws(0, []) && Pass(s, [], 0) == goal;
    } else {
      var j := PickSource(s, goal, i);
      var t := Swap(s, i, j);
      SwapFrontier(s, goal, i, j);
      PassReaches(t, goal, i - 1);
      var rest :| ValidDraws(i - 1, rest) && Pass(t, rest, i - 1) == goal;
      DrawsCons(j, rest, i);
      assert Pass(s, [j] + rest, i) == goal;
    }
  }

  /** A position at or before `i` that holds the element the goal puts at `i`. */
  lemma PickSource<T>(s: seq<T>, goal: seq<T>, i: nat) returns (j: nat)
    requires i < |s| == |goal|
    requires multiset(s[..i + 1]) == multiset(goal[..i + 1])
    ensures j <= i && s[j] == goal[i]
  {
    assert goal[i] in multiset(goal[..i + 1]) by { assert goal[..i + 1][i] == goal[i]; }
    var k :| 0 <= k < i + 1 && s[..i + 1][k] == goal[i];
    j := k;
  }

  /** A swap of two positions up to `i` happens within the first `i + 1` elements. */
  lemma SwapPrefix<T>(s: seq<T>, i: nat, j: nat)
    requires j <= i < |s|
    ensures Swap(s, i, j)[..i + 1] == Swap(s[..i + 1], i, j)
    ensures Swap(s, i, j)[i + 1..] == s[i + 1..]
  {
  }

  /** Swapping the goal's element into position `i` extends the agreeing suffix by one. */
  lemma SwapFrontier<T>(s: seq<T>, goal: seq<T>, i: nat, j: nat)
    requires 0 < i < |s| == |goal| && j <= i && s[j] == goal[i]
    requires s[i + 1..] == goal[i + 1..]
    requires multiset(s[..i + 1]) == multiset(goal[..i + 1])
    ensures var t := Swap(s, i, j);
      t[i..] == goal[i..] && multiset(t[..i]) == multiset(goal[..i])
  {
    var t := Swap(s, i, j);
    SwapPrefix(s, i, j);
    SwapPermutes(s[..i + 1], i, j);
    assert t[i] == goal[i];
    assert t[i..] == [t[i]] + t[i + 1..];
    assert goal[i..] == [goal[i]] + goal[i + 1..];
    assert multiset(t[..i + 1]) == multiset(goal[..i + 1]);
    assert t[..i + 1] == t[..i] + [goal[i]];
    assert goal[..i + 1] == goal[..i] + [goal[i]];
    DropLast(t[..i], goal[..i], goal[i]);
  }

  /** Taking the same last element off two permutations leaves permutations. */
  lemma DropLast<T>(a: seq<T>, b: seq<T>, x: T)
    requires multiset(a + [x]) == multiset(b + [x])
    ensures multiset(a) == multiset(b)
  {
    var ma, mb := multiset(a), multiset(b);
    assert multiset(a + [x]) == ma + multiset{x};
    assert multiset(b + [x]) == mb + multiset{x};
    forall y ensures ma[y] == mb[y] {
      assert (ma + multiset{x})[y] == ma[y] + multiset{x}[y];
      assert (mb + multiset{x})[y] == mb[y] + multiset{x}[y];
    }
  }

  /** Every arrangement of the elements is the outcome of some draws: no permutation is out of
      the shuffle's reach. */
  lemma FisherYatesReaches<T>(s: seq<T>, goal: seq<T>)
    requires multiset(goal) == multiset(s)
    ensures exists draws :: ValidDraws(Turns(|s|), draws) && FisherYates(s, draws) == goal
  {
    assert |goal| == |s| by {
      assert |multiset(goal)| == |goal| && |multiset(s)| == |s|;
    }
    if |s| == 0 {
      assert ValidDraws(0, []) && FisherYates(s, []) == goal;
    } else {
      var n := |s|;
      assert s[..n] == s && goal[..n] == goal;
      PassReaches(s, goal, n - 1);
      var draws :| ValidDraws(n - 1, draws) && Pass(s, draws, n - 1) == goal;
      assert FisherYates(s, draws) == goal;
    }
  }

  /** The draws left after one turn are valid for the turns still to come. */
  lemma DrawsTail(draws: seq<nat>, i: nat)
    requires i > 0 && ValidDraws(i, draws)
    ensures ValidDraws(i - 1, draws[1..])
  {
    forall k | 0 <= k < i - 1 ensures draws[1..][k] <= i - 1 - k {
      assert draws[1..][k] == draws[k + 1];
    }
  }

  /** A first draw in range followed by valid draws for the remaining turns is valid. */
  lemma DrawsCons(j: nat, rest: seq<nat>, i: nat)
    requires 0 < i && j <= i && ValidDraws(i - 1, rest)
    ensures ValidDraws(i, [j] + rest) && ([j] + rest)[1..] == rest && ([j] + rest)[0] == j
  {
    var draws := [j] + rest;
    assert draws[1..] == rest;
    forall k | 0 <= k < i ensures draws[k] <= i - k {
      if k > 0 { assert draws[k] == rest[k - 1]; }
    }
  }

  /** `shuffleArray` (TermFlip/js/app.js:174-180): for `i` from the last index down to 1, swap
      `a[i]` with `a[j]`, `j` being the next draw. */
  method ShuffleArray<T>(a: array<T>, draws: seq<nat>)
    requires ValidDraws(Turns(a.Length), draws)
    modifies a
    ensures a[..] == FisherYates(old(a[..]), draws)
  {
    if a.Length == 0 {
      return;
    }
    var i := a.Length - 1;
    var rest := draws;
    while i > 0
      invariant 0 <= i < a.Length
      invariant ValidDraws(i, rest)
      invariant Pass(a[..], rest, i) == FisherYates(old(a[..]), draws)
    {
      var j := rest[0];
      ghost var before := a[..];
      a[i], a[j] := a[j], a[i];
      assert a[..] == Swap(before, i, j);
      DrawsTail(rest, i);
      rest := rest[1..];
      i := i - 1;
    }
  }
}
