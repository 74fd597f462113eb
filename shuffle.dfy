/** The in-place Fisher-Yates shuffle of game.js:560-566. The random index of
    each step is a nondeterministic choice. The choices made are recorded in
    a sequence `draws`, most recent first: the step at position i that picks
    index j adds j at the front. */
module Shuffle {

  function Swap<T>(s: seq<T>, i: nat, j: nat): (r: seq<T>)
    requires i < |s| && j < |s|
    ensures |r| == |s| && r[i] == s[j] && r[j] == s[i]
    ensures forall k :: 0 <= k < |s| && k != i && k != j ==> r[k] == s[k]
  {
    s[i := s[j]][j := s[i]]
  }

  lemma SwapPermutes<T>(s: seq<T>, i: nat, j: nat)
    requires i < |s| && j < |s|
    ensures multiset(Swap(s, i, j)) == multiset(s)
  {
    assert Swap(s, i, j) == s[i := s[j]][j := s[i]];
  }

  /** Choices the loop can have made on an array of length n: after m steps
      the latest step worked on position n - m and picked an index no larger. */
  predicate ValidDraws(n: nat, draws: seq<nat>) {
    draws == [] || (|draws| < n && draws[0] <= n - |draws| && ValidDraws(n, draws[1..]))
  }

  /** Choices of a whole run: one per position from n - 1 down to 1. */
  predicate CompleteDraws(n: nat, draws: seq<nat>) {
    ValidDraws(n, draws) && |draws| == if n == 0 then 0 else n - 1
  }

  /** For a whole run, draws[m] is the index swapped into position m + 1,
      and it is never larger than m + 1. */
  lemma {:induction false} CompleteDrawsByPosition(n: nat, draws: seq<nat>)
    requires n > 0 && |draws| == n - 1
    ensures CompleteDraws(n, draws) <==> forall m :: 0 <= m < |draws| ==> draws[m] <= m + 1
  {
    ValidDrawsByPosition(n, draws);
  }

  /** The same for a run still in progress: the choice recorded at index m
      was drawn for position n - |draws| + m. */
  lemma {:induction false} ValidDrawsByPosition(n: nat, draws: seq<nat>)
    requires |draws| < n
    ensures ValidDraws(n, draws) <==>
      forall m :: 0 <= m < |draws| ==> draws[m] <= n - |draws| + m
  {
    if draws != [] {
      ValidDrawsByPosition(n, draws[1..]);
      assert forall m :: 1 <= m < |draws| ==> draws[1..][m - 1] == draws[m];
    }
  }

  /** The sequence after the steps recorded in `draws`. */
  function SwapSteps<T>(s: seq<T>, draws: seq<nat>): (r: seq<T>)
    requires ValidDraws(|s|, draws)
    ensures |r| == |s|
  {
    if draws == [] then s
    else Swap(SwapSteps(s, draws[1..]), |s| - |draws|, draws[0])
  }

  /** One more step: choice j at position n - 1 - |draws| after the earlier
      steps. */
  lemma StepOnce<T>(s: seq<T>, draws: seq<nat>, j: nat)
    requires ValidDraws(|s|, [j] + draws)
    ensures ValidDraws(|s|, draws) && |draws| < |s| - 1 && j <= |s| - 1 - |draws|
    ensures SwapSteps(s, [j] + draws) == Swap(SwapSteps(s, draws), |s| - 1 - |draws|, j)
  {
    var e := [j] + draws;
    assert e[1..] == draws;
    assert e[0] == j && |e| == |draws| + 1;
    assert ValidDraws(|s|, draws);
    assert SwapSteps(s, e) == Swap(SwapSteps(s, e[1..]), |s| - |e|, e[0]);
  }

  /** A run only ever swaps, so it keeps every card and its multiplicity. */
  lemma {:induction false} SwapStepsPermutes<T>(s: seq<T>, draws: seq<nat>)
    requires ValidDraws(|s|, draws)
    ensures multiset(SwapSteps(s, draws)) == multiset(s)
  {
    if draws != [] {
      SwapStepsPermutes(s, draws[1..]);
      SwapPermutes(SwapSteps(s, draws[1..]), |s| - |draws|, draws[0]);
    }
  }

  /** `shuffle(arr)`: for i from n - 1 down to 1, swap arr[i] with arr[j] for
      some j in [0, i]. The result is the input permuted by the recorded
      choices, so the same cards with the same multiplicities. */
  method ShuffleInPlace<T>(a: array<T>) returns (ghost draws: seq<nat>)
    modifies a
    ensures CompleteDraws(a.Length, draws)
    ensures a[..] == SwapSteps(old(a[..]), draws)
    ensures multiset(a[..]) == multiset(old(a[..]))
  {
    draws := [];
    var i: int := a.Length - 1;
    while i > 0
      invariant -1 <= i < a.Length
      invariant a.Length > 0 ==> 0 <= i && |draws| == a.Length - 1 - i
      invariant a.Length == 0 ==> draws == []
      invariant ValidDraws(a.Length, draws)
      invariant a[..] == SwapSteps(old(a[..]), draws)
    {
      var j :| 0 <= j <= i;
      ghost var before := a[..];
      a[i], a[j] := a[j], a[i];
      assert a[..] == Swap(before, i, j);
      assert ValidDraws(a.Length, [j] + draws);
      StepOnce(old(a[..]), draws, j);
      draws := [j] + draws;
      i := i - 1;
    }
    SwapStepsPermutes(old(a[..]), draws);
  }
  /** The orders one run of the shuffle can leave `s` in. */
  ghost predicate IsShuffleOf<T>(s: seq<T>, t: seq<T>) {
    exists draws :: CompleteDraws(|s|, draws) && SwapSteps(s, draws) == t
  }

  /** The shuffle yields exactly the permutations of its input: never
      anything else, and every one of them for some choices. */
  lemma ShuffleOrdersArePermutations<T>(s: seq<T>, t: seq<T>)
    ensures IsShuffleOf(s, t) <==> multiset(t) == multiset(s)
  {
    if IsShuffleOf(s, t) {
      var draws :| CompleteDraws(|s|, draws) && SwapSteps(s, draws) == t;
      SwapStepsPermutes(s, draws);
    }
    if multiset(t) == multiset(s) {
      EveryPermutationReachable(s, t);
    }
  }

  /** `shuffle([...cards])`: shuffle a fresh array holding a copy of the
      cards and return its contents; the argument is left as it was. */
  method ShuffledCopy<T>(cards: seq<T>) returns (order: seq<T>)
    ensures IsShuffleOf(cards, order)
    ensures multiset(order) == multiset(cards)
  {
    var a := new T[|cards|](k requires 0 <= k < |cards| => cards[k]);
    assert a[..] == cards;
    ghost var draws := ShuffleInPlace(a);
    order := a[..];
    assert CompleteDraws(|cards|, draws) && SwapSteps(cards, draws) == order;
  }


  /** When the first i + 1 entries of p and t hold the same cards, one of
      the first i + 1 entries of p is t[i]. */
  lemma FindCard<T>(p: seq<T>, t: seq<T>, i: nat) returns (j: nat)
    requires i < |p| == |t|
    requires multiset(p[..i + 1]) == multiset(t[..i + 1])
    ensures j <= i && p[j] == t[i]
  {
    assert t[i] == t[..i + 1][i];
    assert t[i] in multiset(t[..i + 1]);
    assert t[i] in p[..i + 1];
    j :| 0 <= j <= i && p[..i + 1][j] == t[i];
  }

  /** A swap within the first i + 1 entries is a swap of that prefix and
      leaves the rest alone. */
  lemma SwapInPrefix<T>(p: seq<T>, i: nat, j: nat)
    requires j <= i < |p|
    ensures Swap(p, i, j)[..i + 1] == Swap(p[..i + 1], i, j)
    ensures Swap(p, i, j)[i + 1..] == p[i + 1..]
  {
  }

  /** Removing the same card from two equal multisets leaves them equal. */
  lemma MultisetCancel<T>(a: seq<T>, b: seq<T>, x: T)
    requires multiset(a + [x]) == multiset(b + [x])
    ensures multiset(a) == multiset(b)
  {
    var m := multiset{x};
    assert multiset(a) + m == multiset(b) + m;
    assert multiset(a) == multiset(a) + m - m;
    assert multiset(b) == multiset(b) + m - m;
  }

  /** Swapping that entry into position i leaves the first i entries of both
      holding the same cards, and the entries above i as they were. */
  lemma PlaceCard<T>(p: seq<T>, t: seq<T>, i: nat, j: nat)
    requires i < |p| == |t|
    requires multiset(p[..i + 1]) == multiset(t[..i + 1])
    requires j <= i && p[j] == t[i]
    ensures multiset(Swap(p, i, j)[..i]) == multiset(t[..i])
    ensures Swap(p, i, j)[i..] == [t[i]] + p[i + 1..]
  {
    var q := Swap(p, i, j);
    SwapInPrefix(p, i, j);
    SwapPermutes(p[..i + 1], i, j);
    assert q[..i + 1] == q[..i] + [t[i]];
    assert t[..i + 1] == t[..i] + [t[i]];
    MultisetCancel(q[..i], t[..i], t[i]);
    assert q[i..] == [q[i]] + q[i + 1..];
  }

  /** Two sequences that agree from index 1 on and hold the same single card
      before it are equal. */
  lemma FirstCard<T>(p: seq<T>, t: seq<T>)
    requires |p| == |t| > 0 && p[1..] == t[1..]
    requires multiset(p[..1]) == multiset(t[..1])
    ensures p == t
  {
    assert p[..1] == [p[0]] && t[..1] == [t[0]];
    assert p[0] in multiset{t[0]};
    assert p == [p[0]] + p[1..] && t == [t[0]] + t[1..];
  }

  /** Positions above i of the shuffled `s` already match `t`, and positions
      up to i hold the same cards as `t`'s. */
  ghost predicate Settled<T>(s: seq<T>, t: seq<T>, d: seq<nat>, i: nat)
  {
    |t| == |s| && i < |s| && |d| == |s| - 1 - i && ValidDraws(|s|, d)
    && SwapSteps(s, d)[i + 1..] == t[i + 1..]
    && multiset(SwapSteps(s, d)[..i + 1]) == multiset(t[..i + 1])
  }

  /** One step of the construction below: some choice for position i makes
      it match t too. */
  lemma {:induction false} Advance<T>(s: seq<T>, t: seq<T>, d: seq<nat>, i: nat) returns (e: seq<nat>)
    requires 0 < i && Settled(s, t, d, i)
    ensures Settled(s, t, e, i - 1) && e[1..] == d
  {
    var p := SwapSteps(s, d);
    var j := FindCard(p, t, i);
    PlaceCard(p, t, i, j);
    assert t[i..] == [t[i]] + t[i + 1..];
    e := [j] + d;
    assert e[1..] == d;
    StepOnce(s, d, j);
  }

  /** The choices that turn `s` into a given permutation `t` of it. */
  lemma DrawsFor<T>(s: seq<T>, t: seq<T>) returns (d: seq<nat>)
    requires multiset(t) == multiset(s) && |s| > 0
    ensures CompleteDraws(|s|, d) && SwapSteps(s, d) == t
  {
    var n := |s|;
    assert |t| == n by { assert |multiset(t)| == |multiset(s)|; }
    d := [];
    var i: nat := n - 1;
    assert SwapSteps(s, d) == s;
    assert s[..i + 1] == s && t[..i + 1] == t;
    while i > 0
      invariant Settled(s, t, d, i)
    {
      d := Advance(s, t, d, i);
      i := i - 1;
    }
    FirstCard(SwapSteps(s, d), t);
  }



  /** Every permutation of `s` is the outcome of some run: the shuffle can
      produce any order of the cards. */
  lemma EveryPermutationReachable<T>(s: seq<T>, t: seq<T>)
    requires multiset(t) == multiset(s)
    ensures exists draws :: CompleteDraws(|s|, draws) && SwapSteps(s, draws) == t
  {
    if |s| == 0 {
      assert |t| == |multiset(t)| == 0;
      assert CompleteDraws(0, []) && SwapSteps(s, []) == t;
    } else {
      var d := DrawsFor(s, t);
    }
  }

  /** The steps recorded before index m worked on positions below
      n - |d| + m, so they never touch the entries the later-recorded (that
      is, earlier) steps d[m..] have settled there. */
  lemma {:induction false} SettledSuffix<T>(s: seq<T>, d: seq<nat>, m: nat)
    requires ValidDraws(|s|, d) && m <= |d|
    ensures ValidDraws(|s|, d[m..])
    ensures SwapSteps(s, d)[|s| - |d| + m..] == SwapSteps(s, d[m..])[|s| - |d| + m..]
  {
    if m > 0 {
      SettledSuffix(s, d[1..], m - 1);
      assert d[1..][m - 1..] == d[m..];
    }
  }

  /** No card occurs twice. */
  predicate Distinct<T(==)>(s: seq<T>) {
    forall i, j :: 0 <= i < j < |s| ==> s[i] != s[j]
  }

  /** Swaps keep the cards distinct. */
  lemma {:induction false} SwapStepsDistinct<T>(s: seq<T>, draws: seq<nat>)
    requires ValidDraws(|s|, draws)
    requires Distinct(s)
    ensures Distinct(SwapSteps(s, draws))
  {
    if draws != [] {
      SwapStepsDistinct(s, draws[1..]);
    }
  }

  /** The choice recorded at index m decides the card that ends at position
      n - |d| + m: the card at that index before the step. */
  lemma ChoiceFixesCard<T>(s: seq<T>, d: seq<nat>, m: nat, r: seq<nat>)
    requires ValidDraws(|s|, d) && m < |d| && r == d[m + 1..]
    ensures ValidDraws(|s|, r) && d[m] < |s|
    ensures SwapSteps(s, d)[|s| - |d| + m] == SwapSteps(s, r)[d[m]]
  {
    SettledSuffix(s, d, m);
    assert d[m..][1..] == r;
    var pos := |s| - |d| + m;
    assert SwapSteps(s, d)[pos..][0] == SwapSteps(s, d[m..])[pos..][0];
  }

  /** In a sequence of distinct cards, a card has one position. */
  lemma SameCardSameIndex<T>(p: seq<T>, a: nat, b: nat)
    requires Distinct(p) && a < |p| && b < |p| && p[a] == p[b]
    ensures a == b
  {
  }

  /** Distinct cards stay distinct, so a card of the shuffled sequence
      names its position. */
  lemma SameCardAfterSteps<T>(s: seq<T>, r: seq<nat>, a: nat, b: nat)
    requires Distinct(s) && ValidDraws(|s|, r) && a < |s| && b < |s|
    requires SwapSteps(s, r)[a] == SwapSteps(s, r)[b]
    ensures a == b
  {
    SwapStepsDistinct(s, r);
    SameCardSameIndex(SwapSteps(s, r), a, b);
  }

  /** Two runs that end alike and agree on their later choices pick, at
      choice m, indices holding the same card. */
  lemma SameChoiceAt<T>(s: seq<T>, d1: seq<nat>, d2: seq<nat>, m: nat, r: seq<nat>)
    requires ValidDraws(|s|, d1) && ValidDraws(|s|, d2)
    requires |d1| == |d2| && m < |d1| && r == d1[m + 1..] && r == d2[m + 1..]
    requires SwapSteps(s, d1)[|s| - |d1| + m] == SwapSteps(s, d2)[|s| - |d1| + m]
    ensures ValidDraws(|s|, r) && d1[m] < |s| && d2[m] < |s|
    ensures SwapSteps(s, r)[d1[m]] == SwapSteps(s, r)[d2[m]]
  {
    ChoiceFixesCard(s, d1, m, r);
    ChoiceFixesCard(s, d2, m, r);
  }

  /** On distinct cards, different choices give different orders. With the
      reachability lemma above, runs correspond one-to-one to permutations,
      so n! equally likely runs give every order with probability 1/n!. */
  lemma DifferentDrawsDifferentOrders<T>(s: seq<T>, d1: seq<nat>, d2: seq<nat>)
    requires Distinct(s)
    requires CompleteDraws(|s|, d1) && CompleteDraws(|s|, d2)
    requires SwapSteps(s, d1) == SwapSteps(s, d2)
    ensures d1 == d2
  {
    var k := |d1|;
    while k > 0
      invariant 0 <= k <= |d1|
      invariant d1[k..] == d2[k..]
    {
      var m := k - 1;
      var r := d1[m + 1..];
      SameChoiceAt(s, d1, d2, m, r);
      SameCardAfterSteps(s, r, d1[m], d2[m]);
      assert d1[m..] == [d1[m]] + d1[k..] && d2[m..] == [d2[m]] + d2[k..];
      k := m;
    }
    assert d1 == d1[0..] && d2 == d2[0..];
  }
}
