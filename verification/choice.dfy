/** Randomness as explicit input. A run's random draws are handed in as a
    sequence; the k-th draw reduced into range stands for the k-th call of a
    uniform distribution, and a shuffle is the Fisher-Yates walk driven by draws. */
module Choice {

  /** Draw number `k`, reduced into `[0, n)`; a draw past the end reads as 0. */
  function Pick(draws: seq<nat>, k: nat, n: nat): (r: nat)
    requires n > 0
    ensures r < n
  {
    (if k < |draws| then draws[k] else 0) % n
  }

  function Swap<T>(xs: seq<T>, i: nat, j: nat): (r: seq<T>)
    requires i < |xs| && j < |xs|
    ensures |r| == |xs| && r[i] == xs[j] && r[j] == xs[i]
    ensures forall k :: 0 <= k < |xs| && k != i && k != j ==> r[k] == xs[k]
    ensures multiset(r) == multiset(xs)
  {
    var r := xs[i := xs[j]][j := xs[i]];
    SwapMultiset(xs, i, j);
    r
  }

  lemma SwapMultiset<T>(xs: seq<T>, i: nat, j: nat)
    requires i < |xs| && j < |xs|
    ensures multiset(xs[i := xs[j]][j := xs[i]]) == multiset(xs)
  {
    if i != j {
      var ys := xs[i := xs[j]];
      assert multiset(ys) == multiset(xs) - multiset{xs[i]} + multiset{xs[j]};
      assert multiset(ys[j := xs[i]]) == multiset(ys) - multiset{ys[j]} + multiset{xs[i]};
    }
  }

  /** `std::shuffle`: for each position from the last down to the second, swap it
      with a drawn position at or below it. */
  function Shuffle<T>(xs: seq<T>, draws: seq<nat>): (r: seq<T>)
    ensures |r| == |xs| && multiset(r) == multiset(xs)
  {
    ShuffleDown(xs, draws, |xs|)
  }

  function ShuffleDown<T>(xs: seq<T>, draws: seq<nat>, n: nat): (r: seq<T>)
    requires n <= |xs|
    ensures |r| == |xs| && multiset(r) == multiset(xs)
    decreases n
  {
    if n <= 1 then xs
    else ShuffleDown(Swap(xs, n - 1, Pick(draws, |xs| - n, n)), draws, n - 1)
  }

  /** A permutation of a duplicate-free sequence is duplicate-free. */
  lemma PermutationDistinct<T>(xs: seq<T>, ys: seq<T>)
    requires multiset(xs) == multiset(ys)
    requires forall i, j :: 0 <= i < j < |xs| ==> xs[i] != xs[j]
    ensures forall i, j :: 0 <= i < j < |ys| ==> ys[i] != ys[j]
  {
    forall i, j | 0 <= i < j < |ys|
      ensures ys[i] != ys[j]
    {
      if ys[i] == ys[j] {
        var v := ys[i];
        assert multiset(ys)[v] >= 2 by {
          assert ys == ys[..i] + [v] + ys[i + 1..j] + [v] + ys[j + 1..];
        }
        DistinctMultiplicity(xs, v);
        assert false;
      }
    }
  }

  lemma DistinctMultiplicity<T>(xs: seq<T>, v: T)
    requires forall i, j :: 0 <= i < j < |xs| ==> xs[i] != xs[j]
    ensures multiset(xs)[v] <= 1
  {
    if |xs| > 0 {
      assert xs == [xs[0]] + xs[1..];
      DistinctMultiplicity(xs[1..], v);
      if xs[0] == v {
        assert v !in xs[1..];
      }
    }
  }

  /** A prefix of a shuffle holds elements of the original, distinct when
      the original's are. */
  lemma ShuffleKeeps<T>(xs: seq<T>, draws: seq<nat>, n: nat)
    requires n <= |xs| && forall i, j :: 0 <= i < j < |xs| ==> xs[i] != xs[j]
    ensures var ys := Shuffle(xs, draws)[..n];
      (forall k :: 0 <= k < |ys| ==> ys[k] in xs) && forall i, j :: 0 <= i < j < |ys| ==> ys[i] != ys[j]
  {
    var ys := Shuffle(xs, draws);
    PermutationDistinct(xs, ys);
    forall k | 0 <= k < n ensures ys[..n][k] in xs {
      assert ys[..n][k] == ys[k];
      assert ys[k] in multiset(ys);
    }
  }
}
