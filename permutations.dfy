/** `permute` of `setupTimeCalculator.ts`: every ordering of a list, generated by choosing
    each element in turn as the head and recursing on the rest. */
module Permutations {

  /** `arr.slice(0, i).concat(arr.slice(i + 1))`: the list without its element at `i`. */
  function Remove<T>(arr: seq<T>, i: nat): (r: seq<T>)
    requires i < |arr|
    ensures |r| == |arr| - 1
  {
    arr[..i] + arr[i + 1..]
  }

  /** `[current, ...perm]` for each `perm` in turn. */
  function Prepend<T>(x: T, ps: seq<seq<T>>): (r: seq<seq<T>>)
    ensures |r| == |ps|
  {
    seq(|ps|, j requires 0 <= j < |ps| => [x] + ps[j])
  }

  /** The list `permute(arr)` returns. */
  function Permutations<T>(arr: seq<T>): seq<seq<T>>
    decreases |arr|, 1
  {
    if |arr| <= 1 then [arr] else PermsUpTo(arr, |arr|)
  }

  /** `result` once the loop of `permute` has handled the heads `arr[0 .. k-1]`. */
  function PermsUpTo<T>(arr: seq<T>, k: nat): seq<seq<T>>
    requires k <= |arr|
    decreases |arr|, 0, k
  {
    if k == 0 then []
    else PermsUpTo(arr, k - 1) + Prepend(arr[k - 1], Permutations(Remove(arr, k - 1)))
  }

  function Fact(n: nat): (r: nat)
    ensures r >= 1
  {
    if n == 0 then 1 else n * Fact(n - 1)
  }

  /** `permute`: one list for a list of length at most one, otherwise the orderings that
      start with `arr[0]`, then those that start with `arr[1]`, and so on. */
  method Permute<T>(arr: seq<T>) returns (result: seq<seq<T>>)
    ensures result == Permutations(arr)
    decreases |arr|
  {
    if |arr| <= 1 {
      return [arr];
    }
    result := [];
    for i := 0 to |arr|
      invariant result == PermsUpTo(arr, i)
    {
      var current := arr[i];
      var remaining := arr[..i] + arr[i + 1..];
      var remainingPermutations := Permute(remaining);
      for j := 0 to |remainingPermutations|
        invariant result == PermsUpTo(arr, i) + Prepend(current, remainingPermutations[..j])
      {
        assert Prepend(current, remainingPermutations[..j + 1])
          == Prepend(current, remainingPermutations[..j]) + [[current] + remainingPermutations[j]];
        result := result + [[current] + remainingPermutations[j]];
      }
      assert remainingPermutations[..|remainingPermutations|] == remainingPermutations;
    }
  }

  /** `permute` returns n! lists: one list (the empty one) for the empty input. */
  lemma {:induction false} PermutationsCount<T>(arr: seq<T>)
    ensures |Permutations(arr)| == Fact(|arr|)
    decreases |arr|, 1
  {
    if |arr| > 1 {
      PermsUpToCount(arr, |arr|);
    }
  }

  lemma {:induction false} PermsUpToCount<T>(arr: seq<T>, k: nat)
    requires 1 <= |arr| && k <= |arr|
    ensures |PermsUpTo(arr, k)| == k * Fact(|arr| - 1)
    decreases |arr|, 0, k
  {
    if k > 0 {
      var f := Fact(|arr| - 1);
      PermsUpToCount(arr, k - 1);
      PermutationsCount(Remove(arr, k - 1));
      calc {
        |PermsUpTo(arr, k)|;
        |PermsUpTo(arr, k - 1)| + |Prepend(arr[k - 1], Permutations(Remove(arr, k - 1)))|;
        (k - 1) * f + f;
        { assert (k - 1) * f + f == k * f; }
        k * f;
      }
    }
  }

  lemma RemoveSplits<T>(arr: seq<T>, i: nat)
    requires i < |arr|
    ensures multiset(arr) == multiset{arr[i]} + multiset(Remove(arr, i))
  {
    assert arr == arr[..i] + [arr[i]] + arr[i + 1..];
  }

  /** Every list `permute(arr)` returns is a rearrangement of `arr`. */
  lemma {:induction false} PermutationsAreRearrangements<T>(arr: seq<T>)
    ensures forall j :: 0 <= j < |Permutations(arr)| ==> multiset(Permutations(arr)[j]) == multiset(arr)
    decreases |arr|, 1
  {
    if |arr| > 1 {
      PermsUpToAreRearrangements(arr, |arr|);
    }
  }

  lemma {:induction false} PermsUpToAreRearrangements<T>(arr: seq<T>, k: nat)
    requires k <= |arr|
    ensures forall j :: 0 <= j < |PermsUpTo(arr, k)| ==> multiset(PermsUpTo(arr, k)[j]) == multiset(arr)
    decreases |arr|, 0, k
  {
    if k > 0 {
      var before, rest := PermsUpTo(arr, k - 1), Permutations(Remove(arr, k - 1));
      var added := Prepend(arr[k - 1], rest);
      PermsUpToAreRearrangements(arr, k - 1);
      PermutationsAreRearrangements(Remove(arr, k - 1));
      RemoveSplits(arr, k - 1);
      forall j | 0 <= j < |PermsUpTo(arr, k)|
        ensures multiset(PermsUpTo(arr, k)[j]) == multiset(arr)
      {
        if j >= |before| {
          var q := rest[j - |before|];
          assert PermsUpTo(arr, k)[j] == added[j - |before|] == [arr[k - 1]] + q;
        }
      }
    }
  }

  /** Handling more heads only appends to `result`. */
  lemma {:induction false} PermsUpToExtends<T>(arr: seq<T>, k: nat, k': nat)
    requires k <= k' <= |arr|
    ensures |PermsUpTo(arr, k)| <= |PermsUpTo(arr, k')|
    ensures PermsUpTo(arr, k')[..|PermsUpTo(arr, k)|] == PermsUpTo(arr, k)
    decreases k'
  {
    if k < k' {
      PermsUpToExtends(arr, k, k' - 1);
      assert PermsUpTo(arr, k') == PermsUpTo(arr, k' - 1) + Prepend(arr[k' - 1], Permutations(Remove(arr, k' - 1)));
    }
  }

  /** The first list `permute(arr)` returns is `arr` itself. */
  lemma {:induction false} FirstPermutationIsInput<T>(arr: seq<T>)
    ensures |Permutations(arr)| >= 1 && Permutations(arr)[0] == arr
    decreases |arr|
  {
    if |arr| > 1 {
      var rest := Permutations(Remove(arr, 0));
      FirstPermutationIsInput(Remove(arr, 0));
      assert PermsUpTo(arr, 1) == PermsUpTo(arr, 0) + Prepend(arr[0], rest);
      assert PermsUpTo(arr, 1)[0] == [arr[0]] + arr[1..] == arr;
      PermsUpToExtends(arr, 1, |arr|);
    }
  }

  /** The orderings that start with `arr[i]` sit after those of the earlier heads. */
  lemma HeadThenRest<T>(arr: seq<T>, i: nat, j: nat)
    requires 2 <= |arr| && i < |arr| && j < |Permutations(Remove(arr, i))|
    ensures |PermsUpTo(arr, i)| + j < |Permutations(arr)|
    ensures Permutations(arr)[|PermsUpTo(arr, i)| + j] == [arr[i]] + Permutations(Remove(arr, i))[j]
  {
    var rest := Permutations(Remove(arr, i));
    var before, added := PermsUpTo(arr, i), Prepend(arr[i], rest);
    var after := PermsUpTo(arr, i + 1);
    var all := PermsUpTo(arr, |arr|);
    assert after == before + added;
    PermsUpToExtends(arr, i + 1, |arr|);
    calc {
      all[|before| + j];
      all[..|after|][|before| + j];
      after[|before| + j];
      added[j];
    }
  }

  /** Matching the head of `p` with `arr[i]` leaves two rearrangements of each other. */
  lemma TailRearranges<T>(arr: seq<T>, p: seq<T>, i: nat)
    requires |p| >= 1 && i < |arr| && arr[i] == p[0] && multiset(p) == multiset(arr)
    ensures multiset(p[1..]) == multiset(Remove(arr, i))
  {
    RemoveSplits(arr, i);
    assert p == [p[0]] + p[1..];
    assert multiset(p[1..]) == multiset(p) - multiset{p[0]};
  }

  /** Every rearrangement of `arr` is among the lists `permute(arr)` returns. */
  lemma {:induction false} EveryRearrangementIsGenerated<T>(arr: seq<T>, p: seq<T>)
    requires multiset(p) == multiset(arr)
    ensures p in Permutations(arr)
    decreases |arr|
  {
    if |arr| <= 1 {
      ShortRearrangementIsInput(arr, p);
    } else {
      assert p[0] in multiset(arr);
      var i :| 0 <= i < |arr| && arr[i] == p[0];
      TailRearranges(arr, p, i);
      EveryRearrangementIsGenerated(Remove(arr, i), p[1..]);
      var rest := Permutations(Remove(arr, i));
      var j :| 0 <= j < |rest| && rest[j] == p[1..];
      HeadThenRest(arr, i, j);
      assert p == [arr[i]] + p[1..];
      assert Permutations(arr)[|PermsUpTo(arr, i)| + j] == p;
    }
  }

  /** A list of at most one element is its only rearrangement. */
  lemma ShortRearrangementIsInput<T>(arr: seq<T>, p: seq<T>)
    requires |arr| <= 1 && multiset(p) == multiset(arr)
    ensures p == arr
  {
    assert |p| == |multiset(p)| == |arr|;
    if |arr| == 1 {
      assert p[0] in multiset(arr);
    }
  }
}
