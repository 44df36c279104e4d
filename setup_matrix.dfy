/** The in-memory setup matrix `{ [fromCode]: { [toCode]: minutes } }` and the cost of a
    sequence of equipment codes over it. */
module SetupMatrix {
  import opened Common

  type Code = string

  /** `SetupMatrixCache`: setup minutes by from-code, then to-code. */
  type SetupMatrixCache = map<Code, map<Code, nat>>

  /** `cache[from][to]`, None when `cache[from]` is missing or `cache[from][to] === undefined`.
      An entry holding 0 is present. */
  function Lookup(cache: SetupMatrixCache, from: Code, to: Code): Option<nat>
  {
    if from in cache && to in cache[from] then Some(cache[from][to]) else None
  }

  /** Every consecutive pair of `s` has an entry. */
  ghost predicate AllPairsPresent(s: seq<Code>, cache: SetupMatrixCache)
  {
    forall k :: 0 <= k < |s| - 1 ==> Lookup(cache, s[k], s[k + 1]).Some?
  }

  /** The total setup time of `s`: the transitions are added from the front, and the first
      missing transition is the error. Defined on the last transition so that it follows
      a left-to-right accumulation. */
  function PathCost(s: seq<Code>, cache: SetupMatrixCache): Result<nat>
  {
    if |s| <= 1 then Ok(0)
    else
      match PathCost(s[..|s| - 1], cache)
      case Err(e) => Err(e)
      case Ok(c) =>
        match Lookup(cache, s[|s| - 2], s[|s| - 1])
        case None => Err(SetupTimeNotFound(s[|s| - 2], s[|s| - 1]))
        case Some(t) => Ok(c + t)
  }

  /** An independent statement of the total: `cache[s[0]][s[1]] + cache[s[1]][s[2]] + ...`. */
  ghost function PairSum(s: seq<Code>, cache: SetupMatrixCache): nat
    requires AllPairsPresent(s, cache)
  {
    if |s| <= 1 then 0
    else
      assert Lookup(cache, s[0], s[1]).Some?;
      var rest := s[1..];
      assert forall k :: 0 <= k < |rest| ==> rest[k] == s[k + 1];
      Lookup(cache, s[0], s[1]).value + PairSum(rest, cache)
  }

  lemma {:induction false} PairSumOfSnoc(s: seq<Code>, cache: SetupMatrixCache)
    requires |s| >= 2 && AllPairsPresent(s, cache)
    ensures AllPairsPresent(s[..|s| - 1], cache)
    ensures PairSum(s, cache) == PairSum(s[..|s| - 1], cache) + Lookup(cache, s[|s| - 2], s[|s| - 1]).value
    decreases |s|
  {
    var init := s[..|s| - 1];
    assert forall k :: 0 <= k < |init| ==> init[k] == s[k];
    if |s| > 2 {
      assert AllPairsPresent(s[1..], cache) by {
        forall k | 0 <= k < |s[1..]| - 1 ensures Lookup(cache, s[1..][k], s[1..][k + 1]).Some? {
          assert s[1..][k] == s[k + 1] && s[1..][k + 1] == s[k + 2];
        }
      }
      PairSumOfSnoc(s[1..], cache);
      assert s[1..][..|s[1..]| - 1] == init[1..];
    }
  }

  /** When every transition is present the cost is their sum, whatever else the matrix holds. */
  lemma {:induction false} PathCostIsPairSum(s: seq<Code>, cache: SetupMatrixCache)
    requires AllPairsPresent(s, cache)
    ensures PathCost(s, cache) == Ok(PairSum(s, cache))
    decreases |s|
  {
    if |s| >= 2 {
      PairSumOfSnoc(s, cache);
      PathCostIsPairSum(s[..|s| - 1], cache);
    }
  }

  /** The cost fails exactly when some transition is missing, and then it reports the first
      missing one, with no partial total. */
  lemma {:induction false} PathCostFailsAtFirstGap(s: seq<Code>, cache: SetupMatrixCache, k: nat)
    requires k < |s| - 1 && Lookup(cache, s[k], s[k + 1]).None?
    requires forall j :: 0 <= j < k ==> Lookup(cache, s[j], s[j + 1]).Some?
    ensures PathCost(s, cache) == Err(SetupTimeNotFound(s[k], s[k + 1]))
    decreases |s|
  {
    var init := s[..|s| - 1];
    assert forall j :: 0 <= j < |init| ==> init[j] == s[j];
    if k < |s| - 2 {
      PathCostFailsAtFirstGap(init, cache, k);
    } else {
      assert AllPairsPresent(init, cache);
      PathCostIsPairSum(init, cache);
    }
  }

  lemma {:induction false} PathCostOkIffAllPairsPresent(s: seq<Code>, cache: SetupMatrixCache)
    ensures PathCost(s, cache).Ok? <==> AllPairsPresent(s, cache)
    decreases |s|
  {
    if |s| >= 2 {
      var init := s[..|s| - 1];
      assert forall j :: 0 <= j < |init| ==> init[j] == s[j];
      PathCostOkIffAllPairsPresent(init, cache);
    }
  }

  /** Appending a code adds the transition from the old last code, or fails with it. */
  lemma PathCostOfAppend(s: seq<Code>, x: Code, cache: SetupMatrixCache)
    requires |s| >= 1
    ensures PathCost(s + [x], cache).Ok? <==>
      PathCost(s, cache).Ok? && Lookup(cache, s[|s| - 1], x).Some?
    ensures PathCost(s + [x], cache).Ok? ==>
      PathCost(s + [x], cache).value == PathCost(s, cache).value + Lookup(cache, s[|s| - 1], x).value
  {
    assert (s + [x])[..|s|] == s;
  }

  /** The matrix of the optimizer's unit tests (`createTestCache`). */
  function TestCache(): SetupMatrixCache
  {
    map[
      "A" := map["B" := 10, "C" := 15, "D" := 20],
      "B" := map["A" := 10, "C" := 35, "D" := 25],
      "C" := map["A" := 15, "B" := 35, "D" := 30],
      "D" := map["A" := 20, "B" := 25, "C" := 30]
    ]
  }

  /** The unit-test vectors of `calculateTotalSetupTimeFromCache`. */
  lemma TestCacheVectors()
    ensures PathCost([], TestCache()) == Ok(0)
    ensures PathCost(["A"], TestCache()) == Ok(0)
    ensures PathCost(["A", "B"], TestCache()) == Ok(10)
    ensures PathCost(["B", "A"], TestCache()) == Ok(10)
    ensures PathCost(["A", "B", "C"], TestCache()) == Ok(45)
    ensures PathCost(["A", "C", "B", "D"], TestCache()) == Ok(75)
    ensures PathCost(["A", "E"], TestCache()) == Err(SetupTimeNotFound("A", "E"))
  {
    assert ["A", "C", "B", "D"][..3] == ["A", "C", "B"];
    assert ["A", "C", "B"][..2] == ["A", "C"];
    assert ["A", "B", "C"][..2] == ["A", "B"];
  }
}
