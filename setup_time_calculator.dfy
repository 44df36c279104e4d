/** `setupTimeCalculator.ts`: the cost of a sequence read from the database, the
    brute-force search over every ordering, and the score and rank of a player's time. */
module SetupTimeCalculator {
  import opened Common
  import opened SetupMatrix
  import opened Permutations
  import opened HeldKarp

  type EquipmentId = string

  /** The two tables the cost loop queries: `equipment` by its unique code, and
      `setupMatrix` by the pair `(fromEquipmentId, toEquipmentId)`. */
  datatype Database = Database(equipment: map<Code, EquipmentId>, setupMatrix: map<(EquipmentId, EquipmentId), nat>)

  /** One transition of the cost loop: both codes must name equipment, then the pair of
      their ids must have a row in the matrix. */
  function TransitionTime(db: Database, fromCode: Code, toCode: Code): Result<nat>
  {
    if fromCode !in db.equipment || toCode !in db.equipment then Err(EquipmentNotFound(fromCode, toCode))
    else
      var key := (db.equipment[fromCode], db.equipment[toCode]);
      if key !in db.setupMatrix then Err(SetupTimeNotFound(fromCode, toCode))
      else Ok(db.setupMatrix[key])
  }

  /** The value of `calculateTotalSetupTime`: 0 for fewer than two codes, otherwise the sum of
      the transitions, or the error of the first transition that fails. */
  function DbPathCost(s: seq<Code>, db: Database): Result<nat>
  {
    if |s| <= 1 then Ok(0)
    else
      match DbPathCost(s[..|s| - 1], db)
      case Err(e) => Err(e)
      case Ok(c) =>
        match TransitionTime(db, s[|s| - 2], s[|s| - 1])
        case Err(e) => Err(e)
        case Ok(t) => Ok(c + t)
  }

  /** An error met on a prefix is the error of the whole sequence. */
  lemma {:induction false} PrefixErrorStays(s: seq<Code>, db: Database, k: nat)
    requires 2 <= k <= |s| && DbPathCost(s[..k], db).Err?
    ensures DbPathCost(s, db) == DbPathCost(s[..k], db)
    decreases |s| - k
  {
    if k < |s| {
      assert s[..k + 1][..k] == s[..k];
      PrefixErrorStays(s, db, k + 1);
    } else {
      assert s[..k] == s;
    }
  }

  /** `calculateTotalSetupTime`, with the two queries per transition read from `db`. */
  method CalculateTotalSetupTime(sequence: seq<Code>, db: Database) returns (r: Result<nat>)
    ensures r == DbPathCost(sequence, db)
  {
    if |sequence| == 0 {
      return Ok(0);
    }
    if |sequence| == 1 {
      return Ok(0);
    }
    var totalTime := 0;
    for i := 0 to |sequence| - 1
      invariant DbPathCost(sequence[..i + 1], db) == Ok(totalTime)
    {
      var fromCode, toCode := sequence[i], sequence[i + 1];
      assert sequence[..i + 2][..i + 1] == sequence[..i + 1];
      if fromCode !in db.equipment || toCode !in db.equipment {
        PrefixErrorStays(sequence, db, i + 2);
        return Err(EquipmentNotFound(fromCode, toCode));
      }
      var fromId, toId := db.equipment[fromCode], db.equipment[toCode];
      if (fromId, toId) !in db.setupMatrix {
        PrefixErrorStays(sequence, db, i + 2);
        return Err(SetupTimeNotFound(fromCode, toCode));
      }
      totalTime := totalTime + db.setupMatrix[(fromId, toId)];
    }
    assert sequence[..|sequence|] == sequence;
    return Ok(totalTime);
  }

  /** The database read as the in-memory matrix keyed by codes. */
  function CacheOf(db: Database): SetupMatrixCache
  {
    map f | f in db.equipment ::
      map t | t in db.equipment && (db.equipment[f], db.equipment[t]) in db.setupMatrix ::
        db.setupMatrix[(db.equipment[f], db.equipment[t])]
  }

  /** Between known codes, a transition of the database is the entry of its matrix. */
  lemma TransitionIsLookup(db: Database, f: Code, t: Code)
    requires f in db.equipment && t in db.equipment
    ensures TransitionTime(db, f, t).Ok? <==> Lookup(CacheOf(db), f, t).Some?
    ensures TransitionTime(db, f, t).Ok? ==> TransitionTime(db, f, t).value == Lookup(CacheOf(db), f, t).value
    ensures TransitionTime(db, f, t).Err? ==> TransitionTime(db, f, t).error == SetupTimeNotFound(f, t)
  {
  }

  /** The database-backed cost and the cache-backed cost agree on sequences of known codes:
      the two functions compute the same sum and fail on the same transition. */
  lemma {:induction false} DbPathCostIsPathCost(s: seq<Code>, db: Database)
    requires forall k :: 0 <= k < |s| ==> s[k] in db.equipment
    ensures DbPathCost(s, db) == PathCost(s, CacheOf(db))
    decreases |s|
  {
    if |s| >= 2 {
      var init := s[..|s| - 1];
      assert forall k :: 0 <= k < |init| ==> init[k] == s[k];
      DbPathCostIsPathCost(init, db);
      TransitionIsLookup(db, s[|s| - 2], s[|s| - 1]);
    }
  }

  /** A sequence of two or more codes costs something only when every code names equipment. */
  lemma {:induction false} CostNeedsKnownCodes(s: seq<Code>, db: Database)
    requires |s| >= 2 && DbPathCost(s, db).Ok?
    ensures forall k :: 0 <= k < |s| ==> s[k] in db.equipment
    decreases |s|
  {
    var init := s[..|s| - 1];
    assert forall k :: 0 <= k < |init| ==> init[k] == s[k];
    if |s| > 2 {
      CostNeedsKnownCodes(init, db);
    }
  }

  /** `calculateTotalSetupTime` of each permutation, with None for those that throw. */
  function Costs(perms: seq<seq<Code>>, db: Database): (r: seq<Option<nat>>)
    ensures |r| == |perms|
  {
    seq(|perms|, j requires 0 <= j < |perms| =>
      if DbPathCost(perms[j], db).Ok? then Some(DbPathCost(perms[j], db).value) else None)
  }

  /** What `findOptimalSequence` returns for the equipment codes it reads. */
  function BruteForceResult(codes: seq<Code>, db: Database): Result<OptimalSequenceResult>
  {
    if |codes| == 0 then Err(NoEquipmentFound)
    else
      var perms := Permutations.Permutations(codes);
      match FirstMin(Costs(perms, db))
      case None => Err(FailedToFindOptimal)
      case Some(j) => Ok(OptimalSequenceResult(perms[j], Costs(perms, db)[j].value))
  }

  /** `findOptimalSequence`. The codes of the equipment table, in ascending order, are a
      parameter; each permutation is costed, those that throw are skipped, and a strictly
      smaller time replaces the best so far. */
  method FindOptimalSequence(allEquipmentCodes: seq<Code>, db: Database) returns (r: Result<OptimalSequenceResult>)
    ensures r == BruteForceResult(allEquipmentCodes, db)
  {
    if |allEquipmentCodes| == 0 {
      return Err(NoEquipmentFound);
    }
    var equipmentCodes := allEquipmentCodes;
    var allPermutations := Permute(equipmentCodes);
    ghost var costs := Costs(allPermutations, db);
    PermutationsAreRearrangements(equipmentCodes);
    var optimalSequence: seq<Code> := [];
    var minTime := Infinity;
    ghost var best: Option<nat> := None;
    assert costs[..0] == [];
    for j := 0 to |allPermutations|
      invariant best == FirstMin(costs[..j])
      invariant best.None? ==> optimalSequence == [] && minTime == Infinity
      invariant best.Some? ==>
        best.value < j && optimalSequence == allPermutations[best.value] && minTime == Finite(costs[best.value].value)
    {
      assert costs[..j + 1][..j] == costs[..j];
      var time := CalculateTotalSetupTime(allPermutations[j], db);
      if time.Ok? && Below(time.value, minTime) {
        minTime := Finite(time.value);
        optimalSequence := allPermutations[j];
      }
      best := FirstMin(costs[..j + 1]);
    }
    assert costs[..|allPermutations|] == costs;
    if best.Some? {
      var p := allPermutations[best.value];
      assert |p| == |multiset(p)| == |multiset(equipmentCodes)| == |equipmentCodes|;
    }
    if |optimalSequence| == 0 {
      return Err(FailedToFindOptimal);
    }
    return Ok(OptimalSequenceResult(optimalSequence, minTime.n));
  }

  /** The brute-force result is a rearrangement of the codes whose time is its cost, and
      no rearrangement whose cost can be computed is cheaper. */
  lemma BruteForceIsOptimal(codes: seq<Code>, db: Database)
    ensures BruteForceResult(codes, db) == Err(NoEquipmentFound) <==> |codes| == 0
    ensures var r := BruteForceResult(codes, db);
      r.Ok? ==>
        && multiset(r.value.sequence) == multiset(codes)
        && DbPathCost(r.value.sequence, db) == Ok(r.value.time)
        && forall p :: multiset(p) == multiset(codes) && DbPathCost(p, db).Ok? ==>
             r.value.time <= DbPathCost(p, db).value
  {
    if |codes| > 0 {
      var perms := Permutations.Permutations(codes);
      var costs := Costs(perms, db);
      PermutationsAreRearrangements(codes);
      FirstMinIsFirstMinimum(costs);
      if FirstMin(costs).Some? {
        var j := FirstMin(costs).value;
        forall p | multiset(p) == multiset(codes) && DbPathCost(p, db).Ok?
          ensures costs[j].value <= DbPathCost(p, db).value
        {
          EveryRearrangementIsGenerated(codes, p);
          var k :| 0 <= k < |perms| && perms[k] == p;
          assert costs[k] == Some(DbPathCost(p, db).value);
        }
      }
    }
  }

  /** Ties go to the earliest permutation generated: every permutation before the chosen
      one either throws or costs strictly more. */
  lemma BruteForcePrefersEarliest(codes: seq<Code>, db: Database)
    requires BruteForceResult(codes, db).Ok?
    ensures var perms, j := Permutations.Permutations(codes), FirstMin(Costs(Permutations.Permutations(codes), db)).value;
      && perms[j] == BruteForceResult(codes, db).value.sequence
      && forall k :: 0 <= k < j && DbPathCost(perms[k], db).Ok? ==>
           DbPathCost(perms[k], db).value > BruteForceResult(codes, db).value.time
  {
    var perms := Permutations.Permutations(codes);
    var costs := Costs(perms, db);
    FirstMinIsFirstMinimum(costs);
    var j := FirstMin(costs).value;
    forall k | 0 <= k < j && DbPathCost(perms[k], db).Ok?
      ensures DbPathCost(perms[k], db).value > BruteForceResult(codes, db).value.time
    {
      assert costs[k].Some?;
    }
  }

  /** "Failed to find optimal sequence" is thrown exactly when there is equipment but the
      cost of no rearrangement of it can be computed. */
  lemma BruteForceFailsIffNothingEvaluates(codes: seq<Code>, db: Database)
    requires |codes| >= 1
    ensures BruteForceResult(codes, db) == Err(FailedToFindOptimal) <==>
      forall p :: multiset(p) == multiset(codes) ==> DbPathCost(p, db).Err?
  {
    var perms := Permutations.Permutations(codes);
    var costs := Costs(perms, db);
    PermutationsAreRearrangements(codes);
    FirstMinIsFirstMinimum(costs);
    if BruteForceResult(codes, db) == Err(FailedToFindOptimal) {
      forall p | multiset(p) == multiset(codes) ensures DbPathCost(p, db).Err? {
        EveryRearrangementIsGenerated(codes, p);
        var k :| 0 <= k < |perms| && perms[k] == p;
        assert costs[k].None?;
      }
    } else {
      var j := FirstMin(costs).value;
      assert multiset(perms[j]) == multiset(codes) && DbPathCost(perms[j], db).Ok?;
    }
  }

  /** On a database that knows every code and holds every transition the Held-Karp table
      needs, exhaustive search is never worse than the search anchored at the first code. */
  lemma BruteForceNoWorseThanHeldKarp(codes: seq<Code>, db: Database)
    requires |codes| >= 2 && forall k :: 0 <= k < |codes| ==> codes[k] in db.equipment
    requires Complete(codes, CacheOf(db))
    ensures BruteForceResult(codes, db).Ok?
    ensures BruteForceResult(codes, db).value.time <= HeldKarpResult(codes, CacheOf(db)).time
  {
    var h := HeldKarpResult(codes, CacheOf(db));
    OptimalPathIsAnchoredPermutation(codes, CacheOf(db));
    HeldKarpResultReadsBestCell(codes, CacheOf(db));
    PermutationRearrangesCodes(codes, OptimalPath(codes, CacheOf(db)));
    var s := h.sequence;
    forall k | 0 <= k < |s| ensures s[k] in db.equipment {
      assert s[k] in multiset(codes);
    }
    DbPathCostIsPathCost(s, db);
    BruteForceIsOptimal(codes, db);
    BruteForceFailsIffNothingEvaluates(codes, db);
  }

  /** `Math.round` on the reals: the nearest integer, halves rounding up. */
  function Round(x: real): int
  {
    (x + 0.5).Floor
  }

  lemma FloorMonotone(x: real, y: real)
    requires x <= y
    ensures x.Floor <= y.Floor
  {
  }

  /** Dividing a positive time by a larger positive time gives a smaller positive ratio. */
  lemma RatioAntitone(o: real, u1: real, u2: real)
    requires 0.0 < o && 0.0 < u1 <= u2
    ensures 0.0 < o / u2 <= o / u1
  {
    var a, b := o / u2, o / u1;
    assert a * u2 == o && b * u1 == o;
    assert 0.0 < a;
    assert a * u1 <= a * u2 by {
      assert a * (u2 - u1) >= 0.0;
    }
  }

  /** The rounded percentage is never negative, and reaches 100 once the player matches the optimum. */
  lemma RoundedPercentageBounds(userTime: real, optimalTime: real)
    requires 0.0 < userTime && 0.0 < optimalTime
    ensures 0 <= Round((optimalTime / userTime) * 100.0 * 100.0)
    ensures userTime <= optimalTime ==> 10000 <= Round((optimalTime / userTime) * 100.0 * 100.0)
  {
    var x := (optimalTime / userTime) * 100.0 * 100.0 + 0.5;
    RatioAntitone(optimalTime, userTime, userTime);
    FloorMonotone(0.5, x);
    if userTime <= optimalTime {
      RatioAntitone(optimalTime, userTime, optimalTime);
      assert optimalTime / optimalTime == 1.0;
      FloorMonotone(10000.5, x);
    }
  }

  /** `calculateScore`: the optimal time as a percentage of the player's time, rounded to
      two decimals and capped at 100; 0 when either time is not positive. */
  function CalculateScore(userTime: real, optimalTime: real): (r: real)
    ensures userTime <= 0.0 || optimalTime <= 0.0 ==> r == 0.0
    ensures 0.0 <= r <= 100.0
    ensures 0.0 < userTime <= optimalTime ==> r == 100.0
  {
    if userTime <= 0.0 || optimalTime <= 0.0 then 0.0
    else
      RoundedPercentageBounds(userTime, optimalTime);
      var score := (optimalTime / userTime) * 100.0;
      var rounded := Round(score * 100.0) as real / 100.0;
      if rounded < 100.0 then rounded else 100.0
  }

  /** Below the cap, the score is the exact percentage rounded to two decimals: a whole
      number of hundredths, within half a hundredth of the exact value. */
  lemma ScoreIsRoundedPercentage(userTime: real, optimalTime: real)
    requires 0.0 < optimalTime <= userTime
    ensures var exact, r := (optimalTime / userTime) * 100.0, CalculateScore(userTime, optimalTime);
      && exact - 0.005 < r <= exact + 0.005
      && (r * 100.0).Floor as real == r * 100.0
  {
    var exact := (optimalTime / userTime) * 100.0;
    assert optimalTime / userTime <= 1.0;
    var k := Round(exact * 100.0);
    assert exact * 100.0 - 0.5 < k as real <= exact * 100.0 + 0.5;
    assert (k as real / 100.0) * 100.0 == k as real;
  }

  /** A longer player time never scores higher. */
  lemma ScoreNonIncreasing(u1: real, u2: real, optimalTime: real)
    requires 0.0 < u1 <= u2 && 0.0 < optimalTime
    ensures CalculateScore(u2, optimalTime) <= CalculateScore(u1, optimalTime)
  {
    RatioAntitone(optimalTime, u1, u2);
    var s1, s2 := (optimalTime / u1) * 100.0, (optimalTime / u2) * 100.0;
    FloorMonotone(s2 * 100.0 + 0.5, s1 * 100.0 + 0.5);
  }

  /** The example of the documentation: 85 minutes against an optimum of 65 scores 76.47. */
  lemma ScoreExample()
    ensures CalculateScore(85.0, 65.0) == 76.47
  {
    var score := (65.0 / 85.0) * 100.0;
    assert 7647.0 <= score * 100.0 + 0.5 < 7648.0;
    assert Round(score * 100.0) == 7647;
  }

  datatype Rank = S | A | B | C | D

  /** `getRank`: the band of the score. */
  function GetRank(scorePercent: real): (r: Rank)
    ensures r == S <==> scorePercent >= 100.0
    ensures r == A <==> 95.0 <= scorePercent < 100.0
    ensures r == B <==> 85.0 <= scorePercent < 95.0
    ensures r == C <==> 75.0 <= scorePercent < 85.0
    ensures r == D <==> scorePercent < 75.0
  {
    if scorePercent >= 100.0 then S
    else if scorePercent >= 95.0 then A
    else if scorePercent >= 85.0 then B
    else if scorePercent >= 75.0 then C
    else D
  }

  /** S is the best rank, D the worst. */
  function RankLevel(r: Rank): nat
  {
    match r
    case S => 4
    case A => 3
    case B => 2
    case C => 1
    case D => 0
  }

  /** A higher score never earns a worse rank. */
  lemma RankMonotone(x: real, y: real)
    requires x <= y
    ensures RankLevel(GetRank(x)) <= RankLevel(GetRank(y))
  {
  }

  /** The examples of the documentation, and the scores on either side of each boundary. */
  lemma RankExamples()
    ensures GetRank(100.0) == S && GetRank(97.0) == A && GetRank(90.0) == B
    ensures GetRank(80.0) == C && GetRank(70.0) == D
    ensures GetRank(99.99) == A && GetRank(95.0) == A && GetRank(94.99) == B
    ensures GetRank(85.0) == B && GetRank(84.99) == C && GetRank(75.0) == C && GetRank(74.99) == D
  {
  }

  /** A player who matches or beats the optimum ranks S; a non-positive time ranks D. */
  lemma RankOfScore(userTime: real, optimalTime: real)
    ensures 0.0 < userTime <= optimalTime ==> GetRank(CalculateScore(userTime, optimalTime)) == S
    ensures userTime <= 0.0 || optimalTime <= 0.0 ==> GetRank(CalculateScore(userTime, optimalTime)) == D
  {
  }
}
