/** Values shared by the setup-time utilities: results with the errors they throw,
    the optimal-sequence record, and the running minimum that starts at `Infinity`. */
module Common {

  datatype Option<+T> = None | Some(value: T)

  /** The errors the utilities throw, one constructor per message. */
  datatype Error =
    | SetupTimeNotFound(from: string, to: string)   // "Setup time not found for transition: from -> to"
    | EquipmentNotFound(from: string, to: string)   // "Equipment not found: from or to"
    | NoEquipmentFound                              // "No equipment found in database"
    | FailedToFindOptimal                           // "Failed to find optimal sequence"

  /** A value, or the error the source would throw instead of returning. */
  datatype Result<+T> = Ok(value: T) | Err(error: Error)

  /** `OptimalSequenceResult`: a sequence of equipment codes and its total setup time in minutes. */
  datatype OptimalSequenceResult = OptimalSequenceResult(sequence: seq<string>, time: nat)

  /** A running minimum: `Infinity` before anything was seen, then a finite number of minutes. */
  datatype Bound = Infinity | Finite(n: nat)

  /** `t < minTime`, where `Infinity` is above every number. */
  predicate Below(t: nat, b: Bound) {
    b.Infinity? || t < b.n
  }

  /** The index chosen by a left-to-right scan that keeps a candidate only when it is
      strictly below the best so far: the first index holding a minimal value, or None
      when no entry holds a value. */
  function FirstMin(ts: seq<Option<nat>>): (r: Option<nat>)
    ensures r.Some? ==> r.value < |ts| && ts[r.value].Some?
  {
    if ts == [] then None
    else
      var prev := FirstMin(ts[..|ts| - 1]);
      var last := ts[|ts| - 1];
      if last.Some? && (prev.None? || last.value < ts[prev.value].value) then Some(|ts| - 1)
      else prev
  }

  /** What the scan finds: None exactly when nothing holds a value; otherwise a minimum
      that no entry beats and that every earlier entry strictly exceeds. */
  lemma {:induction false} FirstMinIsFirstMinimum(ts: seq<Option<nat>>)
    ensures FirstMin(ts).None? <==> forall k :: 0 <= k < |ts| ==> ts[k].None?
    ensures FirstMin(ts).Some? ==>
      var b := FirstMin(ts).value;
      && (forall k :: 0 <= k < |ts| && ts[k].Some? ==> ts[b].value <= ts[k].value)
      && (forall k :: 0 <= k < b && ts[k].Some? ==> ts[b].value < ts[k].value)
  {
    if ts != [] {
      var init := ts[..|ts| - 1];
      FirstMinIsFirstMinimum(init);
      assert forall k :: 0 <= k < |init| ==> init[k] == ts[k];
    }
  }
}
