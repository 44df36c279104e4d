/** `optimalCache.ts`: one slot holding the last optimal sequence result, or nothing. */
module OptimalCache {
  import opened Common

  class OptimalCache {
    /** The module-level variable; `None` stands for `null`. */
    var slot: Option<OptimalSequenceResult>

    /** The slot starts empty. */
    constructor()
      ensures slot == None
    {
      slot := None;
    }

    /** `getCachedOptimal`: reads the slot and changes nothing. */
    method Get() returns (r: Option<OptimalSequenceResult>)
      ensures r == slot
    {
      return slot;
    }

    /** `setCachedOptimal`: replaces whatever the slot held. */
    method Set(result: OptimalSequenceResult)
      modifies this
      ensures slot == Some(result)
    {
      slot := Some(result);
    }

    /** `clearCachedOptimal`: empties the slot. */
    method Clear()
      modifies this
      ensures slot == None
    {
      slot := None;
    }
  }

  /** A fresh cache reads empty; after two writes it reads the second; after a clear it
      reads empty again. */
  method LastWriterWins(first: OptimalSequenceResult, second: OptimalSequenceResult)
    returns (initially: Option<OptimalSequenceResult>, afterSets: Option<OptimalSequenceResult>,
             afterClear: Option<OptimalSequenceResult>)
    ensures initially == None
    ensures afterSets == Some(second)
    ensures afterClear == None
  {
    var cache := new OptimalCache();
    initially := cache.Get();
    cache.Set(first);
    cache.Set(second);
    afterSets := cache.Get();
    cache.Clear();
    afterClear := cache.Get();
  }
}
