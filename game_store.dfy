/** `gameStore.ts`: the client's game state, whose actions each replace some of its fields. */
module GameStore {
  import opened Common
  import opened Placement

  datatype GameState = Idle | Loading | Playing | Finished

  /** The fields of the store, read together. */
  datatype StoreState = StoreState(
    gameState: GameState,
    sessionId: Option<string>,
    equipments: seq<Equipment>,
    placedSequence: seq<PlacedEquipment>,
    totalTime: int,
    optimalTime: int,
    optimalSequence: seq<string>)

  /** `initialState`: idle, no session, nothing loaded or placed, zero times. */
  const InitialState := StoreState(Idle, None, [], [], 0, 0, [])

  class GameStore {
    var gameState: GameState
    var sessionId: Option<string>
    var equipments: seq<Equipment>
    var placedSequence: seq<PlacedEquipment>
    var totalTime: int
    var optimalTime: int
    var optimalSequence: seq<string>

    function Snapshot(): StoreState
      reads this
    {
      StoreState(gameState, sessionId, equipments, placedSequence, totalTime, optimalTime, optimalSequence)
    }

    /** The store is created in its initial state. */
    constructor()
      ensures Snapshot() == InitialState
    {
      gameState, sessionId, equipments, placedSequence := Idle, None, [], [];
      totalTime, optimalTime, optimalSequence := 0, 0, [];
    }

    /** `setGameState`: only the game state changes. */
    method SetGameState(state: GameState)
      modifies this
      ensures Snapshot() == old(Snapshot()).(gameState := state)
    {
      gameState := state;
    }

    /** `setSessionId`: only the session id changes. */
    method SetSessionId(id: string)
      modifies this
      ensures Snapshot() == old(Snapshot()).(sessionId := Some(id))
    {
      sessionId := Some(id);
    }

    /** `setEquipments`: only the equipment list changes. */
    method SetEquipments(es: seq<Equipment>)
      modifies this
      ensures Snapshot() == old(Snapshot()).(equipments := es)
    {
      equipments := es;
    }

    /** `setOptimalData`: the optimal time and sequence change together, nothing else. */
    method SetOptimalData(time: int, sequence: seq<string>)
      modifies this
      ensures Snapshot() == old(Snapshot()).(optimalTime := time, optimalSequence := sequence)
    {
      optimalTime, optimalSequence := time, sequence;
    }

    /** `addPlacedEquipment`: exactly one entry is appended, with no check for a duplicate id
        or for the position given. */
    method AddPlacedEquipment(e: Equipment, position: int)
      modifies this
      ensures Snapshot() == old(Snapshot()).(placedSequence := old(placedSequence) + [PlacedEquipment(e, position)])
      ensures |placedSequence| == |old(placedSequence)| + 1
      ensures placedSequence[..|old(placedSequence)|] == old(placedSequence)
    {
      placedSequence := placedSequence + [PlacedEquipment(e, position)];
    }

    /** `removePlacedEquipment`: every entry with the id goes, the others keep their order and
        are renumbered by index, even when the id was not there. */
    method RemovePlacedEquipment(equipmentId: string)
      modifies this
      ensures Snapshot() == old(Snapshot()).(placedSequence := RemoveAndRenumber(old(placedSequence), equipmentId))
      ensures PositionsAreIndices(placedSequence) && !IsPlaced(placedSequence, equipmentId)
    {
      placedSequence := RemoveAndRenumber(placedSequence, equipmentId);
    }

    /** `setTotalTime`: only the total time changes. */
    method SetTotalTime(time: int)
      modifies this
      ensures Snapshot() == old(Snapshot()).(totalTime := time)
    {
      totalTime := time;
    }

    /** `resetGame`: every field returns to the initial state. */
    method ResetGame()
      modifies this
      ensures Snapshot() == InitialState
    {
      gameState, sessionId, equipments, placedSequence := Idle, None, [], [];
      totalTime, optimalTime, optimalSequence := 0, 0, [];
    }
  }
}
