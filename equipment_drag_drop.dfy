/** `useEquipmentDragDrop.ts`: the placement list and the card being dragged. The drag event
    is reduced to whether it ended over a drop target and the card it carries, if any. */
module EquipmentDragDrop {
  import opened Common
  import opened Placement

  class EquipmentDragDrop {
    var placedEquipment: seq<PlacedEquipment>
    var activeEquipment: Option<Equipment>

    /** What every handler keeps: positions are indices and no card is placed twice. */
    predicate Valid()
      reads this
    {
      PositionsAreIndices(placedEquipment) && IdsUnique(placedEquipment)
    }

    /** The hook starts with nothing placed and nothing dragged. */
    constructor()
      ensures placedEquipment == [] && activeEquipment == None
      ensures Valid()
    {
      placedEquipment, activeEquipment := [], None;
    }

    /** `handleDragStart`: a drag that carries a card makes it the active one. */
    method HandleDragStart(payload: Option<Equipment>)
      modifies this
      ensures activeEquipment == if payload.Some? then payload else old(activeEquipment)
      ensures placedEquipment == old(placedEquipment)
    {
      if payload.Some? {
        activeEquipment := payload;
      }
    }

    /** `handleDragEnd`: the active card is always cleared; a card dropped over a target that
        is not yet placed is appended at the next position, and nothing else changes the list. */
    method HandleDragEnd(overTarget: bool, payload: Option<Equipment>)
      requires Valid()
      modifies this
      ensures Valid()
      ensures activeEquipment == None
      ensures !overTarget || payload.None? ==> placedEquipment == old(placedEquipment)
      ensures overTarget && payload.Some? && IsPlaced(old(placedEquipment), payload.value.id) ==>
        placedEquipment == old(placedEquipment)
      ensures overTarget && payload.Some? && !IsPlaced(old(placedEquipment), payload.value.id) ==>
        placedEquipment == old(placedEquipment) + [PlacedEquipment(payload.value, |old(placedEquipment)|)]
      ensures overTarget && payload.Some? ==> IsPlaced(placedEquipment, payload.value.id)
    {
      activeEquipment := None;
      if !overTarget {
        return;
      }
      if payload.None? {
        return;
      }
      var equipment := payload.value;
      var isAlreadyPlaced := IsEquipmentPlaced(equipment.id);
      if isAlreadyPlaced {
        return;
      }
      var nextPosition := |placedEquipment|;
      AppendFreshKeepsShape(placedEquipment, equipment);
      placedEquipment := placedEquipment + [PlacedEquipment(equipment, nextPosition)];
    }

    /** `handleDragCancel`: only the active card is cleared. */
    method HandleDragCancel()
      modifies this
      ensures activeEquipment == None
      ensures placedEquipment == old(placedEquipment)
    {
      activeEquipment := None;
    }

    /** `isEquipmentPlaced`: whether some entry carries the id, which is exactly when removing
        the id would shorten the list. */
    method IsEquipmentPlaced(equipmentId: string) returns (b: bool)
      ensures b <==> exists i :: 0 <= i < |placedEquipment| && placedEquipment[i].equipment.id == equipmentId
      ensures b <==> |RemoveAndRenumber(placedEquipment, equipmentId)| < |placedEquipment|
    {
      b := IsPlaced(placedEquipment, equipmentId);
    }

    /** `removeEquipment`: the card leaves the list, the others keep their order and are
        renumbered by index. */
    method RemoveEquipment(equipmentId: string)
      requires Valid()
      modifies this
      ensures Valid()
      ensures placedEquipment == RemoveAndRenumber(old(placedEquipment), equipmentId)
      ensures activeEquipment == old(activeEquipment)
    {
      RemoveKeepsIdsUnique(placedEquipment, equipmentId);
      placedEquipment := RemoveAndRenumber(placedEquipment, equipmentId);
    }

    /** `resetPlacement`: nothing placed and nothing dragged. */
    method ResetPlacement()
      modifies this
      ensures placedEquipment == [] && activeEquipment == None
      ensures Valid()
    {
      placedEquipment := [];
      activeEquipment := None;
    }

    /** `getNextPosition`: the length of the list, a position no entry holds yet. */
    method GetNextPosition() returns (n: int)
      requires Valid()
      ensures n == |placedEquipment|
      ensures forall i :: 0 <= i < |placedEquipment| ==> placedEquipment[i].position < n
    {
      return |placedEquipment|;
    }
  }
}
