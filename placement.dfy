/** The placement list shared by the game store and the drag-and-drop hook: equipment cards
    with their slot positions, and the filter-then-renumber step both use to take a card out. */
module Placement {
  import opened Common

  /** A card of the equipment table. */
  datatype Equipment = Equipment(id: string, code: string, name: string, description: Option<string>)

  /** A card dropped into the sequence, with its slot number. */
  datatype PlacedEquipment = PlacedEquipment(equipment: Equipment, position: int)

  /** Each entry's position is its index. */
  predicate PositionsAreIndices(ps: seq<PlacedEquipment>)
  {
    forall i :: 0 <= i < |ps| ==> ps[i].position == i
  }

  /** No equipment id occurs twice. */
  predicate IdsUnique(ps: seq<PlacedEquipment>)
  {
    forall i, j :: 0 <= i < j < |ps| ==> ps[i].equipment.id != ps[j].equipment.id
  }

  /** `placed.some(pe => pe.equipment.id === id)`. */
  predicate IsPlaced(ps: seq<PlacedEquipment>, id: string)
  {
    exists i :: 0 <= i < |ps| && ps[i].equipment.id == id
  }

  /** The cards of the list, in order, without their positions. */
  function Equipments(ps: seq<PlacedEquipment>): (r: seq<Equipment>)
    ensures |r| == |ps|
  {
    seq(|ps|, i requires 0 <= i < |ps| => ps[i].equipment)
  }

  /** A card is in the list exactly when some entry carries it. */
  lemma EquipmentsMembers(ps: seq<PlacedEquipment>)
    ensures forall e :: e in Equipments(ps) <==> exists x :: x in ps && x.equipment == e
  {
    forall e ensures e in Equipments(ps) <==> exists x :: x in ps && x.equipment == e {
      if e in Equipments(ps) {
        var i :| 0 <= i < |ps| && Equipments(ps)[i] == e;
        assert ps[i] in ps;
      }
      if exists x :: x in ps && x.equipment == e {
        var x :| x in ps && x.equipment == e;
        var i :| 0 <= i < |ps| && ps[i] == x;
        assert Equipments(ps)[i] == e;
      }
    }
  }

  /** `filter(pe => pe.equipment.id !== id)`. */
  function Without(ps: seq<PlacedEquipment>, id: string): seq<PlacedEquipment>
  {
    if |ps| == 0 then []
    else (if ps[0].equipment.id == id then [] else [ps[0]]) + Without(ps[1..], id)
  }

  /** The entries that survive the filter are exactly those of another id. */
  lemma {:induction false} WithoutMembers(ps: seq<PlacedEquipment>, id: string)
    ensures forall x :: x in Without(ps, id) <==> x in ps && x.equipment.id != id
    decreases |ps|
  {
    if |ps| > 0 {
      WithoutMembers(ps[1..], id);
      assert ps == [ps[0]] + ps[1..];
    }
  }

  /** Filtering keeps the order: it distributes over concatenation. */
  lemma {:induction false} WithoutOfConcat(a: seq<PlacedEquipment>, b: seq<PlacedEquipment>, id: string)
    ensures Without(a + b, id) == Without(a, id) + Without(b, id)
    decreases |a|
  {
    if |a| > 0 {
      assert (a + b)[1..] == a[1..] + b;
      WithoutOfConcat(a[1..], b, id);
    } else {
      assert a + b == b;
    }
  }

  /** The filter shortens the list exactly when the id is present. */
  lemma {:induction false} WithoutShortensIffPlaced(ps: seq<PlacedEquipment>, id: string)
    ensures |Without(ps, id)| <= |ps|
    ensures IsPlaced(ps, id) <==> |Without(ps, id)| < |ps|
    decreases |ps|
  {
    if |ps| > 0 {
      WithoutShortensIffPlaced(ps[1..], id);
      if IsPlaced(ps[1..], id) {
        var i :| 0 <= i < |ps[1..]| && ps[1..][i].equipment.id == id;
        assert ps[i + 1].equipment.id == id;
      }
      if IsPlaced(ps, id) && ps[0].equipment.id != id {
        var i :| 0 <= i < |ps| && ps[i].equipment.id == id;
        assert ps[1..][i - 1].equipment.id == id;
      }
    }
  }

  /** Filtering a list without the id changes nothing. */
  lemma {:induction false} WithoutAbsent(ps: seq<PlacedEquipment>, id: string)
    requires !IsPlaced(ps, id)
    ensures Without(ps, id) == ps
    decreases |ps|
  {
    if |ps| > 0 {
      assert ps[0].equipment.id != id;
      assert !IsPlaced(ps[1..], id);
      WithoutAbsent(ps[1..], id);
      assert ps == [ps[0]] + ps[1..];
    }
  }

  /** Filtering keeps ids unique. */
  lemma {:induction false} WithoutKeepsIdsUnique(ps: seq<PlacedEquipment>, id: string)
    requires IdsUnique(ps)
    ensures IdsUnique(Without(ps, id))
    decreases |ps|
  {
    if |ps| > 0 {
      var tail := ps[1..];
      assert IdsUnique(tail) by {
        forall i, j | 0 <= i < j < |tail| ensures tail[i].equipment.id != tail[j].equipment.id {
          assert tail[i] == ps[i + 1] && tail[j] == ps[j + 1];
        }
      }
      WithoutKeepsIdsUnique(tail, id);
      WithoutMembers(tail, id);
      var w := Without(tail, id);
      if ps[0].equipment.id != id {
        var r := [ps[0]] + w;
        forall i, j | 0 <= i < j < |r| ensures r[i].equipment.id != r[j].equipment.id {
          if i == 0 {
            assert r[j] == w[j - 1] && r[j] in tail;
            var k :| 0 <= k < |tail| && tail[k] == r[j];
            assert ps[k + 1] == r[j];
          } else {
            assert r[i] == w[i - 1] && r[j] == w[j - 1];
          }
        }
      } else {
        assert Without(ps, id) == w;
      }
    }
  }

  /** `map((pe, index) => ({ ...pe, position: index }))`: the same cards in the same order,
      numbered from zero. */
  function Renumbered(ps: seq<PlacedEquipment>): (r: seq<PlacedEquipment>)
    ensures |r| == |ps|
    ensures PositionsAreIndices(r)
    ensures Equipments(r) == Equipments(ps)
  {
    seq(|ps|, i requires 0 <= i < |ps| => ps[i].(position := i))
  }

  /** Only positions depend on numbering: ids are as unique as before. */
  lemma RenumberedKeepsIdsUnique(ps: seq<PlacedEquipment>)
    requires IdsUnique(ps)
    ensures IdsUnique(Renumbered(ps))
  {
    var r := Renumbered(ps);
    forall i, j | 0 <= i < j < |r| ensures r[i].equipment.id != r[j].equipment.id {
      assert r[i].equipment == Equipments(r)[i] == Equipments(ps)[i] == ps[i].equipment;
      assert r[j].equipment == Equipments(r)[j] == Equipments(ps)[j] == ps[j].equipment;
    }
  }

  /** Taking the cards with `id` out and renumbering the rest: the new list has no card with
      that id, holds every other card, and numbers its entries by index, whether or not the
      id was present. */
  function RemoveAndRenumber(ps: seq<PlacedEquipment>, id: string): (r: seq<PlacedEquipment>)
    ensures PositionsAreIndices(r)
    ensures !IsPlaced(r, id)
    ensures forall e :: e in Equipments(r) <==> e in Equipments(ps) && e.id != id
    ensures IsPlaced(ps, id) <==> |r| < |ps|
  {
    var w := Without(ps, id);
    WithoutMembers(ps, id);
    WithoutShortensIffPlaced(ps, id);
    var r := Renumbered(w);
    EquipmentsMembers(ps);
    EquipmentsMembers(w);
    assert forall i :: 0 <= i < |r| ==> r[i].equipment == Equipments(w)[i] == w[i].equipment;
    r
  }

  /** Removal keeps the surviving cards in their original order. */
  lemma RemoveAndRenumberKeepsOrder(a: seq<PlacedEquipment>, b: seq<PlacedEquipment>, id: string)
    ensures Equipments(RemoveAndRenumber(a + b, id))
      == Equipments(RemoveAndRenumber(a, id)) + Equipments(RemoveAndRenumber(b, id))
  {
    WithoutOfConcat(a, b, id);
    var wa, wb := Without(a, id), Without(b, id);
    assert Equipments(wa + wb) == Equipments(wa) + Equipments(wb);
  }

  /** On a well-numbered list, removing an absent id changes nothing. */
  lemma RemoveAbsentIsIdentity(ps: seq<PlacedEquipment>, id: string)
    requires PositionsAreIndices(ps) && !IsPlaced(ps, id)
    ensures RemoveAndRenumber(ps, id) == ps
  {
    WithoutAbsent(ps, id);
    var r := RemoveAndRenumber(ps, id);
    assert |r| == |ps|;
    forall i | 0 <= i < |r| ensures r[i] == ps[i] {
      assert r[i].equipment == Equipments(r)[i] == Equipments(ps)[i] == ps[i].equipment;
    }
  }

  /** Removal keeps ids unique. */
  lemma RemoveKeepsIdsUnique(ps: seq<PlacedEquipment>, id: string)
    requires IdsUnique(ps)
    ensures IdsUnique(RemoveAndRenumber(ps, id))
  {
    WithoutKeepsIdsUnique(ps, id);
    RenumberedKeepsIdsUnique(Without(ps, id));
  }

  /** Appending a card that is not yet placed, at the next position, keeps both the numbering
      and the uniqueness of ids. */
  lemma AppendFreshKeepsShape(ps: seq<PlacedEquipment>, e: Equipment)
    requires PositionsAreIndices(ps) && IdsUnique(ps) && !IsPlaced(ps, e.id)
    ensures var r := ps + [PlacedEquipment(e, |ps|)];
      PositionsAreIndices(r) && IdsUnique(r) && IsPlaced(r, e.id)
  {
    var r := ps + [PlacedEquipment(e, |ps|)];
    assert r[|ps|].equipment.id == e.id;
    forall i, j | 0 <= i < j < |r| ensures r[i].equipment.id != r[j].equipment.id {
      assert r[i] == ps[i];
    }
  }
}
