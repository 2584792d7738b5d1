/**
 * The I/O pin table of an FPGA fabric: an id-indexed store of pins, each with
 * its internal port (on the fabric), its external port (on the packaged chip),
 * the perimeter side it sits on and its direction, kept in index-aligned
 * sequences.
 */
module IoPins {

  /** A pin identity: dense and assigned in creation order, or the invalid marker. */
  datatype IoPinTableId = InvalidPinId | PinId(index: nat)

  /** Direction of an internal pin; NumIoDirections is the enumeration's own "no direction" value. */
  datatype IoDirection = Input | Output | NumIoDirections

  /** A value that may not have been given yet. */
  datatype Option<T> = None | Some(value: T)

  /** Port is the port descriptor (name and bit range) and Side the perimeter side; both are opaque here. */
  class IoPinTable<Port, Side> {
    /** pinIds[i] is PinId(i); the other sequences are index-aligned with it. */
    var pinIds: seq<IoPinTableId>
    var internalPins: seq<Port>
    var externalPins: seq<Option<Port>>
    var pinSides: seq<Option<Side>>
    var pinDirections: seq<IoDirection>

    ghost predicate Valid()
      reads this
    {
      && |internalPins| == |pinIds| && |externalPins| == |pinIds|
      && |pinSides| == |pinIds| && |pinDirections| == |pinIds|
      && forall i :: 0 <= i < |pinIds| ==> pinIds[i] == PinId(i)
    }

    constructor ()
      ensures Valid() && Empty()
      ensures pinIds == [] && internalPins == [] && externalPins == [] && pinSides == [] && pinDirections == []
    {
      pinIds, internalPins, externalPins, pinSides, pinDirections := [], [], [], [], [];
    }

    /** The id names a pin of this table. */
    predicate ValidPinId(id: IoPinTableId)
      reads this
      ensures ValidPinId(id) ==> id in pinIds
      ensures Valid() ==> (ValidPinId(id) <==> id in pinIds)
    {
      id.PinId? && id.index < |pinIds| && pinIds[id.index] == id
    }

    /** The ids of all pins, in creation order; exactly the valid ids. */
    function InternalPins(): (r: seq<IoPinTableId>)
      reads this
      requires Valid()
      ensures |r| == |internalPins|
      ensures forall k :: 0 <= k < |r| ==> r[k] == PinId(k)
      ensures forall id :: id in r <==> ValidPinId(id)
    {
      pinIds
    }

    /** The internal port stored for the pin; CreatePin states which port that is. */
    function InternalPin(id: IoPinTableId): (p: Port)
      reads this
      requires Valid() && ValidPinId(id)
      ensures p == internalPins[id.index]
    {
      internalPins[id.index]
    }

    /** No pin has been created. */
    predicate Empty()
      reads this
      requires Valid()
      ensures Empty() <==> forall id :: !ValidPinId(id)
    {
      assert |pinIds| > 0 ==> ValidPinId(PinId(0));
      |pinIds| == 0
    }

    /** Add a pin with the given internal port; its external port and side are not yet given and its
        direction is NumIoDirections. */
    method CreatePin(pin: Port) returns (id: IoPinTableId)
      requires Valid()
      modifies this
      ensures Valid()
      ensures id == PinId(old(|pinIds|)) && ValidPinId(id) && InternalPin(id) == pin && !Empty()
      ensures InternalPins() == old(InternalPins()) + [id]
      ensures forall old_id :: old(ValidPinId(old_id)) ==> ValidPinId(old_id) && InternalPin(old_id) == old(InternalPin(old_id))
      ensures pinIds == old(pinIds) + [id] && internalPins == old(internalPins) + [pin]
      ensures externalPins == old(externalPins) + [None] && pinSides == old(pinSides) + [None]
      ensures pinDirections == old(pinDirections) + [NumIoDirections]
    {
      id := PinId(|pinIds|);
      pinIds := pinIds + [id];
      internalPins := internalPins + [pin];
      externalPins := externalPins + [None];
      pinSides := pinSides + [None];
      pinDirections := pinDirections + [NumIoDirections];
      assert ValidPinId(id);
    }

    /** Reserve room for numPins pins. Capacity is not part of the model: nothing observable changes. */
    method ReservePins(numPins: nat)
      requires Valid()
      ensures Valid() && InternalPins() == old(InternalPins()) && Empty() == old(Empty())
      ensures forall id :: ValidPinId(id) == old(ValidPinId(id))
      ensures forall id :: ValidPinId(id) ==> InternalPin(id) == old(InternalPin(id))
    {
    }
  }

  /** Pins created one after another get consecutive ids, and each keeps its own internal port. */
  method CreateTwoPins<Port, Side>(table: IoPinTable<Port, Side>, p: Port, q: Port)
    returns (a: IoPinTableId, b: IoPinTableId)
    requires table.Valid()
    modifies table
    ensures table.Valid() && table.ValidPinId(a) && table.ValidPinId(b) && a.index + 1 == b.index
    ensures table.InternalPin(a) == p && table.InternalPin(b) == q
    ensures table.InternalPins() == old(table.InternalPins()) + [a, b]
  {
    a := table.CreatePin(p);
    b := table.CreatePin(q);
  }

  /** Filling a new table with the given ports: the valid ids are exactly the ids create_pin returned,
      and each names the port it was created with. */
  method CreatePins<Port, Side>(ports: seq<Port>) returns (table: IoPinTable<Port, Side>, ids: seq<IoPinTableId>)
    ensures table.Valid() && |ids| == |ports| && table.InternalPins() == ids
    ensures forall id :: table.ValidPinId(id) <==> id in ids
    ensures forall k :: 0 <= k < |ids| ==> table.ValidPinId(ids[k]) && table.InternalPin(ids[k]) == ports[k]
    ensures table.Empty() <==> ports == []
  {
    table := new IoPinTable();
    ids := [];
    var k := 0;
    while k < |ports|
      invariant k <= |ports| && table.Valid() && |ids| == k && table.InternalPins() == ids
      invariant forall i :: 0 <= i < k ==> table.ValidPinId(ids[i]) && table.InternalPin(ids[i]) == ports[i]
    {
      var id := table.CreatePin(ports[k]);
      ids := ids + [id];
      k := k + 1;
    }
  }
}
