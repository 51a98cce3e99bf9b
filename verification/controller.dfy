/** `RoomController.getRooms`: the public room list shows only the rooms
    that are open for booking. */
module RoomController {
  import opened Base
  import opened Seqs
  import opened Entities

  /** `RoomResponseDTO`: a room without its availability flag and
      timestamps. */
  datatype RoomResponse = RoomResponse(
    id: Option<int>,
    name: string,
    location: string,
    capacity: int,
    equipment: Option<string>,
    description: Option<string>,
    images: Option<seq<string>>)

  function ResponseOf(r: Room): RoomResponse {
    RoomResponse(r.id, r.name, r.location, r.capacity, r.equipment, r.description, r.images)
  }

  predicate Listed(r: Room) {
    r.available
  }

  /** The loop of `getRooms`: the available rooms, in the order the service
      returned them, each copied into a response. */
  method GetRooms(rooms: seq<Room>) returns (out: seq<RoomResponse>)
    ensures |out| == |Filter(rooms, Listed)|
    ensures forall i :: 0 <= i < |out| ==> out[i] == ResponseOf(Filter(rooms, Listed)[i])
  {
    out := [];
    var i := 0;
    while i < |rooms|
      invariant 0 <= i <= |rooms|
      invariant |out| == |Filter(rooms[..i], Listed)|
      invariant forall j :: 0 <= j < |out| ==> out[j] == ResponseOf(Filter(rooms[..i], Listed)[j])
    {
      FilterAppend(rooms[..i], [rooms[i]], Listed);
      assert rooms[..i + 1] == rooms[..i] + [rooms[i]];
      if rooms[i].available {
        out := out + [ResponseOf(rooms[i])];
      }
      i := i + 1;
    }
    assert rooms[..i] == rooms;
  }

  /** A room is listed exactly when it is available, and the list keeps the
      input order: the rooms of a concatenation are those of each part, one
      after the other. */
  lemma ListedIffAvailable(rooms: seq<Room>, more: seq<Room>, r: Room)
    ensures r in Filter(rooms, Listed) <==> r in rooms && r.available
    ensures Filter(rooms + more, Listed) == Filter(rooms, Listed) + Filter(more, Listed)
    ensures rooms == [] ==> Filter(rooms, Listed) == []
  {
    FilterMembers(rooms, Listed);
    FilterAppend(rooms, more, Listed);
  }
}
