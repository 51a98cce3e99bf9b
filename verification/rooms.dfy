/** `RoomService`: creating, updating, deleting and listing rooms as
    transitions of the store. Image upload goes through `Uploads`; deleting
    the uploaded images is commented out in the service and is not
    modelled. */
module Rooms {
  import opened Base
  import opened Text
  import opened Entities
  import opened Repository
  import opened Uploads
  import opened Reservations

  /** The storage folder of a room's images, `"room/" + id + "/"`. */
  function RoomPath(id: int): string {
    "room/" + IntToString(id) + "/"
  }

  /** The store stands for the database: an image list is a set of rows of
      the `room_image` table, so a room whose list was never set is read
      back with an empty list and never with none. */
  predicate ImagesLoaded(s: Store) {
    forall k :: k in s.rooms ==> s.rooms[k].images.Some?
  }

  /** `createRoom`: the room's details are saved under the next generated
      id, stamped by Spring's auditing with the creation time `now`, then
      its files are uploaded into the room's folder and the resulting URL
      list becomes its images; no files gives an empty image table.
      Nothing else changes. */
  method CreateRoom(s: Store, room: Room, files: Option<seq<Option<Upload>>>, urlOf: string -> string, now: int)
    returns (t: Store)
    requires Valid(s)
    ensures Valid(t)
    ensures NoOverlap(s) ==> NoOverlap(t)
    ensures ImagesLoaded(s) ==> ImagesLoaded(t)
    ensures t.reservations == s.reservations
    ensures s.nextRoomId !in s.rooms
    ensures t.rooms.Keys == s.rooms.Keys + {s.nextRoomId}
    ensures forall k :: k in s.rooms ==> t.rooms[k] == s.rooms[k]
    ensures var e := t.rooms[s.nextRoomId];
            && e.id == Some(s.nextRoomId)
            && e.name == room.name && e.location == room.location && e.capacity == room.capacity
            && e.equipment == room.equipment && e.description == room.description
            && e.available == room.available
            && e.createdAt == Some(now) && e.updatedAt == Some(now)
            && e.images.Some?
            && (files.None? ==> e.images.value == [])
            && (files.Some? ==>
                  var positions := UploadedPositions(files.value);
                  && |e.images.value| == |positions|
                  && forall j :: 0 <= j < |positions| ==>
                       e.images.value[j] == urlOf(ObjectKey(RoomPath(s.nextRoomId), positions[j], files.value[positions[j]].value)))
  {
    var id := s.nextRoomId;
    var entity := RoomEntity(Some(id), room.name, room.location, room.capacity, room.equipment,
                             room.description, room.available, None, Some(now), Some(now));
    var urls := UploadFiles(files, RoomPath(id), urlOf);
    entity := UpdateImages(entity, Some(urls.GetOr([])));
    t := s.(rooms := s.rooms[id := entity], nextRoomId := id + 1);
  }

  /** The six details `updateDetails` sets already hold what `room` gives. */
  predicate SameDetails(e: RoomEntity, room: Room) {
    && e.name == room.name && e.location == room.location && e.capacity == room.capacity
    && e.equipment == room.equipment && e.description == room.description
    && e.available == room.available
  }

  /** `updateRoom`: a null id or an unknown room is refused; otherwise the
      room's six details are replaced and its images are kept. Hibernate
      writes the row only when a detail actually changed, and only then does
      the `@LastModifiedDate` listener stamp it with the time `now`. */
  function UpdateRoom(s: Store, room: Room, now: int): (out: Result<Store, ServiceError>)
    ensures out == Err(NullId) <==> room.id.None?
    ensures out == Err(RoomNotFound) <==> room.id.Some? && room.id.value !in s.rooms
    ensures out.Ok? ==>
              var id := room.id.value;
              && id in s.rooms
              && out.value.reservations == s.reservations
              && out.value.rooms.Keys == s.rooms.Keys
              && (forall k :: k in s.rooms && k != id ==> out.value.rooms[k] == s.rooms[k])
              && out.value.rooms[id].name == room.name
              && out.value.rooms[id].location == room.location
              && out.value.rooms[id].capacity == room.capacity
              && out.value.rooms[id].equipment == room.equipment
              && out.value.rooms[id].description == room.description
              && out.value.rooms[id].available == room.available
              && out.value.rooms[id].images == s.rooms[id].images
              && out.value.rooms[id].id == s.rooms[id].id
              && out.value.rooms[id].createdAt == s.rooms[id].createdAt
              && (SameDetails(s.rooms[id], room) ==> out.value == s)
              && (!SameDetails(s.rooms[id], room) ==> out.value.rooms[id].updatedAt == Some(now))
    ensures out.Ok? && ImagesLoaded(s) ==> ImagesLoaded(out.value)
  {
    if room.id.None? then Err(NullId)
    else if room.id.value !in s.rooms then Err(RoomNotFound)
    else
      var id := room.id.value;
      if SameDetails(s.rooms[id], room) then
        assert s.rooms[id := s.rooms[id]] == s.rooms;
        Ok(s)
      else
        var e := UpdateDetails(s.rooms[id], room.name, room.location, room.capacity,
                               room.equipment, room.description, room.available);
        Ok(s.(rooms := s.rooms[id := e.(updatedAt := Some(now))]))
  }

  /** Repeating an update changes nothing, whenever it is repeated: the
      second call finds the details already set and writes nothing, so the
      first call's modification time stays. */
  lemma UpdateRoomIdempotent(s: Store, room: Room, now: int, later: int)
    requires UpdateRoom(s, room, now).Ok?
    ensures UpdateRoom(UpdateRoom(s, room, now).value, room, later) == UpdateRoom(s, room, now)
  {
    var t := UpdateRoom(s, room, now).value;
    assert SameDetails(t.rooms[room.id.value], room);
  }

  /** An update keeps the store's invariants. */
  lemma UpdateKeepsInvariants(s: Store, room: Room, now: int)
    requires Valid(s) && NoOverlap(s)
    requires UpdateRoom(s, room, now).Ok?
    ensures Valid(UpdateRoom(s, room, now).value) && NoOverlap(UpdateRoom(s, room, now).value)
  {
  }

  /** `deleteRoom`: an unknown room is refused; otherwise the room goes,
      and the database's cascade removes its reservations with it. */
  function DeleteRoom(s: Store, roomId: int): (out: Result<Store, ServiceError>)
    ensures out.Err? <==> roomId !in s.rooms
    ensures out.Err? ==> out.error == RoomNotFound
    ensures out.Ok? ==>
              && out.value.rooms.Keys == s.rooms.Keys - {roomId}
              && (forall k :: k in out.value.rooms ==> out.value.rooms[k] == s.rooms[k])
              && (forall k :: k in out.value.reservations <==>
                    k in s.reservations && s.reservations[k].roomId != Some(roomId))
              && (forall k :: k in out.value.reservations ==> out.value.reservations[k] == s.reservations[k])
    ensures out.Ok? && ImagesLoaded(s) ==> ImagesLoaded(out.value)
  {
    if roomId !in s.rooms then Err(RoomNotFound)
    else
      var kept := map k | k in s.reservations && s.reservations[k].roomId != Some(roomId) :: s.reservations[k];
      Ok(s.(rooms := s.rooms - {roomId}, reservations := kept))
  }

  /** Thanks to the cascade no reservation is left pointing at a deleted
      room: a deletion keeps the store's invariants. */
  lemma DeleteRoomKeepsInvariants(s: Store, roomId: int)
    requires Valid(s) && NoOverlap(s)
    requires DeleteRoom(s, roomId).Ok?
    ensures Valid(DeleteRoom(s, roomId).value) && NoOverlap(DeleteRoom(s, roomId).value)
  {
    var t := DeleteRoom(s, roomId).value;
    RemovalKeepsInvariants(s, t.reservations);
    forall k | k in t.reservations
      ensures t.reservations[k].roomId.value in t.rooms
    {
      assert t.reservations[k].roomId.value != roomId;
    }
  }

  /** `getAllRooms`: every stored room, mapped to its domain form; the
      fetch join loads each image list, empty when the room has none. */
  function GetAllRooms(s: Store): (r: set<Room>)
    ensures forall k :: k in s.rooms ==> ToRoom(s.rooms[k]) in r
    ensures forall x :: x in r ==> FromRoom(x) in s.rooms.Values
    ensures ImagesLoaded(s) ==> forall x :: x in r ==> x.images.Some?
  {
    set k | k in s.rooms :: ToRoom(s.rooms[k])
  }
}
