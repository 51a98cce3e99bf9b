/** The backend's records: the domain objects `Room` and `Reservation` the
    services pass around, and the persisted `RoomEntity` and
    `ReservationEntity` with their mappings. Ids, room links and timestamps
    are nullable in Java and are `Option`s here; instants are seconds
    (module Time). */
module Entities {
  import opened Base

  datatype Room = Room(
    id: Option<int>,
    name: string,
    location: string,
    capacity: int,
    equipment: Option<string>,
    description: Option<string>,
    available: bool,
    images: Option<seq<string>>,
    createdAt: Option<int>,
    updatedAt: Option<int>)

  datatype RoomEntity = RoomEntity(
    id: Option<int>,
    name: string,
    location: string,
    capacity: int,
    equipment: Option<string>,
    description: Option<string>,
    available: bool,
    images: Option<seq<string>>,
    createdAt: Option<int>,
    updatedAt: Option<int>)

  /** `RoomEntity.fromRoom`: every field copied. */
  function FromRoom(r: Room): (e: RoomEntity)
    ensures e.id == r.id && e.name == r.name && e.location == r.location && e.capacity == r.capacity
    ensures e.equipment == r.equipment && e.description == r.description && e.available == r.available
    ensures e.images == r.images && e.createdAt == r.createdAt && e.updatedAt == r.updatedAt
  {
    RoomEntity(r.id, r.name, r.location, r.capacity, r.equipment, r.description,
               r.available, r.images, r.createdAt, r.updatedAt)
  }

  /** `RoomEntity.toRoom`: every field copied. */
  function ToRoom(e: RoomEntity): (r: Room)
    ensures r.id == e.id && r.name == e.name && r.location == e.location && r.capacity == e.capacity
    ensures r.equipment == e.equipment && r.description == e.description && r.available == e.available
    ensures r.images == e.images && r.createdAt == e.createdAt && r.updatedAt == e.updatedAt
  {
    Room(e.id, e.name, e.location, e.capacity, e.equipment, e.description,
         e.available, e.images, e.createdAt, e.updatedAt)
  }

  /** The two room mappings are inverse to each other. */
  lemma RoomRoundTrip(r: Room, e: RoomEntity)
    ensures ToRoom(FromRoom(r)) == r
    ensures FromRoom(ToRoom(e)) == e
  {
  }

  /** `updateDetails`: the six editable fields take the given values and
      everything else is kept. */
  function UpdateDetails(e: RoomEntity, name: string, location: string, capacity: int,
                         equipment: Option<string>, description: Option<string>, available: bool): (r: RoomEntity)
    ensures r.name == name && r.location == location && r.capacity == capacity
    ensures r.equipment == equipment && r.description == description && r.available == available
    ensures r.(name := e.name, location := e.location, capacity := e.capacity,
               equipment := e.equipment, description := e.description, available := e.available) == e
  {
    RoomEntity(e.id, name, location, capacity, equipment, description, available,
               e.images, e.createdAt, e.updatedAt)
  }

  /** `updateImages`: only the image list changes. */
  function UpdateImages(e: RoomEntity, images: Option<seq<string>>): (r: RoomEntity)
    ensures r.images == images
    ensures r.(images := e.images) == e
  {
    RoomEntity(e.id, e.name, e.location, e.capacity, e.equipment, e.description,
               e.available, images, e.createdAt, e.updatedAt)
  }

  /** Updating the details twice keeps only the second update, and the
      images stay whatever `updateImages` last set. */
  lemma UpdatesCommute(e: RoomEntity, name: string, location: string, capacity: int,
                       equipment: Option<string>, description: Option<string>, available: bool,
                       images: Option<seq<string>>)
    ensures UpdateImages(UpdateDetails(e, name, location, capacity, equipment, description, available), images)
         == UpdateDetails(UpdateImages(e, images), name, location, capacity, equipment, description, available)
  {
  }

  datatype Reservation = Reservation(
    id: Option<int>,
    roomId: Option<int>,
    nickname: string,
    studentName: string,
    studentId: int,
    phoneNumber: string,
    purpose: string,
    startTime: int,
    endTime: int,
    createdAt: Option<int>)

  /** A persisted reservation holds its room rather than the room's id. */
  datatype ReservationEntity = ReservationEntity(
    id: Option<int>,
    room: RoomEntity,
    nickname: string,
    studentName: string,
    studentId: int,
    phoneNumber: string,
    purpose: string,
    startTime: int,
    endTime: int,
    createdAt: Option<int>)

  /** `ReservationEntity.from`: the reservation's own fields are copied and
      the given room is linked; the reservation's `roomId` is not consulted. */
  function From(r: Reservation, room: RoomEntity): (e: ReservationEntity)
    ensures e.id == r.id && e.room == room
    ensures e.nickname == r.nickname && e.studentName == r.studentName && e.studentId == r.studentId
    ensures e.phoneNumber == r.phoneNumber && e.purpose == r.purpose
    ensures e.startTime == r.startTime && e.endTime == r.endTime && e.createdAt == r.createdAt
  {
    ReservationEntity(r.id, room, r.nickname, r.studentName, r.studentId, r.phoneNumber,
                      r.purpose, r.startTime, r.endTime, r.createdAt)
  }

  /** `toReservation`: the room link becomes the linked room's id. */
  function ToReservation(e: ReservationEntity): (r: Reservation)
    ensures r.roomId == e.room.id
    ensures From(r, e.room) == e
  {
    Reservation(e.id, e.room.id, e.nickname, e.studentName, e.studentId, e.phoneNumber,
                e.purpose, e.startTime, e.endTime, e.createdAt)
  }

  /** Linking a reservation to the room it names and reading it back gives
      the reservation unchanged; linking another room changes its room id. */
  lemma ReservationRoundTrip(r: Reservation, room: RoomEntity)
    ensures ToReservation(From(r, room)) == r <==> room.id == r.roomId
  {
  }
}
