/** The database as the services see it: rooms and reservations keyed by
    their generated ids, and the two JPQL queries of `ReservationRepository`
    as predicates over the stored reservations. */
module Repository {
  import opened Base
  import opened Entities

  /** Rooms and reservations by id, and the next id each identity column
      hands out. Reservations are kept in their domain form, with the link
      to their room as the room's id (the foreign key). */
  datatype Store = Store(
    rooms: map<int, RoomEntity>,
    reservations: map<int, Reservation>,
    nextRoomId: int,
    nextReservationId: int)

  /** What the schema guarantees: every row carries its own key, keys come
      from the identity counters, and every reservation links an existing
      room (the foreign key, kept by the cascade on room deletion). */
  predicate Valid(s: Store) {
    && (forall k :: k in s.rooms ==> s.rooms[k].id == Some(k) && k < s.nextRoomId)
    && (forall k :: k in s.reservations ==>
          && s.reservations[k].id == Some(k)
          && k < s.nextReservationId
          && s.reservations[k].roomId.Some?
          && s.reservations[k].roomId.value in s.rooms)
  }

  /** The `findConflictingReservations` condition: same room, and the stored
      interval starts before the requested end and ends after the requested
      start. */
  predicate Conflicts(x: Reservation, roomId: int, startTime: int, endTime: int) {
    x.roomId == Some(roomId) && x.startTime < endTime && x.endTime > startTime
  }

  /** Two reservations overlap when they are in the same room and each
      starts before the other ends. */
  predicate Overlap(x: Reservation, y: Reservation) {
    x.roomId.Some? && x.roomId == y.roomId && x.startTime < y.endTime && y.startTime < x.endTime
  }

  /** No two stored reservations of one room overlap. */
  predicate NoOverlap(s: Store) {
    forall a, b :: a in s.reservations && b in s.reservations && a != b ==>
      !Overlap(s.reservations[a], s.reservations[b])
  }

  /** The conflict test is the overlap relation against the requested
      interval, and it is symmetric in the two intervals. */
  lemma ConflictIsOverlap(x: Reservation, y: Reservation)
    requires y.roomId.Some?
    ensures Conflicts(x, y.roomId.value, y.startTime, y.endTime) <==> Overlap(x, y)
    ensures Overlap(x, y) <==> Overlap(y, x)
  {
  }

  /** Intervals that only touch do not conflict: a stored reservation ending
      exactly when the requested one starts, or starting exactly when it
      ends, is free to coexist. */
  lemma TouchingNeverConflicts(x: Reservation, roomId: int, startTime: int, endTime: int)
    requires x.endTime == startTime || x.startTime == endTime
    requires x.startTime <= x.endTime && startTime <= endTime
    ensures !Conflicts(x, roomId, startTime, endTime)
  {
  }

  /** `findConflictingReservations`: the ids of the stored reservations
      that conflict with the requested interval in that room. */
  function FindConflicting(s: Store, roomId: int, startTime: int, endTime: int): (r: set<int>)
    ensures forall k :: k in r <==> k in s.reservations && Conflicts(s.reservations[k], roomId, startTime, endTime)
    ensures forall k :: k in r ==> s.reservations[k].roomId == Some(roomId)
  {
    set k | k in s.reservations && Conflicts(s.reservations[k], roomId, startTime, endTime)
  }

  /** `findReservationsByRoomAndDateRange`: the room's reservations whose
      start lies between the two instants, both included. */
  function FindByRoomAndDateRange(s: Store, roomId: int, start: int, end: int): (r: set<Reservation>)
    ensures forall x :: x in r ==> x in s.reservations.Values && x.roomId == Some(roomId)
    ensures forall x :: x in r ==> start <= x.startTime <= end
    ensures forall k :: (k in s.reservations && s.reservations[k].roomId == Some(roomId)
                         && start <= s.reservations[k].startTime <= end) ==> s.reservations[k] in r
  {
    set x | x in s.reservations.Values && x.roomId == Some(roomId) && start <= x.startTime <= end
  }

  /** Both ends of the date range are included. */
  lemma DateRangeInclusive(s: Store, roomId: int, start: int, end: int, k: int)
    requires k in s.reservations && s.reservations[k].roomId == Some(roomId)
    requires s.reservations[k].startTime == start || s.reservations[k].startTime == end
    requires start <= end
    ensures s.reservations[k] in FindByRoomAndDateRange(s, roomId, start, end)
  {
  }

  /** Deleting reservations keeps the schema guarantees and keeps rooms free
      of overlaps. */
  lemma RemovalKeepsInvariants(s: Store, keep: map<int, Reservation>)
    requires Valid(s) && NoOverlap(s)
    requires keep.Keys <= s.reservations.Keys
    requires forall k :: k in keep ==> keep[k] == s.reservations[k]
    ensures Valid(s.(reservations := keep)) && NoOverlap(s.(reservations := keep))
  {
  }
}
