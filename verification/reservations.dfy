/** `ReservationService`: booking, cancelling, deleting and listing
    reservations as transitions of the store. `now` is a parameter; an
    exception is an `Err`, and since every operation runs in one
    transaction, a failed call leaves no trace in the store. */
module Reservations {
  import opened Base
  import opened Time
  import opened Entities
  import opened Repository

  /** The exceptions the service throws. `NullId` stands for Spring's
      refusal to look up a null id. */
  datatype ServiceError =
    | InvalidReservationTime
    | DuplicateReservation
    | RoomNotFound
    | InvalidReservationId
    | InvalidStudentInfo
    | NullId

  /** How far ahead a reservation may reach, and how far back it may start. */
  const BookingHorizon: int := 7 * SecondsPerDay
  const StartGrace: int := SecondsPerHour

  /** The time-window rejection of `reservation`: the end before the start,
      a start more than an hour ago, an end already past, or either end
      more than seven days ahead. */
  predicate BadTime(startTime: int, endTime: int, now: int) {
    || endTime < startTime
    || startTime < now - StartGrace
    || endTime < now
    || startTime > now + BookingHorizon
    || endTime > now + BookingHorizon
  }

  /** An interval the time check lets through lies within the booking
      window, and may be empty. */
  lemma TimeWindow(startTime: int, endTime: int, now: int)
    ensures !BadTime(startTime, endTime, now) <==>
              now - StartGrace <= startTime <= endTime <= now + BookingHorizon && now <= endTime
    ensures !BadTime(now, now, now)
  {
  }

  /** `isReservationTimeAvailable`: no stored reservation conflicts. */
  predicate Available(s: Store, roomId: int, startTime: int, endTime: int) {
    FindConflicting(s, roomId, startTime, endTime) == {}
  }

  /** What `reservation` stores on success: the request linked to its room
      (`ReservationEntity.from`) under the next generated id. */
  function Stored(r: Reservation, room: RoomEntity, id: int): (x: Reservation)
    requires room.id == r.roomId
    ensures x == r.(id := Some(id))
  {
    ReservationRoundTrip(r.(id := Some(id)), room);
    ToReservation(From(r, room).(id := Some(id)))
  }

  /** `reservation`: the time check, then the overlap check, then the room
      lookup, then one new row. The caller builds the reservation without
      an id, so saving it inserts a new row under a fresh key, which the
      store's own invariant guarantees. */
  function Reserve(s: Store, r: Reservation, now: int): (out: Result<Store, ServiceError>)
    requires Valid(s) && r.id.None?
    ensures out.Ok? <==>
              && !BadTime(r.startTime, r.endTime, now)
              && r.roomId.Some?
              && Available(s, r.roomId.value, r.startTime, r.endTime)
              && r.roomId.value in s.rooms
    ensures out == Err(InvalidReservationTime) <==> BadTime(r.startTime, r.endTime, now)
    ensures out == Err(DuplicateReservation) <==>
              !BadTime(r.startTime, r.endTime, now) && r.roomId.Some? && !Available(s, r.roomId.value, r.startTime, r.endTime)
    ensures out == Err(NullId) <==> !BadTime(r.startTime, r.endTime, now) && r.roomId.None?
    ensures out == Err(RoomNotFound) <==>
              && !BadTime(r.startTime, r.endTime, now)
              && r.roomId.Some?
              && Available(s, r.roomId.value, r.startTime, r.endTime)
              && r.roomId.value !in s.rooms
    ensures out.Ok? ==>
              && out.value.rooms == s.rooms
              && out.value.nextRoomId == s.nextRoomId
              && s.nextReservationId !in s.reservations
              && out.value.reservations.Keys == s.reservations.Keys + {s.nextReservationId}
              && out.value.reservations[s.nextReservationId] == r.(id := Some(s.nextReservationId))
              && (forall k :: k in s.reservations ==> out.value.reservations[k] == s.reservations[k])
              && out.value.nextReservationId > s.nextReservationId
  {
    if BadTime(r.startTime, r.endTime, now) then Err(InvalidReservationTime)
    else if r.roomId.Some? && !Available(s, r.roomId.value, r.startTime, r.endTime) then Err(DuplicateReservation)
    else if r.roomId.None? then Err(NullId)
    else if r.roomId.value !in s.rooms then Err(RoomNotFound)
    else
      var id := s.nextReservationId;
      Ok(s.(reservations := s.reservations[id := Stored(r, s.rooms[r.roomId.value], id)],
            nextReservationId := id + 1))
  }

  /** The key invariant: a successful booking keeps the store valid and
      never creates two overlapping reservations in one room. */
  lemma ReserveKeepsNoOverlap(s: Store, r: Reservation, now: int)
    requires Valid(s) && NoOverlap(s) && r.id.None?
    requires Reserve(s, r, now).Ok?
    ensures Valid(Reserve(s, r, now).value)
    ensures NoOverlap(Reserve(s, r, now).value)
  {
    var t := Reserve(s, r, now).value;
    var id := s.nextReservationId;
    var n := t.reservations[id];
    forall a, b | a in t.reservations && b in t.reservations && a != b
      ensures !Overlap(t.reservations[a], t.reservations[b])
    {
      if a == id {
        assert b !in FindConflicting(s, r.roomId.value, r.startTime, r.endTime);
        ConflictIsOverlap(t.reservations[b], n);
      } else if b == id {
        assert a !in FindConflicting(s, r.roomId.value, r.startTime, r.endTime);
        ConflictIsOverlap(t.reservations[a], n);
      }
    }
  }

  /** `cancelReservation`: an unknown id is refused; the reservation is
      deleted only when both the student id and the student name match,
      after looking up its room. */
  function Cancel(s: Store, id: int, studentId: int, studentName: string): (out: Result<Store, ServiceError>)
    ensures out == Err(InvalidReservationId) <==> id !in s.reservations
    ensures out == Err(InvalidStudentInfo) <==>
              id in s.reservations && !(s.reservations[id].studentId == studentId && s.reservations[id].studentName == studentName)
    ensures out.Ok? ==>
              && id in s.reservations
              && s.reservations[id].studentId == studentId
              && s.reservations[id].studentName == studentName
              && out.value == s.(reservations := s.reservations - {id})
  {
    if id !in s.reservations then Err(InvalidReservationId)
    else
      var x := s.reservations[id];
      if x.studentId == studentId && x.studentName == studentName then
        if x.roomId.None? then Err(NullId)
        else if x.roomId.value !in s.rooms then Err(RoomNotFound)
        else Ok(s.(reservations := s.reservations - {id}))
      else Err(InvalidStudentInfo)
  }

  /** In a valid store the room lookup of a cancellation always succeeds, so
      a cancellation succeeds exactly when the credentials match, and it
      keeps the store's invariants. */
  lemma CancelInValidStore(s: Store, id: int, studentId: int, studentName: string)
    requires Valid(s) && NoOverlap(s)
    ensures Cancel(s, id, studentId, studentName).Ok? <==>
              id in s.reservations && s.reservations[id].studentId == studentId && s.reservations[id].studentName == studentName
    ensures Cancel(s, id, studentId, studentName).Ok? ==>
              Valid(Cancel(s, id, studentId, studentName).value) && NoOverlap(Cancel(s, id, studentId, studentName).value)
  {
    if Cancel(s, id, studentId, studentName).Ok? {
      RemovalKeepsInvariants(s, s.reservations - {id});
    }
  }

  /** `deleteReservation`: the administrator's removal by id, without
      credentials. */
  function Delete(s: Store, id: int): (out: Result<Store, ServiceError>)
    ensures out.Err? <==> id !in s.reservations
    ensures out.Err? ==> out.error == InvalidReservationId
    ensures out.Ok? ==> out.value.reservations.Keys == s.reservations.Keys - {id}
                        && (forall k :: k in out.value.reservations ==> out.value.reservations[k] == s.reservations[k])
                        && out.value.rooms == s.rooms
  {
    if id !in s.reservations then Err(InvalidReservationId)
    else Ok(s.(reservations := s.reservations - {id}))
  }

  /** A deletion keeps the store's invariants, and whatever the student
      could cancel the administrator can delete with the same result. */
  lemma DeleteAgreesWithCancel(s: Store, id: int, studentId: int, studentName: string)
    requires Valid(s) && NoOverlap(s)
    ensures Delete(s, id).Ok? ==> Valid(Delete(s, id).value) && NoOverlap(Delete(s, id).value)
    ensures Cancel(s, id, studentId, studentName).Ok? ==> Delete(s, id) == Cancel(s, id, studentId, studentName)
  {
    if Delete(s, id).Ok? {
      RemovalKeepsInvariants(s, s.reservations - {id});
    }
  }

  /** `findReservationsByRoomForNextWeek`: an unknown room is refused;
      otherwise the room's reservations starting between midnight today and
      midnight seven days later, both included. */
  function FindForNextWeek(s: Store, roomId: int, now: int): (out: Result<set<Reservation>, ServiceError>)
    ensures out.Err? <==> roomId !in s.rooms
    ensures out.Err? ==> out.error == RoomNotFound
    ensures out.Ok? ==> forall x :: x in out.value ==>
              x in s.reservations.Values && x.roomId == Some(roomId)
              && StartOfDay(now) <= x.startTime <= StartOfDay(now) + BookingHorizon
    ensures out.Ok? ==> forall k :: (k in s.reservations && s.reservations[k].roomId == Some(roomId)
              && StartOfDay(now) <= s.reservations[k].startTime <= StartOfDay(now) + BookingHorizon) ==>
              s.reservations[k] in out.value
  {
    if roomId !in s.rooms then Err(RoomNotFound)
    else
      var start := StartOfDay(now);
      Ok(FindByRoomAndDateRange(s, roomId, start, start + BookingHorizon))
  }

  /** A booking just accepted is listed by the weekly lookup of its room
      exactly when it starts between midnight today and midnight seven days
      later. The booking rules alone do not guarantee this: a start up to an
      hour ago may fall on yesterday, and a start up to seven days after
      `now` may lie beyond the lookup's end. */
  lemma BookedTodayIsListed(s: Store, r: Reservation, now: int)
    requires Valid(s) && r.id.None?
    requires Reserve(s, r, now).Ok?
    ensures var t := Reserve(s, r, now).value;
            && FindForNextWeek(t, r.roomId.value, now).Ok?
            && (t.reservations[s.nextReservationId] in FindForNextWeek(t, r.roomId.value, now).value <==>
                  StartOfDay(now) <= r.startTime <= StartOfDay(now) + BookingHorizon)
  {
  }
}
