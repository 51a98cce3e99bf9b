/** The room calendar page (components/reservation-calendar.tsx): reading
    the API's reservations back into grid records, the seven-day date
    window, the photo carousel and the equipment list. */
module Calendar {
  import opened Base
  import opened Text
  import opened Time
  import opened Slots
  import opened Grid
  import opened Dialog

  /** One entry of `reservationList` as the API returns it. */
  datatype ApiReservation = ApiReservation(
    reservationId: nat,
    nickname: string,
    purpose: string,
    startTime: int,
    endTime: int)

  /** `format(t, "HH:mm")`. */
  function TimeLabel(t: int): string {
    ClockLabel(HourOf(t), MinuteOf(t))
  }

  /** The transform of lines 68-91: the date is the start's date, the times
      are `HH:mm`, and an end at 00:00 of a later date reads as 24:00. The
      personal fields the API does not return are empty. */
  function FromApi(item: ApiReservation): (r: Reservation)
    ensures r.date == DayOf(item.startTime) && r.startTime == TimeLabel(item.startTime)
    ensures r.endTime == EndOfDay <==> DayOf(item.startTime) != DayOf(item.endTime) && TimeLabel(item.endTime) == ClockLabel(0, 0)
    ensures r.endTime != EndOfDay ==> r.endTime == TimeLabel(item.endTime)
  {
    MidnightLabel();
    EndOfDayLabel();
    HourLabelNotEndOfDay(item.endTime);
    var raw := TimeLabel(item.endTime);
    var endTime := if DayOf(item.startTime) != DayOf(item.endTime) && raw == "00:00" then "24:00" else raw;
    Reservation(NatToString(item.reservationId), DayOf(item.startTime), item.nickname, "", "", "", item.purpose,
                TimeLabel(item.startTime), endTime)
  }

  /** An `HH:mm` label of an instant is never `24:00`. */
  lemma HourLabelNotEndOfDay(t: int)
    ensures TimeLabel(t) != EndOfDay
  {
    var h := HourOf(t);
    assert h < 24 by {
      assert t % SecondsPerDay < 86400;
    }
    EndOfDayLabel();
    ClockLabelOrder(h, MinuteOf(t), 24, 0);
  }

  /** What the server stores for a successful submission reads back as the
      submitted labels on the submitted date; in particular a 24:00 end
      comes back as 24:00 on the same date, not as 00:00 of the next. */
  lemma SubmissionRoundTrip(f: FormValues, roomId: Option<string>, picks: seq<BlockIndex>, day: int,
                            id: nat, nickname: string, purpose: string)
    requires FormValid(f) && roomId.Some? && roomId.value != "" && |picks| > 0
    ensures Submit(f, roomId, picks, day).Ok? &&
            var sub := Submit(f, roomId, picks, day).value;
            var r := FromApi(ApiReservation(id, nickname, purpose, sub.request.startTime, sub.request.endTime));
            r.date == sub.date && r.startTime == sub.startLabel && r.endTime == sub.endLabel
  {
    SubmitInterval(f, roomId, picks, day);
    SubmitLabels(f, roomId, picks, day);
    var sub := Submit(f, roomId, picks, day).value;
    var s, e := FirstPicked(picks), LastPicked(picks);
    assert sub.request.startTime == At(day, OpeningHour + s, 0);
    assert sub.request.endTime == At(day, OpeningHour + e + 1, 0);
    ReadBack(day, s, e, id, nickname, purpose);
  }

  /** The record read back for the instants of the range `s..e` of `day`. */
  lemma ReadBack(day: int, s: BlockIndex, e: BlockIndex, id: nat, nickname: string, purpose: string)
    requires s <= e
    ensures var r := FromApi(ApiReservation(id, nickname, purpose,
                                            At(day, OpeningHour + s, 0), At(day, OpeningHour + e + 1, 0)));
            r.date == day && r.startTime == BlockTime(s) && r.endTime == BlockEndTime(e)
  {
    var start := At(day, OpeningHour + s, 0);
    var end := At(day, OpeningHour + e + 1, 0);
    InstantReadBack(day, OpeningHour + s);
    if e + 1 < BlockCount {
      InstantReadBack(day, OpeningHour + e + 1);
    } else {
      assert end == At(day + 1, 0, 0);
      InstantReadBack(day + 1, 0);
    }
  }

  /** `format` recovers the day and the `HH:00` label of a whole hour. */
  lemma InstantReadBack(day: int, hour: nat)
    requires hour < 24
    ensures DayOf(At(day, hour, 0)) == day
    ensures TimeLabel(At(day, hour, 0)) == ClockLabel(hour, 0)
  {
    AtComponents(day, hour, 0);
  }

  /** After a successful submission, the record read back occupies exactly
      the picked blocks of that date. */
  lemma ReadBackOccupiesPicks(f: FormValues, roomId: Option<string>, picks: seq<BlockIndex>, day: int,
                              id: nat, nickname: string, purpose: string, k: BlockIndex)
    requires FormValid(f) && roomId.Some? && roomId.value != "" && |picks| > 0
    ensures Submit(f, roomId, picks, day).Ok? &&
            var sub := Submit(f, roomId, picks, day).value;
            var r := FromApi(ApiReservation(id, nickname, purpose, sub.request.startTime, sub.request.endTime));
            (Occupies(r, day, BlockTime(k)) <==> FirstPicked(picks) <= k <= LastPicked(picks))
  {
    SubmissionRoundTrip(f, roomId, picks, day, id, nickname, purpose);
    var sub := Submit(f, roomId, picks, day).value;
    var r := FromApi(ApiReservation(id, nickname, purpose, sub.request.startTime, sub.request.endTime));
    RangeOccupancy(r, day, FirstPicked(picks), LastPicked(picks), k);
  }

  /** A record of `day` running from block `s` to the end of block `e`
      occupies exactly the blocks `s..e`. */
  lemma RangeOccupancy(r: Reservation, day: int, s: BlockIndex, e: BlockIndex, k: BlockIndex)
    requires s <= e && r.date == day && r.startTime == BlockTime(s) && r.endTime == BlockEndTime(e)
    ensures Occupies(r, day, BlockTime(k)) <==> s <= k <= e
  {
    OccupiesIsHalfOpen(r, day, k, OpeningHour + s, 0, OpeningHour + e + 1, 0);
  }

  /** The calendar's `disabled` predicate: before today or after today + 6. */
  predicate DateDisabled(date: int, today: int) {
    date < today || date > today + 6
  }

  datatype Direction = Prev | Next

  /** `navigateDate`: one day back while not before today, one day forward
      while not after today + 6; otherwise nothing changes. */
  function NavigateDate(selected: int, today: int, direction: Direction): (r: int)
    ensures r == selected || r == selected - 1 || r == selected + 1
    ensures direction == Prev && r != selected ==> r == selected - 1 && r >= today
    ensures direction == Next && r != selected ==> r == selected + 1 && r <= today + 6
    ensures !DateDisabled(selected, today) ==> !DateDisabled(r, today)
  {
    match direction
    case Prev => if selected - 1 >= today then selected - 1 else selected
    case Next => if selected + 1 <= today + 6 then selected + 1 else selected
  }

  /** Within the window, a step moves by one day exactly when the target
      day is still inside the window, and a step out of it is a no-op. */
  lemma NavigateStepsInsideWindow(selected: int, today: int)
    requires !DateDisabled(selected, today)
    ensures NavigateDate(selected, today, Prev) == (if selected > today then selected - 1 else selected)
    ensures NavigateDate(selected, today, Next) == (if selected < today + 6 then selected + 1 else selected)
    ensures NavigateDate(NavigateDate(selected, today, Next), today, Prev) == selected || selected == today + 6
  {
  }

  /** JavaScript's `%`, whose result takes the sign of the dividend. */
  function JsRem(a: int, n: int): (r: int)
    requires n > 0
    ensures a >= 0 ==> 0 <= r < n && r == a % n
    ensures a < 0 ==> -n < r <= 0
  {
    if a >= 0 then a % n else -((-a) % n)
  }

  /** The photo index: `None` is `NaN`, which `x % 0` produces when the room
      has no photos. */
  type PhotoIndex = Option<int>

  /** `showPrevPhoto`: nothing without an open room; otherwise
      `(prev - 1 + n) % n`. */
  function ShowPrevPhoto(index: PhotoIndex, photoCount: Option<nat>): (r: PhotoIndex)
    ensures photoCount.None? ==> r == index
    ensures photoCount == Some(0) ==> r.None?
    ensures photoCount.Some? && photoCount.value > 0 && index.Some? && 0 <= index.value < photoCount.value ==>
              r.Some? && 0 <= r.value < photoCount.value
  {
    if photoCount.None? then index
    else if photoCount.value == 0 || index.None? then None
    else Some(JsRem(index.value - 1 + photoCount.value, photoCount.value))
  }

  /** `showNextPhoto`: nothing without an open room; otherwise
      `(prev + 1) % n`. */
  function ShowNextPhoto(index: PhotoIndex, photoCount: Option<nat>): (r: PhotoIndex)
    ensures photoCount.None? ==> r == index
    ensures photoCount == Some(0) ==> r.None?
    ensures photoCount.Some? && photoCount.value > 0 && index.Some? && 0 <= index.value < photoCount.value ==>
              r.Some? && 0 <= r.value < photoCount.value
  {
    if photoCount.None? then index
    else if photoCount.value == 0 || index.None? then None
    else Some(JsRem(index.value + 1, photoCount.value))
  }

  /** `openRoomDetails` resets the index to the first photo. */
  const OpenedPhotoIndex: PhotoIndex := Some(0)

  lemma ModOfSmall(a: int, n: int)
    requires 0 <= a < n
    ensures a % n == a
  {
  }

  lemma ModOfSelf(n: int)
    requires n > 0
    ensures n % n == 0
  {
  }

  /** Inside `[0, n)` the two buttons undo each other. */
  lemma PhotoStepsInverse(i: int, n: nat)
    requires 0 <= i < n
    ensures ShowPrevPhoto(ShowNextPhoto(Some(i), Some(n)), Some(n)) == Some(i)
    ensures ShowNextPhoto(ShowPrevPhoto(Some(i), Some(n)), Some(n)) == Some(i)
  {
    NextStep(i, n);
    PrevStep(i, n);
    if i + 1 < n {
      PrevStep(i + 1, n);
    } else {
      PrevStep(0, n);
    }
    if i == 0 {
      NextStep(n - 1, n);
    } else {
      NextStep(i - 1, n);
    }
  }

  /** Forward from photo `i`: the next one, wrapping from the last to the
      first. */
  lemma NextStep(i: int, n: nat)
    requires 0 <= i < n
    ensures ShowNextPhoto(Some(i), Some(n)) == Some(if i + 1 < n then i + 1 else 0)
  {
    if i + 1 < n {
      ModOfSmall(i + 1, n);
    } else {
      ModOfSelf(n);
    }
  }

  /** Back from photo `i`: the previous one, wrapping from the first to the
      last. */
  lemma PrevStep(i: int, n: nat)
    requires 0 <= i < n
    ensures ShowPrevPhoto(Some(i), Some(n)) == Some(if i == 0 then n - 1 else i - 1)
  {
    if i == 0 {
      ModOfSmall(n - 1, n);
    } else {
      ModPlusSelf(i - 1, n);
    }
  }

  lemma ModPlusSelf(a: int, n: int)
    requires 0 <= a < n
    ensures (a + n) % n == a
  {
  }

  /** The index after pressing the buttons in order: `true` is "next",
      `false` is "previous". */
  function PressAll(index: PhotoIndex, photoCount: Option<nat>, presses: seq<bool>): PhotoIndex
    decreases |presses|
  {
    if |presses| == 0 then index
    else
      var step := if presses[0] then ShowNextPhoto(index, photoCount) else ShowPrevPhoto(index, photoCount);
      PressAll(step, photoCount, presses[1..])
  }

  /** From a valid index, any sequence of presses ends on a valid index. */
  lemma {:induction false} PressesKeepIndexValid(i: int, n: nat, presses: seq<bool>)
    requires 0 <= i < n
    ensures var r := PressAll(Some(i), Some(n), presses); r.Some? && 0 <= r.value < n
    decreases |presses|
  {
    if |presses| > 0 {
      var step := if presses[0] then ShowNextPhoto(Some(i), Some(n)) else ShowPrevPhoto(Some(i), Some(n));
      PressesKeepIndexValid(step.value, n, presses[1..]);
    }
  }

  /** The photo shown after opening the details of a room with photos and
      pressing either button any number of times is a valid index. */
  lemma OpenedIndexValid(n: nat, presses: seq<bool>)
    requires n > 0
    ensures var r := PressAll(OpenedPhotoIndex, Some(n), presses); r.Some? && 0 <= r.value < n
  {
    PressesKeepIndexValid(0, n, presses);
  }

  /** Trimmed, non-empty pieces, in order. */
  function CleanParts(parts: seq<string>): (r: seq<string>)
    ensures |r| <= |parts|
    ensures forall k :: 0 <= k < |r| ==> |r[k]| > 0 && Trimmed(r[k])
  {
    if |parts| == 0 then []
    else
      var t := Trim(parts[0]);
      (if |t| > 0 then [t] else []) + CleanParts(parts[1..])
  }

  /** A character none of the pieces holds is in none of the cleaned ones. */
  lemma {:induction false} CleanPartsAvoid(parts: seq<string>, c: char)
    requires forall j :: 0 <= j < |parts| ==> c !in parts[j]
    ensures forall k :: 0 <= k < |CleanParts(parts)| ==> c !in CleanParts(parts)[k]
  {
    if |parts| > 0 {
      CleanPartsAvoid(parts[1..], c);
      TrimKeepsOut(parts[0], c);
    }
  }

  /** Pieces that are already trimmed and non-empty are kept as they are. */
  lemma {:induction false} CleanPartsKeep(parts: seq<string>)
    requires forall j :: 0 <= j < |parts| ==> |parts[j]| > 0 && Trimmed(parts[j])
    ensures CleanParts(parts) == parts
  {
    if |parts| > 0 {
      var p, rest := parts[0], parts[1..];
      assert parts == [p] + rest;
      CleanPartsKeep(rest);
      CleanPartsCons(p, rest);
    }
  }

  lemma CleanPartsCons(p: string, rest: seq<string>)
    requires |p| > 0 && Trimmed(p)
    ensures CleanParts([p] + rest) == [p] + CleanParts(rest)
  {
    assert ([p] + rest)[1..] == rest;
  }

  /** `equipment.split(",").map(s => s.trim()).filter(Boolean)`. */
  function SplitEquipment(equipment: string): (r: seq<string>)
    ensures forall k :: 0 <= k < |r| ==> |r[k]| > 0 && Trimmed(r[k]) && ',' !in r[k]
  {
    var parts := Split(equipment, ',');
    SplitJoin(equipment, ',');
    CleanPartsAvoid(parts, ',');
    CleanParts(parts)
  }

  /** A list of trimmed, non-empty, comma-free names stored comma-joined
      comes back as the same list. */
  lemma EquipmentRoundTrip(items: seq<string>)
    requires |items| >= 1
    requires forall k :: 0 <= k < |items| ==> |items[k]| > 0 && Trimmed(items[k]) && ',' !in items[k]
    ensures SplitEquipment(Join(items, ',')) == items
  {
    var joined := Join(items, ',');
    JoinSplit(items, ',');
    assert Split(joined, ',') == items;
    CleanPartsKeep(items);
  }

  /** An empty equipment string lists nothing. */
  lemma NoEquipment()
    ensures SplitEquipment("") == []
  {
    assert Split("", ',') == [""];
    assert Trim("") == "";
  }
}
