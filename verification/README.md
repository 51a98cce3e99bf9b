# Seminar room reservation — a Dafny model

This project models the core of a seminar-room reservation system. A Next.js
frontend shows each room's day as sixteen one-hour blocks (08:00 to 24:00).
A student picks one block or the two ends of a range and fills in a form. A
Spring backend checks the request, refuses bookings that overlap an existing
one in the same room, and stores the booking. An administrator page lists,
filters, searches and counts bookings and manages rooms. Room images go to
object storage, and every request is logged and can be exported as a
spreadsheet.

The model is a set of pure functions over immutable data:

- `Time`: instants are whole seconds on one local time line, and days are
  day numbers.
- `Slots`: the block catalog and the `HH:MM` labels. The frontend compares
  these labels as strings, so the model does too, and `Slots.ClockLabelOrder`
  proves that the string order is the clock order.
- `Grid`: the selection state machine of the time-block grid.
- `Dialog`: the form rules, the phone formatter and the request the dialog
  posts.
- `Calendar`: the date window, reading bookings back from the API, the photo
  carousel and the equipment list.
- `Admin`: status, tabs, search, sort and counters of the admin page.
- `Entities`, `Repository`, `Reservations`, `Rooms`, `RoomController`,
  `Requests`: the backend records, the database with its two JPQL queries,
  the booking and room services, the public room list and the request
  validation.
- `Uploads`: the object keys and URL list of `S3Service.uploadFiles`.
- `Logs`: the request-log line written by `LogAspect`, its parsing by
  `LogService.convertLogToMap`, and the routing of lines to export sheets.

The central property is `Reservations.ReserveKeepsNoOverlap`: in a store
where no two bookings of one room overlap, a successful booking keeps it so.
`Reservations.CancelInValidStore`, `Reservations.DeleteAgreesWithCancel`,
`Rooms.UpdateKeepsInvariants`, `Rooms.DeleteRoomKeepsInvariants` and
`Rooms.CreateRoom` show that every other store transition keeps it as well.

How external effects are represented:

- The current time is a parameter (`now`, `Grid.Clock`).
- A storage URL is a parameter function (`urlOf`).
- The store is what the database holds. A room's image list is rows of its
  own table, so a room created without files holds an empty list, which is
  what `findAllWithImages` loads, and never an absent one.
- An exception is an `Err` value. Each service method runs in one
  transaction, so a failed call leaves the store unchanged.

Where the code and its documentation disagree, the model follows the code:

- The phone formatter never produces the three-digit middle part that both
  phone patterns allow (`Dialog.FormattedPhoneValid`).
- The "Next" date button checks only the upper end of the window.
- The "today" counter of the admin page looks at the start only, while the
  "today" tab looks at the start or the end.

## Model

| member | source | states |
|---|---|---|
| Slots.GenerateTimeBlocks | frontend/seminar-room-reservation-frontend/lib/utils.ts:9-26 | sixteen blocks; block i is at (8+i):00 and is captioned up to the next block's time, and the last one up to 24:00 |
| Slots.BlocksFromLabels | frontend/seminar-room-reservation-frontend/lib/utils.ts:12-23 | the blocks from any hour on carry consecutive padded hour labels, each captioned with its own time and the next |
| Slots.MakeBlockShape | frontend/seminar-room-reservation-frontend/lib/utils.ts:13-21 | a block's time is HH:00 and its caption ends at the next hour, or at 24:00 after 23:00 |
| Slots.ClockLabelOrder | frontend/seminar-room-reservation-frontend/components/time-block-grid.tsx:130-132 | the string `<` used on padded HH:MM labels is exactly chronological order |
| Slots.CatalogOrder | frontend/seminar-room-reservation-frontend/lib/utils.ts:12-13 | block times are pairwise distinct, ascend with the index, and all sort before 24:00, so finding a block by its time finds the right block |
| Slots.DigitPrefix | frontend/seminar-room-reservation-frontend/lib/utils.ts:29-30 | the digits parseInt reads form the longest run of digits at the start of the text |
| Slots.ParseInt | frontend/seminar-room-reservation-frontend/lib/utils.ts:29-30 | Number.parseInt: leading white space skipped, an optional sign, then the leading digits, NaN (None) without any; pinned down on labels by ParseHourField |
| Slots.SplitClockLabel | frontend/seminar-room-reservation-frontend/lib/utils.ts:29 | splitting a label at ':' gives the padded hour and the padded minute |
| Slots.ParseHourField | frontend/seminar-room-reservation-frontend/lib/utils.ts:29-30 | the parsed hour field of a label is its hour |
| Slots.ClockPartsOfLabel | frontend/seminar-room-reservation-frontend/components/time-block-grid.tsx:163 | split(":").map(Number) on a label gives back its hour and minute |
| Slots.HoursDifference | frontend/seminar-room-reservation-frontend/lib/utils.ts:28-38 | getHoursDifference: end hour minus start hour with 0 or 24 read as 24, NaN (None) when either hour does not parse; stated by HoursDifferenceOfHours and HoursDifferenceOfLabels |
| Slots.HoursDifferenceOfHours | frontend/seminar-room-reservation-frontend/lib/utils.ts:28-38 | the difference is the end hour minus the start hour, where an end hour of 0 or 24 counts as 24 |
| Slots.HoursDifferenceOfLabels | frontend/seminar-room-reservation-frontend/lib/utils.ts:28-38 | on well-formed labels the minutes are ignored and midnight ends the day |
| Slots.BlockIsOneHour | frontend/seminar-room-reservation-frontend/lib/utils.ts:28-38 | every catalog block lasts exactly one hour, including the last one to 24:00 |
| Slots.LateHourIsOneHour | frontend/seminar-room-reservation-frontend/lib/utils.ts:32-35 | 23:00 to 00:00 is one hour, because midnight is read as 24 |
| Grid.Occupies | frontend/seminar-room-reservation-frontend/components/time-block-grid.tsx:131 | a reservation occupies a block when it is on the shown date, starts at or before the block's time and ends after it, compared as strings; OccupiesIsHalfOpen reads this as the half-open interval |
| Grid.IsBlockReserved | frontend/seminar-room-reservation-frontend/components/time-block-grid.tsx:130-132 | a block is reserved when some fetched reservation occupies it; ReservationForBlock finds one exactly then |
| Grid.ReservationForBlock | frontend/seminar-room-reservation-frontend/components/time-block-grid.tsx:282-285 | finds a reservation exactly when the block is reserved, and the one it finds is the first in the list that occupies the block |
| Grid.OccupiesIsHalfOpen | frontend/seminar-room-reservation-frontend/components/time-block-grid.tsx:130-132 | on HH:MM labels the string test means the block starts inside the half-open booked interval of that date |
| Grid.BlockEndTime | frontend/seminar-room-reservation-frontend/components/time-block-grid.tsx:143-153 | a block ends at the next hour's label, and the last one ends at 24:00 |
| Grid.IsBlockInPast | frontend/seminar-room-reservation-frontend/components/time-block-grid.tsx:156-176 | only blocks of today can be past, by comparing the parsed end time with the clock; PastIsElapsed states it in minutes |
| Grid.PastIsElapsed | frontend/seminar-room-reservation-frontend/components/time-block-grid.tsx:156-176 | a block is past exactly when it is today, it is not the last block, and its end minute is at or before the current minute |
| Grid.EndHourPassed | frontend/seminar-room-reservation-frontend/components/time-block-grid.tsx:170-175 | a whole-hour end has passed when the current time is at or after it, except that 24 never passes |
| Grid.PastExample | frontend/seminar-room-reservation-frontend/components/time-block-grid.tsx:156-176 | at 14:30 the 13:00 block is past and the 14:00 block is not |
| Grid.NeverBeforeStartTime | frontend/seminar-room-reservation-frontend/components/time-block-grid.tsx:199-207 | no catalog block is before 08:00, so this rule never disables a block |
| Grid.IsDisabled | frontend/seminar-room-reservation-frontend/components/time-block-grid.tsx:349-354 | a block is disabled when it is reserved, past or before opening |
| Grid.Remove | frontend/seminar-room-reservation-frontend/components/time-block-grid.tsx:221 | deselecting drops the block and keeps every other pick |
| Grid.Click | frontend/seminar-room-reservation-frontend/components/time-block-grid.tsx:209-227 | a disabled block is ignored; after two picks a click starts over with that block; otherwise a click toggles the block; at most two distinct picks are kept |
| Grid.DeselectExample | frontend/seminar-room-reservation-frontend/components/time-block-grid.tsx:219-223 | clicking the same enabled block twice from an empty selection leaves it empty |
| Grid.ReservedFrom | frontend/seminar-room-reservation-frontend/components/time-block-grid.tsx:115-123 | the overlap loop collects exactly the reserved blocks of the range, in ascending order |
| Grid.RangeViewFacts | frontend/seminar-room-reservation-frontend/components/time-block-grid.tsx:89-127 | a range counts both ends, is flagged beyond four hours, and is valid exactly when none of its blocks is reserved, which is exactly when no overlap is listed |
| Grid.RangeViewListsReserved | frontend/seminar-room-reservation-frontend/components/time-block-grid.tsx:115-123 | every reserved block inside the range is listed as an overlap |
| Grid.RangeViewListsOnlyReserved | frontend/seminar-room-reservation-frontend/components/time-block-grid.tsx:115-123 | every listed overlap is the time of a reserved block inside the range, and the list is in ascending time order |
| Grid.Derive | frontend/seminar-room-reservation-frontend/components/time-block-grid.tsx:61-127 | the selection effect: empty, one pick or the range between the first two picks; stated by DeriveEmpty, DeriveSingle, DeriveRange and DeriveOrderIndependent |
| Grid.RangeView | frontend/seminar-room-reservation-frontend/components/time-block-grid.tsx:89-127 | the derived values of a two-pick range; stated by RangeViewFacts, RangeViewListsReserved and RangeViewListsOnlyReserved |
| Grid.DeriveEmpty | frontend/seminar-room-reservation-frontend/components/time-block-grid.tsx:62-71 | with nothing picked the selection is invalid, zero hours long, and has no range and no overlaps |
| Grid.DeriveSingle | frontend/seminar-room-reservation-frontend/components/time-block-grid.tsx:74-87 | one pick is one hour, never over the limit, and valid exactly when its block is free |
| Grid.DeriveRange | frontend/seminar-room-reservation-frontend/components/time-block-grid.tsx:89-99 | two picks span from the lower index to the higher, whatever the click order |
| Grid.DeriveOrderIndependent | frontend/seminar-room-reservation-frontend/components/time-block-grid.tsx:93-95 | both click orders of the same two picks give the same view |
| Grid.ClickOrderIndependent | frontend/seminar-room-reservation-frontend/components/time-block-grid.tsx:209-227 | clicking two different enabled blocks in either order gives the same view |
| Grid.BookedRangeExample | frontend/seminar-room-reservation-frontend/components/time-block-grid.tsx:111-126 | with 10:00-12:00 booked, the range 10:00-11:00 is invalid and lists both blocks |
| Grid.WholeDayExceedsLimit | frontend/seminar-room-reservation-frontend/components/time-block-grid.tsx:104-109 | the range 08:00 to 23:00 is sixteen hours and over the limit |
| Grid.ButtonEnabledIff | frontend/seminar-room-reservation-frontend/components/time-block-grid.tsx:429 | the reserve button is enabled exactly when something is picked, the range is at most four hours, and no block in it is reserved |
| Grid.ButtonCaption | frontend/seminar-room-reservation-frontend/components/time-block-grid.tsx:431-436 | the caption invites booking exactly when there is no overlap and the limit is kept |
| Grid.ReservationClick | frontend/seminar-room-reservation-frontend/components/time-block-grid.tsx:229-249 | the dialog opens exactly for a valid selection within the limit, and an invalid selection is reported before the limit |
| Grid.ClickAgreesWithButton | frontend/seminar-room-reservation-frontend/components/time-block-grid.tsx:229-249 | on every derived view, the click opens the dialog exactly when the button is enabled |
| Grid.InRangeIffBetweenPicks | frontend/seminar-room-reservation-frontend/components/time-block-grid.tsx:288-296 | a block is highlighted exactly when it is the single pick or lies between the two picks |
| Dialog.FormValid | frontend/seminar-room-reservation-frontend/components/reservation-dialog.tsx:18-24 | the form schema: nickname and name of at least two characters, a student number of at least six digits only, a phone matching the pattern, a purpose of at least four characters |
| Dialog.FormatPhone | frontend/seminar-room-reservation-frontend/components/reservation-dialog.tsx:283-297 | the phone formatter keeps the digits and lays them out; FormatPhoneIdempotent and FormattedPhoneValid state what it yields |
| Dialog.KeepDigits | frontend/seminar-room-reservation-frontend/components/reservation-dialog.tsx:284 | the result consists of digits only and is no longer than the input |
| Dialog.LayOut | frontend/seminar-room-reservation-frontend/components/reservation-dialog.tsx:287-295 | up to three digits as typed, then ddd-rest, then ddd-dddd-dddd cut after the eleventh digit; DigitsOfLayOut and FullLayOutMatches state it |
| Dialog.DigitsOfLayOut | frontend/seminar-room-reservation-frontend/components/reservation-dialog.tsx:284-295 | the digits of the formatted number are the first eleven digits typed |
| Dialog.FormatPhoneIdempotent | frontend/seminar-room-reservation-frontend/components/reservation-dialog.tsx:283-298 | formatting an already formatted value changes nothing |
| Dialog.FullLayOutMatches | frontend/seminar-room-reservation-frontend/components/reservation-dialog.tsx:16 | ddd-dddd-dddd matches the phone pattern exactly when ddd is a mobile prefix |
| Dialog.ShortLayOutFails | frontend/seminar-room-reservation-frontend/components/reservation-dialog.tsx:16 | a last part of one to three digits never matches |
| Dialog.FormattedPhoneValid | frontend/seminar-room-reservation-frontend/components/reservation-dialog.tsx:283-298 | a formatted value is a valid phone number exactly when at least eleven digits were typed and the first three are a mobile prefix |
| Dialog.RemoveSpaces | frontend/seminar-room-reservation-frontend/components/reservation-dialog.tsx:135 | no white space is left |
| Dialog.ValidPhoneUnchanged | frontend/seminar-room-reservation-frontend/components/reservation-dialog.tsx:135 | a number the form accepts is sent exactly as typed |
| Dialog.SelectedIntervalOrdered | frontend/seminar-room-reservation-frontend/components/reservation-dialog.tsx:110-127 | the start label sorts before the end label |
| Dialog.EndForRequest | frontend/seminar-room-reservation-frontend/components/reservation-dialog.tsx:130-132 | an end of 24:00 is sent as 00:00 of the next day; any other end is sent unchanged on the same day |
| Dialog.Submit | frontend/seminar-room-reservation-frontend/components/reservation-dialog.tsx:89-147 | onSubmit: form rules, room and picks checked in that order, then the request built from the picked interval; stated by SubmitErrors, SubmitInterval, SubmitLabels and SubmitFields |
| Dialog.SubmitErrors | frontend/seminar-room-reservation-frontend/components/reservation-dialog.tsx:89-105 | a submission fails for an invalid form, then for a missing room, then for no picks, and otherwise succeeds |
| Dialog.LabelInstant | frontend/seminar-room-reservation-frontend/components/reservation-dialog.tsx:80-87 | the instant of a day and an HH:00 label is that hour of that day |
| Dialog.SubmitInterval | frontend/seminar-room-reservation-frontend/components/reservation-dialog.tsx:107-147 | the request starts at the first picked block and ends one hour after the last one, so it spans whole picked hours and starts before it ends |
| Dialog.EndInstant | frontend/seminar-room-reservation-frontend/components/reservation-dialog.tsx:130-146 | the end sent for block e is the instant one hour after e starts, across midnight after the 23:00 block |
| Dialog.SubmitLabels | frontend/seminar-room-reservation-frontend/components/reservation-dialog.tsx:107-127 | the local record is on the chosen day, from the first picked block's time to the end of the last |
| Dialog.SubmitFields | frontend/seminar-room-reservation-frontend/components/reservation-dialog.tsx:138-147 | the request carries the form's fields, with the student number as the decimal value of the digits typed |
| Dialog.SubmitOrderIndependent | frontend/seminar-room-reservation-frontend/components/reservation-dialog.tsx:118-122 | the order of the two picks does not change the submission |
| Dialog.TimeRangeLabel | frontend/seminar-room-reservation-frontend/components/reservation-dialog.tsx:201-216 | empty below two picks; otherwise the submitted start and end joined by " - " |
| Calendar.FromApi | frontend/seminar-room-reservation-frontend/components/reservation-calendar.tsx:68-91 | the date and start label are the start's; the end reads 24:00 exactly when it is 00:00 of a later date, and is otherwise its HH:mm |
| Calendar.HourLabelNotEndOfDay | frontend/seminar-room-reservation-frontend/components/reservation-calendar.tsx:75-77 | an HH:mm label of an instant is never 24:00 |
| Calendar.InstantReadBack | frontend/seminar-room-reservation-frontend/components/reservation-calendar.tsx:73-76 | formatting a whole-hour instant gives back its day and its HH:00 label |
| Calendar.ReadBack | frontend/seminar-room-reservation-frontend/components/reservation-calendar.tsx:68-91 | a booking of a block range reads back on the same date with the range's start and end labels, including 24:00 |
| Calendar.SubmissionRoundTrip | frontend/seminar-room-reservation-frontend/components/reservation-calendar.tsx:68-91 | what a successful submission stores reads back as the submitted date and labels |
| Calendar.ReadBackOccupiesPicks | frontend/seminar-room-reservation-frontend/components/reservation-calendar.tsx:68-91 | the booking read back occupies exactly the picked blocks of that date |
| Calendar.RangeOccupancy | frontend/seminar-room-reservation-frontend/components/time-block-grid.tsx:130-132 | a record from block s to the end of block e occupies exactly the blocks s to e |
| Calendar.DateDisabled | frontend/seminar-room-reservation-frontend/components/reservation-calendar.tsx:332-339 | a date is disabled before today or after today + 6; NavigateDate keeps an enabled date enabled |
| Calendar.NavigateDate | frontend/seminar-room-reservation-frontend/components/reservation-calendar.tsx:165-177 | a step moves at most one day; Prev never goes before today and Next never past today+6; an enabled date stays enabled |
| Calendar.NavigateStepsInsideWindow | frontend/seminar-room-reservation-frontend/components/reservation-calendar.tsx:165-177 | inside the window a step moves exactly when the target is inside it, and Prev undoes Next except at the last day |
| Calendar.JsRem | frontend/seminar-room-reservation-frontend/components/reservation-calendar.tsx:46 | JavaScript's remainder agrees with the mathematical one for a non-negative dividend and is non-positive otherwise |
| Calendar.ShowPrevPhoto | frontend/seminar-room-reservation-frontend/components/reservation-calendar.tsx:44-47 | nothing changes without an open room; with no photos the index becomes NaN; from a valid index it moves to another valid index |
| Calendar.ShowNextPhoto | frontend/seminar-room-reservation-frontend/components/reservation-calendar.tsx:49-52 | nothing changes without an open room; with no photos the index becomes NaN; from a valid index it moves to another valid index |
| Calendar.NextStep | frontend/seminar-room-reservation-frontend/components/reservation-calendar.tsx:49-52 | Next moves to the following photo and wraps from the last to the first |
| Calendar.PrevStep | frontend/seminar-room-reservation-frontend/components/reservation-calendar.tsx:44-47 | Prev moves to the previous photo and wraps from the first to the last |
| Calendar.PhotoStepsInverse | frontend/seminar-room-reservation-frontend/components/reservation-calendar.tsx:44-52 | Prev and Next undo each other |
| Calendar.PressesKeepIndexValid | frontend/seminar-room-reservation-frontend/components/reservation-calendar.tsx:44-52 | from a valid photo index, every sequence of Prev and Next presses ends on a valid index |
| Calendar.OpenedIndexValid | frontend/seminar-room-reservation-frontend/components/reservation-calendar.tsx:38-52 | after opening a room with photos, any sequence of Prev and Next presses shows a valid photo index |
| Calendar.CleanParts | frontend/seminar-room-reservation-frontend/components/reservation-calendar.tsx:124 | the kept pieces are trimmed and non-empty, and there are no more of them than pieces |
| Calendar.SplitEquipment | frontend/seminar-room-reservation-frontend/components/reservation-calendar.tsx:123-125 | every listed item is trimmed, non-empty and free of commas |
| Calendar.EquipmentRoundTrip | frontend/seminar-room-reservation-frontend/components/reservation-calendar.tsx:124 | a list of clean names stored comma-joined splits back into the same list |
| Calendar.NoEquipment | frontend/seminar-room-reservation-frontend/components/reservation-calendar.tsx:124 | an empty equipment string lists nothing |
| Admin.StatusOf | frontend/seminar-room-reservation-frontend/app/admin/page.tsx:106-118 | scheduled exactly before the start, in progress exactly from start to end inclusive, completed exactly after a started booking's end |
| Admin.EndIsInProgress | frontend/seminar-room-reservation-frontend/app/admin/page.tsx:113 | the end instant itself is still in progress, and the next instant is completed |
| Admin.TabKeeps | frontend/seminar-room-reservation-frontend/app/admin/page.tsx:137-156 | the tab filter: today by start or end day, scheduled before the start, completed after the end, all everything; TabsAgreeWithStatus relates it to the status |
| Admin.TabsAgreeWithStatus | frontend/seminar-room-reservation-frontend/app/admin/page.tsx:137-156 | for a well-formed booking the scheduled and completed tabs are exactly the matching statuses, and no booking is in both |
| Admin.SearchMatches | frontend/seminar-room-reservation-frontend/app/admin/page.tsx:159-166 | nickname, room name or purpose contains the term ignoring ASCII case, or the student number contains it as typed; a missing room name never matches |
| Admin.SearchIgnoresCase | frontend/seminar-room-reservation-frontend/app/admin/page.tsx:159-166 | a term equal up to ASCII case to any part of the nickname finds it, a term equal to the whole nickname up to case in particular; changing the case of the term changes no match except one on the student number, which is compared as typed |
| Admin.Insert | frontend/seminar-room-reservation-frontend/app/admin/page.tsx:169-171 | inserting into a sorted list keeps it sorted and adds exactly the new row |
| Admin.SortByStart | frontend/seminar-room-reservation-frontend/app/admin/page.tsx:169-171 | the result is ascending by start and is a permutation of the input |
| Admin.FilterReservations | frontend/seminar-room-reservation-frontend/app/admin/page.tsx:133-172 | the list is sorted by start and holds every row that passes the tab and the search, as many times as the input holds it, and no other row |
| Admin.AllTabListsEverything | frontend/seminar-room-reservation-frontend/app/admin/page.tsx:154-156 | the all tab with no term lists every row |
| Admin.CountsBounded | frontend/seminar-room-reservation-frontend/app/admin/page.tsx:417-419 | the scheduled and completed counters together never exceed the rows, and the today counter never exceeds the today tab |
| Admin.TodayCount | frontend/seminar-room-reservation-frontend/app/admin/page.tsx:417 | the reservations starting today; CountsBounded bounds it by the today tab |
| Admin.ScheduledCount | frontend/seminar-room-reservation-frontend/app/admin/page.tsx:418 | the reservations not yet started; CountsBounded bounds it together with the completed counter |
| Admin.CompletedCount | frontend/seminar-room-reservation-frontend/app/admin/page.tsx:419 | the reservations already ended; CountsBounded bounds it together with the scheduled counter |
| Admin.Toggle | frontend/seminar-room-reservation-frontend/app/admin/page.tsx:340-350 | the id flips membership and no other id changes |
| Admin.ToggleTwice | frontend/seminar-room-reservation-frontend/app/admin/page.tsx:340-362 | toggling twice restores the set |
| Phone.FrontPhone | frontend/seminar-room-reservation-frontend/components/reservation-dialog.tsx:16 | the form's pattern: 01 and one of 0, 1, 6, 7, 8, 9, a dash, three or four digits, a dash, four digits |
| Phone.BackPhone | backend/seminar-room-reservation-server/src/main/java/com/alstjrzzz/srr/dto/reservation/CreateReservationRequestDTO.java:28 | the request's pattern: one of six three-digit prefixes, a dash, three or four digits, a dash, four digits |
| Phone.SamePattern | backend/seminar-room-reservation-server/src/main/java/com/alstjrzzz/srr/dto/reservation/CreateReservationRequestDTO.java:28 | the backend pattern and the form's pattern accept exactly the same strings |
| Phone.PhoneCharacters | backend/seminar-room-reservation-server/src/main/java/com/alstjrzzz/srr/dto/reservation/CreateReservationRequestDTO.java:28 | a matching number is 12 or 13 characters of digits and dashes |
| Requests.JavaTrimStart | backend/seminar-room-reservation-server/src/main/java/com/alstjrzzz/srr/dto/reservation/CreateReservationRequestDTO.java:18 | the result is a suffix, everything dropped is white space, and it does not start with white space |
| Requests.NotBlank | backend/seminar-room-reservation-server/src/main/java/com/alstjrzzz/srr/dto/reservation/CreateReservationRequestDTO.java:18-19 | present and not empty after Java's trim; NotBlankIff states it as holding a non-space character |
| Requests.Accepted | backend/seminar-room-reservation-server/src/main/java/com/alstjrzzz/srr/dto/reservation/CreateReservationRequestDTO.java:15-38 | every constraint of the body, with the student number inside Java's Integer range; FormStudentIdBinds and PhoneAcceptedIffFormAccepts relate it to the form |
| Requests.NotBlankIff | backend/seminar-room-reservation-server/src/main/java/com/alstjrzzz/srr/dto/reservation/CreateReservationRequestDTO.java:18-19 | a value is not blank exactly when it holds a non-space character |
| Requests.ToDomain | backend/seminar-room-reservation-server/src/main/java/com/alstjrzzz/srr/controller/ReservationController.java:35-46 | the domain reservation has no id and no creation time, copies every other field of the accepted body, and its student number fits a Java Integer |
| Requests.PhoneAcceptedIffFormAccepts | backend/seminar-room-reservation-server/src/main/java/com/alstjrzzz/srr/dto/reservation/CreateReservationRequestDTO.java:27-29 | the backend accepts a phone number exactly when the form does |
| Requests.FormStudentIdBinds | backend/seminar-room-reservation-server/src/main/java/com/alstjrzzz/srr/dto/reservation/CreateReservationRequestDTO.java:24-25 | the student number the dialog sends binds to an Integer exactly when the digits typed denote at most 2^31 - 1: always for up to nine digits, never for eleven or more without a leading zero |
| Requests.DigitsBind | backend/seminar-room-reservation-server/src/main/java/com/alstjrzzz/srr/dto/reservation/CreateReservationRequestDTO.java:24-25 | up to nine digits fit an Integer, eleven or more without a leading zero do not |
| Requests.LongStudentIdPassesForm | frontend/seminar-room-reservation-frontend/components/reservation-dialog.tsx:21 | the form sets no upper bound, so a student number too large for an Integer passes it and is then refused |
| Requests.BlankNicknamePassesForm | backend/seminar-room-reservation-server/src/main/java/com/alstjrzzz/srr/dto/reservation/CreateReservationRequestDTO.java:18-19 | a two-space nickname passes the form and is refused as blank by the backend |
| Entities.FromRoom | backend/seminar-room-reservation-server/src/main/java/com/alstjrzzz/srr/entity/RoomEntity.java:60-74 | the entity carries each of the room's ten fields unchanged |
| Entities.ToRoom | backend/seminar-room-reservation-server/src/main/java/com/alstjrzzz/srr/entity/RoomEntity.java:76-90 | the room carries each of the entity's ten fields unchanged |
| Entities.RoomRoundTrip | backend/seminar-room-reservation-server/src/main/java/com/alstjrzzz/srr/entity/RoomEntity.java:60-90 | the two room mappings are inverse to each other |
| Entities.UpdateDetails | backend/seminar-room-reservation-server/src/main/java/com/alstjrzzz/srr/entity/RoomEntity.java:97-105 | the six details take the given values and nothing else changes |
| Entities.UpdateImages | backend/seminar-room-reservation-server/src/main/java/com/alstjrzzz/srr/entity/RoomEntity.java:92-95 | only the image list changes |
| Entities.UpdatesCommute | backend/seminar-room-reservation-server/src/main/java/com/alstjrzzz/srr/entity/RoomEntity.java:92-105 | the two updates touch disjoint fields and so commute |
| Entities.From | backend/seminar-room-reservation-server/src/main/java/com/alstjrzzz/srr/entity/ReservationEntity.java:59-73 | the entity copies the reservation's fields and links the given room |
| Entities.ToReservation | backend/seminar-room-reservation-server/src/main/java/com/alstjrzzz/srr/entity/ReservationEntity.java:75-89 | the room link becomes the room's id, and linking back gives the entity again |
| Entities.ReservationRoundTrip | backend/seminar-room-reservation-server/src/main/java/com/alstjrzzz/srr/entity/ReservationEntity.java:59-89 | a reservation read back is unchanged exactly when it was linked to the room it names |
| Repository.FindConflicting | backend/seminar-room-reservation-server/src/main/java/com/alstjrzzz/srr/repository/ReservationRepository.java:23-30 | exactly the stored reservations of the room that start before the requested end and end after the requested start |
| Repository.ConflictIsOverlap | backend/seminar-room-reservation-server/src/main/java/com/alstjrzzz/srr/repository/ReservationRepository.java:23-30 | the conflict test is the symmetric overlap relation of two intervals in one room |
| Repository.TouchingNeverConflicts | backend/seminar-room-reservation-server/src/main/java/com/alstjrzzz/srr/repository/ReservationRepository.java:26-27 | intervals that only touch at an end do not conflict |
| Repository.FindByRoomAndDateRange | backend/seminar-room-reservation-server/src/main/java/com/alstjrzzz/srr/repository/ReservationRepository.java:15-21 | exactly the room's stored reservations whose start lies in the range |
| Repository.DateRangeInclusive | backend/seminar-room-reservation-server/src/main/java/com/alstjrzzz/srr/repository/ReservationRepository.java:18 | both ends of the BETWEEN range are included |
| Repository.RemovalKeepsInvariants | backend/seminar-room-reservation-server/src/main/java/com/alstjrzzz/srr/service/ReservationService.java:82 | removing reservations keeps the schema guarantees and keeps rooms free of overlaps |
| Time.StartOfDay | backend/seminar-room-reservation-server/src/main/java/com/alstjrzzz/srr/service/ReservationService.java:91 | midnight of the instant's day: on the same day, at or before the instant, less than a day earlier |
| Reservations.BadTime | backend/seminar-room-reservation-server/src/main/java/com/alstjrzzz/srr/service/ReservationService.java:33-37 | the five time rejections; TimeWindow states the window they leave |
| Reservations.TimeWindow | backend/seminar-room-reservation-server/src/main/java/com/alstjrzzz/srr/service/ReservationService.java:29-40 | the time check lets through exactly the intervals that start at most an hour ago, end no earlier than now and stay within seven days, with start no later than end |
| Reservations.Available | backend/seminar-room-reservation-server/src/main/java/com/alstjrzzz/srr/service/ReservationService.java:106-109 | no stored reservation conflicts; ReserveKeepsNoOverlap relies on it |
| Reservations.Stored | backend/seminar-room-reservation-server/src/main/java/com/alstjrzzz/srr/service/ReservationService.java:49 | the saved row reads back as the request under its new id |
| Reservations.Reserve | backend/seminar-room-reservation-server/src/main/java/com/alstjrzzz/srr/service/ReservationService.java:26-50 | succeeds exactly for a good time, a free slot and an existing room; each failure (bad time, then overlap, then missing room id, then unknown room) happens exactly under its own condition in that order; on success adds one row under a fresh id and changes nothing else |
| Reservations.ReserveKeepsNoOverlap | backend/seminar-room-reservation-server/src/main/java/com/alstjrzzz/srr/service/ReservationService.java:42-49 | a successful booking keeps the store valid and never creates two overlapping reservations in one room |
| Reservations.Cancel | backend/seminar-room-reservation-server/src/main/java/com/alstjrzzz/srr/service/ReservationService.java:52-74 | an unknown id and wrong credentials are refused; a success removes exactly that reservation |
| Reservations.CancelInValidStore | backend/seminar-room-reservation-server/src/main/java/com/alstjrzzz/srr/service/ReservationService.java:52-74 | in a valid store a cancellation succeeds exactly when the credentials match, and it keeps the invariants |
| Reservations.Delete | backend/seminar-room-reservation-server/src/main/java/com/alstjrzzz/srr/service/ReservationService.java:76-83 | an unknown id is refused; otherwise exactly that reservation goes and the rest stay |
| Reservations.DeleteAgreesWithCancel | backend/seminar-room-reservation-server/src/main/java/com/alstjrzzz/srr/service/ReservationService.java:76-83 | a deletion keeps the invariants, and gives the same store as a successful cancellation |
| Reservations.FindForNextWeek | backend/seminar-room-reservation-server/src/main/java/com/alstjrzzz/srr/service/ReservationService.java:85-98 | an unknown room is refused; otherwise exactly the room's reservations starting from midnight today to seven days later |
| Reservations.BookedTodayIsListed | backend/seminar-room-reservation-server/src/main/java/com/alstjrzzz/srr/service/ReservationService.java:85-98 | a booking just accepted is listed by the weekly lookup of its room exactly when it starts between midnight today and midnight seven days later |
| Rooms.CreateRoom | backend/seminar-room-reservation-server/src/main/java/com/alstjrzzz/srr/service/RoomService.java:22-43 | one new room under a fresh id with the given details, created and modified at `now`, and the uploaded URLs as images, an empty list when there are no files; nothing else changes; the invariants, including that every room has an image list, are kept |
| Rooms.UpdateRoom | backend/seminar-room-reservation-server/src/main/java/com/alstjrzzz/srr/service/RoomService.java:46-64 | a null or unknown id is refused; otherwise that room takes the six given details (name, location, capacity, equipment, description, availability), keeps its id, images and creation time, and no other room or reservation changes; when a detail changed its modification time becomes `now` (RoomEntity.java:56-58), and when none did the store is left exactly as it was |
| Rooms.UpdateRoomIdempotent | backend/seminar-room-reservation-server/src/main/java/com/alstjrzzz/srr/service/RoomService.java:46-64 | repeating an update at any later time gives the store the first update gave, modification time included |
| Rooms.UpdateKeepsInvariants | backend/seminar-room-reservation-server/src/main/java/com/alstjrzzz/srr/service/RoomService.java:46-64 | an update keeps the store's invariants |
| Rooms.DeleteRoom | backend/seminar-room-reservation-server/src/main/java/com/alstjrzzz/srr/service/RoomService.java:67-76 | an unknown room is refused; otherwise the room goes and, by the cascade, exactly its reservations go with it |
| Rooms.DeleteRoomKeepsInvariants | backend/seminar-room-reservation-server/src/main/java/com/alstjrzzz/srr/entity/ReservationEntity.java:29-32 | thanks to the cascade no reservation is left without its room |
| Rooms.GetAllRooms | backend/seminar-room-reservation-server/src/main/java/com/alstjrzzz/srr/service/RoomService.java:78-83 | every stored room is listed, and every listed room is a stored one; in a store where every room has an image list (which the room operations keep, and the booking operations leave rooms alone), every listed room carries a list, never none |
| RoomController.GetRooms | backend/seminar-room-reservation-server/src/main/java/com/alstjrzzz/srr/controller/RoomController.java:25-53 | one response per available room, in the service's order |
| RoomController.ListedIffAvailable | backend/seminar-room-reservation-server/src/main/java/com/alstjrzzz/srr/controller/RoomController.java:31-35 | a room is listed exactly when it is available, and the listing keeps the input order |
| Uploads.LastIndexOf | backend/seminar-room-reservation-server/src/main/java/com/alstjrzzz/srr/service/S3Service.java:94 | absent exactly when the character does not occur; otherwise its last position |
| Uploads.GetFileExtension | backend/seminar-room-reservation-server/src/main/java/com/alstjrzzz/srr/service/S3Service.java:88-95 | empty for a missing name or a name without a dot; otherwise the suffix from the last dot |
| Uploads.ExtensionIsUnique | backend/seminar-room-reservation-server/src/main/java/com/alstjrzzz/srr/service/S3Service.java:88-95 | the extension is the only suffix that starts with a dot and holds no other |
| Uploads.ExtensionExample | backend/seminar-room-reservation-server/src/main/java/com/alstjrzzz/srr/service/S3Service.java:88-95 | "a.tar.gz" gives ".gz" and "README" gives "" |
| Uploads.UploadedPositions | backend/seminar-room-reservation-server/src/main/java/com/alstjrzzz/srr/service/S3Service.java:33-39 | only positions of present, non-empty files are uploaded |
| Uploads.PositionsOrderedAndComplete | backend/seminar-room-reservation-server/src/main/java/com/alstjrzzz/srr/service/S3Service.java:33-39 | the uploaded positions ascend and include every present, non-empty file |
| Uploads.SkippedFileLeavesGap | backend/seminar-room-reservation-server/src/main/java/com/alstjrzzz/srr/service/S3Service.java:37-41 | after a missing first file the second one keeps position 1 |
| Uploads.UploadFiles | backend/seminar-room-reservation-server/src/main/java/com/alstjrzzz/srr/service/S3Service.java:25-58 | no list when the file list is missing or empty; otherwise one URL per uploaded file, in order, keyed by its position in the whole list |
| Uploads.KeysDistinct | backend/seminar-room-reservation-server/src/main/java/com/alstjrzzz/srr/service/S3Service.java:41 | files at different positions get different keys, whatever their extensions |
| Logs.KeysAreUpper | backend/seminar-room-reservation-server/src/main/java/com/alstjrzzz/srr/service/LogService.java:83 | the six keys are non-empty and upper-case |
| Logs.CloseAt | backend/seminar-room-reservation-server/src/main/java/com/alstjrzzz/srr/service/LogService.java:83 | the lazy group ends at the first ']' and never crosses a line terminator |
| Logs.KeyAt | backend/seminar-room-reservation-server/src/main/java/com/alstjrzzz/srr/service/LogService.java:83 | a key found is one of the alternatives and its opening starts the text |
| Logs.MatchAt | backend/seminar-room-reservation-server/src/main/java/com/alstjrzzz/srr/service/LogService.java:83-88 | a match consumes something, names one of the six keys and captures a clean value |
| Logs.Scan | backend/seminar-room-reservation-server/src/main/java/com/alstjrzzz/srr/service/LogService.java:86-91 | each entry either was there before or is one of the six keys with a clean value |
| Logs.ConvertLogToMap | backend/seminar-room-reservation-server/src/main/java/com/alstjrzzz/srr/service/LogService.java:79-94 | only the six keys occur, each with a clean value |
| Logs.ScanPlain | backend/seminar-room-reservation-server/src/main/java/com/alstjrzzz/srr/service/LogService.java:86-91 | text without '[' yields no match |
| Logs.NoKeyWithoutBracket | backend/seminar-room-reservation-server/src/main/java/com/alstjrzzz/srr/service/LogService.java:83 | no match can start at a character other than '[' |
| Logs.OpeningsDistinct | backend/seminar-room-reservation-server/src/main/java/com/alstjrzzz/srr/service/LogService.java:83 | two keys' openings never both start the same text, so the order of the alternatives does not matter |
| Logs.KeyAtFinds | backend/seminar-room-reservation-server/src/main/java/com/alstjrzzz/srr/service/LogService.java:83 | a field's key is found whichever alternative it is |
| Logs.MatchField | backend/seminar-room-reservation-server/src/main/java/com/alstjrzzz/srr/service/LogService.java:83-88 | a field [KEY][value] matches with its key and its whole value |
| Logs.ScanField | backend/seminar-room-reservation-server/src/main/java/com/alstjrzzz/srr/service/LogService.java:86-91 | a field records its value and the scan goes on after it |
| Logs.FormatLine | backend/seminar-room-reservation-server/src/main/java/com/alstjrzzz/srr/log/LogAspect.java:64 | the six fields of a request log line, separated by a comma and a space; FormatLineRoundTrip reads it back |
| Logs.ScanSkipsPrefix | backend/seminar-room-reservation-server/src/main/java/com/alstjrzzz/srr/service/LogService.java:86-91 | text in which no field can open, such as a bracketed thread name, adds nothing to the map, whatever follows it |
| Logs.ThreadPrefix | backend/seminar-room-reservation-server/src/main/java/com/alstjrzzz/srr/service/LogService.java:83 | a thread name in brackets that holds some character other than an upper-case letter cannot open a field |
| Logs.FormatLineRoundTrip | backend/seminar-room-reservation-server/src/main/java/com/alstjrzzz/srr/log/LogAspect.java:64-70 | parsing a written log line gives back exactly the six values written |
| Logs.LaterFieldWins | backend/seminar-room-reservation-server/src/main/java/com/alstjrzzz/srr/service/LogService.java:90 | a key that occurs twice keeps its later value |
| Logs.ParameterCutAtBracket | backend/seminar-room-reservation-server/src/main/java/com/alstjrzzz/srr/service/LogService.java:83 | a parameter holding ']' is read back only up to that bracket |
| Logs.RouteSheet | backend/seminar-room-reservation-server/src/main/java/com/alstjrzzz/srr/service/LogService.java:49-69 | no sheet for a missing or empty URI; otherwise the first of access, log, reservation, room that the URI contains, or none |
| Logs.AccessEndpointRoute | backend/seminar-room-reservation-server/src/main/java/com/alstjrzzz/srr/service/LogService.java:61-62 | the admin access endpoint lands on the access sheet |
| Logs.LogEndpointRoute | backend/seminar-room-reservation-server/src/main/java/com/alstjrzzz/srr/service/LogService.java:63-64 | the log download endpoint lands on the log sheet |
| Logs.ReservationRoute | backend/seminar-room-reservation-server/src/main/java/com/alstjrzzz/srr/service/LogService.java:61-66 | a URI naming reservation after a prefix that cannot hold access or log lands on the reservation sheet |
| Logs.BookingEndpointRoute | backend/seminar-room-reservation-server/src/main/java/com/alstjrzzz/srr/service/LogService.java:65-66 | the student's and the administrator's booking endpoints land on the reservation sheet |
| Logs.RoomEndpointRoute | backend/seminar-room-reservation-server/src/main/java/com/alstjrzzz/srr/service/LogService.java:67-68 | the admin room endpoints land on the room sheet |
| Logs.LoggedLineRow | backend/seminar-room-reservation-server/src/main/java/com/alstjrzzz/srr/service/LogService.java:45-69 | a line written for a request lands on the sheet its URI selects, with the row timestamp, IP, method, response and parameter exactly as logged |
| Logs.RowsFor | backend/seminar-room-reservation-server/src/main/java/com/alstjrzzz/srr/service/LogService.java:43-70 | a sheet gets at most one five-cell row per line |
| Logs.CreateLogSheets | backend/seminar-room-reservation-server/src/main/java/com/alstjrzzz/srr/service/LogService.java:43-70 | the four sheets each receive, in line order, the rows of exactly the lines routed to them |
| Logs.RowsPartition | backend/seminar-room-reservation-server/src/main/java/com/alstjrzzz/srr/service/LogService.java:61-69 | each line lands on at most one sheet, so all sheets together hold no more rows than there are lines |
| Logs.NoUriNoRow | backend/seminar-room-reservation-server/src/main/java/com/alstjrzzz/srr/service/LogService.java:47-51 | a line without a URI adds no row anywhere |

## Left out

- Rendering, styling, toasts, loading states and dialogs of the React
  components are left out: they decide nothing the model states.
- Network calls are left out: `fetch`, the Next.js API proxy routes, and the
  backend controllers' HTTP mapping other than `RoomController.getRooms` and
  the request validation.
- Administrator authentication (`AdminService`, the access modal, the stored
  flag) is not part of this model.
- Time zones and daylight saving are not modelled: one local time line is
  assumed. The dialog sends UTC instants built from local labels, and the
  model reads them on the same line.
- Reservations.Reserve: the `@CreatedDate` stamp of a new reservation is
  not modelled; the stored record keeps the request's absent creation time.
  No service reads it. The room timestamps are modelled, with `now` as the
  auditing clock.
- Rooms.CreateRoom: the insert and the flush of the image list happen in one
  transaction and are stamped with one `now`, so a modification time later
  than the creation time within that transaction is not modelled.
- Object storage calls (`putObject`, `getUrl`, `deleteFolder`) are not
  modelled: the URL of a key is the parameter `urlOf`, and the folder
  deletion is commented out in the services. The I/O failure path of
  `uploadFiles` is left out.
- The spreadsheet itself is not modelled: Apache POI, the read-me sheet,
  gzip-compressed log files and the reading of log files from disk.
  `CreateLogSheets` takes the lines as a list, as `Files.lines` gives them.
- The response bodies and status codes that `GlobalExceptionHandler` builds
  from the service errors are not modelled.
- Reservations.Reserve: requires the reservation to have no id, because the
  controller never sets one. A caller passing an id would make `save` update
  or insert that row, which the model does not cover.
- Reservations.Reserve: a missing room id is modelled as the error `NullId`,
  standing for Spring's refusal to look up a null id. The overlap query with
  a null room id matches nothing, so this check comes after it.
- Repository.FindConflicting: returns a set of ids, and
  Repository.FindByRoomAndDateRange and Rooms.GetAllRooms return sets of
  records, because the two queries and `findAll` have no ORDER BY. The
  order of the Java lists is not stated.
- Reservations.BookedTodayIsListed: states when a new booking is listed,
  which is not always. The backend accepts starts from an hour before now
  to seven days after now, but the lookup runs from midnight today to
  midnight seven days later. A booking made just after midnight for the
  previous hour, or late in the day for the last allowed hours, is
  accepted but not listed. The calendar offers only blocks from 08:00 on
  the days today to today+6, so every booking it makes starts inside the
  lookup.
- Reservations.Reserve and Reservations.ReserveKeepsNoOverlap: calls are
  modelled one after another, each as one atomic step. The service checks
  for a conflict and then inserts, with no lock and no database constraint
  against overlaps, so two concurrent bookings of the same slot can both
  pass the check. The model does not cover that interleaving.
- Reservations.Cancel: takes the student number as a mathematical
  integer. In the service it is a Java `Integer`, and a cancellation body
  with a larger number is refused when it is bound, before the service
  runs.
- Dialog.SubmitFields: states that the request carries the exact decimal
  value of the digits typed. The browser's `parseInt` gives a double, which
  is exact for every value up to 2^53; a larger value is sent as the
  nearest double instead. Any value above 2^53 is already
  above 2^31 - 1 and stays above it after rounding, so the backend refuses
  it either way (Requests.FormStudentIdBinds).
- Dialog.FormValid: counts the characters of a string as code points,
  whereas zod's `min` counts UTF-16 code units. A character outside the
  Basic Multilingual Plane, such as an emoji, counts once here and twice in
  the browser, so a one-emoji nickname is refused here and accepted there.
  Strings are sequences of code points throughout this model, and UTF-16
  encoding is not modelled.
- Admin.SearchMatches: folds only the ASCII letters A to Z to lower case,
  whereas JavaScript's `toLowerCase` folds all of Unicode. A search for "é"
  finds the nickname "É" in the browser and not in the model. The Unicode
  case tables are not part of this model.
- Admin.SearchIgnoresCase: stated for ASCII case only, as Admin.SearchMatches
  folds only ASCII letters. It speaks of the nickname; the room name and the
  purpose are searched in the same way.
- Admin.FilterReservations: its search folds ASCII case only, as
  Admin.SearchMatches does.
- Admin.StatusOf: "in progress" is modelled as the closed interval
  start ≤ now ≤ end. For an interval with end before start, `date-fns`
  throws or returns false depending on its version, and the backend never
  stores one.
- Admin.SortByStart: states that the result is sorted and is a permutation
  of the input. It does not state the stability of JavaScript's sort.
- Admin.CountsBounded: bounds the today counter by the today tab rather
  than equating them. The counter looks at the start only, while the tab
  also admits bookings that end today.
- Calendar.NavigateDate: Next checks only the upper bound and Prev only the
  lower one, as the code does. The model states that an enabled date stays
  enabled, not that every date reachable this way is enabled.
- Logs.FormatLineRoundTrip: requires that no field can open in the text
  before the first field (Logs.OpensNoField). Spring Boot's default layouts
  put the thread name in brackets there, which is fine unless the name
  consists of upper-case letters only. It also requires every value to
  hold no ']' and no line terminator: otherwise the pattern's lazy group
  stops early, as Logs.ParameterCutAtBracket shows for parameters that
  contain JSON arrays.
- Slots.HoursDifferenceOfLabels: `getHoursDifference` is not called by the
  components modelled here, so it is stated only for well-formed labels and
  for the catalog's blocks.
- Dialog.FormattedPhoneValid: the field's `maxLength` of 13 characters is
  not modelled, because the formatter itself already cuts the input to
  eleven digits.
