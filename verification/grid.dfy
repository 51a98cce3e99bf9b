/** The time-block grid of one room and one day
    (components/time-block-grid.tsx): which blocks are occupied, which may be
    clicked, how clicks change the selection, and the values derived from the
    selection (hours, the 4-hour flag, the occupied blocks, validity) that
    drive the reserve button. A pick is identified by its position in the
    catalog; the source compares blocks by `time`, which is the same thing
    because catalog times are distinct (`Slots.CatalogOrder`). */
module Grid {
  import opened Base
  import opened Text
  import opened Slots

  const HourLimit: nat := 4

  type Hour = h: nat | h < 24
  type Minute = m: nat | m < 60

  /** What the grid reads from the wall clock: today's day number and the
      current hour and minute. */
  datatype Clock = Clock(today: int, hour: Hour, minute: Minute)

  /** A reservation occupies a block when it is on the shown date and the
      block's time lies in `[startTime, endTime)`, compared as strings. */
  predicate Occupies(r: Reservation, date: int, time: string) {
    r.date == date && StrLe(r.startTime, time) && StrLt(time, r.endTime)
  }

  /** `isBlockReserved`. */
  predicate IsBlockReserved(i: BlockIndex, date: int, rs: seq<Reservation>) {
    exists k :: 0 <= k < |rs| && Occupies(rs[k], date, BlockTime(i))
  }

  /** A block reserved by some reservation other than the first is
      reserved by the rest of the list. */
  lemma ReservedInTail(i: BlockIndex, date: int, rs: seq<Reservation>)
    requires |rs| > 0 && !Occupies(rs[0], date, BlockTime(i))
    ensures IsBlockReserved(i, date, rs) <==> IsBlockReserved(i, date, rs[1..])
  {
    if IsBlockReserved(i, date, rs) {
      var k :| 0 <= k < |rs| && Occupies(rs[k], date, BlockTime(i));
      assert rs[1..][k - 1] == rs[k];
    }
    if IsBlockReserved(i, date, rs[1..]) {
      var k :| 0 <= k < |rs[1..]| && Occupies(rs[1..][k], date, BlockTime(i));
      assert rs[k + 1] == rs[1..][k];
    }
  }

  /** `getReservationForBlock`: the first reservation occupying the block,
      found exactly when the block is reserved. */
  function ReservationForBlock(i: BlockIndex, date: int, rs: seq<Reservation>): (r: Option<Reservation>)
    ensures r.Some? <==> IsBlockReserved(i, date, rs)
    ensures r.Some? ==> r.value in rs && Occupies(r.value, date, BlockTime(i))
    ensures r.Some? ==> exists k :: 0 <= k < |rs| && rs[k] == r.value &&
                          forall j :: 0 <= j < k ==> !Occupies(rs[j], date, BlockTime(i))
  {
    if |rs| == 0 then None
    else if Occupies(rs[0], date, BlockTime(i)) then Some(rs[0])
    else
      ReservedInTail(i, date, rs);
      ReservationForBlock(i, date, rs[1..])
  }

  /** On labels of the form `HH:MM` the string test is the half-open
      interval test on minutes of the day, so a reservation that ends where
      a block starts does not occupy it. */
  lemma OccupiesIsHalfOpen(r: Reservation, date: int, i: BlockIndex,
                           sh: nat, sm: Minute, eh: nat, em: Minute)
    requires sh <= 24 && eh <= 24
    requires r.startTime == ClockLabel(sh, sm) && r.endTime == ClockLabel(eh, em)
    ensures Occupies(r, date, BlockTime(i)) <==>
            r.date == date && sh * 60 + sm <= (OpeningHour + i) * 60 < eh * 60 + em
  {
    ClockLabelOrder(OpeningHour + i, 0, sh, sm);
    ClockLabelOrder(OpeningHour + i, 0, eh, em);
  }

  /** `getBlockEndTime`: the next block's time, or 24:00 after the last. */
  function BlockEndTime(i: BlockIndex): (r: string)
    ensures r == ClockLabel(OpeningHour + i + 1, 0)
  {
    EndOfDayLabel();
    if i + 1 < BlockCount then BlockTime(i + 1) else EndOfDay
  }

  /** `hours < other` when `hours` may be `NaN` (then false). */
  predicate NumLt(a: Option<int>, b: int) {
    a.Some? && a.value < b
  }

  /** The end-of-block test of `isBlockInPast` on the parsed end time: an
      end of 24 never passes; otherwise the end hour is before the current
      hour, or equal to it with the end minute at or before the current
      minute. */
  predicate EndHasPassed(end: (Option<int>, Option<int>), clock: Clock) {
    if end.0 == Some(24) then false
    else NumLt(end.0, clock.hour)
         || (end.0 == Some(clock.hour) && end.1.Some? && end.1.value <= clock.minute)
  }

  /** `isBlockInPast`: only blocks of today can be past. */
  predicate IsBlockInPast(i: BlockIndex, date: int, clock: Clock) {
    date == clock.today && EndHasPassed(ClockParts(BlockEndTime(i)), clock)
  }

  /** A block is past exactly when it is today, is not the last block, and
      its end minute of the day is at or before the current one. */
  lemma PastIsElapsed(i: BlockIndex, date: int, clock: Clock)
    ensures IsBlockInPast(i, date, clock) <==>
            date == clock.today && i + 1 < BlockCount
            && (OpeningHour + i + 1) * 60 <= clock.hour * 60 + clock.minute
  {
    ClockPartsOfLabel(OpeningHour + i + 1, 0);
    EndHourPassed(OpeningHour + i + 1, clock);
  }

  lemma EndHourPassed(endHour: int, clock: Clock)
    ensures EndHasPassed((Some(endHour), Some(0)), clock) <==>
            endHour != 24 && endHour * 60 <= clock.hour * 60 + clock.minute
  {
  }

  /** At 14:30 today the 13:00 block has ended and the 14:00 block has not. */
  lemma PastExample(today: int)
    ensures IsBlockInPast(5, today, Clock(today, 14, 30))
    ensures !IsBlockInPast(6, today, Clock(today, 14, 30))
  {
    PastIsElapsed(5, today, Clock(today, 14, 30));
    PastIsElapsed(6, today, Clock(today, 14, 30));
  }

  /** `isBlockBeforeStartTime`: today and the block's hour is before 08. */
  predicate IsBlockBeforeStartTime(i: BlockIndex, date: int, clock: Clock) {
    date == clock.today && NumLt(ClockParts(BlockTime(i)).0, OpeningHour)
  }

  /** The catalog starts at the opening hour, so the before-opening rule
      never disables a catalog block. */
  lemma NeverBeforeStartTime(i: BlockIndex, date: int, clock: Clock)
    ensures !IsBlockBeforeStartTime(i, date, clock)
  {
    ClockPartsOfLabel(OpeningHour + i, 0);
  }

  /** The inputs every derived value of the grid depends on. */
  datatype Context = Context(date: int, clock: Clock, reservations: seq<Reservation>)

  /** A block cannot be clicked when it is reserved, past or before opening. */
  predicate IsDisabled(i: BlockIndex, ctx: Context) {
    || IsBlockReserved(i, ctx.date, ctx.reservations)
    || IsBlockInPast(i, ctx.date, ctx.clock)
    || IsBlockBeforeStartTime(i, ctx.date, ctx.clock)
  }

  /** The picked blocks, in click order. */
  datatype Selection = Selection(picks: seq<BlockIndex>)

  const Empty := Selection([])

  /** The states the grid can reach: at most two distinct picks. */
  predicate WellFormed(sel: Selection) {
    |sel.picks| <= 2 && (|sel.picks| == 2 ==> sel.picks[0] != sel.picks[1])
  }

  /** `selectedBlocks.filter(b => b.time !== block.time)`. */
  function Remove(picks: seq<BlockIndex>, i: BlockIndex): (r: seq<BlockIndex>)
    ensures i !in r
    ensures forall j :: j != i ==> (j in r <==> j in picks)
    ensures |r| <= |picks|
    ensures i in picks ==> |r| < |picks|
  {
    if |picks| == 0 then []
    else if picks[0] == i then Remove(picks[1..], i)
    else [picks[0]] + Remove(picks[1..], i)
  }

  /** `handleTimeBlockClick` behind the `!isDisabled` guard of the block's
      `onClick`. `selectionComplete` is recomputed from the picks after every
      change, so it is `|picks| >= 2`. */
  function Click(sel: Selection, i: BlockIndex, ctx: Context): (r: Selection)
    ensures IsDisabled(i, ctx) ==> r == sel
    ensures !IsDisabled(i, ctx) && |sel.picks| >= 2 ==> r.picks == [i]
    ensures !IsDisabled(i, ctx) ==> (i in r.picks <==> |sel.picks| >= 2 || i !in sel.picks)
    ensures !IsDisabled(i, ctx) && |sel.picks| < 2 ==>
              forall j :: j != i ==> (j in r.picks <==> j in sel.picks)
    ensures WellFormed(sel) ==> WellFormed(r)
  {
    if IsDisabled(i, ctx) then sel
    else if |sel.picks| >= 2 then Selection([i])
    else if i in sel.picks then Selection(Remove(sel.picks, i))
    else Selection(sel.picks + [i])
  }

  /** Picking the same enabled block twice from nothing leaves nothing. */
  lemma DeselectExample(i: BlockIndex, ctx: Context)
    requires !IsDisabled(i, ctx)
    ensures Click(Click(Empty, i, ctx), i, ctx) == Empty
  {
    assert Click(Empty, i, ctx).picks == [i];
    assert Remove([i], i) == Remove([i][1..], i);
  }

  /** The values the grid derives from its picks. */
  datatype View = View(
    isSelectionValid: bool,
    exceededTimeLimit: bool,
    selectedHours: nat,
    startBlock: Option<BlockIndex>,
    endBlock: Option<BlockIndex>,
    selectionComplete: bool,
    overlappingBlocks: seq<string>)

  function Min(a: BlockIndex, b: BlockIndex): BlockIndex { if a <= b then a else b }
  function Max(a: BlockIndex, b: BlockIndex): BlockIndex { if a <= b then b else a }

  /** The reserved blocks among `k..e`, in catalog order, for a given
      reservation test. */
  function ReservedFrom(k: nat, e: BlockIndex, reserved: BlockIndex -> bool): (r: seq<BlockIndex>)
    requires k <= e + 1
    ensures forall j :: 0 <= j < |r| ==> k <= r[j] <= e && reserved(r[j])
    ensures forall b: BlockIndex :: k <= b <= e && reserved(b) ==> b in r
    ensures forall j1, j2 :: 0 <= j1 < j2 < |r| ==> r[j1] < r[j2]
    decreases e + 1 - k
  {
    if k > e then []
    else
      var rest := ReservedFrom(k + 1, e, reserved);
      if reserved(k) then [k as BlockIndex] + rest else rest
  }

  /** `isBlockReserved` for one date and one list of reservations. */
  function ReservedOn(date: int, rs: seq<Reservation>): BlockIndex -> bool {
    (b: BlockIndex) => IsBlockReserved(b, date, rs)
  }

  /** The times of the given blocks. */
  function Times(bs: seq<BlockIndex>): (r: seq<string>)
    ensures |r| == |bs| && forall j :: 0 <= j < |bs| ==> r[j] == BlockTime(bs[j])
  {
    if |bs| == 0 then [] else [BlockTime(bs[0])] + Times(bs[1..])
  }

  /** Times of blocks in increasing catalog order are in increasing string
      order: the list the source builds is sorted the way it is shown. */
  lemma TimesAscending(bs: seq<BlockIndex>)
    requires forall j1, j2 :: 0 <= j1 < j2 < |bs| ==> bs[j1] < bs[j2]
    ensures forall j1, j2 :: 0 <= j1 < j2 < |bs| ==> StrLt(Times(bs)[j1], Times(bs)[j2])
  {
    forall j1, j2 | 0 <= j1 < j2 < |bs|
      ensures StrLt(Times(bs)[j1], Times(bs)[j2])
    {
      CatalogOrder(bs[j1], bs[j2]);
    }
  }

  /** The selection effect (lines 61-127): nothing picked, one pick (one
      hour, valid unless reserved), or a range from the lower to the higher
      of the first two picks. */
  function Derive(sel: Selection, date: int, rs: seq<Reservation>): View {
    if |sel.picks| == 0 then
      View(false, false, 0, None, None, false, [])
    else if |sel.picks| == 1 then
      var b := sel.picks[0];
      var reserved := IsBlockReserved(b, date, rs);
      View(!reserved, false, 1, Some(b), Some(b), false, if reserved then [BlockTime(b)] else [])
    else
      RangeView(Min(sel.picks[0], sel.picks[1]), Max(sel.picks[0], sel.picks[1]), date, rs)
  }

  /** The view of the range `s..e` once two blocks are picked. */
  function RangeView(s: BlockIndex, e: BlockIndex, date: int, rs: seq<Reservation>): View
    requires s <= e
  {
    var hours := e - s + 1;
    var overlapping := Times(ReservedFrom(s, e, ReservedOn(date, rs)));
    View(|overlapping| == 0, hours > HourLimit, hours, Some(s), Some(e), true, overlapping)
  }

  /** The range view counts both ends, is flagged beyond four hours, and
      is valid exactly when no block inside the range is reserved, which is
      when it lists no overlap. */
  lemma RangeViewFacts(s: BlockIndex, e: BlockIndex, date: int, rs: seq<Reservation>)
    requires s <= e
    ensures var v := RangeView(s, e, date, rs);
            && v.startBlock == Some(s) && v.endBlock == Some(e)
            && v.selectedHours == e - s + 1
            && (v.exceededTimeLimit <==> e - s + 1 > HourLimit)
            && (v.isSelectionValid <==> v.overlappingBlocks == [])
            && (v.isSelectionValid <==> forall k: BlockIndex :: s <= k <= e ==> !IsBlockReserved(k, date, rs))
  {
    var bs := ReservedFrom(s, e, ReservedOn(date, rs));
    assert forall k: BlockIndex :: ReservedOn(date, rs)(k) == IsBlockReserved(k, date, rs);
    var v := RangeView(s, e, date, rs);
    assert |v.overlappingBlocks| == |bs|;
    if !v.isSelectionValid {
      var k := bs[0];
      assert s <= k <= e && IsBlockReserved(k, date, rs);
    }
  }

  /** Every reserved block inside a range is listed among its overlaps. */
  lemma RangeViewListsReserved(s: BlockIndex, e: BlockIndex, date: int, rs: seq<Reservation>)
    requires s <= e
    ensures forall k: BlockIndex :: s <= k <= e && IsBlockReserved(k, date, rs) ==>
              BlockTime(k) in RangeView(s, e, date, rs).overlappingBlocks
  {
    var bs := ReservedFrom(s, e, ReservedOn(date, rs));
    var overlapping := RangeView(s, e, date, rs).overlappingBlocks;
    assert overlapping == Times(bs);
    forall k: BlockIndex | s <= k <= e && IsBlockReserved(k, date, rs)
      ensures BlockTime(k) in overlapping
    {
      assert ReservedOn(date, rs)(k);
      var j :| 0 <= j < |bs| && bs[j] == k;
      assert overlapping[j] == BlockTime(k);
    }
  }

  /** Every overlap listed for a range is the time of a reserved block
      inside it, and the list is in ascending order. */
  lemma RangeViewListsOnlyReserved(s: BlockIndex, e: BlockIndex, date: int, rs: seq<Reservation>)
    requires s <= e
    ensures var overlapping := RangeView(s, e, date, rs).overlappingBlocks;
            && (forall j :: 0 <= j < |overlapping| ==>
                  exists k: BlockIndex :: s <= k <= e && IsBlockReserved(k, date, rs) && overlapping[j] == BlockTime(k))
            && (forall j1, j2 :: 0 <= j1 < j2 < |overlapping| ==> StrLt(overlapping[j1], overlapping[j2]))
  {
    var bs := ReservedFrom(s, e, ReservedOn(date, rs));
    var overlapping := RangeView(s, e, date, rs).overlappingBlocks;
    assert overlapping == Times(bs);
    TimesAscending(bs);
    forall j | 0 <= j < |overlapping|
      ensures exists k: BlockIndex :: s <= k <= e && IsBlockReserved(k, date, rs) && overlapping[j] == BlockTime(k)
    {
      assert ReservedOn(date, rs)(bs[j]);
      assert overlapping[j] == BlockTime(bs[j]);
    }
  }

  /** An empty selection is invalid and exposes no range and no overlaps. */
  lemma DeriveEmpty(date: int, rs: seq<Reservation>)
    ensures var v := Derive(Empty, date, rs);
            !v.isSelectionValid && !v.exceededTimeLimit && v.selectedHours == 0
            && v.startBlock.None? && v.endBlock.None? && v.overlappingBlocks == []
  {
  }

  /** One pick is one hour, never over the limit, and valid exactly when
      the block is not reserved. */
  lemma DeriveSingle(b: BlockIndex, date: int, rs: seq<Reservation>)
    ensures var v := Derive(Selection([b]), date, rs);
            v.selectedHours == 1 && !v.exceededTimeLimit
            && v.startBlock == v.endBlock == Some(b)
            && (v.isSelectionValid <==> !IsBlockReserved(b, date, rs))
            && (v.overlappingBlocks == [] <==> v.isSelectionValid)
  {
  }

  /** Two picks: the range runs from the lower to the higher index whatever
      the click order. */
  lemma DeriveRange(a: BlockIndex, b: BlockIndex, date: int, rs: seq<Reservation>)
    ensures var s := if a <= b then a else b;
            var e := if a <= b then b else a;
            Derive(Selection([a, b]), date, rs) == RangeView(s, e, date, rs)
  {
  }

  /** Click order never matters for a two-block range. */
  lemma DeriveOrderIndependent(a: BlockIndex, b: BlockIndex, date: int, rs: seq<Reservation>)
    ensures Derive(Selection([a, b]), date, rs) == Derive(Selection([b, a]), date, rs)
  {
  }

  /** Clicking two different enabled blocks in either order gives the same
      derived view. */
  lemma ClickOrderIndependent(a: BlockIndex, b: BlockIndex, ctx: Context)
    requires a != b && !IsDisabled(a, ctx) && !IsDisabled(b, ctx)
    ensures Derive(Click(Click(Empty, a, ctx), b, ctx), ctx.date, ctx.reservations)
         == Derive(Click(Click(Empty, b, ctx), a, ctx), ctx.date, ctx.reservations)
  {
    assert Click(Click(Empty, a, ctx), b, ctx).picks == [a, b];
    assert Click(Click(Empty, b, ctx), a, ctx).picks == [b, a];
    DeriveOrderIndependent(a, b, ctx.date, ctx.reservations);
  }

  /** With 10:00-12:00 already booked, picking 10:00 then 11:00 is invalid
      and reports both blocks as occupied. */
  lemma BookedRangeExample(r: Reservation, date: int)
    requires r.date == date && r.startTime == ClockLabel(10, 0) && r.endTime == ClockLabel(12, 0)
    ensures !Derive(Selection([2, 3]), date, [r]).isSelectionValid
    ensures Derive(Selection([2, 3]), date, [r]).overlappingBlocks == [BlockTime(2), BlockTime(3)]
  {
    OccupiesIsHalfOpen(r, date, 2, 10, 0, 12, 0);
    OccupiesIsHalfOpen(r, date, 3, 10, 0, 12, 0);
    assert Occupies([r][0], date, BlockTime(2)) && Occupies([r][0], date, BlockTime(3));
    assert ReservedFrom(4, 3, ReservedOn(date, [r])) == [];
    assert ReservedFrom(3, 3, ReservedOn(date, [r])) == [3];
    assert ReservedFrom(2, 3, ReservedOn(date, [r])) == [2, 3];
    assert Times([2, 3]) == [BlockTime(2), BlockTime(3)];
    assert Derive(Selection([2, 3]), date, [r]) == RangeView(2, 3, date, [r]);
  }

  /** Picking 08:00 and 23:00 spans all sixteen blocks and is over the
      limit. */
  lemma WholeDayExceedsLimit(date: int, rs: seq<Reservation>)
    ensures Derive(Selection([0, 15]), date, rs).selectedHours == 16
    ensures Derive(Selection([0, 15]), date, rs).exceededTimeLimit
  {
  }

  /** The reserve button's `disabled` test, negated. */
  predicate ButtonEnabled(v: View) {
    v.isSelectionValid && !v.exceededTimeLimit && |v.overlappingBlocks| == 0
  }

  /** The button is enabled exactly when something is picked, the range has
      no reserved block and it is at most four hours long. */
  lemma ButtonEnabledIff(sel: Selection, date: int, rs: seq<Reservation>)
    requires WellFormed(sel)
    ensures ButtonEnabled(Derive(sel, date, rs)) <==>
            |sel.picks| >= 1 && Derive(sel, date, rs).selectedHours <= HourLimit
            && forall k: BlockIndex :: Derive(sel, date, rs).startBlock.value <= k <= Derive(sel, date, rs).endBlock.value
                 ==> !IsBlockReserved(k, date, rs)
  {
    if |sel.picks| == 2 {
      assert sel == Selection([sel.picks[0], sel.picks[1]]);
      DeriveRange(sel.picks[0], sel.picks[1], date, rs);
      RangeViewFacts(Min(sel.picks[0], sel.picks[1]), Max(sel.picks[0], sel.picks[1]), date, rs);
    }
  }

  /** The button's caption: overlap first, then the limit. */
  function ButtonCaption(v: View): (r: string)
    ensures r == "예약하기" <==> |v.overlappingBlocks| == 0 && !v.exceededTimeLimit
  {
    if |v.overlappingBlocks| > 0 then "예약 시간이 중복됩니다."
    else if v.exceededTimeLimit then "예약 시간은 4시간을 초과할 수 없습니다."
    else "예약하기"
  }

  datatype ClickOutcome = InvalidSelection | TimeLimitExceeded | OpenDialog

  /** `handleReservationClick`: the invalid-selection message wins over the
      limit message. */
  function ReservationClick(v: View): (r: ClickOutcome)
    ensures r == OpenDialog <==> v.isSelectionValid && !v.exceededTimeLimit
    ensures !v.isSelectionValid ==> r == InvalidSelection
  {
    if !v.isSelectionValid then InvalidSelection
    else if v.exceededTimeLimit then TimeLimitExceeded
    else OpenDialog
  }

  /** On any derived view the dialog opens exactly when the button is
      enabled. */
  lemma ClickAgreesWithButton(sel: Selection, date: int, rs: seq<Reservation>)
    ensures ReservationClick(Derive(sel, date, rs)) == OpenDialog <==> ButtonEnabled(Derive(sel, date, rs))
  {
  }

  /** `isBlockInSelectedRange`. */
  predicate IsBlockInSelectedRange(i: BlockIndex, v: View) {
    v.startBlock.Some? && v.endBlock.Some? && v.startBlock.value <= i <= v.endBlock.value
  }

  /** A block is highlighted exactly when it lies between the two picks (or
      is the single pick). */
  lemma InRangeIffBetweenPicks(i: BlockIndex, sel: Selection, date: int, rs: seq<Reservation>)
    requires WellFormed(sel)
    ensures IsBlockInSelectedRange(i, Derive(sel, date, rs)) <==>
            (|sel.picks| == 1 && i == sel.picks[0])
            || (|sel.picks| == 2 && Min(sel.picks[0], sel.picks[1]) <= i <= Max(sel.picks[0], sel.picks[1]))
  {
  }
}
