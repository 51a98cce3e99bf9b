/** The reservation dialog (components/reservation-dialog.tsx): the form
    rules, the phone formatter applied while typing, and `onSubmit`, which
    turns the picked blocks into a `[start, end)` pair of instants, moving an
    end of 24:00 to 00:00 of the next day. */
module Dialog {
  import opened Base
  import opened Text
  import opened Time
  import opened Slots
  import opened Grid
  import opened Phone

  datatype FormValues = FormValues(
    nickname: string,
    studentName: string,
    studentId: string,
    phoneNumber: string,
    purpose: string)

  /** `formSchema`: minimum lengths, a digits-only student number and the
      phone pattern. */
  predicate FormValid(f: FormValues) {
    && |f.nickname| >= 2
    && |f.studentName| >= 2
    && |f.studentId| >= 6 && AllDigits(f.studentId)
    && FrontPhone(f.phoneNumber)
    && |f.purpose| >= 4
  }

  /** `replace(/[^0-9]/g, '')`. */
  function KeepDigits(s: string): (r: string)
    ensures AllDigits(r) && |r| <= |s|
  {
    if |s| == 0 then ""
    else if IsDigit(s[0]) then [s[0]] + KeepDigits(s[1..])
    else KeepDigits(s[1..])
  }

  lemma {:induction false} KeepDigitsOfDigits(d: string)
    requires AllDigits(d)
    ensures KeepDigits(d) == d
  {
    if |d| > 0 {
      KeepDigitsOfDigits(d[1..]);
    }
  }

  lemma {:induction false} KeepDigitsAppend(a: string, b: string)
    ensures KeepDigits(a + b) == KeepDigits(a) + KeepDigits(b)
  {
    if |a| > 0 {
      assert (a + b)[1..] == a[1..] + b;
      KeepDigitsAppend(a[1..], b);
    } else {
      assert a + b == b;
    }
  }

  /** The layout step of the formatter on the digits typed so far: up to
      three digits as they are, then `ddd-rest`, then `ddd-dddd-dddd`,
      anything past the eleventh digit being dropped. */
  function LayOut(d: string): (r: string)
    requires AllDigits(d)
  {
    if |d| == 0 then ""
    else if |d| <= 3 then d
    else if |d| <= 7 then d[..3] + "-" + d[3..]
    else d[..3] + "-" + d[3..7] + "-" + d[7..if |d| < 11 then |d| else 11]
  }

  /** The phone input's `onChange` formatter. */
  function FormatPhone(s: string): string {
    LayOut(KeepDigits(s))
  }

  lemma DashJoin(a: string, b: string)
    requires AllDigits(a) && AllDigits(b)
    ensures KeepDigits(a + "-" + b) == a + b
  {
    DashDropped(a);
    KeepDigitsAppend(a + "-", b);
    KeepDigitsOfDigits(a);
    KeepDigitsOfDigits(b);
  }

  /** A trailing dash is dropped. */
  lemma DashDropped(a: string)
    ensures KeepDigits(a + "-") == KeepDigits(a)
  {
    KeepDigitsAppend(a, "-");
    assert KeepDigits("-") == "";
    assert KeepDigits(a) + "" == KeepDigits(a);
  }

  /** The digits of a laid-out number are the first eleven typed digits. */
  lemma DigitsOfLayOut(d: string)
    requires AllDigits(d)
    ensures KeepDigits(LayOut(d)) == d[..if |d| < 11 then |d| else 11]
  {
    var n := if |d| < 11 then |d| else 11;
    if |d| == 0 {
    } else if |d| <= 3 {
      KeepDigitsOfDigits(d);
      assert d[..n] == d;
    } else if |d| <= 7 {
      DashJoin(d[..3], d[3..]);
      assert d[..3] + d[3..] == d == d[..n];
    } else {
      DigitsOfFullLayOut(d);
    }
  }

  /** The three-part case of `DigitsOfLayOut`. */
  lemma DigitsOfFullLayOut(d: string)
    requires AllDigits(d) && |d| > 7
    ensures KeepDigits(LayOut(d)) == d[..if |d| < 11 then |d| else 11]
  {
    var n := if |d| < 11 then |d| else 11;
    var a, b, c := d[..3], d[3..7], d[7..n];
    var x := a + "-" + b;
    assert LayOut(d) == x + "-" + c;
    KeepDigitsAppend(x + "-", c);
    DashDropped(x);
    DashJoin(a, b);
    KeepDigitsOfDigits(c);
    assert d[..7] == a + b;
    assert d[..n] == d[..7] + c;
  }

  /** Formatting an already formatted value changes nothing, so re-renders
      of the field are stable. */
  lemma FormatPhoneIdempotent(s: string)
    ensures FormatPhone(FormatPhone(s)) == FormatPhone(s)
  {
    var d := KeepDigits(s);
    DigitsOfLayOut(d);
    var n := if |d| < 11 then |d| else 11;
    if |d| > 3 {
      assert d[..n][..3] == d[..3] && d[..n][3..] == d[3..n];
    }
    if |d| >= 8 {
      assert d[..n][3..7] == d[3..7] && d[..n][7..] == d[7..n];
    }
  }

  /** `ddd-dddd-dddd` matches the pattern exactly when its first part is a
      mobile prefix. */
  lemma FullLayOutMatches(a: string, b: string, c: string)
    requires |a| == 3 && |b| == 4 && |c| == 4 && AllDigits(b) && AllDigits(c)
    ensures BackPhone(a + "-" + b + "-" + c) <==> a in MobilePrefixes
  {
    var r := a + "-" + b + "-" + c;
    assert r[..3] == a && r[3] == '-';
    var t := r[4..];
    assert t == b + "-" + c;
    assert t[..4] == b && t[4] == '-' && t[5..] == c;
  }

  /** `ddd-dddd-d`, `ddd-dddd-dd` and `ddd-dddd-ddd` never match. */
  lemma ShortLayOutFails(a: string, b: string, c: string)
    requires |a| == 3 && |b| == 4 && 1 <= |c| <= 3 && AllDigits(b)
    ensures !BackPhone(a + "-" + b + "-" + c)
  {
    var r := a + "-" + b + "-" + c;
    var t := r[4..];
    assert |t| == 5 + |c|;
    if |t| == 8 {
      assert t[3] == b[3];
    }
  }

  /** A formatted value matches the phone pattern exactly when at least
      eleven digits were typed and the first three are a mobile prefix: the
      formatter never produces the three-digit middle part the pattern also
      allows. */
  lemma FormattedPhoneValid(s: string)
    ensures FrontPhone(FormatPhone(s)) <==>
            |KeepDigits(s)| >= 11 && KeepDigits(s)[..3] in MobilePrefixes
  {
    var d := KeepDigits(s);
    var r := FormatPhone(s);
    SamePattern(r);
    if |d| >= 11 {
      FullLayOutMatches(d[..3], d[3..7], d[7..11]);
    } else if |d| >= 8 {
      ShortLayOutFails(d[..3], d[3..7], d[7..]);
    } else {
      assert |r| <= 8;
    }
  }

  /** `replace(/\s+/g, "")`. */
  function RemoveSpaces(s: string): (r: string)
    ensures forall k :: 0 <= k < |r| ==> !IsJsSpace(r[k])
  {
    if |s| == 0 then ""
    else if IsJsSpace(s[0]) then RemoveSpaces(s[1..])
    else [s[0]] + RemoveSpaces(s[1..])
  }

  lemma {:induction false} RemoveSpacesOfSpaceFree(s: string)
    requires forall k :: 0 <= k < |s| ==> !IsJsSpace(s[k])
    ensures RemoveSpaces(s) == s
  {
    if |s| > 0 {
      RemoveSpacesOfSpaceFree(s[1..]);
    }
  }

  /** A number the form accepts has no white space, so the submitted number
      is the typed one. */
  lemma ValidPhoneUnchanged(s: string)
    requires FrontPhone(s)
    ensures RemoveSpaces(s) == s
  {
    PhoneCharacters(s);
    forall k | 0 <= k < |s|
      ensures !IsJsSpace(s[k])
    {
      if IsDigit(s[k]) { DigitIsNotSpace(s[k]); }
    }
    RemoveSpacesOfSpaceFree(s);
  }

  /** The range the picks cover, by catalog position: the single pick, or
      the lower and higher of the first two. */
  function FirstPicked(picks: seq<BlockIndex>): BlockIndex
    requires |picks| >= 1
  {
    if |picks| == 1 then picks[0] else Min(picks[0], picks[1])
  }

  function LastPicked(picks: seq<BlockIndex>): BlockIndex
    requires |picks| >= 1
  {
    if |picks| == 1 then picks[0] else Max(picks[0], picks[1])
  }

  /** The start and end labels `onSubmit` computes (lines 110-127): the
      first block's time and the time after the last block, 24:00 after the
      last block of the day. */
  function SelectedInterval(picks: seq<BlockIndex>): (r: (string, string))
    requires |picks| >= 1
  {
    (BlockTime(FirstPicked(picks)), BlockEndTime(LastPicked(picks)))
  }

  /** The selected interval's start label sorts before its end label. */
  lemma SelectedIntervalOrdered(picks: seq<BlockIndex>)
    requires |picks| >= 1
    ensures StrLt(SelectedInterval(picks).0, SelectedInterval(picks).1)
  {
    ClockLabelOrder(OpeningHour + FirstPicked(picks), 0, OpeningHour + LastPicked(picks) + 1, 0);
  }

  /** The end label and its day as sent: 24:00 becomes 00:00 of the next
      day; any other end stays on the selected day. */
  function EndForRequest(day: int, endLabel: string): (r: (int, string))
    ensures endLabel == EndOfDay ==> r == (day + 1, ClockLabel(0, 0))
    ensures endLabel != EndOfDay ==> r == (day, endLabel)
  {
    MidnightLabel();
    if endLabel == EndOfDay then (day + 1, "00:00") else (day, endLabel)
  }

  /** `timeToISOString` for the day and an `HH:MM` label; `None` when a part
      is not a number (the invalid date `toISOString` refuses). */
  function TimeToInstant(day: int, t: string): Option<int> {
    var (hours, minutes) := ClockParts(t);
    if hours.Some? && minutes.Some? then Some(At(day, hours.value, minutes.value)) else None
  }

  /** The body posted to the reservation API. */
  datatype ReservationRequest = ReservationRequest(
    roomId: string,
    nickname: string,
    studentName: string,
    studentId: Option<int>,
    phoneNumber: string,
    purpose: string,
    startTime: int,
    endTime: int)

  /** What a submission produces: the request and the labels of the local
      reservation record added on success. */
  datatype Submission = Submission(request: ReservationRequest, date: int, startLabel: string, endLabel: string)

  datatype SubmitError = InvalidForm | NoRoom | NoBlocks | InvalidTime

  /** `handleSubmit(onSubmit)`: the form rules first, then the room and the
      picks (lines 90-105), then the interval (lines 107-147). An absent or
      empty room id counts as no room. */
  function Submit(f: FormValues, roomId: Option<string>, picks: seq<BlockIndex>, day: int): Result<Submission, SubmitError> {
    if !FormValid(f) then Err(InvalidForm)
    else if roomId.None? || roomId.value == "" then Err(NoRoom)
    else if |picks| == 0 then Err(NoBlocks)
    else
      var (startLabel, endLabel) := SelectedInterval(picks);
      var (endDay, endForRequest) := EndForRequest(day, endLabel);
      var startTime := TimeToInstant(day, startLabel);
      var endTime := TimeToInstant(endDay, endForRequest);
      if startTime.None? || endTime.None? then Err(InvalidTime)
      else
        var request := ReservationRequest(roomId.value, f.nickname, f.studentName, ParseInt(f.studentId),
                                          RemoveSpaces(f.phoneNumber), f.purpose, startTime.value, endTime.value);
        Ok(Submission(request, day, startLabel, endLabel))
  }

  /** Submission fails only for the reasons the dialog checks, in its
      order. */
  lemma SubmitErrors(f: FormValues, roomId: Option<string>, picks: seq<BlockIndex>, day: int)
    ensures !FormValid(f) ==> Submit(f, roomId, picks, day) == Err(InvalidForm)
    ensures FormValid(f) && (roomId.None? || roomId.value == "") ==> Submit(f, roomId, picks, day) == Err(NoRoom)
    ensures FormValid(f) && roomId.Some? && roomId.value != "" && |picks| == 0 ==> Submit(f, roomId, picks, day) == Err(NoBlocks)
    ensures FormValid(f) && roomId.Some? && roomId.value != "" && |picks| > 0 ==> Submit(f, roomId, picks, day).Ok?
  {
    if FormValid(f) && roomId.Some? && roomId.value != "" && |picks| > 0 {
      SubmitInterval(f, roomId, picks, day);
    }
  }

  lemma LabelInstant(day: int, hour: nat)
    requires hour < 24
    ensures TimeToInstant(day, ClockLabel(hour, 0)) == Some(At(day, hour, 0))
  {
    ClockPartsOfLabel(hour, 0);
  }

  /** A submission covers exactly the picked hours: it starts at the first
      picked block and ends one hour after the last one, which is midnight
      of the next day after the 23:00 block. Start is therefore strictly
      before end, by whole hours. */
  lemma SubmitInterval(f: FormValues, roomId: Option<string>, picks: seq<BlockIndex>, day: int)
    requires FormValid(f) && roomId.Some? && roomId.value != "" && |picks| > 0
    ensures Submit(f, roomId, picks, day).Ok?
    ensures var q := Submit(f, roomId, picks, day).value.request;
            && q.startTime == At(day, OpeningHour + FirstPicked(picks), 0)
            && q.endTime == At(day, OpeningHour + LastPicked(picks) + 1, 0)
            && q.endTime - q.startTime == (LastPicked(picks) - FirstPicked(picks) + 1) * SecondsPerHour
            && q.startTime < q.endTime
  {
    var s := FirstPicked(picks);
    var e := LastPicked(picks);
    LabelInstant(day, OpeningHour + s);
    EndInstant(day, e);
  }

  /** The instant sent for the end of block `e`. */
  lemma EndInstant(day: int, e: BlockIndex)
    ensures var (endDay, endLabel) := EndForRequest(day, BlockEndTime(e));
            TimeToInstant(endDay, endLabel) == Some(At(day, OpeningHour + e + 1, 0))
  {
    if e + 1 < BlockCount {
      assert BlockEndTime(e) == BlockTime(e + 1);
      HourLabel(OpeningHour + e + 1);
      assert BlockEndTime(e)[..2] == Pad2(OpeningHour + e + 1);
      assert BlockEndTime(e) != EndOfDay;
      LabelInstant(day, OpeningHour + e + 1);
    } else {
      assert BlockEndTime(e) == EndOfDay;
      LabelInstant(day + 1, 0);
    }
  }

  /** The local record of a submission is on the selected day and runs
      from the first picked block's time to the time after the last. */
  lemma SubmitLabels(f: FormValues, roomId: Option<string>, picks: seq<BlockIndex>, day: int)
    requires Submit(f, roomId, picks, day).Ok?
    ensures var sub := Submit(f, roomId, picks, day).value;
            && |picks| > 0
            && sub.date == day
            && sub.startLabel == BlockTime(FirstPicked(picks))
            && sub.endLabel == BlockEndTime(LastPicked(picks))
  {
  }

  /** The request carries the form's fields; the student number is the
      decimal value of the digits typed and the phone number is sent as
      typed. */
  lemma SubmitFields(f: FormValues, roomId: Option<string>, picks: seq<BlockIndex>, day: int)
    requires Submit(f, roomId, picks, day).Ok?
    ensures var q := Submit(f, roomId, picks, day).value.request;
            && q.roomId == roomId.value && q.nickname == f.nickname && q.studentName == f.studentName
            && q.studentId == Some(DecimalValue(f.studentId))
            && q.phoneNumber == f.phoneNumber && q.purpose == f.purpose
  {
    ValidPhoneUnchanged(f.phoneNumber);
    var t := f.studentId;
    assert |t| > 0 && IsDigit(t[0]);
    DigitIsNotSpace(t[0]);
    assert TrimStart(t) == t;
    DigitPrefixOfDigits(t);
  }

  lemma {:induction false} DigitPrefixOfDigits(s: string)
    requires AllDigits(s)
    ensures DigitPrefix(s) == s
  {
    if |s| > 0 {
      DigitPrefixOfDigits(s[1..]);
    }
  }

  /** The order of the two clicks does not change what is submitted. */
  lemma SubmitOrderIndependent(f: FormValues, roomId: Option<string>, a: BlockIndex, b: BlockIndex, day: int)
    ensures Submit(f, roomId, [a, b], day) == Submit(f, roomId, [b, a], day)
  {
    assert FirstPicked([a, b]) == FirstPicked([b, a]);
    assert LastPicked([a, b]) == LastPicked([b, a]);
  }

  /** `getTimeRangeLabel`: empty below two picks, otherwise the submitted
      start and end labels. */
  function TimeRangeLabel(picks: seq<BlockIndex>): (r: string)
    ensures |picks| < 2 ==> r == ""
    ensures |picks| >= 2 ==> r == SelectedInterval(picks).0 + " - " + SelectedInterval(picks).1
  {
    if |picks| < 2 then ""
    else BlockTime(Min(picks[0], picks[1])) + " - " + BlockEndTime(Max(picks[0], picks[1]))
  }
}
