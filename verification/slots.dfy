/** The fixed catalog of one-hour blocks a day is divided into, and the hour
    arithmetic on `HH:MM` labels (lib/utils.ts), together with the client-side
    reservation record the grid works on (lib/types.ts). */
module Slots {
  import opened Base
  import opened Text

  /** The first block starts at 08:00; the day ends at the sentinel 24:00. */
  const OpeningHour: nat := 8
  const BlockCount: nat := 16
  const EndOfDay: string := "24:00"

  type BlockIndex = i: nat | i < BlockCount

  /** `label` in the source (a reserved word here). */
  datatype Block = Block(time: string, caption: string)

  /** A reservation as the grid sees it: `date` is a day number, and the
      times are `HH:MM` labels of that day, with `"24:00"` for midnight. */
  datatype Reservation = Reservation(
    id: string,
    date: int,
    nickname: string,
    studentName: string,
    studentId: string,
    phoneNumber: string,
    purpose: string,
    startTime: string,
    endTime: string)

  /** The zero-padded label `HH:MM`. */
  function ClockLabel(hour: nat, minute: nat): string
    requires hour < 100 && minute < 100
  {
    Pad2(hour) + ":" + Pad2(minute)
  }

  function MakeBlock(hour: nat): Block
    requires hour < 24
  {
    var time := Pad2(hour) + ":00";
    var nextHour := (hour + 1) % 24;
    var endTime := if nextHour == 0 then EndOfDay else Pad2(nextHour) + ":00";
    Block(time, time + " - " + endTime)
  }

  function BlocksFrom(hour: nat): seq<Block>
    requires hour <= 24
    decreases 24 - hour
  {
    if hour < 24 then [MakeBlock(hour)] + BlocksFrom(hour + 1) else []
  }

  lemma {:induction false} BlocksFromShape(hour: nat)
    requires hour <= 24
    ensures |BlocksFrom(hour)| == 24 - hour
    ensures forall k :: 0 <= k < 24 - hour ==> BlocksFrom(hour)[k] == MakeBlock(hour + k)
    decreases 24 - hour
  {
    if hour < 24 {
      BlocksFromShape(hour + 1);
    }
  }

  lemma HourLabel(hour: nat)
    requires hour < 100
    ensures Pad2(hour) + ":00" == ClockLabel(hour, 0)
  {
  }

  lemma MidnightLabel()
    ensures ClockLabel(0, 0) == "00:00"
  {
  }

  lemma EndOfDayLabel()
    ensures EndOfDay == ClockLabel(24, 0)
  {
  }

  /** One catalog block: its time is `HH:00` and its caption runs to the
      next hour, or to 24:00 for the 23:00 block. */
  lemma MakeBlockShape(hour: nat)
    requires hour < 24
    ensures MakeBlock(hour).time == ClockLabel(hour, 0)
    ensures MakeBlock(hour).caption ==
            MakeBlock(hour).time + " - " + (if hour + 1 < 24 then ClockLabel(hour + 1, 0) else EndOfDay)
  {
    HourLabel(hour);
    if hour + 1 < 24 {
      assert (hour + 1) % 24 == hour + 1;
      HourLabel(hour + 1);
    }
  }

  /** `generateTimeBlocks`: sixteen blocks 08:00 … 23:00, each captioned with
      its own time and the following block's time, the last one with 24:00. */
  function GenerateTimeBlocks(): (r: seq<Block>)
    ensures |r| == BlockCount
    ensures forall i :: 0 <= i < |r| ==> r[i].time == ClockLabel(OpeningHour + i, 0)
    ensures forall i :: 0 <= i < |r| ==>
              r[i].caption == r[i].time + " - " + (if i + 1 < |r| then r[i + 1].time else EndOfDay)
  {
    BlocksFromLabels(OpeningHour);
    BlocksFrom(OpeningHour)
  }

  /** The blocks from `hour` on carry consecutive hour labels, each
      captioned up to the next one. */
  lemma BlocksFromLabels(hour: nat)
    requires hour <= 24
    ensures var r := BlocksFrom(hour);
            && |r| == 24 - hour
            && (forall i :: 0 <= i < |r| ==> r[i].time == ClockLabel(hour + i, 0))
            && (forall i :: 0 <= i < |r| ==>
                  r[i].caption == r[i].time + " - " + (if i + 1 < |r| then ClockLabel(hour + i + 1, 0) else EndOfDay))
  {
    BlocksFromShape(hour);
    var r := BlocksFrom(hour);
    forall i | 0 <= i < |r|
      ensures r[i].time == ClockLabel(hour + i, 0)
      ensures r[i].caption == r[i].time + " - " + (if i + 1 < |r| then ClockLabel(hour + i + 1, 0) else EndOfDay)
    {
      MakeBlockShape(hour + i);
    }
  }

  /** The time of catalog block `i`, which is `GenerateTimeBlocks()[i].time`
      by that function's contract. */
  function BlockTime(i: BlockIndex): string {
    ClockLabel(OpeningHour + i, 0)
  }

  lemma StrLtCons(x: char, a: string, y: char, b: string)
    ensures StrLt([x] + a, [y] + b) == if x != y then x < y else StrLt(a, b)
  {
    assert ([x] + a)[1..] == a;
    assert ([y] + b)[1..] == b;
  }

  /** Comparing two padded two-digit fields compares the numbers first. */
  lemma StrLtPad2(m: nat, a: string, n: nat, b: string)
    requires m < 100 && n < 100
    ensures StrLt(Pad2(m) + a, Pad2(n) + b) == if m != n then m < n else StrLt(a, b)
  {
    var dm1, dm0 := DigitChar(m / 10), DigitChar(m % 10);
    var dn1, dn0 := DigitChar(n / 10), DigitChar(n % 10);
    assert Pad2(m) + a == [dm1] + ([dm0] + a);
    assert Pad2(n) + b == [dn1] + ([dn0] + b);
    StrLtCons(dm1, [dm0] + a, dn1, [dn0] + b);
    StrLtCons(dm0, a, dn0, b);
  }

  /** JavaScript's string `<` on zero-padded labels is the chronological
      order: hours first, then minutes. */
  lemma ClockLabelOrder(h1: nat, m1: nat, h2: nat, m2: nat)
    requires h1 < 100 && m1 < 100 && h2 < 100 && m2 < 100
    ensures StrLt(ClockLabel(h1, m1), ClockLabel(h2, m2)) <==> h1 < h2 || (h1 == h2 && m1 < m2)
  {
    assert ClockLabel(h1, m1) == Pad2(h1) + (":" + Pad2(m1));
    assert ClockLabel(h2, m2) == Pad2(h2) + (":" + Pad2(m2));
    StrLtPad2(h1, ":" + Pad2(m1), h2, ":" + Pad2(m2));
    StrLtCons(':', Pad2(m1), ':', Pad2(m2));
    assert Pad2(m1) == Pad2(m1) + "" && Pad2(m2) == Pad2(m2) + "";
    StrLtPad2(m1, "", m2, "");
  }

  /** Block times are in strictly ascending string order, so they are all
      distinct, and every block time is below the 24:00 sentinel. */
  lemma CatalogOrder(i: BlockIndex, j: BlockIndex)
    ensures StrLt(BlockTime(i), BlockTime(j)) <==> i < j
    ensures BlockTime(i) == BlockTime(j) <==> i == j
    ensures StrLt(BlockTime(i), EndOfDay) && !StrLt(EndOfDay, BlockTime(i))
  {
    ClockLabelOrder(OpeningHour + i, 0, OpeningHour + j, 0);
    ClockLabelOrder(OpeningHour + j, 0, OpeningHour + i, 0);
    EndOfDayLabel();
    ClockLabelOrder(OpeningHour + i, 0, 24, 0);
    ClockLabelOrder(24, 0, OpeningHour + i, 0);
  }

  /** The longest run of decimal digits at the start of `s`. */
  function DigitPrefix(s: string): (r: string)
    ensures AllDigits(r) && StartsWith(s, r)
    ensures |r| < |s| ==> !IsDigit(s[|r|])
  {
    if |s| > 0 && IsDigit(s[0]) then [s[0]] + DigitPrefix(s[1..]) else ""
  }

  /** `Number.parseInt(s, 10)`; `None` stands for `NaN`. */
  function ParseInt(s: string): Option<int> {
    var t := TrimStart(s);
    var negative := |t| > 0 && t[0] == '-';
    var body := if |t| > 0 && (t[0] == '-' || t[0] == '+') then t[1..] else t;
    var digits := DigitPrefix(body);
    if |digits| == 0 then None
    else if negative then Some(-(DecimalValue(digits) as int))
    else Some(DecimalValue(digits))
  }

  /** `s.split(":")[0]`. */
  function HourField(s: string): string {
    Split(s, ':')[0]
  }

  /** `Number.parseInt(s.split(":")[0], 10)`. */
  function ParseHour(s: string): Option<int> {
    ParseInt(HourField(s))
  }

  /** `getHoursDifference`: end hour minus start hour, an end hour of 0 or 24
      counting as 24; `None` when either hour is not a number. */
  function HoursDifference(startTime: string, endTime: string): Option<int> {
    HourSpan(ParseHour(startTime), ParseHour(endTime))
  }

  /** The arithmetic of `getHoursDifference` on the parsed hours. */
  function HourSpan(startHour: Option<int>, endHour: Option<int>): Option<int> {
    if startHour.None? || endHour.None? then None
    else Some((if endHour.value == 0 || endHour.value == 24 then 24 else endHour.value) - startHour.value)
  }

  lemma SplitClockLabel(hour: nat, minute: nat)
    requires hour < 100 && minute < 100
    ensures Split(ClockLabel(hour, minute), ':') == [Pad2(hour), Pad2(minute)]
  {
    assert ClockLabel(hour, minute) == Pad2(hour) + [':'] + Pad2(minute);
    SplitTwo(Pad2(hour), ':', Pad2(minute));
  }

  lemma ParseHourField(hour: nat, minute: nat)
    requires hour < 100 && minute < 100
    ensures ParseHour(ClockLabel(hour, minute)) == Some(hour)
  {
    var p := Pad2(hour);
    SplitClockLabel(hour, minute);
    assert HourField(ClockLabel(hour, minute)) == p;
    DigitIsNotSpace(p[0]);
    assert TrimStart(p) == p;
    assert DigitPrefix(p[1..][1..]) == "";
    assert DigitPrefix(p[1..]) == [p[1]];
    assert DigitPrefix(p) == p;
    Pad2Value(hour);
  }

  /** `Number(s)` on a run of digits (the empty string reads as 0); any other
      string is `NaN`, written `None`. */
  function NumberOf(s: string): Option<int> {
    if AllDigits(s) then Some(DecimalValue(s)) else None
  }

  /** `t.split(":").map(Number)` read as hours and minutes; a missing part is
      `undefined`, whose number is `NaN`. */
  function ClockParts(t: string): (Option<int>, Option<int>) {
    var parts := Split(t, ':');
    (NumberOf(parts[0]), if |parts| > 1 then NumberOf(parts[1]) else None)
  }

  /** Splitting a padded label gives back its hour and minute. */
  lemma ClockPartsOfLabel(hour: nat, minute: nat)
    requires hour < 100 && minute < 100
    ensures ClockParts(ClockLabel(hour, minute)) == (Some(hour), Some(minute))
  {
    SplitClockLabel(hour, minute);
    Pad2Value(hour);
    Pad2Value(minute);
  }

  lemma HoursDifferenceOfHours(s: string, startHour: int, e: string, endHour: int)
    requires ParseHour(s) == Some(startHour) && ParseHour(e) == Some(endHour)
    ensures HoursDifference(s, e) == Some((if endHour == 0 || endHour == 24 then 24 else endHour) - startHour)
  {
  }

  /** On well-formed labels the difference is the hour arithmetic, with
      midnight (00 or 24) read as the end of the day. */
  lemma HoursDifferenceOfLabels(h1: nat, m1: nat, h2: nat, m2: nat)
    requires h1 < 100 && m1 < 100 && h2 < 100 && m2 < 100
    ensures HoursDifference(ClockLabel(h1, m1), ClockLabel(h2, m2))
            == Some((if h2 == 0 || h2 == 24 then 24 else h2) - h1)
  {
    ParseHourField(h1, m1);
    ParseHourField(h2, m2);
    HoursDifferenceOfHours(ClockLabel(h1, m1), h1, ClockLabel(h2, m2), h2);
  }

  /** Every block is one hour long: from its own time to the next block's
      time, or to 24:00 for the last block. */
  lemma BlockIsOneHour(i: BlockIndex)
    ensures HoursDifference(BlockTime(i), if i + 1 < BlockCount then BlockTime(i + 1) else EndOfDay) == Some(1)
  {
    if i + 1 < BlockCount {
      HoursDifferenceOfLabels(OpeningHour + i, 0, OpeningHour + i + 1, 0);
    } else {
      EndOfDayLabel();
      HoursDifferenceOfLabels(23, 0, 24, 0);
    }
  }

  /** 23:00 to 00:00 counts as one hour, midnight being read as 24. */
  lemma LateHourIsOneHour()
    ensures HoursDifference(ClockLabel(23, 0), ClockLabel(0, 0)) == Some(1)
  {
    HoursDifferenceOfLabels(23, 0, 0, 0);
  }
}
