/** The admin dashboard's list logic: the lifecycle status of a reservation,
    the tab and search filters, the sort by start time, the counters above
    the list and the expand/collapse toggles of long cells. */
module Admin {
  import opened Base
  import opened Text
  import opened Seqs
  import Time

  /** A row of the admin list; `start` and `end` are instants. */
  datatype AdminReservation = AdminReservation(
    reservationId: int,
    roomName: Option<string>,
    nickname: string,
    studentName: string,
    studentId: string,
    phoneNumber: string,
    purpose: string,
    start: int,
    end: int)

  /** 예정됨, 진행중 and 완료됨. */
  datatype Status = Scheduled | InProgress | Completed

  function StatusLabel(s: Status): string {
    match s
    case Scheduled => "예정됨"
    case InProgress => "진행중"
    case Completed => "완료됨"
  }

  /** `getReservationStatus`: before the start it is scheduled, inside the
      closed interval it is in progress, otherwise completed. */
  function StatusOf(start: int, end: int, now: int): (st: Status)
    ensures st == Scheduled <==> now < start
    ensures st == InProgress <==> start <= now <= end
    ensures st == Completed <==> start <= now && end < now
  {
    if now < start then Scheduled
    else if start <= now <= end then InProgress
    else Completed
  }

  /** The instant the reservation ends still counts as in progress. */
  lemma EndIsInProgress(start: int, end: int)
    requires start <= end
    ensures StatusOf(start, end, end) == InProgress
    ensures StatusOf(start, end, end + 1) == Completed
  {
  }

  /** The tabs above the list. */
  datatype Tab = AllTab | TodayTab | ScheduledTab | CompletedTab

  /** The tab filter of `filterReservations`; "today" is the calendar day of
      `now`. */
  predicate TabKeeps(tab: Tab, now: int, x: AdminReservation) {
    match tab
    case TodayTab => Time.DayOf(x.start) == Time.DayOf(now) || Time.DayOf(x.end) == Time.DayOf(now)
    case ScheduledTab => now < x.start
    case CompletedTab => x.end < now
    case AllTab => true
  }

  /** For a well-formed reservation the scheduled and completed tabs agree
      with the status column, and never both keep the same row. */
  lemma TabsAgreeWithStatus(tab: Tab, now: int, x: AdminReservation)
    requires x.start <= x.end
    ensures TabKeeps(ScheduledTab, now, x) <==> StatusOf(x.start, x.end, now) == Scheduled
    ensures TabKeeps(CompletedTab, now, x) <==> StatusOf(x.start, x.end, now) == Completed
    ensures !(TabKeeps(ScheduledTab, now, x) && TabKeeps(CompletedTab, now, x))
  {
  }

  /** The search filter: the nickname, room name or purpose contains the term
      ignoring case, or the student id contains it as typed. A missing room
      name never matches. */
  predicate SearchMatches(x: AdminReservation, term: string) {
    var t := ToLower(term);
    Contains(ToLower(x.nickname), t)
    || Contains(x.studentId, term)
    || (x.roomName.Some? && Contains(ToLower(x.roomName.value), t))
    || Contains(ToLower(x.purpose), t)
  }

  /** The search is a case-insensitive substring search: a term that
      differs from `typed` only in the case of its letters finds every
      nickname containing `typed`, a nickname equal to the term up to case
      in particular; and apart from the student number, which is compared
      as typed, changing the case of the term changes nothing. */
  lemma SearchIgnoresCase(x: AdminReservation, term: string, typed: string)
    requires ToLower(typed) == ToLower(term)
    ensures Contains(x.nickname, typed) ==> SearchMatches(x, term)
    ensures ToLower(x.nickname) == ToLower(term) ==> SearchMatches(x, term)
    ensures SearchMatches(x, term) && !Contains(x.studentId, term) ==> SearchMatches(x, typed)
  {
    if Contains(x.nickname, typed) {
      ContainsLower(x.nickname, typed);
    }
    if ToLower(x.nickname) == ToLower(term) {
      ContainsAt(ToLower(x.nickname), ToLower(term), 0);
    }
  }

  /** Ascending by start time. */
  predicate SortedByStart(s: seq<AdminReservation>) {
    forall i, j :: 0 <= i < j < |s| ==> s[i].start <= s[j].start
  }

  /** Places `x` before the first row that starts no earlier than it. */
  function Insert(x: AdminReservation, s: seq<AdminReservation>): (r: seq<AdminReservation>)
    requires SortedByStart(s)
    ensures SortedByStart(r)
    ensures multiset(r) == multiset(s) + multiset{x}
    ensures |r| == |s| + 1
    ensures r[0] == x || (|s| > 0 && r[0] == s[0])
  {
    if |s| == 0 || x.start <= s[0].start then [x] + s
    else
      assert s == [s[0]] + s[1..];
      [s[0]] + Insert(x, s[1..])
  }

  /** `sort` by `a.start - b.start`: the same rows, ascending by start. */
  function SortByStart(s: seq<AdminReservation>): (r: seq<AdminReservation>)
    ensures SortedByStart(r)
    ensures multiset(r) == multiset(s)
  {
    if |s| == 0 then []
    else
      assert s == [s[0]] + s[1..];
      Insert(s[0], SortByStart(s[1..]))
  }

  /** A permutation has the same members. */
  lemma SameMembers(a: seq<AdminReservation>, b: seq<AdminReservation>)
    requires multiset(a) == multiset(b)
    ensures forall x :: x in a <==> x in b
  {
    forall x
      ensures x in a <==> x in b
    {
      assert x in a <==> x in multiset(a);
      assert x in b <==> x in multiset(b);
    }
  }

  /** `filterReservations`: the tab filter, then the search filter when the
      term is not empty, then the sort. */
  function FilterReservations(rs: seq<AdminReservation>, tab: Tab, term: string, now: int): (r: seq<AdminReservation>)
    ensures SortedByStart(r)
    ensures multiset(r) <= multiset(rs)
    ensures forall x :: x in r <==> x in rs && TabKeeps(tab, now, x) && (term == "" || SearchMatches(x, term))
    ensures forall x :: multiset(r)[x] ==
              if TabKeeps(tab, now, x) && (term == "" || SearchMatches(x, term)) then multiset(rs)[x] else 0
  {
    var byTab := Filter(rs, x => TabKeeps(tab, now, x));
    var bySearch := if term == "" then byTab else Filter(byTab, x => SearchMatches(x, term));
    FilterMembers(rs, x => TabKeeps(tab, now, x));
    FilterMembers(byTab, x => SearchMatches(x, term));
    FilterMultiplicity(rs, x => TabKeeps(tab, now, x));
    FilterMultiplicity(byTab, x => SearchMatches(x, term));
    var r := SortByStart(bySearch);
    SameMembers(r, bySearch);
    r
  }

  /** With no term on the "all" tab every row is listed. */
  lemma AllTabListsEverything(rs: seq<AdminReservation>, now: int)
    ensures multiset(FilterReservations(rs, AllTab, "", now)) == multiset(rs)
  {
    FilterAll(rs, x => TabKeeps(AllTab, now, x));
  }

  /** The counters: reservations starting today, not yet started, and
      already ended. The first looks only at the start, unlike the tab. */
  function TodayCount(rs: seq<AdminReservation>, now: int): nat {
    |Filter(rs, (x: AdminReservation) => Time.DayOf(x.start) == Time.DayOf(now))|
  }

  function ScheduledCount(rs: seq<AdminReservation>, now: int): nat {
    |Filter(rs, x => TabKeeps(ScheduledTab, now, x))|
  }

  function CompletedCount(rs: seq<AdminReservation>, now: int): nat {
    |Filter(rs, x => TabKeeps(CompletedTab, now, x))|
  }

  /** The scheduled and completed counters never count a well-formed
      reservation twice, and the today counter never exceeds the length of
      the today tab. */
  lemma CountsBounded(rs: seq<AdminReservation>, now: int)
    requires forall i :: 0 <= i < |rs| ==> rs[i].start <= rs[i].end
    ensures ScheduledCount(rs, now) + CompletedCount(rs, now) <= |rs|
    ensures TodayCount(rs, now) <= |Filter(rs, x => TabKeeps(TodayTab, now, x))|
  {
    FilterDisjointCount(rs, x => TabKeeps(ScheduledTab, now, x), x => TabKeeps(CompletedTab, now, x));
    FilterWeaker(rs, (x: AdminReservation) => Time.DayOf(x.start) == Time.DayOf(now), x => TabKeeps(TodayTab, now, x));
  }

  /** `toggleNameExpanded` and `togglePurposeExpanded`: flip whether `id` is
      expanded, leaving every other id as it was. */
  function Toggle(expanded: set<int>, id: int): (r: set<int>)
    ensures id in r <==> id !in expanded
    ensures forall other :: other != id ==> (other in r <==> other in expanded)
  {
    if id in expanded then expanded - {id} else expanded + {id}
  }

  /** Toggling the same id twice restores the set. */
  lemma ToggleTwice(expanded: set<int>, id: int)
    ensures Toggle(Toggle(expanded, id), id) == expanded
  {
  }
}
