/** `LogService`: reading the fields back out of the request-log lines
    `LogAspect` writes, and sorting the lines into the sheets of the Excel
    export. The regular expression
    `\[(TIMESTAMP|IP|METHOD|URI|RESPONSE|PARAMETER)\]\[(.*?)\]` is modelled
    by a scan over the line; reading the log files and writing the workbook
    are outside the model. */
module Logs {
  import opened Base
  import opened Text

  /** The keys the pattern recognises, in the order of its alternatives. */
  const LogKeys: seq<string> := ["TIMESTAMP", "IP", "METHOD", "URI", "RESPONSE", "PARAMETER"]

  predicate Upper(s: string) {
    forall i :: 0 <= i < |s| ==> 'A' <= s[i] <= 'Z'
  }

  lemma KeysAreUpper()
    ensures forall k :: 0 <= k < |LogKeys| ==> Upper(LogKeys[k]) && |LogKeys[k]| > 0
  {
  }

  /** The characters Java's `.` does not match without `DOTALL`. */
  predicate LineTerminator(c: char) {
    c == '\n' || c == '\r' || c == '\U{0085}' || c == '\U{2028}' || c == '\U{2029}'
  }

  /** A value the lazy group reads back whole: no closing bracket and no
      line terminator. */
  predicate Clean(v: string) {
    forall i :: 0 <= i < |v| ==> v[i] != ']' && !LineTerminator(v[i])
  }

  /** `(.*?)\]` from position `i`: the position of the first `]`, unless a
      line terminator or the end of the line comes first. */
  function CloseAt(s: string, i: nat): (r: Option<nat>)
    requires i <= |s|
    ensures r.Some? ==> i <= r.value < |s| && s[r.value] == ']' && Clean(s[i..r.value])
    decreases |s| - i
  {
    if i == |s| then None
    else if s[i] == ']' then Some(i)
    else if LineTerminator(s[i]) then None
    else
      var r := CloseAt(s, i + 1);
      assert r.Some? ==> s[i..r.value] == [s[i]] + s[i + 1..r.value];
      r
  }

  /** `[KEY][`: the opening of a field. */
  function Opening(key: string): string {
    "[" + key + "]["
  }

  /** The first key whose opening starts the text. */
  function KeyAt(s: string, keys: seq<string>): (r: Option<string>)
    ensures r.Some? ==> r.value in keys && StartsWith(s, Opening(r.value))
  {
    if |keys| == 0 then None
    else if StartsWith(s, Opening(keys[0])) then Some(keys[0])
    else KeyAt(s, keys[1..])
  }

  datatype Match = Match(key: string, value: string, end: nat)

  /** One attempt of `find` at the start of `s`. */
  function MatchAt(s: string): (r: Option<Match>)
    ensures r.Some? ==> 0 < r.value.end <= |s| && r.value.key in LogKeys && Clean(r.value.value)
  {
    match KeyAt(s, LogKeys)
    case None => None
    case Some(k) =>
      var start := |k| + 3;
      match CloseAt(s, start)
      case None => None
      case Some(c) => Some(Match(k, s[start..c], c + 1))
  }

  /** The `while (matcher.find())` loop: each match puts its key and value
      into the map, and the search goes on after the match; where nothing
      matches it moves on by one character. */
  function Scan(s: string, m: map<string, string>): (r: map<string, string>)
    ensures forall k :: k in r ==> (k in m && r[k] == m[k]) || (k in LogKeys && Clean(r[k]))
    decreases |s|
  {
    if |s| == 0 then m
    else
      match MatchAt(s)
      case Some(mt) => Scan(s[mt.end..], m[mt.key := mt.value])
      case None => Scan(s[1..], m)
  }

  /** `convertLogToMap`: only the six keys occur, each with a value that
      holds no `]`. */
  function ConvertLogToMap(line: string): (r: map<string, string>)
    ensures forall k :: k in r ==> k in LogKeys && Clean(r[k])
  {
    Scan(line, map[])
  }

  /** A piece of text without `[` contributes nothing. */
  lemma {:induction false} ScanPlain(a: string, b: string, m: map<string, string>)
    requires '[' !in a
    ensures Scan(a + b, m) == Scan(b, m)
  {
    if |a| > 0 {
      assert (a + b)[0] == a[0];
      assert !StartsWith(a + b, Opening(LogKeys[0]));
      assert KeyAt(a + b, LogKeys) == None by {
        NoKeyWithoutBracket(a + b, LogKeys);
      }
      assert (a + b)[1..] == a[1..] + b;
      ScanPlain(a[1..], b, m);
    } else {
      assert a + b == b;
    }
  }

  lemma {:induction false} NoKeyWithoutBracket(s: string, keys: seq<string>)
    requires |s| > 0 && s[0] != '['
    ensures KeyAt(s, keys) == None
  {
    if |keys| > 0 {
      assert Opening(keys[0])[0] == '[';
      NoKeyWithoutBracket(s, keys[1..]);
    }
  }

  /** The end of the run of upper-case letters that starts at `i`. */
  function UpperRunEnd(s: string, i: nat): (e: nat)
    requires i <= |s|
    ensures i <= e <= |s|
    ensures forall l :: i <= l < e ==> 'A' <= s[l] <= 'Z'
    ensures e < |s| ==> !('A' <= s[e] <= 'Z')
    decreases |s| - i
  {
    if i == |s| || !('A' <= s[i] <= 'Z') then i else UpperRunEnd(s, i + 1)
  }

  /** Text in which no field can open, whatever follows it: every `[` is
      followed, inside the text, by a run of upper-case letters and then a
      character other than `]`. A thread name in brackets, as the default
      layouts of Spring Boot print it, is such a text (`ThreadPrefix`). */
  predicate OpensNoField(a: string) {
    forall i :: 0 <= i < |a| ==> OpensNoFieldAt(a, i)
  }

  /** No field opens at position `i`. */
  predicate OpensNoFieldAt(a: string, i: nat)
    requires i < |a|
  {
    a[i] == '[' ==> UpperRunEnd(a, i + 1) < |a| && a[UpperRunEnd(a, i + 1)] != ']'
  }

  /** No key is found when none of the keys' openings starts the text. */
  lemma {:induction false} NoKeyAt(s: string, keys: seq<string>)
    requires forall j :: 0 <= j < |keys| ==> !StartsWith(s, Opening(keys[j]))
    ensures KeyAt(s, keys) == None
  {
    if |keys| > 0 {
      NoKeyAt(s, keys[1..]);
    }
  }

  /** A text whose `[` is followed by a run of upper-case letters and then
      a character other than `]` does not start with the opening of an
      upper-case key: it differs from the opening where the letters of the
      key or its `]` would have to be. */
  lemma RunBlocksOpening(s: string, k: string, e: nat)
    requires Upper(k) && 1 <= e < |s|
    requires forall l :: 1 <= l < e ==> 'A' <= s[l] <= 'Z'
    requires !('A' <= s[e] <= 'Z') && s[e] != ']'
    ensures !StartsWith(s, Opening(k))
  {
    var o := Opening(k);
    if |o| <= |s| {
      assert o[|k| + 1] == ']';
      if e <= |k| {
        assert o[e] == k[e - 1];
        assert s[..|o|][e] != o[e];
      } else {
        assert s[..|o|][|k| + 1] != o[|k| + 1];
      }
    }
  }

  /** At a `[` of a text that opens no field no opening of an upper-case
      key starts, whatever follows the text. */
  lemma NotOpening(a: string, b: string, i: nat, k: string)
    requires i < |a| && a[i] == '[' && OpensNoField(a) && Upper(k)
    ensures !StartsWith((a + b)[i..], Opening(k))
  {
    var s := (a + b)[i..];
    assert OpensNoFieldAt(a, i);
    var e := UpperRunEnd(a, i + 1);
    assert s[e - i] == a[e];
    forall l | 1 <= l < e - i
      ensures 'A' <= s[l] <= 'Z'
    {
      assert s[l] == a[i + l];
    }
    RunBlocksOpening(s, k, e - i);
  }

  /** No key is found anywhere inside a text that opens no field. */
  lemma NoFieldOpensAt(a: string, b: string, i: nat)
    requires i < |a| && OpensNoField(a)
    ensures KeyAt((a + b)[i..], LogKeys) == None
  {
    var s := (a + b)[i..];
    assert s[0] == a[i];
    if a[i] != '[' {
      NoKeyWithoutBracket(s, LogKeys);
    } else {
      KeysAreUpper();
      forall j | 0 <= j < |LogKeys|
        ensures !StartsWith(s, Opening(LogKeys[j]))
      {
        NotOpening(a, b, i, LogKeys[j]);
      }
      NoKeyAt(s, LogKeys);
    }
  }

  lemma {:induction false} ScanSkipsFrom(a: string, b: string, j: nat, m: map<string, string>)
    requires j <= |a| && OpensNoField(a)
    ensures Scan((a + b)[j..], m) == Scan(b, m)
    decreases |a| - j
  {
    var s := (a + b)[j..];
    if j == |a| {
      assert s == b;
    } else {
      NoFieldOpensAt(a, b, j);
      assert MatchAt(s) == None;
      assert s[1..] == (a + b)[j + 1..];
      ScanSkipsFrom(a, b, j + 1, m);
    }
  }

  /** Text that opens no field contributes nothing, whatever follows it. */
  lemma ScanSkipsPrefix(a: string, b: string, m: map<string, string>)
    requires OpensNoField(a)
    ensures Scan(a + b, m) == Scan(b, m)
  {
    ScanSkipsFrom(a, b, 0, m);
    assert (a + b)[0..] == a + b;
  }

  /** A bracketed thread name opens no field as long as it holds some
      character other than an upper-case letter, as `main` or
      `http-nio-8080-exec-1` do. */
  lemma ThreadPrefix(before: string, thread: string, after: string, p: nat)
    requires '[' !in before && '[' !in thread && ']' !in thread && '[' !in after
    requires p < |thread| && !('A' <= thread[p] <= 'Z')
    ensures OpensNoField(before + "[" + thread + "]" + after)
  {
    var a := before + "[" + thread + "]" + after;
    var o := |before|;
    forall i | 0 <= i < |a| && i != o
      ensures a[i] != '[' && OpensNoFieldAt(a, i)
    {
      if i < o {
        assert a[i] == before[i];
      } else if i < o + 1 + |thread| {
        assert a[i] == thread[i - o - 1];
      } else if i > o + 1 + |thread| {
        assert a[i] == after[i - o - |thread| - 2];
      }
    }
    var q := o + 1 + p;
    assert a[q] == thread[p];
    var e := UpperRunEnd(a, o + 1);
    assert e <= q;
    assert a[e] == thread[e - o - 1];
  }

  /** Where an opening starts the text, the key follows the `[` and a `]`
      follows the key. */
  lemma OpeningCharacters(s: string, a: string)
    requires StartsWith(s, Opening(a))
    ensures |a| + 1 < |s| && s[|a| + 1] == ']'
    ensures forall i :: 0 <= i < |a| ==> s[i + 1] == a[i]
  {
    var oa := Opening(a);
    assert s[..|oa|] == oa;
    assert forall i :: 0 <= i < |oa| ==> s[i] == oa[i];
  }

  /** Two openings of upper-case keys that both start the same text are the
      same opening. */
  lemma OpeningsDistinct(s: string, a: string, b: string)
    requires Upper(a) && Upper(b)
    requires StartsWith(s, Opening(a)) && StartsWith(s, Opening(b))
    ensures a == b
  {
    OpeningCharacters(s, a);
    OpeningCharacters(s, b);
    assert |a| == |b|;
    assert a == s[1..|a| + 1] == b;
  }

  /** The key of a field is found whichever alternative it is. */
  lemma {:induction false} KeyAtFinds(s: string, keys: seq<string>, k: string)
    requires k in keys && Upper(k)
    requires forall j :: 0 <= j < |keys| ==> Upper(keys[j])
    requires StartsWith(s, Opening(k))
    ensures KeyAt(s, keys) == Some(k)
  {
    if keys[0] != k {
      if StartsWith(s, Opening(keys[0])) {
        OpeningsDistinct(s, keys[0], k);
      }
      KeyAtFinds(s, keys[1..], k);
    }
  }

  /** `[KEY][value]` is one match: it records the value under the key and
      the scan resumes right after it. */
  lemma ScanField(k: string, v: string, b: string, m: map<string, string>)
    requires k in LogKeys && Clean(v)
    ensures Scan(Opening(k) + v + "]" + b, m) == Scan(b, m[k := v])
  {
    var s := Opening(k) + v + "]" + b;
    MatchField(k, v, b);
    assert s[|k| + |v| + 4..] == b;
  }

  /** The match itself: the key, the value, and the position after the
      closing bracket. */
  lemma MatchField(k: string, v: string, b: string)
    requires k in LogKeys && Clean(v)
    ensures MatchAt(Opening(k) + v + "]" + b) == Some(Match(k, v, |k| + |v| + 4))
  {
    var s := Opening(k) + (v + "]" + b);
    assert s == Opening(k) + v + "]" + b;
    KeyAtOpening(k, v + "]" + b);
    var start := |k| + 3;
    assert s[start..start + |v|] == v;
    CloseAfterClean(s, start, v);
  }

  /** The opening of a field is recognised as its own key. */
  lemma KeyAtOpening(k: string, rest: string)
    requires k in LogKeys
    ensures KeyAt(Opening(k) + rest, LogKeys) == Some(k)
  {
    var s := Opening(k) + rest;
    KeysAreUpper();
    assert s[..|Opening(k)|] == Opening(k);
    KeyAtFinds(s, LogKeys, k);
  }

  lemma {:induction false} CloseAfterClean(s: string, i: nat, v: string)
    requires i + |v| < |s| && s[i..i + |v|] == v && s[i + |v|] == ']' && Clean(v)
    ensures CloseAt(s, i) == Some(i + |v|)
    decreases |v|
  {
    if |v| > 0 {
      assert s[i] == v[0];
      assert s[i + 1..i + |v|] == v[1..];
      CloseAfterClean(s, i + 1, v[1..]);
    }
  }

  /** `[KEY][value]`: one field of a log message. */
  function Field(key: string, value: string): string {
    Opening(key) + value + "]"
  }

  /** The message `LogAspect` writes for one request (LogAspect.java line
      64): the six fields, separated by a comma and a space. */
  function FormatLine(timestamp: string, ip: string, httpMethod: string, uri: string,
                      response: string, parameter: string): string
  {
    Field("TIMESTAMP", timestamp) + (", " + (Field("IP", ip) + (", " + (Field("METHOD", httpMethod)
      + (", " + (Field("URI", uri) + (", " + (Field("RESPONSE", response)
      + (", " + Field("PARAMETER", parameter))))))))))
  }

  /** A field followed by the separator: the scan records it and resumes
      after the separator. */
  lemma ScanFieldThen(k: string, v: string, rest: string, m: map<string, string>)
    requires k in LogKeys && Clean(v)
    ensures Scan(Field(k, v) + (", " + rest), m) == Scan(rest, m[k := v])
  {
    ScanField(k, v, ", " + rest, m);
    ScanPlain(", ", rest, m[k := v]);
  }

  /** A logged line, after whatever prefix the log layout puts before the
      message, reads back to exactly the six fields it was written from,
      provided the prefix opens no field and no value holds a `]` or a
      line break. */
  lemma FormatLineRoundTrip(prefix: string, timestamp: string, ip: string, httpMethod: string,
                            uri: string, response: string, parameter: string)
    requires OpensNoField(prefix)
    requires Clean(timestamp) && Clean(ip) && Clean(httpMethod) && Clean(uri) && Clean(response) && Clean(parameter)
    ensures ConvertLogToMap(prefix + FormatLine(timestamp, ip, httpMethod, uri, response, parameter))
         == map["TIMESTAMP" := timestamp, "IP" := ip, "METHOD" := httpMethod, "URI" := uri,
                "RESPONSE" := response, "PARAMETER" := parameter]
  {
    var f6 := Field("PARAMETER", parameter);
    var f5 := Field("RESPONSE", response) + (", " + f6);
    var f4 := Field("URI", uri) + (", " + f5);
    var f3 := Field("METHOD", httpMethod) + (", " + f4);
    var f2 := Field("IP", ip) + (", " + f3);
    var f1 := Field("TIMESTAMP", timestamp) + (", " + f2);
    var m0: map<string, string> := map[];
    var m1 := m0["TIMESTAMP" := timestamp];
    var m2 := m1["IP" := ip];
    var m3 := m2["METHOD" := httpMethod];
    var m4 := m3["URI" := uri];
    var m5 := m4["RESPONSE" := response];
    ScanSkipsPrefix(prefix, f1, m0);
    ScanFieldThen("TIMESTAMP", timestamp, f2, m0);
    ScanFieldThen("IP", ip, f3, m1);
    ScanFieldThen("METHOD", httpMethod, f4, m2);
    ScanFieldThen("URI", uri, f5, m3);
    ScanFieldThen("RESPONSE", response, f6, m4);
    ScanField("PARAMETER", parameter, "", m5);
    assert f6 + "" == f6;
  }

  /** A field that occurs twice keeps the value of its later occurrence. */
  lemma LaterFieldWins(k: string, v1: string, between: string, v2: string)
    requires k in LogKeys && Clean(v1) && Clean(v2) && '[' !in between
    ensures ConvertLogToMap(Field(k, v1) + (between + Field(k, v2))) == map[k := v2]
  {
    var m0: map<string, string> := map[];
    ScanField(k, v1, between + Field(k, v2), m0);
    ScanPlain(between, Field(k, v2), m0[k := v1]);
    ScanField(k, v2, "", m0[k := v1]);
    assert Field(k, v2) + "" == Field(k, v2);
  }

  /** A parameter holding a `]` (a JSON array, say) is cut off there: only
      the text before the first `]` is read back. */
  lemma ParameterCutAtBracket(before: string, after: string)
    requires Clean(before) && '[' !in after
    ensures ConvertLogToMap(Opening("PARAMETER") + before + "]" + after + "]") == map["PARAMETER" := before]
  {
    var m0: map<string, string> := map[];
    assert Opening("PARAMETER") + before + "]" + after + "]" == Opening("PARAMETER") + before + "]" + (after + "]");
    ScanField("PARAMETER", before, after + "]", m0);
    ScanPlain(after + "]", "", m0["PARAMETER" := before]);
    assert after + "]" + "" == after + "]";
  }

  /** The sheets of the export, besides the read-me sheet. */
  datatype Sheet = AccessSheet | LogSheet | ReservationSheet | RoomSheet

  /** The routing of `createLogExcel`: no sheet for a missing or empty URI;
      otherwise the first of access, log, reservation and room whose name
      the URI contains, or none. */
  function RouteSheet(uri: Option<string>): (r: Option<Sheet>)
    ensures uri.None? || uri.value == "" ==> r.None?
    ensures r == Some(AccessSheet) ==> Contains(uri.value, "access")
    ensures r == Some(LogSheet) ==> Contains(uri.value, "log") && !Contains(uri.value, "access")
    ensures r == Some(ReservationSheet) ==>
              Contains(uri.value, "reservation") && !Contains(uri.value, "access") && !Contains(uri.value, "log")
    ensures r == Some(RoomSheet) ==>
              Contains(uri.value, "room") && !Contains(uri.value, "access") && !Contains(uri.value, "log")
              && !Contains(uri.value, "reservation")
    ensures r.None? && uri.Some? && uri.value != "" ==>
              !Contains(uri.value, "access") && !Contains(uri.value, "log")
              && !Contains(uri.value, "reservation") && !Contains(uri.value, "room")
  {
    if uri.None? || uri.value == "" then None
    else if Contains(uri.value, "access") then Some(AccessSheet)
    else if Contains(uri.value, "log") then Some(LogSheet)
    else if Contains(uri.value, "reservation") then Some(ReservationSheet)
    else if Contains(uri.value, "room") then Some(RoomSheet)
    else None
  }

  /** A text lacking one of the needle's characters does not contain it. */
  lemma MissingCharacter(hay: string, needle: string, i: nat)
    requires i < |needle| && needle[i] !in hay
    ensures !Contains(hay, needle)
  {
    if Contains(hay, needle) {
      var k := ContainsWitness(hay, needle);
    }
  }

  /** What may follow an endpoint's path: path separators and numeric ids. */
  predicate PathTail(tail: string) {
    forall i :: 0 <= i < |tail| ==> IsDigit(tail[i]) || tail[i] == '/'
  }

  /** A text holding `needle` right after `front` contains it. */
  lemma ContainsAfter(front: string, needle: string, tail: string)
    ensures Contains(front + needle + tail, needle)
  {
    assert (front + needle + tail)[|front|..|front| + |needle|] == needle;
    ContainsAt(front + needle + tail, needle, |front|);
  }

  /** Administrator access lands on the access sheet. */
  lemma AccessEndpointRoute(tail: string)
    requires PathTail(tail)
    ensures RouteSheet(Some("/api/admin/access" + tail)) == Some(AccessSheet)
  {
    assert "/api/admin/access" + tail == "/api/admin/" + "access" + tail;
    ContainsAfter("/api/admin/", "access", tail);
  }

  /** The log download lands on the log sheet. */
  lemma LogEndpointRoute(tail: string)
    requires PathTail(tail)
    ensures RouteSheet(Some("/api/admin/log" + tail)) == Some(LogSheet)
  {
    var uri := "/api/admin/" + "log" + tail;
    assert "/api/admin/log" + tail == uri;
    MissingCharacter(uri, "access", 1);
    ContainsAfter("/api/admin/", "log", tail);
  }

  /** A URI naming `reservation` after a prefix that cannot hold `access`
      or `log` lands on the reservation sheet. */
  lemma ReservationRoute(front: string, tail: string)
    requires 'c' !in front && 'g' !in front && PathTail(tail)
    ensures RouteSheet(Some(front + "reservation" + tail)) == Some(ReservationSheet)
  {
    var uri := front + "reservation" + tail;
    assert 'c' !in tail && 'g' !in tail;
    MissingCharacter(uri, "access", 1);
    MissingCharacter(uri, "log", 2);
    ContainsAfter(front, "reservation", tail);
  }

  /** The student's and the administrator's booking endpoints land on the
      reservation sheet. */
  lemma BookingEndpointRoute(tail: string)
    requires PathTail(tail)
    ensures RouteSheet(Some("/api/reservation" + tail)) == Some(ReservationSheet)
    ensures RouteSheet(Some("/api/admin/reservation" + tail)) == Some(ReservationSheet)
  {
    assert "/api/reservation" + tail == "/api/" + "reservation" + tail;
    ReservationRoute("/api/", tail);
    assert "/api/admin/reservation" + tail == "/api/admin/" + "reservation" + tail;
    ReservationRoute("/api/admin/", tail);
  }

  /** The room endpoints, with or without the room id, land on the room
      sheet. */
  lemma RoomEndpointRoute(tail: string)
    requires PathTail(tail)
    ensures RouteSheet(Some("/api/admin/room" + tail)) == Some(RoomSheet)
  {
    var uri := "/api/admin/" + "room" + tail;
    assert "/api/admin/room" + tail == uri;
    MissingCharacter(uri, "access", 1);
    MissingCharacter(uri, "log", 2);
    MissingCharacter(uri, "reservation", 5);
    ContainsAfter("/api/admin/", "room", tail);
  }

  /** `Map.get`: `null` for a missing key. */
  function Get(m: map<string, string>, k: string): Option<string> {
    if k in m then Some(m[k]) else None
  }

  /** A row of a sheet: TIMESTAMP, IP, METHOD, RESPONSE and PARAMETER, in
      that order; the URI is not a column. */
  function RowOf(m: map<string, string>): (r: seq<Option<string>>)
    ensures |r| == 5
    ensures r[0] == Get(m, "TIMESTAMP") && r[1] == Get(m, "IP") && r[2] == Get(m, "METHOD")
    ensures r[3] == Get(m, "RESPONSE") && r[4] == Get(m, "PARAMETER")
  {
    [Get(m, "TIMESTAMP"), Get(m, "IP"), Get(m, "METHOD"), Get(m, "RESPONSE"), Get(m, "PARAMETER")]
  }

  /** The sheet a line goes to, if any. */
  function SheetOf(line: string): Option<Sheet> {
    RouteSheet(Get(ConvertLogToMap(line), "URI"))
  }
  /** A logged request fills one row with the timestamp, address, method,
      response and parameter it was logged with, on the sheet its URI
      selects. */
  lemma LoggedLineRow(prefix: string, timestamp: string, ip: string, httpMethod: string,
                      uri: string, response: string, parameter: string)
    requires OpensNoField(prefix)
    requires Clean(timestamp) && Clean(ip) && Clean(httpMethod) && Clean(uri) && Clean(response) && Clean(parameter)
    ensures var line := prefix + FormatLine(timestamp, ip, httpMethod, uri, response, parameter);
            && SheetOf(line) == RouteSheet(Some(uri))
            && RowOf(ConvertLogToMap(line)) == [Some(timestamp), Some(ip), Some(httpMethod), Some(response), Some(parameter)]
  {
    FormatLineRoundTrip(prefix, timestamp, ip, httpMethod, uri, response, parameter);
  }


  /** The rows a sheet receives from the given lines, in line order. */
  function RowsFor(lines: seq<string>, sheet: Sheet): (r: seq<seq<Option<string>>>)
    ensures |r| <= |lines|
    ensures forall i :: 0 <= i < |r| ==> |r[i]| == 5
  {
    if |lines| == 0 then []
    else
      var n := |lines| - 1;
      RowsFor(lines[..n], sheet)
        + (if SheetOf(lines[n]) == Some(sheet) then [RowOf(ConvertLogToMap(lines[n]))] else [])
  }

  /** The loop of `createLogExcel` over all log lines: every line with a
      URI that names one of the sheets adds its row to that sheet, in line
      order; other lines are dropped. */
  method CreateLogSheets(lines: seq<string>) returns (sheets: map<Sheet, seq<seq<Option<string>>>>)
    ensures sheets.Keys == {AccessSheet, LogSheet, ReservationSheet, RoomSheet}
    ensures forall sh :: sh in sheets ==> sheets[sh] == RowsFor(lines, sh)
  {
    sheets := map[AccessSheet := [], LogSheet := [], ReservationSheet := [], RoomSheet := []];
    var i := 0;
    while i < |lines|
      invariant 0 <= i <= |lines|
      invariant sheets.Keys == {AccessSheet, LogSheet, ReservationSheet, RoomSheet}
      invariant forall sh :: sh in sheets ==> sheets[sh] == RowsFor(lines[..i], sh)
    {
      RowsForStep(lines, i);
      var logMap := ConvertLogToMap(lines[i]);
      var sheet := RouteSheet(Get(logMap, "URI"));
      if sheet.Some? {
        sheets := sheets[sheet.value := sheets[sheet.value] + [RowOf(logMap)]];
      }
      i := i + 1;
    }
    assert lines[..i] == lines;
  }

  /** One more line adds its row to the sheet it is routed to and nothing
      to the others. */
  lemma RowsForStep(lines: seq<string>, i: nat)
    requires i < |lines|
    ensures forall sh :: RowsFor(lines[..i + 1], sh) ==
              RowsFor(lines[..i], sh) + (if SheetOf(lines[i]) == Some(sh) then [RowOf(ConvertLogToMap(lines[i]))] else [])
  {
    assert lines[..i + 1][..i] == lines[..i];
  }

  /** Every line lands on at most one sheet, so the sheets together never
      hold more rows than there are lines. */
  lemma {:induction false} RowsPartition(lines: seq<string>)
    ensures |RowsFor(lines, AccessSheet)| + |RowsFor(lines, LogSheet)|
          + |RowsFor(lines, ReservationSheet)| + |RowsFor(lines, RoomSheet)| <= |lines|
  {
    if |lines| > 0 {
      RowsPartition(lines[..|lines| - 1]);
    }
  }

  /** A line without a URI adds no row anywhere. */
  lemma NoUriNoRow(line: string)
    requires "URI" !in ConvertLogToMap(line) || ConvertLogToMap(line)["URI"] == ""
    ensures SheetOf(line).None?
  {
  }
}
