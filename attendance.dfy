/**
  The employee's attendance screen: how a record returned by a sign-in or
  sign-out request enters the local list, the order in which the list is shown,
  the time, date and duration formatters, and the derived state of today's
  button and of each row's status badge.

  Dates and timestamps arrive already parsed (see `Stamp`); an id of 0 stands
  for a missing id, since both are falsy in the source.
 */
module Attendance {
  import opened Maybe
  import opened JsText

  // ---------------------------------------------------------------------------
  // Data
  // ---------------------------------------------------------------------------

  /** A text that is not empty, so truthy in the source. */
  type NonEmptyString = s: string | s != "" witness "?"

  /** A date or timestamp field as `new Date(field)` sees it: missing or empty
      (falsy), a non-empty string that does not parse, or a parsed value. */
  datatype Stamp<T> = Missing | Unparsable(raw: NonEmptyString) | Valid(value: T)

  /** A field is truthy when it is a non-empty string, parsable or not. */
  predicate Truthy<T>(s: Stamp<T>) {
    !s.Missing?
  }

  type MonthIndex = m: int | 0 <= m < 12
  type DayOfMonth = d: int | 1 <= d <= 31 witness 1

  /** The local calendar fields of a parsed date: `getFullYear()`, `getMonth()`
      (counted from 0) and `getDate()`. */
  datatype CalendarDay = CalendarDay(year: int, month: MonthIndex, day: DayOfMonth)

  /** One attendance row: `date` is the parsed value of `row.date ||
      row.attendance_date` in milliseconds; the sign-in and sign-out times are
      instants in milliseconds since the epoch. */
  datatype Record = Record(id: nat, date: int, signIn: Stamp<int>, signOut: Stamp<int>)

  // ---------------------------------------------------------------------------
  // Upserting a returned record
  // ---------------------------------------------------------------------------

  /** The index the `findIndex` search by id reports: the first row carrying
      that id, or -1 when there is none. */
  function FirstIndexWithId(rows: seq<Record>, id: nat): (k: int)
    ensures -1 <= k < |rows|
    ensures k >= 0 ==> rows[k].id == id
    ensures forall j :: 0 <= j < |rows| && (k < 0 || j < k) ==> rows[j].id != id
  {
    if rows == [] then -1
    else if rows[0].id == id then 0
    else
      var k := FirstIndexWithId(rows[1..], id);
      if k < 0 then -1 else k + 1
  }

  /** The list after the record is upserted: the first row with the same id is
      replaced in place, otherwise the record is put in front. */
  function Upserted(rows: seq<Record>, rec: Record): (r: seq<Record>)
    ensures rec in r
    // a row with the id is overwritten, so the length stays
    ensures (exists j :: 0 <= j < |rows| && rows[j].id == rec.id) ==> |r| == |rows|
    // without one the list grows by the record in front
    ensures (forall j :: 0 <= j < |rows| ==> rows[j].id != rec.id) ==> r == [rec] + rows
  {
    var k := FirstIndexWithId(rows, rec.id);
    if k >= 0 then
      assert rows[k := rec][k] == rec;
      rows[k := rec]
    else
      assert ([rec] + rows)[0] == rec;
      [rec] + rows
  }

  /** The search loop of `findIndex`. */
  method FindIndexById(rows: seq<Record>, id: nat) returns (idx: int)
    ensures idx == FirstIndexWithId(rows, id)
  {
    idx := 0;
    while idx < |rows| && rows[idx].id != id
      invariant 0 <= idx <= |rows|
      invariant forall j :: 0 <= j < idx ==> rows[j].id != id
    {
      idx := idx + 1;
    }
    if idx == |rows| {
      idx := -1;
    }
  }

  /** The `setItems` callback of `signIn` and `signOut`: copy the list, then
      assign at the found index or `unshift` the record. */
  method UpsertRow(prev: seq<Record>, rec: Record) returns (rows: seq<Record>)
    ensures rows == Upserted(prev, rec)
  {
    rows := prev;
    var idx := FindIndexById(rows, rec.id);
    if idx >= 0 {
      rows := rows[idx := rec];
    } else {
      rows := [rec] + rows;
    }
  }

  /** When a row with the record's id exists, the first such row is replaced at
      its own index; the length and every other row stay as they were. */
  lemma UpsertReplacesInPlace(rows: seq<Record>, rec: Record, k: nat)
    requires k < |rows| && rows[k].id == rec.id
    requires forall j :: 0 <= j < k ==> rows[j].id != rec.id
    ensures |Upserted(rows, rec)| == |rows|
    ensures Upserted(rows, rec)[k] == rec
    ensures forall j :: 0 <= j < |rows| && j != k ==> Upserted(rows, rec)[j] == rows[j]
  {
    assert FirstIndexWithId(rows, rec.id) == k;
  }

  /** When no row has the record's id, the record is put in front of the
      unchanged list, which grows by exactly one. */
  lemma UpsertPrepends(rows: seq<Record>, rec: Record)
    requires forall j :: 0 <= j < |rows| ==> rows[j].id != rec.id
    ensures Upserted(rows, rec) == [rec] + rows
    ensures |Upserted(rows, rec)| == |rows| + 1
  {
    assert FirstIndexWithId(rows, rec.id) < 0;
  }

  /** The record is in the result, and removing it leaves the other rows in
      their old relative order: the old list without the replaced row, or the
      whole old list when the record was prepended. */
  lemma UpsertKeepsOthers(rows: seq<Record>, rec: Record)
    ensures var r := Upserted(rows, rec);
            var k := FirstIndexWithId(rows, rec.id);
            if k >= 0 then |r| == |rows| && r[k] == rec && r[..k] + r[k + 1..] == rows[..k] + rows[k + 1..]
            else |r| == |rows| + 1 && r[0] == rec && r[1..] == rows
  {
    var r := Upserted(rows, rec);
    var k := FirstIndexWithId(rows, rec.id);
    if k >= 0 {
      assert r[..k] == rows[..k];
      assert r[k + 1..] == rows[k + 1..];
    } else {
      assert r[1..] == rows;
    }
  }

  // ---------------------------------------------------------------------------
  // Handling the reply of a sign-in or sign-out request
  // ---------------------------------------------------------------------------

  datatype Action = SignIn | SignOut

  /** What the request produced: the response body (`res`, possibly null), or an
      exception with the server's message ("" when it sent none). */
  datatype Reply = Replied(body: Option<Record>) | Threw(message: string)

  /** The outcome of `refreshTodayWithRetry`: the record it read (possibly null)
      or a failed read, which leaves `today` alone and yields null. */
  datatype Refresh = Refreshed(record: Option<Record>) | RefreshFailed

  /** The outcome of re-reading the list on the fallback path: the rows (a reply
      that is not an array counts as no rows), or an exception with the server's
      message ("" when it sent none). */
  datatype Relist = Listed(rows: seq<Record>) | ListThrew(message: string)

  /** The part of the screen's state that a sign-in or sign-out changes. */
  datatype Screen = Screen(today: Option<Record>, items: seq<Record>, error: string, success: string)

  /** `res?.id` is truthy. */
  predicate HasId(body: Option<Record>): (b: bool)
    ensures b ==> body.Some? && body.value.id > 0
    ensures body.None? ==> !b
  {
    body.Some? && body.value.id != 0
  }

  /** The message of a caught exception: the server's, or the fallback. */
  function FailureMessage(act: Action, message: string): (m: string)
    ensures m != ""
    ensures message != "" ==> m == message
  {
    if message != "" then message
    else if act == SignIn then "Failed to sign in" else "Failed to sign out"
  }

  /** The refresh read a record whose sign-in (for a sign-in) or sign-out (for
      a sign-out) time is set. */
  predicate Confirmed(act: Action, refresh: Refresh) {
    && refresh.Refreshed? && refresh.record.Some?
    && Truthy(if act == SignIn then refresh.record.value.signIn else refresh.record.value.signOut)
  }

  /** The fallback path, for a reply without an id: today's record is what the
      refresh read (kept when the refresh failed); the list is the one re-read,
      and success is reported only when the re-read record has the time set; a
      failed re-read keeps the old list and shows the error. */
  function AfterFallback(s: Screen, act: Action, refresh: Refresh, relisted: Relist): (r: Screen)
    ensures r.today == if refresh.Refreshed? then refresh.record else s.today
    ensures relisted.Listed? ==> r.items == relisted.rows
    ensures relisted.Listed? ==> (r.success != "" <==> Confirmed(act, refresh))
    ensures relisted.ListThrew? ==>
              r.items == s.items && r.success == "" && r.error == FailureMessage(act, relisted.message)
    ensures (r.error == "") != (r.success == "")
  {
    var today := if refresh.Refreshed? then refresh.record else s.today;
    match relisted
    case ListThrew(message) => Screen(today, s.items, FailureMessage(act, message), "")
    case Listed(rows) =>
      if Confirmed(act, refresh) then Screen(today, rows, "", if act == SignIn then "Signed in successfully" else "Signed out successfully")
      else Screen(today, rows,
                  if act == SignIn then "Sign in may have failed. Please refresh."
                  else "Sign out may have failed. Please refresh.", "")
  }

  /** The screen after `signIn` (lines 62-103) or `signOut` (lines 105-146), given
      the reply and, for the fallback path, what the refresh and the list
      request returned. */
  function AfterReply(s: Screen, act: Action, reply: Reply, refresh: Refresh, relisted: Relist): (r: Screen)
    // a record with an id is upserted and becomes today's record
    ensures reply.Replied? && HasId(reply.body) ==>
              r.today == reply.body && r.items == Upserted(s.items, reply.body.value) && r.error == ""
    // a reply without an id never enters the list: the fallback path runs
    ensures reply.Replied? && !HasId(reply.body) ==> r == AfterFallback(s, act, refresh, relisted)
    // a failed request changes neither today's record nor the list
    ensures reply.Threw? ==> r.today == s.today && r.items == s.items && r.success == "" && r.error != ""
    // exactly one of the two messages is shown
    ensures (r.error == "") != (r.success == "")
  {
    match reply
    case Threw(message) =>
      Screen(s.today, s.items, FailureMessage(act, message), "")
    case Replied(body) =>
      if HasId(body) then
        Screen(body, Upserted(s.items, body.value), "", if act == SignIn then "Signed in successfully" else "Signed out successfully")
      else AfterFallback(s, act, refresh, relisted)
  }


  // ---------------------------------------------------------------------------
  // Display order
  // ---------------------------------------------------------------------------

  /** The comparator of `displayed` (lines 180-186): negative when `x` is shown
      before `y`. */
  function Compare(x: Record, y: Record): int {
    var cmp := y.date - x.date;
    if cmp != 0 then cmp else y.id - x.id
  }

  /** The comparator is negative exactly when the first row has the later date,
      or the same date and the higher id, and zero exactly when both agree. */
  lemma CompareSign(x: Record, y: Record)
    ensures Compare(x, y) < 0 <==> x.date > y.date || (x.date == y.date && x.id > y.id)
    ensures Compare(x, y) == 0 <==> x.date == y.date && x.id == y.id
  {
  }

  /** Every row is shown no later than the rows after it. */
  predicate DisplayOrdered(s: seq<Record>) {
    forall p, q :: 0 <= p < q < |s| ==> Compare(s[p], s[q]) <= 0
  }

  /** The comparator orders by date, newest first, and breaks ties by id,
      highest first (a missing id counting as 0). */
  lemma DisplayOrderMeaning(s: seq<Record>)
    ensures DisplayOrdered(s) <==>
              forall p, q :: 0 <= p < q < |s| ==>
                s[p].date > s[q].date || (s[p].date == s[q].date && s[p].id >= s[q].id)
  {
  }

  lemma CompareTransitive(x: Record, y: Record, z: Record)
    requires Compare(x, y) <= 0 && Compare(y, z) <= 0
    ensures Compare(x, z) <= 0
  {
  }

  /** One step of the insertion: the element at `j` moves one place forward. */
  method SwapBack(a: array<Record>, j: int)
    requires 0 < j < a.Length
    modifies a
    ensures a[..] == old(a[..])[j - 1 := old(a[j])][j := old(a[j - 1])]
    ensures multiset(a[..]) == multiset(old(a[..]))
  {
    a[j - 1], a[j] := a[j], a[j - 1];
  }

  /** The insertion is complete once the element at `j` is not ordered before
      its left neighbour. */
  lemma InsertionComplete(s: seq<Record>, i: int, j: int)
    requires 0 <= j <= i < |s|
    requires forall p, q :: 0 <= p < q <= i && p != j && q != j ==> Compare(s[p], s[q]) <= 0
    requires forall q :: j < q <= i ==> Compare(s[j], s[q]) <= 0
    requires j == 0 || Compare(s[j - 1], s[j]) <= 0
    ensures DisplayOrdered(s[..i + 1])
  {
    forall p, q | 0 <= p < q <= i
      ensures Compare(s[p], s[q]) <= 0
    {
      if q == j && p < j - 1 {
        CompareTransitive(s[p], s[j - 1], s[j]);
      }
    }
  }

  /** Inserts `a[i]` into the ordered prefix `a[..i]`. */
  method InsertIntoPrefix(a: array<Record>, i: int)
    requires 0 <= i < a.Length
    requires DisplayOrdered(a[..i])
    modifies a
    ensures DisplayOrdered(a[..i + 1])
    ensures multiset(a[..]) == multiset(old(a[..]))
  {
    var j := i;
    while j > 0 && Compare(a[j - 1], a[j]) > 0
      invariant 0 <= j <= i
      invariant forall p, q :: 0 <= p < q <= i && p != j && q != j ==> Compare(a[p], a[q]) <= 0
      invariant forall q :: j < q <= i ==> Compare(a[j], a[q]) <= 0
      invariant multiset(a[..]) == multiset(old(a[..]))
    {
      SwapBack(a, j);
      j := j - 1;
    }
    InsertionComplete(a[..], i, j);
  }

  /** The in-place `sort` of the copied array, as an insertion sort. */
  method SortForDisplay(a: array<Record>)
    modifies a
    ensures DisplayOrdered(a[..])
    ensures multiset(a[..]) == multiset(old(a[..]))
  {
    var i := 0;
    while i < a.Length
      invariant 0 <= i <= a.Length
      invariant DisplayOrdered(a[..i])
      invariant multiset(a[..]) == multiset(old(a[..]))
    {
      InsertIntoPrefix(a, i);
      i := i + 1;
    }
    assert a[..i] == a[..];
  }

  /** The `displayed` memo: a sorted copy of the items. */
  method Displayed(items: seq<Record>) returns (shown: seq<Record>)
    ensures DisplayOrdered(shown)
    ensures multiset(shown) == multiset(items)
  {
    var a := new Record[|items|](k requires 0 <= k < |items| => items[k]);
    assert a[..] == items;
    SortForDisplay(a);
    shown := a[..];
  }

  // ---------------------------------------------------------------------------
  // Formatters
  // ---------------------------------------------------------------------------

  /** Hours and minutes of the local clock at instant `ms`, for a time zone at
      `offsetMs` from UTC: `getHours()` is floor(local / 3600000) mod 24 and
      `getMinutes()` is floor(local / 60000) mod 60. */
  function ClockHours(ms: int, offsetMs: int): (h: nat)
    ensures h < 24
  {
    ((ms + offsetMs) / 3600000) % 24
  }

  function ClockMinutes(ms: int, offsetMs: int): (m: nat)
    ensures m < 60
  {
    ((ms + offsetMs) / 60000) % 60
  }

  /** `formatTime` (lines 148-155): "-" for a missing or unparsable time,
      otherwise five characters with the colon in the middle. */
  function FormatTime(t: Stamp<int>, offsetMs: int): (r: string)
    ensures r == "-" <==> !t.Valid?
    ensures t.Valid? ==> |r| == 5 && r[2] == ':'
  {
    match t
    case Valid(ms) =>
      var h, m := ClockHours(ms, offsetMs), ClockMinutes(ms, offsetMs);
      PaddedDecimal(h);
      PaddedDecimal(m);
      PadStart2(NatToDecimal(h)) + ":" + PadStart2(NatToDecimal(m))
    case _ => "-"
  }

  /** The minute of the local day: hours and minutes of the clock together. */
  lemma ClockReading(ms: int, offsetMs: int)
    ensures ClockHours(ms, offsetMs) * 60 + ClockMinutes(ms, offsetMs) == ((ms + offsetMs) / 60000) % 1440
  {
    var local := ms + offsetMs;
    var m := local / 60000;
    assert local / 3600000 == m / 60;
  }

  /** A valid time prints as "HH:MM", two digits each, reading back as the
      minute of the local day. */
  lemma FormatTimeShape(t: Stamp<int>, offsetMs: int)
    ensures t.Valid? ==>
              var r := FormatTime(t, offsetMs);
              |r| == 5 && r[2] == ':' && AllDigits(r[..2]) && AllDigits(r[3..])
              && DecimalValue(r[3..]) < 60
              && DecimalValue(r[..2]) * 60 + DecimalValue(r[3..]) == ((t.value + offsetMs) / 60000) % 1440
  {
    if t.Valid? {
      var h := ClockHours(t.value, offsetMs);
      var m := ClockMinutes(t.value, offsetMs);
      PaddedDecimal(h);
      PaddedDecimal(m);
      ClockReading(t.value, offsetMs);
      var r := FormatTime(t, offsetMs);
      assert r[..2] == PadStart2(NatToDecimal(h));
      assert r[3..] == PadStart2(NatToDecimal(m));
    }
  }

  /** `formatDateDMY` (lines 157-165): "-" for a missing date, the first ten
      characters of an unparsable one, and "DD-MM-" followed by the year for a
      valid one. */
  function FormatDateDMY(d: Stamp<CalendarDay>): (r: string)
    ensures r != ""
    ensures d.Missing? ==> r == "-"
    ensures d.Unparsable? ==> |r| == (if |d.raw| < 10 then |d.raw| else 10) && r == d.raw[..|r|]
    ensures d.Valid? ==> |r| > 6 && r[2] == '-' && r[5] == '-'
  {
    match d
    case Missing => "-"
    case Unparsable(raw) => if |raw| <= 10 then raw else raw[..10]
    case Valid(c) =>
      PaddedDecimal(c.day);
      PaddedDecimal(c.month + 1);
      PadStart2(NatToDecimal(c.day)) + "-" + PadStart2(NatToDecimal(c.month + 1)) + "-" + IntToDecimal(c.year)
  }

  /** "DD-MM-YYYY" with two-character day and month splits back at its dashes. */
  lemma DashSplit(dd: string, mm: string, yy: string)
    requires |dd| == 2 && |mm| == 2
    ensures var r := dd + "-" + mm + "-" + yy;
            && |r| == 6 + |yy| && r[2] == '-' && r[5] == '-'
            && r[..2] == dd && r[3..5] == mm && r[6..] == yy
  {
    var r := dd + "-" + mm + "-" + yy;
    assert r[..2] == dd;
    assert r[3..5] == mm;
    assert r[6..] == yy;
  }

  /** A valid date prints as two-digit day, "-", two-digit 1-based month, "-",
      and the year. */
  lemma FormatDateValid(c: CalendarDay)
    ensures var r := FormatDateDMY(Valid(c));
            |r| > 6 && r[2] == '-' && r[5] == '-' && AllDigits(r[..2]) && AllDigits(r[3..5])
            && DecimalValue(r[..2]) == c.day
            && DecimalValue(r[3..5]) == c.month + 1
            && r[6..] == IntToDecimal(c.year)
  {
    PaddedDecimal(c.day);
    PaddedDecimal(c.month + 1);
    var dd, mm, yy := PadStart2(NatToDecimal(c.day)), PadStart2(NatToDecimal(c.month + 1)), IntToDecimal(c.year);
    assert FormatDateDMY(Valid(c)) == dd + "-" + mm + "-" + yy;
    DashSplit(dd, mm, yy);
  }

  /** `formatDuration` (lines 167-176): "-" exactly when an end is missing or
      unparsable or the end is before the start, otherwise the elapsed minutes
      as hours and minutes. */
  function FormatDuration(start: Stamp<int>, end: Stamp<int>): (r: string)
    ensures r == "-" <==> !start.Valid? || !end.Valid? || end.value < start.value
  {
    if !start.Valid? || !end.Valid? || end.value < start.value then "-"
    else
      var mins := ElapsedMinutes(start.value, end.value);
      MinutesTextShape(mins);
      MinutesText(mins)
  }

  /** "HH:MM" with a two-character minute part splits back at its colon. */
  lemma ColonSplit(hh: string, mm: string)
    requires |mm| == 2
    ensures var r := hh + ":" + mm;
            && |r| - 3 == |hh| && r[|hh|] == ':' && r[..|hh|] == hh && r[|hh| + 1..] == mm
  {
    var r := hh + ":" + mm;
    assert r[..|hh|] == hh;
    assert r[|hh| + 1..] == mm;
  }

  /** The whole minutes elapsed from instant `a` to the later instant `b`,
      rounded down. */
  function ElapsedMinutes(a: int, b: int): nat
    requires a <= b
  {
    (b - a) / 60000
  }

  /** A number of minutes as "HH:MM", each part padded to two digits. */
  function MinutesText(mins: nat): string {
    PadStart2(NatToDecimal(mins / 60)) + ":" + PadStart2(NatToDecimal(mins % 60))
  }

  lemma MinutesTextShape(mins: nat)
    ensures var r := MinutesText(mins);
            var k := |r| - 3;
            k >= 2 && r[k] == ':' && AllDigits(r[..k]) && AllDigits(r[k + 1..])
            && |r[k + 1..]| == 2 && DecimalValue(r[k + 1..]) < 60
            && DecimalValue(r[..k]) * 60 + DecimalValue(r[k + 1..]) == mins
  {
    var hh := PadStart2(NatToDecimal(mins / 60));
    var mm := PadStart2(NatToDecimal(mins % 60));
    PaddedDecimal(mins / 60);
    PaddedDecimal(mins % 60);
    ColonSplit(hh, mm);
  }

  /** Otherwise it is "HH:MM" where MM is two digits below 60, HH is at least two
      digits and never cut short, and HH * 60 + MM is the number of whole minutes
      between the two instants. */
  lemma FormatDurationText(start: Stamp<int>, end: Stamp<int>)
    requires start.Valid? && end.Valid? && start.value <= end.value
    ensures var r := FormatDuration(start, end);
            var k := |r| - 3;
            k >= 2 && r[k] == ':' && AllDigits(r[..k]) && AllDigits(r[k + 1..])
            && |r[k + 1..]| == 2 && DecimalValue(r[k + 1..]) < 60
            && DecimalValue(r[..k]) * 60 + DecimalValue(r[k + 1..]) == ElapsedMinutes(start.value, end.value)
  {
    var mins := ElapsedMinutes(start.value, end.value);
    assert FormatDuration(start, end) == MinutesText(mins);
    MinutesTextShape(mins);
  }

  // ---------------------------------------------------------------------------
  // Today's state, the action button and the status badge
  // ---------------------------------------------------------------------------

  /** `todayState` (lines 190-197). */
  datatype TodayState = TodayState(signedIn: bool, signedOut: bool)

  function TodayStateOf(today: Option<Record>): (t: TodayState)
    ensures t.signedIn <==> today.Some? && Truthy(today.value.signIn)
    ensures t.signedOut <==> today.Some? && Truthy(today.value.signOut)
  {
    match today
    case None => TodayState(false, false)
    case Some(r) => TodayState(Truthy(r.signIn), Truthy(r.signOut))
  }

  /** The one action button of the toolbar (lines 204-224). */
  datatype Button = Button(action: Action, caption: string, disabled: bool)

  function ActionButton(today: Option<Record>, saving: bool, loading: bool): (b: Button)
    // Sign In is offered exactly when today has no sign-in time
    ensures b.action == SignIn <==> today.None? || !Truthy(today.value.signIn)
    // it is disabled only while a request or a load is running
    ensures b.action == SignIn ==> (b.disabled <==> saving || loading)
    // Sign Out is disabled while busy and for good once a sign-out time exists
    ensures b.action == SignOut ==>
              (b.disabled <==> saving || loading || Truthy(today.value.signOut))
    ensures b.action == SignOut && !saving && Truthy(today.value.signOut) ==> b.caption == "Signed Out"
  {
    var t := TodayStateOf(today);
    if !t.signedIn then
      Button(SignIn, if saving then "Signing in..." else "Sign In", saving || loading)
    else
      Button(SignOut, if saving then "Signing out..." else if t.signedOut then "Signed Out" else "Sign Out",
             saving || loading || t.signedOut)
  }

  /** The status badge of a row (lines 282-294): its tone and its text. */
  datatype Badge = Badge(tone: string, caption: string)

  /** The em dash the rest of the client shows for an empty value. */
  const Dash: string := "\U{2014}"

  /** The three characters the source file holds where the em dash was meant:
      its UTF-8 bytes read back as Windows-1252. */
  const DashAsWritten: string := "\U{00E2}\U{20AC}\U{201D}"

  function BadgeWith(row: Record, none: string): Badge {
    if Truthy(row.signIn) && Truthy(row.signOut) then Badge("success", "Present")
    else if Truthy(row.signIn) then Badge("muted", "Signed In")
    else Badge("muted", none)
  }

  /** The badge as the source file has it: the same cases, with the garbled
      text in place of the dash. */
  function StatusBadgeAsWritten(row: Record): (b: Badge)
    ensures b.caption == "Present" <==> Truthy(row.signIn) && Truthy(row.signOut)
    ensures b.caption == "Signed In" <==> Truthy(row.signIn) && !Truthy(row.signOut)
    ensures b.caption == DashAsWritten <==> !Truthy(row.signIn)
    ensures b.tone == "success" <==> b.caption == "Present"
  {
    BadgeWith(row, DashAsWritten)
  }

  /** A row without a sign-in time shows three stray characters, not a dash. */
  lemma BadgeShowsMojibake(row: Record)
    requires !Truthy(row.signIn)
    ensures StatusBadgeAsWritten(row).caption != Dash
    ensures |StatusBadgeAsWritten(row).caption| == 3
  {
    assert StatusBadgeAsWritten(row).caption[0] != Dash[0];
  }

  /** The badge with the intended dash: "Present" exactly when both times are
      set, "Signed In" exactly when only the sign-in time is, a dash otherwise;
      only "Present" gets the success tone. */
  function StatusBadge(row: Record): (b: Badge)
    ensures b.caption == "Present" <==> Truthy(row.signIn) && Truthy(row.signOut)
    ensures b.caption == "Signed In" <==> Truthy(row.signIn) && !Truthy(row.signOut)
    ensures b.caption == Dash <==> !Truthy(row.signIn)
    ensures b.tone == "success" <==> b.caption == "Present"
  {
    BadgeWith(row, Dash)
  }
}
