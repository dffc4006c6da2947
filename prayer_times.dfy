/**
 * Prayer-time selection with the clock as a parameter: instants are integer
 * milliseconds, `now` is passed in, and the day on which the "HH:MM" texts of
 * the prayer-time service are placed is given by the instant it starts at.
 */
module PrayerTimes {
  import opened Options
  import opened Decimal
  import opened Text

  const MsPerMinute: int := 60000
  const MsPerHour: int := 3600000

  /** A prayer of the day; `time` is its instant in milliseconds. */
  datatype Prayer = Prayer(name: string, arabicName: string, time: int)

  // ---------------------------------------------------------------------
  // formatPrayerTime: reading "HH:MM"
  // ---------------------------------------------------------------------

  /**
   * `const [hours, minutes] = timeString.split(':').map(Number)`: None when
   * either is NaN, or when there is no second piece (minutes is undefined).
   */
  function ClockFields(timeString: string): Option<(int, int)> {
    var parts := Split(timeString, ':');
    if |parts| < 2 then None
    else
      match (NumberValue(parts[0]), NumberValue(parts[1]))
      case (Some(h), Some(m)) => Some((h, m))
      case _ => None
  }

  /**
   * The instant `formatPrayerTime` builds with `setHours(hours, minutes, 0, 0)`
   * on the day that starts at `dayStart`.  None is an invalid Date, on which
   * `toISOString` throws.
   */
  function PrayerInstant(timeString: string, dayStart: int): (r: Option<int>)
    ensures r.Some? ==> (r.value - dayStart) % MsPerMinute == 0
  {
    match ClockFields(timeString)
    case None => None
    case Some((h, m)) =>
      var sinceDayStart := (h * 60 + m) * MsPerMinute;
      assert sinceDayStart % MsPerMinute == 0;
      Some(dayStart + sinceDayStart)
  }

  /** Two-digit rendering of a clock field, as the prayer-time service writes it. */
  function TwoDigits(n: nat): (s: string)
    ensures |s| > 0 && AllDigits(s) && DigitsValue(s) == n
  {
    NatToStringValue(n);
    if n < 10 then (LeadingZero(NatToString(n)); "0" + NatToString(n)) else NatToString(n)
  }

  lemma DigitsHaveNoColon(s: string)
    requires AllDigits(s)
    ensures ':' !in s
  {
    forall i | 0 <= i < |s| ensures s[i] != ':' { assert IsDigit(s[i]); }
  }

  /** The text of a clock time "HH:MM". */
  function ClockText(hours: nat, minutes: nat): string {
    TwoDigits(hours) + ":" + TwoDigits(minutes)
  }

  /** The two fields of "HH:MM" read back as the numbers written. */
  lemma ReadClockFields(hours: nat, minutes: nat)
    ensures ClockFields(ClockText(hours, minutes)) == Some((hours, minutes))
  {
    var hh, mm := TwoDigits(hours), TwoDigits(minutes);
    DigitsHaveNoColon(hh);
    DigitsHaveNoColon(mm);
    SplitAtSeparator(hh, mm, ':');
    SplitWithoutSeparator(hh, ':');
    SplitWithoutSeparator(mm, ':');
    assert ClockText(hours, minutes) == hh + [':'] + mm;
    assert NumberValue(hh) == Some(hours) by { assert IsDigit(hh[0]); }
    assert NumberValue(mm) == Some(minutes) by { assert IsDigit(mm[0]); }
  }

  /** Reading "HH:MM" places the prayer HH hours and MM minutes after the start of the day. */
  lemma ReadClockText(hours: nat, minutes: nat, dayStart: int)
    ensures PrayerInstant(ClockText(hours, minutes), dayStart)
              == Some(dayStart + hours * MsPerHour + minutes * MsPerMinute)
  {
    ReadClockFields(hours, minutes);
    assert (hours * 60 + minutes) * MsPerMinute == hours * MsPerHour + minutes * MsPerMinute;
  }

  // ---------------------------------------------------------------------
  // Sorting by time, as `sort((a, b) => a.time - b.time)` does (stably)
  // ---------------------------------------------------------------------

  /** Insert `p` before the first prayer that is not earlier than it. */
  function InsertByTime(p: Prayer, sorted: seq<Prayer>): seq<Prayer> {
    if sorted == [] || p.time <= sorted[0].time then [p] + sorted
    else [sorted[0]] + InsertByTime(p, sorted[1..])
  }

  /** A stable sort by time (insertion sort). */
  function SortByTime(prayers: seq<Prayer>): seq<Prayer> {
    if prayers == [] then [] else InsertByTime(prayers[0], SortByTime(prayers[1..]))
  }

  ghost predicate SortedByTime(s: seq<Prayer>) {
    forall i, j :: 0 <= i < j < |s| ==> s[i].time <= s[j].time
  }

  /** The prayers at instant `t`, in list order. */
  function AtTime(s: seq<Prayer>, t: int): seq<Prayer> {
    if s == [] then [] else (if s[0].time == t then [s[0]] else []) + AtTime(s[1..], t)
  }

  lemma {:induction false} InsertByTimePermutes(p: Prayer, s: seq<Prayer>)
    ensures multiset(InsertByTime(p, s)) == multiset(s) + multiset{p}
  {
    if s != [] && p.time > s[0].time {
      InsertByTimePermutes(p, s[1..]);
      assert s == [s[0]] + s[1..];
    }
  }

  lemma {:induction false} SortByTimePermutes(s: seq<Prayer>)
    ensures multiset(SortByTime(s)) == multiset(s)
  {
    if s != [] {
      SortByTimePermutes(s[1..]);
      InsertByTimePermutes(s[0], SortByTime(s[1..]));
      assert s == [s[0]] + s[1..];
    }
  }

  lemma {:induction false} InsertByTimeSorted(p: Prayer, s: seq<Prayer>)
    requires SortedByTime(s)
    ensures SortedByTime(InsertByTime(p, s))
  {
    if s != [] && p.time > s[0].time {
      InsertByTimeSorted(p, s[1..]);
      InsertByTimePermutes(p, s[1..]);
      var r := InsertByTime(p, s[1..]);
      forall x | x in r ensures s[0].time <= x.time {
        assert x in multiset(r);
        if x != p { assert x in s[1..]; }
      }
    }
  }

  lemma {:induction false} SortByTimeSorted(s: seq<Prayer>)
    ensures SortedByTime(SortByTime(s))
  {
    if s != [] {
      SortByTimeSorted(s[1..]);
      InsertByTimeSorted(s[0], SortByTime(s[1..]));
    }
  }

  lemma {:induction false} AtTimeConcat(a: seq<Prayer>, b: seq<Prayer>, t: int)
    ensures AtTime(a + b, t) == AtTime(a, t) + AtTime(b, t)
  {
    if a != [] {
      var head := if a[0].time == t then [a[0]] else [];
      calc {
        AtTime(a + b, t);
        { assert (a + b)[0] == a[0]; assert (a + b)[1..] == a[1..] + b; }
        head + AtTime(a[1..] + b, t);
        { AtTimeConcat(a[1..], b, t); }
        head + (AtTime(a[1..], t) + AtTime(b, t));
        (head + AtTime(a[1..], t)) + AtTime(b, t);
      }
    } else {
      assert a + b == b;
    }
  }

  lemma {:induction false} AtTimeNone(s: seq<Prayer>, t: int)
    requires forall i :: 0 <= i < |s| ==> s[i].time != t
    ensures AtTime(s, t) == []
  {
    if s != [] { AtTimeNone(s[1..], t); }
  }

  /** Stability of one insertion: the prayers at any instant keep their order. */
  lemma {:induction false} InsertByTimeStable(p: Prayer, s: seq<Prayer>, t: int)
    ensures AtTime(InsertByTime(p, s), t) == (if p.time == t then [p] else []) + AtTime(s, t)
  {
    if s != [] && p.time > s[0].time {
      var r := InsertByTime(p, s[1..]);
      assert InsertByTime(p, s) == [s[0]] + r;
      assert ([s[0]] + r)[1..] == r;
      InsertByTimeStable(p, s[1..], t);
      if p.time == t {
        assert s[0].time != t;
      }
    } else {
      assert InsertByTime(p, s) == [p] + s;
      assert ([p] + s)[1..] == s;
    }
  }

  /** The sort is stable: the prayers at any instant come out in their input order. */
  lemma {:induction false} SortByTimeStable(s: seq<Prayer>, t: int)
    ensures AtTime(SortByTime(s), t) == AtTime(s, t)
  {
    if s != [] {
      SortByTimeStable(s[1..], t);
      InsertByTimeStable(s[0], SortByTime(s[1..]), t);
    }
  }

  // ---------------------------------------------------------------------
  // getNextPrayer
  // ---------------------------------------------------------------------

  /** `prayers.filter(prayer => prayer.time > now)`. */
  function Upcoming(prayers: seq<Prayer>, now: int): seq<Prayer> {
    if prayers == [] then []
    else (if prayers[0].time > now then [prayers[0]] else []) + Upcoming(prayers[1..], now)
  }

  /** `getNextPrayer(prayers)` at instant `now`. */
  function NextPrayer(prayers: seq<Prayer>, now: int): Option<Prayer> {
    var upcoming := SortByTime(Upcoming(prayers, now));
    if |upcoming| > 0 then Some(upcoming[0]) else None
  }

  lemma {:induction false} UpcomingMembers(prayers: seq<Prayer>, now: int)
    ensures forall p :: p in Upcoming(prayers, now) <==> p in prayers && p.time > now
  {
    if prayers != [] {
      UpcomingMembers(prayers[1..], now);
      assert prayers == [prayers[0]] + prayers[1..];
    }
  }

  lemma {:induction false} UpcomingAtTime(prayers: seq<Prayer>, now: int, t: int)
    requires t > now
    ensures AtTime(Upcoming(prayers, now), t) == AtTime(prayers, t)
  {
    if prayers != [] {
      var first := if prayers[0].time > now then [prayers[0]] else [];
      AtTimeConcat(first, Upcoming(prayers[1..], now), t);
      UpcomingAtTime(prayers[1..], now, t);
    }
  }

  /**
   * The next prayer: strictly after `now`, no later than any other such
   * prayer, and the first listed among those at its instant.
   */
  ghost predicate IsNextPrayer(prayers: seq<Prayer>, now: int, p: Prayer) {
    && p in prayers
    && p.time > now
    && (forall q :: q in prayers && q.time > now ==> p.time <= q.time)
    && AtTime(prayers, p.time) != []
    && p == AtTime(prayers, p.time)[0]
  }

  lemma NextPrayerSpec(prayers: seq<Prayer>, now: int)
    ensures NextPrayer(prayers, now).None? <==> forall q :: q in prayers ==> q.time <= now
    ensures NextPrayer(prayers, now).Some? ==> IsNextPrayer(prayers, now, NextPrayer(prayers, now).value)
  {
    var upcoming := Upcoming(prayers, now);
    var sorted := SortByTime(upcoming);
    UpcomingMembers(prayers, now);
    SortByTimePermutes(upcoming);
    SortByTimeSorted(upcoming);
    assert forall q :: q in sorted <==> q in upcoming by {
      forall q ensures q in sorted <==> q in upcoming {
        assert q in sorted <==> q in multiset(sorted);
        assert q in upcoming <==> q in multiset(upcoming);
      }
    }
    if |sorted| > 0 {
      var p := sorted[0];
      forall q | q in prayers && q.time > now ensures p.time <= q.time {
        assert q in sorted;
        var k :| 0 <= k < |sorted| && sorted[k] == q;
      }
      SortByTimeStable(upcoming, p.time);
      UpcomingAtTime(prayers, now, p.time);
    }
  }

  // ---------------------------------------------------------------------
  // getCurrentPrayer
  // ---------------------------------------------------------------------

  /**
   * The current prayer: at or before `now`, no earlier than any other such
   * prayer, and the last listed among those at its instant.
   */
  ghost predicate IsCurrentPrayer(prayers: seq<Prayer>, now: int, p: Prayer) {
    && p in prayers
    && p.time <= now
    && (forall q :: q in prayers && q.time <= now ==> q.time <= p.time)
    && AtTime(prayers, p.time) != []
    && p == AtTime(prayers, p.time)[|AtTime(prayers, p.time)| - 1]
  }

  /** At most one prayer is the current one. */
  lemma CurrentPrayerUnique(prayers: seq<Prayer>, now: int, p: Prayer, q: Prayer)
    requires IsCurrentPrayer(prayers, now, p) && IsCurrentPrayer(prayers, now, q)
    ensures p == q
  {
  }

  /** `getCurrentPrayer(prayers)` at instant `now`: it scans a sorted copy and stops at the first later prayer. */
  method CurrentPrayer(prayers: seq<Prayer>, now: int) returns (current: Option<Prayer>)
    ensures current.None? <==> forall q :: q in prayers ==> q.time > now
    ensures current.Some? ==> IsCurrentPrayer(prayers, now, current.value)
  {
    var sorted := SortByTime(prayers);
    current := None;
    var i := 0;
    while i < |sorted|
      invariant 0 <= i <= |sorted|
      invariant forall k :: 0 <= k < i ==> sorted[k].time <= now
      invariant current == if i == 0 then None else Some(sorted[i - 1])
    {
      if sorted[i].time <= now {
        current := Some(sorted[i]);
      } else {
        break;
      }
      i := i + 1;
    }
    ScanOfSortedCopy(prayers, sorted, now, i);
  }

  /** What the scan of `CurrentPrayer` has found when it stops at position `i`. */
  lemma ScanOfSortedCopy(prayers: seq<Prayer>, sorted: seq<Prayer>, now: int, i: nat)
    requires sorted == SortByTime(prayers)
    requires i <= |sorted|
    requires forall k :: 0 <= k < i ==> sorted[k].time <= now
    requires i < |sorted| ==> sorted[i].time > now
    ensures i == 0 <==> forall q :: q in prayers ==> q.time > now
    ensures i > 0 ==> IsCurrentPrayer(prayers, now, sorted[i - 1])
  {
    SortedCopyMembers(prayers);
    SortByTimeSorted(prayers);
    ScanOfSorted(sorted, now, i);
    if i > 0 {
      var p := sorted[i - 1];
      SortByTimeStable(prayers, p.time);
      assert p in prayers && p.time <= now;
      assert forall q :: q in prayers && q.time <= now ==> q.time <= p.time;
      assert AtTime(prayers, p.time) == AtTime(sorted, p.time);
    } else {
      assert forall q :: q in prayers ==> q.time > now;
    }
  }

  /** The scan over a sorted list: what lies before position `i` is all there is at or before `now`. */
  lemma ScanOfSorted(sorted: seq<Prayer>, now: int, i: nat)
    requires SortedByTime(sorted)
    requires i <= |sorted|
    requires forall k :: 0 <= k < i ==> sorted[k].time <= now
    requires i < |sorted| ==> sorted[i].time > now
    ensures forall q :: q in sorted && q.time <= now ==> exists k :: 0 <= k < i && sorted[k] == q
    ensures i > 0 ==> forall q :: q in sorted && q.time <= now ==> q.time <= sorted[i - 1].time
    ensures i > 0 ==> var t := sorted[i - 1].time;
                      AtTime(sorted, t) != [] && sorted[i - 1] == AtTime(sorted, t)[|AtTime(sorted, t)| - 1]
  {
    forall q | q in sorted && q.time <= now ensures exists k :: 0 <= k < i && sorted[k] == q {
      var k :| 0 <= k < |sorted| && sorted[k] == q;
      assert k < i;
    }
    if i > 0 {
      assert i < |sorted| ==> sorted[i - 1].time < sorted[i].time;
      LastAtItsTime(sorted, i);
    }
  }

  /**
   * In a sorted list, the prayer at position `i - 1` is the last one at its
   * instant when the next position, if any, is later.
   */
  lemma LastAtItsTime(sorted: seq<Prayer>, i: nat)
    requires SortedByTime(sorted)
    requires 0 < i <= |sorted|
    requires i < |sorted| ==> sorted[i - 1].time < sorted[i].time
    ensures var t := sorted[i - 1].time;
            AtTime(sorted, t) != [] && sorted[i - 1] == AtTime(sorted, t)[|AtTime(sorted, t)| - 1]
  {
    var p := sorted[i - 1];
    var front, rest := sorted[..i - 1], sorted[i..];
    assert sorted == (front + [p]) + rest;
    AtTimeConcat(front + [p], rest, p.time);
    AtTimeConcat(front, [p], p.time);
    assert AtTime([p], p.time) == [p];
    forall k | 0 <= k < |rest| ensures rest[k].time != p.time {
      assert rest[k] == sorted[i + k];
      assert sorted[i].time <= sorted[i + k].time;
    }
    AtTimeNone(rest, p.time);
  }

  /** Sorting keeps exactly the same prayers. */
  lemma SortedCopyMembers(prayers: seq<Prayer>)
    ensures forall q :: q in prayers <==> q in SortByTime(prayers)
  {
    SortByTimePermutes(prayers);
    forall q ensures q in prayers <==> q in SortByTime(prayers) {
      assert q in prayers <==> q in multiset(prayers);
      assert q in SortByTime(prayers) <==> q in multiset(SortByTime(prayers));
    }
  }

  // ---------------------------------------------------------------------
  // Both together, as the prayer card asks for them at one instant
  // ---------------------------------------------------------------------

  /** The current prayer is at or before `now`, and the next one strictly after it. */
  lemma CurrentPrecedesNext(prayers: seq<Prayer>, now: int, current: Prayer)
    requires IsCurrentPrayer(prayers, now, current)
    ensures NextPrayer(prayers, now).Some? ==> current.time <= now < NextPrayer(prayers, now).value.time
  {
    NextPrayerSpec(prayers, now);
  }

  // ---------------------------------------------------------------------
  // getTimeUntilNextPrayer
  // ---------------------------------------------------------------------

  /** JavaScript's `%`: the remainder of the division that truncates toward zero, so it carries the sign of the dividend. */
  function JsRemainder(a: int, b: int): (r: int)
    requires b > 0
    ensures a >= 0 ==> 0 <= r < b
    ensures a < 0 ==> -b < r <= 0
    ensures a == (if a >= 0 then a / b else -((-a) / b)) * b + r
  {
    if a >= 0 then a % b else -((-a) % b)
  }

  /**
   * `Math.floor(diffMs / hour)` and `Math.floor((diffMs % hour) / minute)`;
   * Dafny's `/` by a positive divisor is the floor.
   */
  function HoursAndMinutes(diffMs: int): (int, int) {
    (diffMs / MsPerHour, JsRemainder(diffMs, MsPerHour) / MsPerMinute)
  }

  /** Ahead of time, the split is whole hours plus the minutes (under 60) left over. */
  lemma HoursAndMinutesAhead(diffMs: int)
    requires diffMs >= 0
    ensures var (h, m) := HoursAndMinutes(diffMs);
            h >= 0 && 0 <= m < 60 && h * 60 + m == diffMs / MsPerMinute
  {
    var h, r := diffMs / MsPerHour, diffMs % MsPerHour;
    assert diffMs == h * MsPerHour + r;
    var m, s := r / MsPerMinute, r % MsPerMinute;
    assert r == m * MsPerMinute + s;
    assert diffMs == (h * 60 + m) * MsPerMinute + s;
  }

  /** A prayer already past gives negative hours and minutes between -60 and 0. */
  lemma HoursAndMinutesPast(diffMs: int)
    requires diffMs < 0
    ensures var (h, m) := HoursAndMinutes(diffMs); h < 0 && -60 <= m <= 0
  {
  }

  /** `getTimeUntilNextPrayer(nextPrayer)` at instant `now`. */
  function TimeUntilNextPrayer(next: Option<Prayer>, now: int): string {
    match next
    case None => "No upcoming prayers today"
    case Some(p) =>
      var (hours, minutes) := HoursAndMinutes(p.time - now);
      if hours > 0 then IntToString(hours) + "h " + IntToString(minutes) + "m"
      else IntToString(minutes) + "m"
  }

  /**
   * The text shown: "{h}h {m}m" from a full hour ahead on, otherwise "{m}m";
   * under an hour the minutes are the whole minutes left, and a prayer already
   * past shows the non-positive minutes of the truncated remainder.
   */
  lemma TimeUntilText(p: Prayer, now: int)
    ensures var diff := p.time - now;
            && (diff >= MsPerHour ==>
                  TimeUntilNextPrayer(Some(p), now)
                    == NatToString(diff / MsPerHour) + "h " + NatToString(diff % MsPerHour / MsPerMinute) + "m")
            && (0 <= diff < MsPerHour ==>
                  TimeUntilNextPrayer(Some(p), now) == NatToString(diff / MsPerMinute) + "m")
            && (diff < 0 ==>
                  var m := JsRemainder(diff, MsPerHour) / MsPerMinute;
                  -60 <= m <= 0 && TimeUntilNextPrayer(Some(p), now) == IntToString(m) + "m")
  {
    var diff := p.time - now;
    if diff >= 0 {
      HoursAndMinutesAhead(diff);
    } else {
      HoursAndMinutesPast(diff);
      var (h, m) := HoursAndMinutes(diff);
      assert TimeUntilNextPrayer(Some(p), now) == IntToString(m) + "m";
    }
  }

  /** Without a next prayer the text is fixed. */
  lemma TimeUntilNoPrayer(now: int)
    ensures TimeUntilNextPrayer(None, now) == "No upcoming prayers today"
  {
  }
}
