/** The streak and activity counter (services/StatsService.ts). The clock
    is not read here: today's and yesterday's date keys are parameters. */
module StatsService {
  import opened Types
  import opened Text

  /** `getEmptyStats` */
  function EmptyStats(): (s: UserStats)
    ensures s.streak == 0 && s.lastActiveDate.None? && s.totalActions == 0 && s.activityMap == map[]
  {
    UserStats(0, None, 0, map[])
  }

  /** `activityMap[date] || 0`: the count recorded for a date, 0 when absent. */
  function CountOn(m: map<string, nat>, date: string): (n: nat)
    ensures date !in m ==> n == 0
  {
    if date in m then m[date] else 0
  }

  /** `calculateNewStats(current)` on the day `today`, whose previous day
      is `yesterday`. */
  function CalculateNewStats(current: UserStats, today: string, yesterday: string): (r: UserStats)
    ensures current.lastActiveDate == Some(today) ==> r.streak == current.streak
    ensures current.lastActiveDate != Some(today) && current.lastActiveDate == Some(yesterday) ==>
      r.streak == current.streak + 1
    ensures current.lastActiveDate != Some(today) && current.lastActiveDate != Some(yesterday) ==> r.streak == 1
    ensures r.lastActiveDate == Some(today)
    ensures r.totalActions == current.totalActions + 1
    ensures CountOn(r.activityMap, today) == CountOn(current.activityMap, today) + 1
    ensures forall d :: d != today ==> CountOn(r.activityMap, d) == CountOn(current.activityMap, d)
    ensures r.activityMap.Keys == current.activityMap.Keys + {today}
  {
    var streak :=
      if current.lastActiveDate == Some(today) then current.streak
      else if current.lastActiveDate == Some(yesterday) then current.streak + 1
      else 1;
    var activity := current.activityMap[today := CountOn(current.activityMap, today) + 1];
    UserStats(streak, Some(today), current.totalActions + 1, activity)
  }

  /** Some date of a non-empty map. */
  ghost function Pick(m: map<string, nat>): (k: string)
    requires m != map[]
    ensures k in m
  {
    var k :| k in m; k
  }

  /** The sum of all daily counts. */
  ghost function Total(m: map<string, nat>): nat
    decreases |m|
  {
    if m == map[] then 0
    else
      var k := Pick(m);
      m[k] + Total(m - {k})
  }

  /** The sum may be split at any date. */
  lemma {:induction false} TotalRemove(m: map<string, nat>, k: string)
    requires k in m
    ensures Total(m) == m[k] + Total(m - {k})
    decreases |m|
  {
    var j := Pick(m);
    if j != k {
      assert (m - {j}).Keys == m.Keys - {j};
      assert (m - {k}).Keys == m.Keys - {k};
      TotalRemove(m - {j}, k);
      TotalRemove(m - {k}, j);
      assert m - {j} - {k} == m - {k} - {j};
    }
  }

  /** One more action on a date adds one to the sum. */
  lemma TotalIncrement(m: map<string, nat>, date: string)
    ensures Total(m[date := CountOn(m, date) + 1]) == Total(m) + 1
  {
    var m' := m[date := CountOn(m, date) + 1];
    TotalRemove(m', date);
    if date in m {
      TotalRemove(m, date);
      assert m' - {date} == m - {date};
    } else {
      assert m' - {date} == m;
    }
  }

  /** What every stats record built from `getEmptyStats` by
      `calculateNewStats` satisfies: the total is the sum of the daily
      counts; before the first action there is no streak and no activity;
      afterwards the streak is positive and the last active date has a
      count. */
  ghost predicate Consistent(s: UserStats) {
    && s.totalActions == Total(s.activityMap)
    && (s.lastActiveDate.None? ==> s.streak == 0 && s.activityMap == map[])
    && (s.lastActiveDate.Some? ==> s.streak >= 1 && CountOn(s.activityMap, s.lastActiveDate.value) >= 1)
  }

  lemma EmptyStatsConsistent()
    ensures Consistent(EmptyStats())
  {
  }

  /** `calculateNewStats` keeps the stats consistent; in particular the
      streak is at least 1 after every call. */
  lemma CalculateNewStatsConsistent(current: UserStats, today: string, yesterday: string)
    requires Consistent(current)
    ensures Consistent(CalculateNewStats(current, today, yesterday))
    ensures CalculateNewStats(current, today, yesterday).streak >= 1
  {
    TotalIncrement(current.activityMap, today);
  }

  /** Without consistency the streak can stay 0: a record claiming
      activity today with streak 0 keeps streak 0. */
  lemma SameDayKeepsZeroStreak(today: string, yesterday: string)
    ensures CalculateNewStats(UserStats(0, Some(today), 0, map[]), today, yesterday).streak == 0
  {
  }

  /** Two actions on consecutive days, then one more on the second day:
      streak 2, three actions, counts 1 and 2. */
  lemma {:induction false} TwoDayScenario(day1: string, day2: string, day0: string)
    requires day1 != day2
    ensures
      var s1 := CalculateNewStats(EmptyStats(), day1, day0);
      var s2 := CalculateNewStats(s1, day2, day1);
      var s3 := CalculateNewStats(s2, day2, day1);
      s3.streak == 2 && s3.totalActions == 3 &&
      CountOn(s3.activityMap, day1) == 1 && CountOn(s3.activityMap, day2) == 2
  {
  }

  /** `String(n).padStart(2, '0')` */
  function Pad2(n: nat): (r: string)
    requires n < 100
    ensures r == [DigitChar(n / 10), DigitChar(n % 10)]
  {
    TwoDigits(n);
    PadStart(NatToString(n), 2, '0')
  }

  lemma DigitCharInjective(a: nat, b: nat)
    requires a < 10 && b < 10
    ensures DigitChar(a) == DigitChar(b) <==> a == b
  {
  }

  /** The `YYYY-MM-DD` key `getTodayDate` builds from the year, the
      zero-based month index of `getMonth()` and the day of the month:
      the year's digits, a dash, the month `monthIndex + 1` as two digits,
      a dash, the day as two digits. */
  function DateKey(year: nat, monthIndex: nat, day: nat): (k: string)
    requires monthIndex < 12 && 1 <= day <= 31
    ensures var n := |NatToString(year)|;
      && |k| == n + 6
      && k[..n] == NatToString(year)
      && k[n] == '-' && k[n + 3] == '-'
      && k[n + 1] == DigitChar((monthIndex + 1) / 10) && k[n + 2] == DigitChar((monthIndex + 1) % 10)
      && k[n + 4] == DigitChar(day / 10) && k[n + 5] == DigitChar(day % 10)
  {
    var y := NatToString(year);
    var mm := Pad2(monthIndex + 1);
    var dd := Pad2(day);
    y + ['-', mm[0], mm[1], '-', dd[0], dd[1]]
  }

  /** A four-digit year prints as four characters. */
  lemma FourDigitYear(year: nat)
    requires 1000 <= year <= 9999
    ensures |NatToString(year)| == 4
  {
    assert NatToString(year) == NatToString(year / 10) + [DigitChar(year % 10)];
    assert NatToString(year / 10) == NatToString(year / 100) + [DigitChar((year / 10) % 10)];
  }

  /** For four-digit years the key is ten characters with dashes at
      positions 4 and 7, and months 1 to 9 and days 1 to 9 are padded
      with '0'. */
  lemma DateKeyShape(year: nat, monthIndex: nat, day: nat)
    requires 1000 <= year <= 9999 && monthIndex < 12 && 1 <= day <= 31
    ensures |DateKey(year, monthIndex, day)| == 10
    ensures DateKey(year, monthIndex, day)[4] == '-' && DateKey(year, monthIndex, day)[7] == '-'
    ensures monthIndex < 9 <==> DateKey(year, monthIndex, day)[5] == '0'
    ensures day < 10 <==> DateKey(year, monthIndex, day)[8] == '0'
  {
    FourDigitYear(year);
    var k := DateKey(year, monthIndex, day);
    assert k[5] == DigitChar((monthIndex + 1) / 10) && k[8] == DigitChar(day / 10);
    assert monthIndex < 9 <==> (monthIndex + 1) / 10 == 0;
    assert day < 10 <==> day / 10 == 0;
  }

  /** Different dates get different keys, so the activity map never merges
      two days. */
  lemma DateKeyInjective(y1: nat, m1: nat, d1: nat, y2: nat, m2: nat, d2: nat)
    requires m1 < 12 && 1 <= d1 <= 31 && m2 < 12 && 1 <= d2 <= 31
    requires DateKey(y1, m1, d1) == DateKey(y2, m2, d2)
    ensures y1 == y2 && m1 == m2 && d1 == d2
  {
    var k := DateKey(y1, m1, d1);
    assert |NatToString(y1)| == |NatToString(y2)|;
    NatToStringInjective(y1, y2);
    DigitCharInjective((m1 + 1) / 10, (m2 + 1) / 10);
    DigitCharInjective((m1 + 1) % 10, (m2 + 1) % 10);
    DigitCharInjective(d1 / 10, d2 / 10);
    DigitCharInjective(d1 % 10, d2 % 10);
  }
}
