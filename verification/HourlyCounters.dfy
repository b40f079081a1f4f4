/** The counters of src/analysisd/stats.c: counted all day, learned from at midnight, and compared
    with what was learned to raise at most three alarms a day. */
module HourlyCounters {
  import opened HourlyStats

  // ---------- the alarms of a day ----------

  /** `_fired`, `_cignorehour` and `_daily_errors`. */
  datatype Alarms = Alarms(fired: bool, ignored: nat, errors: nat)

  /** One event: its hour, and whether a count of that hour passes its threshold. */
  datatype Tick = Tick(hour: nat, over: bool)

  predicate Silenced(a: Alarms, hour: nat) { a.errors >= 3 || (a.fired && a.ignored == hour) }

  predicate Raises(a: Alarms, t: Tick) { !Silenced(a, t.hour) && t.over }

  function AfterTick(a: Alarms, t: Tick): Alarms {
    if Silenced(a, t.hour) then a
    else if t.over then Alarms(true, t.hour, a.errors + 1)
    else Alarms(a.fired && a.ignored == t.hour, t.hour, a.errors)
  }

  function AfterTicks(a: Alarms, ticks: seq<Tick>): Alarms {
    if ticks == [] then a else AfterTick(AfterTicks(a, ticks[..|ticks| - 1]), ticks[|ticks| - 1])
  }

  /** Which of the events of a day raise an alarm. */
  function Raised(a: Alarms, ticks: seq<Tick>): (r: seq<bool>)
    ensures |r| == |ticks|
  {
    if ticks == [] then []
    else
      var before := ticks[..|ticks| - 1];
      Raised(a, before) + [Raises(AfterTicks(a, before), ticks[|ticks| - 1])]
  }

  function Count(r: seq<bool>): (n: nat) {
    if r == [] then 0 else Count(r[..|r| - 1]) + if r[|r| - 1] then 1 else 0
  }

  /** No event after the one at `j` left the hour. */
  predicate SameHour(ticks: seq<Tick>, j: nat, hour: nat) {
    forall k :: j <= k < |ticks| ==> ticks[k].hour == hour
  }

  /** The stretch of that hour which ends `ticks` already had its alarm, perhaps before midnight. */
  ghost predicate HadAlarm(a: Alarms, ticks: seq<Tick>, hour: nat) {
    (exists j :: 0 <= j < |ticks| && Raised(a, ticks)[j] && SameHour(ticks, j, hour))
    || (a.fired && a.ignored == hour && SameHour(ticks, 0, hour))
  }

  lemma {:induction false} HadAlarmStep(a: Alarms, ticks: seq<Tick>, t: Tick, hour: nat)
    ensures Raised(a, ticks + [t]) == Raised(a, ticks) + [Raises(AfterTicks(a, ticks), t)]
    ensures HadAlarm(a, ticks + [t], hour)
       <==> t.hour == hour && (Raises(AfterTicks(a, ticks), t) || HadAlarm(a, ticks, hour))
  {
    var more := ticks + [t];
    assert more[..|more| - 1] == ticks;
    var r, r' := Raised(a, ticks), Raised(a, more);
    assert r' == r + [Raises(AfterTicks(a, ticks), t)];
    assert more[|ticks|] == t;
    forall j | 0 <= j <= |ticks| ensures SameHour(more, j, hour) <==> SameHour(ticks, j, hour) && t.hour == hour {
      assert forall k :: j <= k < |ticks| ==> more[k] == ticks[k];
    }
    if t.hour == hour && Raises(AfterTicks(a, ticks), t) {
      assert r'[|ticks|] && SameHour(more, |ticks|, hour);
    } else if t.hour == hour && exists j :: 0 <= j < |ticks| && r[j] && SameHour(ticks, j, hour) {
      var j :| 0 <= j < |ticks| && r[j] && SameHour(ticks, j, hour);
      assert r'[j] && SameHour(more, j, hour);
    }
    if j :| 0 <= j < |more| && r'[j] && SameHour(more, j, hour) {
      assert t.hour == hour;
      assert j < |ticks| ==> r[j] && SameHour(ticks, j, hour);
    }
  }

  lemma {:induction false} AlarmState(a: Alarms, ticks: seq<Tick>, hour: nat)
    requires a.errors <= 3
    ensures AfterTicks(a, ticks).errors == a.errors + Count(Raised(a, ticks)) <= 3
    ensures AfterTicks(a, ticks).errors < 3 ==>
              var s := AfterTicks(a, ticks);
              (s.fired && s.ignored == hour <==> HadAlarm(a, ticks, hour))
    decreases |ticks|
  {
    if ticks != [] {
      var before, t := ticks[..|ticks| - 1], ticks[|ticks| - 1];
      assert before + [t] == ticks;
      AlarmState(a, before, hour);
      AlarmState(a, before, t.hour);
      HadAlarmStep(a, before, t, hour);
      var r := Raised(a, ticks);
      assert r[..|r| - 1] == Raised(a, before);
    }
  }

  /** In a day whose counters stand at `a`, the next event raises an alarm exactly when its hour is over
      its threshold, fewer than three alarms were raised, and its stretch of the hour had none. */
  lemma RaisedExactly(a: Alarms, ticks: seq<Tick>, t: Tick)
    requires a.errors <= 3
    ensures Raises(AfterTicks(a, ticks), t)
       <==> t.over && a.errors + Count(Raised(a, ticks)) < 3 && !HadAlarm(a, ticks, t.hour)
  {
    AlarmState(a, ticks, t.hour);
  }

  // ---------- thresholds ----------

  /** `gethour`, with the three configured limits. */
  function Threshold(average: nat, percent: nat, least: nat, most: nat): nat {
    average + Limited(average * percent / 100 + 1, least, most)
  }

  /** With the limits in order, the allowance is between them and a higher average never lowers the
      threshold. */
  lemma ThresholdInOrder(x: nat, y: nat, percent: nat, least: nat, most: nat)
    requires x <= y && least <= most
    ensures x + least <= Threshold(x, percent, least, most) <= x + most
    ensures Threshold(x, percent, least, most) + (y - x) <= Threshold(y, percent, least, most)
  {
    MulMonotone(percent, x, y);
    QuotientMonotone(x * percent, y * percent, 100);
    AllowanceInOrder(x * percent / 100, y * percent / 100, least, most);
  }

  /** The limits applied to an allowance. */
  function Limited(diff: nat, least: nat, most: nat): nat {
    if diff < least then least else if diff > most then most else diff
  }

  lemma AllowanceInOrder(d: nat, e: nat, least: nat, most: nat)
    requires d <= e && least <= most
    ensures least <= Limited(d + 1, least, most) <= Limited(e + 1, least, most) <= most
  {
  }

  lemma QuotientMonotone(x: nat, y: nat, d: nat)
    requires d > 0 && x <= y
    ensures x / d <= y / d
  {
    QuotientAtLeast(y, d, x / d);
  }

  /** A higher average never lowers the threshold. */
  ghost predicate Monotone(percent: nat, least: nat, most: nat) {
    forall x: nat, y: nat :: x <= y ==> Threshold(x, percent, least, most) <= Threshold(y, percent, least, most)
  }

  /** The three limits are configured one by one.  The threshold never falls exactly when the lower limit
      is at most one above the upper one, or the percentage is 0. */
  lemma ThresholdMonotoneIff(percent: nat, least: nat, most: nat)
    ensures Monotone(percent, least, most) <==> percent == 0 || least <= most + 1
  {
    if percent == 0 {
      assert forall x: nat :: x * percent == 0;
    } else if least <= most + 1 {
      forall x: nat, y: nat | x <= y
        ensures Threshold(x, percent, least, most) <= Threshold(y, percent, least, most)
      {
        NearlyInOrder(x, y, percent, least, most);
      }
    } else {
      var x := LastBelow(percent, least);
      assert Threshold(x, percent, least, most) > Threshold(x + 1, percent, least, most);
    }
  }

  lemma NearlyInOrder(x: nat, y: nat, percent: nat, least: nat, most: nat)
    requires x <= y && least <= most + 1
    ensures Threshold(x, percent, least, most) <= Threshold(y, percent, least, most)
  {
    MulMonotone(percent, x, y);
    QuotientMonotone(x * percent, y * percent, 100);
  }

  /** The last average whose allowance is below the lower limit. */
  lemma LastBelow(percent: nat, least: nat) returns (x: nat)
    requires percent > 0 && least > 1
    ensures x * percent / 100 + 1 < least <= (x + 1) * percent / 100 + 1
  {
    x := 0;
    while (x + 1) * percent / 100 + 1 < least
      invariant x * percent / 100 + 1 < least
      decreases 100 * least - x
    {
      x := x + 1;
      AllowanceGrows(x, percent);
    }
  }

  lemma AllowanceGrows(x: nat, percent: nat)
    requires percent > 0
    ensures 100 * (x * percent / 100 + 1) > x
  {
    MulMonotone(x, 1, percent);
    NextHundred(x * percent);
  }

  lemma NextHundred(y: nat)
    ensures 100 * (y / 100 + 1) > y
  {
  }

  /** For example, with the limits 100 and 10 the average 495 has a lower threshold than 490. */
  lemma ThresholdOutOfOrder()
    ensures Threshold(490, 20, 100, 10) == 590 && Threshold(495, 20, 100, 10) == 505
  {
  }

  /** The allowance above the average: the lower limit when a percentage of the average, rounded down and one
      more, is below it; the upper limit when that is above it; and that number itself in between. */
  lemma AllowanceIs(average: nat, percent: nat, least: nat, most: nat)
    ensures var a := Threshold(average, percent, least, most) - average;
            && (average * percent < 100 * (least - 1) ==> a == least)
            && (average * percent >= 100 * (least - 1) && average * percent >= 100 * most ==> a == most)
            && (100 * (least - 1) <= average * percent < 100 * most ==>
                  100 * (a - 1) <= average * percent < 100 * a)
  {
    RoundedDown(average * percent, least);
    RoundedDown(average * percent, most + 1);
    RoundedDown(average * percent, average * percent / 100 + 1);
  }

  lemma RoundedDown(y: nat, n: nat)
    ensures y / 100 + 1 < n <==> y < 100 * (n - 1)
    ensures 100 * (y / 100) <= y < 100 * (y / 100 + 1)
  {
  }

  // ---------- the counters ----------

  function Sum(s: seq<nat>): (n: nat) { if s == [] then 0 else Sum(s[..|s| - 1]) + s[|s| - 1] }

  lemma {:induction false} SumUpdate(s: seq<nat>, i: nat, x: nat)
    requires i < |s|
    ensures Sum(s[i := x]) + s[i] == Sum(s) + x
  {
    var last := |s| - 1;
    var t := s[i := x];
    if i == last {
      assert t[..last] == s[..last];
    } else {
      assert t[..last] == s[..last][i := x];
      SumUpdate(s[..last], i, x);
    }
  }

  lemma {:induction false} SumZero(s: seq<nat>)
    requires forall i :: 0 <= i < |s| ==> s[i] == 0
    ensures Sum(s) == 0
  {
    if s != [] {
      SumZero(s[..|s| - 1]);
    }
  }

  /** The averages after midnight. The entry of hour 24 counts the days. */
  function LearnedAll(averages: seq<nat>, counts: seq<nat>, errors: nat): (r: seq<nat>)
    requires |averages| == 25 && |counts| == 25
    ensures |r| == 25
  {
    seq(25, i requires 0 <= i < 25 =>
      if i == 24 then averages[24] + 1 else Learned(averages[i], counts[i], averages[24] + 1, errors))
  }

  // ---------- runs ----------

  /** The averages, the counts of the day, and the alarms. */
  datatype Books = Books(averages: seq<nat>, counts: seq<nat>, alarms: Alarms)

  datatype Event = Counted(tick: Tick) | Midnight

  predicate Proper(s: Books) { |s.averages| == |s.counts| == 25 }

  function NextBooks(s: Books, e: Event): (t: Books)
    requires Proper(s) && (e.Counted? ==> e.tick.hour < 24)
    ensures Proper(t)
  {
    match e
    case Counted(t) =>
      s.(counts := s.counts[t.hour := s.counts[t.hour] + 1],
         alarms := if s.averages[24] <= 2 then s.alarms else AfterTick(s.alarms, t))
    case Midnight =>
      Books(LearnedAll(s.averages, s.counts, s.alarms.errors), seq(25, _ => 0), s.alarms.(errors := 0))
  }

  predicate Hours(events: seq<Event>) {
    forall i :: 0 <= i < |events| && events[i].Counted? ==> events[i].tick.hour < 24
  }

  function AfterEvents(s: Books, events: seq<Event>): (t: Books)
    requires Proper(s) && Hours(events)
    ensures Proper(t)
  {
    if events == [] then s
    else NextBooks(AfterEvents(s, events[..|events| - 1]), events[|events| - 1])
  }

  /** No hour of any day of the run has more than `m` events, and with `calm` no day has three alarms. */
  predicate Moderate(s: Books, events: seq<Event>, m: nat, calm: bool)
    requires Proper(s) && Hours(events)
  {
    forall i :: 0 <= i < |events| && events[i].Midnight? ==>
      var day := AfterEvents(s, events[..i]);
      (forall h :: 0 <= h < 24 ==> day.counts[h] <= m) && (calm ==> day.alarms.errors < 3)
  }

  predicate Within(averages: seq<nat>, bound: nat)
    requires |averages| == 25
  {
    forall h :: 0 <= h < 24 ==> averages[h] <= bound
  }

  lemma LearnedWithin(averages: seq<nat>, counts: seq<nat>, errors: nat, m: nat, b: nat)
    requires |averages| == |counts| == 25 && Within(averages, m + b)
    requires forall h :: 0 <= h < 24 ==> counts[h] <= m
    requires b >= 81 || (b >= 33 && errors < 3)
    ensures Within(LearnedAll(averages, counts, errors), m + b)
  {
    hide Learned;
    forall h | 0 <= h < 24
      ensures LearnedAll(averages, counts, errors)[h] <= m + b
    {
      if errors >= 3 {
        NoisyDay(averages[h], counts[h], averages[24] + 1, errors, m, b);
      } else {
        OrdinaryDay(averages[h], counts[h], averages[24] + 1, errors, m, b);
      }
    }
  }

  /** Over any run of counted events and midnights, if no hour ever has more than `m` events, every average
      stays within `m + b`: b can be 81, or any more; and when no day has three alarms, 33, or any more. */
  lemma {:induction false} AveragesStayWithin(s: Books, events: seq<Event>, m: nat, b: nat, calm: bool)
    requires Proper(s) && Hours(events) && Within(s.averages, m + b)
    requires Moderate(s, events, m, calm) && (b >= 81 || (b >= 33 && calm))
    ensures Within(AfterEvents(s, events).averages, m + b)
  {
    hide LearnedAll, Within;
    if events != [] {
      var n := |events| - 1;
      var before := events[..n];
      assert forall i :: 0 <= i <= n ==> before[..i] == events[..i];
      AveragesStayWithin(s, before, m, b, calm);
      var day := AfterEvents(s, before);
      if events[n].Midnight? {
        LearnedWithin(day.averages, day.counts, day.alarms.errors, m, b);
      }
    }
  }

  class Counters {
    const averages: array<nat>
    const counts: array<nat>
    /** The numbers in the files of queue/stats, one for each hour, 0 for a missing file. */
    const saved: array<nat>
    const weekAverages: array2<nat>
    const weekCounts: array2<nat>
    const percent: nat
    const least: nat
    const most: nat
    var alarms: Alarms

    ghost predicate Valid()
      reads this, saved, averages
    {
      && averages.Length == counts.Length == saved.Length == 25
      && weekAverages.Length0 == weekCounts.Length0 == 7
      && weekAverages.Length1 == weekCounts.Length1 == 25
      && averages != counts && averages != saved && counts != saved && weekAverages != weekCounts
      && alarms.errors <= 3
      && saved[..] == averages[..]
    }

    /** The number of events counted since the counts were last cleared. */
    ghost function Today(): (n: nat)
      reads counts
      requires counts.Length == 25
    {
      Sum(counts[..24])
    }

    /** A restart: the averages come back from the files, the counts of the day are lost. */
    constructor (saved: array<nat>, weekAverages: array2<nat>, percent: nat, least: nat, most: nat)
      requires saved.Length == 25 && weekAverages.Length0 == 7 && weekAverages.Length1 == 25
      ensures Valid() && averages[..] == saved[..] && Today() == 0
      ensures this.saved == saved && this.weekAverages == weekAverages && fresh(averages) && fresh(counts)
              && fresh(weekCounts)
      ensures this.percent == percent && this.least == least && this.most == most
      ensures alarms == Alarms(false, 0, 0)
    {
      this.saved := saved;
      this.weekAverages := weekAverages;
      this.percent, this.least, this.most := percent, least, most;
      alarms := Alarms(false, 0, 0);
      var read := new nat[25](_ => 0);
      var zero := new nat[25](_ => 0);
      averages := read;
      counts := zero;
      weekCounts := new nat[7, 25]((_, _) => 0);
      new;
      SumZero(counts[..24]);
      for i := 0 to 25
        modifies averages
        invariant averages[..i] == saved[..i]
      {
        averages[i] := saved[i];
      }
    }

    /** The count is above its average and above the threshold of the average. */
    predicate Passed(count: nat, average: nat) {
      average != 0 && count > average && count > Threshold(average, percent, least, most)
    }

    /** From which count on an average is passed: with an average of 0, never; and otherwise above the average
        by more than the limit that applies, or, between the limits, by one more than the percentage. */
    lemma PassedFrom(count: nat, average: nat)
      ensures var p := average * percent;
              && (average == 0 ==> !Passed(count, average))
              && (average > 0 && p < 100 * (least - 1) ==> (Passed(count, average) <==> count > average + least))
              && (average > 0 && p >= 100 * (least - 1) && p >= 100 * most ==>
                    (Passed(count, average) <==> count > average + most))
              && (average > 0 && 100 * (least - 1) <= p < 100 * most ==>
                    (Passed(count, average) <==> 100 * (count - average - 1) > p))
    {
      AllowanceIs(average, percent, least, most);
      hide Threshold;
    }

    /** So, with three days learned and no reason to be silent, the alarm comes with exactly that count of the
        hour, or, with three days learned for the weekday, of the hour on that weekday. */
    lemma AlarmFrom(was: Alarms, hour: nat, weekday: nat)
      requires Valid() && hour < 24 && weekday < 7 && averages[24] > 2
      requires was.errors < 3 && !(was.fired && was.ignored == hour)
      ensures Raises(was, Tick(hour, Over(hour, weekday)))
         <==> Passed(counts[hour], averages[hour])
              || (weekAverages[weekday, 24] >= 3 && Passed(weekCounts[weekday, hour], weekAverages[weekday, hour]))
    {
    }

    /** The hour is over the threshold of its own average or that of the weekday. */
    ghost predicate Over(hour: nat, weekday: nat)
      requires averages.Length == counts.Length == 25 && hour < 24 && weekday < 7
      requires weekAverages.Length0 == weekCounts.Length0 == 7 && weekAverages.Length1 == weekCounts.Length1 == 25
      reads counts, averages, weekCounts, weekAverages
    {
      Passed(counts[hour], averages[hour])
      || (weekAverages[weekday, 24] > 2 && Passed(weekCounts[weekday, hour], weekAverages[weekday, hour]))
    }

    ghost function Model(): (s: Books)
      reads averages, counts, this`alarms
      requires averages.Length == counts.Length == 25
      ensures Proper(s)
    {
      Books(averages[..], counts[..], alarms)
    }

    /** `Check_Hour`: counts the event and says whether it raises an alarm. */
    method CheckHour(hour: nat, weekday: nat) returns (raised: bool)
      requires Valid() && hour < 24 && weekday < 7
      modifies counts, weekCounts, this`alarms
      ensures Valid() && Today() == old(Today()) + 1
      ensures counts[..] == old(counts[..])[hour := old(counts[hour]) + 1]
      ensures forall d, h :: 0 <= d < 7 && 0 <= h < 25 ==>
                weekCounts[d, h] == old(weekCounts[d, h]) + if d == weekday && h == hour then 1 else 0
      ensures var t := Tick(hour, Over(hour, weekday));
              && Model() == NextBooks(old(Model()), Counted(t))
              && raised == (averages[24] > 2 && Raises(old(alarms), t))
    {
      SumUpdate(counts[..24], hour, counts[hour] + 1);
      assert counts[..][hour := counts[hour] + 1][..24] == counts[..24][hour := counts[hour] + 1];
      counts[hour] := counts[hour] + 1;
      assert counts[..] == old(counts[..])[hour := old(counts[hour]) + 1];
      weekCounts[weekday, hour] := weekCounts[weekday, hour] + 1;
      if averages[24] <= 2 {
        return false;
      }
      if alarms.errors >= 3 || (alarms.fired && alarms.ignored == hour) {
        return false;
      } else if alarms.ignored != hour {
        alarms := alarms.(ignored := hour, fired := false);
      }
      if averages[hour] != 0 {
        if counts[hour] > averages[hour] {
          if counts[hour] > Threshold(averages[hour], percent, least, most) {
            alarms := alarms.(fired := true, errors := alarms.errors + 1);
            return true;
          }
        }
      }
      if weekAverages[weekday, 24] <= 2 {
        return false;
      }
      if weekAverages[weekday, hour] != 0 {
        if weekCounts[weekday, hour] > weekAverages[weekday, hour] {
          if weekCounts[weekday, hour] > Threshold(weekAverages[weekday, hour], percent, least, most) {
            alarms := alarms.(fired := true, errors := alarms.errors + 1);
            return true;
          }
        }
      }
      return false;
    }

    /** What the loop of `UpdateHour` has done below hour `i`. */
    ghost predicate LearnedBelow(i: nat, a: seq<nat>, c: seq<nat>)
      reads this, averages, counts, saved
      requires averages.Length == counts.Length == saved.Length == 25 && |a| == |c| == 25
    {
      && (forall k :: 0 <= k < i && k < 24 ==> averages[k] == Learned(a[k], c[k], a[24] + 1, alarms.errors))
      && (forall k :: i <= k < 24 ==> averages[k] == a[k])
      && averages[24] == a[24] + 1
      && (forall k :: 0 <= k < i && k < 25 ==> counts[k] == 0)
      && (forall k :: i <= k < 25 ==> counts[k] == c[k])
      && (forall k :: 0 <= k < i && k < 25 ==> saved[k] == averages[k])
      && (forall k :: i <= k < 24 ==> saved[k] == a[k])
    }

    /** One turn of the loop of `UpdateHour`. */
    method LearnHour(i: nat, inter: nat, ghost a: seq<nat>, ghost c: seq<nat>)
      requires i < 25 && |a| == |c| == 25 && inter == Weight(a[24] + 1)
      requires averages.Length == counts.Length == saved.Length == 25
      requires averages != counts && averages != saved && counts != saved
      requires LearnedBelow(i, a, c)
      modifies averages, counts, saved
      ensures LearnedBelow(i + 1, a, c)
    {
      if i != 24 {
        if counts[i] == 0 {
          return;
        }
        averages[i] := NewAverage(averages[i], counts[i], inter, a[24] + 1);
      }
      saved[i] := averages[i];
      counts[i] := 0;
    }

    /** The new average of an hour with events, `inter` being the weight of the old one. */
    method NewAverage(average: nat, count: nat, inter: nat, ghost days: nat) returns (r: nat)
      requires count > 0 && inter == Weight(days)
      ensures r == Learned(average, count, days, alarms.errors)
    {
      if average == 0 {
        return count + 20;
      } else if alarms.errors >= 3 {
        return (3 * count + inter * average) / (inter + 3) + 25;
      } else {
        return (count + inter * average) / (inter + 1) + 5;
      }
    }

    /** The hourly part of `Update_Hour`, done at midnight: the printed total of the day, and the averages
        learned from its counts. */
    method UpdateHour() returns (total: nat)
      requires Valid()
      modifies averages, counts, saved, this`alarms
      ensures Valid() && total == old(Today()) && Today() == 0
      ensures Model() == NextBooks(old(Model()), Midnight)
    {
      ghost var a, c := averages[..], counts[..];
      total := PrintTotals();
      averages[24] := averages[24] + 1;
      var inter := if averages[24] > 7 then 7 else averages[24];
      for i := 0 to 25
        modifies averages, counts, saved
        invariant LearnedBelow(i, a, c)
      {
        LearnHour(i, inter, a, c);
      }
      SumZero(counts[..24]);
      alarms := alarms.(errors := 0);
    }

    method PrintTotals() returns (total: nat)
      requires counts.Length == 25
      ensures total == Sum(counts[..24])
    {
      total := 0;
      for i := 0 to 24
        invariant total == Sum(counts[..i])
      {
        assert counts[..i + 1][..i] == counts[..i];
        total := total + counts[i];
      }
    }
  }
}
