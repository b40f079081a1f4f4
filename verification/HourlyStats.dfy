/** The hourly statistics of src/analysisd/stats.c: the averages learned every day, and the alarms. */
module HourlyStats {

  // ---------- one day of one hour ----------

  /** The weight of the old average after `days` updates. */
  function Weight(days: nat): nat { if days > 7 then 7 else days }

  /** The average of an hour after `Update_Hour`, from its count and the number of alarms of the day. */
  function Learned(average: nat, count: nat, days: nat, errors: nat): nat {
    if count == 0 then average
    else if average == 0 then count + 20
    else
      var inter := Weight(days);
      if errors >= 3 then (3 * count + inter * average) / (inter + 3) + 25
      else (count + inter * average) / (inter + 1) + 5
  }

  /** One day: the count of the hour and the alarms of the day. */
  datatype Day = Day(count: nat, errors: nat)

  /** The average after some days, when the counter stood at `days` before. */
  function After(average: nat, days: nat, history: seq<Day>): nat
    decreases |history|
  {
    if history == [] then average
    else After(Learned(average, history[0].count, days + 1, history[0].errors), days + 1, history[1..])
  }

  /** An hour without events keeps its average, the first events set it to 20 above their number, and
      otherwise the new average is the weighted mean, rounded down, and 5 more: the old average weighs as
      many days as were counted, up to seven.  With three alarms the count weighs three days, and 25 is added. */
  lemma LearnedIs(average: nat, count: nat, days: nat, errors: nat)
    requires days > 0
    ensures var r, w := Learned(average, count, days, errors), if days < 7 then days else 7;
            && (count == 0 ==> r == average)
            && (count > 0 && average == 0 ==> r == count + 20)
            && (count > 0 && average > 0 && errors < 3 ==>
                  (w + 1) * (r - 5) <= count + w * average < (w + 1) * (r - 4))
            && (count > 0 && average > 0 && errors >= 3 ==>
                  (w + 3) * (r - 25) <= 3 * count + w * average < (w + 3) * (r - 24))
  {
    var w := if days < 7 then days else 7;
    assert Weight(days) == w;
    QuotientIs(count + w * average, w + 1);
    QuotientIs(3 * count + w * average, w + 3);
  }

  lemma QuotientIs(x: nat, d: nat)
    requires d > 0
    ensures d * (x / d) <= x < d * (x / d + 1)
  {
  }

  // ---------- bounds ----------

  lemma QuotientBound(x: nat, d: nat, q: nat)
    requires d > 0 && x < (q + 1) * d
    ensures x / d <= q
  {
    var k := x / d;
    assert d * k <= x;
    if q + 1 <= k {
      MulMonotone(d, q + 1, k);
    }
  }

  lemma WeightTimes(i: nat, m: nat, b: nat)
    ensures i * (m + b) == i * m + i * b && (i + 1) * m == i * m + m && (i + 3) * m == i * m + 3 * m
  {
  }

  /** An ordinary day keeps an average within `m + b`, for every b of at least 33. */
  lemma OrdinaryDay(average: nat, count: nat, days: nat, errors: nat, m: nat, b: nat)
    requires count <= m && average <= m + b && days > 0 && errors < 3 && b >= 33
    ensures Learned(average, count, days, errors) <= m + b
  {
    var i := Weight(days);
    var x := count + i * average;
    assert i * average <= i * (m + b) by { MulMonotone(i, average, m + b); }
    WeightTimes(i, m, b);
    assert x <= (i + 1) * m + i * b;
    assert i * b < (b - 5 + 1) * (i + 1) by { SmallWeight(i, b); }
    assert (m + (b - 5) + 1) * (i + 1) == (i + 1) * m + (b - 5 + 1) * (i + 1) by { Distribute(i + 1, m, b - 5 + 1); }
    QuotientBound(x, i + 1, m + (b - 5));
  }

  lemma MulMonotone(i: nat, x: nat, y: nat)
    requires x <= y
    ensures i * x <= i * y
  {
  }

  lemma Distribute(k: nat, x: nat, y: nat)
    ensures (x + y) * k == k * x + y * k
  {
  }

  lemma SmallWeight(i: nat, b: nat)
    requires 1 <= i <= 7 && b >= 33
    ensures i * b < (b - 4) * (i + 1)
  {
    assert (b - 4) * (i + 1) == i * b + b - 4 * (i + 1);
  }

  /** A day with three alarms keeps an average within `m + b`, for every b of at least 81. */
  lemma NoisyDay(average: nat, count: nat, days: nat, errors: nat, m: nat, b: nat)
    requires count <= m && average <= m + b && days > 0 && errors >= 3 && b >= 81
    ensures Learned(average, count, days, errors) <= m + b
  {
    var i := Weight(days);
    var x := 3 * count + i * average;
    assert i * average <= i * (m + b) by { MulMonotone(i, average, m + b); }
    WeightTimes(i, m, b);
    assert x <= (i + 3) * m + i * b;
    assert i * b < (b - 25 + 1) * (i + 3) by { SmallNoisyWeight(i, b); }
    assert (m + (b - 25) + 1) * (i + 3) == (i + 3) * m + (b - 25 + 1) * (i + 3) by { Distribute(i + 3, m, b - 25 + 1); }
    QuotientBound(x, i + 3, m + (b - 25));
  }

  lemma SmallNoisyWeight(i: nat, b: nat)
    requires 1 <= i <= 7 && b >= 81
    ensures i * b < (b - 24) * (i + 3)
  {
    assert (b - 24) * (i + 3) == i * b + 3 * b - 24 * (i + 3);
  }

  /** The average never leaves `m + b` when no hourly count exceeds `m`: b can be 81, or any more; and
      when no day has three alarms b can be 33, or any more. */
  lemma {:induction false} AverageStaysBounded(average: nat, days: nat, history: seq<Day>, m: nat, b: nat)
    requires average <= m + b
    requires forall i :: 0 <= i < |history| ==> history[i].count <= m
    requires b >= 81 || (b >= 33 && forall i :: 0 <= i < |history| ==> history[i].errors < 3)
    ensures After(average, days, history) <= m + b
    decreases |history|
  {
    if history != [] {
      var d := history[0];
      if d.errors >= 3 {
        NoisyDay(average, d.count, days + 1, d.errors, m, b);
      } else {
        OrdinaryDay(average, d.count, days + 1, d.errors, m, b);
      }
      AverageStaysBounded(Learned(average, d.count, days + 1, d.errors), days + 1, history[1..], m, b);
    }
  }

  /** An ordinary update is at least five above the smaller of the count and the old average. */
  lemma OrdinaryDayGrows(average: nat, count: nat, days: nat, errors: nat)
    requires count > 0 && average > 0 && days > 0 && errors < 3
    ensures Learned(average, count, days, errors) >= (if count < average then count else average) + 5
  {
    var i, low := Weight(days), if count < average then count else average;
    MulMonotone(i, low, average);
    assert count + i * average >= (i + 1) * low by { WeightTimes(i, low, 0); }
    QuotientAtLeast(count + i * average, i + 1, low);
  }

  lemma QuotientAtLeast(x: nat, d: nat, q: nat)
    requires d > 0 && x >= d * q
    ensures x / d >= q
  {
    var k := x / d;
    assert x < d * k + d;
    if k + 1 <= q {
      MulMonotone(d, k + 1, q);
      Distribute(d, k, 1);
    }
  }

  // ---------- the bounds are reached ----------

  /** How far a steady count leaves the average above itself. */
  function Excess(x: nat, days: nat, errors: nat, n: nat): nat
    decreases n
  {
    if n == 0 then x else Excess(ExcessStep(x, days + 1, errors), days + 1, errors, n - 1)
  }

  function ExcessStep(x: nat, days: nat, errors: nat): nat {
    var i := Weight(days);
    if errors >= 3 then i * x / (i + 3) + 25 else i * x / (i + 1) + 5
  }

  lemma SteadyDay(m: nat, x: nat, days: nat, errors: nat)
    requires m > 0
    ensures Learned(m + x, m, days, errors) == m + ExcessStep(x, days, errors)
  {
    var i := Weight(days);
    WeightTimes(i, m, x);
    if errors >= 3 {
      QuotientOfSum(m, i + 3, i * x);
    } else {
      QuotientOfSum(m, i + 1, i * x);
    }
  }

  lemma QuotientOfSum(m: nat, d: nat, y: nat)
    requires d > 0
    ensures (d * m + y) / d == m + y / d
  {
    var q := y / d;
    assert y == d * q + y % d;
    Distribute(d, m, q);
    assert d * m + y == d * (m + q) + y % d;
    QuotientUnique(d * m + y, d, m + q, y % d);
  }

  lemma QuotientUnique(x: nat, d: nat, q: nat, r: nat)
    requires d > 0 && x == d * q + r && r < d
    ensures x / d == q
  {
    QuotientAtLeast(x, d, q);
    Distribute(d, q, 1);
    QuotientBound(x, d, q);
  }

  lemma {:induction false} SteadyCount(m: nat, x: nat, days: nat, errors: nat, n: nat)
    requires m > 0
    ensures After(m + x, days, seq(n, _ => Day(m, errors))) == m + Excess(x, days, errors, n)
    decreases n
  {
    if n > 0 {
      var history := seq(n, _ => Day(m, errors));
      assert history[1..] == seq(n - 1, _ => Day(m, errors));
      SteadyDay(m, x, days + 1, errors);
      SteadyCount(m, ExcessStep(x, days + 1, errors), days + 1, errors, n - 1);
    }
  }

  lemma ExcessNext(x: nat, days: nat, errors: nat, n: nat, y: nat)
    requires n > 0 && ExcessStep(x, days + 1, errors) == y
    ensures Excess(x, days, errors, n) == Excess(y, days + 1, errors, n - 1)
  {
  }

  lemma ExcessEnd(x: nat, days: nat, errors: nat)
    ensures Excess(x, days, errors, 0) == x
  {
  }

  lemma OrdinaryExcess()
    ensures Excess(20, 1, 0, 14) == 33
  {
    hide Excess;
    ExcessNext(20, 1, 0, 14, 18);
    ExcessNext(18, 2, 0, 13, 18);
    ExcessNext(18, 3, 0, 12, 19);
    ExcessNext(19, 4, 0, 11, 20);
    ExcessNext(20, 5, 0, 10, 22);
    ExcessNext(22, 6, 0, 9, 24);
    ExcessNext(24, 7, 0, 8, 26);
    ExcessNext(26, 8, 0, 7, 27);
    ExcessNext(27, 9, 0, 6, 28);
    ExcessNext(28, 10, 0, 5, 29);
    ExcessNext(29, 11, 0, 4, 30);
    ExcessNext(30, 12, 0, 3, 31);
    ExcessNext(31, 13, 0, 2, 32);
    ExcessNext(32, 14, 0, 1, 33);
    ExcessEnd(33, 15, 0);
  }

  lemma NoisyExcess()
    ensures Excess(20, 1, 3, 13) == 81
  {
    hide Excess;
    ExcessNext(20, 1, 3, 13, 33);
    ExcessNext(33, 2, 3, 12, 41);
    ExcessNext(41, 3, 3, 11, 48);
    ExcessNext(48, 4, 3, 10, 55);
    ExcessNext(55, 5, 3, 9, 61);
    ExcessNext(61, 6, 3, 8, 67);
    ExcessNext(67, 7, 3, 7, 71);
    ExcessNext(71, 8, 3, 6, 74);
    ExcessNext(74, 9, 3, 5, 76);
    ExcessNext(76, 10, 3, 4, 78);
    ExcessNext(78, 11, 3, 3, 79);
    ExcessNext(79, 12, 3, 2, 80);
    ExcessNext(80, 13, 3, 1, 81);
    ExcessEnd(81, 14, 3);
  }

  /** From an empty record, a steady count m is learned as m + 33 on the fifteenth day. */
  lemma OrdinaryBoundIsReached(m: nat)
    requires m > 0
    ensures After(0, 0, [Day(m, 0)] + seq(14, _ => Day(m, 0))) == m + 33
  {
    hide After, Excess;
    FirstDay(m, 0, seq(14, _ => Day(m, 0)));
    OrdinaryExcess();
    SteadyCount(m, 20, 1, 0, 14);
  }

  /** With three alarms every day it is learned as m + 81 on the fourteenth day. */
  lemma NoisyBoundIsReached(m: nat)
    requires m > 0
    ensures After(0, 0, [Day(m, 3)] + seq(13, _ => Day(m, 3))) == m + 81
  {
    hide After, Excess;
    FirstDay(m, 3, seq(13, _ => Day(m, 3)));
    NoisyExcess();
    SteadyCount(m, 20, 1, 3, 13);
  }

  lemma FirstDay(m: nat, errors: nat, rest: seq<Day>)
    requires m > 0
    ensures After(0, 0, [Day(m, errors)] + rest) == After(m + 20, 1, rest)
  {
    assert ([Day(m, errors)] + rest)[1..] == rest;
  }
}
