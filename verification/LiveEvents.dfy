/** What the correlation lists must contain: a function of the events in memory.

    An event in memory is an `Entry`: the event, the rule it fired and the lists that rule is marked
    with.  A list can occur several times in `lists`, because `OS_MarkGroup` registers it once for
    every tree node the rule sits in. */
module LiveEvents {
  import opened Entities
  import opened Sequences

  datatype Entry = Entry(event: Eventinfo, rule: RuleInfo, lists: seq<OSList<Eventinfo>>)

  /** How often the event of `e` is appended to `l`. */
  ghost function Times(e: Entry, l: OSList<Eventinfo>): nat {
    multiset(e.lists)[l]
  }

  /** The events of `live`, oldest first, each as often as its rule is marked with `l`. */
  ghost function Expected(l: OSList<Eventinfo>, live: seq<Entry>): seq<Eventinfo> {
    if live == [] then [] else Repeat(live[0].event, Times(live[0], l)) + Expected(l, live[1..])
  }

  lemma {:induction false} ExpectedAppend(l: OSList<Eventinfo>, live: seq<Entry>, more: seq<Entry>)
    ensures Expected(l, live + more) == Expected(l, live) + Expected(l, more)
  {
    if live == [] {
      assert live + more == more;
    } else {
      assert (live + more)[1..] == live[1..] + more;
      ExpectedAppend(l, live[1..], more);
    }
  }

  lemma ExpectedOne(l: OSList<Eventinfo>, e: Entry)
    ensures Expected(l, [e]) == Repeat(e.event, Times(e, l))
  {
  }

  /** A list only ever holds events in memory that are marked with it. */
  lemma {:induction false} ExpectedAreLive(l: OSList<Eventinfo>, live: seq<Entry>, x: Eventinfo)
    requires x in Expected(l, live)
    ensures exists i :: 0 <= i < |live| && live[i].event == x && l in live[i].lists
  {
    if x in Repeat(live[0].event, Times(live[0], l)) {
      assert live[0].event == x && l in live[0].lists;
    } else {
      ExpectedAreLive(l, live[1..], x);
      var i :| 0 <= i < |live[1..]| && live[1..][i].event == x && l in live[1..][i].lists;
      assert live[i + 1].event == x && l in live[i + 1].lists;
    }
  }

  /** Dropping the oldest events drops a front part of every list. */
  lemma {:induction false} ExpectedDrop(l: OSList<Eventinfo>, live: seq<Entry>, n: nat)
    requires n <= |live|
    ensures var k := |Expected(l, live[..n])|;
            k <= |Expected(l, live)| && Expected(l, live[n..]) == Expected(l, live)[k..]
  {
    assert live == live[..n] + live[n..];
    ExpectedAppend(l, live[..n], live[n..]);
  }

  /** The events in memory that fired `r`, oldest first. */
  ghost function FiredBy(r: RuleInfo, live: seq<Entry>): seq<Eventinfo> {
    if live == [] then []
    else (if live[0].rule == r then [live[0].event] else []) + FiredBy(r, live[1..])
  }

  /** A list that is the sid list of `r` and of no other rule holds exactly the events of `r`, once each. */
  lemma {:induction false} SidListIsFiredBy(l: OSList<Eventinfo>, r: RuleInfo, live: seq<Entry>)
    requires forall i :: 0 <= i < |live| ==> if live[i].rule == r then live[i].lists == [l] else l !in live[i].lists
    ensures Expected(l, live) == FiredBy(r, live)
  {
    if live != [] {
      SidListIsFiredBy(l, r, live[1..]);
      assert live[0].rule == r ==> Times(live[0], l) == 1 && Repeat(live[0].event, 1) == [live[0].event];
    }
  }

  /** An event occurs in a list as often as its rule is marked with it. */
  lemma {:induction false} ExpectedCount(l: OSList<Eventinfo>, live: seq<Entry>, i: nat)
    requires i < |live| && forall a, b :: 0 <= a < b < |live| ==> live[a].event != live[b].event
    ensures multiset(Expected(l, live))[live[i].event] == Times(live[i], l)
  {
    var head: seq<Eventinfo>, tail: seq<Eventinfo> := Repeat(live[0].event, Times(live[0], l)), Expected(l, live[1..]);
    RepeatCount(live[0].event, Times(live[0], l), live[i].event);
    assert multiset(head + tail)[live[i].event] == multiset(head)[live[i].event] + multiset(tail)[live[i].event];
    if i > 0 {
      ExpectedCount(l, live[1..], i - 1);
    } else if live[0].event in tail {
      ExpectedAreLive(l, live[1..], live[0].event);
    }
  }

  /** A list holds every event at most once exactly when no event in memory has a rule that is marked
      with it twice.  `OS_MarkGroup` marks a rule once per tree node, so a rule that sits in two nodes is
      marked twice, and one of its events then counts twice in `Search_LastGroups`. */
  lemma {:induction false} ExpectedRepeatsIff(l: OSList<Eventinfo>, live: seq<Entry>)
    requires forall i, j :: 0 <= i < j < |live| ==> live[i].event != live[j].event
    ensures NoRepeats(Expected(l, live)) <==> forall i :: 0 <= i < |live| ==> Times(live[i], l) <= 1
  {
    if live != [] {
      var head, tail := Repeat(live[0].event, Times(live[0], l)), Expected(l, live[1..]);
      ExpectedRepeatsIff(l, live[1..]);
      forall e | e in tail
        ensures e != live[0].event
      {
        ExpectedAreLive(l, live[1..], e);
        var i :| 0 <= i < |live[1..]| && live[1..][i].event == e && l in live[1..][i].lists;
        assert live[i + 1].event == e;
      }
      RepeatsOfConcat(live[0].event, Times(live[0], l), tail);
      assert forall i :: 0 <= i < |live| - 1 ==> live[1..][i] == live[i + 1];
      assert (forall i :: 0 <= i < |live| ==> Times(live[i], l) <= 1)
          <==> Times(live[0], l) <= 1 && forall i :: 0 <= i < |live| - 1 ==> Times(live[1..][i], l) <= 1 by {
        assert forall i :: 0 < i < |live| ==> live[i] == live[1..][i - 1];
      }
    }
  }

  lemma RepeatsOfConcat<T>(x: T, n: nat, s: seq<T>)
    requires x !in s
    ensures NoRepeats(Repeat(x, n) + s) <==> n <= 1 && NoRepeats(s)
  {
    var r := Repeat(x, n) + s;
    if n > 1 {
      assert r[0] == r[1];
    } else if NoRepeats(r) {
      forall i, j | 0 <= i < j < |s|
        ensures s[i] != s[j]
      {
        assert r[n + i] == s[i] && r[n + j] == s[j];
      }
    }
  }

  // ---------- eviction ----------

  /** Whether the loop of `OS_AddEvent` stops once `n` events are gone. */
  predicate Stops(all: seq<Entry>, maxFreq: int, n: nat)
    requires n < |all|
  {
    n >= 10 && all[|all| - 1].event.info.time - all[n].event.info.time <= maxFreq
  }

  /** How many of the oldest events an eviction removes when `n` are gone already. */
  function EvictedFrom(all: seq<Entry>, maxFreq: int, n: nat): (r: nat)
    requires n < |all| && |all| > 10 && maxFreq >= 0
    ensures n <= r < |all| && Stops(all, maxFreq, r)
    ensures forall i :: n <= i < r ==> !Stops(all, maxFreq, i)
    decreases |all| - n
  {
    if Stops(all, maxFreq, n) then n else EvictedFrom(all, maxFreq, n + 1)
  }

  /** How many events adding the newest of `all` removes. */
  function Evicted(all: seq<Entry>, maxFreq: int, maxsize: int): (r: nat)
    requires all != [] && maxFreq >= 0 && maxsize >= 9
    ensures r < |all|
    ensures r == 0 || r >= 10
  {
    if |all| - 1 > maxsize then EvictedFrom(all, maxFreq, 0) else 0
  }

  /** The age of an event when the newest of `all` arrives. */
  function Age(all: seq<Entry>, i: nat): int
    requires i < |all|
  {
    all[|all| - 1].event.info.time - all[i].event.info.time
  }

  predicate InTimeOrder(all: seq<Entry>) {
    forall i, j :: 0 <= i < j < |all| ==> all[i].event.info.time <= all[j].event.info.time
  }

  /** When events arrive in time order, a full memory drops exactly the ten oldest events and those older
      than `maxFreq`, which is a frequency and not a time.  So an event that a rule with this timeframe
      could still count is lost exactly when it is one of the ten oldest, or older than `maxFreq`; with a
      timeframe of at most `maxFreq` only the ten oldest can be. */
  lemma EvictedExactly(all: seq<Entry>, maxFreq: int, maxsize: int, i: nat, timeframe: int)
    requires all != [] && maxFreq >= 0 && maxsize >= 9 && InTimeOrder(all) && i < |all|
    ensures i < Evicted(all, maxFreq, maxsize) <==> |all| - 1 > maxsize && (i < 10 || Age(all, i) > maxFreq)
    ensures Age(all, i) <= timeframe <= maxFreq ==>
              (i < Evicted(all, maxFreq, maxsize) <==> |all| - 1 > maxsize && i < 10)
  {
    if |all| - 1 > maxsize {
      var n := EvictedFrom(all, maxFreq, 0);
      assert Stops(all, maxFreq, n);
      if i < n {
        assert !Stops(all, maxFreq, i);
      } else {
        assert i == n || all[n].event.info.time <= all[i].event.info.time;
      }
    }
  }

  /** When events arrive in time order, every event that survives an eviction is within `maxFreq` of
      the new one. */
  lemma SurvivorsAreRecent(all: seq<Entry>, maxFreq: int, maxsize: int)
    requires all != [] && maxFreq >= 0 && maxsize >= 9
    requires Evicted(all, maxFreq, maxsize) > 0
    requires InTimeOrder(all)
    ensures forall i :: Evicted(all, maxFreq, maxsize) <= i < |all| ==>
                          all[|all| - 1].event.info.time - all[i].event.info.time <= maxFreq
  {
    var n := Evicted(all, maxFreq, maxsize);
    forall i | n <= i < |all|
      ensures all[|all| - 1].event.info.time - all[i].event.info.time <= maxFreq
    {
      assert Stops(all, maxFreq, n);
      assert i == n || all[n].event.info.time <= all[i].event.info.time;
    }
  }
}
