/** The three correlation searches of src/analysisd/eventinfo.c. */
module Searches {
  import opened Entities
  import opened Evidence
  import opened EventMemories
  import opened Sequences

  const MAX_LAST_EVENTS: nat := 11

  // ---------- agreement ----------

  /** Both fields are there and equal. */
  predicate Same(a: Option<string>, b: Option<string>) { a.Some? && b.Some? && a == b }

  /** Both fields are there and differ. */
  predicate Differ(a: Option<string>, b: Option<string>) { a.Some? && b.Some? && a != b }

  /** The tests of `Search_LastSids` and `Search_LastGroups` that end in `continue`. */
  predicate Agrees(rule: RuleInfo, e: Decoded, my: Decoded) {
    && (SameId in rule.contextOpts ==> Same(e.id, my.id))
    && (SameSrcip in rule.contextOpts ==> Same(e.srcip, my.srcip))
    && (rule.sameExtrainfo ==>
          && (SameSrcport in rule.contextOpts ==> Same(e.srcport, my.srcport))
          && (SameDstport in rule.contextOpts ==> Same(e.dstport, my.dstport))
          && (SameUser in rule.contextOpts ==> Same(e.dstuser, my.dstuser))
          && (SameLocation in rule.contextOpts ==> e.hostname == my.hostname)
          && (DifferentUrl in rule.contextOpts ==> Differ(e.url, my.url))
          && (DifferentSrcgeoip in rule.contextOpts ==> Differ(e.srcgeoip, my.srcgeoip)))
  }

  /** The tests of `Search_LastEvents` that end in `continue`. */
  predicate AgreesAny(rule: RuleInfo, e: Decoded, my: Decoded) {
    && e.decoderType == my.decoderType
    && (rule.ifMatchedRegex.Some? ==> rule.ifMatchedRegex.value(e.log))
    && (SameUser in rule.contextOpts ==> Same(e.dstuser, my.dstuser))
    && (SameId in rule.contextOpts ==> Same(e.id, my.id))
    && (SameSrcip in rule.contextOpts ==> Same(e.srcip, my.srcip))
    && (DifferentUrl in rule.contextOpts ==> Differ(e.url, my.url))
    && (DifferentSrcgeoip in rule.contextOpts ==> Differ(e.srcgeoip, my.srcgeoip))
  }

  function Expired(rule: RuleInfo, cTime: int): Eventinfo -> bool {
    (e: Eventinfo) => cTime - e.info.time > rule.timeframe
  }

  function Agreeing(rule: RuleInfo, my: Decoded): Eventinfo -> bool {
    (e: Eventinfo) => Agrees(rule, e.info, my)
  }

  function AgreeingAny(rule: RuleInfo, my: Decoded): Eventinfo -> bool {
    (e: Eventinfo) => AgreesAny(rule, e.info, my)
  }

  // ---------- last_events ----------

  /** The slots after the hit number `n` has been noted. */
  function Noted(slots: seq<Option<string>>, n: nat, log: string): (r: seq<Option<string>>)
    requires |slots| == MAX_LAST_EVENTS + 1
    ensures |r| == |slots|
  {
    if n <= 10 then slots[n := Some(log)][n + 1 := None] else slots
  }

  /** The slots after the hits `c`, in order. */
  function NotedAll(slots: seq<Option<string>>, c: seq<Eventinfo>): (r: seq<Option<string>>)
    requires |slots| == MAX_LAST_EVENTS + 1
    ensures |r| == |slots|
  {
    if c == [] then slots else Noted(NotedAll(slots, c[..|c| - 1]), |c| - 1, c[|c| - 1].info.fullLog)
  }

  /** `last_events` holds the logs of the first eleven hits, newest first, and a terminating NULL; the
      slots behind it are as they were. */
  lemma {:induction false} NotedAllAre(slots: seq<Option<string>>, c: seq<Eventinfo>)
    requires |slots| == MAX_LAST_EVENTS + 1
    ensures var m := if |c| <= MAX_LAST_EVENTS then |c| else MAX_LAST_EVENTS;
            && (forall j :: 0 <= j < m ==> NotedAll(slots, c)[j] == Some(c[j].info.fullLog))
            && (c != [] ==> NotedAll(slots, c)[m] == None)
            && forall j :: (if c == [] then 0 else m + 1) <= j < |slots| ==> NotedAll(slots, c)[j] == slots[j]
  {
    if c != [] {
      NotedAllAre(slots, c[..|c| - 1]);
    }
  }

  /** The counting step of the loops. */
  method NoteHit(rule: RuleInfo, lf: Eventinfo)
    requires rule.lastEvents != null && rule.lastEvents.Length == MAX_LAST_EVENTS + 1
    modifies rule.lastEvents
    ensures rule.lastEvents[..] == Noted(old(rule.lastEvents[..]), rule.frequencyCount, lf.info.fullLog)
  {
    if rule.frequencyCount <= 10 {
      rule.lastEvents[rule.frequencyCount] := Some(lf.info.fullLog);
      rule.lastEvents[rule.frequencyCount + 1] := None;
    }
  }

  // ---------- Search_LastSids ----------

  ghost function MarksOf(d: seq<Eventinfo>): Marks
    reads (set e | e in d)`matched
  {
    map e | e in d :: e.matched
  }

  function FirstOf<T>(s: seq<T>, n: nat): seq<T> { s[..if |s| < n then |s| else n] }

  lemma FirstOfWhole<T>(c: seq<T>, rest: seq<T>)
    ensures FirstOf(c + rest, |c|) == c
    ensures rest == [] ==> forall n | n >= |c| :: FirstOf(c + rest, n) == c && FirstOf(c, n) == c
  {
    assert rest == [] ==> c + rest == c;
  }

  lemma ScanLast(d: seq<Eventinfo>, judge: Eventinfo -> Verdict, i: nat)
    requires i < |d|
    ensures Scan(d[..i + 1], judge) == match judge(d[i])
                                       case Stop => []
                                       case Skip => Scan(d[..i], judge)
                                       case Hit => [d[i]] + Scan(d[..i], judge)
  {
    assert d[..i + 1][..i] == d[..i];
  }

  lemma ScanStep(d: seq<Eventinfo>, judge: Eventinfo -> Verdict, i: nat, c: seq<Eventinfo>)
    requires i < |d| && Scan(d, judge) == c + Scan(d[..i + 1], judge)
    ensures judge(d[i]).Stop? ==> Scan(d, judge) == c
    ensures judge(d[i]).Skip? ==> Scan(d, judge) == c + Scan(d[..i], judge)
    ensures judge(d[i]).Hit? ==> Scan(d, judge) == c + [d[i]] + Scan(d[..i], judge)
  {
    hide Scan;
    ScanLast(d, judge, i);
    if judge(d[i]).Hit? {
      ConcatAssociative(c, [d[i]], Scan(d[..i], judge));
    } else if judge(d[i]).Stop? {
      assert c + [] == c;
    }
  }

  lemma ScanEnds(d: seq<Eventinfo>, judge: Eventinfo -> Verdict)
    ensures Scan(d, judge) == [] + Scan(d[..|d|], judge)
    ensures Scan(d[..0], judge) == []
  {
    assert d[..|d|] == d;
  }

  lemma NotedMore(slots: seq<Option<string>>, c: seq<Eventinfo>, e: Eventinfo)
    requires |slots| == MAX_LAST_EVENTS + 1
    ensures NotedAll(slots, c + [e]) == Noted(NotedAll(slots, c), |c|, e.info.fullLog)
  {
    hide Noted;
    assert (c + [e])[..|c|] == c;
  }

  lemma NotedNone(slots: seq<Option<string>>)
    requires |slots| == MAX_LAST_EVENTS + 1
    ensures NotedAll(slots, []) == slots
  {
  }

  /** The judgement of the searches through an `OSList`. */
  ghost function Judging(rule: RuleInfo, my: Decoded, cTime: int, marks: Marks): Eventinfo -> Verdict
    reads rule`level
  {
    Judge(rule.level, Expired(rule, cTime), Agreeing(rule, my), marks)
  }

  /** The loop of `Search_LastSids`, from the newest node on; the hit that reaches the frequency is
      noted as well. */
  method CountSids(nodes: seq<OSListNode<Eventinfo>>, my: Decoded, rule: RuleInfo, cTime: int)
    returns (lf: Eventinfo?, ghost c: seq<Eventinfo>)
    requires rule.lastEvents != null && rule.lastEvents.Length == MAX_LAST_EVENTS + 1
    requires rule.frequencyCount == 0
    modifies rule`frequencyCount, rule.lastEvents
    ensures var d := Payload(nodes);
            var all := Scan(d, Judging(rule, my, cTime, MarksOf(d)));
            && c == FirstOf(all, rule.frequency + 1)
            && (lf == null <==> |all| <= rule.frequency)
            && (lf != null ==> lf == all[rule.frequency])
    ensures rule.frequencyCount == |c|
    ensures rule.lastEvents[..] == NotedAll(old(rule.lastEvents[..]), c)
  {
    hide Scan, NotedAll, Noted, Agrees, Payload, FirstOf;
    ghost var d, slots := Payload(nodes), rule.lastEvents[..];
    ghost var judge := Judging(rule, my, cTime, MarksOf(d));
    c := [];
    var i := |nodes|;
    ScanEnds(d, judge);
    NotedNone(slots);
    while i > 0
      invariant 0 <= i <= |nodes|
      invariant Scan(d, judge) == c + Scan(d[..i], judge)
      invariant rule.frequencyCount == |c| <= rule.frequency
      invariant rule.lastEvents[..] == NotedAll(slots, c)
    {
      i := i - 1;
      lf := nodes[i].data;
      ScanStep(d, judge, i, c);
      FirstOfWhole(c, []);
      if cTime - lf.info.time > rule.timeframe {
        return null, c;
      } else if lf.matched >= rule.level {
        return null, c;
      }
      if !Agrees(rule, lf.info, my) {
        continue;
      }
      NoteHit(rule, lf);
      NotedMore(slots, c, lf);
      c := c + [lf];
      FirstOfWhole(c, Scan(d[..i], judge));
      if rule.frequencyCount < rule.frequency {
        rule.frequencyCount := rule.frequencyCount + 1;
        continue;
      }
      rule.frequencyCount := rule.frequencyCount + 1;
      return lf, c;
    }
    FirstOfWhole(c, Scan(d[..0], judge));
    return null, c;
  }

  ghost function AsSet(d: seq<Eventinfo>): set<Eventinfo> { set e | e in d }

  /** The search of `rule` for the event `my`, as a step on the list it looks through. */
  ghost function SidStep(rule: RuleInfo, my: Decoded, cTime: int): Step
    reads rule`level
  {
    Search(rule.level, rule.frequency, Expired(rule, cTime), Agreeing(rule, my))
  }

  /** All hits a search step can see. */
  ghost function Visible(d: seq<Eventinfo>, marks: Marks, t: Step): seq<Eventinfo>
    requires t.Search?
  {
    Scan(d, Judge(t.level, t.expired, t.agree, marks))
  }

  /** The tail of all three searches: three events are marked with the level of the rule. */
  method MarkThree(myLf: Eventinfo, lf: Eventinfo, firstLf: Eventinfo, rule: RuleInfo, ghost d: seq<Eventinfo>)
    requires d != [] && firstLf == d[|d| - 1] && lf in d && myLf !in d
    modifies myLf`matched, lf`matched, firstLf`matched
    ensures MarksOf(d) == Marked(d, old(MarksOf(d)), lf, rule.level)
    ensures myLf.matched == rule.level
  {
    myLf.matched := rule.level;
    lf.matched := rule.level;
    firstLf.matched := rule.level;
  }

  lemma VisibleAreStored(d: seq<Eventinfo>, marks: Marks, t: Step)
    requires t.Search?
    ensures forall e | e in Visible(d, marks, t) :: e in d
    ensures d == [] ==> Visible(d, marks, t) == []
  {
    var stop, at := ScanIsCounted(d, Judge(t.level, t.expired, t.agree, marks));
    forall e | e in Visible(d, marks, t)
      ensures e in d
    {
      var k :| 0 <= k < |Visible(d, marks, t)| && Visible(d, marks, t)[k] == e;
      assert e == d[at[k]];
    }
  }

  /** What a search through the events `d` must do: it succeeds exactly when more than `frequency` events
      count, returns the one that exceeds the frequency, and marks that one, the newest stored event and
      the current event; it marks nothing otherwise. */
  ghost predicate Searched(d: seq<Eventinfo>, t: Step, r: Eventinfo?, before: Marks, after: Marks, myBefore: int,
                           myAfter: int)
    requires t.Search?
  {
    var s := State(d, before, {});
    && (r == null <==> |Visible(d, before, t)| <= t.frequency)
    && (r != null ==> |Counted(s, t)| == t.frequency + 1 && r == Counted(s, t)[t.frequency])
    && after == Next(s, t).marks
    && myAfter == (if r != null then t.level else myBefore)
  }

  lemma Missed(d: seq<Eventinfo>, t: Step, marks: Marks, my: int)
    requires t.Search? && |Visible(d, marks, t)| <= t.frequency
    ensures Searched(d, t, null, marks, marks, my, my)
  {
  }

  lemma Succeeded(d: seq<Eventinfo>, t: Step, r: Eventinfo, before: Marks, after: Marks, myBefore: int)
    requires t.Search? && |Visible(d, before, t)| > t.frequency && r == Visible(d, before, t)[t.frequency] && d != []
    requires after == Marked(d, before, r, t.level)
    ensures Searched(d, t, r, before, after, myBefore, t.level)
  {
  }

  /** `Search_LastSids`. */
  method SearchLastSids(myLf: Eventinfo, rule: RuleInfo, cTime: int) returns (r: Eventinfo?)
    requires rule.lastEvents != null && rule.lastEvents.Length == MAX_LAST_EVENTS + 1
    requires rule.sidSearch != null ==> myLf !in rule.sidSearch.Data()
    modifies rule`frequencyCount, rule.lastEvents, myLf`matched,
      (if rule.sidSearch != null then AsSet(rule.sidSearch.Data()) else {})`matched
    ensures rule.sidSearch == null ==>
              r == null && myLf.matched == old(myLf.matched) && rule.lastEvents[..] == old(rule.lastEvents[..])
    ensures rule.sidSearch != null ==>
              var d, t, before := rule.sidSearch.Data(), SidStep(rule, myLf.info, cTime),
                  old(MarksOf(rule.sidSearch.Data()));
              && Searched(d, t, r, before, MarksOf(d), old(myLf.matched), myLf.matched)
              && rule.lastEvents[..] == NotedAll(old(rule.lastEvents[..]),
                                                 FirstOf(Visible(d, before, t), rule.frequency + 1))
  {
    hide NotedAll, Scan, Payload, Marked, MarksOf, Searched, FirstOf;
    rule.frequencyCount := 0;
    if rule.sidSearch == null {
      return null;
    }
    NotedNone(rule.lastEvents[..]);
    ghost var d, t, before := rule.sidSearch.Data(), SidStep(rule, myLf.info, cTime), MarksOf(rule.sidSearch.Data());
    VisibleAreStored(d, before, t);
    if rule.sidSearch.nodes == [] {
      FirstOfWhole<Eventinfo>([], []);
      Missed(d, t, before, myLf.matched);
      return null;
    }
    var firstLf := rule.sidSearch.nodes[|rule.sidSearch.nodes| - 1].data;
    var lf; ghost var c;
    lf, c := CountSids(rule.sidSearch.nodes, myLf.info, rule, cTime);
    if lf == null {
      Missed(d, t, before, myLf.matched);
      return null;
    }
    ghost var noted := rule.lastEvents[..];
    MarkThree(myLf, lf, firstLf, rule, d);
    Succeeded(d, t, lf, before, MarksOf(d), old(myLf.matched));
    assert rule.lastEvents[..] == noted;
    return lf;
  }


  // ---------- Search_LastGroups ----------

  /** The loop of `Search_LastGroups`; the hit that reaches the frequency is not noted. */
  method CountGroups(nodes: seq<OSListNode<Eventinfo>>, my: Decoded, rule: RuleInfo, cTime: int) returns (r: Eventinfo?)
    requires rule.lastEvents != null && rule.lastEvents.Length == MAX_LAST_EVENTS + 1
    requires rule.frequencyCount == 0
    modifies rule`frequencyCount, rule.lastEvents
    ensures var d := Payload(nodes);
            var all := Scan(d, Judging(rule, my, cTime, MarksOf(d)));
            && (r == null <==> |all| <= rule.frequency)
            && (r != null ==> r == all[rule.frequency])
            && rule.frequencyCount == |FirstOf(all, rule.frequency)|
            && rule.lastEvents[..] == NotedAll(old(rule.lastEvents[..]), FirstOf(all, rule.frequency))
  {
    hide Scan, NotedAll, Noted, Agrees, Payload, FirstOf;
    ghost var d, slots := Payload(nodes), rule.lastEvents[..];
    ghost var judge := Judging(rule, my, cTime, MarksOf(d));
    ghost var c: seq<Eventinfo> := [];
    var i := |nodes|;
    ScanEnds(d, judge);
    NotedNone(slots);
    while i > 0
      invariant 0 <= i <= |nodes|
      invariant Scan(d, judge) == c + Scan(d[..i], judge)
      invariant rule.frequencyCount == |c| <= rule.frequency
      invariant rule.lastEvents[..] == NotedAll(slots, c)
    {
      i := i - 1;
      var lf := nodes[i].data;
      ScanStep(d, judge, i, c);
      if cTime - lf.info.time > rule.timeframe {
        FirstOfWhole(c, []);
        return null;
      } else if lf.matched >= rule.level {
        FirstOfWhole(c, []);
        return null;
      }
      if !Agrees(rule, lf.info, my) {
        continue;
      }
      if rule.frequencyCount < rule.frequency {
        NoteHit(rule, lf);
        NotedMore(slots, c, lf);
        c := c + [lf];
        rule.frequencyCount := rule.frequencyCount + 1;
        continue;
      }
      FirstOfTaken(c, lf, Scan(d[..i], judge));
      return lf;
    }
    FirstOfWhole(c, []);
    return null;
  }

  lemma FirstOfTaken<T>(c: seq<T>, x: T, rest: seq<T>)
    ensures FirstOf(c + [x] + rest, |c|) == c && |c + [x] + rest| > |c| && (c + [x] + rest)[|c|] == x
  {
  }

  /** `Search_LastGroups`. */
  method SearchLastGroups(myLf: Eventinfo, rule: RuleInfo, cTime: int) returns (r: Eventinfo?)
    requires rule.lastEvents != null && rule.lastEvents.Length == MAX_LAST_EVENTS + 1
    requires rule.groupSearch != null ==> myLf !in rule.groupSearch.Data()
    modifies rule`frequencyCount, rule.lastEvents, myLf`matched,
      (if rule.groupSearch != null then AsSet(rule.groupSearch.Data()) else {})`matched
    ensures rule.groupSearch == null ==>
              r == null && myLf.matched == old(myLf.matched) && rule.lastEvents[..] == old(rule.lastEvents[..])
    ensures rule.groupSearch != null ==>
              var d, t, before := rule.groupSearch.Data(), SidStep(rule, myLf.info, cTime),
                  old(MarksOf(rule.groupSearch.Data()));
              && Searched(d, t, r, before, MarksOf(d), old(myLf.matched), myLf.matched)
              && rule.lastEvents[..] == NotedAll(old(rule.lastEvents[..]),
                                                 FirstOf(Visible(d, before, t), rule.frequency))
  {
    hide NotedAll, Scan, Payload, Marked, MarksOf, Searched, FirstOf;
    rule.frequencyCount := 0;
    if rule.groupSearch == null {
      return null;
    }
    NotedNone(rule.lastEvents[..]);
    ghost var d, t, before := rule.groupSearch.Data(), SidStep(rule, myLf.info, cTime),
              MarksOf(rule.groupSearch.Data());
    VisibleAreStored(d, before, t);
    if rule.groupSearch.nodes == [] {
      FirstOfWhole<Eventinfo>([], []);
      Missed(d, t, before, myLf.matched);
      return null;
    }
    var firstLf := rule.groupSearch.nodes[|rule.groupSearch.nodes| - 1].data;
    var lf := CountGroups(rule.groupSearch.nodes, myLf.info, rule, cTime);
    if lf == null {
      Missed(d, t, before, myLf.matched);
      return null;
    }
    ghost var noted := rule.lastEvents[..];
    MarkThree(myLf, lf, firstLf, rule, d);
    Succeeded(d, t, lf, before, MarksOf(d), old(myLf.matched));
    assert rule.lastEvents[..] == noted;
    return lf;
  }

  // ---------- Search_LastEvents ----------

  /** The events of the event list, oldest first. */
  function EventsOf(nodes: seq<EventNode>): (d: seq<Eventinfo>)
    ensures |d| == |nodes| && forall i :: 0 <= i < |d| ==> d[i] == nodes[i].event
  {
    seq(|nodes|, i requires 0 <= i < |nodes| => nodes[i].event)
  }

  /** The search of `rule` for the event `my` through the event list. */
  ghost function AnyStep(rule: RuleInfo, my: Decoded, cTime: int): Step
    reads rule`level
  {
    Search(rule.level, rule.frequency, Expired(rule, cTime), AgreeingAny(rule, my))
  }

  lemma NextIs(nodes: seq<EventNode>, i: nat)
    requires Chain(nodes) && i < |nodes|
    ensures nodes[i].next == if i > 0 then nodes[i - 1] else null
  {
    assert nodes[i].next == Older(nodes, i);
  }

  /** The loop of `Search_LastEvents`, from the newest node `first` on. */
  method CountEvents(first: EventNode, my: Decoded, rule: RuleInfo, cTime: int, ghost nodes: seq<EventNode>)
    returns (r: Eventinfo?)
    requires Chain(nodes) && nodes != [] && first == nodes[|nodes| - 1]
    requires rule.lastEvents != null && rule.lastEvents.Length == MAX_LAST_EVENTS + 1
    requires rule.frequencyCount == 0
    modifies rule`frequencyCount, rule.lastEvents
    ensures var d := EventsOf(nodes);
            var all := Visible(d, MarksOf(d), AnyStep(rule, my, cTime));
            && (r == null <==> |all| <= rule.frequency)
            && (r != null ==> r == all[rule.frequency])
            && rule.frequencyCount == |FirstOf(all, rule.frequency)|
            && rule.lastEvents[..] == NotedAll(old(rule.lastEvents[..]), FirstOf(all, rule.frequency))
  {
    hide Scan, NotedAll, Noted, AgreesAny, EventsOf, FirstOf, Chain;
    ghost var d, slots, t := EventsOf(nodes), rule.lastEvents[..], AnyStep(rule, my, cTime);
    ghost var judge := Judge(t.level, t.expired, t.agree, MarksOf(d));
    ghost var c: seq<Eventinfo> := [];
    var pt: EventNode? := first;
    ghost var i := |nodes|;
    assert forall m | m in SetOf(nodes) :: allocated(m);
    ScanEnds(d, judge);
    NotedNone(slots);
    while pt != null
      invariant 0 <= i <= |nodes|
      invariant Chain(nodes) && if i == 0 then pt == null else pt == nodes[i - 1]
      invariant Scan(d, judge) == c + Scan(d[..i], judge)
      invariant rule.frequencyCount == |c| <= rule.frequency
      invariant rule.lastEvents[..] == NotedAll(slots, c)
      decreases i
    {
      i := i - 1;
      var lf := pt.event;
      NextIs(nodes, i);
      ScanStep(d, judge, i, c);
      if cTime - lf.info.time > rule.timeframe {
        FirstOfWhole(c, []);
        return null;
      } else if lf.matched >= rule.level {
        FirstOfWhole(c, []);
        return null;
      } else if !AgreesAny(rule, lf.info, my) {
        pt := pt.next;
        continue;
      }
      if rule.frequencyCount < rule.frequency {
        NoteHit(rule, lf);
        NotedMore(slots, c, lf);
        c := c + [lf];
        rule.frequencyCount := rule.frequencyCount + 1;
        pt := pt.next;
        continue;
      }
      FirstOfTaken(c, lf, Scan(d[..i], judge));
      return lf;
    }
    FirstOfWhole(c, []);
    return null;
  }

  /** `Search_LastEvents`; `eventnode` is what `OS_GetLastEvent` returns. */
  method SearchLastEvents(myLf: Eventinfo, rule: RuleInfo, cTime: int, memory: EventMemory) returns (r: Eventinfo?)
    requires memory.Linked() && myLf !in EventsOf(memory.nodes)
    requires rule.lastEvents != null && rule.lastEvents.Length == MAX_LAST_EVENTS + 1
    modifies rule`frequencyCount, rule.lastEvents, myLf`matched, AsSet(EventsOf(memory.nodes))`matched
    ensures var d, t, before := EventsOf(memory.nodes), AnyStep(rule, myLf.info, cTime),
            old(MarksOf(EventsOf(memory.nodes)));
            && Searched(d, t, r, before, MarksOf(d), old(myLf.matched), myLf.matched)
            && rule.lastEvents[..] == NotedAll(old(rule.lastEvents[..]), FirstOf(Visible(d, before, t), rule.frequency))
  {
    hide NotedAll, Scan, EventsOf, Marked, MarksOf, Searched, FirstOf, Chain;
    ghost var d, t, before := EventsOf(memory.nodes), AnyStep(rule, myLf.info, cTime), MarksOf(EventsOf(memory.nodes));
    NotedNone(rule.lastEvents[..]);
    VisibleAreStored(d, before, t);
    if memory.eventnode == null {
      FirstOfWhole<Eventinfo>([], []);
      Missed(d, t, before, myLf.matched);
      return null;
    }
    rule.frequencyCount := 0;
    var firstLf := memory.eventnode.event;
    var lf := CountEvents(memory.eventnode, myLf.info, rule, cTime, memory.nodes);
    if lf == null {
      Missed(d, t, before, myLf.matched);
      return null;
    }
    ghost var noted := rule.lastEvents[..];
    MarkThree(myLf, lf, firstLf, rule, d);
    Succeeded(d, t, lf, before, MarksOf(d), old(myLf.matched));
    assert rule.lastEvents[..] == noted;
    return lf;
  }
}
