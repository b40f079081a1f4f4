/** The correlation memory and its three searches together: whatever order they are called in, what they do
    to the event list, or to any one sid or group list, is a run of `Evidence`. */
module Correlations {
  import opened Entities
  import opened Sequences
  import opened LiveEvents
  import opened EventMemories
  import opened Evidence
  import opened Searches

  /** What a search looks through: the event list (`None`), or a sid or group list. */
  ghost function Content(w: Option<OSList<Eventinfo>>, live: seq<Entry>): seq<Eventinfo> {
    match w
    case None => Stored(live)
    case Some(l) => Expected(l, live)
  }

  function Stored(live: seq<Entry>): (d: seq<Eventinfo>)
    ensures |d| == |live| && forall i :: 0 <= i < |d| ==> d[i] == live[i].event
  {
    seq(|live|, i requires 0 <= i < |live| => live[i].event)
  }

  ghost function Copies(w: Option<OSList<Eventinfo>>, x: Entry): nat {
    match w
    case None => 1
    case Some(l) => Times(x, l)
  }

  lemma ContentAppend(w: Option<OSList<Eventinfo>>, live: seq<Entry>, x: Entry)
    ensures Content(w, live + [x]) == Content(w, live) + seq(Copies(w, x), _ => x.event)
  {
    match w
    case None =>
    case Some(l) =>
      ExpectedAppend(l, live, [x]);
      ExpectedOne(l, x);
  }

  lemma ContentDrop(w: Option<OSList<Eventinfo>>, live: seq<Entry>, n: nat) returns (k: nat)
    requires n <= |live|
    ensures k <= |Content(w, live)| && Content(w, live[n..]) == Content(w, live)[k..]
  {
    match w
    case None =>
      k := n;
    case Some(l) =>
      ExpectedDrop(l, live, n);
      k := |Expected(l, live[..n])|;
  }

  lemma ContentIsLive(w: Option<OSList<Eventinfo>>, live: seq<Entry>)
    ensures forall e | e in Content(w, live) :: e in Events(live)
  {
    forall e | e in Content(w, live)
      ensures e in Events(live)
    {
      if w.Some? {
        ExpectedAreLive(w.value, live, e);
        var i :| 0 <= i < |live| && live[i].event == e;
      } else {
        var i :| 0 <= i < |live| && Stored(live)[i] == e;
        assert live[i] in live;
      }
    }
  }

  /** One step more is possible when it is enabled. */
  lemma PossibleMore(s: State, steps: seq<Step>, t: Step)
    requires Possible(s, steps) && Enabled(Run(s, steps), t)
    ensures Possible(s, steps + [t]) && Run(s, steps + [t]) == Next(Run(s, steps), t)
  {
    var more := steps + [t];
    assert more[..|steps|] == steps;
    assert forall k :: 0 <= k < |steps| ==> more[..k] == steps[..k];
  }

  /** Storing an event and evicting the `n` oldest are two steps for whatever is watched. */
  lemma MemoryStep(w: Option<OSList<Eventinfo>>, live: seq<Entry>, x: Entry, n: nat, s: State, mark: int)
    returns (t: Step, u: Step)
    requires s.d == Content(w, live) && n <= |live| + 1 && x.event !in s.seen
    ensures t == Store(x.event, Copies(w, x), mark) && u.Evict?
    ensures Enabled(s, t) && Enabled(Next(s, t), u)
    ensures Next(Next(s, t), u)
         == State(Content(w, (live + [x])[n..]), s.marks[x.event := mark], s.seen + {x.event})
  {
    ContentAppend(w, live, x);
    var k := ContentDrop(w, live + [x], n);
    t, u := Store(x.event, Copies(w, x), mark), Evict(k);
  }

  /** A search through the events `d` is one step: the search itself if `d` is what is watched, and
      otherwise one that only raises marks. */
  lemma SearchStep(s: State, d: seq<Eventinfo>, t: Step, r: Eventinfo?, before: Marks, after: Marks, my0: int, my1: int,
                   heap: Marks, same: bool)
    requires Proper(s) && s.marks.Keys == s.seen && t.Search? && (same ==> d == s.d)
    requires before.Keys == AsSet(d) <= s.seen && forall e | e in d :: before[e] == s.marks[e]
    requires Searched(d, t, r, before, after, my0, my1)
    requires after.Keys == AsSet(d)
    requires heap.Keys == s.seen && forall e | e in heap :: heap[e] == if e in d then after[e] else s.marks[e]
    ensures var u := if same then t else Raise(heap); Enabled(s, u) && Next(s, u) == s.(marks := heap)
    ensures same ==> (r == null <==> Counted(s, t) == []) && (r != null ==> r == Counted(s, t)[t.frequency])
  {
    hide Scan;
    var small, big := State(d, before, s.seen), State(d, s.marks, s.seen);
    SameScan(d, t, before, s.marks);
    forall e | e in d
      ensures after[e] >= before[e]
    {
      assert e in AsSet(d);
      SearchRaises(small, t, e);
    }
    if same {
      CountedAreStored(s, t);
      assert Next(s, t).marks == heap;
    }
  }

  lemma SameScan(d: seq<Eventinfo>, t: Step, before: Marks, marks: Marks)
    requires t.Search? && forall e | e in d :: e in before && e in marks && before[e] == marks[e]
    ensures Scan(d, Judge(t.level, t.expired, t.agree, before)) == Scan(d, Judge(t.level, t.expired, t.agree, marks))
  {
    var judge, further := Judge(t.level, t.expired, t.agree, before), Judge(t.level, t.expired, t.agree, marks);
    ScanFurther(d, judge, further);
    ScanFurther(d, further, judge);
  }

  ghost function MarksIn(seen: set<Eventinfo>): Marks
    reads seen`matched
  {
    map e | e in seen :: e.matched
  }

  /** A search of `w` for the step `t`, which returned `r`, was recorded after the steps `before`. */
  ghost predicate Recorded(start: State, before: seq<Step>, steps: seq<Step>, watched: Option<OSList<Eventinfo>>,
                           w: Option<OSList<Eventinfo>>, t: Step, r: Eventinfo?)
    requires t.Search?
  {
    && |steps| == |before| + 1 && steps[..|before|] == before
    && if w != watched then steps[|before|].Raise?
       else
         var c := Counted(Run(start, before), t);
         steps[|before|] == t && (r == null <==> c == []) && (r != null ==> r == c[t.frequency])
  }

  class Correlation {
    const memory: EventMemory
    /** What is watched; everything below holds for each choice. */
    ghost const watched: Option<OSList<Eventinfo>>
    ghost const start: State
    ghost var steps: seq<Step>
    /** Every event that was ever stored. */
    ghost var seen: set<Eventinfo>

    ghost function Now(): State
      reads this`steps
    {
      Run(start, steps)
    }

    /** The run so far has led to what is watched and to the marks of all events ever stored. */
    ghost predicate Follows()
      reads this`steps, this`seen, memory`live, seen`matched
    {
      && Possible(start, steps)
      && Now() == State(Content(watched, memory.live), MarksIn(seen), seen)
      && Events(memory.live) <= seen
    }

    ghost predicate ListKnown() { watched.Some? ==> watched.value in memory.lists }

    constructor (memory: EventMemory, ghost watched: Option<OSList<Eventinfo>>)
      requires memory.Valid() && memory.live == [] && (watched.Some? ==> watched.value in memory.lists)
      ensures Follows() && ListKnown() && steps == [] && this.memory == memory && this.watched == watched
    {
      this.memory, this.watched, start, steps, seen := memory, watched, State([], map[], {}), [], {};
    }

    /** An accepted event: a store and an eviction. */
    method Remember(lf: Eventinfo, rule: RuleInfo)
      requires memory.Valid() && Follows() && ListKnown()
      requires !lf.freed && lf.sidNodeToDelete == null && lf !in seen
      requires forall l | l in Registered(rule) :: l in memory.lists
      modifies this`steps, this`seen, memory`eventnode, memory`lastnode, memory`memoryUsed, memory`nodes, memory`live,
        SetOf(memory.nodes)`next, SetOf(memory.nodes)`prev, memory.lists`nodes,
        Events(memory.live)`freed, lf`freed, lf`sidNodeToDelete, lf`generatedRule
      ensures memory.Valid() && Follows()
      ensures |steps| == |old(steps)| + 2 && steps[..|old(steps)|] == old(steps)
      ensures steps[|old(steps)|].Store? && steps[|old(steps)|].e == lf && steps[|old(steps)| + 1].Evict?
    {
      hide Registered, Evicted, Possible, Run, Content, Evidence.Next, EventMemory.Linked, Consistent, Enabled;
      ghost var s, live, x, mark := Now(), memory.live, Entry(lf, rule, Registered(rule)), lf.matched;
      ghost var n := Evicted(live + [x], memory.maxFreq, memory.memoryMaxsize);
      memory.Remember(lf, rule);
      ghost var t, u := MemoryStep(watched, live, x, n, s, mark);
      PossibleMore(start, steps, t);
      PossibleMore(start, steps + [t], u);
      EventsMore(live, x);
      EventsOfTail(live + [x], n);
      assert MarksIn(seen + {lf}) == s.marks[lf := mark];
      steps := steps + [t] + [u];
      seen := seen + {lf};
    }

    /** The events of the memory and of every list are among those ever stored. */
    lemma KnownContent(w: Option<OSList<Eventinfo>>)
      requires memory.Valid() && Follows() && (w.Some? ==> w.value in memory.lists)
      ensures AsSet(Content(w, memory.live)) <= seen
      ensures w.Some? ==> w.value.Data() == Content(w, memory.live)
      ensures w.None? ==> EventsOf(memory.nodes) == Content(w, memory.live)
      ensures Proper(Now()) && memory.Linked()
    {
      hide Possible, Run;
      ContentIsLive(w, memory.live);
      ContentIsLive(watched, memory.live);
    }

    /** A search of `w` is over: the step it was. */
    ghost method Record(w: Option<OSList<Eventinfo>>, d: seq<Eventinfo>, t: Step, r: Eventinfo?, before: Marks,
                        after: Marks, my0: int, my1: int, marks: Marks)
      requires memory.Valid() && Possible(start, steps) && Now() == State(Content(watched, memory.live), marks, seen)
      requires Proper(Now()) && Events(memory.live) <= seen && marks.Keys == seen
      requires t.Search? && d == Content(w, memory.live) && before.Keys == after.Keys == AsSet(d) <= seen
      requires forall e | e in d :: before[e] == marks[e]
      requires Searched(d, t, r, before, after, my0, my1)
      requires forall e | e in seen :: e.matched == if e in d then after[e] else marks[e]
      modifies this`steps
      ensures memory.Valid() && Follows() && Recorded(start, old(steps), steps, watched, w, t, r)
    {
      hide EventMemory.Valid, Possible, Run, Content, Searched, Proper, Evidence.Next, Enabled, Counted;
      ghost var heap := MarksIn(seen);
      SearchStep(Now(), d, t, r, before, after, my0, my1, heap, w == watched);
      PossibleMore(start, steps, if w == watched then t else Raise(heap));
      steps := steps + [if w == watched then t else Raise(heap)];
    }

    lemma MemoryAllocated()
      ensures forall e | e in Events(memory.live) :: allocated(e)
      ensures forall q | q in RulesOf(memory.live) :: allocated(q)
      ensures forall n | n in SetOf(memory.nodes) :: allocated(n)
      ensures forall l | l in memory.lists :: allocated(l)
    {
    }

    /** `Search_LastSids`. */
    method SearchSids(myLf: Eventinfo, rule: RuleInfo, cTime: int) returns (r: Eventinfo?)
      requires memory.Valid() && Follows() && ListKnown() && myLf !in seen
      requires rule.lastEvents != null && rule.lastEvents.Length == MAX_LAST_EVENTS + 1
      requires rule.sidSearch != null ==> rule.sidSearch in memory.lists
      modifies this`steps, rule`frequencyCount, rule.lastEvents, myLf`matched, seen`matched
      ensures memory.Valid() && Follows()
      ensures if rule.sidSearch == null then r == null && steps == old(steps)
              else Recorded(start, old(steps), steps, watched, Some(rule.sidSearch), SidStep(rule, myLf.info, cTime), r)
    {
      hide EventMemory.Valid, Possible, Run, Content, Evidence.Next, Searched, Proper;
      MemoryAllocated();
      if rule.sidSearch == null {
        r := SearchLastSids(myLf, rule, cTime);
        assert MarksIn(seen) == old(MarksIn(seen));
        return;
      }
      ghost var w, d, t := Some(rule.sidSearch), rule.sidSearch.Data(), SidStep(rule, myLf.info, cTime);
      KnownContent(w);
      ghost var before, marks, my := MarksOf(d), MarksIn(seen), myLf.matched;
      r := SearchLastSids(myLf, rule, cTime);
      assert memory.Valid();
      Record(w, d, t, r, before, MarksOf(d), my, myLf.matched, marks);
    }

    /** `Search_LastGroups`. */
    method SearchGroups(myLf: Eventinfo, rule: RuleInfo, cTime: int) returns (r: Eventinfo?)
      requires memory.Valid() && Follows() && ListKnown() && myLf !in seen
      requires rule.lastEvents != null && rule.lastEvents.Length == MAX_LAST_EVENTS + 1
      requires rule.groupSearch != null ==> rule.groupSearch in memory.lists
      modifies this`steps, rule`frequencyCount, rule.lastEvents, myLf`matched, seen`matched
      ensures memory.Valid() && Follows()
      ensures if rule.groupSearch == null then r == null && steps == old(steps)
              else Recorded(start, old(steps), steps, watched, Some(rule.groupSearch),
                            SidStep(rule, myLf.info, cTime), r)
    {
      hide EventMemory.Valid, Possible, Run, Content, Evidence.Next, Searched, Proper;
      MemoryAllocated();
      if rule.groupSearch == null {
        r := SearchLastGroups(myLf, rule, cTime);
        assert MarksIn(seen) == old(MarksIn(seen));
        return;
      }
      ghost var w, d, t := Some(rule.groupSearch), rule.groupSearch.Data(), SidStep(rule, myLf.info, cTime);
      KnownContent(w);
      ghost var before, marks, my := MarksOf(d), MarksIn(seen), myLf.matched;
      r := SearchLastGroups(myLf, rule, cTime);
      assert memory.Valid();
      Record(w, d, t, r, before, MarksOf(d), my, myLf.matched, marks);
    }

    /** `Search_LastEvents`. */
    method SearchEvents(myLf: Eventinfo, rule: RuleInfo, cTime: int) returns (r: Eventinfo?)
      requires memory.Valid() && Follows() && ListKnown() && myLf !in seen
      requires rule.lastEvents != null && rule.lastEvents.Length == MAX_LAST_EVENTS + 1
      modifies this`steps, rule`frequencyCount, rule.lastEvents, myLf`matched, seen`matched
      ensures memory.Valid() && Follows()
      ensures Recorded(start, old(steps), steps, watched, None, AnyStep(rule, myLf.info, cTime), r)
    {
      hide EventMemory.Valid, EventMemory.Linked, EventsOf, Possible, Run, Content, Evidence.Next, Searched, Proper;
      ghost var w, d, t := None, EventsOf(memory.nodes), AnyStep(rule, myLf.info, cTime);
      KnownContent(w);
      MemoryAllocated();
      ghost var before, marks, my := MarksOf(d), MarksIn(seen), myLf.matched;
      r := SearchLastEvents(myLf, rule, cTime, memory);
      assert memory.Valid();
      Record(w, d, t, r, before, MarksOf(d), my, myLf.matched, marks);
    }

    /** The same evidence is never used twice, whatever is watched and whatever is called in between: two
        successful searches of it count different events unless the later one is at a higher level. */
    lemma NothingCountedTwice(i: nat, j: nat)
      requires Follows() && i < j < |steps| && steps[i].Search? && steps[j].Search? && steps[j].level <= steps[i].level
      ensures forall e | e in Counted(Run(start, steps[..i]), steps[i]) ::
                e !in Counted(Run(start, steps[..j]), steps[j])
    {
      EvidenceIsUsedOnce(start, steps, i, j);
    }
  }
}
