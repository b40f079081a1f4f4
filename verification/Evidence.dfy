/** What the three searches of src/analysisd/eventinfo.c look for, as a function of the stored events and
    their `matched` marks, and what that means over a whole run. */
module Evidence {
  import opened Entities
  import opened Sequences

  type Marks = map<Eventinfo, int>

  /** What one turn of a search loop does with an event: give up, `continue`, or count it. */
  datatype Verdict = Stop | Skip | Hit

  function Judge(level: int, expired: Eventinfo -> bool, agree: Eventinfo -> bool, marks: Marks): Eventinfo -> Verdict {
    (e: Eventinfo) =>
      if expired(e) || (e in marks && marks[e] >= level) then Stop
      else if agree(e) then Hit
      else Skip
  }

  /** The events that count, newest first, when the events are `d`, oldest first. */
  function Scan(d: seq<Eventinfo>, judge: Eventinfo -> Verdict): seq<Eventinfo> {
    if d == [] then []
    else
      var n := |d| - 1;
      match judge(d[n])
      case Stop => []
      case Skip => Scan(d[..n], judge)
      case Hit => [d[n]] + Scan(d[..n], judge)
  }

  /** The same, without recursion: from the newest event back to the first one that stops the search,
      the positions of all events that count. */
  ghost predicate CountedAt(d: seq<Eventinfo>, judge: Eventinfo -> Verdict, stop: nat, at: seq<nat>) {
    && stop <= |d|
    && (stop > 0 ==> judge(d[stop - 1]).Stop?)
    && (forall i :: stop <= i < |d| ==> !judge(d[i]).Stop?)
    && (forall k :: 0 <= k < |at| ==> stop <= at[k] < |d| && judge(d[at[k]]).Hit?)
    && (forall j, k :: 0 <= j < k < |at| ==> at[j] > at[k])
    && (forall i :: stop <= i < |d| && judge(d[i]).Hit? ==> i in at)
  }

  lemma {:induction false} ScanIsCounted(d: seq<Eventinfo>, judge: Eventinfo -> Verdict)
      returns (stop: nat, at: seq<nat>)
    ensures CountedAt(d, judge, stop, at)
    ensures |Scan(d, judge)| == |at| && forall k :: 0 <= k < |at| ==> Scan(d, judge)[k] == d[at[k]]
  {
    hide CountedAt;
    if d == [] {
      stop, at := 0, [];
      CountedNone(d, judge);
    } else {
      var n := |d| - 1;
      match judge(d[n])
      case Stop =>
        stop, at := |d|, [];
        CountedNone(d, judge);
      case Skip =>
        stop, at := ScanIsCounted(d[..n], judge);
        CountedSkip(d, judge, stop, at);
      case Hit =>
        var rest;
        stop, rest := ScanIsCounted(d[..n], judge);
        at := [n] + rest;
        CountedHit(d, judge, stop, rest);
    }
  }

  lemma CountedNone(d: seq<Eventinfo>, judge: Eventinfo -> Verdict)
    requires d != [] ==> judge(d[|d| - 1]).Stop?
    ensures CountedAt(d, judge, |d|, [])
  {
  }

  lemma CountedSkip(d: seq<Eventinfo>, judge: Eventinfo -> Verdict, stop: nat, at: seq<nat>)
    requires d != [] && judge(d[|d| - 1]).Skip? && CountedAt(d[..|d| - 1], judge, stop, at)
    ensures CountedAt(d, judge, stop, at) && forall k :: 0 <= k < |at| ==> at[k] < |d| - 1
  {
    var u := d[..|d| - 1];
    forall i | stop <= i < |d| && judge(d[i]).Hit?
      ensures i in at
    {
      assert u[i] == d[i];
    }
  }

  lemma CountedHit(d: seq<Eventinfo>, judge: Eventinfo -> Verdict, stop: nat, rest: seq<nat>)
    requires d != [] && judge(d[|d| - 1]).Hit? && CountedAt(d[..|d| - 1], judge, stop, rest)
    ensures CountedAt(d, judge, stop, [|d| - 1] + rest) && forall k :: 0 <= k < |rest| ==> rest[k] < |d| - 1
  {
    var n := |d| - 1;
    var u, at := d[..n], [n] + rest;
    forall i | stop <= i < |d| && judge(d[i]).Hit?
      ensures i in at
    {
      if i < n {
        assert u[i] == d[i];
        assert i in rest;
      } else {
        assert at[0] == i;
      }
    }
    forall k | 0 <= k < |at|
      ensures stop <= at[k] < |d| && judge(d[at[k]]).Hit?
    {
      if k > 0 {
        assert u[rest[k - 1]] == d[at[k]];
      }
    }
  }

  lemma {:induction false} ScanBehindStop(d: seq<Eventinfo>, judge: Eventinfo -> Verdict, b: nat, e: Eventinfo)
    requires b < |d| && judge(d[b]).Stop? && e in Scan(d, judge)
    ensures exists i :: b < i < |d| && d[i] == e
  {
    var stop, at := ScanIsCounted(d, judge);
    var k :| 0 <= k < |Scan(d, judge)| && Scan(d, judge)[k] == e;
    assert b < at[k] < |d| && d[at[k]] == e;
  }

  /** When no event is stored twice, the events that count are different ones. */
  lemma EvidenceIsDistinct(d: seq<Eventinfo>, judge: Eventinfo -> Verdict)
    requires NoRepeats(d)
    ensures NoRepeats(Scan(d, judge))
  {
    var stop, at := ScanIsCounted(d, judge);
  }

  /** No search can count an event twice exactly when no event is stored twice. */
  lemma DistinctEvidenceIff(d: seq<Eventinfo>)
    ensures (forall judge: Eventinfo -> Verdict :: NoRepeats(Scan(d, judge))) <==> NoRepeats(d)
  {
    hide Scan;
    if NoRepeats(d) {
      forall judge: Eventinfo -> Verdict
        ensures NoRepeats(Scan(d, judge))
      {
        EvidenceIsDistinct(d, judge);
      }
    } else {
      var i, j :| 0 <= i < j < |d| && d[i] == d[j];
      CountedTwice(d, i, j);
    }
  }

  lemma CountedTwice(d: seq<Eventinfo>, i: nat, j: nat)
    requires i < j < |d| && d[i] == d[j]
    ensures !NoRepeats(Scan(d, (e: Eventinfo) => Hit))
  {
    hide Scan;
    var all := (e: Eventinfo) => Hit;
    var stop, at := ScanIsCounted(d, all);
    assert stop == 0;
    var a :| 0 <= a < |at| && at[a] == i;
    var b :| 0 <= b < |at| && at[b] == j;
    var c := Scan(d, all);
    assert c[a] == d[i] && c[b] == d[j];
    assert a < b || b < a;
  }

  // ---------- runs ----------

  /** One list and the marks of the events; `seen` are the events that were ever stored. */
  datatype State = State(d: seq<Eventinfo>, marks: Marks, seen: set<Eventinfo>)

  datatype Step =
    | Store(e: Eventinfo, copies: nat, mark: int)
    | Evict(n: nat)
    | Raise(other: Marks)
    | Search(level: int, frequency: nat, expired: Eventinfo -> bool, agree: Eventinfo -> bool)

  ghost predicate Enabled(s: State, t: Step) {
    match t
    case Store(e, _, _) => e !in s.seen
    case Evict(n) => n <= |s.d|
    case Raise(other) => forall e | e in s.marks :: e in other && other[e] >= s.marks[e]
    case Search(_, _, _, _) => true
  }

  /** The events a search counts, when it counts enough of them. */
  function Counted(s: State, t: Step): seq<Eventinfo>
    requires t.Search?
  {
    var c := Scan(s.d, Judge(t.level, t.expired, t.agree, s.marks));
    if |c| > t.frequency then c[..t.frequency + 1] else []
  }

  /** A successful search marks the newest event and the last one it counted. */
  function Marked(d: seq<Eventinfo>, marks: Marks, last: Eventinfo, level: int): Marks
    requires d != []
  {
    marks[last := level][d[|d| - 1] := level]
  }

  function Next(s: State, t: Step): State {
    match t
    case Store(e, copies, mark) => State(s.d + seq(copies, _ => e), s.marks[e := mark], s.seen + {e})
    case Evict(n) => s.(d := if n <= |s.d| then s.d[n..] else [])
    case Raise(other) => s.(marks := other)
    case Search(level, frequency, _, _) =>
      var c := Counted(s, t);
      if c == [] || s.d == [] then s else s.(marks := Marked(s.d, s.marks, c[frequency], level))
  }

  function Run(s: State, steps: seq<Step>): State {
    if steps == [] then s else Next(Run(s, steps[..|steps| - 1]), steps[|steps| - 1])
  }

  /** Every stored event is known and has a mark. */
  ghost predicate Proper(s: State) {
    forall e | e in s.d :: e in s.seen && e in s.marks
  }

  ghost predicate Possible(s: State, steps: seq<Step>) {
    Proper(s) && forall k :: 0 <= k < |steps| ==> Enabled(Run(s, steps[..k]), steps[k])
  }

  /** The event at `b` is marked at least `level`, and no event of `before` is newer. */
  ghost predicate Barrier(s: State, before: set<Eventinfo>, level: int, b: int) {
    && 0 <= b < |s.d| && s.d[b] in s.marks && s.marks[s.d[b]] >= level
    && forall i :: b < i < |s.d| ==> s.d[i] !in before
  }

  /** No search at `level` or below can reach an event of `before`: none is left, or all of them lie
      behind an event that stops such a search. */
  ghost predicate Closed(s: State, before: set<Eventinfo>, level: int) {
    && before <= s.seen
    && ((forall e | e in s.d :: e !in before) || exists b :: Barrier(s, before, level, b))
  }

  /** A successful search gives its level to the last event it counts and to the newest one, and to no other;
      any other search changes no mark. */
  lemma MarksAfter(s: State, t: Step)
    requires Proper(s) && t.Search?
    ensures var c, after := Counted(s, t), Next(s, t).marks;
            && after.Keys == s.marks.Keys
            && forall e | e in after ::
                 after[e] == if c != [] && (e == c[t.frequency] || e == s.d[|s.d| - 1]) then t.level else s.marks[e]
  {
    hide Scan;
    CountedAreStored(s, t);
    var c := Counted(s, t);
    assert c != [] ==> c[t.frequency] in s.d && s.d[|s.d| - 1] in s.d;
  }

  /** A search that succeeds raises the marks it changes. */
  lemma SearchRaises(s: State, t: Step, e: Eventinfo)
    requires Proper(s) && t.Search? && e in s.marks
    ensures e in Next(s, t).marks && Next(s, t).marks[e] >= s.marks[e]
  {
    var judge := Judge(t.level, t.expired, t.agree, s.marks);
    var c := Counted(s, t);
    if c != [] {
      var stop, at := ScanIsCounted(s.d, judge);
      assert Scan(s.d, judge)[t.frequency] == s.d[at[t.frequency]];
      assert !judge(s.d[at[t.frequency]]).Stop? && !judge(s.d[|s.d| - 1]).Stop?;
    }
  }

  lemma StepKeepsProper(s: State, t: Step)
    requires Proper(s) && Enabled(s, t)
    ensures Proper(Next(s, t)) && s.seen <= Next(s, t).seen
  {
  }

  lemma StepKeepsBarrier(s: State, t: Step, before: set<Eventinfo>, level: int, b: int)
    requires Proper(s) && Enabled(s, t) && before <= s.seen && Barrier(s, before, level, b)
    requires t.Evict? ==> t.n <= b
    ensures Barrier(Next(s, t), before, level, if t.Evict? then b - t.n else b)
  {
    match t
    case Store(e, copies, mark) =>
      StoreKeepsBarrier(s, t, before, level, b);
    case Evict(n) =>
    case Raise(other) =>
    case Search(_, _, _, _) =>
      SearchRaises(s, t, s.d[b]);
  }

  lemma StoreKeepsBarrier(s: State, t: Step, before: set<Eventinfo>, level: int, b: int)
    requires Proper(s) && Enabled(s, t) && before <= s.seen && Barrier(s, before, level, b) && t.Store?
    ensures Barrier(Next(s, t), before, level, b)
  {
    var u := Next(s, t);
    assert u.d[b] == s.d[b] != t.e;
    forall i | b < i < |u.d|
      ensures u.d[i] !in before
    {
      if i < |s.d| {
        assert u.d[i] == s.d[i];
      }
    }
  }

  lemma StepKeepsClosed(s: State, t: Step, before: set<Eventinfo>, level: int)
    requires Proper(s) && Enabled(s, t) && Closed(s, before, level)
    ensures Closed(Next(s, t), before, level)
  {
    StepKeepsProper(s, t);
    if b :| Barrier(s, before, level, b) {
      if t.Evict? && b < t.n {
        assert forall i :: 0 <= i < |Next(s, t).d| ==> Next(s, t).d[i] == s.d[i + t.n];
      } else {
        StepKeepsBarrier(s, t, before, level, b);
      }
    }
  }

  /** After a successful search, the events it could see are closed off at its level. */
  lemma SearchCloses(s: State, t: Step)
    requires Proper(s) && t.Search? && Counted(s, t) != []
    ensures Closed(Next(s, t), (set e | e in s.d), t.level)
    ensures forall e | e in Counted(s, t) :: e in s.d
  {
    hide Scan, Counted;
    CountedAreStored(s, t);
    NewestIsBarrier(s, t);
  }

  lemma CountedAreStored(s: State, t: Step)
    requires t.Search?
    ensures forall e | e in Counted(s, t) :: e in s.d
    ensures Counted(s, t) != [] ==> |Counted(s, t)| == t.frequency + 1 && s.d != []
  {
    hide Scan;
    var judge := Judge(t.level, t.expired, t.agree, s.marks);
    var stop, at := ScanIsCounted(s.d, judge);
    var c := Counted(s, t);
    assert |c| <= |Scan(s.d, judge)| && forall k :: 0 <= k < |c| ==> c[k] == Scan(s.d, judge)[k];
    assert forall k :: 0 <= k < |c| ==> 0 <= at[k] < |s.d| && c[k] == s.d[at[k]];
    assert c != [] ==> c[0] in s.d;
  }

  lemma NewestIsBarrier(s: State, t: Step)
    requires Proper(s) && t.Search? && |Counted(s, t)| == t.frequency + 1 && s.d != []
    ensures Barrier(Next(s, t), (set e | e in s.d), t.level, |Next(s, t).d| - 1)
  {
    hide Scan, Counted;
  }

  /** What is closed off at a level is not counted at that level or a lower one. */
  lemma ClosedIsNotCounted(s: State, t: Step, before: set<Eventinfo>, level: int)
    requires Closed(s, before, level) && t.Search? && t.level <= level
    ensures forall e | e in Counted(s, t) :: e !in before
  {
    var judge := Judge(t.level, t.expired, t.agree, s.marks);
    forall e | e in Counted(s, t)
      ensures e !in before
    {
      assert e in Scan(s.d, judge);
      if b :| Barrier(s, before, level, b) {
        ScanBehindStop(s.d, judge, b, e);
      } else {
        var stop, at := ScanIsCounted(s.d, judge);
        var k :| 0 <= k < |Scan(s.d, judge)| && Scan(s.d, judge)[k] == e;
        assert e == s.d[at[k]];
      }
    }
  }

  lemma {:induction false} RunKeepsProper(s: State, steps: seq<Step>)
    requires Possible(s, steps)
    ensures Proper(Run(s, steps))
  {
    if steps != [] {
      var n := |steps| - 1;
      assert forall k :: 0 <= k <= n ==> steps[..n][..k] == steps[..k];
      RunKeepsProper(s, steps[..n]);
      StepKeepsProper(Run(s, steps[..n]), steps[n]);
    }
  }

  lemma PossiblePrefix(s: State, steps: seq<Step>, i: nat)
    requires Possible(s, steps) && i <= |steps|
    ensures Possible(s, steps[..i])
  {
    assert forall k :: 0 <= k <= i ==> steps[..i][..k] == steps[..k];
  }

  lemma {:induction false} RunKeepsClosed(s: State, steps: seq<Step>, i: nat, j: nat, before: set<Eventinfo>,
                                          level: int)
    requires Possible(s, steps) && i <= j <= |steps|
    requires Closed(Run(s, steps[..i]), before, level)
    ensures Closed(Run(s, steps[..j]), before, level)
    decreases j - i
  {
    if i < j {
      hide Closed, Enabled, Next, Proper;
      assert steps[..i + 1][..i] == steps[..i];
      PossiblePrefix(s, steps, i);
      RunKeepsProper(s, steps[..i]);
      StepKeepsClosed(Run(s, steps[..i]), steps[i], before, level);
      RunKeepsClosed(s, steps, i + 1, j, before, level);
    }
  }

  /** The same evidence is never used twice: over any run of stores, evictions, marks set elsewhere and
      searches on a list, two successful searches count different events unless the later one is at a
      higher level. */
  lemma EvidenceIsUsedOnce(s: State, steps: seq<Step>, i: nat, j: nat)
    requires Possible(s, steps) && i < j < |steps| && steps[i].Search? && steps[j].Search?
    requires steps[j].level <= steps[i].level
    ensures forall e | e in Counted(Run(s, steps[..i]), steps[i]) :: e !in Counted(Run(s, steps[..j]), steps[j])
  {
    var u := Run(s, steps[..i]);
    if Counted(u, steps[i]) != [] {
      PossiblePrefix(s, steps, i);
      RunKeepsProper(s, steps[..i]);
      SearchCloses(u, steps[i]);
      assert steps[..i + 1][..i] == steps[..i];
      var before := set e | e in u.d;
      RunKeepsClosed(s, steps, i + 1, j, before, steps[i].level);
      ClosedIsNotCounted(Run(s, steps[..j]), steps[j], before, steps[i].level);
    }
  }

  /** A judge that agrees with another one until that one stops counts the same first. */
  lemma {:induction false} ScanFurther(d: seq<Eventinfo>, judge: Eventinfo -> Verdict, further: Eventinfo -> Verdict)
    requires forall e | e in d :: judge(e).Stop? || further(e) == judge(e)
    ensures Scan(d, judge) <= Scan(d, further)
  {
    if d != [] {
      var n := |d| - 1;
      assert d[n] in d && forall e | e in d[..n] :: e in d;
      ScanFurther(d[..n], judge, further);
    }
  }

  /** The same search directly after a successful one counts the same evidence again if and only if its
      level is higher. */
  lemma CountsAgainIff(s: State, t: Step, level: int)
    requires Proper(s) && t.Search? && Counted(s, t) != []
    ensures Counted(Next(s, t), t.(level := level)) == Counted(s, t) <==> level > t.level
  {
    hide Scan;
    var u, again := Next(s, t), t.(level := level);
    var judge, further := Judge(t.level, t.expired, t.agree, s.marks), Judge(level, t.expired, t.agree, u.marks);
    CountedAreStored(s, t);
    if level > t.level {
      forall e | e in s.d
        ensures judge(e).Stop? || further(e) == judge(e)
      {
      }
      ScanFurther(s.d, judge, further);
      assert Scan(s.d, judge)[..t.frequency + 1] == Scan(s.d, further)[..t.frequency + 1];
    } else {
      SearchCloses(s, t);
      ClosedIsNotCounted(u, again, (set e | e in s.d), t.level);
      assert Counted(s, t)[0] in s.d;
    }
  }
}
