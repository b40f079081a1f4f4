/** The hit counters of analysisd: the matcher that raises them, and the hourly dump that prints and
    clears them (src/analysisd/analysisd.c:1612-1728). */
module AlertBooks {
  import opened Entities
  import opened Forests
  import opened RuleTree
  import opened RuleMatch
  import opened RuleWalks

  type Hits = map<RuleInfo, nat>

  /** The sum over all rules, each counted once. */
  ghost function Total(h: Hits): nat
    decreases |h|
  {
    if h == map[] then 0
    else
      var r :| r in h;
      h[r] + Total(h - {r})
  }

  /** The sum does not depend on the order of summation. */
  lemma {:induction false} TotalTake(h: Hits, r: RuleInfo)
    requires r in h
    ensures Total(h) == h[r] + Total(h - {r})
    decreases |h|
  {
    var q :| q in h && Total(h) == h[q] + Total(h - {q});
    if q != r {
      TotalTake(h - {q}, r);
      TotalTake(h - {r}, q);
      assert h - {q} - {r} == h - {r} - {q};
    }
  }

  lemma TotalSet(h: Hits, r: RuleInfo, n: nat)
    requires r in h
    ensures Total(h[r := n]) == Total(h) - h[r] + n
  {
    TotalTake(h, r);
    TotalTake(h[r := n], r);
    assert h[r := n] - {r} == h - {r};
  }

  lemma {:induction false} TotalOfZeros(h: Hits)
    requires forall r | r in h :: h[r] == 0
    ensures Total(h) == 0
    decreases |h|
  {
    if h != map[] {
      var r :| r in h;
      TotalTake(h, r);
      TotalOfZeros(h - {r});
    }
  }

  // ---------- the log of an hour ----------

  /** One line of `LoopRule`. */
  datatype Line = Line(hour: int, sigid: int, level: int, fired: nat)

  function Sum(lines: seq<Line>): nat {
    if lines == [] then 0 else Sum(lines[..|lines| - 1]) + lines[|lines| - 1].fired
  }

  /** The total line of `DumpLogstats`. */
  datatype Totals = Totals(hour: int, alerts: nat, events: nat, syscheck: nat, firewall: nat)

  /** The lines are those of the rules `who`, none of them twice, with the hits they had. */
  ghost predicate Prints(lines: seq<Line>, who: seq<RuleInfo>, hits: Hits, levels: map<RuleInfo, int>, hour: int) {
    && |lines| == |who|
    && (forall i, j :: 0 <= i < j < |who| ==> who[i] != who[j])
    && forall i :: 0 <= i < |who| ==>
                     && who[i] in hits && hits[who[i]] > 0 && who[i] in levels
                     && lines[i] == Line(hour, who[i].sigid, levels[who[i]], hits[who[i]])
  }

  /** A line gives the hour, and id, level and hits of its rule, and a rule has no second line. */
  lemma PrintedLine(lines: seq<Line>, who: seq<RuleInfo>, hits: Hits, levels: map<RuleInfo, int>, hour: int, i: nat)
    requires Prints(lines, who, hits, levels, hour) && i < |lines|
    ensures var q := who[i];
            && q in hits && q in levels
            && lines[i].hour == hour && lines[i].sigid == q.sigid && lines[i].level == levels[q]
            && lines[i].fired == hits[q] > 0
    ensures forall j :: 0 <= j < |lines| && j != i ==> who[j] != who[i]
  {
  }

  /** The hits left once the rules `who` are printed. */
  ghost function Cleared(hits: Hits, who: seq<RuleInfo>): Hits {
    map r | r in hits :: if r in who then 0 else hits[r]
  }

  /** What the lines show is what the counters lost. */
  lemma {:induction false} PrintedIsCleared(lines: seq<Line>, who: seq<RuleInfo>, hits: Hits,
                                            levels: map<RuleInfo, int>, hour: int)
    requires Prints(lines, who, hits, levels, hour)
    ensures Sum(lines) + Total(Cleared(hits, who)) == Total(hits)
  {
    if who == [] {
      assert Cleared(hits, who) == hits;
    } else {
      var n := |who| - 1;
      PrintedIsCleared(lines[..n], who[..n], hits, levels, hour);
      assert who == who[..n] + [who[n]];
      assert who[n] !in who[..n];
      assert Cleared(hits, who) == Cleared(hits, who[..n])[who[n] := 0];
      TotalSet(Cleared(hits, who[..n]), who[n], 0);
    }
  }

  /** Printing `who` and then, from what is left, `more` is printing both. */
  lemma PrintsMore(lines: seq<Line>, who: seq<RuleInfo>, also: seq<Line>, more: seq<RuleInfo>, hits: Hits,
                   levels: map<RuleInfo, int>, hour: int)
    requires Prints(lines, who, hits, levels, hour)
    requires Prints(also, more, Cleared(hits, who), levels, hour)
    ensures Prints(lines + also, who + more, hits, levels, hour)
    ensures Cleared(Cleared(hits, who), more) == Cleared(hits, who + more)
  {
    forall i | 0 <= i < |more|
      ensures more[i] in hits && more[i] !in who
    {
      assert Cleared(hits, who)[more[i]] > 0;
    }
  }

  lemma PrintsNothing(hits: Hits, levels: map<RuleInfo, int>, hour: int)
    ensures Prints([], [], hits, levels, hour) && Cleared(hits, []) == hits
  {
  }

  lemma PrintsOne(r: RuleInfo, hits: Hits, levels: map<RuleInfo, int>, hour: int)
    requires r in hits && hits[r] > 0 && r in levels
    ensures Prints([Line(hour, r.sigid, levels[r], hits[r])], [r], hits, levels, hour)
    ensures Cleared(hits, [r]) == hits[r := 0]
  {
  }

  // ---------- the daemon ----------

  datatype LogEntry = Rule(line: Line) | Hour(totals: Totals)

  ghost function HitsOf(rules: set<RuleInfo>): Hits
    reads rules`firedtimes
  {
    map q | q in rules :: q.firedtimes
  }

  ghost function LevelsOf(rules: set<RuleInfo>): map<RuleInfo, int>
    reads rules`level
  {
    map q | q in rules :: q.level
  }

  /** What the loop over the rules of an event returns: only roots of the event's category are tried. */
  ghost function RootsResult(s: Shape, category: int, m: RuleInfo -> bool): Option<RuleInfo>
    reads Rules(s)`category, Rules(s)`level
  {
    match s
    case Nil => None
    case Cons(n, k, rest) =>
      var r := if n.ruleinfo.category != category then None else NodeResult(KeyOf(n.ruleinfo), View(k), m);
      if r.Some? then r else RootsResult(rest, category, m)
  }

  class Analysisd {
    const root: RuleNode?
    ghost const shape: Shape
    ghost const rules: set<RuleInfo>
    var thisHour: int
    var hourlyAlerts: nat
    var hourlyEvents: nat
    var hourlySyscheck: nat
    var hourlyFirewall: nat
    var log: seq<LogEntry>

    /** The books balance: the hourly counter is the sum of the hits of the rules in the tree, each rule
        counted once however many nodes it sits in. */
    ghost predicate Valid()
      reads this, Nodes(shape)`next, Nodes(shape)`child, rules`firedtimes
    {
      && Seg(root, shape, null) && rules == Rules(shape)
      && hourlyAlerts == Total(HitsOf(rules))
    }

    /** The tree as loaded: no rule has fired. */
    constructor (root: RuleNode?, ghost shape: Shape, thisHour: int)
      requires Seg(root, shape, null) && forall q | q in Rules(shape) :: q.firedtimes == 0
      ensures Valid() && this.root == root && this.shape == shape && log == []
    {
      TotalOfZeros(HitsOf(Rules(shape)));
      this.root, this.shape, this.rules, this.thisHour := root, shape, Rules(shape), thisHour;
      hourlyAlerts, hourlyEvents, hourlySyscheck, hourlyFirewall, log := 0, 0, 0, 0, [];
    }

    /** One counter pair is raised by one for a result, none without. */
    twostate predicate Counted(r: RuleInfo?)
      reads this`hourlyAlerts, rules`firedtimes
    {
      if r == null then hourlyAlerts == old(hourlyAlerts) && HitsOf(rules) == old(HitsOf(rules))
      else
        && r in rules
        && hourlyAlerts == old(hourlyAlerts) + 1
        && HitsOf(rules) == old(HitsOf(rules))[r := old(HitsOf(rules))[r] + 1]
    }

    /** `OS_CheckIfRuleMatch` at a node whose children are `k`. */
    method CheckIfRuleMatch(currNode: RuleNode, m: RuleInfo -> bool, ghost k: Shape) returns (result: RuleInfo?)
      requires Seg(currNode.child, k, null) && currNode.ruleinfo in rules && Rules(k) <= rules
      modifies this`hourlyAlerts, rules`firedtimes
      ensures Pointer(old(NodeResult(KeyOf(currNode.ruleinfo), View(k), m))) == result
      ensures Counted(result)
      decreases k
    {
      hide Seg, View, Rules, Nodes;
      var rule := currNode.ruleinfo;
      if !m(rule) {
        return null;
      }
      var childNode := currNode.child;
      ghost var rest, v := k, View(k);
      NodesAllocated(k);
      while childNode != null
        invariant Seg(childNode, rest, null) && (rest == k || rest < k) && Rules(rest) <= rules
        invariant ListResult(v, m) == ListResult(View(rest), m)
        invariant Counted(null)
        decreases rest
      {
        Opened(childNode, rest);
        ghost var vr := View(rest.rest);
        var childRule := CheckIfRuleMatch(childNode, m, rest.kids);
        if childRule != null {
          return childRule;
        }
        assert View(rest.rest) == vr;
        childNode := childNode.next;
        rest := rest.rest;
      }
      SegToNull(rest);
      if rule.noAlert {
        return null;
      }
      hourlyAlerts := hourlyAlerts + 1;
      rule.firedtimes := rule.firedtimes + 1;
      return rule;
    }

    /** The loop of `OS_ReadMSG` over the roots, for an event of a category other than an alert. */
    method MatchEvent(category: int, m: RuleInfo -> bool) returns (result: RuleInfo?)
      requires Valid()
      modifies this`hourlyAlerts, rules`firedtimes
      ensures Valid()
      ensures Pointer(old(RootsResult(shape, category, m))) == result
      ensures Counted(result)
    {
      hide Seg, View, Rules, Nodes, RootsResult;
      var node := root;
      ghost var rest, goal := shape, RootsResult(shape, category, m);
      NodesAllocated(shape);
      while node != null
        invariant Seg(node, rest, null) && Rules(rest) <= rules
        invariant goal == RootsResult(rest, category, m)
        invariant Counted(null)
        decreases rest
      {
        Opened(node, rest);
        RootsOpened(node, rest, category, m);
        ghost var later := RootsResult(rest.rest, category, m);
        if node.ruleinfo.category == category {
          result := CheckIfRuleMatch(node, m, rest.kids);
          if result != null {
            BooksAfter(result);
            return;
          }
        }
        assert RootsResult(rest.rest, category, m) == later;
        node := node.next;
        rest := rest.rest;
      }
      SegToNull(rest);
      RootsNone(category, m);
      return null;
    }

    twostate lemma BooksAfter(r: RuleInfo?)
      requires old(hourlyAlerts) == Total(old(HitsOf(rules))) && Counted(r)
      ensures hourlyAlerts == Total(HitsOf(rules))
    {
      if r != null {
        TotalSet(old(HitsOf(rules)), r, old(HitsOf(rules))[r] + 1);
      }
    }

    /** The lines `who` were added to the log, and their rules cleared, since the hits were `before`. */
    ghost predicate Looped(before: Hits, start: seq<LogEntry>, lines: seq<Line>, who: seq<RuleInfo>)
      reads this`log, this`thisHour, rules`firedtimes, rules`level
    {
      && Prints(lines, who, before, LevelsOf(rules), thisHour)
      && HitsOf(rules) == Cleared(before, who)
      && log == start + Entries(lines)
    }

    /** The first part of `LoopRule`. */
    method PrintRule(rule: RuleInfo) returns (ghost lines: seq<Line>, ghost who: seq<RuleInfo>)
      requires rule in rules
      modifies this`log, rules`firedtimes
      ensures Looped(old(HitsOf(rules)), old(log), lines, who)
      ensures rule.firedtimes == 0
    {
      ghost var hits := HitsOf(rules);
      lines, who := [], [];
      PrintsNothing(hits, LevelsOf(rules), thisHour);
      if rule.firedtimes > 0 {
        PrintsOne(rule, hits, LevelsOf(rules), thisHour);
        var line := Line(thisHour, rule.sigid, rule.level, rule.firedtimes);
        log := log + [Rule(line)];
        rule.firedtimes := 0;
        lines, who := [line], [rule];
      }
    }

    lemma LoopedMore(before: Hits, mid: Hits, start: seq<LogEntry>, after: seq<LogEntry>,
                     lines: seq<Line>, who: seq<RuleInfo>, also: seq<Line>, more: seq<RuleInfo>)
      requires Prints(lines, who, before, LevelsOf(rules), thisHour) && mid == Cleared(before, who)
      requires after == start + Entries(lines)
      requires Looped(mid, after, also, more)
      ensures Looped(before, start, lines + also, who + more)
    {
      hide Prints, Cleared, Entries;
      PrintsMore(lines, who, also, more, before, LevelsOf(rules), thisHour);
      EntriesConcat(lines, also);
      assert start + Entries(lines) + Entries(also) == start + (Entries(lines) + Entries(also));
    }

    /** `LoopRule`: every rule of the subtree is printed if it has hits, and has none afterwards. */
    method LoopRule(currNode: RuleNode, ghost k: Shape) returns (ghost lines: seq<Line>, ghost who: seq<RuleInfo>)
      requires Seg(currNode.child, k, null) && currNode.ruleinfo in rules && Rules(k) <= rules
      modifies this`log, rules`firedtimes
      ensures Looped(old(HitsOf(rules)), old(log), lines, who)
      ensures currNode.ruleinfo.firedtimes == 0 && forall q | q in Rules(k) :: q.firedtimes == 0
      decreases k
    {
      hide Seg, View, Rules, Nodes, Prints;
      NodesAllocated(k);
      ghost var before, start := HitsOf(rules), log;
      lines, who := PrintRule(currNode.ruleinfo);
      var childNode := currNode.child;
      ghost var rest, seen := k, {currNode.ruleinfo};
      while childNode != null
        invariant Seg(childNode, rest, null) && (rest == k || rest < k)
        invariant Rules(rest) <= rules && seen <= rules && seen + Rules(rest) == {currNode.ruleinfo} + Rules(k)
        invariant Looped(before, start, lines, who)
        invariant forall q | q in seen :: q.firedtimes == 0
        decreases rest
      {
        Opened(childNode, rest);
        ghost var mid, after, also, more := HitsOf(rules), log, [], [];
        also, more := LoopRule(childNode, rest.kids);
        LoopedMore(before, mid, start, after, lines, who, also, more);
        StaysZero(mid, more, seen);
        lines, who, seen := lines + also, who + more, seen + ({childNode.ruleinfo} + Rules(rest.kids));
        childNode := childNode.next;
        rest := rest.rest;
      }
      SegToNull(rest);
      NoRules();
    }

    lemma StaysZero(mid: Hits, more: seq<RuleInfo>, seen: set<RuleInfo>)
      requires seen <= rules && HitsOf(rules) == Cleared(mid, more)
      requires forall q | q in seen :: q in mid && mid[q] == 0
      ensures forall q | q in seen :: q.firedtimes == 0
    {
      forall q | q in seen
        ensures q.firedtimes == 0
      {
        assert HitsOf(rules)[q] == 0;
      }
    }

    /** `DumpLogstats`; `writable` says whether the log directory and file could be opened.  The lines of
        one dump name each rule with hits once and sum to the total that follows them. */
    method DumpLogstats(writable: bool) returns (ghost lines: seq<Line>, ghost who: seq<RuleInfo>)
      requires Valid() && root != null
      modifies this, rules`firedtimes
      ensures Valid() && thisHour == old(thisHour)
      ensures !writable ==>
                && log == old(log) && HitsOf(rules) == old(HitsOf(rules))
                && hourlyAlerts == old(hourlyAlerts) && hourlyEvents == old(hourlyEvents)
                && hourlySyscheck == old(hourlySyscheck) && hourlyFirewall == old(hourlyFirewall)
      ensures writable ==>
                && Prints(lines, who, old(HitsOf(rules)), LevelsOf(rules), thisHour)
                && (forall q | q in rules && q in old(HitsOf(rules)) && old(HitsOf(rules))[q] > 0 :: q in who)
                && log == old(log) + Entries(lines)
                          + [Hour(Totals(thisHour, old(hourlyAlerts), old(hourlyEvents), old(hourlySyscheck),
                                         old(hourlyFirewall)))]
                && Sum(lines) == old(hourlyAlerts)
                && (forall q | q in rules :: q.firedtimes == 0)
                && hourlyAlerts == hourlyEvents == hourlySyscheck == hourlyFirewall == 0
    {
      hide Seg, View, Rules, Nodes, Prints, Cleared, Total, Entries, Sum, HitsOf, LevelsOf;
      lines, who := [], [];
      if !writable {
        return;
      }
      ghost var before, start := HitsOf(rules), log;
      NodesAllocated(shape);
      lines, who := LoopRoots();
      ClearedAll(before, start, lines, who);
      log := log + [Hour(Totals(thisHour, hourlyAlerts, hourlyEvents, hourlySyscheck, hourlyFirewall))];
      hourlyAlerts := 0;
      hourlyEvents := 0;
      hourlySyscheck := 0;
      hourlyFirewall := 0;
    }

    lemma ClearedAll(before: Hits, start: seq<LogEntry>, lines: seq<Line>, who: seq<RuleInfo>)
      requires Looped(before, start, lines, who) && forall q | q in rules :: q.firedtimes == 0
      ensures Total(HitsOf(rules)) == 0 && Sum(lines) == Total(before)
      ensures forall q | q in rules && q in before && before[q] > 0 :: q in who
    {
      TotalOfZeros(HitsOf(rules));
      PrintedIsCleared(lines, who, before, LevelsOf(rules), thisHour);
      forall q | q in rules && q in before && before[q] > 0
        ensures q in who
      {
        assert HitsOf(rules)[q] == 0;
      }
    }

    /** The loop of `DumpLogstats` over the roots. */
    method LoopRoots() returns (ghost lines: seq<Line>, ghost who: seq<RuleInfo>)
      requires Seg(root, shape, null) && rules == Rules(shape)
      modifies this`log, rules`firedtimes
      ensures Looped(old(HitsOf(rules)), old(log), lines, who)
      ensures forall q | q in rules :: q.firedtimes == 0
    {
      hide Seg, View, Rules, Nodes, Prints;
      ghost var before, start := HitsOf(rules), log;
      lines, who := [], [];
      PrintsNothing(before, LevelsOf(rules), thisHour);
      var node := root;
      ghost var rest, seen := shape, {};
      while node != null
        invariant Seg(node, rest, null)
        invariant Rules(rest) <= rules && seen <= rules && seen + Rules(rest) == rules
        invariant Looped(before, start, lines, who)
        invariant forall q | q in seen :: q.firedtimes == 0
        decreases rest
      {
        Opened(node, rest);
        ghost var mid, after, also, more := HitsOf(rules), log, [], [];
        also, more := LoopRule(node, rest.kids);
        LoopedMore(before, mid, start, after, lines, who, also, more);
        StaysZero(mid, more, seen);
        lines, who, seen := lines + also, who + more, seen + ({node.ruleinfo} + Rules(rest.kids));
        node := node.next;
        rest := rest.rest;
      }
      SegToNull(rest);
      NoRules();
    }
  }

  function Entries(lines: seq<Line>): (e: seq<LogEntry>)
    ensures |e| == |lines| && forall i :: 0 <= i < |e| ==> e[i] == Rule(lines[i])
  {
    seq(|lines|, i requires 0 <= i < |lines| => Rule(lines[i]))
  }

  lemma EntriesConcat(a: seq<Line>, b: seq<Line>)
    ensures Entries(a + b) == Entries(a) + Entries(b)
  {
  }

  lemma RootsOpened(r: RuleNode, rest: Shape, category: int, m: RuleInfo -> bool)
    requires rest.Cons? && rest.node == r
    ensures RootsResult(rest, category, m) ==
            var x := if r.ruleinfo.category != category then None
                else NodeResult(KeyOf(r.ruleinfo), View(rest.kids), m);
            if x.Some? then x else RootsResult(rest.rest, category, m)
  {
  }

  lemma RootsNone(category: int, m: RuleInfo -> bool)
    ensures RootsResult(Nil, category, m) == None
  {
  }

  function Pointer(r: Option<RuleInfo>): RuleInfo? {
    match r
    case Some(x) => x
    case None => null
  }

  // ---------- the loop over the roots, by paths ----------

  ghost predicate RootInCategory(s: Shape, n: nat, category: int)
    reads Rules(s)`category
  {
    match s
    case Nil => false
    case Cons(r, _, rest) => if n == 0 then r.ruleinfo.category == category else RootInCategory(rest, n - 1, category)
  }

  /** A path below a root of the category on which every rule matches and whose last rule may alert. */
  ghost predicate AlertingBelow(s: Shape, category: int, m: RuleInfo -> bool, p: Path)
    reads Rules(s)`category, Rules(s)`level
  {
    p != [] && RootInCategory(s, p[0], category) && Alerting(View(s), p, m)
  }

  lemma {:induction false} NoRootResult(s: Shape, category: int, m: RuleInfo -> bool, p: Path)
    requires RootsResult(s, category, m).None?
    ensures !AlertingBelow(s, category, m, p)
  {
    if s.Cons? && AlertingBelow(s, category, m, p) {
      if p[0] > 0 {
        NoRootResult(s.rest, category, m, Later(p));
      } else {
        HeadGivesNothing(View(s), m, p);
      }
    }
  }

  lemma {:induction false} FirstRootResult(s: Shape, category: int, m: RuleInfo -> bool) returns (p: Path)
    requires RootsResult(s, category, m).Some?
    ensures AlertingBelow(s, category, m, p) && At(View(s), p) == RootsResult(s, category, m)
    ensures forall q :: AlertingBelow(s, category, m, q) && q != p ==> Earlier(p, q)
  {
    var f := View(s);
    if s.node.ruleinfo.category == category && NodeResult(f.key, f.kids, m).Some? {
      p := FirstResult(Tree(f.key, f.kids, Leaf), m);
    } else {
      var u := FirstRootResult(s.rest, category, m);
      p := [u[0] + 1] + u[1..];
      assert Later(p) == u;
      forall q | AlertingBelow(s, category, m, q) && q != p
        ensures Earlier(p, q)
      {
        if q[0] == 0 {
          HeadGivesNothing(f, m, q);
        } else {
          assert Later(q) != u by { assert q == [Later(q)[0] + 1] + Later(q)[1..]; }
          assert Earlier(u, Later(q));
        }
      }
    }
  }

  /** The loop over the roots returns the rule of the first alerting path below a root of the category,
      and nothing exactly when there is none. */
  lemma RootsResultIsFirst(s: Shape, category: int, m: RuleInfo -> bool)
    ensures RootsResult(s, category, m).Some? <==> exists p :: AlertingBelow(s, category, m, p)
    ensures forall p | AlertingBelow(s, category, m, p) ::
              (forall q :: AlertingBelow(s, category, m, q) && q != p ==> Earlier(p, q)) ==>
              RootsResult(s, category, m) == At(View(s), p)
  {
    if RootsResult(s, category, m).Some? {
      var u := FirstRootResult(s, category, m);
      forall p | AlertingBelow(s, category, m, p)
                 && forall q :: AlertingBelow(s, category, m, q) && q != p ==> Earlier(p, q)
        ensures RootsResult(s, category, m) == At(View(s), p)
      {
        if p != u {
          EarlierIsStrict(p, u);
        }
      }
    } else {
      forall p
        ensures !AlertingBelow(s, category, m, p)
      {
        NoRootResult(s, category, m, p);
      }
    }
  }
}
