/** One turn of the main loop of src/analysisd/analysisd.c:865-1051, from the rules to the clean-up: what
    becomes of an event, and who owns it afterwards. */
module EventLoop {
  import opened Entities
  import opened LiveEvents
  import opened EventMemories
  import opened AlertBooks
  import opened RuleTree
  import opened RuleWalks
  import opened IgnoreTimes

  /** What became of an event: in the correlation memory, freed, or neither. */
  datatype Fate = Stored | Freed | Lost

  /** Why an accepted rule does not use the event. */
  predicate WithinIgnoreTime(rule: RuleInfo, time: int)
    reads rule`timeIgnored
  {
    rule.ignoreTime != 0 && rule.timeIgnored != 0 && time - rule.timeIgnored < rule.ignoreTime
  }

  predicate Skipped(rule: RuleInfo, time: int)
    reads rule`level, rule`timeIgnored
  {
    rule.level == 0 || WithinIgnoreTime(rule, time)
  }

  /** Every received event has exactly one fate. */
  ghost predicate AccountedFor(received: set<Eventinfo>, lost: set<Eventinfo>, live: set<Eventinfo>)
    reads received`freed
  {
    && live <= received && lost <= received && lost !! live
    && forall e | e in received :: e.freed <==> e !in live && e !in lost
  }

  class ReadLoop {
    const daemon: Analysisd
    const memory: EventMemory
    /** The rules of the tree, and those that decoded alerts refer to. */
    ghost const rules: set<RuleInfo>
    /** Every event that was received, and those that are neither stored nor freed. */
    ghost var received: set<Eventinfo>
    ghost var lost: set<Eventinfo>
    /** The rules that events have fired. */
    ghost var history: seq<Occurrence>

    /** The first state: the tree is loaded and marked, and no event has arrived. */
    constructor (daemon: Analysisd, memory: EventMemory, ghost rules: set<RuleInfo>)
      requires daemon.Valid() && memory.Valid() && memory.live == [] && daemon.rules <= rules
      requires forall r | r in rules :: forall l | l in Registered(r) :: l in memory.lists
      requires SidListsSeparate(rules) && ListsApart(rules) && forall r | r in rules :: r.timeIgnored == 0
      ensures Valid() && Recorded() && received == {} && lost == {} && history == []
      ensures this.daemon == daemon && this.memory == memory && this.rules == rules
    {
      hide EventMemory.Valid, Analysisd.Valid, SidListsSeparate, ListsApart, Seg;
      NodesAllocated(daemon.shape);
      assert forall q | q in daemon.rules :: allocated(q);
      assert forall l | l in memory.lists :: allocated(l);
      assert forall n | n in SetOf(memory.nodes) :: allocated(n);
      this.daemon, this.memory, this.rules := daemon, memory, rules;
      received, lost, history := {}, {}, [];
    }

    /** The marking of the rules: known lists, no sid list shared by two rules or used as a group list. */
    ghost predicate ListsKnown()
      reads rules`sidPrevMatched, rules`groupPrevMatched
    {
      && daemon.rules <= rules
      && (forall r | r in rules :: forall l | l in Registered(r) :: l in memory.lists)
      && SidListsSeparate(rules) && ListsApart(rules)
    }

    /** The books balance, the lists follow the memory, and every event is accounted for. */
    ghost predicate Valid()
      reads this`received, this`lost, rules`sidPrevMatched, rules`groupPrevMatched, received`freed,
        daemon, Nodes(daemon.shape)`next, Nodes(daemon.shape)`child, daemon.rules`firedtimes,
        memory, SetOf(memory.nodes)`next, SetOf(memory.nodes)`prev, memory.lists`nodes,
        Events(memory.live)`freed, Events(memory.live)`generatedRule, Events(memory.live)`sidNodeToDelete,
        RulesOf(memory.live)`sidPrevMatched, RulesOf(memory.live)`groupPrevMatched
    {
      && daemon.Valid() && memory.Valid() && ListsKnown() && RulesOf(memory.live) <= rules
      && AccountedFor(received, lost, Events(memory.live))
    }

    /** The time stamps of the rules are those of their last uses, and these explain what happened. */
    ghost predicate Recorded()
      reads this`history, rules`timeIgnored
    {
      Explained(history) && forall r | r in rules :: r.timeIgnored == Stamp(history, r)
    }

    /** In every reachable state a sid list holds exactly the events in memory that fired its rule, once
        each, oldest first. */
    lemma SidListHoldsItsEvents(r: RuleInfo)
      requires Valid() && r in rules && r.sidPrevMatched != null
      ensures r.sidPrevMatched.Data() == FiredBy(r, memory.live)
    {
      var live, list := memory.live, r.sidPrevMatched;
      assert list in Registered(r) && list in memory.lists;
      memory.ListsFollowMemory(list);
      forall i | 0 <= i < |live|
        ensures if live[i].rule == r then live[i].lists == [list] else list !in live[i].lists
      {
        assert Describes(live[i]) && live[i].rule in RulesOf(live);
      }
      SidListIsFiredBy(list, r, live);
    }

    /** When the marks of a group list are those that `OS_MarkGroup` leaves, every event in memory occurs in
        it once for every tree node of its rule if the rule's group matches, and not at all otherwise. */
    lemma GroupListHoldsPerNode(l: OSList<Eventinfo>, matches: string -> bool, i: nat)
      requires Valid() && l in memory.lists && MarkedPerNode(l, matches, daemon.shape, rules)
      requires i < |memory.live| && memory.live[i].rule.sidPrevMatched == null
      ensures var x := memory.live[i];
              multiset(l.Data())[x.event] == if matches(x.rule.group) then Uses(daemon.shape, x.rule) else 0
    {
      hide Expected;
      var live := memory.live;
      memory.ListsFollowMemory(l);
      assert Describes(live[i]) && live[i].rule in RulesOf(live);
      ExpectedCount(l, live, i);
    }

    /** The rule an event fires: a decoded alert brings its own, any other goes through the tree. */
    ghost function RuleFor(lf: Eventinfo, isAlert: bool, category: int, m: RuleInfo -> bool): RuleInfo?
      reads lf`generatedRule, Rules(daemon.shape)`category, Rules(daemon.shape)`level
    {
      if isAlert then lf.generatedRule else Pointer(RootsResult(daemon.shape, category, m))
    }

    /** What becomes of an event: only a decoded alert whose rule skips it is neither stored nor freed. */
    ghost function FateOf(lf: Eventinfo, isAlert: bool, category: int, m: RuleInfo -> bool, ignored: bool): Fate
      reads lf`generatedRule, Rules(daemon.shape)`category, Rules(daemon.shape)`level
      reads (if RuleFor(lf, isAlert, category, m) == null then {} else {RuleFor(lf, isAlert, category, m)})`level
      reads (if RuleFor(lf, isAlert, category, m) == null then {} else {RuleFor(lf, isAlert, category, m)})`timeIgnored
    {
      var rule := RuleFor(lf, isAlert, category, m);
      if rule == null then Freed
      else if Skipped(rule, lf.info.time) then (if isAlert then Lost else Freed)
      else if rule.ckignore && ignored then Freed
      else Stored
    }

    /** The rule part of the main loop and the clean-up behind it. */
    method ProcessEvent(lf: Eventinfo, isAlert: bool, category: int, m: RuleInfo -> bool, ignored: bool)
      requires Valid() && lf !in received && !lf.freed && lf.sidNodeToDelete == null
      requires if isAlert then lf.generatedRule == null || lf.generatedRule in rules else lf.generatedRule == null
      modifies this`received, this`lost, daemon`hourlyAlerts, daemon.rules`firedtimes,
        rules`timeIgnored, lf`freed, lf`sidNodeToDelete, lf`generatedRule,
        memory`eventnode, memory`lastnode, memory`memoryUsed, memory`nodes, memory`live,
        SetOf(memory.nodes)`next, SetOf(memory.nodes)`prev, memory.lists`nodes, Events(memory.live)`freed
      ensures Valid() && received == old(received) + {lf}
      ensures match old(FateOf(lf, isAlert, category, m, ignored))
              case Stored => lf in Events(memory.live) && lf.generatedRule == old(RuleFor(lf, isAlert, category, m))
              case Freed => lf.freed && memory.live == old(memory.live)
              case Lost => lf in lost && memory.live == old(memory.live)
      ensures lost == old(lost) + if old(FateOf(lf, isAlert, category, m, ignored)) == Lost then {lf} else {}
      ensures forall q | q in rules ::
                q.timeIgnored == if q == old(RuleFor(lf, isAlert, category, m)) && q.ignoreTime != 0
                                    && !old(Skipped(q, lf.info.time)) then lf.info.time else old(q.timeIgnored)
      ensures old(FateOf(lf, isAlert, category, m, ignored)) == Stored <==> lf in Events(memory.live)
      ensures old(RuleFor(lf, isAlert, category, m)) == null || old(RuleFor(lf, isAlert, category, m)) in rules
    {
      hide EventMemory.Valid, Analysisd.Valid, ListsKnown, Seg, Rules, Nodes, RootsResult, Registered, AccountedFor,
           Skipped, RulesOf;
      ghost var before, fate := Events(memory.live), FateOf(lf, isAlert, category, m, ignored);
      assert forall e | e in received :: allocated(e);
      BeforeUse(lf);
      NoneFreed();
      var rule := FindRule(lf, isAlert, category, m);
      if rule != null {
        NodesAllocated(daemon.shape);
        assert forall q | q in daemon.rules :: allocated(q);
        Use(lf, rule, ignored);
      }
      CleanUp(lf, fate, before);
    }

    /** One turn of the loop, with what it means for the rule recorded: `IgnoreTimes` says what follows. */
    method ReadEvent(lf: Eventinfo, isAlert: bool, category: int, m: RuleInfo -> bool, ignored: bool)
      requires Valid() && Recorded() && lf !in received && !lf.freed && lf.sidNodeToDelete == null
      requires if isAlert then lf.generatedRule == null || lf.generatedRule in rules else lf.generatedRule == null
      modifies this`received, this`lost, this`history, daemon`hourlyAlerts, daemon.rules`firedtimes,
        rules`timeIgnored, lf`freed, lf`sidNodeToDelete, lf`generatedRule,
        memory`eventnode, memory`lastnode, memory`memoryUsed, memory`nodes, memory`live,
        SetOf(memory.nodes)`next, SetOf(memory.nodes)`prev, memory.lists`nodes, Events(memory.live)`freed
      ensures Valid() && Recorded() && received == old(received) + {lf}
      ensures var rule := old(RuleFor(lf, isAlert, category, m));
              if rule == null then history == old(history) && lf !in Events(memory.live)
              else
                && |history| == |old(history)| + 1 && history[..|old(history)|] == old(history)
                && var o := history[|old(history)|];
                   && o.rule == rule && o.level == old(rule.level) && o.time == lf.info.time && o.ignored == ignored
                   && (o.stored <==> lf in Events(memory.live))
    {
      hide Valid, Explained, Stamp, Skipped, RuleFor, FateOf;
      ghost var rule := RuleFor(lf, isAlert, category, m);
      ghost var used, level := false, 0;
      FateIs(lf, isAlert, category, m, ignored);
      if rule != null {
        used, level := !Skipped(rule, lf.info.time), rule.level;
        UsedMeans(rule, lf.info.time);
      }
      ProcessEvent(lf, isAlert, category, m, ignored);
      if rule != null {
        Note(Occurrence(rule, level, lf.info.time, used, ignored, lf in Events(memory.live)));
      }
    }

    lemma FateIs(lf: Eventinfo, isAlert: bool, category: int, m: RuleInfo -> bool, ignored: bool)
      ensures var rule := RuleFor(lf, isAlert, category, m);
              FateOf(lf, isAlert, category, m, ignored) == Stored
              <==> rule != null && !Skipped(rule, lf.info.time) && !(rule.ckignore && ignored)
    {
      hide RuleFor, Skipped;
    }

    lemma UsedMeans(rule: RuleInfo, time: int)
      ensures !Skipped(rule, time)
         <==> rule.level != 0
              && (rule.ignoreTime == 0 || rule.timeIgnored == 0 || time - rule.timeIgnored >= rule.ignoreTime)
    {
    }

    ghost method Note(o: Occurrence)
      requires Explained(history) && o.rule in rules
      requires var last := Stamp(history, o.rule);
               o.used <==> o.level != 0 && (o.rule.ignoreTime == 0 || last == 0 || o.time - last >= o.rule.ignoreTime)
      requires o.stored <==> o.used && !(o.rule.ckignore && o.ignored)
      requires forall q | q in rules ::
                 q.timeIgnored == if q == o.rule && q.ignoreTime != 0 && o.used then o.time else Stamp(history, q)
      modifies this`history
      ensures Recorded() && history == old(history) + [o]
    {
      hide Explained, Stamp;
      ExplainedMore(history, o);
      history := history + [o];
    }

    lemma BeforeUse(lf: Eventinfo)
      requires Valid() && lf !in received
      ensures lf !in Events(memory.live)
      ensures Events(memory.live) <= received && lost <= received && lost !! Events(memory.live)
      ensures forall e | e in received && e !in Events(memory.live) :: e.freed <==> e !in lost
    {
    }

    /** CLMEM: an event without a rule is freed. */
    method CleanUp(lf: Eventinfo, ghost fate: Fate, ghost before: set<Eventinfo>)
      requires daemon.Valid() && memory.Valid() && ListsKnown() && RulesOf(memory.live) <= rules
      requires lf !in received && !lf.freed && Events(memory.live) <= before + {lf}
      requires fate == Freed <==> lf.generatedRule == null
      requires fate == Stored <==> lf in Events(memory.live)
      requires before <= received && lost <= received && lost !! before
      requires forall e | e in received ::
                 if e in before then e.freed <==> e !in Events(memory.live) else e.freed <==> e !in lost
      modifies this`received, this`lost, lf`freed
      ensures Valid() && received == old(received) + {lf} && lost == old(lost) + if fate == Lost then {lf} else {}
      ensures fate == Freed ==> lf.freed
    {
      hide EventMemory.Valid, Analysisd.Valid, SidListsSeparate, ListsApart;
      if lf.generatedRule == null {
        // `Free_Eventinfo` on an event that is on no list.
        lf.freed := true;
      } else if fate == Lost {
        lost := lost + {lf};
      }
      received := received + {lf};
    }

    method FindRule(lf: Eventinfo, isAlert: bool, category: int, m: RuleInfo -> bool) returns (rule: RuleInfo?)
      requires daemon.Valid() && memory.Valid() && ListsKnown()
      requires isAlert ==> lf.generatedRule == null || lf.generatedRule in rules
      modifies daemon`hourlyAlerts, daemon.rules`firedtimes
      ensures daemon.Valid() && memory.Valid()
      ensures rule == old(RuleFor(lf, isAlert, category, m)) && (rule == null || rule in rules)
    {
      hide EventMemory.Valid, Analysisd.Valid, SidListsSeparate, ListsApart, Seg, Rules, Nodes, RootsResult, Registered;
      if isAlert {
        return lf.generatedRule;
      }
      assert forall e | e in Events(memory.live) :: allocated(e);
      assert forall l | l in memory.lists :: allocated(l);
      assert forall r | r in RulesOf(memory.live) :: allocated(r);
      assert forall n | n in SetOf(memory.nodes) :: allocated(n);
      rule := daemon.MatchEvent(category, m);
    }

    /** What the loop does with an event and the rule it fired; the event's own rule is still unset unless
        it is a decoded alert.  `ignored` is the answer of the ignore file. */
    method Use(lf: Eventinfo, rule: RuleInfo, ignored: bool)
      requires memory.Valid() && ListsKnown() && rule in rules
      requires !lf.freed && lf.sidNodeToDelete == null && lf !in Events(memory.live)
      modifies rule`timeIgnored, lf`freed, lf`sidNodeToDelete, lf`generatedRule,
        memory`eventnode, memory`lastnode, memory`memoryUsed, memory`nodes, memory`live,
        SetOf(memory.nodes)`next, SetOf(memory.nodes)`prev, memory.lists`nodes, Events(memory.live)`freed
      ensures memory.Valid()
      ensures rule.timeIgnored == if !old(Skipped(rule, lf.info.time)) && rule.ignoreTime != 0 then lf.info.time
                                  else old(rule.timeIgnored)
      ensures old(Skipped(rule, lf.info.time)) ==>
                lf.generatedRule == old(lf.generatedRule) && memory.live == old(memory.live) && !lf.freed
      ensures !old(Skipped(rule, lf.info.time)) && rule.ckignore && ignored ==>
                lf.generatedRule == null && memory.live == old(memory.live) && !lf.freed
      ensures !old(Skipped(rule, lf.info.time)) && !(rule.ckignore && ignored) ==>
                lf.generatedRule == rule && lf in Events(memory.live)
      ensures Events(memory.live) <= Events(old(memory.live)) + {lf} && !lf.freed
      ensures RulesOf(memory.live) <= RulesOf(old(memory.live)) + {rule}
      ensures lf in Events(memory.live) || lf.sidNodeToDelete == null
      ensures forall e | e in Events(old(memory.live)) :: e.freed <==> e !in Events(memory.live)
    {
      hide EventMemory.Valid, Registered, SidListsSeparate, ListsApart;
      assert forall e | e in Events(memory.live) :: allocated(e);
      var skip := Skip(rule, lf.info.time);
      if skip {
        return;
      }
      if rule.ckignore && ignored {
        lf.generatedRule := null;
        return;
      }
      Keep(lf, rule);
    }

    /** The tests on the level and the ignore time. */
    method Skip(rule: RuleInfo, time: int) returns (skip: bool)
      requires memory.Valid()
      modifies rule`timeIgnored
      ensures memory.Valid() && forall e | e in Events(memory.live) :: !e.freed
      ensures skip == old(Skipped(rule, time))
      ensures rule.timeIgnored == if !skip && rule.ignoreTime != 0 then time else old(rule.timeIgnored)
    {
      hide EventMemory.Valid;
      assert forall e | e in Events(memory.live) :: allocated(e);
      assert forall l | l in memory.lists :: allocated(l);
      NoneFreed();
      if rule.level == 0 {
        return true;
      }
      if rule.ignoreTime != 0 {
        if rule.timeIgnored == 0 {
          rule.timeIgnored := time;
        } else if time - rule.timeIgnored < rule.ignoreTime {
          return true;
        } else {
          rule.timeIgnored := time;
        }
      }
      return false;
    }

    lemma NoneFreed()
      requires memory.Valid()
      ensures forall e | e in Events(memory.live) :: !e.freed
    {
    }

    /** The event enters the memory, which may push out older ones. */
    method Keep(lf: Eventinfo, rule: RuleInfo)
      requires memory.Valid() && ListsKnown() && rule in rules
      requires !lf.freed && lf.sidNodeToDelete == null && lf !in Events(memory.live)
      modifies lf`freed, lf`sidNodeToDelete, lf`generatedRule,
        memory`eventnode, memory`lastnode, memory`memoryUsed, memory`nodes, memory`live,
        SetOf(memory.nodes)`next, SetOf(memory.nodes)`prev, memory.lists`nodes, Events(memory.live)`freed
      ensures memory.Valid()
      ensures lf.generatedRule == rule && lf in Events(memory.live)
      ensures Events(memory.live) <= Events(old(memory.live)) + {lf} && !lf.freed
      ensures RulesOf(memory.live) <= RulesOf(old(memory.live)) + {rule}
      ensures forall e | e in Events(old(memory.live)) :: e.freed <==> e !in Events(memory.live)
    {
      hide Registered, Evicted, SidListsSeparate, ListsApart, EventMemory.Linked, Consistent, Events, RulesOf;
      ghost var all := memory.live + [Entry(lf, rule, Registered(rule))];
      memory.Remember(lf, rule);
      NoneFreed();
      EventsMore(old(memory.live), Entry(lf, rule, Registered(rule)));
      RulesMore(old(memory.live), Entry(lf, rule, Registered(rule)));
      ghost var n := Evicted(all, memory.maxFreq, memory.memoryMaxsize);
      EventsOfTail(all, n);
      NewestIsKept(memory.live, lf, rule);
    }

    lemma NewestIsKept(live: seq<Entry>, lf: Eventinfo, rule: RuleInfo)
      requires memory.Valid() && memory.live == live && live != []
      requires live[|live| - 1].event == lf && live[|live| - 1].rule == rule
      ensures lf.generatedRule == rule && lf in Events(live) && !lf.freed
    {
      assert Describes(live[|live| - 1]);
    }
  }
}
