/** The correlation memory: the bounded event list (src/analysisd/eventinfo_list.c), the registration of
    an accepted event (src/analysisd/analysisd.c:1007-1030) and its release
    (src/analysisd/eventinfo.c:670-681). */
module EventMemories {
  import opened Entities
  import opened LiveEvents
  import opened Sequences

  class EventNode {
    const event: Eventinfo
    var next: EventNode?
    var prev: EventNode?

    constructor (event: Eventinfo)
      ensures this.event == event && next == null && prev == null
    {
      this.event := event;
      next, prev := null, null;
    }
  }

  /** The lists an event of rule `r` is appended to: the sid list, or else every group list. */
  function Registered(r: RuleInfo): seq<OSList<Eventinfo>>
    reads r`sidPrevMatched, r`groupPrevMatched
  {
    if r.sidPrevMatched != null then [r.sidPrevMatched] else r.groupPrevMatched
  }

  ghost function Events(live: seq<Entry>): set<Eventinfo> {
    set e | e in live :: e.event
  }

  ghost function RulesOf(live: seq<Entry>): set<RuleInfo> {
    set e | e in live :: e.rule
  }

  /** The entry describes its event as it is: not freed, and appended as its rule is marked. */
  ghost predicate Describes(e: Entry)
    reads e.event`freed, e.event`generatedRule, e.event`sidNodeToDelete, e.rule`sidPrevMatched, e.rule`groupPrevMatched
  {
    && !e.event.freed
    && e.event.generatedRule == e.rule
    && e.lists == Registered(e.rule)
    && (e.event.sidNodeToDelete == null <==> e.rule.sidPrevMatched == null)
  }

  ghost predicate Described(live: seq<Entry>)
    reads Events(live)`freed, Events(live)`generatedRule, Events(live)`sidNodeToDelete, RulesOf(live)`sidPrevMatched,
          RulesOf(live)`groupPrevMatched
  {
    && (forall i :: 0 <= i < |live| ==> Describes(live[i]))
    && forall i, j :: 0 <= i < j < |live| ==> live[i].event != live[j].event
  }

  /** Every list contains exactly what the events in memory require. */
  ghost predicate Holds(lists: set<OSList<Eventinfo>>, live: seq<Entry>)
    reads lists`nodes
  {
    forall l | l in lists :: l.Data() == Expected(l, live)
  }

  /** A node that carries an event with a sid node is that sid node. */
  ghost predicate SidNodesOk(lists: set<OSList<Eventinfo>>, live: seq<Entry>)
    reads lists`nodes, Events(live)`sidNodeToDelete
  {
    forall l, n | l in lists && n in l.nodes ::
      n.data in Events(live) && (n.data.sidNodeToDelete == null || n.data.sidNodeToDelete == n)
  }

  // ---------- Free_Eventinfo ----------

  /** While an event is being appended or released, list `l` holds it `n` times. */
  ghost predicate Front(l: OSList<Eventinfo>, x: Entry, n: nat, rest: seq<Entry>)
    reads l`nodes
  {
    l.Data() == Repeat(x.event, n) + Expected(l, rest)
  }

  lemma FrontOfWhole(l: OSList<Eventinfo>, x: Entry, rest: seq<Entry>)
    ensures l.Data() == Expected(l, [x] + rest) <==> Front(l, x, Times(x, l), rest)
    ensures Front(l, x, 0, rest) <==> l.Data() == Expected(l, rest)
  {
    assert ([x] + rest)[1..] == rest;
    assert Repeat(x.event, 0) + Expected(l, rest) == Expected(l, rest);
  }

  lemma DataAreLive(lists: set<OSList<Eventinfo>>, live: seq<Entry>)
    requires Holds(lists, live)
    ensures forall l, n | l in lists && n in l.nodes :: n.data in Events(live)
  {
    forall l, n | l in lists && n in l.nodes
      ensures n.data in Events(live)
    {
      var i :| 0 <= i < |l.nodes| && l.nodes[i] == n;
      assert l.Data()[i] == n.data;
      ExpectedAreLive(l, live, n.data);
    }
  }

  lemma RepeatHead<T>(x: T, n: nat, s: seq<T>)
    requires n > 0
    ensures (Repeat(x, n) + s)[0] == x && (Repeat(x, n) + s)[1..] == Repeat(x, n - 1) + s
  {
  }

  ghost function Left(groups: seq<OSList<Eventinfo>>, i: nat, l: OSList<Eventinfo>): nat
    requires i <= |groups|
  {
    multiset(groups[i..])[l]
  }

  lemma LeftStep(groups: seq<OSList<Eventinfo>>, i: nat, l: OSList<Eventinfo>)
    requires i < |groups|
    ensures Left(groups, i, l) == Left(groups, i + 1, l) + if l == groups[i] then 1 else 0
  {
    assert groups[i..] == [groups[i]] + groups[i + 1..];
  }

  /** The oldest node of a list that starts with the event is a node of the event. */
  method DeleteFront(list: OSList<Eventinfo>, ghost e: Entry, ghost n: nat, ghost rest: seq<Entry>,
                     ghost lists: set<OSList<Eventinfo>>)
    requires list in lists && n > 0 && Front(list, e, n, rest) && SidNodesOk(lists, [e] + rest)
    modifies list`nodes
    ensures Front(list, e, n - 1, rest) && SidNodesOk(lists, [e] + rest)
  {
    hide Repeat, Expected, OSList.Data;
    RepeatHead(e.event, n, Expected(list, rest));
    list.DeleteOldestNode();
  }

  /** The group loop of `Free_Eventinfo`: deleting the oldest node of every registered list, as often as
      it is registered, removes nodes of this event only. */
  method DeleteFromGroups(x: Eventinfo, groups: seq<OSList<Eventinfo>>, ghost e: Entry, ghost rest: seq<Entry>,
                          ghost lists: set<OSList<Eventinfo>>)
    requires SidNodesOk(lists, [e] + rest)
    requires e.event == x && e.lists == groups && forall l | l in groups :: l in lists
    requires forall l | l in lists :: Front(l, e, Times(e, l), rest)
    modifies lists`nodes
    ensures Holds(lists, rest) && SidNodesOk(lists, [e] + rest)
  {
    hide Repeat, Expected, OSList.Data, Front, SidNodesOk, Left;
    var i := 0;
    LeftAll(groups);
    while i < |groups|
      invariant 0 <= i <= |groups|
      invariant forall l | l in lists :: Front(l, e, Left(groups, i, l), rest)
      invariant SidNodesOk(lists, [e] + rest)
    {
      LeftStep(groups, i, groups[i]);
      DeleteFront(groups[i], e, Left(groups, i, groups[i]), rest, lists);
      forall l | l in lists
        ensures Front(l, e, Left(groups, i + 1, l), rest)
      {
        LeftStep(groups, i, l);
      }
      i := i + 1;
    }
    forall l | l in lists
      ensures l.Data() == Expected(l, rest)
    {
      FrontOfWhole(l, e, rest);
    }
  }

  lemma LeftAll(groups: seq<OSList<Eventinfo>>)
    ensures forall l :: Left(groups, 0, l) == multiset(groups)[l] && Left(groups, |groups|, l) == 0
  {
    assert groups[0..] == groups;
  }

  /** The end of `Free_Eventinfo`, for the oldest event in memory: it leaves every list it was appended
      to, and no list keeps it. */
  method FreeEventinfo(lf: Eventinfo, ghost x: Entry, ghost rest: seq<Entry>, ghost lists: set<OSList<Eventinfo>>)
    requires Describes(x) && x.event == lf && lf !in Events(rest)
    requires forall l | l in x.lists :: l in lists
    requires Holds(lists, [x] + rest) && SidNodesOk(lists, [x] + rest)
    modifies lists`nodes, lf`freed
    ensures lf.freed
    ensures Holds(lists, rest) && SidNodesOk(lists, rest)
  {
    forall l | l in lists
      ensures Front(l, x, Times(x, l), rest)
    {
      FrontOfWhole(l, x, rest);
    }
    if lf.sidNodeToDelete != null {
      var list := lf.generatedRule.sidPrevMatched;
      DeleteSidNode(lf, list, x, rest, lists);
    } else {
      DeleteFromGroups(lf, lf.generatedRule.groupPrevMatched, x, rest, lists);
    }
    lf.freed := true;
    DataAreLive(lists, rest);
  }

  /** The sid branch: the node remembered for the event is the oldest node of its sid list. */
  method DeleteSidNode(lf: Eventinfo, list: OSList<Eventinfo>, ghost x: Entry, ghost rest: seq<Entry>,
                       ghost lists: set<OSList<Eventinfo>>)
    requires x.event == lf && x.lists == [list] && list in lists && lf.sidNodeToDelete != null
    requires forall l | l in lists :: Front(l, x, Times(x, l), rest)
    requires SidNodesOk(lists, [x] + rest)
    modifies list`nodes
    ensures Holds(lists, rest) && SidNodesOk(lists, [x] + rest)
  {
    hide Repeat, Expected, OSList.Data;
    assert Times(x, list) == 1;
    RepeatHead(lf, 1, Expected(list, rest));
    assert list.Data()[0] == lf;
    assert list.nodes[0] in list.nodes;
    list.DeleteThisNode(lf.sidNodeToDelete, 0);
    assert list.Data() == Expected(list, rest);
    forall l | l in lists
      ensures l.Data() == Expected(l, rest)
    {
      FrontOfWhole(l, x, rest);
      assert l != list ==> Times(x, l) == 0;
    }
  }

  // ---------- registration ----------

  /** `x` has been appended to list `l` `n` times, after the events `live`. */
  ghost predicate Back(l: OSList<Eventinfo>, live: seq<Entry>, x: Entry, n: nat)
    reads l`nodes
  {
    l.Data() == Expected(l, live) + Repeat(x.event, n)
  }

  lemma BackOfWhole(l: OSList<Eventinfo>, live: seq<Entry>, x: Entry)
    ensures Back(l, live, x, 0) <==> l.Data() == Expected(l, live)
    ensures Back(l, live, x, Times(x, l)) <==> l.Data() == Expected(l, live + [x])
  {
    assert Expected(l, live) + Repeat(x.event, 0) == Expected(l, live);
    ExpectedAppend(l, live, [x]);
    ExpectedOne(l, x);
  }

  /** One `OSList_AddData` of the event. */
  method AppendTo(list: OSList<Eventinfo>, lf: Eventinfo, ghost live: seq<Entry>, ghost x: Entry, ghost n: nat)
    returns (node: OSListNode<Eventinfo>)
    requires x.event == lf && Back(list, live, x, n)
    modifies list`nodes
    ensures Back(list, live, x, n + 1)
    ensures fresh(node) && node.data == lf && list.nodes == old(list.nodes) + [node]
  {
    hide Repeat, Expected, OSList.Data;
    RepeatLast(lf, n, Expected(list, live));
    node := list.AddData(lf);
  }

  lemma RepeatLast<T>(x: T, n: nat, s: seq<T>)
    ensures s + Repeat(x, n) + [x] == s + Repeat(x, n + 1)
  {
  }

  /** The group loop of `OS_ReadMSG`. */
  method AppendToGroups(lf: Eventinfo, groups: seq<OSList<Eventinfo>>, ghost live: seq<Entry>, ghost x: Entry,
                        ghost lists: set<OSList<Eventinfo>>)
    requires x.event == lf && x.lists == groups && forall l | l in groups :: l in lists
    requires Holds(lists, live) && SidNodesOk(lists, live + [x]) && lf.sidNodeToDelete == null
    modifies lists`nodes
    ensures Holds(lists, live + [x]) && SidNodesOk(lists, live + [x])
  {
    hide Repeat, Expected, OSList.Data, Back, Left;
    var j := 0;
    LeftAll(groups);
    forall l | l in lists
      ensures Back(l, live, x, Times(x, l) - Left(groups, 0, l))
    {
      BackOfWhole(l, live, x);
    }
    while j < |groups|
      invariant 0 <= j <= |groups|
      invariant forall l | l in lists ::
                  Left(groups, j, l) <= Times(x, l) && Back(l, live, x, Times(x, l) - Left(groups, j, l))
      invariant SidNodesOk(lists, live + [x])
    {
      LeftStep(groups, j, groups[j]);
      AppendOne(groups[j], lf, live, x, Times(x, groups[j]) - Left(groups, j, groups[j]), lists);
      forall l | l in lists
        ensures Left(groups, j + 1, l) <= Times(x, l) && Back(l, live, x, Times(x, l) - Left(groups, j + 1, l))
      {
        LeftStep(groups, j, l);
      }
      j := j + 1;
    }
    forall l | l in lists
      ensures l.Data() == Expected(l, live + [x])
    {
      BackOfWhole(l, live, x);
    }
  }

  method AppendOne(list: OSList<Eventinfo>, lf: Eventinfo, ghost live: seq<Entry>, ghost x: Entry, ghost n: nat,
                   ghost lists: set<OSList<Eventinfo>>)
    requires list in lists && x.event == lf && Back(list, live, x, n)
    requires SidNodesOk(lists, live + [x]) && lf.sidNodeToDelete == null
    modifies list`nodes
    ensures Back(list, live, x, n + 1) && SidNodesOk(lists, live + [x])
  {
    hide Repeat, Expected, OSList.Data, Back;
    EventsMore(live, x);
    var node := AppendTo(list, lf, live, x, n);
  }

  lemma SidNodesMore(lists: set<OSList<Eventinfo>>, live: seq<Entry>, x: Entry)
    requires SidNodesOk(lists, live)
    ensures SidNodesOk(lists, live + [x])
  {
    EventsMore(live, x);
  }

  /** The state-memory part of `OS_ReadMSG`: the event goes on its rule's sid list, or else on every group
      list the rule is marked with, as often as it is marked. */
  method Register(lf: Eventinfo, rule: RuleInfo, ghost live: seq<Entry>, ghost x: Entry,
                  ghost lists: set<OSList<Eventinfo>>)
    requires x == Entry(lf, rule, Registered(rule)) && forall l | l in x.lists :: l in lists
    requires lf.generatedRule == rule && !lf.freed && lf.sidNodeToDelete == null && lf !in Events(live)
    requires Holds(lists, live) && SidNodesOk(lists, live)
    modifies lists`nodes, lf`sidNodeToDelete
    ensures Describes(x) && Holds(lists, live + [x]) && SidNodesOk(lists, live + [x])
  {
    SidNodesMore(lists, live, x);
    if rule.sidPrevMatched != null {
      AppendToSid(lf, rule.sidPrevMatched, live, x, lists);
    } else {
      AppendToGroups(lf, rule.groupPrevMatched, live, x, lists);
    }
  }

  /** The sid branch, which remembers the node. */
  method AppendToSid(lf: Eventinfo, list: OSList<Eventinfo>, ghost live: seq<Entry>, ghost x: Entry,
                     ghost lists: set<OSList<Eventinfo>>)
    requires x.event == lf && x.lists == [list] && list in lists && lf !in Events(live)
    requires Holds(lists, live) && SidNodesOk(lists, live)
    modifies list`nodes, lf`sidNodeToDelete
    ensures Holds(lists, live + [x]) && SidNodesOk(lists, live + [x]) && lf.sidNodeToDelete != null
  {
    hide Repeat, Expected, OSList.Data, Back;
    BackOfWhole(list, live, x);
    EventsMore(live, x);
    assert Times(x, list) == 1;
    var node := AppendTo(list, lf, live, x, 0);
    lf.sidNodeToDelete := node;
    forall l | l in lists
      ensures l.Data() == Expected(l, live + [x])
    {
      BackOfWhole(l, live, x);
      assert l != list ==> Times(x, l) == 0;
    }
  }

  // ---------- the event list ----------

  function SetOf(ns: seq<EventNode>): set<EventNode> { set n | n in ns }

  /** The nodes from oldest to newest: `prev` leads to the next newer one, `next` back. */
  ghost predicate Chain(ns: seq<EventNode>)
    reads SetOf(ns)`next, SetOf(ns)`prev
  {
    && (forall i, j :: 0 <= i < j < |ns| ==> ns[i] != ns[j])
    && forall i :: 0 <= i < |ns| ==> ns[i].prev == Newer(ns, i) && ns[i].next == Older(ns, i)
  }

  function Newer(ns: seq<EventNode>, i: nat): EventNode? { if i + 1 < |ns| then ns[i + 1] else null }

  function Older(ns: seq<EventNode>, i: nat): EventNode? { if 0 < i <= |ns| then ns[i - 1] else null }

  ghost predicate Carries(ns: seq<EventNode>, live: seq<Entry>) {
    |ns| == |live| && forall i :: 0 <= i < |ns| ==> ns[i].event == live[i].event
  }

  /** The lists, the events and their rules agree. */
  ghost predicate Consistent(lists: set<OSList<Eventinfo>>, live: seq<Entry>)
    reads lists`nodes, Events(live)`freed, Events(live)`generatedRule, Events(live)`sidNodeToDelete,
      RulesOf(live)`sidPrevMatched, RulesOf(live)`groupPrevMatched
  {
    && Described(live)
    && (forall i :: 0 <= i < |live| ==> forall l | l in live[i].lists :: l in lists)
    && Holds(lists, live) && SidNodesOk(lists, live)
  }

  lemma ChainOne(n: EventNode)
    requires n.next == null && n.prev == null
    ensures Chain([] + [n])
  {
  }

  class EventMemory {
    var eventnode: EventNode?
    var lastnode: EventNode?
    var memoryUsed: int
    const memoryMaxsize: int
    var maxFreq: int
    ghost var nodes: seq<EventNode>
    ghost var live: seq<Entry>
    /** Every list that a rule is marked with. */
    ghost const lists: set<OSList<Eventinfo>>

    /** The pointers and the counter describe the events `live`; the counter is one behind the length. */
    ghost predicate Linked()
      reads this, SetOf(nodes)`next, SetOf(nodes)`prev
    {
      && Chain(nodes) && Carries(nodes, live)
      && (if nodes == [] then eventnode == null && memoryUsed == 0
          else eventnode == nodes[|nodes| - 1] && lastnode == nodes[0] && memoryUsed == |nodes| - 1)
    }

    ghost predicate Valid()
      reads this, SetOf(nodes)`next, SetOf(nodes)`prev, lists`nodes,
        Events(live)`freed, Events(live)`generatedRule, Events(live)`sidNodeToDelete, RulesOf(live)`sidPrevMatched,
            RulesOf(live)`groupPrevMatched
    {
      && Linked() && Consistent(lists, live)
      && memoryMaxsize >= 9 && maxFreq >= 0
      && |live| <= memoryMaxsize + 1
    }

    /** `OS_CreateEventList`.  `GlobalConf` raises the configured size to at least 2048; the list code
        needs no more than 9. */
    constructor (maxsize: int, maxFreq: int, ghost lists: set<OSList<Eventinfo>>)
      requires maxsize >= 9 && maxFreq >= 0 && forall l | l in lists :: l.nodes == []
      ensures Valid() && live == [] && this.lists == lists && memoryMaxsize == maxsize && this.maxFreq == maxFreq
    {
      eventnode, lastnode, memoryUsed, memoryMaxsize, this.maxFreq := null, null, 0, maxsize, maxFreq;
      nodes, live, this.lists := [], [], lists;
    }

    /** The insertion part of `OS_AddEvent`. */
    method PushNode(lf: Eventinfo, ghost x: Entry) returns (ghost added: EventNode)
      requires Linked() && x.event == lf
      modifies this`eventnode, this`lastnode, this`memoryUsed, this`nodes, this`live, SetOf(nodes)`next,
               SetOf(nodes)`prev
      ensures Linked() && live == old(live) + [x]
      ensures fresh(added) && SetOf(nodes) == old(SetOf(nodes)) + {added}
    {
      hide Chain;
      var tmp := eventnode;
      var newNode := new EventNode(lf);
      if tmp != null {
        LinkBefore(newNode, tmp, nodes);
        eventnode := newNode;
        memoryUsed := memoryUsed + 1;
      } else {
        eventnode := newNode;
        lastnode := newNode;
        ChainOne(newNode);
      }
      nodes, live := nodes + [newNode], live + [x];
      added := newNode;
    }

    /** The pointer assignments that put a node in front of the first node. */
    static method LinkBefore(newNode: EventNode, tmp: EventNode, ghost ns: seq<EventNode>)
      requires Chain(ns) && ns != [] && ns[|ns| - 1] == tmp && newNode !in ns
      modifies newNode`next, newNode`prev, tmp`prev
      ensures Chain(ns + [newNode])
    {
      assert tmp.next == Older(ns, |ns| - 1);
      newNode.next := tmp;
      newNode.prev := null;
      tmp.prev := newNode;
      ghost var all := ns + [newNode];
      forall i | 0 <= i < |ns|
        ensures all[i].prev == Newer(all, i) && all[i].next == Older(all, i)
      {
        assert old(ns[i].prev) == Newer(ns, i) && old(ns[i].next) == Older(ns, i);
        assert i < |ns| - 1 ==> ns[i] != tmp;
      }
    }

    /** The unlinking part of one turn of the eviction loop. */
    method UnlinkOldest() returns (lf: Eventinfo)
      requires Linked() && |live| >= 2
      modifies this`lastnode, this`memoryUsed, this`nodes, this`live, SetOf(nodes)`next, SetOf(nodes)`prev
      ensures Linked() && lf == old(live)[0].event
      ensures live == old(live)[1..] && nodes == old(nodes)[1..] && SetOf(nodes) <= old(SetOf(nodes))
    {
      hide Chain;
      var oldlast := lastnode;
      lf := oldlast.event;
      lastnode := CutOldest(oldlast, nodes);
      memoryUsed := memoryUsed - 1;
      nodes, live := nodes[1..], live[1..];
    }

    /** `lastnode = lastnode->prev; lastnode->next = NULL`. */
    static method CutOldest(last: EventNode, ghost ns: seq<EventNode>) returns (newLast: EventNode)
      requires Chain(ns) && |ns| >= 2 && ns[0] == last
      modifies SetOf(ns)`next
      ensures newLast == ns[1] && Chain(ns[1..])
    {
      assert last.prev == Newer(ns, 0);
      newLast := last.prev;
      newLast.next := null;
      ghost var rest := ns[1..];
      forall i | 0 <= i < |rest|
        ensures rest[i].prev == Newer(rest, i) && rest[i].next == Older(rest, i)
      {
        assert old(ns[i + 1].prev) == Newer(ns, i + 1) && old(ns[i + 1].next) == Older(ns, i + 1);
        assert i > 0 ==> ns[i + 1] != newLast;
      }
    }

    /** One turn of the eviction loop: the oldest node is unlinked and its event freed. */
    method EvictOldest()
      requires Linked() && |live| >= 2 && Consistent(lists, live)
      modifies this`lastnode, this`memoryUsed, this`nodes, this`live, SetOf(nodes)`next, SetOf(nodes)`prev,
               lists`nodes, live[0].event`freed
      ensures Linked() && Consistent(lists, live)
      ensures live == old(live)[1..] && SetOf(nodes) <= old(SetOf(nodes))
      ensures old(live)[0].event.freed
    {
      hide Chain, Carries, Holds, SidNodesOk, Described, Describes, Consistent;
      ghost var all := live;
      ConsistentTail(lists, all);
      var lf := UnlinkOldest();
      assert forall m | m in SetOf(nodes) :: allocated(m);
      FreeEventinfo(lf, all[0], live, lists);
      ConsistentAgain(lists, live);
    }

    /** `OS_AddEvent`, once the event is on its lists: the newest event is stored, and if the memory is
        full at least ten of the oldest are freed, up to the first one recent enough. */
    method AddEvent(lf: Eventinfo, ghost x: Entry)
      requires Linked() && Consistent(lists, live + [x]) && x.event == lf
      requires memoryMaxsize >= 9 && maxFreq >= 0 && |live| <= memoryMaxsize + 1
      modifies this`eventnode, this`lastnode, this`memoryUsed, this`nodes, this`live, SetOf(nodes)`next,
               SetOf(nodes)`prev, lists`nodes,
        Events(live)`freed, lf`freed
      ensures Valid()
      ensures live == (old(live) + [x])[Evicted(old(live) + [x], maxFreq, memoryMaxsize)..]
      ensures forall e | e in Events(old(live)) && e !in Events(live) :: e.freed
    {
      hide Consistent, Linked, Evicting, EvictedFrom, Stops, SetOf;
      ghost var all := live + [x];
      assert forall e | e in Events(all) :: allocated(e);
      assert forall e | e in RulesOf(all) :: allocated(e);
      assert forall l | l in lists :: allocated(l);
      ghost var added := PushNode(lf, x);
      LastNode();
      EventsMore(old(live), x);
      if memoryUsed > memoryMaxsize {
        EvictLoop(lf);
        EvictEnd(all);
      } else {
        assert all[0..] == all;
      }
    }

    lemma EvictEnd(all: seq<Entry>)
      requires |all| > 10 && maxFreq >= 0 && memoryMaxsize >= 9
      requires Evicting(all, EvictedFrom(all, maxFreq, 0)) && |all| <= memoryMaxsize + 2
      ensures Linked() && Consistent(lists, live) && |live| <= memoryMaxsize + 1
      ensures live == all[EvictedFrom(all, maxFreq, 0)..]
      ensures forall e | e in Events(all) && e !in Events(live) :: e.freed
    {
      assert Stops(all, maxFreq, EvictedFrom(all, maxFreq, 0));
    }

    /** The memory invariant in its own words: every list holds the events in memory that are marked with
        it, oldest first, each as often as it is marked, and never a freed one. */
    lemma ListsFollowMemory(l: OSList<Eventinfo>)
      requires Valid() && l in lists
      ensures l.Data() == Expected(l, live)
      ensures forall e | e in l.Data() :: !e.freed && e in Events(live)
    {
      forall e | e in l.Data()
        ensures !e.freed && e in Events(live)
      {
        ExpectedAreLive(l, live, e);
        var i :| 0 <= i < |live| && live[i].event == e && l in live[i].lists;
        assert Describes(live[i]);
      }
    }

    /** An event that fired `rule` enters the memory (analysisd.c:920-921, 1007-1030). */
    method Remember(lf: Eventinfo, rule: RuleInfo)
      requires Valid() && !lf.freed && lf.sidNodeToDelete == null && lf !in Events(live)
      requires forall l | l in Registered(rule) :: l in lists
      modifies this`eventnode, this`lastnode, this`memoryUsed, this`nodes, this`live, SetOf(nodes)`next,
               SetOf(nodes)`prev, lists`nodes,
        Events(live)`freed, lf`freed, lf`sidNodeToDelete, lf`generatedRule
      ensures Valid()
      ensures var all := old(live) + [Entry(lf, rule, Registered(rule))];
              live == all[Evicted(all, maxFreq, memoryMaxsize)..]
      ensures forall e | e in Events(old(live)) && e !in Events(live) :: e.freed
    {
      hide Linked, Described, Describes, Holds, SidNodesOk, Evicted;
      ghost var x := Entry(lf, rule, Registered(rule));
      assert forall e | e in Events(live) :: allocated(e);
      assert forall r | r in RulesOf(live) :: allocated(r);
      lf.generatedRule := rule;
      Register(lf, rule, live, x, lists);
      ConsistentMore(lists, live, x);
      AddEvent(lf, x);
    }

    lemma LastNode()
      requires Linked() && live != []
      ensures lastnode != null && lastnode.event == live[0].event
      ensures |nodes| == |live| == memoryUsed + 1
    {
    }

    /** The eviction loop has released the `i` oldest of the events `all`. */
    ghost predicate Evicting(all: seq<Entry>, i: nat)
      reads this, SetOf(nodes)`next, SetOf(nodes)`prev, lists`nodes, Events(all)`freed,
        Events(live)`freed, Events(live)`generatedRule, Events(live)`sidNodeToDelete,
        RulesOf(live)`sidPrevMatched, RulesOf(live)`groupPrevMatched
    {
      && i < |all| && live == all[i..]
      && Linked() && Consistent(lists, live)
      && (forall e | e in Events(all) && e !in Events(live) :: e.freed)
    }

    lemma EvictStart()
      requires Linked() && Consistent(lists, live) && live != []
      ensures Evicting(live, 0)
    {
      assert live[0..] == live;
    }

    lemma OldestIs(all: seq<Entry>, i: nat)
      requires Evicting(all, i)
      ensures i < |all| && lastnode != null && lastnode.event == all[i].event
    {
      LastNode();
    }

    /** One turn of the loop, seen from the events it started with. */
    method EvictTurn(ghost all: seq<Entry>, ghost i: nat)
      requires Evicting(all, i) && i + 1 < |all|
      modifies this`lastnode, this`memoryUsed, this`nodes, this`live, SetOf(nodes)`next, SetOf(nodes)`prev, lists`nodes,
        all[i].event`freed
      ensures Evicting(all, i + 1) && SetOf(nodes) <= old(SetOf(nodes))
    {
      hide Consistent, Linked, SetOf;
      ghost var was := live;
      EventsTail(was);
      EvictOldest();
      DropOne(all, i);
    }

    /** The eviction loop of `OS_AddEvent`; `lf` is the newest event. */
    method EvictLoop(lf: Eventinfo)
      requires Linked() && Consistent(lists, live) && |live| > 10 && maxFreq >= 0
      requires live[|live| - 1].event == lf
      modifies this`lastnode, this`memoryUsed, this`nodes, this`live, SetOf(nodes)`next, SetOf(nodes)`prev, lists`nodes,
        Events(live)`freed
      ensures Evicting(old(live), EvictedFrom(old(live), maxFreq, 0))
    {
      hide Consistent, Linked, Evicting, EvictedFrom, Stops, SetOf;
      ghost var all, n := live, EvictedFrom(live, maxFreq, 0);
      var i := 0;
      EvictStart();
      OldestIs(all, 0);
      while i < 10 || lf.info.time - lastnode.event.info.time > maxFreq
        invariant 0 <= i <= n && Evicting(all, i)
        invariant SetOf(nodes) <= SetOf(old(nodes))
        invariant lastnode != null && lastnode.event == all[i].event
        decreases n - i
      {
        NotYet(all, maxFreq, i);
        assert all[i].event in Events(all);
        EvictTurn(all, i);
        i := i + 1;
        OldestIs(all, i);
      }
      NotYet(all, maxFreq, i);
    }
  }

  lemma DropOne<T>(all: seq<T>, i: nat)
    requires i < |all|
    ensures all[i..][1..] == all[i + 1..] && all[i..][0] == all[i]
  {
  }

  lemma EventsMore(live: seq<Entry>, x: Entry)
    ensures Events(live + [x]) == Events(live) + {x.event}
  {
  }

  lemma RulesMore(live: seq<Entry>, x: Entry)
    ensures RulesOf(live + [x]) == RulesOf(live) + {x.rule}
  {
  }

  lemma EventsTail(live: seq<Entry>)
    requires live != []
    ensures Events(live) == {live[0].event} + Events(live[1..])
  {
    assert live == [live[0]] + live[1..];
  }

  lemma EventsOfTail(all: seq<Entry>, n: nat)
    requires n <= |all|
    ensures Events(all[n..]) <= Events(all) && RulesOf(all[n..]) <= RulesOf(all)
  {
    assert forall e | e in all[n..] :: e in all;
  }

  lemma NotYet(all: seq<Entry>, maxFreq: int, i: nat)
    requires i < |all|
    ensures Stops(all, maxFreq, i) <==> !(i < 10 || all[|all| - 1].event.info.time - all[i].event.info.time > maxFreq)
  {
  }

  lemma ConsistentAgain(lists: set<OSList<Eventinfo>>, live: seq<Entry>)
    requires Described(live) && Holds(lists, live) && SidNodesOk(lists, live)
    requires forall i :: 0 <= i < |live| ==> forall l | l in live[i].lists :: l in lists
    ensures Consistent(lists, live)
  {
  }

  lemma ConsistentMore(lists: set<OSList<Eventinfo>>, live: seq<Entry>, x: Entry)
    requires Described(live) && Describes(x) && x.event !in Events(live)
    requires Holds(lists, live + [x]) && SidNodesOk(lists, live + [x])
    requires forall i :: 0 <= i < |live| ==> forall l | l in live[i].lists :: l in lists
    requires forall l | l in x.lists :: l in lists
    ensures Consistent(lists, live + [x])
  {
  }

  lemma ConsistentTail(lists: set<OSList<Eventinfo>>, live: seq<Entry>)
    requires Consistent(lists, live) && live != []
    ensures live == [live[0]] + live[1..]
    ensures Describes(live[0]) && live[0].event !in Events(live[1..]) && forall l | l in live[0].lists :: l in lists
    ensures Described(live[1..])
    ensures forall i :: 0 <= i < |live[1..]| ==> forall l | l in live[1..][i].lists :: l in lists
    ensures Events(live[1..]) <= Events(live) && RulesOf(live[1..]) <= RulesOf(live)
    ensures Holds(lists, [live[0]] + live[1..]) && SidNodesOk(lists, [live[0]] + live[1..])
  {
    assert live == [live[0]] + live[1..];
    var rest := live[1..];
    forall i, j | 0 <= i < j < |rest|
      ensures rest[i].event != rest[j].event
    {
      assert rest[i] == live[i + 1] && rest[j] == live[j + 1];
    }
    forall i | 0 <= i < |rest|
      ensures Describes(rest[i]) && rest[i].event != live[0].event && forall l | l in rest[i].lists :: l in lists
    {
      assert rest[i] == live[i + 1];
    }
  }
}
