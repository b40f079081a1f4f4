/** The other walks over the loaded tree: duplicate ids and levels (src/analysisd/rules.c), and the
    marking of rules for correlation (src/analysisd/rules_list.c:338-413).  They follow the pointers
    and change only fields of the rules, which several nodes can share. */
module RuleWalks {
  import opened Entities
  import opened Forests
  import opened RuleTree
  import opened Levels
  import opened Sequences

  /** In how many nodes the rule `r` sits. */
  ghost function Uses(s: Shape, r: RuleInfo): nat {
    match s
    case Nil => 0
    case Cons(n, k, rest) => (if n.ruleinfo == r then 1 else 0) + Uses(k, r) + Uses(rest, r)
  }

  lemma UsedIffPresent(s: Shape, r: RuleInfo)
    ensures Uses(s, r) > 0 <==> r in Rules(s)
  {
  }

  lemma UsesIsOccurrences(s: Shape, r: RuleInfo)
    ensures Uses(s, r) == Occurrences(View(s), r)
  {
  }

  ghost function Count(s: Shape): nat {
    match s
    case Nil => 0
    case Cons(_, k, rest) => 1 + Count(k) + Count(rest)
  }

  /** Nothing but allocation has happened since: what the pointers say about `s` still holds. */
  lemma Opened(r: RuleNode, rest: Shape)
    requires Seg(r, rest, null)
    ensures rest.Cons? && rest.node == r && Seg(r.child, rest.kids, null) && Seg(r.next, rest.rest, null)
    ensures View(rest) == Tree(KeyOf(r.ruleinfo), View(rest.kids), View(rest.rest))
    ensures forall n | n in Nodes(rest) :: allocated(n)
    ensures forall q | q in Rules(rest) :: allocated(q)
    ensures rest.kids < rest && rest.rest < rest
    ensures Nodes(rest.kids) <= Nodes(rest) && Nodes(rest.rest) <= Nodes(rest)
    ensures Rules(rest) == {r.ruleinfo} + Rules(rest.kids) + Rules(rest.rest)
  {
    NodesAllocated(rest);
  }

  // ---------- doesRuleExist ----------

  /** `doesRuleExist`: whether any node of the tree carries the id. */
  method DoesRuleExist(sid: int, rNode: RuleNode?, ghost s: Shape) returns (found: bool)
    requires Seg(rNode, s, null)
    ensures found <==> HasSid(View(s), sid)
    decreases s
  {
    hide Seg, View, Nodes, Rules;
    var r := rNode;
    ghost var rest, v := s, View(s);
    NodesAllocated(s);
    while r != null
      invariant Seg(r, rest, null) && (rest == s || rest < s)
      invariant HasSid(v, sid) <==> HasSid(View(rest), sid)
      decreases rest
    {
      Opened(r, rest);
      if r.ruleinfo.sigid == sid {
        return true;
      }
      ghost var k, vk, vt := rest.kids, View(rest.kids), View(rest.rest);
      var inside := false;
      if r.child != null {
        inside := DoesRuleExist(sid, r.child, k);
      } else {
        SegToNull(k);
      }
      assert View(rest.kids) == vk && View(rest.rest) == vt;
      if inside {
        return true;
      }
      rest := rest.rest;
      r := r.next;
    }
    SegToNull(rest);
    return false;
  }

  // ---------- _setlevels ----------

  ghost function Here(r: RuleNode, q: RuleInfo): nat { if r.ruleinfo == q then 1 else 0 }

  lemma UsesOpened(rest: Shape, q: RuleInfo)
    requires rest.Cons?
    ensures Uses(rest, q) == Here(rest.node, q) + Uses(rest.kids, q) + Uses(rest.rest, q)
  {
  }

  /** The part of the `_setlevels` loop that concerns one node and its children. */
  method SetLevelsAt(r: RuleNode, ghost k: Shape, ghost rules: set<RuleInfo>) returns (size: nat)
    requires Seg(r.child, k, null) && r.ruleinfo in rules && Rules(k) <= rules
    modifies rules`level
    ensures forall q | q in rules :: q.level == DecodeTimes(old(q.level), Here(r, q) + Uses(k, q))
    ensures size == 1 + Count(k)
    decreases k, 1
  {
    hide Seg, Rules, Decode;
    if r.ruleinfo.level == 9900 {
      r.ruleinfo.level := 0;
    }
    if r.ruleinfo.level >= 100 {
      r.ruleinfo.level := r.ruleinfo.level / 100;
    }
    OneDecode(old(r.ruleinfo.level));
    size := 1;
    if r.child != null {
      var chlSize := SetLevels(r.child, k, rules);
      size := size + chlSize;
    } else {
      SegToNull(k);
    }
    forall q | q in rules
      ensures q.level == DecodeTimes(old(q.level), Here(r, q) + Uses(k, q))
    {
      DecodeTimesSum(old(q.level), Here(r, q), Uses(k, q));
    }
  }

  lemma OneDecode(level: int)
    ensures DecodeTimes(level, 1) == Decode(level)
         == (var l := if level == 9900 then 0 else level; if l >= 100 then l / 100 else l)
  {
    assert DecodeTimes(level, 1) == DecodeTimes(Decode(level), 0);
  }

  /** `_setlevels`: every visit of a node decodes the level of its rule, so a shared rule is decoded
      once per node; the result is the number of nodes. */
  method SetLevels(node: RuleNode?, ghost s: Shape, ghost rules: set<RuleInfo>) returns (size: nat)
    requires Seg(node, s, null) && Rules(s) <= rules
    modifies rules`level
    ensures forall q | q in rules :: q.level == DecodeTimes(old(q.level), Uses(s, q))
    ensures size == Count(s)
    decreases s, 0
  {
    hide Seg, View, Nodes, Rules, DecodeTimes, Uses;
    size := 0;
    var r := node;
    ghost var rest := s;
    AtStart(s, rules);
    while r != null
      invariant Seg(r, rest, null) && (rest == s || rest < s) && Rules(rest) <= rules
      invariant Count(s) == size + Count(rest)
      invariant forall q | q in rules ::
                  Uses(rest, q) <= Uses(s, q) && q.level == DecodeTimes(old(q.level), Uses(s, q) - Uses(rest, q))
      decreases rest
    {
      Opened(r, rest);
      var one := SetLevelsAt(r, rest.kids, rules);
      size := size + one;
      forall q | q in rules
        ensures Uses(rest.rest, q) <= Uses(rest, q)
        ensures q.level == DecodeTimes(old(q.level), Uses(s, q) - Uses(rest.rest, q))
      {
        UsesOpened(rest, q);
        DecodeTimesSum(old(q.level), Uses(s, q) - Uses(rest, q), Here(r, q) + Uses(rest.kids, q));
      }
      rest := rest.rest;
      r := r.next;
    }
    SegToNull(rest);
    AtEnd(rules);
  }

  lemma AtStart(s: Shape, rules: set<RuleInfo>)
    ensures forall q | q in rules :: q.level == DecodeTimes(q.level, Uses(s, q) - Uses(s, q))
  {
  }

  lemma AtEnd(rules: set<RuleInfo>)
    ensures forall q | q in rules :: Uses(Nil, q) == 0
  {
  }

  /** A tree whose rules carry encoded levels gets every declared level back, exactly when each rule's
      declaration is restorable for the number of nodes it sits in. */
  lemma LevelsRestored(s: Shape, q: RuleInfo, level: nat, accuracy: int)
    requires q in Rules(s)
    ensures DecodeTimes(Encode(level, accuracy), Uses(s, q)) == level <==> Restorable(level, accuracy, Uses(s, q))
  {
    UsedIffPresent(s, q);
    RestoredExactly(level, accuracy, Uses(s, q));
  }

  /** No sid list is also a group list. */
  ghost predicate ListsApart(rules: set<RuleInfo>)
    reads rules`sidPrevMatched, rules`groupPrevMatched
  {
    forall p, q | p in rules && q in rules && p.sidPrevMatched != null :: p.sidPrevMatched !in q.groupPrevMatched
  }

  // ---------- OS_MarkGroup ----------

  /** `OS_MarkGroup` at one node and its children. */
  method MarkGroupAt(r: RuleNode, list: OSList<Eventinfo>, matches: string -> bool, ghost k: Shape,
                     ghost rules: set<RuleInfo>)
    requires Seg(r.child, k, null) && r.ruleinfo in rules && Rules(k) <= rules
    modifies rules`groupPrevMatched
    ensures forall q | q in rules ::
              q.groupPrevMatched
              == old(q.groupPrevMatched) + Repeat(list, if matches(q.group) then Here(r, q) + Uses(k, q) else 0)
    decreases k, 1
  {
    hide Seg, Rules;
    if matches(r.ruleinfo.group) {
      r.ruleinfo.groupPrevMatched := r.ruleinfo.groupPrevMatched + [list];
    }
    assert Repeat(list, 1) == [list];
    if r.child != null {
      MarkGroupFrom(r.child, list, matches, k, rules);
    } else {
      SegToNull(k);
    }
    forall q | q in rules
      ensures q.groupPrevMatched
           == old(q.groupPrevMatched) + Repeat(list, if matches(q.group) then Here(r, q) + Uses(k, q) else 0)
    {
      RepeatSum(list, Here(r, q), Uses(k, q));
    }
  }

  /** `OS_MarkGroup` from a node on: the list is registered with every rule whose group matches, once for
      every node the rule sits in. */
  method MarkGroupFrom(rNode: RuleNode?, list: OSList<Eventinfo>, matches: string -> bool, ghost s: Shape,
                       ghost rules: set<RuleInfo>)
    requires Seg(rNode, s, null) && Rules(s) <= rules
    modifies rules`groupPrevMatched
    ensures forall q | q in rules ::
              q.groupPrevMatched == old(q.groupPrevMatched) + Repeat(list, if matches(q.group) then Uses(s, q) else 0)
    decreases s, 0
  {
    hide Seg, View, Nodes, Rules, Uses;
    var r := rNode;
    ghost var rest := s;
    while r != null
      invariant Seg(r, rest, null) && (rest == s || rest < s) && Rules(rest) <= rules
      invariant forall q | q in rules ::
                  Uses(rest, q) <= Uses(s, q) &&
                  q.groupPrevMatched == old(q.groupPrevMatched)
                      + Repeat(list, if matches(q.group) then Uses(s, q) - Uses(rest, q) else 0)
      decreases rest
    {
      Opened(r, rest);
      MarkGroupAt(r, list, matches, rest.kids, rules);
      forall q | q in rules
        ensures Uses(rest.rest, q) <= Uses(rest, q)
        ensures q.groupPrevMatched == old(q.groupPrevMatched)
                                      + Repeat(list, if matches(q.group) then Uses(s, q) - Uses(rest.rest, q) else 0)
      {
        UsesOpened(rest, q);
        if matches(q.group) {
          RepeatAppend(old(q.groupPrevMatched), list, Uses(s, q) - Uses(rest, q), Here(r, q) + Uses(rest.kids, q));
        }
      }
      rest := rest.rest;
      r := r.next;
    }
    SegToNull(rest);
    AtEnd(rules);
  }

  /** `OS_MarkGroup` from the first rule on. */
  method MarkGroup(rulenode: RuleNode?, list: OSList<Eventinfo>, matches: string -> bool, ghost s: Shape,
                   ghost rules: set<RuleInfo>)
    requires Seg(rulenode, s, null) && Rules(s) <= rules
    modifies rules`groupPrevMatched
    ensures forall q | q in rules ::
              q.groupPrevMatched == old(q.groupPrevMatched) + Repeat(list, if matches(q.group) then Uses(s, q) else 0)
    ensures old(ListsApart(rules)) && (forall q | q in rules :: q.sidPrevMatched != list) ==> ListsApart(rules)
    ensures (forall q | q in rules :: list !in old(q.groupPrevMatched)) ==> MarkedPerNode(list, matches, s, rules)
  {
    hide Seg, View, Nodes, Rules, Uses;
    MarkGroupFrom(rulenode, list, matches, s, rules);
    forall q | q in rules && list !in old(q.groupPrevMatched)
      ensures multiset(q.groupPrevMatched)[list] == if matches(q.group) then Uses(s, q) else 0
    {
      RepeatCount(list, if matches(q.group) then Uses(s, q) else 0, list);
    }
  }

  /** Every rule whose group matches is marked with the list once for every node it sits in, and no other
      rule is marked with it. */
  ghost predicate MarkedPerNode(list: OSList<Eventinfo>, matches: string -> bool, s: Shape, rules: set<RuleInfo>)
    reads rules`groupPrevMatched
  {
    forall q | q in rules :: multiset(q.groupPrevMatched)[list] == if matches(q.group) then Uses(s, q) else 0
  }

  /** Marking another list keeps the marks with this one. */
  twostate lemma OtherMarksStay(list: OSList<Eventinfo>, matches: string -> bool, s: Shape, rules: set<RuleInfo>,
                                other: OSList<Eventinfo>, others: string -> bool)
    requires forall q | q in rules ::
               q.groupPrevMatched == old(q.groupPrevMatched) + Repeat(list, if matches(q.group) then Uses(s, q) else 0)
    requires other != list && old(MarkedPerNode(other, others, s, rules))
    ensures MarkedPerNode(other, others, s, rules)
  {
    forall q | q in rules
      ensures multiset(q.groupPrevMatched)[other] == multiset(old(q.groupPrevMatched))[other]
    {
      RepeatCount(list, if matches(q.group) then Uses(s, q) else 0, other);
    }
  }

  /** A rule that if_group or if_level has just added is used, and so marked, once for every node it was
      added below. */
  lemma MarkedPerParent(s: Shape, q: RuleInfo, f: Forest, p: RuleKey -> bool)
    requires Absent(f, {q}) && View(s) == Graft(f, p, KeyOf(q))
    ensures Uses(s, q) == Matches(f, p)
  {
    UsesIsOccurrences(s, q);
    GraftAddsExactly(f, p, KeyOf(q));
  }

  // ---------- OS_MarkID ----------

  /** No two rules of `rules` share a sid list. */
  ghost predicate SidListsSeparate(rules: set<RuleInfo>)
    reads rules`sidPrevMatched
  {
    forall p, q | p in rules && q in rules && p != q && p.sidPrevMatched != null :: p.sidPrevMatched != q.sidPrevMatched
  }

  ghost function SidLists(rules: set<RuleInfo>): map<RuleInfo, OSList?<Eventinfo>>
    reads rules`sidPrevMatched
  {
    map q | q in rules :: q.sidPrevMatched
  }

  /** Since the lists were `was`, exactly the rules of `seen` with the id and without a list have got
      one, all different and out of `made`. */
  ghost predicate Marked(was: map<RuleInfo, OSList?<Eventinfo>>, now: map<RuleInfo, OSList?<Eventinfo>>,
                         seen: set<RuleInfo>, id: int, made: set<OSList<Eventinfo>>) {
    && now.Keys == was.Keys
    && forall q | q in was ::
         if was[q] != null then now[q] == was[q]
         else if q in seen && q.sigid == id then now[q] in made
         else now[q] == null
  }

  lemma MarkedMore(was: map<RuleInfo, OSList?<Eventinfo>>, mid: map<RuleInfo, OSList?<Eventinfo>>,
                   now: map<RuleInfo, OSList?<Eventinfo>>, seen: set<RuleInfo>, more: set<RuleInfo>, id: int,
                   made: set<OSList<Eventinfo>>, also: set<OSList<Eventinfo>>)
    requires Marked(was, mid, seen, id, made) && Marked(mid, now, more, id, also)
    ensures Marked(was, now, seen + more, id, made + also)
  {
  }

  /** `OS_MarkID` at one node, before its children. */
  method MarkIdHere(rule: RuleInfo, orig: RuleInfo, ghost rules: set<RuleInfo>)
      returns (ghost made: set<OSList<Eventinfo>>)
    requires rule in rules && SidListsSeparate(rules)
    modifies rule`sidPrevMatched, orig`sidSearch
    ensures SidListsSeparate(rules)
    ensures Marked(old(SidLists(rules)), SidLists(rules), {rule}, orig.ifMatchedSid, made)
    ensures fresh(made) && forall l | l in made :: l.nodes == []
    ensures orig.sidSearch == if rule.sigid == orig.ifMatchedSid then rule.sidPrevMatched else old(orig.sidSearch)
    ensures old(ListsApart(rules)) ==> ListsApart(rules)
  {
    made := {};
    if rule.sigid == orig.ifMatchedSid {
      if rule.sidPrevMatched == null {
        var list := new OSList<Eventinfo>();
        rule.sidPrevMatched := list;
        made := {list};
      }
      orig.sidSearch := rule.sidPrevMatched;
    }
  }

  /** `sid_search` points to the list of `target`; without a target it is still `was`. */
  ghost predicate PointsTo(orig: RuleInfo, was: OSList?<Eventinfo>, target: RuleInfo?, seen: set<RuleInfo>)
    reads orig`sidSearch, seen`sidPrevMatched
  {
    if target == null then orig.sidSearch == was && forall q | q in seen :: q.sigid != orig.ifMatchedSid
    else target in seen && target.sigid == orig.ifMatchedSid && orig.sidSearch == target.sidPrevMatched != null
  }

  /** `OS_MarkID` at one node and its children. */
  method MarkIdAt(r: RuleNode, orig: RuleInfo, ghost k: Shape, ghost rules: set<RuleInfo>)
    returns (ghost made: set<OSList<Eventinfo>>, ghost target: RuleInfo?)
    requires Seg(r.child, k, null) && r.ruleinfo in rules && Rules(k) <= rules && SidListsSeparate(rules)
    modifies rules`sidPrevMatched, orig`sidSearch
    ensures SidListsSeparate(rules)
    ensures Marked(old(SidLists(rules)), SidLists(rules), {r.ruleinfo} + Rules(k), orig.ifMatchedSid, made)
    ensures fresh(made) && forall l | l in made :: l.nodes == []
    ensures PointsTo(orig, old(orig.sidSearch), target, {r.ruleinfo} + Rules(k))
    ensures old(ListsApart(rules)) ==> ListsApart(rules)
    decreases k, 1
  {
    hide Seg, Rules, SidListsSeparate, ListsApart;
    NodesAllocated(k);
    ghost var was := SidLists(rules);
    made := MarkIdHere(r.ruleinfo, orig, rules);
    target := if r.ruleinfo.sigid == orig.ifMatchedSid then r.ruleinfo else null;
    ghost var mid, also, last := SidLists(rules), {}, null;
    if r.child != null {
      also, last := MarkId(r.child, orig, k, rules);
    } else {
      SegToNull(k);
      NoRules();
    }
    MarkedMore(was, mid, SidLists(rules), {r.ruleinfo}, Rules(k), orig.ifMatchedSid, made, also);
    made := made + also;
    target := if last == null then target else last;
  }

  lemma NoRules()
    ensures Rules(Nil) == {}
    ensures forall was, id :: Marked(was, was, {}, id, {})
  {
  }

  /** `OS_MarkID`: the rules with id `if_matched_sid` get an empty sid list if they have none, each its
      own, and the searching rule is pointed to the list of such a rule. */
  method MarkId(rNode: RuleNode?, orig: RuleInfo, ghost s: Shape, ghost rules: set<RuleInfo>)
    returns (ghost made: set<OSList<Eventinfo>>, ghost target: RuleInfo?)
    requires Seg(rNode, s, null) && Rules(s) <= rules && SidListsSeparate(rules)
    modifies rules`sidPrevMatched, orig`sidSearch
    ensures SidListsSeparate(rules)
    ensures Marked(old(SidLists(rules)), SidLists(rules), Rules(s), orig.ifMatchedSid, made)
    ensures fresh(made) && forall l | l in made :: l.nodes == []
    ensures PointsTo(orig, old(orig.sidSearch), target, Rules(s))
    ensures old(ListsApart(rules)) ==> ListsApart(rules)
    decreases s, 0
  {
    hide Seg, View, Nodes, Rules, SidListsSeparate, ListsApart;
    var r := rNode;
    ghost var rest, was, seen := s, SidLists(rules), {};
    made, target := {}, null;
    while r != null
      invariant Seg(r, rest, null) && (rest == s || rest < s)
      invariant seen + Rules(rest) == Rules(s)
      invariant SidListsSeparate(rules)
      invariant Marked(was, SidLists(rules), seen, orig.ifMatchedSid, made)
      invariant fresh(made) && forall l | l in made :: l.nodes == []
      invariant PointsTo(orig, old(orig.sidSearch), target, seen)
      invariant old(ListsApart(rules)) ==> ListsApart(rules)
      decreases rest
    {
      Opened(r, rest);
      ghost var mid, also, last := SidLists(rules), {}, null;
      also, last := MarkIdAt(r, orig, rest.kids, rules);
      MarkedMore(was, mid, SidLists(rules), seen, {r.ruleinfo} + Rules(rest.kids), orig.ifMatchedSid, made, also);
      made := made + also;
      target := if last == null then target else last;
      seen := seen + ({r.ruleinfo} + Rules(rest.kids));
      rest := rest.rest;
      r := r.next;
    }
    SegToNull(rest);
    NoRules();
  }
}
