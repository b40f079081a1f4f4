/** The linked rule tree of src/analysisd/rules_list.c: `next` and `child` pointers changed in place. */
module RuleTree {
  import opened Entities
  import opened Forests

  class RuleNode {
    const ruleinfo: RuleInfo
    var next: RuleNode?
    var child: RuleNode?

    constructor (ruleinfo: RuleInfo)
      ensures this.ruleinfo == ruleinfo && next == null && child == null
    {
      this.ruleinfo := ruleinfo;
      next, child := null, null;
    }
  }

  // ---------- the nodes behind a sibling list ----------

  /** The nodes of a sibling list, arranged as the `child` and `next` pointers arrange them. */
  datatype Shape = Nil | Cons(node: RuleNode, kids: Shape, rest: Shape)

  ghost function Nodes(s: Shape): set<RuleNode> {
    match s
    case Nil => {}
    case Cons(n, k, r) => {n} + Nodes(k) + Nodes(r)
  }

  ghost function Rules(s: Shape): set<RuleInfo> {
    match s
    case Nil => {}
    case Cons(n, k, r) => {n.ruleinfo} + Rules(k) + Rules(r)
  }

  /** No node occurs twice. */
  ghost predicate Distinct(s: Shape) {
    match s
    case Nil => true
    case Cons(n, k, r) =>
      n !in Nodes(k) && n !in Nodes(r) && Nodes(k) !! Nodes(r) && Distinct(k) && Distinct(r)
  }

  /** The pointers from `h` spell out `s` and then reach `last`. */
  ghost predicate Seg(h: RuleNode?, s: Shape, last: RuleNode?)
    reads Nodes(s)`next, Nodes(s)`child
  {
    match s
    case Nil => h == last
    case Cons(n, k, r) => h == n && Seg(n.child, k, null) && Seg(n.next, r, last)
  }

  /** The forest the nodes carry at present. */
  ghost function View(s: Shape): Forest
    reads Rules(s)`level
  {
    match s
    case Nil => Leaf
    case Cons(n, k, r) => Tree(KeyOf(n.ruleinfo), View(k), View(r))
  }

  ghost function KeyOf(r: RuleInfo): RuleKey
    reads r`level
  {
    RuleKey(r, r.level)
  }

  /** Nodes that a value mentions exist; a node created later is none of them. */
  lemma {:induction false} NodesAllocated(s: Shape)
    ensures forall n | n in Nodes(s) :: allocated(n)
    ensures forall r | r in Rules(s) :: allocated(r)
  {
    if s.Cons? {
      NodesAllocated(s.kids);
      NodesAllocated(s.rest);
    }
  }

  function Joined(a: Shape, b: Shape): Shape {
    match a
    case Nil => b
    case Cons(n, k, r) => Cons(n, k, Joined(r, b))
  }

  lemma JoinedNodes(a: Shape, b: Shape)
    ensures Nodes(Joined(a, b)) == Nodes(a) + Nodes(b)
    ensures Rules(Joined(a, b)) == Rules(a) + Rules(b)
  {
  }

  lemma {:induction false} JoinedDistinct(a: Shape, b: Shape)
    ensures Distinct(Joined(a, b)) <==> Distinct(a) && Distinct(b) && Nodes(a) !! Nodes(b)
  {
    if a.Cons? {
      JoinedDistinct(a.rest, b);
      JoinedNodes(a.rest, b);
    }
  }

  lemma {:induction false} JoinedSeg(h: RuleNode?, a: Shape, m: RuleNode?, b: Shape, last: RuleNode?)
    requires Seg(h, a, m) && Seg(m, b, last)
    ensures Seg(h, Joined(a, b), last)
  {
    if a.Cons? {
      JoinedSeg(a.node.next, a.rest, m, b, last);
    }
  }

  lemma SegCons(n: RuleNode, k: Shape, r: Shape, last: RuleNode?)
    requires Seg(n.child, k, null) && Seg(n.next, r, last)
    ensures Seg(n, Cons(n, k, r), last)
  {
  }

  lemma {:induction false} JoinedView(a: Shape, b: Shape)
    ensures View(Joined(a, b)) == Append(View(a), View(b))
  {
    if a.Cons? {
      JoinedView(a.rest, b);
    }
  }

  lemma {:induction false} JoinedAssociative(a: Shape, b: Shape, c: Shape)
    ensures Joined(Joined(a, b), c) == Joined(a, Joined(b, c))
  {
    if a.Cons? {
      JoinedAssociative(a.rest, b, c);
    }
  }

  // ---------- _OS_AddRule ----------

  lemma {:induction false} InsertAt(front: Forest, k: RuleKey, back: Forest)
    requires AtLeast(front, k.level)
    requires back.Tree? ==> k.level > back.key.level
    ensures Insert(Append(front, back), k) == Append(front, Tree(k, Leaf, back))
  {
    if front.Tree? {
      InsertAt(front.rest, k, back);
    }
  }

  lemma {:induction false} AtLeastAppend(a: Forest, b: Forest, lo: int)
    ensures AtLeast(Append(a, b), lo) <==> AtLeast(a, lo) && AtLeast(b, lo)
  {
    if a.Tree? {
      AtLeastAppend(a.rest, b, lo);
    }
  }

  /** The siblings before `tmp`: all of `front`, then `prev` with its children `pk`. */
  ghost predicate Split(s: Shape, head: RuleNode?, front: Shape, prev: RuleNode?, pk: Shape, tmp: RuleNode?,
                        back: Shape)
    reads Nodes(s)`next, Nodes(s)`child, Nodes(front)`next, Nodes(front)`child,
      Nodes(pk)`next, Nodes(pk)`child, Nodes(back)`next, Nodes(back)`child, prev
  {
    && Seg(tmp, back, null)
    && if prev == null then tmp == head && s == back
       else
         && s == Joined(front, Cons(prev, pk, back))
         && Seg(head, front, prev) && Seg(prev.child, pk, null) && prev.next == tmp
  }

  ghost function Before(front: Shape, prev: RuleNode?, pk: Shape): Shape {
    if prev == null then Nil else Joined(front, Cons(prev, pk, Nil))
  }

  lemma SplitStep(s: Shape, head: RuleNode?, front: Shape, prev: RuleNode?, pk: Shape, tmp: RuleNode?, back: Shape)
    requires Split(s, head, front, prev, pk, tmp, back) && tmp != null
    ensures back.Cons? && back.node == tmp
    ensures Split(s, head, Before(front, prev, pk), tmp, back.kids, tmp.next, back.rest)
  {
    if prev != null {
      JoinedSeg(head, front, prev, Cons(prev, pk, Nil), tmp);
      JoinedAssociative(front, Cons(prev, pk, Nil), back);
    }
  }

  lemma BeforeStep(front: Shape, prev: RuleNode?, pk: Shape, node: RuleNode, kids: Shape, lo: int)
    requires AtLeast(View(Before(front, prev, pk)), lo) && node.ruleinfo.level >= lo
    ensures AtLeast(View(Before(Before(front, prev, pk), node, kids)), lo)
  {
    var one := Cons(node, kids, Nil);
    JoinedView(Before(front, prev, pk), one);
    AtLeastAppend(View(Before(front, prev, pk)), View(one), lo);
  }

  lemma SegNil()
    ensures Seg(null, Nil, null)
  {
  }

  lemma Apart(front: Shape, prev: RuleNode, pk: Shape, back: Shape)
    requires Distinct(Joined(front, Cons(prev, pk, back)))
    ensures prev !in Nodes(front) && prev !in Nodes(pk) && prev !in Nodes(back)
    ensures Nodes(Joined(front, Cons(prev, pk, back))) == Nodes(front) + {prev} + Nodes(pk) + Nodes(back)
  {
    hide Joined;
    JoinedDistinct(front, Cons(prev, pk, back));
    JoinedNodes(front, Cons(prev, pk, back));
    assert prev in Nodes(Cons(prev, pk, back));
  }

  lemma DistinctInsert(front: Shape, prev: RuleNode, pk: Shape, back: Shape, newNode: RuleNode)
    requires Distinct(Joined(front, Cons(prev, pk, back)))
    requires newNode !in Nodes(Joined(front, Cons(prev, pk, back)))
    ensures Distinct(Joined(front, Cons(prev, pk, Cons(newNode, Nil, back))))
    ensures Nodes(Joined(front, Cons(prev, pk, Cons(newNode, Nil, back))))
         == Nodes(Joined(front, Cons(prev, pk, back))) + {newNode}
  {
    var one := Cons(newNode, Nil, back);
    JoinedDistinct(front, Cons(prev, pk, back));
    JoinedNodes(front, Cons(prev, pk, back));
    JoinedNodes(front, Cons(prev, pk, one));
    assert Nodes(one) == Nodes(back) + {newNode};
    assert Distinct(one);
    assert Distinct(Cons(prev, pk, one));
    JoinedDistinct(front, Cons(prev, pk, one));
  }

  /** The search loop of `_OS_AddRule`: the last sibling `prev` of at least the level of `readRule`,
      and the sibling `tmp` after it. */
  method FindPlace(head: RuleNode?, readRule: RuleInfo, ghost s: Shape)
    returns (prev: RuleNode?, tmp: RuleNode?, ghost front: Shape, ghost pk: Shape, ghost back: Shape)
    requires Seg(head, s, null)
    ensures Split(s, head, front, prev, pk, tmp, back)
    ensures AtLeast(View(Before(front, prev, pk)), readRule.level)
    ensures tmp != null ==> readRule.level > tmp.ruleinfo.level
  {
    tmp := head;
    prev := null;
    front, pk, back := Nil, Nil, s;
    while tmp != null
      invariant Split(s, head, front, prev, pk, tmp, back)
      invariant AtLeast(View(Before(front, prev, pk)), readRule.level)
      decreases back
    {
      if readRule.level > tmp.ruleinfo.level {
        break;
      }
      SplitStep(s, head, front, prev, pk, tmp, back);
      BeforeStep(front, prev, pk, tmp, back.kids, readRule.level);
      front, prev, pk, tmp, back := Before(front, prev, pk), tmp, back.kids, tmp.next, back.rest;
    }
  }

  lemma SplitWhole(s: Shape, head: RuleNode?, front: Shape, prev: RuleNode?, pk: Shape, tmp: RuleNode?, back: Shape)
    requires Split(s, head, front, prev, pk, tmp, back)
    ensures View(s) == Append(View(Before(front, prev, pk)), View(back))
    ensures prev == null ==> Before(front, prev, pk) == Nil && View(Before(front, prev, pk)) == Leaf
    ensures prev != null ==> prev in Nodes(s) && head != null
    ensures tmp != null ==> View(back).Tree? && View(back).key.level == tmp.ruleinfo.level
    ensures tmp == null ==> View(back).Leaf?
  {
    if prev != null {
      JoinedNodes(front, Cons(prev, pk, back));
      SplitView(front, prev, pk, back);
    }
  }

  /** `_OS_AddRule`: a new node before the first sibling of lower level. */
  method InsertRule(head: RuleNode?, readRule: RuleInfo, ghost s: Shape)
    returns (newHead: RuleNode, ghost t: Shape, ghost added: RuleNode)
    requires Seg(head, s, null) && Distinct(s)
    modifies Nodes(s)`next
    ensures Seg(newHead, t, null) && Distinct(t)
    ensures fresh(added) && Nodes(t) == Nodes(s) + {added}
    ensures View(t) == Insert(old(View(s)), KeyOf(readRule))
  {
    var prev, tmp;
    ghost var front, pk, back;
    NodesAllocated(s);
    prev, tmp, front, pk, back := FindPlace(head, readRule, s);
    hide Seg, Distinct, View, Insert;
    ghost var before, after, k := View(Before(front, prev, pk)), View(back), KeyOf(readRule);
    SplitWhole(s, head, front, prev, pk, tmp, back);
    InsertAt(before, k, after);
    NodesAllocated(s);
    NodesAllocated(back);
    NodesAllocated(Before(front, prev, pk));
    if prev == null {
      newHead, t := LinkFirst(readRule, tmp, back);
      added := newHead;
    } else {
      newHead := head;
      t, added := LinkAfter(head, prev, readRule, front, pk, tmp, back);
    }
    assert before == View(Before(front, prev, pk)) && after == View(back);
  }

  /** The pointer assignments of `_OS_AddRule` before the first node. */
  method LinkFirst(readRule: RuleInfo, tmp: RuleNode?, ghost back: Shape) returns (newHead: RuleNode, ghost t: Shape)
    requires Seg(tmp, back, null) && Distinct(back)
    ensures Seg(newHead, t, null) && Distinct(t)
    ensures fresh(newHead) && Nodes(t) == Nodes(back) + {newHead}
    ensures View(t) == Tree(KeyOf(readRule), Leaf, View(back))
  {
    NodesAllocated(back);
    newHead := new RuleNode(readRule);
    newHead.next := tmp;
    t := Cons(newHead, Nil, back);
  }

  /** The pointer assignments of `_OS_AddRule` behind a node `prev`. */
  method LinkAfter(head: RuleNode, prev: RuleNode, readRule: RuleInfo,
                   ghost front: Shape, ghost pk: Shape, tmp: RuleNode?, ghost back: Shape)
    returns (ghost t: Shape, ghost added: RuleNode)
    requires Split(Joined(front, Cons(prev, pk, back)), head, front, prev, pk, tmp, back)
    requires Distinct(Joined(front, Cons(prev, pk, back)))
    modifies prev`next
    ensures Seg(head, t, null) && Distinct(t)
    ensures fresh(added) && Nodes(t) == Nodes(Joined(front, Cons(prev, pk, back))) + {added}
    ensures View(t) == Append(View(Before(front, prev, pk)), Tree(KeyOf(readRule), Leaf, View(back)))
  {
    hide Seg, Nodes, Distinct, Joined;
    ghost var s := Joined(front, Cons(prev, pk, back));
    Apart(front, prev, pk, back);
    NodesAllocated(s);
    var newNode := new RuleNode(readRule);
    added := newNode;
    DistinctInsert(front, prev, pk, back, newNode);
    newNode.next := tmp;
    prev.next := newNode;
    ghost var one := Cons(newNode, Nil, back);
    t := Joined(front, Cons(prev, pk, one));
    SegNil();
    SegCons(newNode, Nil, back, null);
    SegCons(prev, pk, one, null);
    JoinedSeg(head, front, prev, Cons(prev, pk, one), null);
    SplitView(front, prev, pk, one);
  }

  lemma SplitView(front: Shape, prev: RuleNode, pk: Shape, back: Shape)
    ensures View(Joined(front, Cons(prev, pk, back))) == Append(View(Before(front, prev, pk)), View(back))
  {
    JoinedAssociative(front, Cons(prev, pk, Nil), back);
    JoinedView(Before(front, prev, pk), back);
  }

  // ---------- walking a sibling list ----------

  /** A loop over the siblings from `head` has finished `done` and is at `r`, with `rest` to go. */
  ghost predicate Walking(head: RuleNode?, done: Shape, r: RuleNode?, rest: Shape)
    reads Nodes(done)`next, Nodes(done)`child, Nodes(rest)`next, Nodes(rest)`child
  {
    && Seg(head, done, r) && Seg(r, rest, null)
    && Distinct(done) && Distinct(rest) && Nodes(done) !! Nodes(rest)
  }

  lemma WalkStart(head: RuleNode?, s: Shape)
    requires Seg(head, s, null) && Distinct(s)
    ensures Walking(head, Nil, head, s) && Nodes(Nil) == {} && View(Nil) == Leaf
  {
  }

  lemma WalkOpen(head: RuleNode?, done: Shape, r: RuleNode, rest: Shape)
    requires Walking(head, done, r, rest)
    ensures rest.Cons? && rest.node == r && Seg(head, done, r)
    ensures Seg(r.child, rest.kids, null) && Distinct(rest.kids) && Seg(r.next, rest.rest, null)
    ensures Apart3(done, r, rest.kids, rest.rest)
    ensures Nodes(rest) == {r} + Nodes(rest.kids) + Nodes(rest.rest)
    ensures View(rest) == Tree(KeyOf(r.ruleinfo), View(rest.kids), View(rest.rest))
  {
  }

  ghost predicate Apart3(done: Shape, r: RuleNode, kids: Shape, tail: Shape) {
    && r !in Nodes(done) && r !in Nodes(kids) && r !in Nodes(tail)
    && Nodes(done) !! Nodes(kids) && Nodes(done) !! Nodes(tail) && Nodes(kids) !! Nodes(tail)
    && Distinct(done) && Distinct(tail)
  }

  /** `r`, whose children are now `kids`, joins the finished siblings. */
  lemma WalkClose(head: RuleNode?, done: Shape, r: RuleNode, kids: Shape, tail: Shape)
    requires Seg(head, done, r) && Seg(r.child, kids, null) && Seg(r.next, tail, null)
    requires Distinct(kids) && Apart3(done, r, kids, tail)
    ensures Walking(head, Joined(done, Cons(r, kids, Nil)), r.next, tail)
    ensures Nodes(Joined(done, Cons(r, kids, Nil))) == Nodes(done) + {r} + Nodes(kids)
    ensures View(Joined(done, Cons(r, kids, Nil))) == Append(View(done), Tree(KeyOf(r.ruleinfo), View(kids), Leaf))
  {
    var one := Cons(r, kids, Nil);
    JoinedSeg(head, done, r, one, r.next);
    JoinedDistinct(done, one);
    JoinedNodes(done, one);
    JoinedView(done, one);
  }

  lemma WalkEnd(head: RuleNode?, done: Shape, rest: Shape)
    requires Walking(head, done, null, rest)
    ensures rest == Nil && Seg(head, done, null) && Distinct(done) && View(rest) == Leaf && Nodes(rest) == {}
  {
  }

  // ---------- _AddtoRule for if_group and if_level ----------

  /** A rule is never hung below a rule with its own id. */
  function Eligible(q: RuleKey -> bool, sigid: int): RuleKey -> bool {
    (a: RuleKey) => q(a) && a.rule.sigid != sigid
  }

  // ---------- what a rule takes over from its parents ----------

  ghost function Parents(ks: seq<RuleKey>): set<RuleInfo> {
    set k | k in ks :: k.rule
  }

  /** The context a rule `me` with context `own` has after it was hung below `ks`, one after the other. */
  ghost function Context(own: array?<Option<string>>, ks: seq<RuleKey>, me: RuleInfo): array?<Option<string>>
    reads (Parents(ks) - {me})`lastEvents
    decreases ks
  {
    if own != null || ks == [] then own
    else Context(if ks[0].rule == me then null else ks[0].rule.lastEvents, ks[1..], me)
  }

  /** The same for its category, which follows every parent of if_sid. */
  ghost function CategoryBelow(own: int, ks: seq<RuleKey>, me: RuleInfo): int
    reads (Parents(ks) - {me})`category
    decreases ks
  {
    if ks == [] then own
    else CategoryBelow(if ks[0].rule == me then own else ks[0].rule.category, ks[1..], me)
  }

  lemma {:induction false} ContextInTurn(own: array?<Option<string>>, a: seq<RuleKey>, b: seq<RuleKey>, me: RuleInfo)
    ensures Context(own, a + b, me) == Context(Context(own, a, me), b, me)
    decreases a
  {
    if a == [] {
      assert a + b == b;
    } else if own == null {
      assert (a + b)[1..] == a[1..] + b;
      ContextInTurn(if a[0].rule == me then null else a[0].rule.lastEvents, a[1..], b, me);
    }
  }

  lemma {:induction false} CategoryInTurn(own: int, a: seq<RuleKey>, b: seq<RuleKey>, me: RuleInfo)
    ensures CategoryBelow(own, a + b, me) == CategoryBelow(CategoryBelow(own, a, me), b, me)
    decreases a
  {
    if a == [] {
      assert a + b == b;
    } else {
      assert (a + b)[1..] == a[1..] + b;
      CategoryInTurn(if a[0].rule == me then own else a[0].rule.category, a[1..], b, me);
    }
  }

  /** A rule keeps the context it has; otherwise it shares that of the first parent with one. */
  lemma {:induction false} ContextIsFirst(own: array?<Option<string>>, ks: seq<RuleKey>, me: RuleInfo)
    requires forall i :: 0 <= i < |ks| ==> ks[i].rule != me
    ensures own != null ==> Context(own, ks, me) == own
    ensures own == null && (forall i :: 0 <= i < |ks| ==> ks[i].rule.lastEvents == null) ==>
              Context(own, ks, me) == null
    ensures forall i | own == null && 0 <= i < |ks| && ks[i].rule.lastEvents != null
                       && forall j :: 0 <= j < i ==> ks[j].rule.lastEvents == null ::
              Context(own, ks, me) == ks[i].rule.lastEvents
    decreases ks
  {
    if own == null && ks != [] {
      var next := ks[0].rule.lastEvents;
      ContextIsFirst(next, ks[1..], me);
      forall i | 0 <= i < |ks| && ks[i].rule.lastEvents != null
                 && forall j :: 0 <= j < i ==> ks[j].rule.lastEvents == null
        ensures Context(own, ks, me) == ks[i].rule.lastEvents
      {
        if i > 0 {
          assert ks[0].rule.lastEvents == null;
          assert ks[i] == ks[1..][i - 1];
          assert forall j :: 0 <= j < i - 1 ==> ks[1..][j] == ks[j + 1];
        }
      }
    }
  }

  /** The category is that of the last parent. */
  lemma {:induction false} CategoryIsLast(own: int, ks: seq<RuleKey>, me: RuleInfo)
    requires ks != [] && ks[|ks| - 1].rule != me
    ensures CategoryBelow(own, ks, me) == ks[|ks| - 1].rule.category
    decreases ks
  {
    if |ks| > 1 {
      CategoryIsLast(if ks[0].rule == me then own else ks[0].rule.category, ks[1..], me);
    }
  }

  /** The context after a walk over `f` for `p`; only the walk for if_group takes it over. */
  ghost function ContextBelow(own: array?<Option<string>>, inherit: bool, f: Forest, p: RuleKey -> bool, me: RuleInfo)
    : array?<Option<string>>
    reads (Parents(Accepted(f, p)) - {me})`lastEvents
  {
    if inherit then Context(own, Accepted(f, p), me) else own
  }

  lemma {:induction false} ParentsAllocated(f: Forest, p: RuleKey -> bool)
    ensures forall r | r in Parents(Accepted(f, p)) :: allocated(r)
  {
    if f.Tree? {
      assert Parents(Accepted(f, p)) <= {f.key.rule} + Parents(Accepted(f.kids, p)) + Parents(Accepted(f.rest, p));
      ParentsAllocated(f.kids, p);
      ParentsAllocated(f.rest, p);
    }
  }

  lemma ContextBelowNone(own: array?<Option<string>>, inherit: bool, p: RuleKey -> bool, me: RuleInfo)
    ensures ContextBelow(own, inherit, Leaf, p, me) == own
  {
  }

  /** A walk over siblings takes one node with its subtree after the other. */
  lemma ContextSteps(own: array?<Option<string>>, inherit: bool, a: RuleKey, kids: Forest, tail: Forest,
                     p: RuleKey -> bool, me: RuleInfo)
    ensures ContextBelow(own, inherit, Tree(a, kids, tail), p, me)
         == ContextBelow(ContextBelow(own, inherit, Tree(a, kids, Leaf), p, me), inherit, tail, p, me)
  {
    var one := Accepted(Tree(a, kids, Leaf), p);
    var here := if p(a) then [a] else [];
    assert one == here + Accepted(kids, p) + Accepted(Leaf, p) == here + Accepted(kids, p);
    assert Accepted(Tree(a, kids, tail), p) == one + Accepted(tail, p);
    ContextInTurn(own, one, Accepted(tail, p), me);
  }

  /** A node comes before its children, and a leaf of the rule itself among them makes no difference. */
  lemma ContextPhases(own: array?<Option<string>>, inherit: bool, a: RuleKey, kids: Forest, p: RuleKey -> bool,
                      key: RuleKey, me: RuleInfo)
    requires !p(key) && (p(a) ==> a.rule != me)
    ensures var w := if p(a) then Insert(kids, key) else kids;
            var first := if inherit && p(a) && own == null then a.rule.lastEvents else own;
            ContextBelow(own, inherit, Tree(a, kids, Leaf), p, me) == ContextBelow(first, inherit, w, p, me)
  {
    if p(a) {
      AcceptedAfterInsert(kids, p, key);
    }
    var below := Accepted(kids, p);
    assert Accepted(Tree(a, kids, Leaf), p) == if p(a) then [a] + below else below;
    if p(a) {
      ContextInTurn(own, [a], below, me);
      assert Context(own, [a], me) == if own == null then a.rule.lastEvents else own;
    }
  }

  lemma GraftPhases(v: Forest, hit: bool, p: RuleKey -> bool, key: RuleKey)
    requires !p(key)
    ensures var w := if hit then Insert(v, key) else v;
            && Graft(w, p, key) == (if hit then Insert(Graft(v, p, key), key) else Graft(v, p, key))
            && Any(w, p) == Any(v, p)
            && Others(w, key.rule.sigid) == Others(v, key.rule.sigid)
            && (w == Leaf ==> !hit && Graft(w, p, key) == Leaf && !Any(w, p))
  {
    if hit {
      GraftAfterInsert(v, p, key);
      InsertKeepsOthers(v, key, key.rule.sigid);
    }
  }

  lemma SegToNull(s: Shape)
    requires Seg(null, s, null)
    ensures s == Nil && View(s) == Leaf
  {
  }

  /** `r->child = _OS_AddRule(r->child, read_rule)`, with the parent's context if `inherit` and the rule
      has none. */
  method HangBelow(r: RuleNode, readRule: RuleInfo, inherit: bool, ghost k: Shape)
    returns (ghost t: Shape, ghost added: RuleNode)
    requires Seg(r.child, k, null) && Distinct(k) && r !in Nodes(k)
    modifies r`child, Nodes(k)`next, readRule`lastEvents
    ensures Seg(r.child, t, null) && Distinct(t)
    ensures fresh(added) && Nodes(t) == Nodes(k) + {added}
    ensures View(t) == Insert(old(View(k)), KeyOf(readRule))
    ensures readRule.lastEvents == if inherit && old(readRule.lastEvents) == null then old(r.ruleinfo.lastEvents)
                                   else old(readRule.lastEvents)
  {
    hide Seg, Distinct, View, Nodes, Insert;
    NodesAllocated(k);
    if inherit && readRule.lastEvents == null && r.ruleinfo.lastEvents != null {
      readRule.lastEvents := r.ruleinfo.lastEvents;
    }
    var head;
    head, t, added := InsertRule(r.child, readRule, k);
    r.child := head;
  }

  /** The body of the walk at one node: a child if the node matches, then the walk over its children,
      which include that child. */
  method AddToNode(q: RuleKey -> bool, inherit: bool, r: RuleNode, readRule: RuleInfo, ghost k: Shape)
    returns (code: bool, ghost t: Shape, ghost added: set<RuleNode>)
    requires Seg(r.child, k, null) && Distinct(k) && r !in Nodes(k)
    modifies r`child, Nodes(k)`next, Nodes(k)`child, readRule`lastEvents
    ensures Seg(r.child, t, null) && Distinct(t)
    ensures fresh(added) && Nodes(t) == Nodes(k) + added
    ensures View(t) == var g := Graft(old(View(k)), Eligible(q, readRule.sigid), KeyOf(readRule));
                       if Eligible(q, readRule.sigid)(KeyOf(r.ruleinfo)) then Insert(g, KeyOf(readRule)) else g
    ensures code <==> Eligible(q, readRule.sigid)(KeyOf(r.ruleinfo)) || Any(old(View(k)), Eligible(q, readRule.sigid))
    ensures readRule.lastEvents == old(ContextBelow(readRule.lastEvents, inherit,
                                                    Tree(KeyOf(r.ruleinfo), View(k), Leaf),
                                                    Eligible(q, readRule.sigid), readRule))
    decreases Others(Tree(KeyOf(r.ruleinfo), View(k), Leaf), readRule.sigid), Size(View(k)) + 1, 0
  {
    hide Seg, Distinct, Graft, Insert, View, Any, ContextBelow;
    NodesAllocated(k);
    ghost var v, key, p := View(k), KeyOf(readRule), Eligible(q, readRule.sigid);
    ghost var hit := p(KeyOf(r.ruleinfo));
    GraftPhases(v, hit, p, key);
    ContextPhases(readRule.lastEvents, inherit, KeyOf(r.ruleinfo), v, p, key, readRule);
    code, t, added := false, k, {};
    ghost var w := if hit then Insert(v, key) else v;
    ParentsAllocated(w, p);
    label Start:
    if q(RuleKey(r.ruleinfo, r.ruleinfo.level)) && r.ruleinfo.sigid != readRule.sigid {
      ghost var one;
      t, one := HangBelow(r, readRule, inherit, k);
      code, added := true, {one};
    }
    assert View(t) == w;
    ghost var own := readRule.lastEvents;
    assert ContextBelow(own, inherit, w, p, readRule) == old@Start(ContextBelow(own, inherit, w, p, readRule));
    if r.child != null {
      var c; ghost var more;
      c, t, more := AddMatching(q, inherit, r.child, readRule, t);
      code := code || c;
      added := added + more;
      assert View(t) == Graft(w, p, key);
    } else {
      SegToNull(t);
      ContextBelowNone(own, inherit, p, readRule);
    }
  }

  lemma RestMeasure(r: RuleNode, rest: Shape, sigid: int)
    requires rest.Cons? && rest.node == r
    ensures Others(Tree(KeyOf(r.ruleinfo), View(rest.kids), Leaf), sigid) <= Others(View(rest), sigid)
    ensures Others(View(rest.rest), sigid) <= Others(View(rest), sigid)
    ensures Size(View(rest.kids)) + 1 <= Size(View(rest)) && Size(View(rest.rest)) <= Size(View(rest))
  {
  }

  lemma GraftEnd(done: Forest, p: RuleKey -> bool, key: RuleKey)
    ensures Append(Leaf, done) == done && Append(done, Graft(Leaf, p, key)) == done
  {
    AppendLeaf(done);
  }

  lemma GraftStep(before: Forest, a: RuleKey, kids: Forest, tail: Forest, p: RuleKey -> bool, key: RuleKey)
    ensures var g := Graft(kids, p, key);
            var one := Tree(a, if p(a) then Insert(g, key) else g, Leaf);
            Append(Append(before, one), Graft(tail, p, key)) == Append(before, Graft(Tree(a, kids, tail), p, key))
  {
    var g := Graft(kids, p, key);
    AppendAssociative(before, Tree(a, if p(a) then Insert(g, key) else g, Leaf), Graft(tail, p, key));
  }

  /** `_AddtoRule` over a sibling list, for if_group (`inherit`) and if_level. */
  method AddMatching(q: RuleKey -> bool, inherit: bool, rNode: RuleNode?, readRule: RuleInfo, ghost s: Shape)
    returns (code: bool, ghost t: Shape, ghost added: set<RuleNode>)
    requires Seg(rNode, s, null) && Distinct(s)
    modifies Nodes(s)`next, Nodes(s)`child, readRule`lastEvents
    ensures Seg(rNode, t, null) && Distinct(t)
    ensures fresh(added) && Nodes(t) == Nodes(s) + added
    ensures View(t) == Graft(old(View(s)), Eligible(q, readRule.sigid), KeyOf(readRule))
    ensures code <==> Any(old(View(s)), Eligible(q, readRule.sigid))
    ensures readRule.lastEvents == old(ContextBelow(readRule.lastEvents, inherit, View(s), Eligible(q, readRule.sigid),
                                                    readRule))
    decreases Others(View(s), readRule.sigid), Size(View(s)), 1
  {
    hide Seg, Distinct, View, Nodes, Others, Size, Joined, Walking, Eligible, Insert, Append, Graft,
         ContextBelow, Accepted, Parents;
    code, t, added := false, Nil, {};
    var r := rNode;
    ghost var rest := s;
    ghost var v, key, p := View(s), KeyOf(readRule), Eligible(q, readRule.sigid);
    NodesAllocated(s);
    WalkStart(rNode, s);
    GraftEnd(Graft(v, p, key), p, key);
    ghost var context := ContextBelow(readRule.lastEvents, inherit, v, p, readRule);
    while r != null
      invariant Walking(rNode, t, r, rest)
      invariant fresh(added) && Nodes(t) + Nodes(rest) == Nodes(s) + added && Nodes(rest) <= Nodes(s)
      invariant Append(View(t), Graft(View(rest), p, key)) == Graft(v, p, key)
      invariant code || Any(View(rest), p) <==> Any(v, p)
      invariant ContextBelow(readRule.lastEvents, inherit, View(rest), p, readRule) == context
      invariant Others(View(rest), readRule.sigid) <= Others(v, readRule.sigid) && Size(View(rest)) <= Size(v)
      decreases rest
    {
      WalkOpen(rNode, t, r, rest);
      RestMeasure(r, rest, readRule.sigid);
      ContextSteps(readRule.lastEvents, inherit, KeyOf(r.ruleinfo), View(rest.kids), View(rest.rest), p, readRule);
      ghost var k, tail, before := rest.kids, rest.rest, View(t);
      ghost var vk, vt := View(k), View(tail);
      NodesAllocated(t);
      NodesAllocated(tail);
      var c; ghost var kids, more;
      ghost var own := ContextBelow(readRule.lastEvents, inherit, Tree(KeyOf(r.ruleinfo), vk, Leaf), p, readRule);
      ParentsAllocated(vt, p);
      label Node:
      c, kids, more := AddToNode(q, inherit, r, readRule, k);
      assert readRule.lastEvents == own;
      assert ContextBelow(own, inherit, vt, p, readRule) == old@Node(ContextBelow(own, inherit, vt, p, readRule));
      code := code || c;
      added := added + more;
      WalkClose(rNode, t, r, kids, tail);
      GraftStep(before, KeyOf(r.ruleinfo), vk, vt, p, key);
      assert View(tail) == vt;
      t, rest := Joined(t, Cons(r, kids, Nil)), tail;
      r := r.next;
    }
    WalkEnd(rNode, t, rest);
    GraftEnd(View(t), p, key);
    ContextBelowNone(readRule.lastEvents, inherit, p, readRule);
  }

  // ---------- _AddtoRule for if_sid ----------

  /** `r`, whose children are now `kids`, and the untouched siblings `tail` complete the list. */
  lemma WalkStop(head: RuleNode?, done: Shape, r: RuleNode, kids: Shape, tail: Shape)
    requires Seg(head, done, r) && Seg(r.child, kids, null) && Seg(r.next, tail, null)
    requires Distinct(kids) && Apart3(done, r, kids, tail)
    ensures var t := Joined(done, Cons(r, kids, tail));
            && Seg(head, t, null) && Distinct(t)
            && Nodes(t) == Nodes(done) + {r} + Nodes(kids) + Nodes(tail)
            && View(t) == Append(View(done), Tree(KeyOf(r.ruleinfo), View(kids), View(tail)))
  {
    var one := Cons(r, kids, tail);
    JoinedSeg(head, done, r, one, null);
    JoinedDistinct(done, one);
    JoinedNodes(done, one);
    JoinedView(done, one);
  }

  /** What a rule takes over from a parent of if_sid. */
  datatype Legacy = Legacy(context: array?<Option<string>>, category: int)

  ghost function LegacyOf(r: RuleInfo): Legacy
    reads r`lastEvents, r`category
  {
    Legacy(r.lastEvents, r.category)
  }

  /** What it has after a walk over `f` for `sid`. */
  ghost function LegacyBelow(own: Legacy, f: Forest, sid: int, me: RuleInfo): Legacy
    reads (Parents(SidParents(f, sid)) - {me})`lastEvents, (Parents(SidParents(f, sid)) - {me})`category
  {
    var ks := SidParents(f, sid);
    Legacy(Context(own.context, ks, me), CategoryBelow(own.category, ks, me))
  }

  lemma {:induction false} SidParentsAllocated(f: Forest, sid: int)
    ensures forall r | r in Parents(SidParents(f, sid)) :: allocated(r)
  {
    if f.Tree? {
      assert Parents(SidParents(f, sid))
          <= {f.key.rule} + Parents(SidParents(f.kids, sid)) + Parents(SidParents(f.rest, sid));
      SidParentsAllocated(f.kids, sid);
      SidParentsAllocated(f.rest, sid);
    }
  }

  lemma LegacyBelowNone(own: Legacy, sid: int, me: RuleInfo)
    ensures LegacyBelow(own, Leaf, sid, me) == own
  {
  }

  lemma OneParent(own: Legacy, a: RuleKey, me: RuleInfo)
    ensures Context(own.context, [a], me)
         == if own.context == null && a.rule != me then a.rule.lastEvents else own.context
    ensures CategoryBelow(own.category, [a], me) == if a.rule != me then a.rule.category else own.category
  {
    assert [a][1..] == [];
  }

  /** The first sibling with the id ends the walk over its list; any other one leaves it to its children
      and to the siblings after it. */
  lemma LegacySteps(own: Legacy, a: RuleKey, kids: Forest, tail: Forest, sid: int, me: RuleInfo)
    ensures a.rule.sigid == sid ==>
              && LegacyBelow(own, Tree(a, kids, tail), sid, me) == LegacyBelow(own, Tree(a, kids, Leaf), sid, me)
              && LegacyBelow(own, Tree(a, kids, Leaf), sid, me)
              == if a.rule == me then own
                 else Legacy(if own.context == null then a.rule.lastEvents else own.context, a.rule.category)
    ensures a.rule.sigid != sid ==>
              && LegacyBelow(own, Tree(a, kids, Leaf), sid, me) == LegacyBelow(own, kids, sid, me)
              && LegacyBelow(own, Tree(a, kids, tail), sid, me)
              == LegacyBelow(LegacyBelow(own, kids, sid, me), tail, sid, me)
  {
    if a.rule.sigid != sid {
      var below := SidParents(kids, sid);
      assert SidParents(Tree(a, kids, Leaf), sid) == below;
      ContextInTurn(own.context, below, SidParents(tail, sid), me);
      CategoryInTurn(own.category, below, SidParents(tail, sid), me);
    } else {
      OneParent(own, a, me);
    }
  }

  lemma SidStep(before: Forest, a: RuleKey, kids: Forest, tail: Forest, sid: int, key: RuleKey)
    requires a.rule.sigid != sid
    ensures var one := Tree(a, GraftSid(kids, sid, key), Leaf);
            Append(Append(before, one), GraftSid(tail, sid, key))
                == Append(before, GraftSid(Tree(a, kids, tail), sid, key))
    ensures HasSid(Tree(a, kids, tail), sid) <==> HasSid(kids, sid) || HasSid(tail, sid)
  {
    AppendAssociative(before, Tree(a, GraftSid(kids, sid, key), Leaf), GraftSid(tail, sid, key));
  }

  lemma SidFound(a: RuleKey, kids: Forest, tail: Forest, sid: int, key: RuleKey)
    requires a.rule.sigid == sid
    ensures GraftSid(Tree(a, kids, tail), sid, key) == Tree(a, Insert(kids, key), tail)
    ensures HasSid(Tree(a, kids, tail), sid)
  {
  }

  lemma SidEnd(done: Forest, sid: int, key: RuleKey)
    ensures Append(Leaf, done) == done && Append(done, GraftSid(Leaf, sid, key)) == done
    ensures GraftSid(Leaf, sid, key) == Leaf && !HasSid(Leaf, sid)
  {
    AppendLeaf(done);
  }

  /** The same under the parent's category. */
  method AdoptChild(r: RuleNode, readRule: RuleInfo, inherit: bool, ghost k: Shape)
    returns (ghost t: Shape, ghost added: RuleNode)
    requires Seg(r.child, k, null) && Distinct(k) && r !in Nodes(k)
    modifies r`child, Nodes(k)`next, readRule`lastEvents, readRule`category
    ensures Seg(r.child, t, null) && Distinct(t)
    ensures fresh(added) && Nodes(t) == Nodes(k) + {added}
    ensures View(t) == Insert(old(View(k)), KeyOf(readRule))
    ensures readRule.category == old(r.ruleinfo.category)
    ensures readRule.lastEvents == if inherit && old(readRule.lastEvents) == null then old(r.ruleinfo.lastEvents)
                                   else old(readRule.lastEvents)
  {
    hide Seg, Distinct, View, Nodes, Insert;
    readRule.category := r.ruleinfo.category;
    t, added := HangBelow(r, readRule, inherit, k);
  }

  /** The body of the walk at one node: the child, or else the walk over the children. */
  method SidAtNode(sid: int, r: RuleNode, readRule: RuleInfo, ghost k: Shape)
    returns (code: bool, ghost t: Shape, ghost added: set<RuleNode>)
    requires Seg(r.child, k, null) && Distinct(k) && r !in Nodes(k)
    modifies r`child, Nodes(k)`next, Nodes(k)`child, readRule`lastEvents, readRule`category
    ensures Seg(r.child, t, null) && Distinct(t)
    ensures fresh(added) && Nodes(t) == Nodes(k) + added
    ensures View(t) == if r.ruleinfo.sigid == sid then Insert(old(View(k)), KeyOf(readRule))
                       else GraftSid(old(View(k)), sid, KeyOf(readRule))
    ensures code <==> r.ruleinfo.sigid == sid || HasSid(old(View(k)), sid)
    ensures LegacyOf(readRule)
         == old(LegacyBelow(LegacyOf(readRule), Tree(KeyOf(r.ruleinfo), View(k), Leaf), sid, readRule))
    decreases k, 1
  {
    hide Seg, Distinct, View, Nodes, Insert, GraftSid, HasSid, LegacyBelow;
    LegacySteps(LegacyOf(readRule), KeyOf(r.ruleinfo), View(k), Leaf, sid, readRule);
    code, t, added := false, k, {};
    if r.ruleinfo.sigid == sid {
      ghost var one;
      t, one := AdoptChild(r, readRule, true, k);
      code, added := true, {one};
    } else if r.child != null {
      code, t, added := AddBelowSid(sid, r.child, readRule, k);
    } else {
      SegToNull(k);
      SidEnd(Leaf, sid, KeyOf(readRule));
      LegacyBelowNone(LegacyOf(readRule), sid, readRule);
    }
  }

  /** `_AddtoRule` over a sibling list, for one id of if_sid. */
  method AddBelowSid(sid: int, rNode: RuleNode?, readRule: RuleInfo, ghost s: Shape)
    returns (code: bool, ghost t: Shape, ghost added: set<RuleNode>)
    requires Seg(rNode, s, null) && Distinct(s)
    modifies Nodes(s)`next, Nodes(s)`child, readRule`lastEvents, readRule`category
    ensures Seg(rNode, t, null) && Distinct(t)
    ensures fresh(added) && Nodes(t) == Nodes(s) + added
    ensures View(t) == GraftSid(old(View(s)), sid, KeyOf(readRule))
    ensures code <==> HasSid(old(View(s)), sid)
    ensures LegacyOf(readRule) == old(LegacyBelow(LegacyOf(readRule), View(s), sid, readRule))
    decreases s, 0
  {
    hide Seg, Distinct, View, Nodes, Joined, Walking, Insert, Append, GraftSid, HasSid, Apart3, LegacyBelow, SidParents,
         Parents, LegacyOf;
    code, t, added := false, Nil, {};
    var r := rNode;
    ghost var rest := s;
    ghost var v, key := View(s), KeyOf(readRule);
    NodesAllocated(s);
    WalkStart(rNode, s);
    SidEnd(GraftSid(v, sid, key), sid, key);
    ghost var legacy := LegacyBelow(LegacyOf(readRule), v, sid, readRule);
    while r != null
      invariant Walking(rNode, t, r, rest)
      invariant fresh(added) && Nodes(t) + Nodes(rest) == Nodes(s) + added && Nodes(rest) <= Nodes(s)
      invariant Append(View(t), GraftSid(View(rest), sid, key)) == GraftSid(v, sid, key)
      invariant code || HasSid(View(rest), sid) <==> HasSid(v, sid)
      invariant LegacyBelow(LegacyOf(readRule), View(rest), sid, readRule) == legacy
      invariant rest == s || rest < s
      decreases rest
    {
      WalkOpen(rNode, t, r, rest);
      ghost var k, tail, before, a := rest.kids, rest.rest, View(t), KeyOf(r.ruleinfo);
      ghost var vk, vt := View(k), View(tail);
      NodesAllocated(t);
      NodesAllocated(tail);
      LegacySteps(LegacyOf(readRule), a, vk, vt, sid, readRule);
      ghost var own := LegacyBelow(LegacyOf(readRule), Tree(a, vk, Leaf), sid, readRule);
      SidParentsAllocated(vt, sid);
      label Node:
      var c; ghost var kids, more;
      c, kids, more := SidAtNode(sid, r, readRule, k);
      assert LegacyBelow(own, vt, sid, readRule) == old@Node(LegacyBelow(own, vt, sid, readRule));
      code, added := code || c, added + more;
      assert Nodes(t) + {r} + Nodes(kids) + Nodes(tail) == Nodes(s) + added;
      assert View(tail) == vt && View(t) == before;
      if r.ruleinfo.sigid == sid {
        WalkStop(rNode, t, r, kids, tail);
        SidFound(a, vk, vt, sid, key);
        t := Joined(t, Cons(r, kids, tail));
        return;
      }
      WalkClose(rNode, t, r, kids, tail);
      SidStep(before, a, vk, vt, sid, key);
      t, rest := Joined(t, Cons(r, kids, Nil)), tail;
      r := r.next;
    }
    WalkEnd(rNode, t, rest);
    SidEnd(View(t), sid, key);
    LegacyBelowNone(LegacyOf(readRule), sid, readRule);
  }

  // ---------- _AddtoRule for the category ----------

  /** The position of the first root of category `c`. */
  ghost function FirstRoot(s: Shape, c: int): nat
    reads Rules(s)`category
  {
    match s
    case Nil => 0
    case Cons(n, k, r) => if n.ruleinfo.category == c then 0 else 1 + FirstRoot(r, c)
  }

  /** Root `n` is of category `c`, and no root before it is. */
  ghost predicate IsFirstRoot(s: Shape, n: nat, c: int)
    reads Rules(s)`category
  {
    match s
    case Nil => false
    case Cons(r, _, rest) =>
      if n == 0 then r.ruleinfo.category == c else r.ruleinfo.category != c && IsFirstRoot(rest, n - 1, c)
  }

  ghost predicate HasRootOf(s: Shape, c: int)
    reads Rules(s)`category
  {
    exists n: nat :: IsFirstRoot(s, n, c)
  }

  lemma {:induction false} FirstRootIs(s: Shape, c: int)
    ensures forall n: nat :: IsFirstRoot(s, n, c) <==> n == FirstRoot(s, c) < Length(View(s))
    ensures HasRootOf(s, c) <==> FirstRoot(s, c) < Length(View(s))
  {
    if s.Cons? {
      FirstRootIs(s.rest, c);
      forall n: nat
        ensures IsFirstRoot(s, n, c) <==> n == FirstRoot(s, c) < Length(View(s))
      {
        if n > 0 {
          assert IsFirstRoot(s.rest, n - 1, c) <==> n - 1 == FirstRoot(s.rest, c) < Length(View(s.rest));
        }
      }
    }
    assert FirstRoot(s, c) < Length(View(s)) ==> IsFirstRoot(s, FirstRoot(s, c), c);
  }

  lemma CategoryFound(before: Forest, a: RuleKey, kids: Forest, tail: Forest, key: RuleKey)
    ensures GraftRoot(Append(before, Tree(a, kids, tail)), Length(before), key)
         == Append(before, Tree(a, Insert(kids, key), tail))
  {
  }

  lemma CategorySkip(before: Forest, a: RuleKey, kids: Forest, tail: Forest)
    ensures Append(Append(before, Tree(a, kids, Leaf)), tail) == Append(before, Tree(a, kids, tail))
    ensures Length(Append(before, Tree(a, kids, Leaf))) == Length(before) + 1
  {
  }

  lemma FirstRootAt(rest: Shape, c: int)
    requires rest.Cons?
    ensures FirstRoot(rest, c) == if rest.node.ruleinfo.category == c then 0 else 1 + FirstRoot(rest.rest, c)
  {
  }

  /** The walk over the roots to the first one of category `c`. */
  method FindCategory(rNode: RuleNode?, c: int, ghost s: Shape)
    returns (r: RuleNode?, ghost done: Shape, ghost rest: Shape)
    requires Seg(rNode, s, null) && Distinct(s)
    ensures Walking(rNode, done, r, rest) && Nodes(done) + Nodes(rest) == Nodes(s)
    ensures Append(View(done), View(rest)) == View(s)
    ensures r != null ==> r.ruleinfo.category == c && FirstRoot(s, c) == Length(View(done)) < Length(View(s))
    ensures r == null ==> FirstRoot(s, c) == Length(View(s))
  {
    hide Seg, Distinct, View, Nodes, Joined, Walking, Insert, Append, GraftRoot, Length, FirstRoot;
    r, done, rest := rNode, Nil, s;
    WalkStart(rNode, s);
    AppendToLeaf(View(s));
    while r != null
      invariant Walking(rNode, done, r, rest)
      invariant Nodes(done) + Nodes(rest) == Nodes(s)
      invariant Append(View(done), View(rest)) == View(s)
      invariant FirstRoot(s, c) == Length(View(done)) + FirstRoot(rest, c)
      decreases rest
    {
      WalkOpen(rNode, done, r, rest);
      FirstRootAt(rest, c);
      if c != r.ruleinfo.category {
        WalkClose(rNode, done, r, rest.kids, rest.rest);
        CategorySkip(View(done), KeyOf(r.ruleinfo), View(rest.kids), View(rest.rest));
        done, rest := Joined(done, Cons(r, rest.kids, Nil)), rest.rest;
        r := r.next;
        continue;
      }
      LengthAppend(View(done), View(rest));
      return;
    }
    WalkEnd(rNode, done, rest);
    AppendLeaf(View(done));
    FirstRootNil(c);
  }

  lemma FirstRootNil(c: int)
    ensures FirstRoot(Nil, c) == 0
  {
  }

  lemma AppendToLeaf(f: Forest)
    ensures Append(Leaf, f) == f && Length(Leaf) == 0
  {
  }

  /** `_AddtoRule` without any parent condition: below the first root of the rule's category. */
  method AddByCategory(rNode: RuleNode?, readRule: RuleInfo, ghost s: Shape)
    returns (code: bool, ghost t: Shape, ghost added: set<RuleNode>)
    requires Seg(rNode, s, null) && Distinct(s)
    modifies Nodes(s)`next, Nodes(s)`child, readRule`lastEvents, readRule`category
    ensures Seg(rNode, t, null) && Distinct(t)
    ensures fresh(added) && Nodes(t) == Nodes(s) + added
    ensures code <==> old(FirstRoot(s, readRule.category)) < Length(old(View(s)))
    ensures code ==> View(t) == GraftRoot(old(View(s)), old(FirstRoot(s, readRule.category)), KeyOf(readRule))
    ensures !code ==> t == s
    ensures readRule.category == old(readRule.category) && readRule.lastEvents == old(readRule.lastEvents)
  {
    hide Seg, Distinct, View, Nodes, Joined, Insert, Append, GraftRoot, Length, FirstRoot, Walking;
    NodesAllocated(s);
    var r; ghost var done, rest;
    r, done, rest := FindCategory(rNode, readRule.category, s);
    if r == null {
      return false, s, {};
    }
    WalkOpen(rNode, done, r, rest);
    ghost var before, a, vk, vt := View(done), KeyOf(r.ruleinfo), View(rest.kids), View(rest.rest);
    NodesAllocated(done);
    NodesAllocated(rest.rest);
    ghost var kids, one;
    kids, one := AdoptChild(r, readRule, false, rest.kids);
    WalkStop(rNode, done, r, kids, rest.rest);
    CategoryFound(before, a, vk, vt, KeyOf(readRule));
    assert before == View(done) && vt == View(rest.rest);
    return true, Joined(done, Cons(r, kids, rest.rest)), {one};
  }

  lemma LengthAppend(a: Forest, b: Forest)
    ensures Length(Append(a, b)) == Length(a) + Length(b)
    ensures b.Tree? ==> Length(b) >= 1
  {
  }
}
