/** The rule tree as a value, and what adding a rule does to it (src/analysisd/rules_list.c).

    A sibling list is a `Forest`: its first node, that node's children, and the siblings that follow.
    The heap structure that carries such a forest is in `RuleTree`.
 */
module Forests {
  import opened Entities

  /** A rule and its (encoded) level; the other fields the loader compares are constants of the rule. */
  datatype RuleKey = RuleKey(rule: RuleInfo, level: int)

  datatype Forest = Leaf | Tree(key: RuleKey, kids: Forest, rest: Forest)

  function Append(a: Forest, b: Forest): Forest {
    match a
    case Leaf => b
    case Tree(k, kids, rest) => Tree(k, kids, Append(rest, b))
  }

  lemma AppendAssociative(a: Forest, b: Forest, c: Forest)
    ensures Append(Append(a, b), c) == Append(a, Append(b, c))
  {
  }

  lemma AppendLeaf(a: Forest)
    ensures Append(a, Leaf) == a
  {
  }

  function Size(f: Forest): nat {
    match f
    case Leaf => 0
    case Tree(_, kids, rest) => 1 + Size(kids) + Size(rest)
  }

  /** The nodes whose rule does not carry `sigid`; only these can be given a child by a rule `sigid`. */
  function Others(f: Forest, sigid: int): nat {
    match f
    case Leaf => 0
    case Tree(k, kids, rest) => (if k.rule.sigid != sigid then 1 else 0) + Others(kids, sigid) + Others(rest, sigid)
  }

  /** All nodes, children before the siblings that follow. */
  function Keys(f: Forest): seq<RuleKey> {
    match f
    case Leaf => []
    case Tree(k, kids, rest) => [k] + Keys(kids) + Keys(rest)
  }

  /** Every sibling list at every depth is non-increasing in level. */
  predicate Sorted(f: Forest) {
    match f
    case Leaf => true
    case Tree(k, kids, rest) => (rest.Tree? ==> k.level >= rest.key.level) && Sorted(kids) && Sorted(rest)
  }

  // ---------- one insertion into a sibling list ----------

  /** The list after `_OS_AddRule`: a leaf before the first sibling of lower level. */
  function Insert(f: Forest, k: RuleKey): Forest {
    match f
    case Leaf => Tree(k, Leaf, Leaf)
    case Tree(a, kids, rest) =>
      if k.level > a.level then Tree(k, Leaf, f) else Tree(a, kids, Insert(rest, k))
  }

  /** Every sibling of `f` has at least level `lo`. */
  predicate AtLeast(f: Forest, lo: int) {
    f.Tree? ==> f.key.level >= lo && AtLeast(f.rest, lo)
  }

  predicate AllBelow(f: Forest, hi: int) {
    f.Tree? ==> f.key.level < hi && AllBelow(f.rest, hi)
  }

  /** Equal levels stay in insertion order: the new leaf comes after every sibling of its level, and
      before every sibling below it. */
  lemma {:induction false} InsertIsStable(f: Forest, k: RuleKey) returns (before: Forest, after: Forest)
    requires Sorted(f)
    ensures f == Append(before, after)
    ensures Insert(f, k) == Append(before, Tree(k, Leaf, after))
    ensures AtLeast(before, k.level) && AllBelow(after, k.level)
    ensures Sorted(Insert(f, k))
  {
    match f
    case Leaf =>
      before, after := Leaf, Leaf;
    case Tree(a, kids, rest) =>
      if k.level > a.level {
        before, after := Leaf, f;
        BelowHead(f, k.level);
      } else {
        var b, c := InsertIsStable(rest, k);
        before, after := Tree(a, kids, b), c;
      }
  }

  lemma BelowHead(f: Forest, hi: int)
    requires Sorted(f) && (f.Tree? ==> f.key.level < hi)
    ensures AllBelow(f, hi)
  {
  }

  lemma {:induction false} InsertKeepsOthers(f: Forest, k: RuleKey, sigid: int)
    requires k.rule.sigid == sigid
    ensures Others(Insert(f, k), sigid) == Others(f, sigid)
    ensures Size(Insert(f, k)) == Size(f) + 1
  {
    if f.Tree? && k.level <= f.key.level {
      InsertKeepsOthers(f.rest, k, sigid);
    }
  }

  // ---------- adding a rule below the nodes that match ----------

  /** The tree after if_group or if_level: one new leaf below every node with property `p`. */
  function Graft(f: Forest, p: RuleKey -> bool, k: RuleKey): Forest {
    match f
    case Leaf => Leaf
    case Tree(a, kids, rest) =>
      Tree(a, if p(a) then Insert(Graft(kids, p, k), k) else Graft(kids, p, k), Graft(rest, p, k))
  }

  predicate Any(f: Forest, p: RuleKey -> bool) {
    match f
    case Leaf => false
    case Tree(a, kids, rest) => p(a) || Any(kids, p) || Any(rest, p)
  }

  /** Walking a child list that has just received the new leaf gives the same tree as walking it
      first, because the leaf itself never matches. */
  lemma {:induction false} GraftAfterInsert(f: Forest, p: RuleKey -> bool, k: RuleKey)
    requires !p(k)
    ensures Graft(Insert(f, k), p, k) == Insert(Graft(f, p, k), k)
    ensures Any(Insert(f, k), p) == Any(f, p)
  {
    if f.Tree? && k.level <= f.key.level {
      GraftAfterInsert(f.rest, p, k);
    }
  }

  /** The tree without the nodes of some rules, and without what is below them. */
  function Without(f: Forest, rules: set<RuleInfo>): Forest {
    match f
    case Leaf => Leaf
    case Tree(a, kids, rest) =>
      if a.rule in rules then Without(rest, rules) else Tree(a, Without(kids, rules), Without(rest, rules))
  }

  predicate Absent(f: Forest, rules: set<RuleInfo>) {
    match f
    case Leaf => true
    case Tree(a, kids, rest) => a.rule !in rules && Absent(kids, rules) && Absent(rest, rules)
  }

  predicate Only(f: Forest, rules: set<RuleInfo>) {
    match f
    case Leaf => true
    case Tree(a, kids, rest) => a.rule in rules && Only(kids, rules) && Only(rest, rules)
  }

  /** Below a node of these rules there are only nodes of these rules, so `Without` drops no other. */
  predicate Enclosed(f: Forest, rules: set<RuleInfo>) {
    match f
    case Leaf => true
    case Tree(a, kids, rest) =>
      (a.rule in rules ==> Only(kids, rules)) && Enclosed(kids, rules) && Enclosed(rest, rules)
  }

  /** Every node of rule `r` is a leaf. */
  predicate OnlyAsLeaf(f: Forest, r: RuleInfo) {
    match f
    case Leaf => true
    case Tree(a, kids, rest) => (a.rule == r ==> kids.Leaf?) && OnlyAsLeaf(kids, r) && OnlyAsLeaf(rest, r)
  }

  function Occurrences(f: Forest, r: RuleInfo): nat {
    match f
    case Leaf => 0
    case Tree(a, kids, rest) => (if a.rule == r then 1 else 0) + Occurrences(kids, r) + Occurrences(rest, r)
  }

  function Matches(f: Forest, p: RuleKey -> bool): nat {
    match f
    case Leaf => 0
    case Tree(a, kids, rest) => (if p(a) then 1 else 0) + Matches(kids, p) + Matches(rest, p)
  }

  /** The siblings that carry rule `r`. */
  function Direct(f: Forest, r: RuleInfo): nat {
    if f.Leaf? then 0 else (if f.key.rule == r then 1 else 0) + Direct(f.rest, r)
  }

  /** Every node of another rule has one child of rule `r` if it has property `p`, and none if it has not. */
  predicate OneBelowEach(f: Forest, p: RuleKey -> bool, r: RuleInfo) {
    match f
    case Leaf => true
    case Tree(a, kids, rest) =>
      && (a.rule != r ==> Direct(kids, r) == if p(a) then 1 else 0)
      && OneBelowEach(kids, p, r) && OneBelowEach(rest, p, r)
  }

  lemma {:induction false} WithoutAbsent(f: Forest, rules: set<RuleInfo>)
    requires Absent(f, rules)
    ensures Without(f, rules) == f && Enclosed(f, rules)
    ensures forall r | r in rules :: OnlyAsLeaf(f, r) && Occurrences(f, r) == 0 && Direct(f, r) == 0
  {
    if f.Tree? {
      WithoutAbsent(f.kids, rules);
      WithoutAbsent(f.rest, rules);
    }
  }

  lemma {:induction false} InsertKeepsRest(f: Forest, k: RuleKey)
    ensures Without(Insert(f, k), {k.rule}) == Without(f, {k.rule})
    ensures OnlyAsLeaf(f, k.rule) ==> OnlyAsLeaf(Insert(f, k), k.rule)
    ensures Occurrences(Insert(f, k), k.rule) == Occurrences(f, k.rule) + 1
    ensures Direct(Insert(f, k), k.rule) == Direct(f, k.rule) + 1
  {
    if f.Tree? && k.level <= f.key.level {
      InsertKeepsRest(f.rest, k);
    }
  }

  lemma {:induction false} InsertKeepsOneBelowEach(f: Forest, p: RuleKey -> bool, k: RuleKey)
    ensures OneBelowEach(Insert(f, k), p, k.rule) == OneBelowEach(f, p, k.rule)
  {
    if f.Tree? && k.level <= f.key.level {
      InsertKeepsOneBelowEach(f.rest, p, k);
    }
  }

  /** if_group and if_level give the new rule exactly one leaf below every matching node and none
      anywhere else, and leave the rest of the tree as it was. */
  lemma {:induction false} GraftAddsExactly(f: Forest, p: RuleKey -> bool, k: RuleKey)
    requires Absent(f, {k.rule})
    ensures Without(Graft(f, p, k), {k.rule}) == f
    ensures OnlyAsLeaf(Graft(f, p, k), k.rule)
    ensures Direct(Graft(f, p, k), k.rule) == 0 && OneBelowEach(Graft(f, p, k), p, k.rule)
    ensures Occurrences(Graft(f, p, k), k.rule) == Matches(f, p)
  {
    if f.Tree? {
      GraftAddsExactly(f.kids, p, k);
      GraftAddsExactly(f.rest, p, k);
      InsertKeepsRest(Graft(f.kids, p, k), k);
      InsertKeepsOneBelowEach(Graft(f.kids, p, k), p, k);
    }
  }

  /** The tree `g` is `f` with one leaf of rule `r` below every node with property `p`, and none elsewhere. */
  predicate HungBelow(f: Forest, g: Forest, r: RuleInfo, p: RuleKey -> bool) {
    && Without(g, {r}) == f && OnlyAsLeaf(g, r)
    && Direct(g, r) == 0 && OneBelowEach(g, p, r)
  }

  lemma {:induction false} SameProperty(f: Forest, p: RuleKey -> bool, q: RuleKey -> bool, r: RuleInfo)
    requires forall a :: p(a) == q(a)
    ensures OneBelowEach(f, p, r) == OneBelowEach(f, q, r)
  {
    if f.Tree? {
      SameProperty(f.kids, p, q, r);
      SameProperty(f.rest, p, q, r);
    }
  }

  lemma {:induction false} AnyIsSomeNode(f: Forest, p: RuleKey -> bool)
    ensures Any(f, p) <==> exists a | a in Keys(f) :: p(a)
  {
    if f.Tree? {
      AnyIsSomeNode(f.kids, p);
      AnyIsSomeNode(f.rest, p);
    }
  }

  lemma {:induction false} GraftKeepsSorted(f: Forest, p: RuleKey -> bool, k: RuleKey)
    requires Sorted(f)
    ensures Sorted(Graft(f, p, k))
  {
    if f.Tree? {
      GraftKeepsSorted(f.kids, p, k);
      GraftKeepsSorted(f.rest, p, k);
      var _, _ := InsertIsStable(Graft(f.kids, p, k), k);
    }
  }

  // ---------- adding a rule below one id ----------

  /** The tree after one if_sid number.  A sibling list is left at its first node with that id, but
      the search then goes on after the ancestors of that list. */
  function GraftSid(f: Forest, sid: int, k: RuleKey): Forest {
    match f
    case Leaf => Leaf
    case Tree(a, kids, rest) =>
      if a.rule.sigid == sid then Tree(a, Insert(kids, k), rest)
      else Tree(a, GraftSid(kids, sid, k), GraftSid(rest, sid, k))
  }

  predicate HasSid(f: Forest, sid: int) {
    match f
    case Leaf => false
    case Tree(a, kids, rest) => a.rule.sigid == sid || HasSid(kids, sid) || HasSid(rest, sid)
  }

  /** The parents a walk for `sid` finds, in the order it finds them. */
  function SidParents(f: Forest, sid: int): seq<RuleKey> {
    match f
    case Leaf => []
    case Tree(a, kids, rest) =>
      if a.rule.sigid == sid then [a] else SidParents(kids, sid) + SidParents(rest, sid)
  }

  /** The parents a walk for `p` finds, in the order it finds them: a node before its children. */
  function Accepted(f: Forest, p: RuleKey -> bool): seq<RuleKey> {
    match f
    case Leaf => []
    case Tree(a, kids, rest) => (if p(a) then [a] else []) + Accepted(kids, p) + Accepted(rest, p)
  }

  lemma {:induction false} AcceptedAlike(f: Forest, p: RuleKey -> bool, q: RuleKey -> bool)
    requires forall a :: p(a) == q(a)
    ensures Accepted(f, p) == Accepted(f, q)
  {
    if f.Tree? {
      AcceptedAlike(f.kids, p, q);
      AcceptedAlike(f.rest, p, q);
    }
  }

  lemma {:induction false} AcceptedAfterInsert(f: Forest, p: RuleKey -> bool, k: RuleKey)
    requires !p(k)
    ensures Accepted(Insert(f, k), p) == Accepted(f, p)
  {
    if f.Tree? && k.level <= f.key.level {
      AcceptedAfterInsert(f.rest, p, k);
    }
  }

  /** if_sid adds at least one leaf when the id is in the tree, nothing when it is not, and leaves the
      rest of the tree as it was; a rule that does not name its own id stays a leaf everywhere. */
  lemma {:induction false} GraftSidAdds(f: Forest, sid: int, k: RuleKey)
    ensures Without(GraftSid(f, sid, k), {k.rule}) == Without(f, {k.rule})
    ensures k.rule.sigid != sid && OnlyAsLeaf(f, k.rule) ==> OnlyAsLeaf(GraftSid(f, sid, k), k.rule)
    ensures HasSid(f, sid) ==> Occurrences(GraftSid(f, sid, k), k.rule) > Occurrences(f, k.rule)
    ensures !HasSid(f, sid) ==> GraftSid(f, sid, k) == f
  {
    if f.Tree? {
      if f.key.rule.sigid == sid {
        InsertKeepsRest(f.kids, k);
      } else {
        GraftSidAdds(f.kids, sid, k);
        GraftSidAdds(f.rest, sid, k);
        GraftSidMonotone(f.kids, sid, k);
        GraftSidMonotone(f.rest, sid, k);
      }
    }
  }

  /** A node of another rule has at most one child of rule `r`, and only if it carries the id. */
  predicate OnlyBelowSid(f: Forest, sid: int, r: RuleInfo) {
    match f
    case Leaf => true
    case Tree(a, kids, rest) =>
      && (a.rule != r ==> Direct(kids, r) <= if a.rule.sigid == sid then 1 else 0)
      && OnlyBelowSid(kids, sid, r) && OnlyBelowSid(rest, sid, r)
  }

  /** The leaves of one if_sid id hang below nodes with that id, one each. */
  lemma {:induction false} GraftSidPlaces(f: Forest, sid: int, k: RuleKey)
    requires Absent(f, {k.rule})
    ensures Direct(GraftSid(f, sid, k), k.rule) == 0 && OnlyBelowSid(GraftSid(f, sid, k), sid, k.rule)
  {
    if f.Tree? {
      if f.key.rule.sigid == sid {
        AbsentBelowSid(f.kids, sid, k.rule);
        AbsentBelowSid(f.rest, sid, k.rule);
        InsertKeepsRest(f.kids, k);
        InsertBelowSid(f.kids, sid, k);
      } else {
        GraftSidPlaces(f.kids, sid, k);
        GraftSidPlaces(f.rest, sid, k);
      }
    }
  }

  lemma {:induction false} AbsentBelowSid(f: Forest, sid: int, r: RuleInfo)
    requires Absent(f, {r})
    ensures Direct(f, r) == 0 && OnlyBelowSid(f, sid, r)
  {
    if f.Tree? {
      AbsentBelowSid(f.kids, sid, r);
      AbsentBelowSid(f.rest, sid, r);
    }
  }

  lemma {:induction false} InsertBelowSid(f: Forest, sid: int, k: RuleKey)
    ensures OnlyBelowSid(Insert(f, k), sid, k.rule) == OnlyBelowSid(f, sid, k.rule)
  {
    if f.Tree? && k.level <= f.key.level {
      InsertBelowSid(f.rest, sid, k);
    }
  }

  lemma {:induction false} GraftSidMonotone(f: Forest, sid: int, k: RuleKey)
    ensures Occurrences(GraftSid(f, sid, k), k.rule) >= Occurrences(f, k.rule)
  {
    if f.Tree? {
      if f.key.rule.sigid == sid {
        InsertKeepsRest(f.kids, k);
      } else {
        GraftSidMonotone(f.kids, sid, k);
        GraftSidMonotone(f.rest, sid, k);
      }
    }
  }

  lemma {:induction false} GraftSidKeepsSorted(f: Forest, sid: int, k: RuleKey)
    requires Sorted(f)
    ensures Sorted(GraftSid(f, sid, k))
  {
    if f.Tree? {
      if f.key.rule.sigid == sid {
        var _, _ := InsertIsStable(f.kids, k);
      } else {
        GraftSidKeepsSorted(f.kids, sid, k);
        GraftSidKeepsSorted(f.rest, sid, k);
      }
    }
  }

  function CountSid(f: Forest, sid: int): nat {
    match f
    case Leaf => 0
    case Tree(a, kids, rest) => (if a.rule.sigid == sid then 1 else 0) + CountSid(kids, sid) + CountSid(rest, sid)
  }

  /** No node with the id lies below, or in the same sibling list after, a node with the id at which
      the search stops. */
  predicate NoneSkipped(f: Forest, sid: int) {
    match f
    case Leaf => true
    case Tree(a, kids, rest) =>
      if a.rule.sigid == sid then !HasSid(kids, sid) && !HasSid(rest, sid)
      else NoneSkipped(kids, sid) && NoneSkipped(rest, sid)
  }

  /** The new rule hangs below every node of its if_sid parent exactly when no such node is skipped. */
  lemma {:induction false} GraftSidReachesAll(f: Forest, sid: int, k: RuleKey)
    ensures Occurrences(GraftSid(f, sid, k), k.rule) <= Occurrences(f, k.rule) + CountSid(f, sid)
    ensures Occurrences(GraftSid(f, sid, k), k.rule) == Occurrences(f, k.rule) + CountSid(f, sid)
            <==> NoneSkipped(f, sid)
  {
    if f.Tree? {
      if f.key.rule.sigid == sid {
        InsertKeepsRest(f.kids, k);
        CountIsZero(f.kids, sid);
        CountIsZero(f.rest, sid);
      } else {
        GraftSidReachesAll(f.kids, sid, k);
        GraftSidReachesAll(f.rest, sid, k);
      }
    }
  }

  lemma CountIsZero(f: Forest, sid: int)
    ensures CountSid(f, sid) == 0 <==> !HasSid(f, sid)
  {
  }

  // ---------- adding a rule by category ----------

  /** The tree with the new leaf below the `n`-th root. */
  function GraftRoot(f: Forest, n: nat, k: RuleKey): Forest {
    match f
    case Leaf => Leaf
    case Tree(a, kids, rest) =>
      if n == 0 then Tree(a, Insert(kids, k), rest) else Tree(a, kids, GraftRoot(rest, n - 1, k))
  }

  function Length(f: Forest): nat {
    if f.Leaf? then 0 else 1 + Length(f.rest)
  }

  lemma {:induction false} GraftRootKeeps(f: Forest, n: nat, k: RuleKey)
    requires n < Length(f)
    ensures Without(GraftRoot(f, n, k), {k.rule}) == Without(f, {k.rule})
    ensures Occurrences(GraftRoot(f, n, k), k.rule) == Occurrences(f, k.rule) + 1
    ensures OnlyAsLeaf(f, k.rule) && Direct(f, k.rule) == 0 ==> OnlyAsLeaf(GraftRoot(f, n, k), k.rule)
    ensures Sorted(f) ==> Sorted(GraftRoot(f, n, k))
  {
    if n == 0 {
      InsertKeepsRest(f.kids, k);
      if Sorted(f) {
        var _, _ := InsertIsStable(f.kids, k);
      }
    } else {
      GraftRootKeeps(f.rest, n - 1, k);
    }
  }

  function Roots(f: Forest): (r: seq<RuleKey>)
    ensures |r| == Length(f)
  {
    if f.Leaf? then [] else [f.key] + Roots(f.rest)
  }

  /** The children of root `n`. */
  function Below(f: Forest, n: nat): Forest
    requires n < Length(f)
  {
    if n == 0 then f.kids else Below(f.rest, n - 1)
  }

  /** The new leaf is among the children of that root, and nothing else changes. */
  lemma {:induction false} GraftRootPlaces(f: Forest, n: nat, k: RuleKey)
    requires n < Length(f)
    ensures var g := GraftRoot(f, n, k);
            && Roots(g) == Roots(f)
            && forall m :: 0 <= m < Length(f) ==> Below(g, m) == if m == n then Insert(Below(f, n), k) else Below(f, m)
  {
    if n > 0 {
      GraftRootPlaces(f.rest, n - 1, k);
    }
  }

  // ---------- every load ----------

  /** One completed walk of the loader over the tree. */
  datatype LoadStep =
    | AtTop(k: RuleKey)
    | BelowMatching(p: RuleKey -> bool, k: RuleKey)
    | BelowSid(sid: int, k: RuleKey)
    | BelowRoot(n: nat, k: RuleKey)

  function Load(f: Forest, s: LoadStep): Forest {
    match s
    case AtTop(k) => Insert(f, k)
    case BelowMatching(p, k) => Graft(f, p, k)
    case BelowSid(sid, k) => GraftSid(f, sid, k)
    case BelowRoot(n, k) => if n < Length(f) then GraftRoot(f, n, k) else f
  }

  /** The step finds a node to add below. */
  predicate FindsParent(f: Forest, s: LoadStep) {
    match s
    case AtTop(_) => true
    case BelowMatching(p, _) => Any(f, p)
    case BelowSid(sid, _) => HasSid(f, sid)
    case BelowRoot(n, _) => n < Length(f)
  }

  /** A step changes the tree exactly when it finds a parent. */
  lemma {:induction false} LoadChangesIff(f: Forest, s: LoadStep)
    ensures Size(Load(f, s)) > Size(f) <==> FindsParent(f, s)
    ensures !FindsParent(f, s) ==> Load(f, s) == f
  {
    match s
    case AtTop(k) =>
      InsertKeepsOthers(f, k, k.rule.sigid);
    case BelowMatching(p, k) =>
      GraftGrowsIff(f, p, k);
    case BelowSid(sid, k) =>
      GraftSidGrowsIff(f, sid, k);
    case BelowRoot(n, k) =>
      GraftRootGrowsIff(f, n, k);
  }

  lemma {:induction false} GraftGrowsIff(f: Forest, p: RuleKey -> bool, k: RuleKey)
    ensures Size(Graft(f, p, k)) >= Size(f)
    ensures Size(Graft(f, p, k)) > Size(f) <==> Any(f, p)
    ensures !Any(f, p) ==> Graft(f, p, k) == f
  {
    if f.Tree? {
      GraftGrowsIff(f.kids, p, k);
      GraftGrowsIff(f.rest, p, k);
      InsertKeepsOthers(Graft(f.kids, p, k), k, k.rule.sigid);
    }
  }

  lemma {:induction false} GraftSidGrowsIff(f: Forest, sid: int, k: RuleKey)
    ensures Size(GraftSid(f, sid, k)) >= Size(f)
    ensures Size(GraftSid(f, sid, k)) > Size(f) <==> HasSid(f, sid)
    ensures !HasSid(f, sid) ==> GraftSid(f, sid, k) == f
  {
    if f.Tree? {
      if f.key.rule.sigid == sid {
        InsertKeepsOthers(f.kids, k, k.rule.sigid);
      } else {
        GraftSidGrowsIff(f.kids, sid, k);
        GraftSidGrowsIff(f.rest, sid, k);
      }
    }
  }

  lemma {:induction false} GraftRootGrowsIff(f: Forest, n: nat, k: RuleKey)
    ensures n < Length(f) ==> Size(GraftRoot(f, n, k)) == Size(f) + 1
  {
    if f.Tree? {
      if n == 0 {
        InsertKeepsOthers(f.kids, k, k.rule.sigid);
      } else {
        GraftRootGrowsIff(f.rest, n - 1, k);
      }
    }
  }

  function LoadAll(steps: seq<LoadStep>): Forest {
    if steps == [] then Leaf else Load(LoadAll(steps[..|steps| - 1]), steps[|steps| - 1])
  }

  /** Whatever rules are loaded in whatever order, every sibling list at every depth is sorted by level. */
  lemma {:induction false} LoadedTreeIsSorted(steps: seq<LoadStep>)
    ensures Sorted(LoadAll(steps))
  {
    if steps != [] {
      var f := LoadAll(steps[..|steps| - 1]);
      LoadedTreeIsSorted(steps[..|steps| - 1]);
      match steps[|steps| - 1]
      case AtTop(k) =>
        var _, _ := InsertIsStable(f, k);
      case BelowMatching(p, k) =>
        GraftKeepsSorted(f, p, k);
      case BelowSid(sid, k) =>
        GraftSidKeepsSorted(f, sid, k);
      case BelowRoot(n, k) =>
        if n < Length(f) {
          GraftRootKeeps(f, n, k);
        }
    }
  }

  // ---------- whole runs of the loader ----------

  function RulesIn(steps: seq<LoadStep>): (r: set<RuleInfo>)
    ensures forall i :: 0 <= i < |steps| ==> steps[i].k.rule in r
  {
    set i | 0 <= i < |steps| :: steps[i].k.rule
  }

  lemma {:induction false} InsertAside(f: Forest, k: RuleKey, rules: set<RuleInfo>)
    ensures k.rule in rules ==> Without(Insert(f, k), rules) == Without(f, rules)
    ensures k.rule in rules && Enclosed(f, rules) ==> Enclosed(Insert(f, k), rules)
    ensures k.rule in rules && Only(f, rules) ==> Only(Insert(f, k), rules)
    ensures k.rule !in rules && Absent(f, rules) ==> Absent(Insert(f, k), rules)
  {
    if f.Tree? && k.level <= f.key.level {
      InsertAside(f.rest, k, rules);
    }
  }

  lemma {:induction false} GraftAside(f: Forest, p: RuleKey -> bool, k: RuleKey, rules: set<RuleInfo>)
    ensures k.rule in rules ==> Without(Graft(f, p, k), rules) == Without(f, rules)
    ensures k.rule in rules && Enclosed(f, rules) ==> Enclosed(Graft(f, p, k), rules)
    ensures k.rule in rules && Only(f, rules) ==> Only(Graft(f, p, k), rules)
    ensures k.rule !in rules && Absent(f, rules) ==> Absent(Graft(f, p, k), rules)
  {
    if f.Tree? {
      GraftAside(f.kids, p, k, rules);
      GraftAside(f.rest, p, k, rules);
      InsertAside(Graft(f.kids, p, k), k, rules);
    }
  }

  lemma {:induction false} GraftSidAside(f: Forest, sid: int, k: RuleKey, rules: set<RuleInfo>)
    ensures k.rule in rules ==> Without(GraftSid(f, sid, k), rules) == Without(f, rules)
    ensures k.rule in rules && Enclosed(f, rules) ==> Enclosed(GraftSid(f, sid, k), rules)
    ensures k.rule in rules && Only(f, rules) ==> Only(GraftSid(f, sid, k), rules)
    ensures k.rule !in rules && Absent(f, rules) ==> Absent(GraftSid(f, sid, k), rules)
  {
    if f.Tree? {
      if f.key.rule.sigid == sid {
        InsertAside(f.kids, k, rules);
      } else {
        GraftSidAside(f.kids, sid, k, rules);
        GraftSidAside(f.rest, sid, k, rules);
      }
    }
  }

  lemma {:induction false} GraftRootAside(f: Forest, n: nat, k: RuleKey, rules: set<RuleInfo>)
    ensures k.rule in rules ==> Without(GraftRoot(f, n, k), rules) == Without(f, rules)
    ensures k.rule in rules && Enclosed(f, rules) ==> Enclosed(GraftRoot(f, n, k), rules)
    ensures k.rule !in rules && Absent(f, rules) ==> Absent(GraftRoot(f, n, k), rules)
  {
    if f.Tree? {
      if n == 0 {
        InsertAside(f.kids, k, rules);
      } else {
        GraftRootAside(f.rest, n - 1, k, rules);
      }
    }
  }

  /** A step for one of `rules` changes nothing outside their nodes, and a step for another adds none. */
  lemma LoadAside(f: Forest, s: LoadStep, rules: set<RuleInfo>)
    ensures s.k.rule in rules ==> Without(Load(f, s), rules) == Without(f, rules)
    ensures s.k.rule in rules && Enclosed(f, rules) ==> Enclosed(Load(f, s), rules)
    ensures s.k.rule !in rules && Absent(f, rules) ==> Absent(Load(f, s), rules)
  {
    match s
    case AtTop(k) =>
      InsertAside(f, k, rules);
    case BelowMatching(p, k) =>
      GraftAside(f, p, k, rules);
    case BelowSid(sid, k) =>
      GraftSidAside(f, sid, k, rules);
    case BelowRoot(n, k) =>
      GraftRootAside(f, n, k, rules);
  }

  lemma {:induction false} NotLoaded(steps: seq<LoadStep>, rules: set<RuleInfo>)
    requires RulesIn(steps) !! rules
    ensures Absent(LoadAll(steps), rules)
  {
    if steps != [] {
      var n := |steps| - 1;
      assert RulesIn(steps[..n]) <= RulesIn(steps);
      NotLoaded(steps[..n], rules);
      LoadAside(LoadAll(steps[..n]), steps[n], rules);
    }
  }

  /** Over any run of the loader, whenever the rules from step `i` on are new, they are only ever added:
      the final tree without them is the tree as it was before step `i`, node for node and in the same
      order, and below their nodes there are only nodes of their own. */
  lemma {:induction false} EarlierRulesStay(steps: seq<LoadStep>, i: nat)
    requires i <= |steps| && RulesIn(steps[..i]) !! RulesIn(steps[i..])
    ensures Without(LoadAll(steps), RulesIn(steps[i..])) == LoadAll(steps[..i])
    ensures Enclosed(LoadAll(steps), RulesIn(steps[i..]))
  {
    LaterRulesAside(steps, i, RulesIn(steps[i..]));
  }

  lemma {:induction false} LaterRulesAside(steps: seq<LoadStep>, i: nat, rules: set<RuleInfo>)
    requires i <= |steps| && RulesIn(steps[..i]) !! rules && RulesIn(steps[i..]) <= rules
    ensures Without(LoadAll(steps), rules) == LoadAll(steps[..i]) && Enclosed(LoadAll(steps), rules)
    decreases |steps|
  {
    var n := |steps| - 1;
    if i == |steps| {
      assert steps[..i] == steps;
      NotLoaded(steps, rules);
      WithoutAbsent(LoadAll(steps), rules);
    } else {
      assert steps[..n][..i] == steps[..i] && steps[i..][n - i] == steps[n];
      assert RulesIn(steps[..n][i..]) <= rules by {
        assert forall j :: 0 <= j < n - i ==> steps[..n][i..][j] == steps[i..][j];
      }
      LaterRulesAside(steps[..n], i, rules);
      LoadAside(LoadAll(steps[..n]), steps[n], rules);
    }
  }

  /** Siblings come by descending level, and siblings of one level in the order of `ord`. */
  predicate InOrder(f: Forest, ord: RuleInfo -> int) {
    match f
    case Leaf => true
    case Tree(a, kids, rest) =>
      && (rest.Tree? ==> a.level > rest.key.level || (a.level == rest.key.level && ord(a.rule) <= ord(rest.key.rule)))
      && InOrder(kids, ord) && InOrder(rest, ord)
  }

  predicate AllBefore(f: Forest, ord: RuleInfo -> int, n: int) {
    match f
    case Leaf => true
    case Tree(a, kids, rest) => ord(a.rule) <= n && AllBefore(kids, ord, n) && AllBefore(rest, ord, n)
  }

  lemma {:induction false} InsertInOrder(f: Forest, k: RuleKey, ord: RuleInfo -> int, n: int)
    requires InOrder(f, ord) && AllBefore(f, ord, ord(k.rule)) && ord(k.rule) <= n
    ensures InOrder(Insert(f, k), ord)
    ensures AllBefore(Insert(f, k), ord, n)
  {
    AllBeforeLater(f, ord, ord(k.rule), n);
    if f.Tree? && k.level <= f.key.level {
      InsertInOrder(f.rest, k, ord, n);
    }
  }

  lemma AllBeforeLater(f: Forest, ord: RuleInfo -> int, m: int, n: int)
    requires AllBefore(f, ord, m) && m <= n
    ensures AllBefore(f, ord, n)
  {
  }

  lemma {:induction false} GraftInOrder(f: Forest, p: RuleKey -> bool, k: RuleKey, ord: RuleInfo -> int)
    requires InOrder(f, ord) && AllBefore(f, ord, ord(k.rule))
    ensures InOrder(Graft(f, p, k), ord) && AllBefore(Graft(f, p, k), ord, ord(k.rule))
  {
    if f.Tree? {
      GraftInOrder(f.kids, p, k, ord);
      GraftInOrder(f.rest, p, k, ord);
      InsertInOrder(Graft(f.kids, p, k), k, ord, ord(k.rule));
    }
  }

  lemma {:induction false} GraftSidInOrder(f: Forest, sid: int, k: RuleKey, ord: RuleInfo -> int)
    requires InOrder(f, ord) && AllBefore(f, ord, ord(k.rule))
    ensures InOrder(GraftSid(f, sid, k), ord) && AllBefore(GraftSid(f, sid, k), ord, ord(k.rule))
  {
    if f.Tree? {
      if f.key.rule.sigid == sid {
        InsertInOrder(f.kids, k, ord, ord(k.rule));
      } else {
        GraftSidInOrder(f.kids, sid, k, ord);
        GraftSidInOrder(f.rest, sid, k, ord);
      }
    }
  }

  lemma {:induction false} GraftRootInOrder(f: Forest, n: nat, k: RuleKey, ord: RuleInfo -> int)
    requires InOrder(f, ord) && AllBefore(f, ord, ord(k.rule))
    ensures InOrder(GraftRoot(f, n, k), ord) && AllBefore(GraftRoot(f, n, k), ord, ord(k.rule))
  {
    if f.Tree? {
      if n == 0 {
        InsertInOrder(f.kids, k, ord, ord(k.rule));
      } else {
        GraftRootInOrder(f.rest, n - 1, k, ord);
      }
    }
  }

  /** `ord` numbers the rules as they are loaded. */
  predicate LoadOrder(steps: seq<LoadStep>, ord: RuleInfo -> int) {
    forall i, j :: 0 <= i < j < |steps| ==> ord(steps[i].k.rule) <= ord(steps[j].k.rule)
  }

  /** Over any run of the loader, every sibling list at every depth is sorted by level, and equal levels
      are in the order in which their rules were loaded. */
  lemma {:induction false} LoadedTreeIsStable(steps: seq<LoadStep>, ord: RuleInfo -> int)
    requires LoadOrder(steps, ord)
    ensures InOrder(LoadAll(steps), ord)
    ensures steps != [] ==> AllBefore(LoadAll(steps), ord, ord(steps[|steps| - 1].k.rule))
  {
    if steps != [] {
      var n := |steps| - 1;
      var f, s := LoadAll(steps[..n]), steps[n];
      LoadedTreeIsStable(steps[..n], ord);
      if n > 0 {
        AllBeforeLater(f, ord, ord(steps[n - 1].k.rule), ord(s.k.rule));
      }
      match s
      case AtTop(k) =>
        InsertInOrder(f, k, ord, ord(k.rule));
      case BelowMatching(p, k) =>
        GraftInOrder(f, p, k, ord);
      case BelowSid(sid, k) =>
        GraftSidInOrder(f, sid, k, ord);
      case BelowRoot(_, k) =>
        GraftRootInOrder(f, s.n, k, ord);
    }
  }

  // ---------- one rule after the other ----------

  /** The steps of the rules, each rule with all of its walks. */
  function Flatten(batches: seq<seq<LoadStep>>): seq<LoadStep> {
    if batches == [] then [] else Flatten(batches[..|batches| - 1]) + batches[|batches| - 1]
  }

  lemma {:induction false} InFlatten(batches: seq<seq<LoadStep>>, s: LoadStep) returns (b: nat)
    requires s in Flatten(batches)
    ensures b < |batches| && s in batches[b]
  {
    var n := |batches| - 1;
    if s in batches[n] {
      b := n;
    } else {
      b := InFlatten(batches[..n], s);
    }
  }

  lemma {:induction false} FlattenSplit(batches: seq<seq<LoadStep>>, i: nat)
    requires i <= |batches|
    ensures Flatten(batches) == Flatten(batches[..i]) + Flatten(batches[i..])
  {
    var n := |batches| - 1;
    if i == |batches| {
      assert batches[..i] == batches;
    } else {
      FlattenSplit(batches[..n], i);
      assert batches[..n][..i] == batches[..i];
      assert batches[i..][..n - i] == batches[..n][i..];
    }
  }

  /** The loader finishes a rule before it goes on to the next one, and loads no rule twice. */
  predicate NoRuleTwice(batches: seq<seq<LoadStep>>) {
    forall a, b :: 0 <= a < b < |batches| ==> RulesIn(batches[a]) !! RulesIn(batches[b])
  }

  /** For every number of rules loaded: their tree is what remains of the final one without the others. */
  lemma EarlierBatchesStay(batches: seq<seq<LoadStep>>, i: nat)
    requires NoRuleTwice(batches) && i <= |batches|
    ensures var later := RulesIn(Flatten(batches[i..]));
            && Without(LoadAll(Flatten(batches)), later) == LoadAll(Flatten(batches[..i]))
            && Enclosed(LoadAll(Flatten(batches)), later)
  {
    hide LoadAll, Without, Enclosed, RulesIn, Flatten;
    FlattenSplit(batches, i);
    var early, late := Flatten(batches[..i]), Flatten(batches[i..]);
    EarlierApart(batches, i);
    assert (early + late)[..|early|] == early && (early + late)[|early|..] == late;
    EarlierRulesStay(early + late, |early|);
  }

  lemma EarlierApart(batches: seq<seq<LoadStep>>, i: nat)
    requires NoRuleTwice(batches) && i <= |batches|
    ensures RulesIn(Flatten(batches[..i])) !! RulesIn(Flatten(batches[i..]))
  {
    hide Flatten;
    var early, late := Flatten(batches[..i]), Flatten(batches[i..]);
    forall m, n | 0 <= m < |early| && 0 <= n < |late|
      ensures early[m].k.rule != late[n].k.rule
    {
      var a := InFlatten(batches[..i], early[m]);
      var b := InFlatten(batches[i..], late[n]);
      assert early[m].k.rule in RulesIn(batches[a]) && late[n].k.rule in RulesIn(batches[i + b]);
    }
  }

  /** Equal levels are in the order of the rules' numbers. */
  lemma {:induction false} BatchesInOrder(batches: seq<seq<LoadStep>>, ord: RuleInfo -> int)
    requires forall b, s | 0 <= b < |batches| && s in batches[b] :: ord(s.k.rule) == b
    ensures InOrder(LoadAll(Flatten(batches)), ord)
  {
    NumberedOrder(batches, ord);
    LoadedTreeIsStable(Flatten(batches), ord);
  }

  lemma {:induction false} NumberedOrder(batches: seq<seq<LoadStep>>, ord: RuleInfo -> int)
    requires forall b, s | 0 <= b < |batches| && s in batches[b] :: ord(s.k.rule) == b
    ensures LoadOrder(Flatten(batches), ord)
    ensures forall s | s in Flatten(batches) :: ord(s.k.rule) < |batches|
  {
    if batches != [] {
      var n := |batches| - 1;
      NumberedOrder(batches[..n], ord);
      var early, late := Flatten(batches[..n]), batches[n];
      var steps := early + late;
      forall i, j | 0 <= i < j < |steps|
        ensures ord(steps[i].k.rule) <= ord(steps[j].k.rule)
      {
        if j >= |early| {
          assert late[j - |early|] in late;
          if i < |early| {
            assert early[i] in early;
          } else {
            assert late[i - |early|] in late;
          }
        }
      }
    }
  }
}
