/** Which rule an event fires: the recursive matcher of src/analysisd/analysisd.c:1059-1642.

    The conditions of one rule (lines 1079-1604) are a predicate `m` on rules; what is modelled is how
    the matcher walks the tree with it. */
module RuleMatch {
  import opened Entities
  import opened Forests

  /** The result of the matcher at a node with children `kids`. */
  function NodeResult(k: RuleKey, kids: Forest, m: RuleInfo -> bool): Option<RuleInfo>
    decreases kids, 1
  {
    if !m(k.rule) then None
    else
      match ListResult(kids, m)
      case Some(r) => Some(r)
      case None => if k.rule.noAlert then None else Some(k.rule)
  }

  /** The first result among siblings. */
  function ListResult(f: Forest, m: RuleInfo -> bool): Option<RuleInfo>
    decreases f, 0
  {
    match f
    case Leaf => None
    case Tree(k, kids, rest) =>
      match NodeResult(k, kids, m)
      case Some(r) => Some(r)
      case None => ListResult(rest, m)
  }

  // ---------- an independent reading: paths ----------

  /** A path gives the position among the siblings at every depth, from the roots down. */
  type Path = seq<nat>

  function Later(p: Path): Path
    requires p != [] && p[0] > 0
  {
    [p[0] - 1] + p[1..]
  }

  /** The rule at the end of a path. */
  function At(f: Forest, p: Path): Option<RuleInfo> {
    match f
    case Leaf => None
    case Tree(k, kids, rest) =>
      if p == [] then None
      else if p[0] > 0 then At(rest, Later(p))
      else if |p| == 1 then Some(k.rule)
      else At(kids, p[1..])
  }

  /** The path exists and every rule on it matches. */
  predicate Reached(f: Forest, p: Path, m: RuleInfo -> bool) {
    match f
    case Leaf => false
    case Tree(k, kids, rest) =>
      && p != []
      && if p[0] > 0 then Reached(rest, Later(p), m)
         else m(k.rule) && (|p| == 1 || Reached(kids, p[1..], m))
  }

  predicate Alerting(f: Forest, p: Path, m: RuleInfo -> bool) {
    Reached(f, p, m) && At(f, p).Some? && !At(f, p).value.noAlert
  }

  /** Children before their parent, earlier siblings and all below them before later ones. */
  predicate Earlier(p: Path, q: Path) {
    && p != [] && q != []
    && if p[0] != q[0] then p[0] < q[0]
       else |p| > 1 && (|q| == 1 || Earlier(p[1..], q[1..]))
  }

  /** `p` is the earliest path on which every rule matches and that ends in a rule that may alert. */
  ghost predicate IsFirst(f: Forest, p: Path, m: RuleInfo -> bool) {
    Alerting(f, p, m) && forall q :: Alerting(f, q, m) && q != p ==> Earlier(p, q)
  }

  lemma {:induction false} NoResult(f: Forest, m: RuleInfo -> bool, p: Path)
    requires ListResult(f, m).None?
    ensures !Alerting(f, p, m)
  {
    if f.Tree? && p != [] {
      if p[0] > 0 {
        NoResult(f.rest, m, Later(p));
      } else if |p| > 1 && m(f.key.rule) {
        NoResult(f.kids, m, p[1..]);
      }
    }
  }

  lemma {:induction false} FirstResult(f: Forest, m: RuleInfo -> bool) returns (p: Path)
    requires ListResult(f, m).Some?
    ensures IsFirst(f, p, m) && At(f, p) == ListResult(f, m)
  {
    if NodeResult(f.key, f.kids, m).None? {
      var u := FirstResult(f.rest, m);
      p := [u[0] + 1] + u[1..];
      assert Later(p) == u;
      forall q | Alerting(f, q, m) && q != p
        ensures Earlier(p, q)
      {
        HeadGivesNothing(f, m, q);
        assert Later(q) != u by { assert q == [Later(q)[0] + 1] + Later(q)[1..]; }
        assert Earlier(u, Later(q));
      }
    } else if ListResult(f.kids, m).Some? {
      var u := FirstResult(f.kids, m);
      p := [0] + u;
      assert p[1..] == u;
      forall q | Alerting(f, q, m) && q != p
        ensures Earlier(p, q)
      {
        if q[0] == 0 && |q| > 1 {
          assert q == [0] + q[1..];
          assert Alerting(f.kids, q[1..], m);
        }
      }
    } else {
      p := [0];
      forall q | Alerting(f, q, m) && q != p
        ensures Earlier(p, q)
      {
        if q[0] == 0 {
          assert |q| > 1;
          NoResult(f.kids, m, q[1..]);
        }
      }
    }
  }

  lemma HeadGivesNothing(f: Forest, m: RuleInfo -> bool, q: Path)
    requires f.Tree? && NodeResult(f.key, f.kids, m).None? && Alerting(f, q, m)
    ensures q[0] > 0 && Alerting(f.rest, Later(q), m)
  {
    if q[0] == 0 && |q| > 1 {
      NoResult(f.kids, m, q[1..]);
    }
  }

  /** The matcher returns the rule of the first alerting path, and nothing exactly when there is none. */
  lemma MatcherIsFirst(f: Forest, m: RuleInfo -> bool)
    ensures ListResult(f, m).Some? <==> exists p :: Alerting(f, p, m)
    ensures forall p | IsFirst(f, p, m) :: ListResult(f, m) == At(f, p)
  {
    if ListResult(f, m).Some? {
      var u := FirstResult(f, m);
      forall p | IsFirst(f, p, m)
        ensures ListResult(f, m) == At(f, p)
      {
        if p != u {
          EarlierIsStrict(p, u);
        }
      }
    } else {
      forall p
        ensures !Alerting(f, p, m)
      {
        NoResult(f, m, p);
      }
    }
  }

  lemma {:induction false} EarlierIsStrict(p: Path, q: Path)
    ensures !(Earlier(p, q) && Earlier(q, p))
  {
    if p != [] && q != [] && p[0] == q[0] && |p| > 1 && |q| > 1 {
      EarlierIsStrict(p[1..], q[1..]);
    }
  }
}
