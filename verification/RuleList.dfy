/** The global rule list and its loading functions (src/analysisd/rules_list.c). */
module RuleLists {
  import opened Entities
  import opened Forests
  import opened RuleTree
  import opened CStrings

  // ---------- the if_sid option ----------

  predicate IsSeparator(c: char) { c == ',' || c == ' ' }

  /** The ids `OS_AddChild` reads from an if_sid text, up to its end or the first character at which it
      exits.  `inNumber` says that the number at the current position has been read already.  The
      terminating NUL is treated like a digit, so a text that ends outside a number yields a last id 0. */
  function Ids(s: string, inNumber: bool): seq<int>
    decreases |s|
  {
    if s == [] then if inNumber then [] else [Atoi(s)]
    else if IsSeparator(s[0]) then Ids(s[1..], false)
    else if IsDigit(s[0]) then (if inNumber then [] else [Atoi(s)]) + Ids(s[1..], true)
    else []
  }

  /** No character of the text makes `OS_AddChild` exit. */
  predicate Clean(s: string) { forall i :: 0 <= i < |s| ==> IsSeparator(s[i]) || IsDigit(s[i]) }

  /** A rule is added by category as well (id 0) exactly when its if_sid text is empty, ends in a
      separator, or writes an id that is 0. */
  lemma {:induction false} TrailingSeparator(s: string, inNumber: bool)
    requires Clean(s)
    ensures var open := if s == [] then !inNumber else IsSeparator(s[|s| - 1]);
            0 in Ids(s, inNumber) <==> open || !WrittenIdsPositive(s, inNumber)
  {
    if s != [] {
      TrailingSeparator(s[1..], IsDigit(s[0]));
      assert |s| > 1 ==> s[1..][|s| - 2] == s[|s| - 1];
      assert Ids(s, inNumber)
          == (if IsDigit(s[0]) && !inNumber then [Atoi(s)] else []) + Ids(s[1..], IsDigit(s[0]));
    }
  }

  /** Numbers with a comma, a space, or both between them. */
  function Written(ids: seq<nat>, between: string): string {
    if ids == [] then ""
    else if |ids| == 1 then Decimal(ids[0])
    else Decimal(ids[0]) + between + Written(ids[1..], between)
  }

  /** They are read back, in that order. */
  lemma {:induction false} IdsOfText(ids: seq<nat>, between: string)
    requires ids != [] && between in {",", " ", ", "}
    ensures Ids(Written(ids, between), false) == ids && Clean(Written(ids, between))
  {
    hide Written, Decimal, Ids;
    var d := Decimal(ids[0]);
    if |ids| == 1 {
      WrittenOne(ids[0], between);
      NumberRead(ids[0], "");
      IdsEnd();
      assert ids == [ids[0]] && ids == [ids[0]] + [];
      assert d + "" == d;
    } else {
      var rest := Written(ids[1..], between);
      IdsOfText(ids[1..], between);
      WrittenMore(ids, between);
      BetweenRead(between, rest);
      NumberRead(ids[0], between + rest);
      assert d + between + rest == d + (between + rest);
      assert ids == [ids[0]] + ids[1..];
    }
  }

  lemma WrittenOne(n: nat, between: string)
    ensures Written([n], between) == Decimal(n)
  {
  }

  lemma WrittenMore(ids: seq<nat>, between: string)
    requires |ids| > 1
    ensures Written(ids, between) == Decimal(ids[0]) + between + Written(ids[1..], between)
  {
  }

  lemma IdsEnd()
    ensures Ids("", true) == []
  {
  }

  lemma BetweenRead(between: string, rest: string)
    requires between in {",", " ", ", "} && Clean(rest)
    ensures Ids(between + rest, true) == Ids(rest, false) && Clean(between + rest)
  {
    var s := between + rest;
    if between == ", " {
      assert s[1..] == " " + rest && s[1..][1..] == rest;
    } else {
      assert s[1..] == rest;
    }
  }

  lemma NumberRead(n: nat, s: string)
    requires (s == "" || IsSeparator(s[0])) && Clean(s)
    ensures Ids(Decimal(n) + s, false) == [n] + Ids(s, true) && Clean(Decimal(n) + s)
  {
    hide Decimal;
    var d := Decimal(n);
    AtoiReads(n, s);
    assert (d + s)[0] == d[0] && (d + s)[1..] == d[1..] + s;
    DigitsSkipped(d[1..], s);
  }

  lemma {:induction false} DigitsSkipped(d: string, s: string)
    requires forall i :: 0 <= i < |d| ==> IsDigit(d[i])
    ensures Ids(d + s, true) == Ids(s, true)
    decreases |d|
  {
    if d == "" {
      assert d + s == s;
    } else {
      assert (d + s)[1..] == d[1..] + s;
      DigitsSkipped(d[1..], s);
      assert [] + Ids(d[1..] + s, true) == Ids(d[1..] + s, true);
    }
  }

  predicate WrittenIdsPositive(s: string, inNumber: bool) {
    s != [] ==>
      && (IsDigit(s[0]) && !inNumber ==> Atoi(s) != 0)
      && WrittenIdsPositive(s[1..], IsDigit(s[0]))
  }

  // ---------- the list ----------

  datatype Outcome = Added | Rejected | Exit

  // ---------- the if_sid loop ----------

  /** One step for each of the ids, in order. */
  ghost predicate StepsOf(ids: seq<int>, more: seq<LoadStep>, k: RuleKey) {
    && |more| == |ids|
    && forall i :: 0 <= i < |ids| ==>
                     if ids[i] != 0 then more[i] == BelowSid(ids[i], k)
                     else more[i].BelowRoot? && more[i].k == k
  }

  /** Step `i` found a parent in the tree it was done on. */
  predicate Found(steps: seq<LoadStep>, i: nat)
    requires i < |steps|
  {
    FindsParent(LoadAll(steps[..i]), steps[i])
  }

  /** Since the steps were `begin`, there was one step for each of the ids `done`. */
  ghost predicate Walked(begin: seq<LoadStep>, steps: seq<LoadStep>, k: RuleKey, done: seq<int>) {
    begin <= steps && StepsOf(done, steps[|begin|..], k)
  }

  /** What the loop did when it is over: only the last step may have found no parent, and then the program
      exits, as it does at a character that is neither a digit nor a separator. */
  ghost predicate IdsDone(s: string, begin: seq<LoadStep>, steps: seq<LoadStep>, k: RuleKey, out: Outcome) {
    var n := |steps| - |begin|;
    && 0 <= n <= |Ids(s, false)|
    && Walked(begin, steps, k, Ids(s, false)[..n])
    && (forall i :: |begin| <= i < |steps| - 1 ==> Found(steps, i))
    && (if n > 0 && !Found(steps, |steps| - 1) then out == Exit
        else n == |Ids(s, false)| && out == if Clean(s) then Added else Exit)
  }

  /** The loop has read the characters before `i`, and every id so far found a parent. */
  ghost predicate IdsSoFar(s: string, begin: seq<LoadStep>, steps: seq<LoadStep>, k: RuleKey, i: nat, val: bool,
                           done: seq<int>) {
    && i <= |s| + 1
    && Walked(begin, steps, k, done)
    && (forall j :: |begin| <= j < |steps| ==> Found(steps, j))
    && Clean(if i <= |s| then s[..i] else s)
    && Ids(s, false) == done + if i <= |s| then Ids(s[i..], val) else []
  }

  lemma NoIdsYet(s: string, steps: seq<LoadStep>, k: RuleKey)
    ensures IdsSoFar(s, steps, steps, k, 0, false, [])
  {
    assert s[0..] == s && [] + Ids(s, false) == Ids(s, false);
  }

  lemma CleanMore(s: string, i: nat)
    requires i < |s| && Clean(s[..i]) && (IsSeparator(s[i]) || IsDigit(s[i]))
    ensures Clean(s[..i + 1])
  {
    assert forall j :: 0 <= j < i ==> s[..i + 1][j] == s[..i][j];
  }

  lemma SeparatorRead(s: string, begin: seq<LoadStep>, steps: seq<LoadStep>, k: RuleKey, i: nat, val: bool,
                      done: seq<int>)
    requires IdsSoFar(s, begin, steps, k, i, val, done) && i < |s| && IsSeparator(s[i])
    ensures IdsSoFar(s, begin, steps, k, i + 1, false, done)
  {
    hide Walked, Found, Clean;
    CleanMore(s, i);
    assert s[i..][1..] == s[i + 1..];
  }

  lemma DigitRead(s: string, begin: seq<LoadStep>, steps: seq<LoadStep>, k: RuleKey, i: nat, done: seq<int>)
    requires IdsSoFar(s, begin, steps, k, i, true, done) && i <= |s| && (i < |s| ==> IsDigit(s[i]))
    ensures IdsSoFar(s, begin, steps, k, i + 1, true, done)
  {
    hide Walked, Found, Clean;
    if i < |s| {
      CleanMore(s, i);
      assert s[i..][1..] == s[i + 1..];
      assert [] + Ids(s[i + 1..], true) == Ids(s[i + 1..], true);
    } else {
      assert s[..i] == s;
    }
  }

  lemma OtherRead(s: string, begin: seq<LoadStep>, steps: seq<LoadStep>, k: RuleKey, i: nat, val: bool, done: seq<int>)
    requires IdsSoFar(s, begin, steps, k, i, val, done) && i < |s| && !IsSeparator(s[i]) && !IsDigit(s[i])
    ensures IdsDone(s, begin, steps, k, Exit)
  {
    hide Found;
    assert Ids(s, false) == done;
    assert done[..|steps| - |begin|] == done;
  }

  lemma AllRead(s: string, begin: seq<LoadStep>, steps: seq<LoadStep>, k: RuleKey, val: bool, done: seq<int>)
    requires IdsSoFar(s, begin, steps, k, |s| + 1, val, done)
    ensures IdsDone(s, begin, steps, k, Added)
  {
    hide Found;
    assert Ids(s, false) == done;
    assert done[..|steps| - |begin|] == done;
  }

  /** One step more. */
  lemma WalkedMore(begin: seq<LoadStep>, before: seq<LoadStep>, k: RuleKey, done: seq<int>, id: int, step: LoadStep)
    requires Walked(begin, before, k, done) && StepsOf([id], [step], k)
    ensures Walked(begin, before + [step], k, done + [id]) && |begin| <= |before|
    ensures forall j :: 0 <= j < |before| ==> Found(before + [step], j) == Found(before, j)
  {
    hide LoadAll, FindsParent;
    var steps := before + [step];
    assert forall j :: 0 <= j < |before| ==> steps[..j] == before[..j];
    assert steps[|begin|..] == before[|begin|..] + [step];
    assert [step][0] == step && [id][0] == id;
  }

  /** One id more; `code` says whether it found a parent. */
  lemma IdRead(s: string, begin: seq<LoadStep>, before: seq<LoadStep>, k: RuleKey, i: nat, done: seq<int>,
               step: LoadStep, code: bool)
    requires IdsSoFar(s, begin, before, k, i, false, done) && i <= |s| && (i < |s| ==> IsDigit(s[i]))
    requires StepsOf([Atoi(s[i..])], [step], k) && code == FindsParent(LoadAll(before), step)
    ensures code ==> IdsSoFar(s, begin, before + [step], k, i, true, done + [Atoi(s[i..])])
    ensures !code ==> IdsDone(s, begin, before + [step], k, Exit)
  {
    hide LoadAll, FindsParent, Clean, Walked, StepsOf, Atoi;
    var steps, id := before + [step], Atoi(s[i..]);
    WalkedMore(begin, before, k, done, id, step);
    assert steps[..|before|] == before && steps[|before|] == step;
    IdsAt(s, i, done, id);
    assert Found(steps, |before|) == code;
    if !code {
      LastMissed(s, begin, steps, k, done + [id]);
    }
  }

  lemma IdsAt(s: string, i: nat, done: seq<int>, id: int)
    requires i <= |s| && (i < |s| ==> IsDigit(s[i])) && id == Atoi(s[i..])
    ensures done + Ids(s[i..], false) == done + [id] + Ids(s[i..], true)
  {
    hide Atoi;
    if i < |s| {
      assert Ids(s[i..], true) == Ids(s[i..][1..], true) by {
        assert [] + Ids(s[i..][1..], true) == Ids(s[i..][1..], true);
      }
    }
  }

  lemma LastMissed(s: string, begin: seq<LoadStep>, steps: seq<LoadStep>, k: RuleKey, done: seq<int>)
    requires Walked(begin, steps, k, done) && |steps| > |begin| && !Found(steps, |steps| - 1)
    requires done <= Ids(s, false)
    requires forall j :: |begin| <= j < |steps| - 1 ==> Found(steps, j)
    ensures IdsDone(s, begin, steps, k, Exit)
  {
    hide Found, Ids;
    assert |steps| - |begin| == |done|;
    assert Ids(s, false)[..|done|] == done;
  }

  /** The tree `g` is what adding `r` made of `f`: one leaf below every node of that kind, provided the rule
      was new, and success if there is such a node. */
  ghost predicate HangsAs(f: Forest, g: Forest, r: RuleInfo, out: Outcome, kind: RuleKey -> bool) {
    && (out == Added <==> exists a | a in Keys(f) :: kind(a))
    && (Absent(f, {r}) ==> HungBelow(f, g, r, kind))
  }

  lemma MatchingHangs(f: Forest, p: RuleKey -> bool, k: RuleKey, out: Outcome, kind: RuleKey -> bool)
    requires forall a :: p(a) == kind(a)
    requires out == Added <==> Any(f, p)
    ensures HangsAs(f, Graft(f, p, k), k.rule, out, kind)
  {
    AnyIsSomeNode(f, p);
    if Absent(f, {k.rule}) {
      GraftAddsExactly(f, p, k);
      SameProperty(Graft(f, p, k), p, kind, k.rule);
    }
  }

  lemma StepsAreFor(s: string, begin: seq<LoadStep>, steps: seq<LoadStep>, k: RuleKey, out: Outcome)
    requires IdsDone(s, begin, steps, k, out)
    ensures begin <= steps && out != Rejected && forall i :: |begin| <= i < |steps| ==> steps[i].k == k
  {
    hide Ids, Found, Clean;
    assert forall i :: |begin| <= i < |steps| ==> steps[i] == steps[|begin|..][i - |begin|];
  }

  class RuleList {
    var rulenode: RuleNode?
    /** `OS_WordMatch`, which is not part of this model. */
    const wordMatch: (string, string) -> bool
    ghost var shape: Shape
    ghost var steps: seq<LoadStep>

    ghost predicate Linked()
      reads this, Nodes(shape)`next, Nodes(shape)`child
    {
      Seg(rulenode, shape, null) && Distinct(shape)
    }

    /** The tree is what the completed walks of the loader make of the empty one. */
    ghost predicate Valid()
      reads this, Nodes(shape)`next, Nodes(shape)`child, Rules(shape)`level
    {
      Linked() && View(shape) == LoadAll(steps)
    }

    /** `OS_CreateRuleList`. */
    constructor (wordMatch: (string, string) -> bool)
      ensures Valid() && rulenode == null && steps == []
      ensures this.wordMatch == wordMatch
    {
      this.wordMatch := wordMatch;
      rulenode, shape, steps := null, Nil, [];
    }

    lemma LoadOne(f: Forest, s: LoadStep)
      requires f == LoadAll(steps)
      ensures LoadAll(steps + [s]) == Load(f, s)
    {
      assert (steps + [s])[..|steps|] == steps;
    }

    /** `OS_AddRule`: a template rule at the top level. */
    method AddRule(readRule: RuleInfo)
      requires Valid()
      modifies this, Nodes(shape)`next
      ensures Valid() && steps == old(steps) + [AtTop(KeyOf(readRule))]
      ensures old(Nodes(shape)) <= Nodes(shape)
    {
      hide Seg, Distinct, View, Nodes, Insert;
      ghost var one;
      LoadOne(View(shape), AtTop(KeyOf(readRule)));
      rulenode, shape, one := InsertRule(rulenode, readRule, shape);
      steps := steps + [AtTop(KeyOf(readRule))];
    }

    function ByGroup(group: string): RuleKey -> bool {
      var m := wordMatch;
      (a: RuleKey) => m(group, a.rule.group)
    }

    static function ByLevel(level: int): RuleKey -> bool {
      (a: RuleKey) => a.level >= level
    }

    /** What one call of `_AddtoRule` does to the tree. */
    ghost function StepFor(sid: int, level: int, group: Option<string>, readRule: RuleInfo): LoadStep
      reads this, Rules(shape)`category, readRule`category, readRule`level
    {
      if sid != 0 then BelowSid(sid, KeyOf(readRule))
      else if group.Some? then BelowMatching(Eligible(ByGroup(group.value), readRule.sigid), KeyOf(readRule))
      else if level != 0 then BelowMatching(Eligible(ByLevel(level), readRule.sigid), KeyOf(readRule))
      else BelowRoot(FirstRoot(shape, readRule.category), KeyOf(readRule))
    }

    /** `_AddtoRule` from the first rule on; the loop tests its arguments, which never change, so the
        three kinds of search are separate walks here. */
    method AddToRule(sid: int, level: int, group: Option<string>, readRule: RuleInfo)
      returns (code: bool, ghost added: set<RuleNode>)
      requires Valid()
      modifies this, Nodes(shape)`next, Nodes(shape)`child, readRule`lastEvents, readRule`category
      ensures Valid() && steps == old(steps) + [old(StepFor(sid, level, group, readRule))]
      ensures fresh(added) && Nodes(shape) == old(Nodes(shape)) + added
      ensures code <==> FindsParent(old(View(shape)), old(StepFor(sid, level, group, readRule)))
      ensures View(shape) == Load(old(View(shape)), old(StepFor(sid, level, group, readRule)))
      ensures rulenode == old(rulenode)
      ensures sid != 0 ==> LegacyOf(readRule) == old(LegacyBelow(LegacyOf(readRule), View(shape), sid, readRule))
      ensures sid == 0 ==> readRule.category == old(readRule.category)
      ensures sid == 0 && group.Some? ==>
                readRule.lastEvents == old(ContextBelow(readRule.lastEvents, true, View(shape),
                                                        Eligible(ByGroup(group.value), readRule.sigid), readRule))
      ensures sid == 0 && group.None? ==> readRule.lastEvents == old(readRule.lastEvents)
    {
      hide Seg, Distinct, View, Nodes, FirstRoot, HasSid, Any, Length, Graft, GraftSid, GraftRoot, LoadAll, Eligible,
           Rules, LegacyBelow, Accepted, Context;
      ghost var step, t := StepFor(sid, level, group, readRule), shape;
      LoadOne(View(shape), step);
      NodesAllocated(shape);
      if sid != 0 {
        code, t, added := AddBelowSid(sid, rulenode, readRule, shape);
      } else if group.Some? {
        code, t, added := AddMatching(ByGroup(group.value), true, rulenode, readRule, shape);
      } else if level != 0 {
        code, t, added := AddMatching(ByLevel(level), false, rulenode, readRule, shape);
      } else {
        code, t, added := AddByCategory(rulenode, readRule, shape);
      }
      shape := t;
      steps := steps + [step];
    }

    /** The if_sid loop of `OS_AddChild`; `s[i..]` is what the pointer `sid` points to. */
    method AddBelowSids(s: string, readRule: RuleInfo) returns (out: Outcome)
      requires Valid()
      modifies this, Nodes(shape)`next, Nodes(shape)`child, readRule`lastEvents, readRule`category
      ensures Valid() && IdsDone(s, old(steps), steps, KeyOf(readRule), out)
      ensures old(Nodes(shape)) <= Nodes(shape)
    {
      hide Seg, Distinct, View, Nodes, FirstRoot, HasSid, Length, Linked, LoadAll, FindsParent, IdsSoFar, IdsDone,
           Clean, Ids;
      var i, val := 0, false;
      ghost var done, k := [], KeyOf(readRule);
      ghost var begin, grown := steps, {};
      NoIdsYet(s, steps, k);
      while i <= |s|
        invariant 0 <= i <= |s| + 1
        invariant Valid() && IdsSoFar(s, begin, steps, k, i, val, done)
        invariant fresh(grown) && Nodes(shape) == old(Nodes(shape)) + grown
        invariant KeyOf(readRule) == k
      {
        if i < |s| && IsSeparator(s[i]) {
          SeparatorRead(s, begin, steps, k, i, val, done);
          val := false;
        } else if i == |s| || IsDigit(s[i]) {
          if !val {
            var ruleId := Atoi(s[i..]);
            ghost var before := steps;
            var code; ghost var more;
            code, more := AddToRule(ruleId, 0, None, readRule);
            grown := grown + more;
            IdRead(s, begin, before, k, i, done, steps[|before|], code);
            if !code {
              return Exit;
            }
            done := done + [ruleId];
            val := true;
          }
          DigitRead(s, begin, steps, k, i, done);
        } else {
          OtherRead(s, begin, steps, k, i, val, done);
          return Exit;
        }
        i := i + 1;
      }
      AllRead(s, begin, steps, k, val, done);
      out := Added;
    }

    lemma GroupHangs(f: Forest, p: RuleKey -> bool, r: RuleInfo, group: string, out: Outcome)
      requires p == Eligible(ByGroup(group), r.sigid) && (out == Added <==> Any(f, p))
      ensures HangsAs(f, Graft(f, p, KeyOf(r)), r, out,
                      (a: RuleKey) => wordMatch(group, a.rule.group) && a.rule.sigid != r.sigid)
    {
      MatchingHangs(f, p, KeyOf(r), out, (a: RuleKey) => wordMatch(group, a.rule.group) && a.rule.sigid != r.sigid);
    }

    lemma LevelHangs(f: Forest, p: RuleKey -> bool, r: RuleInfo, level: int, out: Outcome)
      requires p == Eligible(ByLevel(level), r.sigid) && (out == Added <==> Any(f, p))
      ensures HangsAs(f, Graft(f, p, KeyOf(r)), r, out, (a: RuleKey) => a.level >= level && a.rule.sigid != r.sigid)
    {
      MatchingHangs(f, p, KeyOf(r), out, (a: RuleKey) => a.level >= level && a.rule.sigid != r.sigid);
    }

    /** The if_level branch of `OS_AddChild`. */
    method AddAbove(readRule: RuleInfo, level: int) returns (out: Outcome)
      requires Valid() && level != 0
      modifies this, Nodes(shape)`next, Nodes(shape)`child, readRule`lastEvents, readRule`category
      ensures Valid() && out != Rejected && steps == old(steps) + [old(StepFor(0, level, None, readRule))]
      ensures out == Added <==> FindsParent(old(View(shape)), old(StepFor(0, level, None, readRule)))
      ensures HangsAs(old(View(shape)), View(shape), readRule, out,
                      (a: RuleKey) => a.level >= level && a.rule.sigid != readRule.sigid)
    {
      hide Seg, Distinct, View, Nodes, FirstRoot, HasSid, Any, Length, Linked, HangsAs, LoadAll;
      ghost var f, step := View(shape), StepFor(0, level, None, readRule);
      var code; ghost var more;
      code, more := AddToRule(0, level, None, readRule);
      out := if code then Added else Exit;
      LevelHangs(f, step.p, readRule, level, out);
    }

    /** The if_group branch of `OS_AddChild`. */
    method AddToGroup(readRule: RuleInfo, group: string) returns (out: Outcome)
      requires Valid()
      modifies this, Nodes(shape)`next, Nodes(shape)`child, readRule`lastEvents, readRule`category
      ensures Valid() && out != Rejected && steps == old(steps) + [old(StepFor(0, 0, Some(group), readRule))]
      ensures out == Added <==> FindsParent(old(View(shape)), old(StepFor(0, 0, Some(group), readRule)))
      ensures HangsAs(old(View(shape)), View(shape), readRule, out,
                      (a: RuleKey) => wordMatch(group, a.rule.group) && a.rule.sigid != readRule.sigid)
      ensures readRule.lastEvents
           == old(Context(readRule.lastEvents, Accepted(View(shape), (a: RuleKey) =>
                    wordMatch(group, a.rule.group) && a.rule.sigid != readRule.sigid), readRule))
    {
      hide Seg, Distinct, View, Nodes, FirstRoot, HasSid, Any, Length, Linked, HangsAs, LoadAll, Accepted, Context;
      ghost var f, step := View(shape), StepFor(0, 0, Some(group), readRule);
      AcceptedAlike(f, step.p, (a: RuleKey) => wordMatch(group, a.rule.group) && a.rule.sigid != readRule.sigid);
      var code; ghost var more;
      code, more := AddToRule(0, 0, Some(group), readRule);
      out := if code then Added else Exit;
      GroupHangs(f, step.p, readRule, group, out);
    }

    /** The last branch of `OS_AddChild`. */
    method AddToCategory(readRule: RuleInfo) returns (out: Outcome)
      requires Valid()
      modifies this, Nodes(shape)`next, Nodes(shape)`child, readRule`lastEvents, readRule`category
      ensures Valid() && out != Rejected && steps == old(steps) + [old(StepFor(0, 0, None, readRule))]
      ensures out == Added <==> FindsParent(old(View(shape)), old(StepFor(0, 0, None, readRule)))
      ensures out == Added <==> old(HasRootOf(shape, readRule.category))
      ensures forall n: nat | old(IsFirstRoot(shape, n, readRule.category)) ::
                n < Length(old(View(shape))) && View(shape) == GraftRoot(old(View(shape)), n, KeyOf(readRule))
    {
      hide Seg, Distinct, View, Nodes, FirstRoot, Length, Linked, LoadAll, IsFirstRoot, HasRootOf;
      FirstRootIs(shape, readRule.category);
      var code; ghost var more;
      code, more := AddToRule(0, 0, None, readRule);
      out := if code then Added else Exit;
    }

    /** `OS_AddChild`: below the rules of if_sid, else above a level, else of a group, else below the root
        of the rule's category.  `Exit` stands for the process exit on an unknown parent. */
    method AddChild(readRule: RuleInfo, ifSid: Option<string>, ifLevel: Option<string>, ifGroup: Option<string>)
      returns (out: Outcome)
      requires Valid()
      modifies this, Nodes(shape)`next, Nodes(shape)`child, readRule`lastEvents, readRule`category
      ensures Valid() && old(steps) <= steps
      ensures out == Rejected ==> steps == old(steps)
      ensures out == Rejected <==> ifSid.None? && ifLevel.Some? && Atoi(ifLevel.value) == 0
      ensures ifSid.Some? ==> IdsDone(ifSid.value, old(steps), steps, KeyOf(readRule), out)
      ensures forall i :: |old(steps)| <= i < |steps| ==> steps[i].k == KeyOf(readRule)
      ensures ifSid.None? && out != Rejected ==>
                var level := if ifLevel.Some? then Atoi(ifLevel.value) * 100 else 0;
                var group := if ifLevel.Some? then None else ifGroup;
                && steps == old(steps) + [old(StepFor(0, level, group, readRule))]
                && (out == Added <==> FindsParent(old(View(shape)), old(StepFor(0, level, group, readRule))))
      // if_group: below every node whose group the word matches
      ensures ifSid.None? && ifLevel.None? && ifGroup.Some? ==>
                HangsAs(old(View(shape)), View(shape), readRule, out,
                        (a: RuleKey) => wordMatch(ifGroup.value, a.rule.group) && a.rule.sigid != readRule.sigid)
      // a rule without a context shares that of the first of them with one
      ensures ifSid.None? && ifLevel.None? && ifGroup.Some? ==>
                readRule.lastEvents
                == old(Context(readRule.lastEvents, Accepted(View(shape), (a: RuleKey) =>
                         wordMatch(ifGroup.value, a.rule.group) && a.rule.sigid != readRule.sigid), readRule))
      // if_level: below every node of at least a hundred times that level
      ensures ifSid.None? && ifLevel.Some? && Atoi(ifLevel.value) != 0 ==>
                HangsAs(old(View(shape)), View(shape), readRule, out,
                        (a: RuleKey) => a.level >= Atoi(ifLevel.value) * 100 && a.rule.sigid != readRule.sigid)
      // otherwise below the first root of the rule's category
      ensures ifSid.None? && ifLevel.None? && ifGroup.None? ==>
                && (out == Added <==> old(HasRootOf(shape, readRule.category)))
                && forall n: nat | old(IsFirstRoot(shape, n, readRule.category)) ::
                     n < Length(old(View(shape))) && View(shape) == GraftRoot(old(View(shape)), n, KeyOf(readRule))
    {
      hide Seg, Distinct, View, Nodes, FirstRoot, HasSid, Any, Length, Linked, HangsAs, IsFirstRoot, HasRootOf, IdsDone,
           LoadAll, FindsParent, GraftRoot, Accepted, Context;
      if ifSid.Some? {
        out := AddBelowSids(ifSid.value, readRule);
        StepsAreFor(ifSid.value, old(steps), steps, KeyOf(readRule), out);
      } else if ifLevel.Some? {
        var ilevel := Atoi(ifLevel.value);
        if ilevel == 0 {
          return Rejected;
        }
        out := AddAbove(readRule, ilevel * 100);
      } else if ifGroup.Some? {
        out := AddToGroup(readRule, ifGroup.value);
      } else {
        out := AddToCategory(readRule);
      }
    }

    /** Whatever was added since step `i`, when its rules were new then: the linked tree without them is the
        tree of that time. */
    lemma NothingLost(i: nat)
      requires Valid() && i <= |steps| && RulesIn(steps[..i]) !! RulesIn(steps[i..])
      ensures Without(View(shape), RulesIn(steps[i..])) == LoadAll(steps[..i])
      ensures Enclosed(View(shape), RulesIn(steps[i..]))
    {
      EarlierRulesStay(steps, i);
    }

    /** Equal levels of the linked tree are in the order in which the rules were loaded. */
    lemma TreeIsStable(ord: RuleInfo -> int)
      requires Valid() && LoadOrder(steps, ord)
      ensures InOrder(View(shape), ord)
    {
      LoadedTreeIsStable(steps, ord);
    }

    /** Whatever rules were added, every sibling list of the linked tree is sorted by level. */
    lemma TreeIsSorted()
      requires Valid()
      ensures Sorted(View(shape))
    {
      LoadedTreeIsSorted(steps);
    }
  }
}
