/** How often a rule with an ignore time is used (src/analysisd/analysisd.c:898-918), over whole runs. */
module IgnoreTimes {
  import opened Entities

  /** An event fired a rule: the level of the rule and the time of the event, whether the rule was used for
      it, the answer of the ignore file, and whether the event entered the memory. */
  datatype Occurrence =
    Occurrence(rule: RuleInfo, level: int, time: int, used: bool, ignored: bool, stored: bool)

  /** `time_ignored`: the time of the last use of a rule with an ignore time, 0 before the first one. */
  function Stamp(history: seq<Occurrence>, r: RuleInfo): int {
    if history == [] then 0
    else
      var o := history[|history| - 1];
      if o.rule == r && o.used && r.ignoreTime != 0 then o.time else Stamp(history[..|history| - 1], r)
  }

  /** The rule of occurrence `i` was used exactly when its level is not 0 and its ignore time, if it has one,
      is over; and the event was stored exactly when the rule was used and the ignore file did not object. */
  predicate Explained(history: seq<Occurrence>) {
    forall i :: 0 <= i < |history| ==>
      var o := history[i];
      var last := Stamp(history[..i], o.rule);
      && (o.used <==> o.level != 0 && (o.rule.ignoreTime == 0 || last == 0 || o.time - last >= o.rule.ignoreTime))
      && (o.stored <==> o.used && !(o.rule.ckignore && o.ignored))
  }

  lemma {:induction false} ExplainedMore(history: seq<Occurrence>, o: Occurrence)
    requires Explained(history)
    requires var last := Stamp(history, o.rule);
             o.used <==> o.level != 0 && (o.rule.ignoreTime == 0 || last == 0 || o.time - last >= o.rule.ignoreTime)
    requires o.stored <==> o.used && !(o.rule.ckignore && o.ignored)
    ensures Explained(history + [o])
    ensures forall r :: Stamp(history + [o], r)
                     == if o.rule == r && o.used && r.ignoreTime != 0 then o.time else Stamp(history, r)
  {
    var more := history + [o];
    assert more[..|history|] == history;
    assert forall i :: 0 <= i < |history| ==> more[i] == history[i] && more[..i] == history[..i];
  }

  // ---------- what that means for a run ----------

  predicate InTime(history: seq<Occurrence>) {
    && (forall i :: 0 <= i < |history| ==> history[i].time > 0)
    && forall i, j :: 0 <= i < j < |history| ==> history[i].time <= history[j].time
  }

  lemma {:induction false} StampIs(history: seq<Occurrence>, r: RuleInfo)
    requires InTime(history) && r.ignoreTime != 0
    ensures forall i :: 0 <= i < |history| && history[i].rule == r && history[i].used ==>
              history[i].time <= Stamp(history, r)
    ensures Stamp(history, r) == 0
            || exists i :: 0 <= i < |history| && history[i].rule == r && history[i].used
                           && history[i].time == Stamp(history, r)
  {
    if history != [] {
      var n := |history| - 1;
      StampIs(history[..n], r);
    }
  }

  /** Two uses of a rule are at least its ignore time apart. */
  lemma UsesLieApart(history: seq<Occurrence>, i: nat, j: nat)
    requires Explained(history) && InTime(history) && i < j < |history|
    requires history[i].rule == history[j].rule && history[i].rule.ignoreTime > 0
    requires history[i].used && history[j].used
    ensures history[j].time - history[i].time >= history[i].rule.ignoreTime
  {
    var before := history[..j];
    StampIs(before, history[j].rule);
    assert before[i] == history[i];
  }

  /** An event whose rule has a level and no use within its ignore time before is not skipped. */
  lemma NotSkipped(history: seq<Occurrence>, i: nat)
    requires Explained(history) && InTime(history) && i < |history| && history[i].level != 0
    requires forall j :: 0 <= j < i && history[j].rule == history[i].rule && history[j].used ==>
               history[i].time - history[j].time >= history[i].rule.ignoreTime
    ensures history[i].used
  {
    var before, r := history[..i], history[i].rule;
    if r.ignoreTime != 0 {
      StampIs(before, r);
      if Stamp(before, r) != 0 {
        var j :| 0 <= j < |before| && before[j].rule == r && before[j].used && before[j].time == Stamp(before, r);
        assert before[j] == history[j];
      }
    }
  }

  /** And so, exactly: a rule with an ignore time is used for an event if and only if it has a level and was
      not used within that time before. */
  lemma UsedIff(history: seq<Occurrence>, i: nat)
    requires Explained(history) && InTime(history) && i < |history| && history[i].rule.ignoreTime > 0
    ensures history[i].used
       <==> history[i].level != 0
            && forall j :: 0 <= j < i && history[j].rule == history[i].rule && history[j].used ==>
                 history[i].time - history[j].time >= history[i].rule.ignoreTime
  {
    if history[i].used {
      forall j | 0 <= j < i && history[j].rule == history[i].rule && history[j].used
        ensures history[i].time - history[j].time >= history[i].rule.ignoreTime
      {
        UsesLieApart(history, j, i);
      }
    } else if history[i].level != 0
              && forall j :: 0 <= j < i && history[j].rule == history[i].rule && history[j].used ==>
                   history[i].time - history[j].time >= history[i].rule.ignoreTime {
      NotSkipped(history, i);
    }
  }

  /** Whatever the times: no event of a rule with level 0 is stored, a rule without ignore time is used for
      every event if it has a level, and an event for which the rule was used is stored unless the rule asks
      the ignore file and that knows it. */
  lemma LevelsDecide(history: seq<Occurrence>, i: nat)
    requires Explained(history) && i < |history|
    ensures var o := history[i];
            && (o.level == 0 ==> !o.used && !o.stored)
            && (o.level != 0 && o.rule.ignoreTime == 0 ==> o.used)
            && (o.stored <==> o.used && !(o.rule.ckignore && o.ignored))
  {
  }
}
