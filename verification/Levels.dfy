/** The load-time encoding of rule levels (src/analysisd/rules.c:297-311, 2041-2069). */
module Levels {

  /** Level 0 becomes 99, and a rule with accuracy is scaled by 100. */
  function Encode(level: nat, accuracy: int): nat {
    var l := if level == 0 then 99 else level;
    if accuracy != 0 then l * 100 else l
  }

  /** What one visit of `_setlevels` does to a level. */
  function Decode(level: int): int {
    var l := if level == 9900 then 0 else level;
    if l >= 100 then l / 100 else l
  }

  /** The level of a rule that `_setlevels` has met in `n` tree nodes. */
  function DecodeTimes(level: int, n: nat): int {
    if n == 0 then level else DecodeTimes(Decode(level), n - 1)
  }

  lemma {:induction false} DecodeTimesSum(level: int, m: nat, n: nat)
    ensures DecodeTimes(DecodeTimes(level, m), n) == DecodeTimes(level, m + n)
  {
    if m > 0 {
      DecodeTimesSum(Decode(level), m - 1, n);
    }
  }

  lemma {:induction false} BelowHundredIsStable(level: int, n: nat)
    requires level < 100
    ensures DecodeTimes(level, n) == level
  {
    if n > 0 {
      BelowHundredIsStable(level, n - 1);
    }
  }

  lemma {:induction false} DecodingShrinks(level: int, n: nat)
    requires level >= 100 && n > 0
    ensures DecodeTimes(level, n) < level
  {
    var l := Decode(level);
    if l >= 100 && n > 1 {
      DecodingShrinks(l, n - 1);
    } else if l < 100 {
      BelowHundredIsStable(l, n - 1);
    }
  }

  /** The declared levels that survive loading when `n` tree nodes share the rule. */
  predicate Restorable(level: nat, accuracy: int, n: nat) {
    if accuracy != 0 then level <= 98 || (level >= 100 && n == 1) else 1 <= level <= 99
  }

  /** `_setlevels` gives back the declared level exactly for the levels above: 99 collides with the
      encoding of 0, larger levels are divided again at a second node, and level 0 without accuracy
      stays 99. */
  lemma RestoredExactly(level: nat, accuracy: int, n: nat)
    requires n > 0
    ensures DecodeTimes(Encode(level, accuracy), n) == level <==> Restorable(level, accuracy, n)
  {
    var e := Encode(level, accuracy);
    assert DecodeTimes(e, n) == DecodeTimes(Decode(e), n - 1);
    if accuracy != 0 {
      if level >= 100 {
        assert Decode(e) == level;
        if n > 1 {
          DecodingShrinks(level, n - 1);
        }
      } else {
        assert Decode(e) == if level == 99 then 0 else level;
        BelowHundredIsStable(Decode(e), n - 1);
      }
    } else if level >= 100 {
      DecodingShrinks(level, n);
    } else {
      BelowHundredIsStable(e, n);
    }
  }

  /** Which of two declared rules is meant to be tried first. */
  predicate TriedBefore(level1: nat, accuracy1: int, level2: nat, accuracy2: int) {
    if accuracy1 != 0 && accuracy2 != 0 then level2 != 0 && (level1 == 0 || level1 > level2)
    else if accuracy1 == 0 && accuracy2 == 0 then level1 > level2
    else accuracy1 != 0
  }

  /** The encoded order is the intended one: level 0 first, then by level, rules without accuracy last. */
  lemma EncodedOrder(level1: nat, accuracy1: int, level2: nat, accuracy2: int)
    requires Restorable(level1, accuracy1, 2) && Restorable(level2, accuracy2, 2)
    ensures Encode(level1, accuracy1) > Encode(level2, accuracy2) <==> TriedBefore(level1, accuracy1, level2, accuracy2)
  {
  }
}
