/** The accumulator of src/analysisd/accumulator.c as a function of its calls, with and without the
    periodic purge. */
module Accumulation {
  import opened Entities

  const EXPIRE_ELM := 120
  const PURGE_INTERVAL := 300
  const PURGE_COUNT := 200
  const MAXKEY := 256
  const MAXELM := 81

  /** The seven fields that are accumulated. */
  datatype Fields = Fields(dstuser: Option<string>, srcuser: Option<string>, dstip: Option<string>,
                           srcip: Option<string>, dstport: Option<string>, srcport: Option<string>,
                           data: Option<string>)

  datatype Field = DstUser | SrcUser | DstIp | SrcIp | DstPort | SrcPort | Data

  function Get(f: Fields, x: Field): Option<string> {
    match x
    case DstUser => f.dstuser
    case SrcUser => f.srcuser
    case DstIp => f.dstip
    case SrcIp => f.srcip
    case DstPort => f.dstport
    case SrcPort => f.srcport
    case Data => f.data
  }

  const EMPTY := Fields(None, None, None, None, None, None, None)

  datatype Stored = Stored(timestamp: int, fields: Fields)

  type Store = map<string, Stored>

  /** A value `acm_str_replace` copies. */
  predicate Usable(v: Option<string>) {
    v.Some? && 0 < |v.value| <= MAXELM - 1
  }

  /** `*dst` after `acm_str_replace(dst, src)`. */
  function Replaced(dst: Option<string>, src: Option<string>): Option<string> {
    if src.None? then dst
    else if dst.Some? && dst.value != "" then dst
    else if !Usable(src) then dst
    else src
  }

  /** All seven replacements. */
  function Merged(dst: Fields, src: Fields): Fields {
    Fields(Replaced(dst.dstuser, src.dstuser), Replaced(dst.srcuser, src.srcuser), Replaced(dst.dstip, src.dstip),
           Replaced(dst.srcip, src.srcip), Replaced(dst.dstport, src.dstport), Replaced(dst.srcport, src.srcport),
           Replaced(dst.data, src.data))
  }

  /** The test of `Accumulate` on an entry it finds. */
  predicate Outdated(s: Stored, now: int) {
    s.timestamp > 0 && s.timestamp < now - EXPIRE_ELM
  }

  /** What the store knows for a key when it is looked up. */
  function Known(store: Store, key: string, now: int): Fields {
    if key in store && !Outdated(store[key], now) then store[key].fields else EMPTY
  }

  /** The event that `Accumulate` returns, and the store it leaves. */
  function Output(store: Store, key: string, now: int, ev: Fields): Fields {
    Merged(ev, Known(store, key, now))
  }

  function Updated(store: Store, key: string, now: int, ev: Fields): Store {
    store[key := Stored(now, Merged(Known(store, key, now), Output(store, key, now, ev)))]
  }

  /** The store after the table walk of `Accumulate_CleanUp`. */
  function Purged(store: Store, now: int): Store {
    map k | k in store && store[k].timestamp >= now - EXPIRE_ELM :: store[k]
  }

  // ---------- runs ----------

  /** One call.  An event without id or decoder is returned at once; otherwise the call has the clock of
      the purge, that of the lookup, and the key unless it is too long. */
  datatype Call =
    | Ignored(ev: Fields)
    | Call(key: Option<string>, purgeTime: int, now: int, ev: Fields)

  datatype State = State(store: Store, lookups: int, purgeTs: int)

  function CleanUp(s: State, now: int): State {
    if s.lookups + 1 < PURGE_COUNT && s.purgeTs < now + PURGE_INTERVAL then s.(lookups := s.lookups + 1)
    else State(Purged(s.store, now), 0, now)
  }

  /** A purge comes with the two hundredth lookup since the last one, or when the last one lies 300 seconds or
      more in the future, and keeps the entries that are at most 120 seconds old.  So with a clock that does
      not run backwards the time has no part in it. */
  lemma PurgesWhen(s: State, now: int)
    ensures var purges := s.lookups + 1 >= 200 || s.purgeTs - now >= 300;
            && CleanUp(s, now).lookups == (if purges then 0 else s.lookups + 1)
            && CleanUp(s, now).purgeTs == (if purges then now else s.purgeTs)
            && forall k :: k in CleanUp(s, now).store
                 <==> k in s.store && (!purges || now - s.store[k].timestamp <= 120)
    ensures forall k | k in CleanUp(s, now).store :: CleanUp(s, now).store[k] == s.store[k]
    ensures s.purgeTs <= now && s.lookups + 1 < 200 ==> CleanUp(s, now).store == s.store
  {
  }

  function Next(s: State, c: Call, purging: bool): State {
    if c.Ignored? then s else
    var u := if purging then CleanUp(s, c.purgeTime) else s;
    if c.key.Some? then u.(store := Updated(u.store, c.key.value, c.now, c.ev)) else u
  }

  function Result(s: State, c: Call, purging: bool): Fields {
    if c.Ignored? then c.ev else
    var u := if purging then CleanUp(s, c.purgeTime) else s;
    if c.key.Some? then Output(u.store, c.key.value, c.now, c.ev) else c.ev
  }

  /** The events returned by a run of calls. */
  function Results(s: State, calls: seq<Call>, purging: bool): seq<Fields>
    decreases |calls|
  {
    if calls == [] then []
    else [Result(s, calls[0], purging)] + Results(Next(s, calls[0], purging), calls[1..], purging)
  }

  /** The clock never runs backwards from `t`. */
  predicate Timely(calls: seq<Call>, t: int)
    decreases |calls|
  {
    calls != [] ==>
      && (calls[0].Call? ==> t <= calls[0].purgeTime <= calls[0].now)
      && Timely(calls[1..], if calls[0].Call? then calls[0].now else t)
  }

  /** The purged store is the other one without some of its entries, all of them outdated, and no entry is
      from a time that is not positive. */
  ghost predicate Thinned(purged: Store, full: Store, now: int) {
    && (forall k | k in purged :: k in full && purged[k] == full[k])
    && (forall k | k in full && k !in purged :: Outdated(full[k], now))
    && (forall k | k in full :: full[k].timestamp > 0)
  }

  lemma ThinnedLater(purged: Store, full: Store, now: int, later: int)
    requires Thinned(purged, full, now) && now <= later
    ensures Thinned(purged, full, later)
  {
  }

  lemma PurgeThins(purged: Store, full: Store, now: int)
    requires Thinned(purged, full, now)
    ensures Thinned(Purged(purged, now), full, now)
  {
  }

  lemma UpdateThins(purged: Store, full: Store, key: string, now: int, ev: Fields)
    requires Thinned(purged, full, now) && now > 0
    ensures Output(purged, key, now, ev) == Output(full, key, now, ev)
    ensures Thinned(Updated(purged, key, now, ev), Updated(full, key, now, ev), now)
  {
    assert Known(purged, key, now) == Known(full, key, now);
  }

  /** The purge is invisible: with positive times and a clock that does not run backwards, every call
      returns the same event whether or not the store is ever purged, and whenever it is. */
  lemma {:induction false} PurgeIsInvisible(s: State, u: State, calls: seq<Call>, t: int)
    requires Thinned(s.store, u.store, t) && t > 0 && Timely(calls, t)
    ensures Results(s, calls, true) == Results(u, calls, false)
    decreases |calls|
  {
    if calls != [] && calls[0].Ignored? {
      PurgeIsInvisible(s, u, calls[1..], t);
    } else if calls != [] {
      var c := calls[0];
      ThinnedLater(s.store, u.store, t, c.purgeTime);
      PurgeThins(s.store, u.store, c.purgeTime);
      var v := CleanUp(s, c.purgeTime);
      ThinnedLater(v.store, u.store, c.purgeTime, c.now);
      if c.key.Some? {
        UpdateThins(v.store, u.store, c.key.value, c.now, c.ev);
      }
      PurgeIsInvisible(Next(s, c, true), Next(u, c, false), calls[1..], c.now);
    }
  }

  // ---------- and when it is visible ----------

  /** Calls whose key is too long: they only count as lookups. */
  function Idle(n: nat, t: int): seq<Call> { seq(n, _ => Call(None, t, t, EMPTY)) }

  lemma {:induction false} IdleResults(s: State, n: nat, t: int, more: seq<Call>, purging: bool)
    requires s.lookups + n < PURGE_COUNT && s.purgeTs < t + PURGE_INTERVAL
    ensures Results(s, Idle(n, t) + more, purging)
         == seq(n, _ => EMPTY) + Results(s.(lookups := if purging then s.lookups + n else s.lookups), more, purging)
    decreases n
  {
    hide Results;
    if n == 0 {
      assert Idle(n, t) + more == more;
      assert s.(lookups := if purging then s.lookups + n else s.lookups) == s;
    } else {
      var calls := Idle(n, t) + more;
      assert calls[1..] == Idle(n - 1, t) + more;
      var next := Next(s, calls[0], purging);
      assert next == s.(lookups := if purging then s.lookups + 1 else s.lookups);
      FirstCall(s, calls, purging);
      IdleResults(next, n - 1, t, more, purging);
      assert seq(n, _ => EMPTY) == [EMPTY] + seq(n - 1, _ => EMPTY);
    }
  }

  lemma {:induction false} IdleIsTimely(n: nat, t: int, more: seq<Call>)
    requires Timely(more, t)
    ensures Timely(Idle(n, t) + more, t)
    decreases n
  {
    if n == 0 {
      assert Idle(n, t) + more == more;
    } else {
      assert (Idle(n, t) + more)[1..] == Idle(n - 1, t) + more;
      IdleIsTimely(n - 1, t, more);
    }
  }

  /** A value, as many lookups as a purge needs, and the value's key again 121 seconds later. */
  function Revealing(t: int): seq<Call> {
    [Call(Some("k"), t, t, EMPTY.(data := Some("v")))]
    + (Idle(PURGE_COUNT - 2, t) + [Call(Some("k"), t + EXPIRE_ELM + 1, t + EXPIRE_ELM + 1, EMPTY)])
  }

  /** The last of these calls returns the value exactly when nothing was purged: the lookup takes an entry
      whose time is not positive for a current one, the purge does not. */
  lemma PurgeIsVisible(t: int)
    requires t <= 0
    ensures Timely(Revealing(t), t)
    ensures Results(State(map[], 0, t), Revealing(t), true) != Results(State(map[], 0, t), Revealing(t), false)
  {
    hide Idle;
    var last := Call(Some("k"), t + EXPIRE_ELM + 1, t + EXPIRE_ELM + 1, EMPTY);
    var calls := Revealing(t);
    assert calls[1..] == Idle(PURGE_COUNT - 2, t) + [last];
    assert [last][1..] == [];
    IdleIsTimely(PURGE_COUNT - 2, t, [last]);
    LastResult(t, true);
    LastResult(t, false);
  }

  lemma LastResult(t: int, purging: bool)
    requires t <= 0
    ensures var r := Results(State(map[], 0, t), Revealing(t), purging);
            |r| == PURGE_COUNT && r[PURGE_COUNT - 1] == if purging then EMPTY else EMPTY.(data := Some("v"))
  {
    hide Idle, Results;
    var last := Call(Some("k"), t + EXPIRE_ELM + 1, t + EXPIRE_ELM + 1, EMPTY);
    var calls, s := Revealing(t), State(map[], 0, t);
    var v := EMPTY.(data := Some("v"));
    var next := State(map["k" := Stored(t, v)], if purging then 1 else 0, t);
    assert calls[1..] == Idle(PURGE_COUNT - 2, t) + [last];
    assert Next(s, calls[0], purging) == next;
    FirstCall(s, calls, purging);
    IdleResults(next, PURGE_COUNT - 2, t, [last], purging);
    var u := next.(lookups := if purging then next.lookups + PURGE_COUNT - 2 else next.lookups);
    OneCall(u, last, purging);
    assert Result(u, last, purging) == if purging then EMPTY else v;
  }

  lemma FirstCall(s: State, calls: seq<Call>, purging: bool)
    requires calls != []
    ensures Results(s, calls, purging) == [Result(s, calls[0], purging)]
            + Results(Next(s, calls[0], purging), calls[1..], purging)
  {
  }

  lemma OneCall(s: State, c: Call, purging: bool)
    ensures Results(s, [c], purging) == [Result(s, c, purging)]
  {
    FirstCall(s, [c], purging);
  }

  /** From the start of the program at time `t`, the purge is invisible in every run with a clock that does
      not run backwards if and only if `t` is positive. */
  lemma PurgeIsInvisibleIff(t: int)
    ensures (forall calls :: Timely(calls, t) ==>
               Results(State(map[], 0, t), calls, true) == Results(State(map[], 0, t), calls, false))
       <==> t > 0
  {
    hide Results;
    if t > 0 {
      forall calls | Timely(calls, t)
        ensures Results(State(map[], 0, t), calls, true) == Results(State(map[], 0, t), calls, false)
      {
        PurgeIsInvisible(State(map[], 0, t), State(map[], 0, t), calls, t);
      }
    } else {
      PurgeIsVisible(t);
    }
  }

  // ---------- the accumulator as a fold ----------

  /** The events of one key so far, with their times. */
  datatype Seen = Seen(now: int, ev: Fields)

  /** The events since the last gap of more than 120 seconds. */
  function SinceGap(h: seq<Seen>): seq<Seen> {
    if |h| <= 1 then h
    else
      var n := |h| - 1;
      if h[n - 1].now < h[n].now - EXPIRE_ELM then [h[n]] else SinceGap(h[..n]) + [h[n]]
  }

  function FirstUsable(h: seq<Seen>, x: Field): Option<string> {
    if h == [] then None
    else if Usable(Get(h[0].ev, x)) then Get(h[0].ev, x)
    else FirstUsable(h[1..], x)
  }

  lemma {:induction false} FirstUsableMore(h: seq<Seen>, e: Seen, x: Field)
    ensures FirstUsable(h + [e], x) == if FirstUsable(h, x).Some? then FirstUsable(h, x)
                                       else if Usable(Get(e.ev, x)) then Get(e.ev, x) else None
    ensures FirstUsable(h, x).Some? ==> Usable(FirstUsable(h, x))
  {
    if h != [] {
      assert (h + [e])[1..] == h[1..] + [e];
      FirstUsableMore(h[1..], e, x);
    } else {
      assert (h + [e])[1..] == [];
    }
  }

  /** The calls for one key, without purge. */
  function StoreAfter(key: string, h: seq<Seen>): Store {
    if h == [] then map[]
    else Updated(StoreAfter(key, h[..|h| - 1]), key, h[|h| - 1].now, h[|h| - 1].ev)
  }

  predicate Concerns(c: Call, key: string) { c.Call? && c.key == Some(key) }

  /** The events of the calls with this key. */
  function History(calls: seq<Call>, key: string): seq<Seen> {
    if calls == [] then []
    else
      var n := |calls| - 1;
      History(calls[..n], key) + if Concerns(calls[n], key) then [Seen(calls[n].now, calls[n].ev)] else []
  }

  /** The store of an accumulator that never purges, after the calls. */
  function FinalStore(calls: seq<Call>): Store {
    if calls == [] then map[]
    else Next(State(FinalStore(calls[..|calls| - 1]), 0, 0), calls[|calls| - 1], false).store
  }

  /** Calls with other keys do not matter for a key. */
  lemma {:induction false} KeysAreIndependent(calls: seq<Call>, key: string)
    ensures var h := History(calls, key);
            && (key in FinalStore(calls) <==> h != [])
            && (h != [] ==> key in StoreAfter(key, h) && FinalStore(calls)[key] == StoreAfter(key, h)[key])
  {
    if calls != [] {
      var n := |calls| - 1;
      var h := History(calls[..n], key);
      KeysAreIndependent(calls[..n], key);
      if Concerns(calls[n], key) {
        var e := Seen(calls[n].now, calls[n].ev);
        assert (h + [e])[..|h|] == h;
        assert h == [] ==> key !in StoreAfter(key, h);
        assert Known(StoreAfter(key, h), key, e.now) == Known(FinalStore(calls[..n]), key, e.now);
      } else {
        assert h + [] == h;
      }
    }
  }

  lemma GetMerged(dst: Fields, src: Fields, x: Field)
    ensures Get(Merged(dst, src), x) == Replaced(Get(dst, x), Get(src, x))
  {
  }

  lemma GetEmpty(x: Field)
    ensures Get(EMPTY, x) == None
  {
  }

  /** Every stored field is the first usable value of its key since the last long gap. */
  lemma {:induction false} StoredIsFirstUsable(key: string, h: seq<Seen>, x: Field)
    requires h != [] && forall i :: 0 <= i < |h| ==> h[i].now > 0
    ensures key in StoreAfter(key, h) && StoreAfter(key, h)[key].timestamp == h[|h| - 1].now
    ensures Get(StoreAfter(key, h)[key].fields, x) == FirstUsable(SinceGap(h), x)
  {
    var n := |h| - 1;
    var store, e := StoreAfter(key, h[..n]), h[n];
    var known, out := Known(store, key, e.now), Output(store, key, e.now, e.ev);
    GetMerged(known, out, x);
    GetMerged(e.ev, known, x);
    GetEmpty(x);
    if n == 0 {
      assert SinceGap(h) == [] + [e];
      FirstUsableMore([], e, x);
    } else {
      StoredIsFirstUsable(key, h[..n], x);
      if h[n - 1].now < e.now - EXPIRE_ELM {
        assert SinceGap(h) == [] + [e];
        FirstUsableMore([], e, x);
      } else {
        FirstUsableMore(SinceGap(h[..n]), e, x);
      }
    }
  }

  /** The event returned for the last call of `h` keeps its own non-empty fields and takes, for the
      others, the first usable value since the last long gap. */
  lemma ReturnedEvent(key: string, h: seq<Seen>, x: Field)
    requires h != [] && forall i :: 0 <= i < |h| ==> h[i].now > 0
    ensures var n := |h| - 1;
            var own := Get(h[n].ev, x);
            var current := n > 0 && h[n - 1].now >= h[n].now - EXPIRE_ELM;
            var earlier := if current then FirstUsable(SinceGap(h[..n]), x) else None;
            Get(Output(StoreAfter(key, h[..n]), key, h[n].now, h[n].ev), x)
            == if own.Some? && own.value != "" then own else if earlier.Some? then earlier else own
  {
    var n := |h| - 1;
    var store := StoreAfter(key, h[..n]);
    GetMerged(h[n].ev, Known(store, key, h[n].now), x);
    GetEmpty(x);
    if n > 0 {
      StoredIsFirstUsable(key, h[..n], x);
      FirstUsableMore(SinceGap(h[..n]), h[n], x);
    }
  }

  // ---------- whole runs ----------

  /** Field `x` of the event that a call returns: its own value unless that is missing or empty, else the
      first usable value that its key has had since the last long gap, if the last call with the key is
      recent enough. */
  function Returned(before: seq<Call>, c: Call, x: Field): Option<string> {
    if c.Ignored? || c.key.None? then Get(c.ev, x)
    else
      var h, own := History(before, c.key.value), Get(c.ev, x);
      var current := h != [] && h[|h| - 1].now >= c.now - EXPIRE_ELM;
      var earlier := if current then FirstUsable(SinceGap(h), x) else None;
      if own.Some? && own.value != "" then own else if earlier.Some? then earlier else own
  }

  /** Result `i` of a run is that of its call on the store of the calls before it. */
  lemma {:induction false} ResultAt(before: seq<Call>, s: State, calls: seq<Call>, i: nat)
    requires i < |calls| && s.store == FinalStore(before)
    ensures |Results(s, calls, false)| == |calls|
    ensures Results(s, calls, false)[i] == Result(State(FinalStore(before + calls[..i]), 0, 0), calls[i], false)
    decreases |calls|
  {
    var c := calls[0];
    assert (before + [c])[..|before|] == before;
    var next := Next(s, c, false);
    assert next.store == FinalStore(before + [c]);
    if |calls| > 1 {
      ResultAt(before + [c], next, calls[1..], if i > 0 then i - 1 else 0);
    }
    if i == 0 {
      assert before + calls[..0] == before;
    } else {
      assert before + [c] + calls[1..][..i - 1] == before + calls[..i];
    }
  }

  lemma {:induction false} TimelyAt(calls: seq<Call>, t: int, k: nat)
    requires Timely(calls, t) && k < |calls| && calls[k].Call?
    ensures calls[k].now >= t
    decreases |calls|
  {
    if k > 0 {
      TimelyAt(calls[1..], if calls[0].Call? then calls[0].now else t, k - 1);
    }
  }

  lemma {:induction false} HistoryIsPositive(calls: seq<Call>, key: string)
    requires forall k :: 0 <= k < |calls| && calls[k].Call? ==> calls[k].now > 0
    ensures forall j :: 0 <= j < |History(calls, key)| ==> History(calls, key)[j].now > 0
  {
    if calls != [] {
      HistoryIsPositive(calls[..|calls| - 1], key);
    }
  }

  /** A call on the store of any calls with positive times returns what the history of its key says. */
  lemma CallReturns(before: seq<Call>, c: Call, x: Field)
    requires forall k :: 0 <= k < |before| && before[k].Call? ==> before[k].now > 0
    requires c.Call? ==> c.now > 0
    ensures Get(Result(State(FinalStore(before), 0, 0), c, false), x) == Returned(before, c, x)
  {
    hide FinalStore, StoreAfter, History, SinceGap, FirstUsable, Get, Output;
    if c.Call? && c.key.Some? {
      var key := c.key.value;
      var h, e := History(before, key), Seen(c.now, c.ev);
      KeysAreIndependent(before, key);
      HistoryIsPositive(before, key);
      NoHistory(key);
      assert (h + [e])[..|h|] == h;
      SameOutput(FinalStore(before), StoreAfter(key, h), key, c.now, c.ev);
      ReturnedEvent(key, h + [e], x);
    }
  }

  lemma SameOutput(store: Store, other: Store, key: string, now: int, ev: Fields)
    requires (key in store <==> key in other) && (key in store ==> store[key] == other[key])
    ensures Output(store, key, now, ev) == Output(other, key, now, ev)
  {
  }

  lemma NoHistory(key: string)
    ensures StoreAfter(key, []) == map[]
  {
  }

  /** Every event of every run, purging included: with positive times and a clock that does not run
      backwards, each field is what the earlier calls with the same key say. */
  lemma EveryReturnedField(t: int, calls: seq<Call>, i: nat, x: Field)
    requires t > 0 && Timely(calls, t) && i < |calls|
    ensures |Results(State(map[], 0, t), calls, true)| == |calls|
    ensures Get(Results(State(map[], 0, t), calls, true)[i], x) == Returned(calls[..i], calls[i], x)
  {
    hide Get, Returned, Timely, Results;
    var s := State(map[], 0, t);
    PurgeIsInvisible(s, s, calls, t);
    ResultAt([], s, calls, i);
    assert [] + calls[..i] == calls[..i];
    forall k | 0 <= k < |calls| && calls[k].Call?
      ensures calls[k].now > 0
    {
      TimelyAt(calls, t, k);
    }
    CallReturns(calls[..i], calls[i], x);
  }
}
