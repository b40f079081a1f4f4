/** The events that arrive at the accumulator of src/analysisd/accumulator.c: which of them share an entry, and
    what a run returns for each of them. */
module Arrivals {
  import opened Entities
  import opened Accumulation
  import opened CStrings

  /** An event that arrives, with the clock readings of its call. */
  datatype Arrival =
    Arrival(host: string, decoder: Option<string>, id: Option<string>, ev: Fields, purgeTime: int, now: int)

  /** The call for it: the key is built by `snprintf` into a buffer of 256 characters. */
  function CallOf(a: Arrival): Call {
    if a.id.None? || a.decoder.None? then Ignored(a.ev)
    else
      var key := a.host + " " + a.decoder.value + " " + a.id.value;
      Call.Call(if |key| < MAXKEY then Some(key) else None, a.purgeTime, a.now, a.ev)
  }

  predicate Keyed(a: Arrival) { CallOf(a).Call? && CallOf(a).key.Some? }

  function KeyOf(a: Arrival): string
    requires Keyed(a)
  {
    CallOf(a).key.value
  }

  /** An event has no entry exactly when its id or its decoder is missing, or the host name, the decoder and
      the id with two spaces have 256 or more characters. */
  lemma KeyedIff(a: Arrival)
    ensures Keyed(a) <==> a.id.Some? && a.decoder.Some? && |a.host| + |a.decoder.value| + |a.id.value| + 2 <= 255
  {
  }

  // ---------- equal keys ----------

  /** Of the three parts of a key, the same two contain no space in both events. */
  predicate Separable(a: Arrival, b: Arrival)
    requires Keyed(a) && Keyed(b)
  {
    var h := ' ' !in a.host && ' ' !in b.host;
    var d := ' ' !in a.decoder.value && ' ' !in b.decoder.value;
    var i := ' ' !in a.id.value && ' ' !in b.id.value;
    (h && d) || (h && i) || (d && i)
  }

  /** Two such events share an entry exactly when host name, decoder and id are all equal. */
  lemma SameKeyIff(a: Arrival, b: Arrival)
    requires Keyed(a) && Keyed(b) && Separable(a, b)
    ensures KeyOf(a) == KeyOf(b) <==> a.host == b.host && a.decoder == b.decoder && a.id == b.id
  {
    if KeyOf(a) == KeyOf(b) {
      var h, d, i := a.host, a.decoder.value, a.id.value;
      var k, e, j := b.host, b.decoder.value, b.id.value;
      assert h + " " + d + " " + i == h + " " + (d + " " + i);
      assert k + " " + e + " " + j == k + " " + (e + " " + j);
      if ' ' !in h && ' ' !in k {
        SplitLeft(h, d + " " + i, k, e + " " + j);
        if ' ' !in d && ' ' !in e {
          SplitLeft(d, i, e, j);
        } else {
          SplitRight(d, i, e, j);
        }
      } else {
        SplitRight(h + " " + d, i, k + " " + e, j);
        SplitRight(h, d, k, e);
      }
    }
  }

  /** With spaces in two of the parts, different events can share an entry. */
  lemma SpacesCanCollide(ev: Fields)
    ensures var a, b := Arrival("a b", Some("c"), Some("d"), ev, 1, 1), Arrival("a", Some("b c"), Some("d"), ev, 1, 1);
            Keyed(a) && Keyed(b) && KeyOf(a) == KeyOf(b) && a.host != b.host
  {
    assert "a b" + " " + "c" + " " + "d" == "a" + " " + "b c" + " " + "d";
  }

  // ---------- what a run returns ----------

  function CallsOf(arrivals: seq<Arrival>): (calls: seq<Call>)
    ensures |calls| == |arrivals| && forall i :: 0 <= i < |calls| ==> calls[i] == CallOf(arrivals[i])
  {
    seq(|arrivals|, i requires 0 <= i < |arrivals| => CallOf(arrivals[i]))
  }

  /** The events with an entry that have the host name, the decoder and the id of `a`. */
  function SameSource(arrivals: seq<Arrival>, a: Arrival): seq<Seen> {
    if arrivals == [] then []
    else
      var b := arrivals[|arrivals| - 1];
      SameSource(arrivals[..|arrivals| - 1], a)
      + if Keyed(b) && b.host == a.host && b.decoder == a.decoder && b.id == a.id then [Seen(b.now, b.ev)] else []
  }

  predicate AllSeparable(arrivals: seq<Arrival>, a: Arrival)
    requires Keyed(a)
  {
    forall i :: 0 <= i < |arrivals| && Keyed(arrivals[i]) ==> Separable(arrivals[i], a)
  }

  lemma {:induction false} HistoryIsSameSource(arrivals: seq<Arrival>, a: Arrival)
    requires Keyed(a) && AllSeparable(arrivals, a)
    ensures History(CallsOf(arrivals), KeyOf(a)) == SameSource(arrivals, a)
  {
    hide CallOf, Separable;
    if arrivals != [] {
      var n := |arrivals| - 1;
      var b := arrivals[n];
      HistoryIsSameSource(arrivals[..n], a);
      assert CallsOf(arrivals)[..n] == CallsOf(arrivals[..n]);
      if Keyed(b) {
        SameKeyIff(b, a);
        CallIs(b);
      }
    }
  }

  lemma CallIs(a: Arrival)
    ensures CallOf(a).ev == a.ev && (CallOf(a).Call? ==> CallOf(a).now == a.now && CallOf(a).purgeTime == a.purgeTime)
  {
  }

  /** In every run with a positive clock that does not run backwards, purging included: field `x` of a
      returned event is its own value unless that is missing or empty; else the first usable value of the
      earlier events with the same host name, decoder and id since their last gap of more than 120
      seconds, if the last of them is at most 120 seconds old.  Events without an entry return as they are. */
  lemma EveryArrivalReturns(t: int, arrivals: seq<Arrival>, i: nat, x: Field)
    requires t > 0 && Timely(CallsOf(arrivals), t) && i < |arrivals|
    requires Keyed(arrivals[i]) ==> AllSeparable(arrivals[..i], arrivals[i])
    ensures |Results(State(map[], 0, t), CallsOf(arrivals), true)| == |arrivals|
    ensures var a := arrivals[i];
            var own, h := Get(a.ev, x), SameSource(arrivals[..i], a);
            var earlier := if h != [] && a.now - h[|h| - 1].now <= 120 then FirstUsable(SinceGap(h), x) else None;
            Get(Results(State(map[], 0, t), CallsOf(arrivals), true)[i], x)
            == if !Keyed(a) || (own.Some? && own.value != "") || earlier.None? then own else earlier
  {
    hide CallOf, Timely, Results, History, SameSource, SinceGap, FirstUsable, AllSeparable, Get;
    EveryReturnedField(t, CallsOf(arrivals), i, x);
    assert CallsOf(arrivals)[..i] == CallsOf(arrivals[..i]);
    CallIs(arrivals[i]);
    if Keyed(arrivals[i]) {
      HistoryIsSameSource(arrivals[..i], arrivals[i]);
    }
  }

  // ---------- the terms of that theorem ----------

  /** The first usable value is the first one of 1 to 80 characters. */
  lemma {:induction false} FirstUsableIs(h: seq<Seen>, x: Field) returns (k: nat)
    ensures k <= |h|
    ensures forall j :: 0 <= j < k ==>
              Get(h[j].ev, x).None? || |Get(h[j].ev, x).value| == 0 || |Get(h[j].ev, x).value| > 80
    ensures k < |h| ==> Get(h[k].ev, x).Some? && 1 <= |Get(h[k].ev, x).value| <= 80
    ensures FirstUsable(h, x) == if k < |h| then Get(h[k].ev, x) else None
  {
    hide Get;
    if h == [] || Usable(Get(h[0].ev, x)) {
      k := 0;
    } else {
      var m := FirstUsableIs(h[1..], x);
      k := m + 1;
      assert forall j :: 0 < j < |h| ==> h[j] == h[1..][j - 1];
    }
  }

  /** The events since the last gap: the longest end of the history without a gap of more than 120 seconds. */
  lemma {:induction false} SinceGapIs(h: seq<Seen>) returns (m: nat)
    requires h != []
    ensures m < |h| && SinceGap(h) == h[m..]
    ensures forall j :: m < j < |h| ==> h[j].now - h[j - 1].now <= 120
    ensures m > 0 ==> h[m].now - h[m - 1].now > 120
  {
    var n := |h| - 1;
    if n == 0 {
      m := 0;
      assert h[0..] == h;
    } else if h[n - 1].now < h[n].now - EXPIRE_ELM {
      m := n;
      assert h[n..] == [h[n]];
    } else {
      m := SinceGapIs(h[..n]);
      SuffixMore(h, m);
    }
  }

  lemma SuffixMore(h: seq<Seen>, m: nat)
    requires m < |h|
    ensures h[m..] == h[..|h| - 1][m..] + [h[|h| - 1]]
  {
  }
}
