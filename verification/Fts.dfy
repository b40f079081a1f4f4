/** The first-time-seen store of src/analysisd/fts.c, its list of recent IDS patterns and its file. */
module FirstTimeSeen {
  import opened Entities
  import opened CStrings
  import opened LineReader

  // ---------- patterns ----------

  datatype Field = Id | DstUser | SrcUser | SrcIp | DstIp | Data | SystemName | Location

  /** What `FTS` reads of an event and its decoder. */
  datatype Subject = Subject(
    decoder: string,
    fields: map<Field, string>,
    fts: set<Field>,
    ids: bool)

  /** A field the decoder asks for and the event has; the location is never NULL. */
  function Part(e: Subject, f: Field): string { if f in e.fields && f in e.fts then e.fields[f] else "" }

  /** The nine words of a pattern. */
  function Words(e: Subject): (w: seq<string>)
    ensures |w| == 9
  {
    [e.decoder, Part(e, Id), Part(e, DstUser), Part(e, SrcUser), Part(e, SrcIp), Part(e, DstIp), Part(e, Data),
     Part(e, SystemName), Part(e, Location)]
  }

  /** `_line`, cut by `snprintf`. */
  function Pattern(e: Subject): (line: string)
    ensures |line| <= LIMIT
  {
    Cut(Joined(Words(e)), LIMIT)
  }

  /** The parts are the fields the decoder asks for, and empty otherwise. */
  lemma PartIs(e: Subject, f: Field)
    ensures f in e.fts && f in e.fields ==> Part(e, f) == e.fields[f]
    ensures f !in e.fts || f !in e.fields ==> Part(e, f) == ""
  {
  }

  /** No word but the last contains a space. */
  predicate SpaceFree(e: Subject) {
    ' ' !in e.decoder && forall f: Field :: f != Location ==> ' ' !in Part(e, f)
  }

  /** Patterns that fit are equal exactly when the decoder and every part are: an event that differs in a
      field the decoder asks for has another pattern. */
  lemma SamePatternIff(e: Subject, g: Subject)
    requires SpaceFree(e) && SpaceFree(g) && |Joined(Words(e))| <= 255 && |Joined(Words(g))| <= 255
    ensures Pattern(e) == Pattern(g) <==> e.decoder == g.decoder && forall f: Field :: Part(e, f) == Part(g, f)
  {
    hide Part;
    var v, w := Words(e), Words(g);
    assert forall i :: 0 <= i < 8 ==> ' ' !in v[i] && ' ' !in w[i];
    JoinedIff(v, w);
    if v == w {
      assert e.decoder == v[0] == w[0] == g.decoder;
      forall f: Field
        ensures Part(e, f) == Part(g, f)
      {
        var i := match f case Id => 1 case DstUser => 2 case SrcUser => 3 case SrcIp => 4 case DstIp => 5
                         case Data => 6 case SystemName => 7 case Location => 8;
        assert Part(e, f) == v[i] && Part(g, f) == w[i];
      }
    }
  }

  lemma PatternIsNotEmpty(e: Subject)
    ensures Pattern(e) != ""
  {
    hide Part;
  }

  /** How far two strings agree from the start. */
  function Common(s: string, t: string): (n: nat)
    ensures n <= |s| && n <= |t| && s[..n] == t[..n]
    ensures n < |s| && n < |t| ==> s[n] != t[n]
  {
    if s == "" || t == "" || s[0] != t[0] then 0 else 1 + Common(s[1..], t[1..])
  }

  lemma {:induction false} CommonIs(s: string, t: string, n: nat)
    requires n <= |s| && n <= |t| && s[..n] == t[..n]
    requires n < |s| && n < |t| ==> s[n] != t[n]
    ensures Common(s, t) == n
    decreases n
  {
    if n > 0 {
      assert s[0] == s[..n][0] && t[0] == t[..n][0];
      assert s[1..][..n - 1] == s[..n][1..] && t[1..][..n - 1] == t[..n][1..];
      CommonIs(s[1..], t[1..], n - 1);
    }
  }

  /** `OS_StrHowClosedMatch`, for strings that are not both empty. */
  method HowClosedMatch(s: string, t: string) returns (count: nat)
    requires s != "" || t != ""
    ensures count == Common(s, t)
  {
    count := 0;
    while count < |s| && count < |t| && s[count] == t[count]
      invariant count <= |s| && count <= |t| && s[..count] == t[..count]
    {
      count := count + 1;
    }
    CommonIs(s, t, count);
  }

  /** How many of the patterns agree with `line` on more than `least` characters. */
  function Similar(recent: seq<string>, line: string, least: nat): (n: nat)
    ensures n <= |recent|
  {
    if recent == [] then 0
    else Similar(recent[1..], line, least) + if Common(recent[0], line) > least then 1 else 0
  }

  lemma {:induction false} SimilarAppend(a: seq<string>, b: seq<string>, line: string, least: nat)
    ensures Similar(a + b, line, least) == Similar(a, line, least) + Similar(b, line, least)
    decreases |a|
  {
    if a == [] {
      assert a + b == b;
    } else {
      assert (a + b)[1..] == a[1..] + b;
      SimilarAppend(a[1..], b, line, least);
    }
  }

  lemma {:induction false} ShortIsNotSimilar(recent: seq<string>, line: string, least: nat)
    requires |line| <= least
    ensures Similar(recent, line, least) == 0
    decreases |recent|
  {
    if recent != [] {
      ShortIsNotSimilar(recent[1..], line, least);
    }
  }

  /** What is stored for a pattern: of an IDS pattern with three similar recent ones, only its start. */
  function Key(recent: seq<string>, line: string, ids: bool, least: nat): (key: string)
    ensures key == line || (ids && key == Cut(line, least) && |line| > least)
  {
    if ids && Similar(recent, line, least) > 2 then
      SimilarIsLong(recent, line, least);
      Cut(line, least)
    else line
  }

  lemma {:induction false} SimilarIsLong(recent: seq<string>, line: string, least: nat)
    requires Similar(recent, line, least) > 0
    ensures |line| > least
    decreases |recent|
  {
    if Common(recent[0], line) <= least {
      SimilarIsLong(recent[1..], line, least);
    }
  }

  /** `OSList_AddData` on a list with a size limit. */
  function Pushed(recent: seq<string>, key: string, size: nat): seq<string> {
    var more := recent + [key];
    if |more| > size && |more| > 1 then more[1..] else more
  }

  // ---------- one call ----------

  /** The keys of the store, the recent IDS patterns, and the file. */
  datatype State = State(keys: set<string>, recent: seq<string>, file: string)

  /** The two settings `fts_min_size_for_str` and `fts_list_size`. */
  datatype Limits = Limits(least: nat, size: nat)

  /** The key an event can add. */
  function KeyOf(s: State, e: Subject, limits: Limits): string { Key(s.recent, Pattern(e), e.ids, limits.least) }

  /** The event is seen for the first time. */
  predicate Fires(s: State, e: Subject, limits: Limits) {
    Pattern(e) !in s.keys && KeyOf(s, e, limits) !in s.keys
  }

  function Next(s: State, e: Subject, limits: Limits): State {
    if Pattern(e) in s.keys then s else
      var key := KeyOf(s, e, limits);
      var recent := if e.ids then Pushed(s.recent, key, limits.size) else s.recent;
      if key in s.keys then s.(recent := recent) else State(s.keys + {key}, recent, s.file + key + "\n")
  }

  // ---------- runs ----------

  /** The state after a run. */
  function After(s: State, run: seq<Subject>, limits: Limits): State
    decreases |run|
  {
    if run == [] then s else After(Next(s, run[0], limits), run[1..], limits)
  }

  /** The keys added by a run, in order. */
  function Added(s: State, run: seq<Subject>, limits: Limits): seq<string>
    decreases |run|
  {
    if run == [] then [] else
      (if Fires(s, run[0], limits) then [KeyOf(s, run[0], limits)] else [])
          + Added(Next(s, run[0], limits), run[1..], limits)
  }

  function Elements(keys: seq<string>): (r: set<string>)
    ensures forall k :: k in r <==> k in keys
  {
    set k | k in keys
  }

  /** A run only adds keys, each once. */
  lemma {:induction false} AddedOnce(s: State, run: seq<Subject>, limits: Limits)
    ensures After(s, run, limits).keys == s.keys + Elements(Added(s, run, limits))
    ensures forall k <- Added(s, run, limits) :: k !in s.keys
    ensures var added := Added(s, run, limits); forall i, j :: 0 <= i < j < |added| ==> added[i] != added[j]
    decreases |run|
  {
    hide Pattern, Key, Pushed;
    if run != [] {
      var next := Next(s, run[0], limits);
      AddedOnce(next, run[1..], limits);
      AddedStep(s, run, limits);
    }
  }

  lemma AddedStep(s: State, run: seq<Subject>, limits: Limits)
    requires run != []
    ensures var key := KeyOf(s, run[0], limits);
            var rest := Added(Next(s, run[0], limits), run[1..], limits);
            if Fires(s, run[0], limits) then
              Added(s, run, limits) == [key] + rest && Next(s, run[0], limits).keys == s.keys + {key} && key !in s.keys
              && Next(s, run[0], limits).file == s.file + key + "\n"
            else
              Added(s, run, limits) == rest && Next(s, run[0], limits).keys == s.keys
                  && Next(s, run[0], limits).file == s.file
  {
    hide Pattern, Key, Pushed;
  }

  /** The file receives the added keys in order, and nothing else. */
  lemma {:induction false} AddedToFile(s: State, run: seq<Subject>, limits: Limits)
    ensures After(s, run, limits).file == s.file + FileText(Added(s, run, limits))
    decreases |run|
  {
    hide Next, Fires, KeyOf, Added;
    if run == [] {
      assert Added(s, run, limits) == [] by { NothingAdded(s, limits); }
      assert s.file + "" == s.file;
    } else {
      AddedToFile(Next(s, run[0], limits), run[1..], limits);
      AddedStep(s, run, limits);
      var key, rest := KeyOf(s, run[0], limits), Added(Next(s, run[0], limits), run[1..], limits);
      assert ([key] + rest)[1..] == rest;
      assert s.file + key + "\n" + FileText(rest) == s.file + (key + "\n" + FileText(rest));
    }
  }

  lemma NothingAdded(s: State, limits: Limits)
    ensures Added(s, [], limits) == []
  {
  }

  /** The lines `FTS` appends. */
  function FileText(keys: seq<string>): string {
    if keys == [] then "" else keys[0] + "\n" + FileText(keys[1..])
  }

  /** After a run, an event that is not from an IDS fires exactly when its pattern was not in the store at
      the start and no event of the run added it. */
  lemma FiresAtFirstOccurrence(s: State, run: seq<Subject>, e: Subject, limits: Limits)
    requires !e.ids
    ensures Fires(After(s, run, limits), e, limits) <==> Pattern(e) !in s.keys && Pattern(e) !in Added(s, run, limits)
  {
    AddedOnce(s, run, limits);
  }

  /** Without IDS events, that is: not in the store at the start and not seen in the run. */
  lemma {:induction false} PlainPatternsAreAdded(s: State, run: seq<Subject>, limits: Limits, line: string)
    requires forall i :: 0 <= i < |run| ==> !run[i].ids
    ensures line in After(s, run, limits).keys 
            <==> line in s.keys || exists i :: 0 <= i < |run| && Pattern(run[i]) == line
    decreases |run|
  {
    hide Pattern;
    if run != [] {
      PlainPatternsAreAdded(Next(s, run[0], limits), run[1..], limits, line);
      if i :| 0 <= i < |run| && Pattern(run[i]) == line {
        assert i > 0 ==> run[1..][i - 1] == run[i];
      }
      if i :| 0 <= i < |run| - 1 && Pattern(run[1..][i]) == line {
        assert run[i + 1] == run[1..][i];
      }
    }
  }

  // ---------- similar patterns ----------

  /** No recent pattern is similar to three older ones of the list. */
  predicate NoFlood(recent: seq<string>, least: nat) {
    forall i :: 0 <= i < |recent| ==> Similar(recent[..i], recent[i], least) <= 2
  }

  lemma PushedNoFlood(recent: seq<string>, key: string, size: nat, least: nat)
    requires NoFlood(recent, least) && Similar(recent, key, least) <= 2
    ensures NoFlood(Pushed(recent, key, size), least)
  {
    hide Similar;
    var more := recent + [key];
    forall i | 0 <= i < |more| ensures Similar(more[..i], more[i], least) <= 2 {
      assert more[..i] == recent[..i];
      assert i == |recent| ==> recent[..i] == recent;
    }
    OldestDropped(more, least);
  }

  lemma OldestDropped(recent: seq<string>, least: nat)
    requires NoFlood(recent, least) && recent != []
    ensures NoFlood(recent[1..], least)
  {
    forall i | 0 <= i < |recent| - 1 ensures Similar(recent[1..][..i], recent[1..][i], least) <= 2 {
      assert recent[..i + 1][1..] == recent[1..][..i];
      assert Similar(recent[..i + 1], recent[i + 1], least) <= 2;
    }
  }

  /** In every reachable state the list of recent patterns is free of floods. */
  lemma {:induction false} FloodsAreCutShort(s: State, run: seq<Subject>, limits: Limits)
    requires NoFlood(s.recent, limits.least)
    ensures NoFlood(After(s, run, limits).recent, limits.least)
    decreases |run|
  {
    hide Pattern, Pushed, NoFlood;
    if run != [] {
      var e := run[0];
      var key := KeyOf(s, e, limits);
      if e.ids && Pattern(e) !in s.keys {
        if Similar(s.recent, Pattern(e), limits.least) > 2 {
          ShortIsNotSimilar(s.recent, key, limits.least);
        }
        PushedNoFlood(s.recent, key, limits.size, limits.least);
      }
      FloodsAreCutShort(Next(s, e, limits), run[1..], limits);
    }
  }

  // ---------- the list of recent patterns ----------

  /** The last `size` of the patterns. */
  function Window(keys: seq<string>, size: nat): seq<string> {
    if |keys| <= size then keys else keys[|keys| - size..]
  }

  lemma PushedIsWindow(keys: seq<string>, key: string, size: nat)
    requires size > 0
    ensures Pushed(Window(keys, size), key, size) == Window(keys + [key], size)
  {
  }

  /** The keys that IDS events put on the list: those of all events whose pattern was not in the store. */
  function Listed(s: State, run: seq<Subject>, limits: Limits): seq<string>
    decreases |run|
  {
    if run == [] then [] else
      (if run[0].ids && Pattern(run[0]) !in s.keys then [KeyOf(s, run[0], limits)] else [])
      + Listed(Next(s, run[0], limits), run[1..], limits)
  }

  /** In every reachable state the list holds the last `fts_list_size` of them. */
  lemma {:induction false} RecentAreLast(keys: seq<string>, s: State, run: seq<Subject>, limits: Limits)
    requires limits.size > 0 && s.recent == Window(keys, limits.size)
    ensures After(s, run, limits).recent == Window(keys + Listed(s, run, limits), limits.size)
    decreases |run|
  {
    hide Pattern, Pushed, Window, KeyOf;
    if run == [] {
      assert keys + [] == keys;
    } else {
      var e := run[0];
      var next, rest := Next(s, e, limits), Listed(Next(s, e, limits), run[1..], limits);
      if e.ids && Pattern(e) !in s.keys {
        var key := KeyOf(s, e, limits);
        PushedIsWindow(keys, key, limits.size);
        RecentAreLast(keys + [key], next, run[1..], limits);
        assert keys + [key] + rest == keys + ([key] + rest);
      } else {
        RecentAreLast(keys, next, run[1..], limits);
        assert [] + rest == rest;
      }
    }
  }

  /** A pattern is cut exactly when it is from an IDS and three of the recent ones share a start with it that
      is longer than the limit; what is stored is then its start of that length. */
  lemma KeyIs(recent: seq<string>, line: string, ids: bool, least: nat)
    ensures var three := exists i, j, k :: 0 <= i < j < k < |recent|
                           && Common(recent[i], line) > least && Common(recent[j], line) > least
                           && Common(recent[k], line) > least;
            Key(recent, line, ids, least)
            == if ids && three then line[..if |line| < least then |line| else least] else line
  {
    ThreeAreSimilar(recent, line, least);
  }

  lemma {:induction false} OneIsSimilar(recent: seq<string>, line: string, least: nat)
    ensures Similar(recent, line, least) > 0 <==> exists i :: 0 <= i < |recent| && Common(recent[i], line) > least
  {
    hide Common;
    if recent != [] {
      OneIsSimilar(recent[1..], line, least);
      assert forall i :: 0 <= i < |recent| - 1 ==> recent[1..][i] == recent[i + 1];
      assert forall i :: 0 < i < |recent| ==> recent[i] == recent[1..][i - 1];
    }
  }

  lemma {:induction false} TwoAreSimilar(recent: seq<string>, line: string, least: nat)
    ensures Similar(recent, line, least) > 1
       <==> exists i, j :: 0 <= i < j < |recent| && Common(recent[i], line) > least && Common(recent[j], line) > least
  {
    hide Common;
    if recent != [] {
      OneIsSimilar(recent[1..], line, least);
      TwoAreSimilar(recent[1..], line, least);
      assert forall i :: 0 <= i < |recent| - 1 ==> recent[1..][i] == recent[i + 1];
      assert forall i :: 0 < i < |recent| ==> recent[i] == recent[1..][i - 1];
    }
  }

  lemma {:induction false} ThreeAreSimilar(recent: seq<string>, line: string, least: nat)
    ensures Similar(recent, line, least) > 2
       <==> exists i, j, k :: 0 <= i < j < k < |recent| && Common(recent[i], line) > least
              && Common(recent[j], line) > least && Common(recent[k], line) > least
  {
    hide Common;
    if recent != [] {
      TwoAreSimilar(recent[1..], line, least);
      ThreeAreSimilar(recent[1..], line, least);
      assert forall i :: 0 <= i < |recent| - 1 ==> recent[1..][i] == recent[i + 1];
      assert forall i :: 0 < i < |recent| ==> recent[i] == recent[1..][i - 1];
    }
  }

  // ---------- the file ----------

  /** A loaded key: what was read, up to its newline. */
  function Stripped(chunks: seq<string>): (keys: set<string>)
    ensures forall k :: k in keys <==> exists i :: 0 <= i < |chunks| && Before(chunks[i], '\n') == k
  {
    set i | 0 <= i < |chunks| :: Before(chunks[i], '\n')
  }

  /** The keys `FTS_Init` reads from a file. */
  function Loaded(file: string): set<string> { Stripped(Chunks(file)) }

  lemma StrippedAppend(a: seq<string>, b: seq<string>)
    ensures Stripped(a + b) == Stripped(a) + Stripped(b)
  {
    var all := a + b;
    forall k ensures k in Stripped(all) <==> k in Stripped(a) + Stripped(b) {
      if i :| 0 <= i < |a| && Before(a[i], '\n') == k {
        assert Before(all[i], '\n') == k;
      }
      if i :| 0 <= i < |b| && Before(b[i], '\n') == k {
        assert Before(all[|a| + i], '\n') == k;
      }
    }
  }

  /** A key appended to the file is read back; one as long as the buffer brings an empty key with it. */
  lemma LoadedAppend(file: string, key: string)
    requires EndsLine(file) && '\n' !in key && |key| <= LIMIT
    ensures Loaded(file + key + "\n") == Loaded(file) + {key} + if |key| == LIMIT then {""} else {}
  {
    hide Chunks, ChunkLength, Stripped;
    assert file + key + "\n" == file + (key + "\n");
    ChunksAppend(file, key + "\n");
    ChunksOfLine(key);
    StrippedAppend(Chunks(file), Chunks(key + "\n"));
    StrippedLine(key);
  }

  lemma StrippedLine(key: string)
    requires '\n' !in key
    ensures Stripped([key + "\n"]) == {key} && Stripped([key, "\n"]) == {key, ""}
  {
    BeforeIs(key + "\n", '\n', key);
    BeforeIs("\n", '\n', "");
    assert [key + "\n"][0] == key + "\n";
    var two := [key, "\n"];
    assert two[0] == key && two[1] == "\n";
    assert |Before(key, '\n')| == |key|;
  }

  /** No pattern of the run contains a newline. */
  predicate OneLine(run: seq<Subject>) { forall i :: 0 <= i < |run| ==> '\n' !in Pattern(run[i]) }

  /** After a run that started with the keys of the file, a reload gives the keys of the store, and the
      empty key if one of the added keys filled the buffer. */
  lemma {:induction false} ReloadAfterRun(s: State, run: seq<Subject>, limits: Limits)
    requires EndsLine(s.file) && OneLine(run)
    ensures EndsLine(After(s, run, limits).file)
    ensures Loaded(After(s, run, limits).file)
         == Loaded(s.file) + Elements(Added(s, run, limits))
            + if exists k <- Added(s, run, limits) :: |k| == LIMIT then {""} else {}
    decreases |run|
  {
    hide Pattern, Pushed, Chunks, Loaded;
    if run != [] {
      var next := Next(s, run[0], limits);
      assert '\n' !in Pattern(run[0]);
      if Fires(s, run[0], limits) {
        LoadedAppend(s.file, KeyOf(s, run[0], limits)) by { CutHasNone(s, run[0], limits); }
      }
      assert forall i :: 0 <= i < |run| - 1 ==> run[1..][i] == run[i + 1];
      ReloadAfterRun(next, run[1..], limits);
      ReloadStep(s, run, limits);
    }
  }

  lemma CutHasNone(s: State, e: Subject, limits: Limits)
    requires '\n' !in Pattern(e)
    ensures '\n' !in KeyOf(s, e, limits) && |KeyOf(s, e, limits)| <= LIMIT
  {
    hide Pattern, Key;
    var key, line := KeyOf(s, e, limits), Pattern(e);
    assert key == line || key == Cut(line, limits.least);
    assert forall i :: 0 <= i < |key| ==> key[i] == line[i];
  }

  lemma ReloadStep(s: State, run: seq<Subject>, limits: Limits)
    requires run != []
    ensures var added, rest := Added(s, run, limits), Added(Next(s, run[0], limits), run[1..], limits);
            var key := KeyOf(s, run[0], limits);
            if Fires(s, run[0], limits) then
              && Elements(added) == {key} + Elements(rest)
              && ((exists k <- added :: |k| == LIMIT) <==> |key| == LIMIT || exists k <- rest :: |k| == LIMIT)
            else added == rest
  {
    hide Pattern, Key;
  }

  /** A restart after a run rebuilds the store exactly when no added key filled the buffer or the empty key
      was there anyway; no key is lost in any case. */
  lemma ReloadRebuildsIff(s: State, run: seq<Subject>, limits: Limits)
    requires EndsLine(s.file) && OneLine(run) && s.keys == Loaded(s.file)
    ensures var t := After(s, run, limits);
            && t.keys <= Loaded(t.file)
            && (Loaded(t.file) == t.keys <==> "" in t.keys || forall k <- Added(s, run, limits) :: |k| < LIMIT)
  {
    hide After, Added, Loaded;
    AddedOnce(s, run, limits);
    ReloadAfterRun(s, run, limits);
    AddedFit(s, run, limits);
  }

  lemma {:induction false} AddedFit(s: State, run: seq<Subject>, limits: Limits)
    ensures forall k <- Added(s, run, limits) :: |k| <= LIMIT
    decreases |run|
  {
    hide Pattern;
    if run != [] {
      AddedFit(Next(s, run[0], limits), run[1..], limits);
    }
  }

  // ---------- the store ----------

  class Fts {
    const limits: Limits
    const ftsStore: OSHash<string>
    var ftsList: seq<string>
    var file: string

    ghost predicate Valid()
      reads this`ftsList, ftsStore
    {
      && NoFlood(ftsList, limits.least)
      && forall k <- ftsStore.table :: ftsStore.table[k] == k
    }

    ghost function Model(): State
      reads this`ftsList, this`file, ftsStore
    {
      State(ftsStore.table.Keys, ftsList, file)
    }

    /** `FTS_Init`: the store is loaded from the file. */
    constructor (limits: Limits, file: string)
      ensures Valid() && fresh(ftsStore) && this.limits == limits
      ensures Model() == State(Loaded(file), [], file)
    {
      this.limits := limits;
      ftsStore := new OSHash();
      ftsList := [];
      this.file := file;
      new;
      Load();
    }

    /** The load loop; a key that is there already is not added again. */
    method Load()
      requires ftsStore.table == map[]
      modifies ftsStore
      ensures ftsStore.table.Keys == Loaded(file) && forall k <- ftsStore.table :: ftsStore.table[k] == k
    {
      hide Chunks, ChunkLength, Loaded;
      var position := 0;
      assert file[0..] == file;
      while position < |file|
        invariant position <= |file|
        invariant forall k <- ftsStore.table :: ftsStore.table[k] == k
        invariant ftsStore.table.Keys + Loaded(file[position..]) == Loaded(file)
      {
        var line, next := Fgets(file, position);
        FirstLoaded(file, position, next, line);
        var key := Before(line, '\n');
        var code := ftsStore.Add(key, key);
        position := next;
      }
      NothingLoaded();
      assert file[|file|..] == "";
    }

    /** The loop over the list, newest first: stops at the third similar pattern. */
    method ThreeSimilar(line: string) returns (cut: bool)
      requires line != ""
      ensures cut <==> Similar(ftsList, line, limits.least) > 2
    {
      var matches := 0;
      var i := |ftsList|;
      while i > 0
        invariant 0 <= i <= |ftsList|
        invariant matches == Similar(ftsList[i..], line, limits.least) <= 2
      {
        i := i - 1;
        assert ftsList[i..][1..] == ftsList[i + 1..];
        var count := HowClosedMatch(ftsList[i], line);
        if count > limits.least {
          matches := matches + 1;
          if matches > 2 {
            SimilarAppend(ftsList[..i], ftsList[i..], line, limits.least);
            assert ftsList[..i] + ftsList[i..] == ftsList;
            return true;
          }
        }
      }
      assert ftsList[0..] == ftsList;
      return false;
    }

    /** `FTS`: whether the pattern of the event is new; a new one goes into the store and the file. */
    method Check(lf: Subject) returns (fired: bool)
      requires Valid()
      modifies this`ftsList, this`file, ftsStore
      ensures Valid()
      ensures fired == Fires(old(Model()), lf, limits) && Model() == Next(old(Model()), lf, limits)
    {
      hide Pattern, NoFlood, Pushed, Similar;
      var line := Pattern(lf);
      PatternIsNotEmpty(lf);
      var present := ftsStore.Lookup(line);
      if present.Some? {
        return false;
      }
      if lf.ids {
        var cut := ThreeSimilar(line);
        if cut {
          line := Cut(line, limits.least);
          ShortIsNotSimilar(ftsList, line, limits.least);
        }
        PushedNoFlood(ftsList, line, limits.size, limits.least);
        ftsList := Pushed(ftsList, line, limits.size);
      }
      var code := ftsStore.Add(line, line);
      if code <= 1 {
        return false;
      }
      file := file + line + "\n";
      return true;
    }
  }

  lemma FirstLoaded(file: string, position: nat, next: nat, line: string)
    requires position <= next <= |file| && Chunks(file[position..]) == [line] + Chunks(file[next..])
    ensures Loaded(file[position..]) == {Before(line, '\n')} + Loaded(file[next..])
  {
    hide Chunks, Stripped;
    StrippedAppend([line], Chunks(file[next..]));
    assert [line][0] == line;
    assert Stripped([line]) == {Before(line, '\n')} by { StrippedOne(line); }
  }

  lemma NothingLoaded()
    ensures Loaded("") == {}
  {
  }

  lemma StrippedOne(line: string)
    ensures Stripped([line]) == {Before(line, '\n')}
  {
    assert [line][0] == line;
  }
}
