/** Runs of calls on the key file of src/addagent/validate.c: whether a number is handed out twice. */
module KeyRuns {
  import opened Entities
  import opened CStrings
  import opened LineReader
  import opened KeyFile

  /** The numbers that a run of calls hands out. */
  ghost function HandedOut(file: Option<string>, calls: seq<Call>, agents: nat): (r: seq<Option<nat>>)
    ensures |r| == |calls|
    decreases |calls|
  {
    if calls == [] then []
    else [Chosen(file, calls[0], agents)] + HandedOut(After(file, calls[0], agents), calls[1..], agents)
  }

  /** The limits that the callers of `OS_AddNewAgent` check: no newline, two MD5 sums, and one buffer, in
      which the line comes behind some characters. */
  predicate Fits(call: Call, behind: nat := 0) {
    call.Add? ==>
      && |call.key| == 64
      && '\n' !in call.name && '\n' !in call.key
      && (call.id.Some? ==> '\n' !in call.id.value)
      && (call.ip.Some? ==> '\n' !in call.ip.value)
      && (if call.id.Some? then |call.id.value| else 7) + |call.name|
         + (if call.ip.Some? then |call.ip.value| else 3) + |call.key| + 3 + behind <= 254
  }

  predicate AllRoomy(chunks: seq<string>) {
    forall i :: 0 <= i < |chunks| ==> chunks[i] != "" && Roomy(chunks[i])
  }

  /** Complete lines, each with room for a tombstone. */
  predicate Sound(file: Option<string>) { EndsLine(Text(file)) && AllRoomy(Chunks(Text(file))) }

  lemma LineIsRoomy(id: string, name: string, ip: Option<string>, key: string)
    requires |key| == 64 && '\n' !in id && '\n' !in name && '\n' !in key && (ip.Some? ==> '\n' !in ip.value)
    requires |id| + |name| + (if ip.Some? then |ip.value| else 3) + |key| + 3 <= 254
    ensures AllRoomy(Chunks(Line(id, name, ip, key) + "\n"))
  {
    hide Chunks;
    var line := Line(id, name, ip, key);
    var tail := name + " " + (if ip.Some? then ip.value else "any") + " " + key;
    assert line == id + " " + tail;
    LineOfPartsIsRoomy(id, tail);
  }

  lemma LineOfPartsIsRoomy(id: string, tail: string)
    requires |tail| >= 64 && |id| + |tail| < 254 && '\n' !in id && '\n' !in tail
    ensures AllRoomy(Chunks(id + " " + tail + "\n"))
  {
    hide Chunks;
    var line := id + " " + tail;
    ChunksOfLine(line);
    var chunk := line + "\n";
    assert chunk[|id|] == ' ';
    assert ' ' in chunk;
    assert |Before(chunk, ' ')| <= |id|;
    assert Roomy(chunk);
  }

  lemma AfterAdd(text: string, line: string)
    requires EndsLine(text) && AllRoomy(Chunks(text)) && AllRoomy(Chunks(line + "\n"))
    ensures EndsLine(text + line + "\n") && AllRoomy(Chunks(text + line + "\n"))
  {
    hide Chunks, Roomy;
    ChunksAppend(text, line + "\n");
    assert text + line + "\n" == text + (line + "\n");
  }

  lemma AfterRemoval(text: string, id: string)
    requires EndsLine(text) && AllRoomy(Chunks(text))
    ensures EndsLine(Removed(text, id)) && AllRoomy(Chunks(Removed(text, id)))
  {
    hide Chunks, Removed, Buried, Roomy;
    var chunks := Chunks(text);
    var k := FindIn(chunks, id);
    if k < |chunks| {
      RemovalBuriesOneLine(text, id);
      BuriedIsRoomy(text, k);
    } else {
      RemovedNothing(text, id);
    }
  }

  lemma RemovedNothing(text: string, id: string)
    requires FindIn(Chunks(text), id) == |Chunks(text)|
    ensures Removed(text, id) == text
  {
  }

  lemma BuriedIsRoomy(text: string, k: nat)
    requires k < |Chunks(text)| && Roomy(Chunks(text)[k]) && IdOf(Chunks(text)[k]).Some?
    ensures Buried(Chunks(text)[k]) != "" && Roomy(Buried(Chunks(text)[k]))
  {
    hide Chunks, Buried, IdOf;
    ChunksAreChunks(text, k);
    BuriedKeeps(Chunks(text)[k]);
  }

  /** Every call keeps the file sound. */
  lemma SoundAfter(file: Option<string>, call: Call, agents: nat)
    requires Sound(file) && Fits(call)
    ensures Sound(After(file, call, agents))
  {
    hide Chunks, AllRoomy, Line, Removed;
    if call.Add? {
      var id := NewId(file, call, agents);
      if id.Some? {
        LineIsRoomy(id.value, call.name, call.ip, call.key);
        AfterAdd(Text(file), Line(id.value, call.name, call.ip, call.key));
      }
    } else if file.Some? {
      AfterRemoval(file.value, call.agent);
    }
  }

  /** A number once in the file stays there. */
  lemma TakenStays(file: Option<string>, call: Call, agents: nat, n: int)
    requires Sound(file) && Fits(call) && Taken(Text(file), n)
    ensures Taken(Text(After(file, call, agents)), n)
  {
    hide Chunks, Taken, Line, Removed, Roomy;
    if call.Add? {
      var id := NewId(file, call, agents);
      if id.Some? {
        var line := Line(id.value, call.name, call.ip, call.key);
        TakenAppend(Text(file), line + "\n", n);
        assert Text(file) + line + "\n" == Text(file) + (line + "\n");
      }
    } else if file.Some? {
      TakenAfterRemoval(file.value, call.agent, n);
    }
  }

  /** A number that was handed out is in the file. */
  lemma ChosenIsTaken(file: Option<string>, call: Call, agents: nat)
    requires Sound(file) && Fits(call) && FIRST + agents <= 10000000
    requires Chosen(file, call, agents).Some?
    ensures Taken(Text(After(file, call, agents)), Chosen(file, call, agents).value)
  {
    hide Chunks, Taken, Line, Removed;
    var n := Chosen(file, call, agents).value;
    DecimalLength(n, Power10(7), 7) by { SevenDigits(); }
    assert NewId(file, call, agents) == Some(Decimal(n));
    var line := Line(Decimal(n), call.name, call.ip, call.key);
    LineIsNumbered(n, call.name, call.ip, call.key);
    TakenAppend(Text(file), line + "\n", n);
    assert Text(file) + line + "\n" == Text(file) + (line + "\n");
  }

  /** A run hands out no number that was in the file before. */
  lemma {:induction false} HandedOutAreFree(file: Option<string>, calls: seq<Call>, agents: nat, i: nat)
    requires Sound(file) && (forall k :: 0 <= k < |calls| ==> Fits(calls[k])) && i < |calls|
    requires HandedOut(file, calls, agents)[i].Some?
    ensures var n := HandedOut(file, calls, agents)[i].value;
            FIRST <= n < FIRST + agents && !Taken(Text(file), n)
    decreases |calls|
  {
    hide Taken, Sound, After, Fits;
    if i > 0 {
      var next := After(file, calls[0], agents);
      SoundAfter(file, calls[0], agents);
      HandedOutAreFree(next, calls[1..], agents, i - 1);
      var n := HandedOut(next, calls[1..], agents)[i - 1].value;
      if Taken(Text(file), n) {
        TakenStays(file, calls[0], agents, n);
      }
    }
  }

  /** Over any run of additions and removals on a sound file no number is handed out twice. */
  lemma {:induction false} SoundNeverReuses(file: Option<string>, calls: seq<Call>, agents: nat, i: nat, j: nat)
    requires Sound(file) && (forall k :: 0 <= k < |calls| ==> Fits(calls[k]))
    requires FIRST + agents <= 10000000 && i < j < |calls|
    requires HandedOut(file, calls, agents)[i].Some? && HandedOut(file, calls, agents)[j].Some?
    ensures HandedOut(file, calls, agents)[i] != HandedOut(file, calls, agents)[j]
    decreases |calls|
  {
    hide Taken, Sound, After, Fits, Chosen;
    var next := After(file, calls[0], agents);
    SoundAfter(file, calls[0], agents);
    if i == 0 {
      ChosenIsTaken(file, calls[0], agents);
      HandedOutAreFree(next, calls[1..], agents, j - 1);
    } else {
      SoundNeverReuses(next, calls[1..], agents, i - 1, j - 1);
    }
  }

  /** The file after a run of calls. */
  ghost function AfterAll(file: Option<string>, calls: seq<Call>, agents: nat): Option<string>
    decreases |calls|
  {
    if calls == [] then file else AfterAll(After(file, calls[0], agents), calls[1..], agents)
  }

  /** Every file that the program has written from an empty one is sound. */
  lemma {:induction false} WrittenFilesAreSound(file: Option<string>, calls: seq<Call>, agents: nat)
    requires file.None? || file.value == "" || Sound(file)
    requires forall k :: 0 <= k < |calls| ==> Fits(calls[k])
    ensures Sound(AfterAll(file, calls, agents))
    decreases |calls|
  {
    hide Fits, After;
    EmptyIsSound(file);
    if calls != [] {
      SoundAfter(file, calls[0], agents);
      WrittenFilesAreSound(After(file, calls[0], agents), calls[1..], agents);
    }
  }

  lemma EmptyIsSound(file: Option<string>)
    ensures Text(file) == "" ==> Sound(file)
  {
  }

  // ---------- unfinished last lines ----------

  /** A number behind an unfinished last line is read as that number. */
  predicate ReadsOn(last: string, n: nat) {
    last == "" || (last[0] != '#' && ' ' !in last && Atoi(last + Decimal(n)) == n)
  }

  /** The new line, appended to the unfinished one, is read as one line; it has the new number exactly when
      the number reads on, and keeps the number that the unfinished line had. */
  lemma MergedNumber(last: string, line: string, n: nat)
    requires |Decimal(n)| < |line| && line[..|Decimal(n)|] == Decimal(n) && line[|Decimal(n)|] == ' '
    requires last != "" ==> !IsNumbered(last, n)
    ensures IsNumbered(last + line + "\n", n) <==> ReadsOn(last, n)
    ensures last != "" ==> forall m :: IsNumbered(last, m) ==> IsNumbered(last + line + "\n", m)
  {
    hide Decimal, Atoi;
    var more, id := last + line + "\n", Decimal(n);
    assert line[0] == id[0];
    assert more[0] == if last == "" then line[0] else last[0];
    assert more[|last| + |id|] == ' ';
    if last != "" && ' ' in last {
      var was := Before(last, ' ');
      assert more[..|was|] == was && more[|was|] == ' ';
      BeforeIs(more, ' ', was);
    } else {
      assert more[..|last + id|] == last + id;
      assert ' ' !in last + id;
      BeforeIs(more, ' ', last + id);
      AtoiDecimal(n);
      assert last == "" ==> last + id == id;
    }
  }

  /** For example, a number reads on behind a zero, but not behind a line with an id, or a letter. */
  lemma EndsThatReadOn(n: nat)
    ensures ReadsOn("0", n) && !ReadsOn("5 x", n) && (n > 0 ==> !ReadsOn("x", n))
  {
    var id := Decimal(n);
    AtoiDecimal(n);
    assert IsDigit(id[0]);
    assert ("0" + id)[0] == '0' && ("0" + id)[1..] == id;
    assert Atoi("0" + id) == DigitsFrom(0, "0" + id) == DigitsFrom(0, id) == n;
    assert "5 x"[1] == ' ';
    assert ("x" + id)[0] == 'x';
    assert Atoi("x" + id) == DigitsFrom(0, "x" + id) == 0;
  }

  lemma ChunksOfUnfinished(text: string, last: string)
    requires EndsLine(text) && '\n' !in last && |last| < LIMIT
    ensures Chunks(text + last) == Chunks(text) + if last == "" then [] else [last]
  {
    hide Chunks, ChunkLength;
    NoChunks();
    ChunksAppend(text, last);
    if last != "" {
      FirstChunk(last, |last|);
      assert last[..|last|] == last && last[|last|..] == "";
    }
  }

  lemma TakenUnfinished(text: string, last: string, n: int)
    requires EndsLine(text) && '\n' !in last && |last| < LIMIT
    ensures Taken(text + last, n) <==> Taken(text, n) || (last != "" && IsNumbered(last, n))
  {
    hide Chunks, IsNumbered;
    ChunksOfUnfinished(text, last);
    if last == "" {
      assert text + last == text;
    } else {
      TakenInConcat(Chunks(text), [last], n);
      TakenInOne(last, n);
    }
  }

  lemma TakenMerged(text: string, last: string, line: string, n: int)
    requires EndsLine(text) && '\n' !in last && '\n' !in line && |last| + |line| < LIMIT
    ensures Taken(text + last + line + "\n", n) <==> Taken(text, n) || IsNumbered(last + line + "\n", n)
  {
    hide Chunks, IsNumbered;
    assert text + last + line + "\n" == text + (last + line + "\n");
    TakenAppend(text, last + line + "\n", n);
    ChunksOfLine(last + line);
    TakenInOne(last + line + "\n", n);
  }

  /** What an automatic call appends starts with its number. */
  lemma LineStarts(n: nat, name: string, ip: Option<string>, key: string)
    requires n < 10000000
    ensures Cut(Decimal(n), 7) == Decimal(n)
    ensures var id, line := Decimal(n), Line(Decimal(n), name, ip, key);
            |id| < |line| && line[..|id|] == id && line[|id|] == ' '
  {
    DecimalLength(n, Power10(7), 7) by { SevenDigits(); }
    var id := Decimal(n);
    var all := id + " " + (name + " " + (if ip.Some? then ip.value else "any") + " " + key);
    assert all == id + " " + name + " " + (if ip.Some? then ip.value else "any") + " " + key;
    assert all[..|id|] == id && all[|id|] == ' ';
  }

  /** Two automatic additions behind an unfinished last line: the first gets the least free number, and the
      second gets another one if and only if that number reads on. */
  lemma SecondNumber(text: string, last: string, call: Call, agents: nat)
    requires EndsLine(text) && '\n' !in last && call.Add? && call.id.None? && FIRST + agents <= 10000000
    requires LeastFree(text + last, FIRST, agents).Some?
    requires var line := Line(Decimal(LeastFree(text + last, FIRST, agents).value), call.name, call.ip, call.key);
             '\n' !in line && |last| + |line| < LIMIT
    ensures var n, r := LeastFree(text + last, FIRST, agents).value, HandedOut(Some(text + last), [call, call], agents);
            r[0] == Some(n) && (r[0] != r[1] <==> ReadsOn(last, n))
  {
    hide Chunks, Taken, IsNumbered, Line, Decimal, ReadsOn;
    var file := Some(text + last);
    var n := LeastFree(text + last, FIRST, agents).value;
    var line := Line(Decimal(n), call.name, call.ip, call.key);
    LineStarts(n, call.name, call.ip, call.key);
    var next := text + last + line + "\n";
    assert After(file, call, agents) == Some(next);
    TwoCalls(file, call, agents);
    TakenUnfinished(text, last, n);
    TakenMerged(text, last, line, n);
    MergedNumber(last, line, n);
    forall m | FIRST <= m < n
      ensures Taken(next, m)
    {
      TakenUnfinished(text, last, m);
      TakenMerged(text, last, line, m);
    }
    if !Taken(next, n) {
      LeastFreeIs(next, FIRST, agents, n);
    }
  }

  lemma TwoCalls(file: Option<string>, call: Call, agents: nat)
    ensures var r := HandedOut(file, [call, call], agents);
            r[0] == Chosen(file, call, agents) && r[1] == Chosen(After(file, call, agents), call, agents)
  {
    hide Chosen, After;
    assert [call, call][1..] == [call] && [call][1..] == [];
    assert HandedOut(After(file, call, agents), [call], agents)[0] == Chosen(After(file, call, agents), call, agents);
  }

  /** The unfinished end is neither a comment nor has an id, and the least free number reads on behind it. */
  ghost predicate GoodEnd(text: string, last: string, agents: nat) {
    var free := LeastFree(text + last, FIRST, agents);
    last == "" || (last[0] != '#' && ' ' !in last && (free.Some? ==> ReadsOn(last, free.value)))
  }

  /** Behind a good end, the first addition makes the file sound, and its number is then in the file. */
  lemma AddBehind(text: string, last: string, call: Call, agents: nat)
    requires EndsLine(text) && '\n' !in last && AllRoomy(Chunks(text)) && GoodEnd(text, last, agents)
    requires call.Add? && Fits(call, |last|) && FIRST + agents <= 10000000
    requires NewId(Some(text + last), call, agents).Some?
    ensures Sound(After(Some(text + last), call, agents))
    ensures var n := Chosen(Some(text + last), call, agents);
            n.Some? ==> Taken(Text(After(Some(text + last), call, agents)), n.value)
  {
    hide Chunks, Taken, IsNumbered, Decimal, AllRoomy, Line, ReadsOn;
    var file := Some(text + last);
    var id := NewId(file, call, agents).value;
    var line := Line(id, call.name, call.ip, call.key);
    LineBehind(last, id, call);
    assert text + last + line + "\n" == text + (last + line + "\n");
    AfterAddition(text, last + line);
    if Chosen(file, call, agents).Some? {
      BehindIsTaken(text, last, call, agents);
    }
  }

  lemma BehindIsTaken(text: string, last: string, call: Call, agents: nat)
    requires EndsLine(text) && '\n' !in last && GoodEnd(text, last, agents) && FIRST + agents <= 10000000
    requires call.Add? && Chosen(Some(text + last), call, agents).Some?
    requires var id := NewId(Some(text + last), call, agents).value;
             var line := Line(id, call.name, call.ip, call.key); '\n' !in line && |last| + |line| < LIMIT
    ensures Taken(Text(After(Some(text + last), call, agents)), Chosen(Some(text + last), call, agents).value)
  {
    hide Chunks, Taken, IsNumbered, Decimal, Line, ReadsOn;
    var n := Chosen(Some(text + last), call, agents).value;
    var line := Line(Decimal(n), call.name, call.ip, call.key);
    LineStarts(n, call.name, call.ip, call.key);
    TakenUnfinished(text, last, n);
    TakenMerged(text, last, line, n);
    MergedNumber(last, line, n);
    EmptyReadsOn(n);
  }

  lemma EmptyReadsOn(n: nat)
    ensures ReadsOn("", n)
  {
  }

  lemma LineBehind(last: string, id: string, call: Call)
    requires '\n' !in last && call.Add? && Fits(call, |last|)
    requires if call.id.Some? then id == call.id.value else |id| <= 7 && '\n' !in id
    ensures var line := Line(id, call.name, call.ip, call.key);
            '\n' !in line && |last| + |line| < LIMIT && AllRoomy(Chunks(last + line + "\n"))
  {
    hide Chunks, AllRoomy, Line;
    var tail := LineTail(call);
    LineInParts(id, call);
    TailIsLong(call);
    assert last + (id + " " + tail) + "\n" == last + id + " " + tail + "\n";
    NoNewlineJoined(last, id);
    NoNewlineJoined(id, " " + tail);
    LineOfPartsIsRoomy(last + id, tail);
  }

  function LineTail(call: Call): string
    requires call.Add?
  {
    call.name + " " + (if call.ip.Some? then call.ip.value else "any") + " " + call.key
  }

  lemma LineInParts(id: string, call: Call)
    requires call.Add? && |id| + |LineTail(call)| < 2047
    ensures Line(id, call.name, call.ip, call.key) == id + " " + LineTail(call)
  {
    var ip := if call.ip.Some? then call.ip.value else "any";
    assert id + " " + call.name + " " + ip + " " + call.key == id + " " + (call.name + " " + ip + " " + call.key);
  }

  lemma TailIsLong(call: Call)
    requires call.Add? && Fits(call)
    ensures |LineTail(call)| >= 64 && '\n' !in LineTail(call) && '\n' !in " " + LineTail(call)
    ensures |LineTail(call)| == |call.name| + (if call.ip.Some? then |call.ip.value| else 3) + |call.key| + 2
  {
    assert '\n' !in "any" && '\n' !in " ";
  }

  lemma NoNewlineJoined(a: string, b: string)
    requires '\n' !in a && '\n' !in b
    ensures '\n' !in a + b
  {
  }

  lemma AfterAddition(text: string, line: string)
    requires EndsLine(text) && AllRoomy(Chunks(text)) && AllRoomy(Chunks(line + "\n"))
    ensures Sound(Some(text + (line + "\n")))
  {
    hide Chunks, Roomy;
    AfterAdd(text, line);
    assert text + line + "\n" == text + (line + "\n");
  }

  /** A removal before an end without an id leaves that end as it is. */
  lemma RemovalBefore(text: string, last: string, id: string)
    requires EndsLine(text) && '\n' !in last && |last| < LIMIT && AllRoomy(Chunks(text))
    requires last == "" || ' ' !in last
    ensures Removed(text + last, id) == Removed(text, id) + last
  {
    hide Chunks, IdOf, Overwritten;
    ChunksOfUnfinished(text, last);
    var chunks, all := Chunks(text), Chunks(text + last);
    FindInConcat(chunks, if last == "" then [] else [last], id);
    var k := FindIn(chunks, id);
    if last != "" {
      NoSpaceNoId(last);
    }
    if k < |chunks| {
      ChunkAt(text, k);
      ChunkAt(text + last, k);
      RoomInText(text, k, id);
      OffsetPrefix(chunks, all, k);
      OverwrittenBefore(text, last, Offset(chunks, k), id + STONE);
    }
  }

  lemma NoSpaceNoId(last: string)
    requires last != "" && ' ' !in last
    ensures IdOf(last) == None
  {
  }

  lemma RoomInText(text: string, k: nat, id: string)
    requires k < |Chunks(text)| && IdOf(Chunks(text)[k]) == Some(id) && Roomy(Chunks(text)[k])
    ensures Offset(Chunks(text), k) + |id + STONE| <= |text|
  {
    hide Chunks, IdOf;
    ChunkAt(text, k);
  }

  lemma {:induction false} FindInConcat(a: seq<string>, b: seq<string>, id: string)
    requires forall i :: 0 <= i < |a| ==> a[i] != ""
    requires forall i :: 0 <= i < |b| ==> b[i] != ""
    ensures FindIn(a + b, id) == if FindIn(a, id) < |a| then FindIn(a, id) else |a| + FindIn(b, id)
  {
    hide IdOf;
    if a == [] {
      assert a + b == b;
    } else {
      assert (a + b)[1..] == a[1..] + b;
      FindInConcat(a[1..], b, id);
    }
  }

  lemma {:induction false} OffsetPrefix(a: seq<string>, b: seq<string>, k: nat)
    requires k <= |a| && a <= b
    ensures Offset(a, k) == Offset(b, k)
    decreases k
  {
    if k > 0 {
      assert a[0] == b[0] && a[1..] <= b[1..];
      OffsetPrefix(a[1..], b[1..], k - 1);
    }
  }

  lemma OverwrittenBefore(text: string, last: string, p: nat, stone: string)
    requires p + |stone| <= |text|
    ensures Overwritten(text + last, p, stone) == Overwritten(text, p, stone) + last
  {
    var all, q := text + last, p + |stone|;
    assert all[..p] == text[..p] && all[q..] == text[q..] + last;
  }

  predicate AllFit(calls: seq<Call>, behind: nat) { forall k :: 0 <= k < |calls| ==> Fits(calls[k], behind) }

  ghost predicate NoneTwice(file: Option<string>, calls: seq<Call>, agents: nat) {
    var r := HandedOut(file, calls, agents);
    forall i, j :: 0 <= i < j < |r| && r[i].Some? && r[j].Some? ==> r[i] != r[j]
  }

  /** Over any run on a file with room in all its lines and a good end, no number is handed out twice. */
  lemma {:induction false} NeverReused(text: string, last: string, calls: seq<Call>, agents: nat)
    requires EndsLine(text) && '\n' !in last && |last| < LIMIT && AllRoomy(Chunks(text)) && GoodEnd(text, last, agents)
    requires AllFit(calls, |last|) && FIRST + agents <= 10000000
    ensures NoneTwice(Some(text + last), calls, agents)
    decreases |calls|
  {
    hide Chunks, Taken, AllRoomy, Removed, Fits, GoodEnd, Sound, LeastFree;
    if calls != [] {
      var file, call, rest := Some(text + last), calls[0], calls[1..];
      var next := After(file, call, agents);
      LooserFits(rest, |last|);
      if call.Remove? {
        SameEnd(text, last, call.agent, agents);
        NeverReused(Removed(text, call.agent), last, rest, agents);
        NothingChosen(file, calls, agents);
      } else if NewId(file, call, agents).None? {
        NeverReused(text, last, rest, agents);
        NothingChosen(file, calls, agents);
      } else {
        AddBehind(text, last, call, agents);
        AfterFirst(file, calls, agents);
      }
    }
  }

  lemma NothingChosen(file: Option<string>, calls: seq<Call>, agents: nat)
    requires calls != [] && Chosen(file, calls[0], agents).None?
    requires NoneTwice(After(file, calls[0], agents), calls[1..], agents)
    ensures NoneTwice(file, calls, agents)
  {
    hide After, Chosen;
    var r, s := HandedOut(file, calls, agents), HandedOut(After(file, calls[0], agents), calls[1..], agents);
    assert r == [None] + s;
  }

  lemma LooserFits(calls: seq<Call>, behind: nat)
    requires AllFit(calls, behind)
    ensures AllFit(calls, 0)
  {
    assert forall k :: 0 <= k < |calls| ==> Fits(calls[k], behind) ==> Fits(calls[k], 0);
  }

  /** From a first call on that makes the file sound and enters its number. */
  lemma AfterFirst(file: Option<string>, calls: seq<Call>, agents: nat)
    requires calls != [] && AllFit(calls[1..], 0) && FIRST + agents <= 10000000
    requires Sound(After(file, calls[0], agents))
    requires var n := Chosen(file, calls[0], agents);
             n.Some? ==> Taken(Text(After(file, calls[0], agents)), n.value)
    ensures NoneTwice(file, calls, agents)
  {
    hide Taken, Sound, After, Fits, Chosen;
    var next, rest := After(file, calls[0], agents), calls[1..];
    var r, s := HandedOut(file, calls, agents), HandedOut(next, rest, agents);
    forall i, j | 0 <= i < j < |r| && r[i].Some? && r[j].Some?
      ensures r[i] != r[j]
    {
      if i == 0 {
        HandedOutAreFree(next, rest, agents, j - 1);
      } else {
        SoundNeverReuses(next, rest, agents, i - 1, j - 1);
      }
    }
  }

  /** A removal keeps a good end good. */
  lemma SameEnd(text: string, last: string, id: string, agents: nat)
    requires EndsLine(text) && '\n' !in last && |last| < LIMIT && AllRoomy(Chunks(text)) && GoodEnd(text, last, agents)
    ensures var after := Removed(text, id);
            && EndsLine(after) && AllRoomy(Chunks(after)) && GoodEnd(after, last, agents)
            && Removed(text + last, id) == after + last
  {
    hide Chunks, Taken, Removed, Roomy, LeastFree, ReadsOn, IsNumbered;
    var after := Removed(text, id);
    AfterRemoval(text, id);
    RemovalBefore(text, last, id);
    forall n
      ensures Taken(text + last, n) <==> Taken(after + last, n)
    {
      TakenUnfinished(text, last, n);
      TakenUnfinished(after, last, n);
      TakenAfterRemoval(text, id, n);
    }
    SameFree(text + last, after + last, FIRST, agents);
  }

  lemma {:induction false} SameFree(a: string, b: string, first: nat, count: nat)
    requires forall n :: Taken(a, n) <==> Taken(b, n)
    ensures LeastFree(a, first, count) == LeastFree(b, first, count)
    decreases count
  {
    hide Taken;
    if count > 0 {
      SameFree(a, b, first + 1, count - 1);
    }
  }

  /** For a file with room in all its lines and any unfinished end: no number is handed out twice in any
      run if and only if the least free number reads on behind that end. */
  lemma NeverReusedIff(text: string, last: string, call: Call, agents: nat)
    requires EndsLine(text) && '\n' !in last && AllRoomy(Chunks(text)) && FIRST + agents <= 10000000
    requires call.Add? && call.id.None? && Fits(call, |last|) && LeastFree(text + last, FIRST, agents).Some?
    ensures (forall calls :: AllFit(calls, |last|) ==> NoneTwice(Some(text + last), calls, agents))
       <==> ReadsOn(last, LeastFree(text + last, FIRST, agents).value)
  {
    hide Chunks, AllRoomy, Fits, LeastFree, NoneTwice, Decimal;
    var n := LeastFree(text + last, FIRST, agents).value;
    ShortEnd(last, call);
    if ReadsOn(last, n) {
      forall calls | AllFit(calls, |last|)
        ensures NoneTwice(Some(text + last), calls, agents)
      {
        NeverReused(text, last, calls, agents);
      }
    } else {
      LineOfCall(last, n, call);
      FreeIsInRange(text + last, agents);
      SecondNumber(text, last, call, agents);
      assert AllFit([call, call], |last|);
      Repeated(text + last, call, agents);
    }
  }

  lemma ShortEnd(last: string, call: Call)
    requires call.Add? && Fits(call, |last|)
    ensures |last| < LIMIT
  {
  }

  lemma LineOfCall(last: string, n: nat, call: Call)
    requires '\n' !in last && call.Add? && call.id.None? && Fits(call, |last|) && n < 10000000
    ensures var line := Line(Decimal(n), call.name, call.ip, call.key); '\n' !in line && |last| + |line| < LIMIT
  {
    hide Chunks, AllRoomy, Fits, Line, Decimal;
    DecimalLength(n, Power10(7), 7) by { SevenDigits(); }
    var id := Decimal(n);
    assert '\n' !in id;
    LineBehind(last, id, call);
  }

  lemma FreeIsInRange(text: string, agents: nat)
    requires FIRST + agents <= 10000000 && LeastFree(text, FIRST, agents).Some?
    ensures LeastFree(text, FIRST, agents).value < 10000000
  {
  }

  lemma Repeated(text: string, call: Call, agents: nat)
    requires var r := HandedOut(Some(text), [call, call], agents); r[0].Some? && r[0] == r[1]
    ensures !NoneTwice(Some(text), [call, call], agents)
  {
    hide HandedOut;
  }
}
