/** The agents' key file of src/addagent/validate.c: allocating an id, adding an agent and removing one
    in the default build, where the id of a removed agent stays in the file. */
module KeyFile {
  import opened Entities
  import opened CStrings
  import opened LineReader

  const FIRST: nat := 1024
  /** What `OS_RemoveAgent` writes after the id. */
  const STONE: string := " #*#*#*#*#*#*#*#*#*#*#"

  // ---------- the ids in a file ----------

  /** The id at the start of what `fgets` returned; a comment or a text without a space has none. */
  function IdOf(chunk: string): Option<string>
    requires chunk != ""
  {
    if chunk[0] == '#' || ' ' !in chunk then None else Some(Before(chunk, ' '))
  }

  predicate IsNumbered(chunk: string, n: int)
    requires chunk != ""
  {
    IdOf(chunk).Some? && Atoi(IdOf(chunk).value) == n
  }

  ghost predicate TakenIn(chunks: seq<string>, n: int)
    requires forall i :: 0 <= i < |chunks| ==> chunks[i] != ""
  {
    exists k :: 0 <= k < |chunks| && IsNumbered(chunks[k], n)
  }

  /** Some agent in the file, removed or not, has the number. */
  ghost predicate Taken(text: string, n: int) { TakenIn(Chunks(text), n) }

  /** Nothing in the file is skipped when new text is added at its end. */
  lemma TakenAppend(text: string, more: string, n: int)
    requires EndsLine(text)
    ensures Taken(text + more, n) <==> Taken(text, n) || Taken(more, n)
  {
    hide Chunks, IsNumbered;
    ChunksAppend(text, more);
    var a, b := Chunks(text), Chunks(more);
    if TakenIn(a, n) {
      var k :| 0 <= k < |a| && IsNumbered(a[k], n);
      assert (a + b)[k] == a[k];
    } else if TakenIn(b, n) {
      var k :| 0 <= k < |b| && IsNumbered(b[k], n);
      assert (a + b)[|a| + k] == b[k];
    }
  }

  lemma TakenInOne(chunk: string, n: int)
    requires chunk != ""
    ensures TakenIn([chunk], n) <==> IsNumbered(chunk, n)
  {
    assert [chunk][0] == chunk;
  }

  lemma TakenInConcat(a: seq<string>, b: seq<string>, n: int)
    requires forall i :: 0 <= i < |a| ==> a[i] != ""
    requires forall i :: 0 <= i < |b| ==> b[i] != ""
    ensures TakenIn(a + b, n) <==> TakenIn(a, n) || TakenIn(b, n)
  {
    hide IsNumbered;
    if TakenIn(a, n) {
      var k :| 0 <= k < |a| && IsNumbered(a[k], n);
      assert (a + b)[k] == a[k];
    } else if TakenIn(b, n) {
      var k :| 0 <= k < |b| && IsNumbered(b[k], n);
      assert (a + b)[|a| + k] == b[k];
    }
  }

  // ---------- the bit array ----------

  function Bit(i: nat): bv32
    requires i < 32
  {
    1 << i
  }

  predicate HasBit(w: bv32, i: nat)
    requires i < 32
  {
    w & Bit(i) != 0
  }

  function WithBit(w: bv32, i: nat): bv32
    requires i < 32
  {
    w | Bit(i)
  }

  lemma BitIsSet(w: bv32, i: nat)
    requires i < 32
    ensures HasBit(WithBit(w, i), i)
  {
    BitsApart(i, i);
    BitSet(w, Bit(i));
  }

  lemma OtherBitKept(w: bv32, i: nat, j: nat)
    requires i < 32 && j < 32 && i != j
    ensures HasBit(WithBit(w, i), j) == HasBit(w, j)
  {
    BitsApart(i, j);
    BitKept(w, Bit(i), Bit(j));
  }

  lemma BitSet(w: bv32, x: bv32)
    requires x != 0
    ensures (w | x) & x != 0
  {
  }

  lemma BitKept(w: bv32, x: bv32, y: bv32)
    requires x & y == 0
    ensures (w | x) & y == w & y
  {
  }

  lemma BitsApart(i: nat, j: nat)
    requires i < 32 && j < 32
    ensures Bit(i) != 0
    ensures i != j ==> Bit(i) & Bit(j) == 0
  {
  }

  lemma NoBit(i: nat)
    requires i < 32
    ensures !HasBit(0, i)
  {
  }

  predicate TestBit(words: seq<bv32>, pos: nat)
    requires pos / 32 < |words|
  {
    HasBit(words[pos / 32], pos % 32)
  }

  /** The macro `SetBit` sets one position and no other. */
  method SetBit(words: array<bv32>, pos: nat)
    requires pos / 32 < words.Length
    modifies words
    ensures forall i: nat :: i / 32 < words.Length ==>
              (TestBit(words[..], i) <==> i == pos || TestBit(old(words[..]), i))
  {
    hide HasBit, WithBit;
    var w, b := words[pos / 32], pos % 32;
    words[pos / 32] := WithBit(w, b);
    BitIsSet(w, b);
    forall i: nat | i / 32 < words.Length
      ensures TestBit(words[..], i) <==> i == pos || TestBit(old(words[..]), i)
    {
      if i / 32 == pos / 32 && i != pos {
        OtherBitKept(w, b, i % 32);
      }
    }
  }

  // ---------- allocation ----------

  /** The first number from `first` on, among `count`, that no agent has. */
  ghost function LeastFree(text: string, first: nat, count: nat): (r: Option<nat>)
    ensures r.Some? ==> first <= r.value < first + count && !Taken(text, r.value)
    ensures r.Some? ==> forall n :: first <= n < r.value ==> Taken(text, n)
    ensures r.None? ==> forall n :: first <= n < first + count ==> Taken(text, n)
    decreases count
  {
    if count == 0 then None
    else if !Taken(text, first) then Some(first)
    else LeastFree(text, first + 1, count - 1)
  }

  lemma LeastFreeIs(text: string, first: nat, count: nat, n: nat)
    requires first <= n < first + count && !Taken(text, n)
    requires forall m :: first <= m < n ==> Taken(text, m)
    ensures LeastFree(text, first, count) == Some(n)
  {
    var r := LeastFree(text, first, count);
    assert r.Some?;
    assert r.value >= n;
  }

  // ---------- a new line ----------

  /** The line of an agent; the key is two MD5 sums in hexadecimal. */
  function Line(id: string, name: string, ip: Option<string>, key: string): string {
    Cut(id + " " + name + " " + (if ip.Some? then ip.value else "any") + " " + key, 2047)
  }

  /** The line is the id, the name, the address or "any", and the key, in that order: a reader that splits it at
      its spaces gets these back. */
  lemma LineIsReadBack(id: string, name: string, ip: Option<string>, key: string)
    requires ' ' !in id && ' ' !in name && (ip.Some? ==> ' ' !in ip.value)
    requires |id| + |name| + (if ip.Some? then |ip.value| else 3) + |key| + 3 <= 2047
    ensures Split(Line(id, name, ip, key), 4) == [id, name, if ip.Some? then ip.value else "any", key]
  {
    hide Split;
    var address := if ip.Some? then ip.value else "any";
    var words := [id, name, address, key];
    assert ' ' !in "any";
    assert forall i :: 0 <= i < 3 ==> ' ' !in words[i];
    JoinedFour(id, name, address, key);
    SplitJoined(words);
  }

  lemma JoinedOne(d: string)
    ensures Joined([d]) == d
  {
  }

  lemma JoinedFour(a: string, b: string, c: string, d: string)
    ensures Joined([a, b, c, d]) == a + " " + b + " " + c + " " + d
  {
    hide Joined;
    JoinedCons(c, [d]);
    JoinedCons(b, [c, d]);
    JoinedCons(a, [b, c, d]);
    assert [c] + [d] == [c, d] && [b] + [c, d] == [b, c, d] && [a] + [b, c, d] == [a, b, c, d];
    JoinedOne(d);
    assert a + " " + (b + " " + (c + " " + d)) == a + " " + b + " " + c + " " + d;
  }

  /** The line of an agent with a number is read back with that number. */
  lemma LineIsNumbered(n: nat, name: string, ip: Option<string>, key: string)
    requires n < 10000000
    ensures Taken(Line(Decimal(n), name, ip, key) + "\n", n)
  {
    hide Chunks, Taken;
    var id := Decimal(n);
    DecimalLength(n, Power10(7), 7) by { SevenDigits(); }
    var rest := name + " " + (if ip.Some? then ip.value else "any") + " " + key;
    var all := id + " " + rest;
    assert all == id + " " + name + " " + (if ip.Some? then ip.value else "any") + " " + key;
    assert all[..|id|] == id && all[|id|] == ' ';
    var text := Cut(all, 2047) + "\n";
    assert text[..|id|] == all[..|id|] && text[|id|] == all[|id|];
    StartIsNumbered(n, text);
  }

  lemma StartIsNumbered(n: nat, text: string)
    requires var id := Decimal(n); |id| <= 7 && |id| < |text| && text[..|id|] == id && text[|id|] == ' '
    ensures Taken(text, n)
  {
    hide Chunks, ChunkLength, Atoi, Decimal;
    var id, k := Decimal(n), ChunkLength(text);
    assert forall i :: 0 <= i < |id| ==> text[i] == id[i];
    FirstChunk(text, k);
    var chunk := text[..k];
    assert k > |id|;
    assert chunk[..|id|] == id && chunk[|id|] == ' ';
    BeforeIs(chunk, ' ', id);
    AtoiDecimal(n);
    assert Chunks(text)[0] == chunk && IsNumbered(Chunks(text)[0], n);
  }

  lemma SevenDigits()
    ensures Power10(7) == 10000000
  {
    assert Power10(3) == 1000;
  }

  // ---------- a tombstone ----------

  /** The chunk has room for its id and a tombstone before its newline. */
  predicate Roomy(chunk: string)
    requires chunk != ""
  {
    IdOf(chunk).Some? ==>
      |IdOf(chunk).value| + |STONE| <= |chunk| - if chunk[|chunk| - 1] == '\n' then 1 else 0
  }

  /** The text with `s` written over it at `position`. */
  function Overwritten(text: string, position: nat, s: string): string
    requires position <= |text|
  {
    text[..position] + s + if position + |s| <= |text| then text[position + |s|..] else ""
  }

  /** A removed agent's line. */
  function Buried(chunk: string): string
    requires chunk != "" && IdOf(chunk).Some? && Roomy(chunk)
  {
    var stone := IdOf(chunk).value + STONE;
    stone + chunk[|stone|..]
  }

  predicate IsChunk(chunk: string) {
    chunk != "" && forall i :: 0 <= i < |chunk| - 1 ==> chunk[i] != '\n'
  }

  lemma {:induction false} ChunksAreChunks(text: string, k: nat)
    requires k < |Chunks(text)|
    ensures IsChunk(Chunks(text)[k])
  {
    hide ChunkLength;
    if k > 0 {
      ChunksAreChunks(text[ChunkLength(text)..], k - 1);
    }
  }

  /** The test by which the readers of the file skip a removed agent. */
  predicate IsBuried(chunk: string)
    requires chunk != "" && IdOf(chunk).Some?
  {
    var name := |IdOf(chunk).value| + 1;
    name < |chunk| && chunk[name] == '#'
  }

  /** A tombstone keeps the id, the length and the newline. */
  lemma BuriedKeeps(chunk: string)
    requires IsChunk(chunk) && IdOf(chunk).Some? && Roomy(chunk)
    ensures SameShape(chunk, Buried(chunk)) && IdOf(Buried(chunk)) == IdOf(chunk) && IsBuried(Buried(chunk))
  {
    var id := IdOf(chunk).value;
    var stone := id + STONE;
    var b := Buried(chunk);
    assert b == stone + chunk[|stone|..];
    StoneShape(chunk, id);
    BeforeIs(b, ' ', id);
  }

  lemma StoneShape(chunk: string, id: string)
    requires IsChunk(chunk) && |id| < |chunk| && chunk[..|id|] == id
    requires |id| + |STONE| <= |chunk| - if chunk[|chunk| - 1] == '\n' then 1 else 0
    ensures var b := id + STONE + chunk[|id + STONE|..];
            SameShape(chunk, b) && b[0] == (if id == "" then ' ' else chunk[0]) && b[..|id|] == id && b[|id|] == ' '
                && b[|id| + 1] == '#'
  {
    var b := id + STONE + chunk[|id + STONE|..];
    assert forall i :: 0 <= i < |id| ==> b[i] == id[i] && id[i] == chunk[i];
    assert forall i :: |id| <= i < |id| + |STONE| ==> b[i] == STONE[i - |id|];
    assert '\n' !in STONE;
  }

  /** The first chunk with the id; all of them when there is none. */
  function FindIn(chunks: seq<string>, id: string): (k: nat)
    requires forall i :: 0 <= i < |chunks| ==> chunks[i] != ""
    ensures k <= |chunks|
    ensures forall i :: 0 <= i < k ==> IdOf(chunks[i]) != Some(id)
    ensures k < |chunks| ==> IdOf(chunks[k]) == Some(id)
  {
    if chunks == [] || IdOf(chunks[0]) == Some(id) then 0 else 1 + FindIn(chunks[1..], id)
  }

  /** The file after the agent was removed. */
  function Removed(text: string, id: string): string {
    var k := FindIn(Chunks(text), id);
    if k == |Chunks(text)| then text else
      ChunkAt(text, k);
      Overwritten(text, Offset(Chunks(text), k), id + STONE)
  }

  /** When its line is long enough, removing an agent changes no line but its first one, which keeps its
      id, its length and its newline. */
  lemma RemovalBuriesOneLine(text: string, id: string)
    requires var chunks := Chunks(text); var k := FindIn(chunks, id); k < |chunks| && Roomy(chunks[k])
    ensures var chunks := Chunks(text); var k := FindIn(chunks, id);
            Chunks(Removed(text, id)) == chunks[k := Buried(chunks[k])]
    ensures var chunks := Chunks(text); IsBuried(Buried(chunks[FindIn(chunks, id)]))
    ensures SameShape(text, Removed(text, id))
  {
    hide Chunks, IdOf, Removed, Buried, Roomy;
    var chunks := Chunks(text);
    var k := FindIn(chunks, id);
    var p, c := Offset(chunks, k), chunks[k];
    ChunkAt(text, k);
    ChunksAreChunks(text, k);
    BuriedKeeps(c);
    ChunkReplaced(text, k, Buried(c));
    RemovedIsSplice(text, id);
    SpliceShape(text, p, c, Buried(c));
  }

  lemma RemovedIsSplice(text: string, id: string)
    requires var chunks := Chunks(text); var k := FindIn(chunks, id); k < |chunks| && Roomy(chunks[k])
    ensures var chunks := Chunks(text); var k := FindIn(chunks, id); var p, c := Offset(chunks, k), chunks[k];
            p + |c| <= |text| && Removed(text, id) == text[..p] + Buried(c) + text[p + |c|..]
  {
    hide Chunks, IdOf, Overwritten, Buried, Offset;
    var chunks := Chunks(text);
    var k := FindIn(chunks, id);
    var p, c := Offset(chunks, k), chunks[k];
    ChunkAt(text, k);
    assert Removed(text, id) == Overwritten(text, p, id + STONE);
    Splice(text, p, c, id + STONE);
    BuriedIs(c, id);
  }

  lemma BuriedIs(chunk: string, id: string)
    requires chunk != "" && IdOf(chunk) == Some(id) && Roomy(chunk)
    ensures |id + STONE| <= |chunk| && Buried(chunk) == id + STONE + chunk[|id + STONE|..]
  {
  }

  lemma Splice(text: string, p: nat, c: string, stone: string)
    requires |stone| <= |c| && p + |c| <= |text| && text[p..p + |c|] == c
    ensures Overwritten(text, p, stone) == text[..p] + (stone + c[|stone|..]) + text[p + |c|..]
  {
    Tail(text, p, c, |stone|);
  }

  lemma Tail(text: string, p: nat, c: string, m: nat)
    requires m <= |c| && p + |c| <= |text| && text[p..p + |c|] == c
    ensures text[p + m..] == c[m..] + text[p + |c|..]
  {
    assert c[m..] == text[p + m..p + |c|];
  }

  lemma SpliceShape(text: string, p: nat, c: string, d: string)
    requires p + |c| <= |text| && text[p..p + |c|] == c && SameShape(c, d)
    ensures SameShape(text, text[..p] + d + text[p + |c|..])
  {
    assert forall i :: 0 <= i < |c| ==> text[p + i] == c[i];
    var after := text[..p] + d + text[p + |c|..];
    forall i | 0 <= i < |text| ensures text[i] == '\n' <==> after[i] == '\n' {
      if p <= i < p + |c| {
        assert after[i] == d[i - p] && text[i] == c[i - p];
      }
    }
  }

  /** The removal keeps the length of the file and all line breaks exactly when the id and the tombstone
      end before the end of the line. */
  lemma RemovalKeepsLinesIff(text: string, id: string)
    requires var chunks := Chunks(text); FindIn(chunks, id) < |chunks|
    ensures var chunks := Chunks(text); var p := Offset(chunks, FindIn(chunks, id)); var q := p + |id| + |STONE|;
            SameShape(text, Removed(text, id)) <==> q <= |text| && '\n' !in text[p..q]
  {
    hide Chunks, Overwritten, IdOf, Offset, SameShape;
    var chunks := Chunks(text);
    var k := FindIn(chunks, id);
    ChunkAt(text, k);
    ChunksAreChunks(text, k);
    NoNewline(chunks[k], id);
    assert Removed(text, id) == Overwritten(text, Offset(chunks, k), id + STONE);
    OverwrittenShapeIff(text, Offset(chunks, k), id + STONE);
  }

  lemma OverwrittenShapeIff(text: string, p: nat, stone: string)
    requires p <= |text| && '\n' !in stone
    ensures SameShape(text, Overwritten(text, p, stone)) <==> p + |stone| <= |text| && '\n' !in text[p..p + |stone|]
  {
    var after, q := Overwritten(text, p, stone), p + |stone|;
    if q <= |text| {
      assert forall i :: p <= i < q ==> after[i] == stone[i - p] && text[i] == text[p..q][i - p];
      assert forall i :: 0 <= i < |text| && (i < p || q <= i) ==> after[i] == text[i];
      if '\n' in text[p..q] {
        var i :| 0 <= i < |stone| && text[p..q][i] == '\n';
        assert after[p + i] == stone[i] != '\n' && text[p + i] == '\n';
      }
    }
  }

  lemma NoNewline(chunk: string, id: string)
    requires IsChunk(chunk) && IdOf(chunk) == Some(id)
    ensures '\n' !in id + STONE
  {
    assert |id| < |chunk| && id == chunk[..|id|];
    assert forall i :: 0 <= i < |id| ==> id[i] == chunk[i] != '\n';
    assert '\n' !in STONE;
  }

  lemma StartsWithId(chunk: string, id: string)
    requires |id| < |chunk| && chunk[..|id|] == id && chunk[|id|] == ' ' && ' ' !in id && chunk[0] != '#'
    ensures IdOf(chunk) == Some(id)
  {
    BeforeIs(chunk, ' ', id);
  }

  /** Removal neither frees nor takes a number. */
  lemma TakenAfterRemoval(text: string, id: string, n: int)
    requires var chunks := Chunks(text); var k := FindIn(chunks, id); k < |chunks| ==> Roomy(chunks[k])
    ensures Taken(Removed(text, id), n) <==> Taken(text, n)
  {
    hide Chunks, IdOf;
    var chunks := Chunks(text);
    var k := FindIn(chunks, id);
    if k < |chunks| {
      RemovalBuriesOneLine(text, id);
      ChunksAreChunks(text, k);
      BuriedKeeps(chunks[k]);
      var after := Chunks(Removed(text, id));
      assert forall i :: 0 <= i < |chunks| ==> IdOf(after[i]) == IdOf(chunks[i]);
      assert forall i :: 0 <= i < |chunks| ==> IsNumbered(after[i], n) == IsNumbered(chunks[i], n);
    }
  }

  // ---------- calls ----------

  /** One call: an agent to add, perhaps without an id, or the id of one to remove. */
  datatype Call =
    | Add(id: Option<string>, name: string, ip: Option<string>, key: string)
    | Remove(agent: string)

  /** The number an automatic allocation chooses; there is none when all are taken or there is no file. */
  ghost function Chosen(file: Option<string>, call: Call, agents: nat): (r: Option<nat>)
  {
    if call.Add? && call.id.None? && file.Some? then LeastFree(file.value, FIRST, agents) else None
  }

  /** The id of the line that the call adds, if it adds one. */
  ghost function NewId(file: Option<string>, call: Call, agents: nat): Option<string>
    requires call.Add?
  {
    if call.id.Some? then call.id
    else if Chosen(file, call, agents).None? then None
    else Some(Cut(Decimal(Chosen(file, call, agents).value), 7))
  }

  function Text(file: Option<string>): string { if file.None? then "" else file.value }

  /** The file after the call. */
  ghost function After(file: Option<string>, call: Call, agents: nat): Option<string> {
    match call
    case Add(_, name, ip, key) =>
      var id := NewId(file, call, agents);
      if id.None? then file else Some(Text(file) + Line(id.value, name, ip, key) + "\n")
    case Remove(id) =>
      if file.None? then None else Some(Removed(file.value, id))
  }

  // ---------- the loops ----------

  /** The bits of the numbers before `position`, together with what is left, are all the numbers. */
  ghost predicate MappedSoFar(text: string, position: nat, words: seq<bv32>, agents: nat)
    requires position <= |text| && |words| == agents / 32 + 1
  {
    forall i: nat :: i < agents ==>
      (TestBit(words, i) || TakenIn(Chunks(text[position..]), FIRST + i) <==> Taken(text, FIRST + i))
  }

  lemma NothingRead(text: string, words: seq<bv32>, agents: nat)
    requires |words| == agents / 32 + 1 && forall w :: 0 <= w < |words| ==> words[w] == 0
    ensures MappedSoFar(text, 0, words, agents)
  {
    hide Chunks, HasBit;
    assert text[0..] == text;
    forall i: nat | i < agents ensures !TestBit(words, i) {
      NoBit(i % 32);
    }
  }

  lemma TakenInFirst(chunk: string, rest: seq<string>, n: int)
    requires chunk != "" && forall i :: 0 <= i < |rest| ==> rest[i] != ""
    ensures TakenIn([chunk] + rest, n) <==> IsNumbered(chunk, n) || TakenIn(rest, n)
  {
    hide IsNumbered;
    var all := [chunk] + rest;
    assert all[0] == chunk && all[1..] == rest;
    if TakenIn(rest, n) {
      var k :| 0 <= k < |rest| && IsNumbered(rest[k], n);
      assert all[k + 1] == rest[k];
    }
  }

  lemma MappedMore(text: string, position: nat, next: nat, line: string, before: seq<bv32>, words: seq<bv32>,
                   agents: nat)
    requires position <= next <= |text| && |words| == |before| == agents / 32 + 1 && line != ""
    requires Chunks(text[position..]) == [line] + Chunks(text[next..])
    requires MappedSoFar(text, position, before, agents)
    requires forall i: nat :: i < agents ==> (TestBit(words, i) <==> TestBit(before, i) || IsNumbered(line, FIRST + i))
    ensures MappedSoFar(text, next, words, agents)
  {
    hide Chunks, IsNumbered, HasBit, Taken, TakenIn, TestBit;
    forall i: nat | i < agents
      ensures TestBit(words, i) || TakenIn(Chunks(text[next..]), FIRST + i) <==> Taken(text, FIRST + i)
    {
      TakenInFirst(line, Chunks(text[next..]), FIRST + i);
      assert TestBit(before, i) || TakenIn(Chunks(text[position..]), FIRST + i) <==> Taken(text, FIRST + i);
      assert TestBit(words, i) <==> TestBit(before, i) || IsNumbered(line, FIRST + i);
    }
  }

  lemma AllRead(text: string, words: seq<bv32>, agents: nat)
    requires |words| == agents / 32 + 1 && MappedSoFar(text, |text|, words, agents)
    ensures forall i: nat :: i < agents ==> (TestBit(words, i) <==> Taken(text, FIRST + i))
  {
    hide Chunks, HasBit, Taken, TestBit;
    assert text[|text|..] == "";
    NoChunks();
  }

  /** No chunk before `position` has the id, so the search goes on in what is left. */
  ghost predicate NotFoundBefore(text: string, position: nat, id: string)
    requires position <= |text|
  {
    var chunks, rest := Chunks(text), Chunks(text[position..]);
    && (FindIn(chunks, id) < |chunks| <==> FindIn(rest, id) < |rest|)
    && Offset(chunks, FindIn(chunks, id)) == position + Offset(rest, FindIn(rest, id))
  }

  lemma NothingSearched(text: string, id: string)
    ensures NotFoundBefore(text, 0, id)
  {
    assert text[0..] == text;
  }

  lemma SearchedMore(text: string, position: nat, next: nat, line: string, id: string)
    requires position <= next <= |text| && line == text[position..next] && line != ""
    requires Chunks(text[position..]) == [line] + Chunks(text[next..])
    requires NotFoundBefore(text, position, id)
    ensures IdOf(line) != Some(id) ==> NotFoundBefore(text, next, id)
    ensures IdOf(line) == Some(id) ==>
              var chunks := Chunks(text);
              FindIn(chunks, id) < |chunks| && Offset(chunks, FindIn(chunks, id)) == position
  {
    hide Chunks, IdOf;
    var here, rest := Chunks(text[position..]), Chunks(text[next..]);
    assert here[0] == line && here[1..] == rest;
  }

  lemma AllSearched(text: string, id: string)
    requires NotFoundBefore(text, |text|, id)
    ensures var chunks := Chunks(text); FindIn(chunks, id) == |chunks| && Offset(chunks, |chunks|) == |text|
  {
    hide Chunks;
    assert text[|text|..] == "";
    NoChunks();
  }

  lemma HasThatId(line: string, id: string)
    requires line != ""
    ensures IdOf(line) == Some(id) <==> line[0] != '#' && ' ' in line && Before(line, ' ') == id
  {
  }

  // ---------- the file on disk ----------

  class KeyStore {
    /** The file; None while it does not exist. */
    var file: Option<string>
    /** MAX_AGENTS of the build. */
    const agents: nat

    constructor (file: Option<string>, agents: nat)
      ensures this.file == file && this.agents == agents
    {
      this.file, this.agents := file, agents;
    }

    /** `MapIDToBitArray`: bit i is set exactly when the number FIRST + i is in the file. */
    method MapIDToBitArray() returns (ids: array?<bv32>)
      ensures ids == null <==> file.None?
      ensures ids != null ==> fresh(ids) && ids.Length == agents / 32 + 1
      ensures ids != null ==> forall i :: 0 <= i < agents ==> (TestBit(ids[..], i) <==> Taken(file.value, FIRST + i))
    {
      hide HasBit, Chunks, IsNumbered, Taken;
      if file.None? {
        return null;
      }
      var text := file.value;
      ids := new bv32[agents / 32 + 1](_ => 0);
      var position := 0;
      NothingRead(text, ids[..], agents);
      while position < |text|
        invariant fresh(ids) && ids.Length == agents / 32 + 1
        invariant position <= |text| && MappedSoFar(text, position, ids[..], agents)
      {
        var line, next := Fgets(text, position);
        ghost var before := ids[..];
        MapLine(line, ids);
        MappedMore(text, position, next, line, before, ids[..], agents);
        position := next;
      }
      AllRead(text, ids[..], agents);
    }

    /** The body of the loop: the number at the start of a line sets its bit, when it is in range. */
    method MapLine(line: string, ids: array<bv32>)
      requires line != "" && ids.Length == agents / 32 + 1
      modifies ids
      ensures forall i: nat :: i < agents ==>
                (TestBit(ids[..], i) <==> TestBit(old(ids[..]), i) || IsNumbered(line, FIRST + i))
    {
      hide HasBit;
      if line[0] == '#' {
        return;
      }
      if ' ' in line {
        var number := Atoi(Before(line, ' '));
        if FIRST <= number < FIRST + agents {
          SetBit(ids, number - FIRST);
        }
      }
    }

    /** `IDExist`: whether a line has that id, and where it starts. */
    method IDExist(id: string) returns (found: bool, position: nat)
      ensures file.None? ==> !found
      ensures file.Some? ==>
                var chunks := Chunks(file.value); var k := FindIn(chunks, id);
                found == (k < |chunks|) && position == Offset(chunks, k)
    {
      hide Chunks, IdOf;
      if file.None? {
        return false, 0;
      }
      var text := file.value;
      position := 0;
      NothingSearched(text, id);
      while position < |text|
        invariant position <= |text| && NotFoundBefore(text, position, id)
      {
        var line, next := Fgets(text, position);
        SearchedMore(text, position, next, line, id);
        if line[0] != '#' && ' ' in line && Before(line, ' ') == id {
          assert IdOf(line) == Some(id) by { HasThatId(line, id); }
          return true, position;
        }
        assert IdOf(line) != Some(id) by { HasThatId(line, id); }
        position := next;
      }
      AllSearched(text, id);
      return false, position;
    }

    /** `OS_AddNewAgent`; `key` is the concatenation of the two MD5 sums. */
    method AddNewAgent(name: string, ip: Option<string>, id: Option<string>, key: string) returns (line: Option<string>)
      modifies this`file
      ensures file == After(old(file), Add(id, name, ip, key), agents)
      ensures var used := NewId(old(file), Add(id, name, ip, key), agents);
              line == if used.None? then None else Some(Line(used.value, name, ip, key))
    {
      hide Chunks, Taken, HasBit;
      var used := id;
      if id.None? {
        var ids := MapIDToBitArray();
        if ids == null {
          return None;
        }
        var i := 0;
        while i < agents && TestBit(ids[..], i)
          invariant i <= agents
          invariant forall n :: FIRST <= n < FIRST + i ==> Taken(file.value, n)
        {
          i := i + 1;
        }
        if i == agents {
          return None;
        }
        LeastFreeIs(file.value, FIRST, agents, FIRST + i);
        used := Some(Cut(Decimal(i + FIRST), 7));
      }
      line := Some(Line(used.value, name, ip, key));
      file := Some(Text(file) + line.value + "\n");
    }

    /** `OS_RemoveAgent`, the part that writes the key file. */
    method RemoveAgent(id: string) returns (done: bool)
      modifies this`file
      ensures file == After(old(file), Remove(id), agents)
      ensures done <==> old(file).Some? && var chunks := Chunks(old(file).value); FindIn(chunks, id) < |chunks|
    {
      hide Chunks;
      var found, position := IDExist(id);
      if !found {
        return false;
      }
      ChunkAt(file.value, FindIn(Chunks(file.value), id));
      file := Some(Overwritten(file.value, position, id + STONE));
      return true;
    }
  }
}
