/** Which numbers `OS_RemoveAgent` (src/addagent/validate.c:189-193) keeps in the key file when the line of the
    agent has no room for its tombstone. */
module KeyRemovals {
  import opened Entities
  import opened CStrings
  import opened LineReader
  import opened KeyFile

  // ---------- which numbers a removal keeps ----------

  /** Where the chunk ends that starts with the tombstone. */
  function StoneEnd(text: string, id: string): (e: nat)
    requires FindIn(Chunks(text), id) < |Chunks(text)|
    ensures Offset(Chunks(text), FindIn(Chunks(text), id)) < e <= |Removed(text, id)|
  {
    var p := Offset(Chunks(text), FindIn(Chunks(text), id));
    RemovedAt(text, id);
    p + ChunkLength(Removed(text, id)[p..])
  }

  /** The file after the removal: what was before the line, the tombstone, and what it does not cover. */
  lemma RemovedAt(text: string, id: string)
    requires FindIn(Chunks(text), id) < |Chunks(text)|
    ensures var p := Offset(Chunks(text), FindIn(Chunks(text), id)); var q := p + |id + STONE|;
            && p <= |text| && p < q <= |Removed(text, id)|
            && Removed(text, id)[..p] == text[..p] && Removed(text, id)[p..q] == id + STONE
            && Removed(text, id)[q..] == if q <= |text| then text[q..] else ""
  {
    hide Chunks, IdOf;
    ChunkAt(text, FindIn(Chunks(text), id));
  }

  lemma StoneEndIs(text: string, id: string)
    requires FindIn(Chunks(text), id) < |Chunks(text)|
    ensures var after, p, e := Removed(text, id), Offset(Chunks(text), FindIn(Chunks(text), id)), StoneEnd(text, id);
            IsChunkLength(after[p..], LIMIT, e - p)
  {
    hide Chunks, ChunkLength, IdOf, Removed;
  }

  /** After any removal: the chunks before the line as they were, one chunk with the id, and the rest of
      the file, read from the end of that chunk on. */
  lemma RemovalReads(text: string, id: string)
    requires FindIn(Chunks(text), id) < |Chunks(text)|
    ensures var chunks, after := Chunks(text), Removed(text, id); var k, e := FindIn(chunks, id), StoneEnd(text, id);
            var chunk := after[Offset(chunks, k)..e];
            chunk != "" && IdOf(chunk) == Some(id) && Chunks(after) == chunks[..k] + [chunk] + Chunks(after[e..])
  {
    hide Chunks, ChunkLength, IdOf, Removed, StoneEnd, Offset, FindIn;
    var chunks, after := Chunks(text), Removed(text, id);
    var k := FindIn(chunks, id);
    var p, e := Offset(chunks, k), StoneEnd(text, id);
    RemovedAt(text, id);
    StoneEndIs(text, id);
    var more := after[p..];
    ReadAgain(text, k, more, e - p);
    Halves(text, after, p, e, id + STONE);
    ChunksAreChunks(text, k);
    ChunkFits(text, k);
    StoneIsRead(more, chunks[k], id, e - p);
  }

  lemma Halves(text: string, after: string, p: nat, e: nat, stone: string)
    requires p <= |text| && p <= e <= |after| && p + |stone| <= |after|
    requires after[..p] == text[..p] && after[p..p + |stone|] == stone
    ensures text[..p] + after[p..] == after && after[p..][..|stone|] == stone
    ensures after[p..][..e - p] == after[p..e] && after[p..][e - p..] == after[e..]
  {
  }

  lemma ReadAgain(text: string, k: nat, more: string, n: nat)
    requires k < |Chunks(text)| && more != "" && IsChunkLength(more, LIMIT, n)
    ensures var p := Offset(Chunks(text), k);
            p <= |text| && Chunks(text[..p] + more) == Chunks(text)[..k] + [more[..n]] + Chunks(more[n..])
  {
    hide Chunks, ChunkLength;
    ChunksSplit(text, k, more);
    FirstChunk(more, n);
  }

  lemma StoneIsRead(more: string, line: string, id: string, n: nat)
    requires IsChunk(line) && |line| <= LIMIT && IdOf(line) == Some(id)
    requires |id + STONE| <= |more| && more[..|id + STONE|] == id + STONE && IsChunkLength(more, LIMIT, n)
    ensures more[..n] != "" && IdOf(more[..n]) == Some(id)
  {
    NoNewline(line, id);
    var stone := id + STONE;
    assert forall i :: 0 <= i < |stone| ==> more[i] == stone[i] && stone[i] in stone;
    assert |id| < |line| && line[|id|] == ' ';
    assert |id| < n;
    assert more[..n][..|id|] == id;
    assert id != "" ==> more[0] == id[0] == line[0];
    StartsWithId(more[..n], id);
  }

  /** A number is in the file after any removal exactly when it was on that line or one before it, or is
      read behind the chunk of the tombstone. */
  lemma TakenAfterAnyRemoval(text: string, id: string, n: int)
    requires FindIn(Chunks(text), id) < |Chunks(text)|
    ensures Taken(Removed(text, id), n)
       <==> TakenIn(Chunks(text)[..FindIn(Chunks(text), id) + 1], n)
            || Taken(Removed(text, id)[StoneEnd(text, id)..], n)
  {
    hide Chunks, ChunkLength, IdOf, Removed, Offset;
    var chunks, after := Chunks(text), Removed(text, id);
    var k, e := FindIn(chunks, id), StoneEnd(text, id);
    var chunk := after[Offset(chunks, k)..e];
    RemovalReads(text, id);
    TakenInConcat(chunks[..k] + [chunk], Chunks(after[e..]), n);
    TakenInConcat(chunks[..k], [chunk], n);
    TakenInConcat(chunks[..k], [chunks[k]], n);
    assert chunks[..k + 1] == chunks[..k] + [chunks[k]];
    TakenInOne(chunk, n);
    TakenInOne(chunks[k], n);
  }

  /** The line that the tombstone ends in is read in one piece. */
  predicate ReadInOne(text: string, id: string)
    requires FindIn(Chunks(text), id) < |Chunks(text)|
  {
    var after, e := Removed(text, id), StoneEnd(text, id);
    e == |after| || after[e - 1] == '\n'
  }

  /** Chunk `i` starts behind the start of the removed agent's line and before the end of the line that the
      tombstone ends in. */
  predicate Swallowed(text: string, id: string, i: nat)
    requires FindIn(Chunks(text), id) < |Chunks(text)| && i < |Chunks(text)|
  {
    Offset(Chunks(text), FindIn(Chunks(text), id)) < Offset(Chunks(text), i) < StoneEnd(text, id)
  }

  /** The first chunk that is not swallowed. */
  lemma BehindStone(text: string, id: string) returns (j: nat)
    requires FindIn(Chunks(text), id) < |Chunks(text)| && ReadInOne(text, id)
    ensures FindIn(Chunks(text), id) < j <= |Chunks(text)|
    ensures Chunks(Removed(text, id)[StoneEnd(text, id)..]) == Chunks(text)[j..]
    ensures forall i :: 0 <= i < |Chunks(text)| ==>
              (Swallowed(text, id, i) <==> FindIn(Chunks(text), id) < i < j)
  {
    hide Chunks, ChunkLength, IdOf, Removed, Offset, StoneEnd, FindIn;
    var chunks, after := Chunks(text), Removed(text, id);
    var k, e := FindIn(chunks, id), StoneEnd(text, id);
    RemovedAt(text, id);
    if e == |after| {
      j := |chunks|;
      OffsetOfAll(text);
      NoChunks();
      assert after[e..] == "" && e >= |text| by { LongEnough(text, after, id); }
    } else {
      NewlineIsOld(text, id);
      j := ChunkAfterNewline(text, e);
      assert after[e..] == text[e..];
    }
    OffsetsAround(chunks, k, j);
  }

  lemma LongEnough(text: string, after: string, id: string)
    requires FindIn(Chunks(text), id) < |Chunks(text)| && after == Removed(text, id)
    ensures |after| >= |text|
  {
    hide Chunks, IdOf, Removed;
    RemovedAt(text, id);
  }

  /** A newline that ends the chunk of the tombstone was there before. */
  lemma NewlineIsOld(text: string, id: string)
    requires FindIn(Chunks(text), id) < |Chunks(text)|
    requires Removed(text, id)[StoneEnd(text, id) - 1] == '\n'
    ensures var e := StoneEnd(text, id);
            0 < e <= |text| && text[e - 1] == '\n' && Removed(text, id)[e..] == text[e..]
  {
    hide Chunks, ChunkLength, IdOf, Removed, Offset, StoneEnd, FindIn;
    var chunks, after := Chunks(text), Removed(text, id);
    var k, e := FindIn(chunks, id), StoneEnd(text, id);
    var p := Offset(chunks, k);
    var q := p + |id + STONE|;
    RemovedAt(text, id);
    ChunksAreChunks(text, k);
    NoNewline(chunks[k], id);
    forall i | p <= i < q
      ensures after[i] != '\n'
    {
      assert after[i] == after[p..q][i - p];
      assert (id + STONE)[i - p] in id + STONE;
    }
    assert after[q..][e - 1 - q] == text[q..][e - 1 - q];
    assert after[e..] == after[q..][e - q..] && text[e..] == text[q..][e - q..];
  }

  lemma OffsetsAround(chunks: seq<string>, k: nat, j: nat)
    requires k < |chunks| && j <= |chunks| && forall m :: 0 <= m < |chunks| ==> chunks[m] != ""
    ensures forall i :: 0 <= i < |chunks| ==>
              (Offset(chunks, k) < Offset(chunks, i) <==> k < i) && (Offset(chunks, i) < Offset(chunks, j) <==> i < j)
    ensures Offset(chunks, k) < Offset(chunks, j) ==> k < j
  {
    forall i | 0 <= i < |chunks|
      ensures Offset(chunks, k) < Offset(chunks, i) <==> k < i
      ensures Offset(chunks, i) < Offset(chunks, j) <==> i < j
    {
      OffsetsInOrder(chunks, k, i);
      OffsetsInOrder(chunks, i, j);
    }
    OffsetsInOrder(chunks, k, j);
  }

  lemma OffsetsInOrder(chunks: seq<string>, i: nat, j: nat)
    requires i <= |chunks| && j <= |chunks| && forall m :: 0 <= m < |chunks| ==> chunks[m] != ""
    ensures Offset(chunks, i) < Offset(chunks, j) <==> i < j
  {
    if i < j {
      OffsetGrows(chunks, i, j);
    } else if j < i {
      OffsetGrows(chunks, j, i);
    }
  }

  ghost predicate OnKeptLine(text: string, id: string, n: int)
    requires FindIn(Chunks(text), id) < |Chunks(text)|
  {
    exists i :: 0 <= i < |Chunks(text)| && !Swallowed(text, id, i) && IsNumbered(Chunks(text)[i], n)
  }

  /** A number is in the file after the removal exactly when a line that is not swallowed carries it. */
  lemma RemovalSwallowsExactly(text: string, id: string, n: int)
    requires FindIn(Chunks(text), id) < |Chunks(text)| && ReadInOne(text, id)
    ensures Taken(Removed(text, id), n)
       <==> OnKeptLine(text, id, n)
  {
    hide Chunks, IsNumbered, Removed, Offset, Swallowed, StoneEnd, IdOf, FindIn;
    var chunks := Chunks(text);
    var k := FindIn(chunks, id);
    var j := BehindStone(text, id);
    TakenAfterAnyRemoval(text, id, n);
    if i :| 0 <= i < |chunks| && !Swallowed(text, id, i) && IsNumbered(chunks[i], n) {
      if i <= k {
        assert chunks[..k + 1][i] == chunks[i];
      } else {
        assert chunks[j..][i - j] == chunks[i];
      }
    }
    if TakenIn(chunks[..k + 1], n) {
      var i :| 0 <= i < k + 1 && IsNumbered(chunks[..k + 1][i], n);
      assert chunks[i] == chunks[..k + 1][i];
    } else if TakenIn(chunks[j..], n) {
      var i :| 0 <= i < |chunks| - j && IsNumbered(chunks[j..][i], n);
      assert chunks[j + i] == chunks[j..][i];
    }
  }

  /** A removal never takes a number that was free, and it frees none exactly when every number on a
      swallowed line also stands on a line that is not swallowed. */
  lemma RemovalKeepsNumbersIff(text: string, id: string)
    requires FindIn(Chunks(text), id) < |Chunks(text)| && ReadInOne(text, id)
    ensures forall n: int :: Taken(Removed(text, id), n) ==> Taken(text, n)
    ensures (forall n: int :: Taken(text, n) ==> Taken(Removed(text, id), n))
       <==> forall i, n: int :: 0 <= i < |Chunks(text)| && Swallowed(text, id, i) && IsNumbered(Chunks(text)[i], n) ==>
              OnKeptLine(text, id, n)
  {
    hide Chunks, IsNumbered, Removed, Swallowed, FindIn;
    var chunks := Chunks(text);
    forall n: int
      ensures Taken(Removed(text, id), n) <==> OnKeptLine(text, id, n)
    {
      RemovalSwallowsExactly(text, id, n);
    }
    forall i, n: int | 0 <= i < |chunks| && Swallowed(text, id, i) && IsNumbered(chunks[i], n)
      ensures Taken(text, n)
    {
    }
    forall n: int | Taken(text, n) && !OnKeptLine(text, id, n)
      ensures exists i :: 0 <= i < |chunks| && Swallowed(text, id, i) && IsNumbered(chunks[i], n)
    {
      var i :| 0 <= i < |chunks| && IsNumbered(chunks[i], n);
    }
  }

  // ---------- an example ----------

  const SHORT: string := "5 x\n1025 a\n"

  /** A line without room for its tombstone can take the number of the next one with it. */
  lemma ShortLineSwallowsNext()
    ensures Taken(SHORT, 1025) && !Taken(Removed(SHORT, "5"), 1025)
  {
    hide Chunks, IdOf, Atoi, Removed;
    ShortChunks();
    ShortIds();
    ShortRemoved();
    StoneChunk();
    NumberOf1025();
    NumberOf5();
    assert IsNumbered(Chunks(SHORT)[1], 1025);
    assert !IsNumbered(Chunks("5" + STONE)[0], 1025);
  }

  lemma ShortIds()
    ensures IdOf("5 x\n") == Some("5") && IdOf("1025 a\n") == Some("1025") && IdOf("5" + STONE) == Some("5")
  {
    StartsWithId("5 x\n", "5");
    StartsWithId("1025 a\n", "1025");
    StartsWithId("5" + STONE, "5");
  }

  lemma ShortRemoved()
    ensures Removed(SHORT, "5") == "5" + STONE
  {
    hide Chunks, IdOf;
    ShortChunks();
    ShortIds();
    assert FindIn(Chunks(SHORT), "5") == 0;
  }

  lemma ShortChunks()
    ensures Chunks(SHORT) == ["5 x\n", "1025 a\n"]
  {
    hide Chunks, ChunkLength;
    ChunksOfLine("5 x");
    ChunksOfLine("1025 a");
    ChunksAppend("5 x\n", "1025 a\n");
    assert "5 x" + "\n" == "5 x\n" && "1025 a" + "\n" == "1025 a\n";
    assert SHORT == "5 x\n" + "1025 a\n";
  }

  lemma StoneChunk()
    ensures Chunks("5" + STONE) == ["5" + STONE]
  {
    hide Chunks, ChunkLength;
    var after := "5" + STONE;
    assert '\n' !in after;
    FirstChunk(after, |after|);
    NoChunks();
    assert after[..|after|] == after && after[|after|..] == "";
  }

  lemma NumberOf1025()
    ensures Atoi("1025") == 1025
  {
    assert "1025"[1..] == "025" && "025"[1..] == "25" && "25"[1..] == "5" && "5"[1..] == "";
    assert DigitsFrom(102, "5") == 1025 by { assert DigitsFrom(1025, "") == 1025; }
    assert DigitsFrom(1, "025") == 1025 by { assert DigitsFrom(10, "25") == DigitsFrom(102, "5"); }
    assert DigitsFrom(0, "1025") == 1025;
  }

  lemma NumberOf5()
    ensures Atoi("5") == 5
  {
    assert "5"[1..] == "" && DigitsFrom(5, "") == 5;
  }
}
