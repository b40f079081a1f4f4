/** Reading a text file with `fgets` and a buffer of 256 bytes. */
module LineReader {

  /** The characters one call stores at most, before its NUL. */
  const LIMIT: nat := 255

  /** How much one `fgets` takes from the text that is left: up to a newline, or the limit, or the end. */
  function ChunkLength(text: string, limit: nat := LIMIT): (n: nat)
    requires text != "" && limit > 0
    ensures IsChunkLength(text, limit, n)
    decreases limit
  {
    if text[0] == '\n' || |text| == 1 || limit == 1 then 1 else 1 + ChunkLength(text[1..], limit - 1)
  }

  predicate IsChunkLength(text: string, limit: nat, n: nat) {
    && 1 <= n <= |text| && n <= limit
    && (forall i :: 0 <= i < n - 1 ==> text[i] != '\n')
    && (n == |text| || n == limit || text[n - 1] == '\n')
  }

  lemma ChunkLengthIs(text: string, n: nat)
    requires text != "" && IsChunkLength(text, LIMIT, n)
    ensures ChunkLength(text) == n
  {
  }

  /** What the successive calls of `fgets` return. */
  function Chunks(text: string): (chunks: seq<string>)
    ensures forall i :: 0 <= i < |chunks| ==> chunks[i] != ""
  {
    if text == "" then [] else
      var n := ChunkLength(text);
      [text[..n]] + Chunks(text[n..])
  }

  /** The first chunk and the rest. */
  lemma FirstChunk(text: string, n: nat)
    requires text != "" && IsChunkLength(text, LIMIT, n)
    ensures Chunks(text) == [text[..n]] + Chunks(text[n..])
    ensures ChunkLength(text) == n
  {
    ChunkLengthIs(text, n);
  }

  predicate EndsLine(text: string) { text == "" || text[|text| - 1] == '\n' }

  /** Text appended after a complete line is read after everything that was there. */
  lemma {:induction false} ChunksAppend(text: string, more: string)
    requires EndsLine(text)
    ensures Chunks(text + more) == Chunks(text) + Chunks(more)
    decreases |text|
  {
    hide ChunkLength, Chunks;
    if text == "" {
      assert text + more == more;
      NoChunks();
    } else {
      var n := ChunkLength(text);
      FirstChunk(text, n);
      FirstChunk(text + more, n);
      assert (text + more)[n..] == text[n..] + more;
      assert (text + more)[..n] == text[..n];
      ChunksAppend(text[n..], more);
    }
  }

  /** A line that fits the buffer with its newline is one chunk; one of 255 characters is two. */
  lemma ChunksOfLine(line: string)
    requires '\n' !in line && |line| <= LIMIT
    ensures Chunks(line + "\n") == if |line| < LIMIT then [line + "\n"] else [line, "\n"]
  {
    hide ChunkLength, Chunks;
    var text := line + "\n";
    NoChunks();
    if |line| == LIMIT {
      FirstChunk(text, LIMIT);
      assert text[..LIMIT] == line && text[LIMIT..] == "\n";
      FirstChunk("\n", 1);
      assert "\n"[..1] == "\n" && "\n"[1..] == "";
    } else {
      FirstChunk(text, |text|);
      assert text[..|text|] == text && text[|text|..] == "";
    }
  }

  lemma NoChunks()
    ensures Chunks("") == []
  {
  }

  /** The chunks before chunk `k`, put together again. */
  function Offset(chunks: seq<string>, k: nat): (n: nat)
    requires k <= |chunks|
  {
    if k == 0 then 0 else |chunks[0]| + Offset(chunks[1..], k - 1)
  }

  /** Chunk `k` stands at its offset. */
  lemma {:induction false} ChunkAt(text: string, k: nat)
    requires k < |Chunks(text)|
    ensures Offset(Chunks(text), k) + |Chunks(text)[k]| <= |text|
    ensures var p := Offset(Chunks(text), k);
            text[p..p + |Chunks(text)[k]|] == Chunks(text)[k] && Chunks(text[p..]) == Chunks(text)[k..]
    decreases k
  {
    hide ChunkLength, Chunks;
    assert text != "" by { NoChunks(); }
    var n := ChunkLength(text);
    FirstChunk(text, n);
    if k == 0 {
      assert text[0..] == text;
    } else {
      ChunkAt(text[n..], k - 1);
      var chunks, rest := Chunks(text), Chunks(text[n..]);
      assert chunks[1..] == rest;
      var p := Offset(rest, k - 1);
      assert Offset(chunks, k) == n + p;
      assert text[n + p..] == text[n..][p..];
    }
  }

  /** No chunk is longer than the limit. */
  lemma {:induction false} ChunkFits(text: string, k: nat)
    requires k < |Chunks(text)|
    ensures |Chunks(text)[k]| <= LIMIT
  {
    hide ChunkLength;
    if k > 0 {
      ChunkFits(text[ChunkLength(text)..], k - 1);
    }
  }

  /** The chunks before the last one are read the same whatever follows them. */
  lemma {:induction false} ChunksSplit(text: string, k: nat, more: string)
    requires k < |Chunks(text)|
    ensures var p := Offset(Chunks(text), k);
            p <= |text| && Chunks(text[..p] + more) == Chunks(text)[..k] + Chunks(more)
    decreases k
  {
    hide ChunkLength, Chunks;
    ChunkAt(text, k);
    assert text != "" by { NoChunks(); }
    var n, p := ChunkLength(text), Offset(Chunks(text), k);
    FirstChunk(text, n);
    if k == 0 {
      assert text[..0] + more == more;
    } else {
      var chunks, rest, after := Chunks(text), Chunks(text[n..]), text[..p] + more;
      assert chunks[1..] == rest;
      ChunksSplit(text[n..], k - 1, more);
      assert n < |text| by { NoChunks(); }
      assert p == n + Offset(rest, k - 1);
      PrefixChunk(text, n, p, more);
      FirstChunk(after, n);
      assert after[n..] == text[n..][..p - n] + more && after[..n] == text[..n];
    }
  }

  lemma PrefixChunk(text: string, n: nat, p: nat, more: string)
    requires n < |text| && n <= p <= |text| && IsChunkLength(text, LIMIT, n)
    ensures IsChunkLength(text[..p] + more, LIMIT, n)
  {
    var after := text[..p] + more;
    assert forall i :: 0 <= i < n ==> after[i] == text[i];
  }

  lemma {:induction false} OffsetOfConcat(a: seq<string>, b: seq<string>)
    ensures Offset(a + b, |a|) == Offset(a, |a|)
  {
    if a != [] {
      assert (a + b)[1..] == a[1..] + b;
      OffsetOfConcat(a[1..], b);
    }
  }

  /** All chunks together are the text. */
  lemma {:induction false} OffsetOfAll(text: string)
    ensures Offset(Chunks(text), |Chunks(text)|) == |text|
    decreases |text|
  {
    hide ChunkLength, Chunks;
    NoChunks();
    if text != "" {
      var n := ChunkLength(text);
      FirstChunk(text, n);
      OffsetOfAll(text[n..]);
      assert Chunks(text)[1..] == Chunks(text[n..]);
    }
  }

  lemma {:induction false} OffsetGrows(chunks: seq<string>, i: nat, j: nat)
    requires i < j <= |chunks| && forall m :: 0 <= m < |chunks| ==> chunks[m] != ""
    ensures Offset(chunks, i) < Offset(chunks, j)
    decreases i
  {
    if i > 0 {
      OffsetGrows(chunks[1..], i - 1, j - 1);
    }
  }

  /** Behind every newline a chunk starts. */
  lemma ChunkAfterNewline(text: string, e: nat) returns (j: nat)
    requires 0 < e <= |text| && text[e - 1] == '\n'
    ensures j <= |Chunks(text)| && Offset(Chunks(text), j) == e && Chunks(text[e..]) == Chunks(text)[j..]
  {
    hide ChunkLength, Chunks;
    var front, back := text[..e], text[e..];
    assert front + back == text && front[|front| - 1] == '\n';
    ChunksAppend(front, back);
    j := |Chunks(front)|;
    OffsetOfConcat(Chunks(front), Chunks(back));
    OffsetOfAll(front);
  }

  /** The same number of characters and the same newlines. */
  predicate SameShape(s: string, t: string) {
    |s| == |t| && forall i :: 0 <= i < |s| ==> (s[i] == '\n' <==> t[i] == '\n')
  }

  /** Writing over one chunk without moving a newline changes that chunk only. */
  lemma {:induction false} ChunkReplaced(text: string, k: nat, chunk: string)
    requires k < |Chunks(text)| && SameShape(Chunks(text)[k], chunk)
    ensures var p := Offset(Chunks(text), k);
            p + |chunk| <= |text| && Chunks(text[..p] + chunk + text[p + |chunk|..]) == Chunks(text)[k := chunk]
    decreases k
  {
    hide ChunkLength, Chunks;
    ChunkAt(text, k);
    assert text != "" by { NoChunks(); }
    var n, p := ChunkLength(text), Offset(Chunks(text), k);
    FirstChunk(text, n);
    var after := text[..p] + chunk + text[p + |chunk|..];
    if k == 0 {
      assert after[..n] == chunk && after[n..] == text[n..];
      FirstChunk(after, n);
    } else {
      var chunks, rest := Chunks(text), Chunks(text[n..]);
      assert chunks[1..] == rest;
      ChunkReplaced(text[n..], k - 1, chunk);
      ReplacedLater(text, n, p, chunk);
      FirstChunk(after, n);
      assert chunks[k := chunk] == [chunks[0]] + rest[k - 1 := chunk];
    }
  }

  lemma ReplacedLater(text: string, n: nat, p: nat, chunk: string)
    requires text != "" && n <= p && p + |chunk| <= |text| && IsChunkLength(text, LIMIT, n)
    ensures var after := text[..p] + chunk + text[p + |chunk|..];
            && IsChunkLength(after, LIMIT, n)
            && after[..n] == text[..n]
            && after[n..] == text[n..][..p - n] + chunk + text[n..][p - n + |chunk|..]
  {
    ReplacedParts(text, n, p, chunk);
    SamePrefix(text, text[..p] + chunk + text[p + |chunk|..], n);
  }

  lemma ReplacedParts(text: string, n: nat, p: nat, chunk: string)
    requires n <= p && p + |chunk| <= |text|
    ensures var after := text[..p] + chunk + text[p + |chunk|..];
            && |after| == |text| && after[..n] == text[..n]
            && after[n..] == text[n..][..p - n] + chunk + text[n..][p - n + |chunk|..]
  {
    var after := text[..p] + chunk + text[p + |chunk|..];
    assert after[..n] == text[..n];
    assert text[n..][..p - n] == text[n..p] && text[n..][p - n + |chunk|..] == text[p + |chunk|..];
  }

  lemma SamePrefix(text: string, after: string, n: nat)
    requires IsChunkLength(text, LIMIT, n) && |after| == |text| && after[..n] == text[..n]
    ensures IsChunkLength(after, LIMIT, n)
  {
    assert forall i :: 0 <= i < n ==> after[i] == after[..n][i] == text[..n][i] == text[i];
  }

  /** `fgets` at an offset of the file: the chunk there, if any, and the offset after it. */
  method Fgets(text: string, position: nat) returns (chunk: string, next: nat)
    requires position <= |text|
    ensures position <= next <= |text| && chunk == text[position..next]
    ensures chunk == "" <==> position == |text|
    ensures Chunks(text[position..]) == if chunk == "" then [] else [chunk] + Chunks(text[next..])
  {
    hide ChunkLength, Chunks;
    next := position;
    while next < |text| && next - position < LIMIT
      invariant position <= next <= |text| && next - position <= LIMIT
      invariant forall i :: position <= i < next ==> text[i] != '\n'
    {
      next := next + 1;
      if text[next - 1] == '\n' {
        break;
      }
    }
    chunk := text[position..next];
    NextChunk(text, position, next);
  }

  lemma NextChunk(text: string, position: nat, next: nat)
    requires position <= next <= |text| && next - position <= LIMIT
    requires forall i :: position <= i < next - 1 ==> text[i] != '\n'
    requires next == |text| || next - position == LIMIT || (next > position && text[next - 1] == '\n')
    ensures Chunks(text[position..]) == if next == position then [] else [text[position..next]] + Chunks(text[next..])
  {
    hide ChunkLength, Chunks;
    var rest := text[position..];
    if next == position {
      assert rest == "";
      NoChunks();
    } else {
      FirstChunk(rest, next - position);
      assert rest[next - position..] == text[next..];
      assert rest[..next - position] == text[position..next];
    }
  }
}
