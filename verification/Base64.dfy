/** The base64 codec of src/addagent/b64.c (section 4 of RFC 4648).

    A C `char` is a `bv8`: every comparison and shift below is done on eight bits.  The two loops
    write through moving pointers into buffers whose sizes are those of the C code, so that verifying
    the methods also proves that no write leaves its buffer.
 */
module Base64 {
  import opened Sequences

  type Byte = bv8

  const NUL: Byte := 0
  const UPPER_A: Byte := 65
  const UPPER_Z: Byte := 90
  const LOWER_A: Byte := 97
  const LOWER_Z: Byte := 122
  const DIGIT_0: Byte := 48
  const DIGIT_9: Byte := 57
  const PLUS: Byte := 43
  const SLASH: Byte := 47
  const PAD: Byte := 61

  // ---------- characters ----------

  function Encode(u: Byte): Byte {
    if u < 26 then UPPER_A + u
    else if u < 52 then LOWER_A + (u - 26)
    else if u < 62 then DIGIT_0 + (u - 52)
    else if u == 62 then PLUS
    else SLASH
  }

  function Decode(c: Byte): Byte {
    if UPPER_A <= c <= UPPER_Z then c - UPPER_A
    else if LOWER_A <= c <= LOWER_Z then c - LOWER_A + 26
    else if DIGIT_0 <= c <= DIGIT_9 then c - DIGIT_0 + 52
    else if c == PLUS then 62
    else 63
  }

  predicate IsBase64(c: Byte) {
    || UPPER_A <= c <= UPPER_Z
    || LOWER_A <= c <= LOWER_Z
    || DIGIT_0 <= c <= DIGIT_9
    || c == PLUS || c == SLASH || c == PAD
  }

  /** The 64 digits are proper alphabet characters, never the padding, and decode to themselves. */
  lemma DigitRoundTrip(u: Byte)
    requires u < 64
    ensures Decode(Encode(u)) == u
    ensures IsBase64(Encode(u)) && Encode(u) != PAD && Encode(u) != NUL
  {
  }

  const CAPITALS: string := "ABCDEFGHIJKLMNOPQRSTUVWXYZ"
  const SMALLS: string := "abcdefghijklmnopqrstuvwxyz"
  const OTHERS: string := "0123456789+/"

  /** Table 1 of section 4 of RFC 4648. */
  const ALPHABET: string := CAPITALS + SMALLS + OTHERS

  /** The digits are the 64 characters of that table, in its order, and the padding is '='. */
  lemma DigitsAreAlphabet(k: nat)
    requires k < 64
    ensures |ALPHABET| == 64 && Encode(k as Byte) as int == ALPHABET[k] as int && PAD as int == '=' as int
  {
    CapitalIs(if k < 26 then k else 0);
    SmallIs(if 26 <= k < 52 then k - 26 else 0);
    OtherIs(if 52 <= k then k - 52 else 0);
    hide Encode;
  }

  lemma CapitalIs(k: nat)
    requires k < 26
    ensures |CAPITALS| == 26 && Encode(k as Byte) as int == CAPITALS[k] as int
  {
    hide Encode, CAPITALS;
    CapitalCode(k);
    CapitalTable(k);
  }

  lemma CapitalCode(k: nat)
    requires k < 26
    ensures Encode(k as Byte) as int == 65 + k
  {
  }

  lemma CapitalTable(k: nat)
    requires k < 26
    ensures |CAPITALS| == 26 && CAPITALS[k] as int == 65 + k
  {
  }

  lemma SmallIs(k: nat)
    requires k < 26
    ensures |SMALLS| == 26 && Encode((26 + k) as Byte) as int == SMALLS[k] as int
  {
    hide Encode, SMALLS;
    SmallCode(k);
    SmallTable(k);
  }

  lemma SmallCode(k: nat)
    requires k < 26
    ensures Encode((26 + k) as Byte) as int == 97 + k
  {
  }

  lemma SmallTable(k: nat)
    requires k < 26
    ensures |SMALLS| == 26 && SMALLS[k] as int == 97 + k
  {
  }

  lemma OtherIs(k: nat)
    requires k < 12
    ensures |OTHERS| == 12 && Encode((52 + k) as Byte) as int == OTHERS[k] as int
  {
  }

  /** Only those characters and the padding are kept by the decoder's filter. */
  lemma AlphabetIsKept(c: Byte)
    ensures IsBase64(c) <==> c == PAD || exists u: Byte :: u < 64 && Encode(u) == c
  {
    if IsBase64(c) && c != PAD {
      DecodeDigit(c);
    }
    if u: Byte :| u < 64 && Encode(u) == c {
      DigitRoundTrip(u);
    }
  }

  lemma DecodeDigit(c: Byte)
    requires IsBase64(c) && c != PAD
    ensures Decode(c) < 64 && Encode(Decode(c)) == c
  {
  }

  // ---------- groups of three bytes, groups of four digits ----------

  function Sextet1(b1: Byte): Byte { b1 >> 2 }
  function Sextet2(b1: Byte, b2: Byte): Byte { ((b1 & 0x3) << 4) | (b2 >> 4) }
  function Sextet3(b2: Byte, b3: Byte): Byte { ((b2 & 0xf) << 2) | (b3 >> 6) }
  function Sextet4(b3: Byte): Byte { b3 & 0x3f }

  function Octet1(d1: Byte, d2: Byte): Byte { (d1 << 2) | (d2 >> 4) }
  function Octet2(d2: Byte, d3: Byte): Byte { ((d2 & 0xf) << 4) | (d3 >> 2) }
  function Octet3(d3: Byte, d4: Byte): Byte { ((d3 & 0x3) << 6) | d4 }

  lemma SextetsInRange(b1: Byte, b2: Byte, b3: Byte)
    ensures Sextet1(b1) < 64 && Sextet2(b1, b2) < 64 && Sextet3(b2, b3) < 64 && Sextet4(b3) < 64
  {
  }

  function Bits(b1: Byte, b2: Byte, b3: Byte): bv24 { (b1 as bv24 << 16) | (b2 as bv24 << 8) | b3 as bv24 }

  /** The four digits are the 24 bits of the three bytes, six at a time, from the left. */
  lemma SextetsAreBits(b1: Byte, b2: Byte, b3: Byte)
    ensures Sextet1(b1) as bv24 == Bits(b1, b2, b3) >> 18
    ensures Sextet2(b1, b2) as bv24 == (Bits(b1, b2, b3) >> 12) & 63
    ensures Sextet3(b2, b3) as bv24 == (Bits(b1, b2, b3) >> 6) & 63
    ensures Sextet4(b3) as bv24 == Bits(b1, b2, b3) & 63
  {
  }

  /** Regrouping 24 bits as 4 * 6 and back loses nothing; zero fill stands in for absent bytes. */
  lemma OctetsOfSextets(b1: Byte, b2: Byte, b3: Byte)
    ensures Octet1(Sextet1(b1), Sextet2(b1, b2)) == b1
    ensures Octet2(Sextet2(b1, b2), Sextet3(b2, b3)) == b2
    ensures Octet3(Sextet3(b2, b3), Sextet4(b3)) == b3
  {
  }

  /** Four characters for three bytes; padding stands where the second or third byte is absent. */
  function Quad(b1: Byte, b2: Byte, b3: Byte, second: bool, third: bool): (q: seq<Byte>)
    ensures |q| == 4
  {
    [Encode(Sextet1(b1)),
     Encode(Sextet2(b1, b2)),
     if second then Encode(Sextet3(b2, b3)) else PAD,
     if third then Encode(Sextet4(b3)) else PAD]
  }

  function OrZero(s: seq<Byte>, i: nat): Byte { if i < |s| then s[i] else 0 }

  /** The four characters of the group that starts at byte `i`. */
  function EncodedGroup(s: seq<Byte>, i: nat): (g: seq<Byte>)
    requires i < |s|
    ensures |g| == 4
  {
    Quad(s[i], OrZero(s, i + 1), OrZero(s, i + 2), i + 1 < |s|, i + 2 < |s|)
  }

  function From<T>(s: seq<T>, i: nat): seq<T> { if i <= |s| then s[i..] else [] }

  /** The text `encode_base64` must produce for the bytes `s`. */
  function Encoding(s: seq<Byte>): (t: seq<Byte>)
    ensures |t| == 4 * ((|s| + 2) / 3)
    decreases |s|
  {
    if s == [] then [] else EncodedGroup(s, 0) + Encoding(From(s, 3))
  }

  function OrA(t: seq<Byte>, k: nat): Byte { if k < |t| then t[k] else UPPER_A }

  /** The one to three bytes of four characters. */
  function Triple(c1: Byte, c2: Byte, c3: Byte, c4: Byte): (g: seq<Byte>)
    ensures 1 <= |g| <= 3
  {
    [Octet1(Decode(c1), Decode(c2))]
    + (if c3 != PAD then [Octet2(Decode(c2), Decode(c3))] else [])
    + (if c4 != PAD then [Octet3(Decode(c3), Decode(c4))] else [])
  }

  /** The bytes decoded from the group of (up to) four characters that starts at `k`. */
  function DecodedGroup(t: seq<Byte>, k: nat): (g: seq<Byte>)
    requires k < |t|
    ensures 1 <= |g| <= 3
  {
    Triple(t[k], OrA(t, k + 1), OrA(t, k + 2), OrA(t, k + 3))
  }

  /** The bytes decoded from alphabet characters only. */
  function Decoding(t: seq<Byte>): (s: seq<Byte>)
    ensures |s| <= 3 * ((|t| + 3) / 4)
    decreases |t|
  {
    if t == [] then [] else DecodedGroup(t, 0) + Decoding(From(t, 4))
  }

  function Filter<T>(keep: T -> bool, t: seq<T>): (r: seq<T>)
    ensures |r| <= |t|
  {
    if t == [] then []
    else if keep(t[0]) then [t[0]] + Filter(keep, t[1..])
    else Filter(keep, t[1..])
  }

  /** The alphabet characters of `t`, in order. */
  function Kept(t: seq<Byte>): (r: seq<Byte>)
    ensures |r| <= |t|
  {
    Filter(IsBase64, t)
  }

  // ---------- main results ----------

  lemma {:induction false} EncodingIsText(s: seq<Byte>)
    ensures forall c | c in Encoding(s) :: IsBase64(c) && c != NUL
    decreases |s|
  {
    if s != [] {
      var b1, b2, b3 := s[0], if 1 < |s| then s[1] else 0, if 2 < |s| then s[2] else 0;
      SextetsInRange(b1, b2, b3);
      DigitRoundTrip(Sextet1(b1));
      DigitRoundTrip(Sextet2(b1, b2));
      DigitRoundTrip(Sextet3(b2, b3));
      DigitRoundTrip(Sextet4(b3));
      EncodingIsText(From(s, 3));
    }
  }

  lemma {:induction false} GroupRoundTrip(s: seq<Byte>, rest: seq<Byte>)
    requires s != []
    requires |s| < 3 ==> rest == []
    ensures DecodedGroup(EncodedGroup(s, 0) + rest, 0) == if |s| <= 3 then s else s[..3]
  {
    var b1, b2, b3 := s[0], if 1 < |s| then s[1] else 0, if 2 < |s| then s[2] else 0;
    SextetsInRange(b1, b2, b3);
    DigitRoundTrip(Sextet1(b1));
    DigitRoundTrip(Sextet2(b1, b2));
    DigitRoundTrip(Sextet3(b2, b3));
    DigitRoundTrip(Sextet4(b3));
    OctetsOfSextets(b1, b2, b3);
  }

  /** Decoding undoes encoding, for every byte sequence (zero bytes included). */
  lemma {:induction false} RoundTrip(s: seq<Byte>)
    ensures Decoding(Encoding(s)) == s
    decreases |s|
  {
    if s != [] {
      var rest := From(s, 3);
      GroupRoundTrip(s, Encoding(rest));
      RoundTrip(rest);
      assert Encoding(s)[4..] == Encoding(rest);
      assert s == (if |s| <= 3 then s else s[..3]) + rest;
    }
  }

  lemma {:induction false} FilterAll<T>(keep: T -> bool, t: seq<T>)
    requires forall c | c in t :: keep(c)
    ensures Filter(keep, t) == t
  {
    if t != [] {
      FilterAll(keep, t[1..]);
    }
  }

  lemma {:induction false} FilterNone<T>(keep: T -> bool, t: seq<T>)
    requires forall c | c in t :: !keep(c)
    ensures Filter(keep, t) == []
  {
    if t != [] {
      FilterNone(keep, t[1..]);
    }
  }

  lemma {:induction false} FilterConcat<T>(keep: T -> bool, t: seq<T>, u: seq<T>)
    ensures Filter(keep, t + u) == Filter(keep, t) + Filter(keep, u)
  {
    if t == [] {
      assert t + u == u;
    } else {
      assert (t + u)[1..] == t[1..] + u;
      FilterConcat(keep, t[1..], u);
    }
  }

  /** Characters outside the alphabet are ignored wherever they are inserted. */
  lemma NoiseIgnored(t: seq<Byte>, noise: seq<Byte>, u: seq<Byte>)
    requires forall c | c in noise :: !IsBase64(c)
    ensures Kept(t + noise + u) == Kept(t + u)
    ensures Decoding(Kept(t + noise + u)) == Decoding(Kept(t + u))
  {
    FilterNone(IsBase64, noise);
    FilterConcat(IsBase64, t + noise, u);
    FilterConcat(IsBase64, t, noise);
    FilterConcat(IsBase64, t, u);
  }

  /** What a reader of the encoded text gets back, through the filter of the decoder. */
  lemma FilteredRoundTrip(s: seq<Byte>)
    ensures Decoding(Kept(Encoding(s))) == s
  {
    EncodingIsText(s);
    FilterAll(IsBase64, Encoding(s));
    RoundTrip(s);
  }

  /** The size `encode_base64` allocates. */
  function OutputSize(n: nat): nat { n * 4 / 3 + 4 }

  /** The text and its terminator fit the allocation, with no byte to spare exactly when n = 3k + 1. */
  lemma OutputFits(s: seq<Byte>)
    ensures |Encoding(s)| + 1 <= OutputSize(|s|)
    ensures |Encoding(s)| + 1 == OutputSize(|s|) <==> |s| % 3 == 1
  {
    hide Encoding;
    var k, r := |s| / 3, |s| % 3;
    assert |s| == 3 * k + r;
    assert |Encoding(s)| == 4 * (k + (if r == 0 then 0 else 1));
    assert |s| * 4 / 3 == 4 * k + r * 4 / 3;
  }

  // ---------- the loops ----------

  /** A C string: the bytes of `a` before its first NUL. */
  ghost predicate HasNul(a: array<Byte>)
    reads a
  {
    exists k :: 0 <= k < a.Length && a[k] == NUL
  }

  function UpToNul(s: seq<Byte>): (r: seq<Byte>)
    ensures |r| <= |s| && r == s[..|r|] && NUL !in r
    ensures |r| < |s| ==> s[|r|] == NUL
  {
    if s == [] || s[0] == NUL then [] else [s[0]] + UpToNul(s[1..])
  }

  lemma {:induction false} UpToNulAt(s: seq<Byte>, n: nat)
    requires n < |s| && s[n] == NUL && forall j :: 0 <= j < n ==> s[j] != NUL
    ensures UpToNul(s) == s[..n]
  {
    if n > 0 {
      UpToNulAt(s[1..], n - 1);
    }
  }

  method StrLen(a: array<Byte>) returns (n: nat)
    requires HasNul(a)
    ensures n < a.Length && a[n] == NUL && forall j :: 0 <= j < n ==> a[j] != NUL
    ensures UpToNul(a[..]) == a[..n]
  {
    n := 0;
    while a[n] != NUL
      invariant n < a.Length && forall j :: 0 <= j < n ==> a[j] != NUL
      decreases a.Length - n
    {
      n := n + 1;
    }
    UpToNulAt(a[..], n);
    assert a[..][..n] == a[..n];
  }

  /** `encode_base64`: the bytes are `size` long, or a C string when `size` is 0. */
  method EncodeBase64(size: nat, src: array?<Byte>) returns (out: array?<Byte>)
    requires src != null ==> if size == 0 then HasNul(src) else size <= src.Length
    ensures out == null <==> src == null
    ensures out != null ==>
              var s := if size == 0 then UpToNul(src[..]) else src[..size];
              && fresh(out)
              && out.Length == OutputSize(|s|)
              && |Encoding(s)| < out.Length
              && Filled(out[..], Encoding(s))
  {
    if src == null {
      return null;
    }
    var n := size;
    if size == 0 {
      n := StrLen(src);
    }
    out := new Byte[n * 4 / 3 + 4](_ => NUL);
    EncodeLoop(src, n, out);
  }

  /** One turn of the encoding loop: four characters written at `p`. */
  method PutQuad(out: array<Byte>, p: nat, b1: Byte, b2: Byte, b3: Byte, second: bool, third: bool)
    requires p + 4 <= out.Length
    modifies out
    ensures out[..] == old(out[..])[..p] + Quad(b1, b2, b3, second, third) + old(out[..])[p + 4..]
  {
    hide Encode, Sextet1, Sextet2, Sextet3, Sextet4;
    var b4, b5, b6, b7 := Sextet1(b1), Sextet2(b1, b2), Sextet3(b2, b3), Sextet4(b3);
    out[p] := Encode(b4);
    out[p + 1] := Encode(b5);
    if second {
      out[p + 2] := Encode(b6);
    } else {
      out[p + 2] := PAD;
    }
    if third {
      out[p + 3] := Encode(b7);
    } else {
      out[p + 3] := PAD;
    }
  }

  /** A buffer that starts with `done` and is otherwise zero. */
  predicate Filled(out: seq<Byte>, done: seq<Byte>) {
    && |done| <= |out| && out[..|done|] == done
    && forall k :: |done| <= k < |out| ==> out[k] == NUL
  }

  /** `done` is the part of the result that the groups before `i` make. */
  ghost predicate EncodedUpTo(s: seq<Byte>, i: nat, done: seq<Byte>) {
    done + Encoding(From(s, i)) == Encoding(s)
  }

  lemma EncodedUpToStep(s: seq<Byte>, i: nat, done: seq<Byte>)
    requires i < |s| && EncodedUpTo(s, i, done)
    ensures EncodedUpTo(s, i + 3, done + EncodedGroup(s, i))
    ensures |done| + 4 <= |Encoding(s)|
  {
    hide Quad, Encoding;
    EncodingStep(s, i);
    ConcatAssociative(done, EncodedGroup(s, i), Encoding(From(s, i + 3)));
  }

  lemma EncodedUpToStart(s: seq<Byte>)
    ensures EncodedUpTo(s, 0, [])
  {
    assert From(s, 0) == s;
  }

  lemma EncodedUpToEnd(s: seq<Byte>, i: nat, done: seq<Byte>)
    requires |s| <= i && EncodedUpTo(s, i, done)
    ensures done == Encoding(s)
  {
    assert From(s, i) == [];
  }

  lemma FilledExtend(before: seq<Byte>, after: seq<Byte>, done: seq<Byte>, g: seq<Byte>, q: nat)
    requires Filled(before, done) && |done| + |g| <= q <= |before|
    requires after == before[..|done|] + g + before[|done| + |g|..]
    ensures Filled(after, done + g)
  {
  }

  /** The encoding loop; `i` and `p` are the moving positions in `src` and `out`. */
  method EncodeLoop(src: array<Byte>, n: nat, out: array<Byte>)
    requires src != out && n <= src.Length && out.Length == OutputSize(n)
    requires Filled(out[..], [])
    modifies out
    ensures |Encoding(src[..n])| < out.Length
    ensures Filled(out[..], Encoding(src[..n]))
  {
    hide Quad, Encoding, EncodedUpTo;
    ghost var s, done := src[..n], [];
    OutputFits(s);
    EncodedUpToStart(s);
    var p, i := 0, 0;
    while i < n
      invariant 0 <= i <= n + 2
      invariant p == |done|
      invariant EncodedUpTo(s, i, done)
      invariant Filled(out[..], done)
    {
      var b1, b2, b3: Byte := src[i], 0, 0;
      if i + 1 < n {
        b2 := src[i + 1];
      }
      if i + 2 < n {
        b3 := src[i + 2];
      }
      EncodedUpToStep(s, i, done);
      ghost var g, before := EncodedGroup(s, i), out[..];
      PutQuad(out, p, b1, b2, b3, i + 1 < n, i + 2 < n);
      FilledExtend(before, out[..], done, g, p + 4);
      done := done + g;
      p := p + 4;
      i := i + 3;
    }
    EncodedUpToEnd(s, i, done);
  }

  lemma {:induction false} EncodingStep(s: seq<Byte>, i: nat)
    requires i < |s|
    ensures Encoding(From(s, i)) == EncodedGroup(s, i) + Encoding(From(s, i + 3))
  {
    var u := s[i..];
    assert EncodedGroup(u, 0) == EncodedGroup(s, i);
    assert From(u, 3) == From(s, i + 3);
  }

  lemma {:induction false} DecodingStep(t: seq<Byte>, k: nat)
    requires k < |t|
    ensures Decoding(From(t, k)) == DecodedGroup(t, k) + Decoding(From(t, k + 4))
  {
    var u := t[k..];
    assert DecodedGroup(u, 0) == DecodedGroup(t, k);
    assert From(u, 4) == From(t, k + 4);
  }

  /** The filtering loop of `decode_base64`. */
  method KeepAlphabet(src: array<Byte>, buf: array<Byte>, ghost n: nat) returns (l: nat)
    requires src != buf && n < src.Length && src[n] == NUL && n < buf.Length
    requires forall j :: 0 <= j < n ==> src[j] != NUL
    modifies buf
    ensures l <= n && buf[..l] == Kept(src[..n])
  {
    var k := 0;
    l := 0;
    while src[k] != NUL
      invariant l <= k <= n && buf[..l] == Kept(src[..k])
      decreases n - k
    {
      assert src[..k + 1] == src[..k] + [src[k]];
      FilterConcat(IsBase64, src[..k], [src[k]]);
      if IsBase64(src[k]) {
        buf[l] := src[k];
        l := l + 1;
      }
      k := k + 1;
    }
  }

  /** One turn of the decoding loop: up to three bytes written at `p`. */
  method PutTriple(dest: array<Byte>, p: nat, c1: Byte, c2: Byte, c3: Byte, c4: Byte) returns (q: nat)
    requires p + 3 <= dest.Length
    modifies dest
    ensures q == p + |Triple(c1, c2, c3, c4)|
    ensures dest[..] == old(dest[..])[..p] + Triple(c1, c2, c3, c4) + old(dest[..])[q..]
  {
    hide Decode, Octet1, Octet2, Octet3, Triple;
    TripleIs(c1, c2, c3, c4);
    var b1, b2, b3, b4 := Decode(c1), Decode(c2), Decode(c3), Decode(c4);
    ghost var was, done := dest[..], [];
    PutByte(dest, p, Octet1(b1, b2), was, done);
    q, done := p + 1, done + [Octet1(b1, b2)];
    if c3 != PAD {
      PutByte(dest, q, Octet2(b2, b3), was, done);
      q, done := q + 1, done + [Octet2(b2, b3)];
    }
    if c4 != PAD {
      PutByte(dest, q, Octet3(b3, b4), was, done);
      q, done := q + 1, done + [Octet3(b3, b4)];
    }
    assert done == Triple(c1, c2, c3, c4);
  }

  lemma TripleIs(c1: Byte, c2: Byte, c3: Byte, c4: Byte)
    ensures Triple(c1, c2, c3, c4)
         == [] + [Octet1(Decode(c1), Decode(c2))]
            + (if c3 != PAD then [Octet2(Decode(c2), Decode(c3))] else [])
            + (if c4 != PAD then [Octet3(Decode(c3), Decode(c4))] else [])
  {
    hide Decode, Octet1, Octet2, Octet3;
  }

  /** One byte more: `done` was written up to `q` into a buffer that contained `was`. */
  method PutByte(dest: array<Byte>, q: nat, x: Byte, ghost was: seq<Byte>, ghost done: seq<Byte>)
    requires |done| <= q < dest.Length == |was| && dest[..] == was[..q - |done|] + done + was[q..]
    modifies dest
    ensures dest[..] == was[..q - |done|] + (done + [x]) + was[q + 1..]
  {
    dest[q] := x;
  }

  /** `done` is the part of the result that the groups before `k` make. */
  ghost predicate DecodedUpTo(t: seq<Byte>, k: nat, done: seq<Byte>) {
    done + Decoding(From(t, k)) == Decoding(t)
  }

  lemma DecodedUpToStep(t: seq<Byte>, k: nat, done: seq<Byte>)
    requires k < |t| && DecodedUpTo(t, k, done)
    ensures DecodedUpTo(t, k + 4, done + DecodedGroup(t, k))
  {
    hide Triple, Decoding;
    DecodingStep(t, k);
    ConcatAssociative(done, DecodedGroup(t, k), Decoding(From(t, k + 4)));
  }

  lemma DecodedUpToStart(t: seq<Byte>)
    ensures DecodedUpTo(t, 0, [])
  {
    assert From(t, 0) == t;
  }

  lemma DecodedUpToEnd(t: seq<Byte>, k: nat, done: seq<Byte>)
    requires |t| <= k && DecodedUpTo(t, k, done)
    ensures done == Decoding(t)
  {
    assert From(t, k) == [];
  }

  /** The decoding loop; `k` and `p` are the moving positions in `buf` and `dest`. */
  method DecodeLoop(buf: array<Byte>, l: nat, dest: array<Byte>)
    requires buf != dest && l <= buf.Length && l + 13 < dest.Length
    requires Filled(dest[..], [])
    modifies dest
    ensures Filled(dest[..], Decoding(buf[..l]))
    ensures |Decoding(buf[..l])| < dest.Length
  {
    hide Triple, Decoding, DecodedUpTo;
    ghost var t, done := buf[..l], [];
    DecodedUpToStart(t);
    var p, k := 0, 0;
    while k < l
      invariant 0 <= k <= l + 3
      invariant p == |done| <= k
      invariant DecodedUpTo(t, k, done)
      invariant Filled(dest[..], done)
    {
      var c1, c2, c3, c4 := buf[k], UPPER_A, UPPER_A, UPPER_A;
      if k + 1 < l {
        c2 := buf[k + 1];
      }
      if k + 2 < l {
        c3 := buf[k + 2];
      }
      if k + 3 < l {
        c4 := buf[k + 3];
      }
      DecodedUpToStep(t, k, done);
      ghost var g, before := DecodedGroup(t, k), dest[..];
      p := PutTriple(dest, p, c1, c2, c3, c4);
      FilledExtend(before, dest[..], done, g, p);
      done := done + g;
      k := k + 4;
    }
    DecodedUpToEnd(t, k, done);
  }

  /** `decode_base64`: null for a missing or empty string, a zero-filled buffer otherwise. */
  method DecodeBase64(src: array?<Byte>) returns (dest: array?<Byte>)
    requires src != null ==> HasNul(src)
    ensures dest == null <==> src == null || UpToNul(src[..]) == []
    ensures dest != null ==>
              var s := Decoding(Kept(UpToNul(src[..])));
              fresh(dest) && |s| < dest.Length && Filled(dest[..], s)
  {
    if src == null {
      return null;
    }
    var n := StrLen(src);
    if n == 0 {
      return null;
    }
    assert src[..n] != [];
    dest := new Byte[n + 1 + 13](_ => NUL);
    var buf := new Byte[n + 1](_ => NUL);
    var l := KeepAlphabet(src, buf, n);
    DecodeLoop(buf, l, dest);
  }

  /** What `encode_base64` leaves in its buffer, `decode_base64` turns back into the bytes: for any buffer
      that `EncodeBase64` can return for `s`, and any that `DecodeBase64` can return for that buffer. */
  lemma BufferRoundTrip(s: seq<Byte>, out: seq<Byte>, dest: seq<Byte>)
    requires |Encoding(s)| < |out| && Filled(out, Encoding(s))
    requires Filled(dest, Decoding(Kept(UpToNul(out))))
    ensures UpToNul(out) == Encoding(s) && Filled(dest, s)
  {
    hide Encoding, Decoding, Kept;
    FilledUpToNul(out, Encoding(s)) by { EncodingIsText(s); }
    FilteredRoundTrip(s);
  }

  lemma FilledUpToNul(out: seq<Byte>, s: seq<Byte>)
    requires |s| < |out| && Filled(out, s) && forall c | c in s :: c != NUL
    ensures UpToNul(out) == s
  {
    hide UpToNul;
    assert forall j :: 0 <= j < |s| ==> out[j] == out[..|s|][j] == s[j] && s[j] in s;
    UpToNulAt(out, |s|);
  }
}
