/** The C library string functions the modelled code relies on, on NUL-free strings. */
module CStrings {

  predicate IsDigit(c: char) { '0' <= c <= '9' }

  predicate IsSpace(c: char) { c == ' ' || '\t' <= c <= '\r' }

  function DigitValue(c: char): nat
    requires IsDigit(c)
  {
    c as int - '0' as int
  }

  /** The number that the digits at the start of `s` extend `n` to. */
  function DigitsFrom(n: nat, s: string): nat
    decreases |s|
  {
    if s == [] || !IsDigit(s[0]) then n else DigitsFrom(10 * n + DigitValue(s[0]), s[1..])
  }

  /** `atoi`, without overflow. */
  function Atoi(s: string): int
    decreases |s|
  {
    if s == [] then 0
    else if IsSpace(s[0]) then Atoi(s[1..])
    else if s[0] == '-' then -(DigitsFrom(0, s[1..]) as int)
    else if s[0] == '+' then DigitsFrom(0, s[1..])
    else DigitsFrom(0, s)
  }

  /** The digits `printf` gives for "%d" of a number that is not negative. */
  function Decimal(n: nat): (s: string)
    ensures s != "" && forall i :: 0 <= i < |s| ==> IsDigit(s[i])
  {
    var digit := ('0' as int + n % 10) as char;
    if n < 10 then [digit] else Decimal(n / 10) + [digit]
  }

  lemma {:induction false} DigitsAppend(n: nat, s: string, c: char)
    requires IsDigit(c) && forall i :: 0 <= i < |s| ==> IsDigit(s[i])
    ensures DigitsFrom(n, s + [c]) == 10 * DigitsFrom(n, s) + DigitValue(c)
    decreases |s|
  {
    if s == "" {
      assert ([c])[1..] == "" && s + [c] == [c];
      assert DigitsFrom(10 * n + DigitValue(c), "") == 10 * n + DigitValue(c);
    } else {
      assert (s + [c])[1..] == s[1..] + [c];
      DigitsAppend(10 * n + DigitValue(s[0]), s[1..], c);
    }
  }

  /** `atoi` reads back what `printf` wrote. */
  lemma {:induction false} AtoiDecimal(n: nat)
    ensures Atoi(Decimal(n)) == n
  {
    DigitsDecimal(n);
    assert IsDigit(Decimal(n)[0]);
  }

  lemma {:induction false} DigitsDecimal(n: nat)
    ensures DigitsFrom(0, Decimal(n)) == n
  {
    var digit := ('0' as int + n % 10) as char;
    if n < 10 {
      assert ([digit])[1..] == "";
      assert DigitsFrom(DigitValue(digit), "") == n;
    } else {
      DigitsDecimal(n / 10);
      DigitsAppend(0, Decimal(n / 10), digit);
    }
  }

  /** Whatever follows the digits does not change the number. */
  lemma {:induction false} DigitsStop(n: nat, d: string, s: string)
    requires (forall i :: 0 <= i < |d| ==> IsDigit(d[i])) && (s == "" || !IsDigit(s[0]))
    ensures DigitsFrom(n, d + s) == DigitsFrom(n, d)
    decreases |d|
  {
    if d == "" {
      assert d + s == s;
    } else {
      assert (d + s)[1..] == d[1..] + s;
      DigitsStop(10 * n + DigitValue(d[0]), d[1..], s);
    }
  }

  /** `atoi` reads a number up to the first character that is not a digit, behind white space and a sign. */
  lemma {:induction false} AtoiReads(n: nat, s: string)
    requires s == "" || !IsDigit(s[0])
    ensures Atoi(Decimal(n) + s) == n && Atoi("-" + Decimal(n) + s) == 0 - n && Atoi("+" + Decimal(n) + s) == n
    ensures Atoi(" " + Decimal(n) + s) == n && Atoi("\t" + Decimal(n) + s) == n
  {
    var d := Decimal(n);
    DigitsDecimal(n);
    DigitsStop(0, d, s);
    assert IsDigit((d + s)[0]);
    assert ("-" + d + s)[1..] == d + s && ("+" + d + s)[1..] == d + s;
    assert (" " + d + s)[1..] == d + s && ("\t" + d + s)[1..] == d + s;
  }

  lemma {:induction false} DecimalLength(n: nat, bound: nat, digits: nat)
    requires digits > 0 && bound == Power10(digits) && n < bound
    ensures |Decimal(n)| <= digits
    decreases digits
  {
    if n >= 10 && digits > 1 {
      DecimalLength(n / 10, Power10(digits - 1), digits - 1);
    }
  }

  function Power10(k: nat): nat { if k == 0 then 1 else 10 * Power10(k - 1) }

  /** The part before the first of a character, or all of it. */
  function Before(s: string, c: char): (r: string)
    ensures |r| <= |s| && r == s[..|r|] && c !in r
    ensures |r| < |s| ==> s[|r|] == c
    ensures |r| == |s| ==> c !in s
  {
    if s == "" || s[0] == c then "" else [s[0]] + Before(s[1..], c)
  }

  lemma {:induction false} BeforeIs(s: string, c: char, r: string)
    requires |r| < |s| && r == s[..|r|] && c !in r && s[|r|] == c
    ensures Before(s, c) == r
    decreases |s|
  {
    if r != "" {
      assert s[0] == r[0] && r[1..] == s[1..][..|r| - 1];
      BeforeIs(s[1..], c, r[1..]);
    }
  }

  /** `snprintf` into a buffer that holds `n` characters and a NUL. */
  function Cut(s: string, n: nat): (r: string)
    ensures |r| == (if |s| <= n then |s| else n) && r == s[..|r|]
  {
    if |s| <= n then s else s[..n]
  }

  // ---------- words between spaces ----------

  lemma SplitLeft(x: string, y: string, u: string, v: string)
    requires ' ' !in x && ' ' !in u && x + " " + y == u + " " + v
    ensures x == u && y == v
  {
    var s := x + " " + y;
    assert s[|x|] == ' ' && s[|u|] == ' ';
    assert forall i :: 0 <= i < |x| ==> s[i] == x[i];
    assert forall i :: 0 <= i < |u| ==> s[i] == u[i];
    assert |x| == |u|;
    assert x == s[..|x|] && u == s[..|u|];
    assert y == s[|x| + 1..] && v == s[|u| + 1..];
  }

  lemma SplitRight(x: string, y: string, u: string, v: string)
    requires ' ' !in y && ' ' !in v && x + " " + y == u + " " + v
    ensures x == u && y == v
  {
    var s := x + " " + y;
    assert s == u + " " + v;
    assert s[|x|] == ' ' && s[|u|] == ' ';
    assert forall i :: |x| < i < |s| ==> s[i] == y[i - |x| - 1];
    assert forall i :: |u| < i < |s| ==> s[i] == v[i - |u| - 1];
    assert |x| == |u|;
    assert x == s[..|x|] && u == s[..|u|];
    assert y == s[|x| + 1..] && v == s[|u| + 1..];
  }

  /** Words with a space between them. */
  function Joined(words: seq<string>): string
    requires words != []
  {
    if |words| == 1 then words[0] else words[0] + " " + Joined(words[1..])
  }

  /** As many words, of which only the last may contain a space, are read back. */
  lemma {:induction false} JoinedIff(v: seq<string>, w: seq<string>)
    requires |v| == |w| > 0
    requires forall i :: 0 <= i < |v| - 1 ==> ' ' !in v[i] && ' ' !in w[i]
    ensures Joined(v) == Joined(w) <==> v == w
  {
    if |v| > 1 {
      JoinedIff(v[1..], w[1..]);
      assert v == [v[0]] + v[1..] && w == [w[0]] + w[1..];
      if Joined(v) == Joined(w) {
        SplitLeft(v[0], Joined(v[1..]), w[0], Joined(w[1..]));
      }
    } else {
      assert v == [v[0]] && w == [w[0]];
    }
  }

  /** The first `n - 1` words, and the rest; fewer when there are not that many spaces. */
  function Split(s: string, n: nat): seq<string>
    decreases n
  {
    if n <= 1 || ' ' !in s then [s] else [Before(s, ' ')] + Split(s[|Before(s, ' ')| + 1..], n - 1)
  }

  lemma {:induction false} SplitJoined(words: seq<string>)
    requires words != [] && forall i :: 0 <= i < |words| - 1 ==> ' ' !in words[i]
    ensures Split(Joined(words), |words|) == words
  {
    hide Split;
    if |words| > 1 {
      SplitJoined(words[1..]);
      SplitStep(words[0], Joined(words[1..]), |words|);
      assert words == [words[0]] + words[1..];
    } else {
      SplitOne(words[0]);
      assert words == [words[0]];
    }
  }

  lemma SplitOne(s: string)
    ensures Split(s, 1) == [s]
  {
  }

  lemma SplitStep(x: string, rest: string, n: nat)
    requires ' ' !in x && n > 1
    ensures Split(x + " " + rest, n) == [x] + Split(rest, n - 1)
  {
    hide Before;
    var s := x + " " + rest;
    assert s[|x|] == ' ' && s[..|x|] == x && s[|x| + 1..] == rest;
    BeforeIs(s, ' ', x);
  }

  lemma JoinedCons(x: string, words: seq<string>)
    requires words != []
    ensures Joined([x] + words) == x + " " + Joined(words)
  {
    assert ([x] + words)[1..] == words;
  }
}
