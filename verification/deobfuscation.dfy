/** The decoy-stripping loop of `get_chapter_images`: the nonce is cut into
    `<digits><letters>` tokens, and the tokens are applied from last to first,
    each deleting `len(letters)` characters of the blob at position
    `int(digits) & 255`. */
module Deobfuscation {
  import opened Bits
  import opened PyText

  predicate IsDigit(c: char) {
    '0' <= c <= '9'
  }

  predicate IsLetter(c: char) {
    'a' <= c <= 'z' || 'A' <= c <= 'Z'
  }

  predicate AllDigits(s: string) {
    forall i :: 0 <= i < |s| ==> IsDigit(s[i])
  }

  predicate AllLetters(s: string) {
    forall i :: 0 <= i < |s| ==> IsLetter(s[i])
  }

  /** One match of `\d+[a-zA-Z]+`, split into its digit run and its letter run. */
  datatype Match = Match(digits: string, letters: string)

  predicate WellFormed(m: Match) {
    |m.digits| > 0 && |m.letters| > 0 && AllDigits(m.digits) && AllLetters(m.letters)
  }

  type Token = m: Match | WellFormed(m) witness Match("0", "a")

  /** The text of a token as it appears in the nonce. */
  function Text(t: Match): string {
    t.digits + t.letters
  }

  // ---------------------------------------------------------------------------
  // Tokenising the nonce

  /** Length of the run of digits starting at position `i` of `s`. */
  function DigitsFrom(s: string, i: nat): (n: nat)
    requires i <= |s|
    ensures i + n <= |s|
    decreases |s| - i
  {
    if i < |s| && IsDigit(s[i]) then 1 + DigitsFrom(s, i + 1) else 0
  }

  /** The digit run starting at `i` consists of digits and is maximal. */
  lemma {:induction false} DigitRun(s: string, i: nat)
    requires i <= |s|
    ensures AllDigits(s[i..i + DigitsFrom(s, i)])
    ensures i + DigitsFrom(s, i) < |s| ==> !IsDigit(s[i + DigitsFrom(s, i)])
    decreases |s| - i
  {
    if i < |s| && IsDigit(s[i]) {
      DigitRun(s, i + 1);
      var n := DigitsFrom(s, i);
      assert n == 1 + DigitsFrom(s, i + 1);
      var here, later := s[i..i + n], s[i + 1..i + n];
      forall m | 0 <= m < n
        ensures IsDigit(here[m])
      {
        assert here[m] == s[i + m];
        if m > 0 {
          assert later[m - 1] == s[i + m];
        }
      }
    }
  }

  /** Conversely, a maximal run of `n` digits at `i` is the one `DigitsFrom` finds. */
  lemma {:induction false} DigitsFromExact(s: string, i: nat, n: nat)
    requires i + n <= |s|
    requires forall m :: i <= m < i + n ==> IsDigit(s[m])
    requires i + n < |s| ==> !IsDigit(s[i + n])
    ensures DigitsFrom(s, i) == n
    decreases n
  {
    if n > 0 {
      DigitsFromExact(s, i + 1, n - 1);
    }
  }

  /** Length of the run of ASCII letters starting at position `i` of `s`. */
  function LettersFrom(s: string, i: nat): (n: nat)
    requires i <= |s|
    ensures i + n <= |s|
    decreases |s| - i
  {
    if i < |s| && IsLetter(s[i]) then 1 + LettersFrom(s, i + 1) else 0
  }

  /** The letter run starting at `i` consists of letters and is maximal. */
  lemma {:induction false} LetterRun(s: string, i: nat)
    requires i <= |s|
    ensures AllLetters(s[i..i + LettersFrom(s, i)])
    ensures i + LettersFrom(s, i) < |s| ==> !IsLetter(s[i + LettersFrom(s, i)])
    decreases |s| - i
  {
    if i < |s| && IsLetter(s[i]) {
      LetterRun(s, i + 1);
      var n := LettersFrom(s, i);
      assert n == 1 + LettersFrom(s, i + 1);
      var here, later := s[i..i + n], s[i + 1..i + n];
      forall m | 0 <= m < n
        ensures IsLetter(here[m])
      {
        assert here[m] == s[i + m];
        if m > 0 {
          assert later[m - 1] == s[i + m];
        }
      }
    }
  }

  /** Conversely, a maximal run of `n` letters at `i` is the one `LettersFrom` finds. */
  lemma {:induction false} LettersFromExact(s: string, i: nat, n: nat)
    requires i + n <= |s|
    requires forall m :: i <= m < i + n ==> IsLetter(s[m])
    requires i + n < |s| ==> !IsLetter(s[i + n])
    ensures LettersFrom(s, i) == n
    decreases n
  {
    if n > 0 {
      LettersFromExact(s, i + 1, n - 1);
    }
  }

  /** `re.findall("\d+[a-zA-Z]+", nonce)` from position `i` on: scanning left to
      right, a match starts where a maximal digit run is directly followed by a
      letter and takes the whole letter run; anywhere else the scan moves on by
      one character. */
  function TokenizeFrom(s: string, i: nat): (ts: seq<Token>)
    requires i <= |s|
    decreases |s| - i
  {
    if i == |s| then []
    else
      var j := i + DigitsFrom(s, i);
      if i < j < |s| && IsLetter(s[j]) then
        var k := j + LettersFrom(s, j);
        DigitRun(s, i);
        LetterRun(s, j);
        [Match(s[i..j], s[j..k])] + TokenizeFrom(s, k)
      else
        TokenizeFrom(s, i + 1)
  }

  /** The scanner at a position where a match starts. */
  lemma {:induction false} TokenizeStep(s: string, i: nat, j: nat, k: nat)
    requires i < j < |s| && j == i + DigitsFrom(s, i) && IsLetter(s[j])
    requires k == j + LettersFrom(s, j)
    ensures TokenizeFrom(s, i) == [Match(s[i..j], s[j..k])] + TokenizeFrom(s, k)
  {
  }

  function Tokenize(nonce: string): seq<Token> {
    TokenizeFrom(nonce, 0)
  }

  /** The nonce text a list of tokens spells when written one after another. */
  function Render(ts: seq<Token>): string
    decreases |ts|
  {
    if |ts| == 0 then "" else Text(ts[0]) + Render(ts[1..])
  }

  /** Reading a token's text at position `i`: the digit and letter runs found
      there are exactly the token's, provided the text after it does not
      continue its letter run. */
  lemma {:induction false} RunsAt(s: string, i: nat, t: Token)
    requires i + |Text(t)| <= |s| && s[i..i + |Text(t)|] == Text(t)
    requires i + |Text(t)| < |s| ==> !IsLetter(s[i + |Text(t)|])
    ensures DigitsFrom(s, i) == |t.digits|
    ensures LettersFrom(s, i + |t.digits|) == |t.letters|
  {
    var j := i + |t.digits|;
    var k := j + |t.letters|;
    forall m | i <= m < k
      ensures s[m] == Text(t)[m - i]
    {
      assert s[i..i + |Text(t)|][m - i] == s[m];
    }
    assert IsLetter(s[j]) by {
      assert Text(t)[j - i] == t.letters[0];
    }
    forall m | i <= m < j
      ensures IsDigit(s[m])
    {
      assert Text(t)[m - i] == t.digits[m - i];
    }
    forall m | j <= m < k
      ensures IsLetter(s[m])
    {
      assert Text(t)[m - i] == t.letters[m - j];
    }
    DigitsFromExact(s, i, |t.digits|);
    LettersFromExact(s, j, |t.letters|);
  }

  /** Tokenising from a position where a rendered token list begins reads back
      exactly that list. */
  lemma {:induction false} TokenizeAt(s: string, i: nat, ts: seq<Token>)
    requires i <= |s| && s[i..] == Render(ts)
    ensures TokenizeFrom(s, i) == ts
    decreases |ts|
  {
    if |ts| > 0 {
      var t := ts[0];
      var rest := Render(ts[1..]);
      var j := i + |t.digits|;
      var k := j + |t.letters|;
      assert s[i..] == Text(t) + rest;
      assert s[i..k] == Text(t) by {
        assert s[i..k] == s[i..][..k - i];
      }
      assert k < |s| ==> !IsLetter(s[k]) by {
        if k < |s| {
          assert s[k] == s[i..][k - i] == rest[0] == ts[1].digits[0];
        }
      }
      RunsAt(s, i, t);
      assert s[i..j] == t.digits && s[j..k] == t.letters by {
        assert s[i..j] == Text(t)[..j - i] && s[j..k] == Text(t)[j - i..];
      }
      assert s[k..] == rest by {
        assert s[k..] == s[i..][k - i..];
      }
      TokenizeStep(s, i, j, k);
      TokenizeAt(s, k, ts[1..]);
      assert ts == [t] + ts[1..];
    } else {
      assert |s[i..]| == 0;
    }
  }

  /** Tokenising recovers exactly the tokens a nonce was written from: the
      matches are maximal, non-overlapping and in discovery order. */
  lemma TokenizeRender(ts: seq<Token>)
    ensures Tokenize(Render(ts)) == ts
  {
    var s := Render(ts);
    assert s[0..] == s;
    TokenizeAt(s, 0, ts);
  }

  /** No match starts at `i` when the digit run there is empty, reaches the end
      of the nonce, or is not followed by a letter. */
  predicate MatchStartsAt(s: string, i: nat)
    requires i <= |s|
  {
    var j := i + DigitsFrom(s, i);
    i < j < |s| && IsLetter(s[j])
  }

  /** Where no match starts, the scan moves on by one character. */
  lemma SkipNoMatch(s: string, i: nat)
    requires i < |s| && !MatchStartsAt(s, i)
    ensures TokenizeFrom(s, i) == TokenizeFrom(s, i + 1)
  {
  }

  /** Text without digits produces no match and is skipped. */
  lemma {:induction false} SkipNonDigits(s: string, i: nat, e: nat)
    requires i <= e <= |s|
    requires forall m :: i <= m < e ==> !IsDigit(s[m])
    ensures TokenizeFrom(s, i) == TokenizeFrom(s, e)
    decreases e - i
  {
    if i < e {
      assert DigitsFrom(s, i) == 0;
      SkipNoMatch(s, i);
      SkipNonDigits(s, i + 1, e);
    }
  }

  /** A digit run that reaches the end of the nonce produces no match. */
  lemma {:induction false} TrailingDigits(s: string, i: nat)
    requires i <= |s|
    requires forall m :: i <= m < |s| ==> IsDigit(s[m])
    ensures TokenizeFrom(s, i) == []
    decreases |s| - i
  {
    if i < |s| {
      DigitsFromExact(s, i, |s| - i);
      SkipNoMatch(s, i);
      TrailingDigits(s, i + 1);
    }
  }

  /** A rendered token list inside a longer nonce, followed by text that does
      not start with a letter, is read back and the scan goes on after it. */
  lemma {:induction false} TokenizePrefix(s: string, i: nat, ts: seq<Token>, tail: string)
    requires i <= |s| && s[i..] == Render(ts) + tail
    requires |tail| > 0 ==> !IsLetter(tail[0])
    ensures TokenizeFrom(s, i) == ts + TokenizeFrom(s, |s| - |tail|)
    decreases |ts|
  {
    if |ts| > 0 {
      var t := ts[0];
      var rest := Render(ts[1..]) + tail;
      var j := i + |t.digits|;
      var k := j + |t.letters|;
      RenderCons(ts, tail);
      RestStart(ts, tail);
      RunsAhead(s, i, t, rest);
      TokenizeStep(s, i, j, k);
      assert Match(s[i..j], s[j..k]) == t;
      TokenizePrefix(s, k, ts[1..], tail);
      ConsChain(TokenizeFrom(s, i), TokenizeFrom(s, k), ts, TokenizeFrom(s, |s| - |tail|));
    } else {
      assert s[i..] == tail;
    }
  }

  /** The digit and letter runs at `i` are the token's. */
  lemma RunsAhead(s: string, i: nat, t: Token, rest: string)
    requires i <= |s| && s[i..] == Text(t) + rest
    requires |rest| > 0 ==> !IsLetter(rest[0])
    ensures var j, k := i + |t.digits|, i + |Text(t)|;
      && k <= |s| && s[k..] == rest
      && s[i..j] == t.digits && s[j..k] == t.letters
      && i < j < |s| && j == i + DigitsFrom(s, i) && IsLetter(s[j]) && k == j + LettersFrom(s, j)
  {
    var j, k := i + |t.digits|, i + |Text(t)|;
    HeadText(s, i, t, rest);
    assert k < |s| ==> !IsLetter(s[k]) by {
      if k < |s| {
        assert s[k] == s[k..][0];
      }
    }
    RunsAt(s, i, t);
    assert IsLetter(s[j]) by {
      assert s[j] == s[j..k][0] == t.letters[0];
    }
  }

  lemma RenderCons(ts: seq<Token>, tail: string)
    requires |ts| > 0
    ensures Render(ts) + tail == Text(ts[0]) + (Render(ts[1..]) + tail)
  {
    var h, r := Text(ts[0]), Render(ts[1..]);
    assert Render(ts) == h + r;
    Assoc(h, r, tail);
  }

  lemma Assoc<T>(a: seq<T>, b: seq<T>, c: seq<T>)
    ensures (a + b) + c == a + (b + c)
  {
  }

  /** Reading one element and then the rest reads the whole list. */
  lemma ConsChain<T>(whole: seq<T>, later: seq<T>, xs: seq<T>, after: seq<T>)
    requires |xs| > 0 && whole == [xs[0]] + later && later == xs[1..] + after
    ensures whole == xs + after
  {
    assert xs == [xs[0]] + xs[1..];
  }

  /** Splitting the text at `i` into a token and what follows it. */
  lemma HeadText(s: string, i: nat, t: Token, rest: string)
    requires i <= |s| && s[i..] == Text(t) + rest
    ensures var j, k := i + |t.digits|, i + |Text(t)|;
      && k <= |s|
      && s[i..k] == Text(t) && s[k..] == rest
      && s[i..j] == t.digits && s[j..k] == t.letters
  {
    var j, k := i + |t.digits|, i + |Text(t)|;
    assert s[i..k] == s[i..][..k - i];
    assert s[k..] == s[i..][k - i..];
    assert s[i..j] == Text(t)[..j - i] && s[j..k] == Text(t)[j - i..];
  }

  /** What follows the first token of a rendered list is the next token's
      first digit or the text after the list, so never a letter. */
  lemma RestStart(ts: seq<Token>, tail: string)
    requires |ts| > 0
    requires |tail| > 0 ==> !IsLetter(tail[0])
    ensures var rest := Render(ts[1..]) + tail; |rest| > 0 ==> !IsLetter(rest[0])
  {
    if |ts| > 1 {
      assert Render(ts[1..]) == Text(ts[1]) + Render(ts[2..]);
      assert (Render(ts[1..]) + tail)[0] == ts[1].digits[0];
    } else {
      assert Render(ts[1..]) == "";
    }
  }

  /** Text around the tokens is ignored: digit-free text before them and a run
      of digits after them (a digit run with no letter after it) add no match. */
  lemma TokenizeBetween(g: string, ts: seq<Token>, ds: string)
    requires forall m :: 0 <= m < |g| ==> !IsDigit(g[m])
    requires AllDigits(ds)
    ensures Tokenize(g + Render(ts) + ds) == ts
  {
    var r := Render(ts);
    var s := g + r + ds;
    var e := |s| - |ds|;
    SkipNonDigits(s, 0, |g|);
    assert s[|g|..] == r + ds;
    TokenizePrefix(s, |g|, ts, ds);
    TrailingDigits(s, e);
    assert TokenizeFrom(s, |g|) == ts + TokenizeFrom(s, e);
    PrefixThenNothing(TokenizeFrom(s, 0), TokenizeFrom(s, |g|), ts, TokenizeFrom(s, e));
  }

  /** A list followed by nothing is that list. */
  lemma PrefixThenNothing<T>(whole: seq<T>, from: seq<T>, xs: seq<T>, after: seq<T>)
    requires whole == from && from == xs + after && after == []
    ensures whole == xs
  {
  }

  // ---------------------------------------------------------------------------
  // What one token asks for

  /** `int(digits)` for a run of ASCII digits. */
  function DecimalValue(s: string): nat
    requires AllDigits(s)
    decreases |s|
  {
    if |s| == 0 then 0
    else 10 * DecimalValue(s[..|s| - 1]) + (s[|s| - 1] as int - '0' as int)
  }

  /** `re.sub("\d+", "", token)`: the token with every digit removed. */
  function RemoveDigits(s: string): string
    decreases |s|
  {
    if |s| == 0 then ""
    else (if IsDigit(s[0]) then "" else [s[0]]) + RemoveDigits(s[1..])
  }

  /** `int(re.findall("\d+", token)[0]) & 255` */
  function Position(t: Token): nat {
    var tok := Text(t);
    var n := DigitsFrom(tok, 0);
    DigitRun(tok, 0);
    assert tok[0..n] == tok[..n];
    And(DecimalValue(tok[..n]), 255)
  }

  /** `len(re.sub("\d+", "", token))` */
  function Length(t: Token): nat {
    |RemoveDigits(Text(t))|
  }

  lemma {:induction false} RemoveDigitsAppend(a: string, b: string)
    ensures RemoveDigits(a + b) == RemoveDigits(a) + RemoveDigits(b)
    decreases |a|
  {
    if |a| == 0 {
      assert a + b == b;
    } else {
      assert (a + b)[0] == a[0] && (a + b)[1..] == a[1..] + b;
      RemoveDigitsAppend(a[1..], b);
    }
  }

  lemma {:induction false} RemoveDigitsOfDigits(d: string)
    requires AllDigits(d)
    ensures RemoveDigits(d) == ""
    decreases |d|
  {
    if |d| > 0 {
      RemoveDigitsOfDigits(d[1..]);
    }
  }

  lemma {:induction false} RemoveDigitsOfLetters(l: string)
    requires AllLetters(l)
    ensures RemoveDigits(l) == l
    decreases |l|
  {
    if |l| > 0 {
      RemoveDigitsOfLetters(l[1..]);
      assert l == [l[0]] + l[1..];
    }
  }

  /** A token deletes `|letters|` characters at its numeric prefix taken modulo
      256, so the position is always below 256. */
  lemma TokenInstruction(t: Token)
    ensures Position(t) == DecimalValue(t.digits) % 256
    ensures Position(t) < 256
    ensures Length(t) == |t.letters| && Length(t) >= 1
  {
    assert Text(t)[0..|Text(t)|] == Text(t);
    RunsAt(Text(t), 0, t);
    assert Text(t)[..|t.digits|] == t.digits;
    assert Pow2(8) == 256;
    AndLowMask(DecimalValue(t.digits), 8);
    RemoveDigitsAppend(t.digits, t.letters);
    RemoveDigitsOfDigits(t.digits);
    RemoveDigitsOfLetters(t.letters);
  }

  // ---------------------------------------------------------------------------
  // Applying the tokens

  /** `del T[jlocate : jlocate + len(jstr)]` for one token. */
  function Step(T: string, t: Token): string {
    DeleteSlice(T, Position(t), Position(t) + Length(t))
  }

  /** One token removes the characters from its numeric prefix mod 256 on, as
      many as it has letters, and nothing once that position is past the end. */
  lemma StepRemoves(T: string, t: Token)
    ensures var r, p, n := Step(T, t), DecimalValue(t.digits) % 256, |t.letters|;
      && (p >= |T| ==> r == T)
      && (p < |T| ==> |r| == |T| - (Min(p + n, |T|) - p) && T == r[..p] + T[p..Min(p + n, |T|)] + r[p..])
  {
    TokenInstruction(t);
  }

  /** The `while jlen:` loop: tokens applied from the last discovered to the
      first, each against the blob as the later tokens left it. */
  function ApplyReversed(T: string, ts: seq<Token>): (r: string)
    ensures |r| <= |T|
    decreases |ts|
  {
    if |ts| == 0 then T
    else ApplyReversed(Step(T, ts[|ts| - 1]), ts[..|ts| - 1])
  }

  /** The blob with the nonce's decoys removed. */
  function Deobfuscate(blob: string, nonce: string): string {
    ApplyReversed(blob, Tokenize(nonce))
  }

  lemma ApplyReversedLast(T: string, N: seq<Token>, j: nat)
    requires j < |N|
    ensures ApplyReversed(T, N[..j + 1]) == ApplyReversed(Step(T, N[j]), N[..j])
  {
    assert N[..j + 1][..j] == N[..j];
  }

  /** The loop as the source writes it, counting `jlen` down over the token list. */
  method DeobfuscateLoop(data: string, nonce: string) returns (cleaned: string)
    ensures cleaned == Deobfuscate(data, nonce)
    ensures |cleaned| <= |data|
  {
    var T := data;
    var N := Tokenize(nonce);
    var jlen := |N|;
    assert N[..jlen] == N;
    while jlen > 0
      invariant 0 <= jlen <= |N|
      invariant ApplyReversed(T, N[..jlen]) == ApplyReversed(data, N)
      decreases jlen
    {
      jlen := jlen - 1;
      ApplyReversedLast(T, N, jlen);
      T := Step(T, N[jlen]);
    }
    assert N[..0] == [];
    cleaned := T;
  }

  // ---------------------------------------------------------------------------
  // The encoder's side: inserting decoys

  /** Decoys inserted in discovery order: token `i` puts `decoys[i]` at its
      position in the blob as the earlier tokens left it (clamped to the end). */
  function Obfuscate(T: string, ts: seq<Token>, decoys: seq<string>): string
    requires |decoys| == |ts|
    decreases |ts|
  {
    if |ts| == 0 then T
    else
      var n := |ts| - 1;
      var U := Obfuscate(T, ts[..n], decoys[..n]);
      var p := Min(Position(ts[n]), |U|);
      U[..p] + decoys[n] + U[p..]
  }

  /** Every decoy has the length its token announces and is inserted at a
      position that exists at the moment it is inserted. */
  predicate ValidPlan(T: string, ts: seq<Token>, decoys: seq<string>)
    decreases |ts|
  {
    |decoys| == |ts| &&
    (|ts| == 0 ||
      var n := |ts| - 1;
      && ValidPlan(T, ts[..n], decoys[..n])
      && |decoys[n]| == Length(ts[n])
      && Position(ts[n]) <= |Obfuscate(T, ts[..n], decoys[..n])|)
  }

  /** Removing the tokens in reverse discovery order undoes inserting them in
      discovery order. */
  lemma {:induction false} DeobfuscateObfuscate(T: string, ts: seq<Token>, decoys: seq<string>)
    requires ValidPlan(T, ts, decoys)
    ensures ApplyReversed(Obfuscate(T, ts, decoys), ts) == T
    decreases |ts|
  {
    if |ts| > 0 {
      var n := |ts| - 1;
      var U := Obfuscate(T, ts[..n], decoys[..n]);
      var t := ts[n];
      TokenInstruction(t);
      InsertThenDelete(U, Position(t), decoys[n]);
      assert Step(Obfuscate(T, ts, decoys), t) == U;
      DeobfuscateObfuscate(T, ts[..n], decoys[..n]);
    }
  }

  lemma ApplyOne(T: string, a: Token)
    ensures ApplyReversed(T, [a]) == Step(T, a)
  {
    assert [a][..0] == [];
  }

  lemma ApplyTwo(T: string, a: Token, b: Token)
    ensures ApplyReversed(T, [a, b]) == Step(Step(T, b), a)
  {
    assert [a, b][..1] == [a];
    ApplyOne(Step(T, b), a);
  }

  /** A token with one digit deletes at that digit's value. */
  lemma SingleDigit(t: Token)
    requires |t.digits| == 1
    ensures Position(t) == t.digits[0] as int - '0' as int
    ensures Length(t) == |t.letters|
  {
    TokenInstruction(t);
    assert t.digits[..0] == [];
  }

  /** The tokens `1a` and `2a`, which each delete one character. */
  const OneA: Token := Match("1", "a")
  const TwoA: Token := Match("2", "a")

  /** The order is load-bearing: the same two tokens applied the other way round
      leave a different blob. */
  lemma ReverseOrderMatters()
    ensures ApplyReversed("0123", [OneA, TwoA]) == "03"
    ensures ApplyReversed("0123", [TwoA, OneA]) == "02"
  {
    LastTokenFirst();
    FirstTokenFirst();
  }

  /** `[1a, 2a]`: `2a` runs first and removes `2`, then `1a` removes `1`. */
  lemma LastTokenFirst()
    ensures ApplyReversed("0123", [OneA, TwoA]) == "03"
  {
    SingleDigit(OneA);
    SingleDigit(TwoA);
    assert Step("0123", TwoA) == "013" by {
      assert DeleteSlice("0123", 2, 3) == "01" + "3";
    }
    assert Step("013", OneA) == "03" by {
      assert DeleteSlice("013", 1, 2) == "0" + "3";
    }
    ApplyTwo("0123", OneA, TwoA);
  }

  /** `[2a, 1a]`: `1a` runs first and removes `1`, then `2a` removes `3`. */
  lemma FirstTokenFirst()
    ensures ApplyReversed("0123", [TwoA, OneA]) == "02"
  {
    SingleDigit(OneA);
    SingleDigit(TwoA);
    assert Step("0123", OneA) == "023" by {
      assert DeleteSlice("0123", 1, 2) == "0" + "23";
    }
    assert Step("023", TwoA) == "02" by {
      assert DeleteSlice("023", 2, 3) == "02" + "";
    }
    ApplyTwo("0123", TwoA, OneA);
  }

  /** An example: nonce `3a` removes the decoy `X` from `SGVXsbG8=`. */
  lemma ExampleBlob()
    ensures Deobfuscate("SGVXsbG8=", "3a") == "SGVsbG8="
  {
    var t: Token := Match("3", "a");
    assert Tokenize("3a") == [t] by {
      assert Render([t]) == "3a";
      TokenizeRender([t]);
    }
    assert Step("SGVXsbG8=", t) == "SGVsbG8=" by {
      SingleDigit(t);
      assert DeleteSlice("SGVXsbG8=", 3, 4) == "SGVsbG8=";
    }
    ApplyOne("SGVXsbG8=", t);
  }
}
