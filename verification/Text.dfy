/**
 * Byte strings and the character classes the indexer relies on.
 *
 * A string is the sequence of its bytes. Letters, digits and case are those of
 * ASCII, so lowering a string works byte by byte, keeps its length and is
 * idempotent, and converting to and from UTF-8 is the identity.
 */
module Text {

  type Byte = b: int | 0 <= b < 256

  type Str = seq<Byte>

  datatype Option<+T> = None | Some(value: T)

  lemma Assoc<T>(a: seq<T>, b: seq<T>, c: seq<T>)
    ensures (a + b) + c == a + (b + c)
  {
  }

  predicate IsUpper(c: Byte) {
    'A' as int <= c <= 'Z' as int
  }

  predicate IsLower(c: Byte) {
    'a' as int <= c <= 'z' as int
  }

  predicate IsDigit(c: Byte) {
    '0' as int <= c <= '9' as int
  }

  predicate IsLetterOrNumber(c: Byte) {
    IsUpper(c) || IsLower(c) || IsDigit(c)
  }

  // QChar::isSpace restricted to ASCII.
  predicate IsSpace(c: Byte) {
    c == 32 || 9 <= c <= 13
  }

  function LowerChar(c: Byte): Byte {
    if IsUpper(c) then c + 32 else c
  }

  function ToLower(s: Str): (r: Str)
    ensures |r| == |s|
    ensures forall i :: 0 <= i < |s| ==> r[i] == LowerChar(s[i])
  {
    seq(|s|, i requires 0 <= i < |s| => LowerChar(s[i]))
  }

  /** The classes by byte value. */
  lemma Classes(c: Byte)
    ensures IsUpper(c) <==> 65 <= c <= 90
    ensures IsLower(c) <==> 97 <= c <= 122
    ensures IsLetterOrNumber(c) <==> 48 <= c <= 57 || 65 <= c <= 90 || 97 <= c <= 122
    ensures IsSpace(c) <==> c in {9, 10, 11, 12, 13, 32}
    ensures LowerChar(c) == if 65 <= c <= 90 then c + 32 else c
  {
  }

  /** A string that lowering leaves alone. */
  predicate IsLowered(s: Str) {
    forall i :: 0 <= i < |s| ==> !IsUpper(s[i])
  }

  predicate AllLetterOrNumber(s: Str) {
    forall i :: 0 <= i < |s| ==> IsLetterOrNumber(s[i])
  }

  lemma LoweredIsFixed(s: Str)
    ensures IsLowered(ToLower(s))
    ensures IsLowered(s) ==> ToLower(s) == s
    ensures AllLetterOrNumber(s) ==> AllLetterOrNumber(ToLower(s))
  {
  }

  /** The first position from i on that is not white space. */
  function FirstInk(s: Str, i: nat): (a: nat)
    requires i <= |s|
    ensures i <= a <= |s| && (a < |s| ==> !IsSpace(s[a]))
    ensures forall k :: i <= k < a ==> IsSpace(s[k])
    decreases |s| - i
  {
    if i < |s| && IsSpace(s[i]) then FirstInk(s, i + 1) else i
  }

  /** The end of s[a..j] without the white space it ends with. */
  function InkEnd(s: Str, a: nat, j: nat): (b: nat)
    requires a <= j <= |s|
    ensures a <= b <= j && (a < b ==> !IsSpace(s[b - 1]))
    ensures forall k :: b <= k < j ==> IsSpace(s[k])
  {
    if a < j && IsSpace(s[j - 1]) then InkEnd(s, a, j - 1) else j
  }

  /** All but s[a..b] is white space. */
  predicate IsInk(s: Str, a: int, b: int) {
    && 0 <= a <= b <= |s|
    && (forall k :: 0 <= k < a ==> IsSpace(s[k]))
    && (forall k :: b <= k < |s| ==> IsSpace(s[k]))
  }

  /** QString::trimmed: drop the white space at both ends. */
  function Trimmed(s: Str): (r: Str)
    ensures IsLowered(s) ==> IsLowered(r)
    ensures AllLetterOrNumber(s) ==> r == s
  {
    var a := FirstInk(s, 0);
    s[a..InkEnd(s, a, |s|)]
  }

  lemma TrimmedAlready(s: Str)
    requires s != [] && !IsSpace(s[0]) && !IsSpace(s[|s| - 1])
    ensures Trimmed(s) == s
  {
    assert FirstInk(s, 0) == 0 && InkEnd(s, 0, |s|) == |s|;
  }

  /** Exactly the white space at the ends is dropped. */
  lemma TrimsInk(s: Str) returns (a: nat, b: nat)
    ensures IsInk(s, a, b) && Trimmed(s) == s[a..b]
    ensures a < b ==> !IsSpace(s[a]) && !IsSpace(s[b - 1])
  {
    a := FirstInk(s, 0);
    b := InkEnd(s, a, |s|);
  }

  predicate OccursAt(w: Str, q: Str, i: int) {
    0 <= i <= |w| - |q| && w[i..i + |q|] == q
  }

  /** QString::contains: q occurs in w as a contiguous block. */
  predicate Contains(w: Str, q: Str) {
    exists i :: 0 <= i <= |w| && OccursAt(w, q, i)
  }

  // ---------------------------------------------------------------- tokens

  /** Position i starts a new token even though position i - 1 belongs to one. */
  predicate CamelBoundary(text: Str, i: nat)
    requires 0 < i < |text|
  {
    IsUpper(text[i]) && IsLower(text[i - 1])
  }

  predicate TokenStops(text: Str, i: nat)
    requires 0 < i <= |text|
  {
    i == |text| || !IsLetterOrNumber(text[i]) || CamelBoundary(text, i)
  }

  /** The end of the token whose letters reach at least up to i. */
  function TokenEnd(text: Str, i: nat): (e: nat)
    requires 0 < i <= |text|
    ensures i <= e <= |text|
    ensures TokenStops(text, e)
    ensures forall j :: i <= j < e ==> !TokenStops(text, j)
    decreases |text| - i
  {
    if TokenStops(text, i) then i else TokenEnd(text, i + 1)
  }

  /**
   * The tokens of text from position i on: every maximal block of letters and
   * digits, cut where an upper-case letter follows a lower-case one, lowered.
   */
  function TokensFrom(text: Str, i: nat): (tokens: seq<Str>)
    requires i <= |text|
    decreases |text| - i
  {
    if i == |text| then []
    else if !IsLetterOrNumber(text[i]) then TokensFrom(text, i + 1)
    else
      var e := TokenEnd(text, i + 1);
      [ToLower(text[i..e])] + TokensFrom(text, e)
  }

  function Tokens(text: Str): seq<Str> {
    TokensFrom(text, 0)
  }

  predicate IsToken(t: Str) {
    t != [] && IsLowered(t) && AllLetterOrNumber(t)
  }

  lemma TokenIsOneBlock(text: Str, i: nat)
    requires i < |text| && IsLetterOrNumber(text[i])
    ensures forall j :: i <= j < TokenEnd(text, i + 1) ==> IsLetterOrNumber(text[j])
  {
    forall j | i < j < TokenEnd(text, i + 1)
      ensures IsLetterOrNumber(text[j])
    {
      assert !TokenStops(text, j);
    }
  }

  lemma {:induction false} TokensAreTokens(text: Str, i: nat)
    requires i <= |text|
    ensures forall t :: t in TokensFrom(text, i) ==> IsToken(t)
    decreases |text| - i
  {
    if i == |text| {
    } else if !IsLetterOrNumber(text[i]) {
      TokensAreTokens(text, i + 1);
    } else {
      var e := TokenEnd(text, i + 1);
      TokenIsOneBlock(text, i);
      assert AllLetterOrNumber(text[i..e]);
      LoweredIsFixed(text[i..e]);
      TokensAreTokens(text, e);
    }
  }

  /** A token asked for as a query is read back as that one token. */
  lemma TokenIsItsOwnToken(t: Str)
    requires IsToken(t)
    ensures Tokens(t) == [t]
    ensures Trimmed(ToLower(t)) == t
  {
    LoweredIsFixed(t);
    var e := TokenEnd(t, 1);
    assert e == |t|;
    assert t[0..e] == t;
    assert TokensFrom(t, e) == [];
  }

  /** The letters and digits of a text, in order, lowered. */
  function LettersFrom(text: Str, i: nat): Str
    requires i <= |text|
    decreases |text| - i
  {
    if i == |text| then []
    else if IsLetterOrNumber(text[i]) then [LowerChar(text[i])] + LettersFrom(text, i + 1)
    else LettersFrom(text, i + 1)
  }

  function Flatten(parts: seq<Str>): Str {
    if parts == [] then [] else parts[0] + Flatten(parts[1..])
  }

  lemma LowerCons(s: Str)
    requires s != []
    ensures ToLower(s) == [LowerChar(s[0])] + ToLower(s[1..])
  {
  }

  lemma {:induction false} LettersOfBlock(text: Str, i: nat, e: nat)
    requires i <= e <= |text|
    requires forall j :: i <= j < e ==> IsLetterOrNumber(text[j])
    ensures LettersFrom(text, i) == ToLower(text[i..e]) + LettersFrom(text, e)
    decreases e - i
  {
    assert i < e ==> LettersFrom(text, i) == [LowerChar(text[i])] + LettersFrom(text, i + 1);
    if i == e {
      assert ToLower(text[i..e]) == [];
    } else {
      LettersOfBlock(text, i + 1, e);
      var block := text[i..e];
      assert block[1..] == text[i + 1..e];
      LowerCons(block);
      hide ToLower, LettersFrom;
      Assoc([LowerChar(text[i])], ToLower(block[1..]), LettersFrom(text, e));
    }
  }

  /** Tokenizing loses, invents and reorders no letter or digit. */
  lemma {:induction false} TokensConserveLetters(text: Str, i: nat)
    requires i <= |text|
    ensures Flatten(TokensFrom(text, i)) == LettersFrom(text, i)
    decreases |text| - i
  {
    if i == |text| {
    } else if !IsLetterOrNumber(text[i]) {
      TokensConserveLetters(text, i + 1);
    } else {
      var e := TokenEnd(text, i + 1);
      TokensConserveLetters(text, e);
      TokenIsOneBlock(text, i);
      LettersOfBlock(text, i, e);
      var rest := TokensFrom(text, e);
      assert ([ToLower(text[i..e])] + rest)[1..] == rest;
    }
  }

  // ---------------------------------------------------------------- where tokens are cut

  predicate Inked(text: Str, i: int) {
    0 <= i < |text| && (48 <= text[i] <= 57 || 65 <= text[i] <= 90 || 97 <= text[i] <= 122)
  }

  /** An upper-case letter right after a lower-case one. */
  predicate Hump(text: Str, i: int) {
    0 < i < |text| && 65 <= text[i] <= 90 && 97 <= text[i - 1] <= 122
  }

  /** text[a..b] is a block of letters and digits with a cut at both ends and none inside. */
  predicate IsSpan(text: Str, a: int, b: int) {
    && 0 <= a < b <= |text|
    && (forall j :: a <= j < b ==> Inked(text, j))
    && (forall j :: a < j < b ==> !Hump(text, j))
    && (!Inked(text, a - 1) || Hump(text, a))
    && (!Inked(text, b) || Hump(text, b))
  }

  ghost predicate SpanOf(text: Str, from: int, t: Str) {
    exists a, b :: from <= a && IsSpan(text, a, b) && t == ToLower(text[a..b])
  }

  lemma StopsAre(text: Str, i: nat)
    requires 0 < i <= |text|
    ensures TokenStops(text, i) <==> !Inked(text, i) || Hump(text, i)
  {
  }

  lemma TokenIsSpan(text: Str, i: nat)
    requires Inked(text, i) && (!Inked(text, i - 1) || Hump(text, i))
    ensures IsSpan(text, i, TokenEnd(text, i + 1))
  {
    hide TokenStops;
    var e := TokenEnd(text, i + 1);
    StopsAre(text, e);
    forall j | i < j < e
      ensures Inked(text, j) && !Hump(text, j)
    {
      StopsAre(text, j);
    }
  }

  /** Two spans that start at the same place, or overlap, are the same. */
  lemma SpansApart(text: Str, a: int, b: int, c: int, d: int)
    requires IsSpan(text, a, b) && IsSpan(text, c, d) && a <= c < b
    ensures a == c && b == d
  {
    assert a < c ==> Inked(text, c - 1) && !Hump(text, c);
    assert b < d ==> Inked(text, b) && !Hump(text, b);
    assert d < b ==> Inked(text, d) && !Hump(text, d);
  }

  lemma SpanHere(text: Str, i: nat, e: nat, t: Str)
    requires IsSpan(text, i, e)
    ensures SpanOf(text, i, t) <==> SpanOf(text, e, t) || t == ToLower(text[i..e])
  {
    hide ToLower;
    if SpanOf(text, i, t) {
      var a, b :| i <= a && IsSpan(text, a, b) && t == ToLower(text[a..b]);
      if a < e {
        SpansApart(text, i, e, a, b);
      }
    }
  }

  /**
   * The tokens are exactly the blocks of letters and digits between two cuts, lowered:
   * a text is cut around everything else, and before an upper-case letter that
   * follows a lower-case one, and nowhere else.
   */
  lemma {:induction false} TokensAreSpans(text: Str, i: nat, t: Str)
    requires i <= |text| && (Inked(text, i) && Inked(text, i - 1) ==> Hump(text, i))
    ensures t in TokensFrom(text, i) <==> SpanOf(text, i, t)
    decreases |text| - i
  {
    hide ToLower;
    if i == |text| {
      assert !SpanOf(text, i, t);
    } else if !IsLetterOrNumber(text[i]) {
      TokensAreSpans(text, i + 1, t);
      assert forall b :: !IsSpan(text, i, b);
    } else {
      var e := TokenEnd(text, i + 1);
      TokenIsSpan(text, i);
      SpanHere(text, i, e, t);
      TokensAreSpans(text, e, t);
    }
  }

  // ---------------------------------------------------------------- tokens of a list of words

  /** The words one after the other, with single spaces between. */
  function Joined(words: seq<Str>): Str {
    if words == [] then []
    else if |words| == 1 then words[0]
    else words[0] + [32] + Joined(words[1..])
  }

  /** Tokenizing from i on depends on the text from i on. */
  lemma {:induction false} TokensOfSuffix(text: Str, i: nat, k: nat)
    requires k <= i <= |text|
    ensures TokensFrom(text, i) == TokensFrom(text[k..], i - k)
    decreases |text| - i
  {
    hide *;
    var rest := text[k..];
    TokenSkip(text, i);
    TokenSkip(rest, i - k);
    if i < |text| {
      assert rest[i - k] == text[i];
      if IsLetterOrNumber(text[i]) {
        var e := TokenEnd(text, i + 1);
        SuffixEnd(text, i + 1, k);
        TokensOfSuffix(text, e, k);
        TokensHere(text, i);
        TokensHere(rest, i - k);
        assert rest[i - k..e - k] == text[i..e];
      } else {
        TokensOfSuffix(text, i + 1, k);
      }
    }
  }

  lemma TokensHere(text: Str, i: nat)
    requires i < |text| && IsLetterOrNumber(text[i])
    ensures TokensFrom(text, i)
            == [ToLower(text[i..TokenEnd(text, i + 1)])] + TokensFrom(text, TokenEnd(text, i + 1))
  {
  }

  lemma {:induction false} SuffixEnd(text: Str, i: nat, k: nat)
    requires k < i <= |text|
    ensures TokenEnd(text[k..], i - k) == TokenEnd(text, i) - k
    decreases |text| - i
  {
    assert TokenStops(text[k..], i - k) <==> TokenStops(text, i);
    if !TokenStops(text, i) {
      SuffixEnd(text, i + 1, k);
    }
  }

  /** A token before a space is read first. */
  lemma TokenThenSpace(w: Str, rest: Str)
    requires IsToken(w)
    ensures Tokens(w + [32] + rest) == [w] + Tokens(rest)
  {
    var text, n := w + [32] + rest, |w|;
    assert text[n] == 32 && text[0..n] == w && text[n + 1..] == rest && text[0] == w[0];
    forall j | 0 < j < n
      ensures !TokenStops(text, j)
    {
      assert text[j] == w[j];
    }
    assert TokenStops(text, n);
    TokenEndReached(text, 1, n);
    LoweredIsFixed(w);
    TokenSkip(text, n);
    TokensOfSuffix(text, n + 1, n + 1);
  }

  /** Words joined by spaces are read back one by one. */
  lemma {:induction false} TokensOfJoined(words: seq<Str>)
    requires forall i :: 0 <= i < |words| ==> IsToken(words[i])
    ensures Tokens(Joined(words)) == words
  {
    hide IsToken;
    if |words| == 1 {
      TokenIsItsOwnToken(words[0]);
    } else if words == [] {
      TokenSkip([], 0);
    } else {
      TokensOfJoined(words[1..]);
      TokenThenSpace(words[0], Joined(words[1..]));
      assert words == [words[0]] + words[1..];
    }
  }

  /** And such a text has no space at its ends and no capitals. */
  lemma {:induction false} JoinedIsTrim(words: seq<Str>)
    requires words != [] && forall i :: 0 <= i < |words| ==> IsToken(words[i])
    ensures Joined(words) != [] && IsLowered(Joined(words))
    ensures !IsSpace(Joined(words)[0]) && !IsSpace(Joined(words)[|Joined(words)| - 1])
  {
    if |words| > 1 {
      JoinedIsTrim(words[1..]);
    }
  }

  lemma TokenEndReached(text: Str, i: nat, e: nat)
    requires 0 < i <= e <= |text|
    requires TokenStops(text, e)
    requires forall j :: i <= j < e ==> !TokenStops(text, j)
    ensures TokenEnd(text, i) == e
    decreases e - i
  {
    if i < e {
      TokenEndReached(text, i + 1, e);
    }
  }

  /** The block from i to e, closed at e, is the next token. */
  lemma TokenCut(done: seq<Str>, text: Str, i: nat, e: nat)
    requires i < e <= |text| && IsLetterOrNumber(text[i])
    requires TokenStops(text, e) && forall j :: i < j < e ==> !TokenStops(text, j)
    ensures done + TokensFrom(text, i) == done + [ToLower(text[i..e])] + TokensFrom(text, e)
  {
    TokenEndReached(text, i + 1, e);
    Assoc(done, [ToLower(text[i..e])], TokensFrom(text, e));
  }

  lemma TokenSkip(text: Str, i: nat)
    requires i <= |text|
    ensures i < |text| && !IsLetterOrNumber(text[i]) ==> TokensFrom(text, i) == TokensFrom(text, i + 1)
    ensures i == |text| ==> TokensFrom(text, i) == []
  {
  }

  /**
   * One pass over the text with a growing current token. `start` is where the
   * current token begins; what is still to come is TokensFrom(text, start).
   */
  method Tokenize(text: Str) returns (tokens: seq<Str>)
    ensures tokens == Tokens(text)
  {
    hide TokensFrom, ToLower;
    tokens := [];
    var current: Str := [];
    ghost var start := 0;
    var i := 0;
    while i < |text|
      invariant start <= i <= |text|
      invariant current == text[start..i]
      invariant start < i ==> IsLetterOrNumber(text[start])
      invariant forall j :: start < j < i ==> !TokenStops(text, j)
      invariant Tokens(text) == tokens + TokensFrom(text, start)
    {
      var c := text[i];
      TokenSkip(text, i);
      if IsLetterOrNumber(c) {
        if IsUpper(c) && current != [] && IsLower(current[|current| - 1]) {
          TokenCut(tokens, text, start, i);
          tokens := tokens + [ToLower(current)];
          current := [];
          start := i;
        }
        current := current + [c];
      } else {
        if current != [] {
          TokenCut(tokens, text, start, i);
          tokens := tokens + [ToLower(current)];
          current := [];
        }
        start := i + 1;
      }
      i := i + 1;
    }
    TokenSkip(text, i);
    if current != [] {
      TokenCut(tokens, text, start, i);
      tokens := tokens + [ToLower(current)];
    }
  }
}
