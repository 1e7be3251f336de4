/**
 * indexSingleFile of userland/kf6/baloo-veridian-backend.cpp, and the promise it
 * exists for: what was indexed is found again.
 */
module BalooBackend {
  import opened Text
  import opened IndexModel
  import B = BalooIndex
  import BalooStore

  /** What the backend learns about a file from the file system. */
  datatype File = File(path: Str, name: Str, readable: bool, regular: bool, opens: bool, content: Str)

  function Ascii(s: string): Str {
    seq(|s|, i requires 0 <= i < |s| => s[i] as int % 256)
  }

  const DOT: Byte := '.' as int

  const CONTENT_MAX_BYTES: nat := 65536
  const BINARY_CHECK_BYTES: nat := 512

  const TEXT_EXTENSIONS: seq<string> := [
    ".txt", ".md", ".rs", ".cpp", ".c", ".h", ".hpp",
    ".py", ".sh", ".json", ".xml", ".html", ".css", ".js",
    ".toml", ".yaml", ".yml", ".cfg", ".conf", ".ini",
    ".cmake", ".mk", ".log"
  ]

  /** Where the last dot of a file name is, or its length. */
  function LastDot(name: Str): (k: nat)
    ensures k <= |name|
    ensures k < |name| ==> name[k] == DOT
    ensures forall i :: k < i < |name| ==> name[i] != DOT
    ensures k == |name| ==> DOT !in name
  {
    LastDotBelow(name, |name|)
  }

  function LastDotBelow(name: Str, n: nat): (k: nat)
    requires n <= |name|
    requires forall i :: n <= i < |name| ==> name[i] != DOT
    ensures k <= |name|
    ensures k < |name| ==> name[k] == DOT
    ensures forall i :: k < i < |name| ==> name[i] != DOT
    ensures k == |name| ==> DOT !in name
  {
    if n == 0 then |name| else if name[n - 1] == DOT then n - 1 else LastDotBelow(name, n - 1)
  }

  /** QFileInfo::completeBaseName */
  function CompleteBaseName(name: Str): Str {
    name[..LastDot(name)]
  }

  /** "." followed by QFileInfo::suffix, lowered */
  function Extension(name: Str): Str {
    var k := LastDot(name);
    [DOT] + ToLower(if k < |name| then name[k + 1..] else [])
  }

  /** What follows the last dot decides, whatever its case. */
  lemma ExtensionOf(base: Str, suffix: Str)
    requires forall i :: 0 <= i < |suffix| ==> suffix[i] != 46
    ensures Extension(base + [46] + suffix) == [46] + ToLower(suffix)
  {
    var name := base + [46] + suffix;
    var k := LastDot(name);
    assert name[|base|] == 46;
    assert k == |base|;
    assert name[k + 1..] == suffix;
  }

  predicate IsTextExtension(name: Str) {
    exists i :: 0 <= i < |TEXT_EXTENSIONS| && Extension(name) == Ascii(TEXT_EXTENSIONS[i])
  }

  predicate IsBinary(data: Str) {
    exists i :: 0 <= i < |data| && i < BINARY_CHECK_BYTES && data[i] == 0
  }

  // ---------------------------------------------------------------- content words

  /** The end of the block of letters and digits that reaches at least i. */
  function RunEnd(text: Str, i: nat): (e: nat)
    requires i <= |text|
    ensures i <= e <= |text|
    ensures e == |text| || !IsLetterOrNumber(text[e])
    ensures forall j :: i <= j < e ==> IsLetterOrNumber(text[j])
    decreases |text| - i
  {
    if i == |text| || !IsLetterOrNumber(text[i]) then i else RunEnd(text, i + 1)
  }

  predicate WordSized(n: int) {
    3 <= n <= 64
  }

  /** The content words from position i on that are not in seen, each once. */
  function ContentFrom(text: Str, i: nat, seen: set<Str>): seq<Str>
    requires i <= |text|
    decreases |text| - i
  {
    if i == |text| then []
    else if !IsLetterOrNumber(text[i]) then ContentFrom(text, i + 1, seen)
    else
      var e := RunEnd(text, i + 1);
      var w := ToLower(text[i..e]);
      if WordSized(e - i) && w !in seen then [w] + ContentFrom(text, e, seen + {w})
      else ContentFrom(text, e, seen)
  }

  function ContentWords(text: Str): seq<Str> {
    ContentFrom(text, 0, {})
  }

  /** text[i..e] is a maximal block of letters and digits. */
  predicate IsRun(text: Str, i: int, e: int) {
    && 0 <= i < e <= |text|
    && (forall j :: i <= j < e ==> IsLetterOrNumber(text[j]))
    && (i == 0 || !IsLetterOrNumber(text[i - 1]))
    && (e == |text| || !IsLetterOrNumber(text[e]))
  }

  ghost predicate RunOf(text: Str, from: nat, w: Str) {
    exists i, e :: from <= i && IsRun(text, i, e) && 3 <= e - i <= 64 && w == ToLower(text[i..e])
  }

  /** The content words are the maximal blocks of 3 to 64 letters and digits, lowered. */
  lemma {:induction false} ContentWordsAreRuns(text: Str, i: nat, seen: set<Str>, w: Str)
    requires i <= |text|
    requires i == 0 || i == |text| || !IsLetterOrNumber(text[i - 1]) || !IsLetterOrNumber(text[i])
    ensures w !in seen ==> (w in ContentFrom(text, i, seen) <==> RunOf(text, i, w))
    ensures w in ContentFrom(text, i, seen) ==> IsToken(w) && w !in seen
    decreases |text| - i
  {
    if i == |text| {
      assert !RunOf(text, i, w);
    } else if !IsLetterOrNumber(text[i]) {
      ContentWordsAreRuns(text, i + 1, seen, w);
      RunNotHere(text, i, w);
    } else {
      var e := RunEnd(text, i + 1);
      var x := ToLower(text[i..e]);
      assert AllLetterOrNumber(text[i..e]);
      LoweredIsFixed(text[i..e]);
      assert IsRun(text, i, e);
      RunHere(text, i, e, w);
      var fresh' := WordSized(e - i) && x !in seen;
      ContentWordsAreRuns(text, e, if fresh' then seen + {x} else seen, w);
      assert WordSized(e - i) ==> RunOf(text, i, x);
    }
  }

  lemma RunNotHere(text: Str, i: nat, w: Str)
    requires i < |text| && !IsLetterOrNumber(text[i])
    ensures RunOf(text, i, w) <==> RunOf(text, i + 1, w)
  {
    if RunOf(text, i, w) {
      var a, e :| i <= a && IsRun(text, a, e) && WordSized(e - a) && w == ToLower(text[a..e]);
      assert a != i;
    }
  }

  lemma RunHere(text: Str, i: nat, e: nat, w: Str)
    requires IsRun(text, i, e)
    ensures RunOf(text, i, w) <==> RunOf(text, e, w) || (WordSized(e - i) && w == ToLower(text[i..e]))
  {
    if RunOf(text, i, w) {
      var a, b :| i <= a && IsRun(text, a, b) && WordSized(b - a) && w == ToLower(text[a..b]);
      if a < e {
        assert a == i;
        assert b == e;
      }
    }
  }

  // ---------------------------------------------------------------- the operations of one file

  function AddAll(words: seq<Str>, path: Str, r: int): (ops: seq<IndexOp>)
    ensures |ops| == |words|
    ensures forall i :: 0 <= i < |ops| ==> ops[i] == Add(words[i], path, r)
  {
    seq(|words|, i requires 0 <= i < |words| => Add(words[i], path, r))
  }

  predicate HasContent(f: File) {
    f.regular && IsTextExtension(f.name) && f.opens && !IsBinary(ReadPart(f.content))
  }

  /** file.read(CONTENT_MAX_BYTES) */
  function ReadPart(content: Str): Str {
    if |content| <= CONTENT_MAX_BYTES then content else content[..CONTENT_MAX_BYTES]
  }

  function BaseWords(f: File): seq<Str> {
    if CompleteBaseName(f.name) == [] then [] else [ToLower(CompleteBaseName(f.name))]
  }

  /** What indexing a file adds: name tokens, the base name, content words. */
  function FileOps(f: File): seq<IndexOp> {
    if !f.readable then []
    else
      AddAll(Tokens(f.name), f.path, 80) + AddAll(BaseWords(f), f.path, 70)
      + (if HasContent(f) then AddAll(ContentWords(ReadPart(f.content)), f.path, 40) else [])
  }

  // ---------------------------------------------------------------- what a file records, told plainly

  /** base is what stands before the last dot of a name, or all of it when there is no dot. */
  predicate IsBase(name: Str, base: Str) {
    && base != [] && base <= name
    && (|base| < |name| ==> name[|base|] == 46)
    && (forall i :: |base| < i < |name| ==> name[i] != 46)
    && (base == name ==> forall i :: 0 <= i < |name| ==> name[i] != 46)
  }

  ghost predicate NamesBase(f: File, w: Str) {
    exists base :: IsBase(f.name, base) && w == ToLower(base)
  }

  /** data is the part of the content that is read: at most 65536 bytes. */
  predicate IsHead(content: Str, data: Str) {
    data <= content && |data| == if |content| > 65536 then 65536 else |content|
  }

  /** w is a block of 3 to 64 letters and digits of a text file without zero bytes at its head. */
  ghost predicate HoldsRun(f: File, w: Str) {
    && f.regular && f.opens && IsTextExtension(f.name)
    && exists data :: IsHead(f.content, data) && RunOf(data, 0, w)
                      && forall i :: 0 <= i < |data| && i < 512 ==> data[i] != 0
  }

  /** What indexing a readable file is to record for a word. */
  ghost function Plain(f: File, w: Str): Option<int> {
    if SpanOf(f.name, 0, w) then Some(80)
    else if NamesBase(f, w) then Some(70)
    else if HoldsRun(f, w) then Some(40)
    else None
  }

  ghost function Greater(a: Option<int>, b: Option<int>): Option<int> {
    if a.None? then b else if b.None? || a.value >= b.value then a else b
  }

  lemma BaseIs(name: Str, base: Str)
    ensures IsBase(name, base) <==> base != [] && base == CompleteBaseName(name)
  {
    var k := LastDot(name);
    if IsBase(name, base) {
      assert base == name[..|base|];
    }
  }

  lemma HeadIs(content: Str, data: Str)
    ensures IsHead(content, data) <==> data == ReadPart(content)
  {
  }

  lemma HoldsRunIs(f: File, w: Str)
    ensures HoldsRun(f, w) <==> HasContent(f) && w in ContentWords(ReadPart(f.content))
  {
    hide IsTextExtension, RunOf, ContentFrom;
    var data := ReadPart(f.content);
    ContentWordsAreRuns(data, 0, {}, w);
    forall d
      ensures IsHead(f.content, d) <==> d == data
    {
      HeadIs(f.content, d);
    }
  }

  /** Adding words at one relevance raises exactly those words of the path. */
  lemma {:induction false} AddAllEffect(ops: seq<IndexOp>, words: seq<Str>, path: Str, r: int, w: Str, p: Str)
    requires path != [] && forall i :: 0 <= i < |words| ==> words[i] != [] && ToLower(words[i]) == words[i]
    ensures Replay(ops + AddAll(words, path, r), w, p)
            == if p == path && w in words then Greater(Replay(ops, w, p), Some(r)) else Replay(ops, w, p)
  {
    if words == [] {
      assert ops + AddAll(words, path, r) == ops;
    } else {
      var n := |words| - 1;
      AddAllEffect(ops, words[..n], path, r, w, p);
      var all := ops + AddAll(words, path, r);
      assert all[..|all| - 1] == ops + AddAll(words[..n], path, r);
      assert words == words[..n] + [words[n]];
    }
  }

  lemma TokensLowered(words: seq<Str>)
    requires forall w :: w in words ==> IsToken(w)
    ensures forall i :: 0 <= i < |words| ==> words[i] != [] && ToLower(words[i]) == words[i]
  {
    forall i | 0 <= i < |words|
      ensures words[i] != [] && ToLower(words[i]) == words[i]
    {
      assert words[i] in words;
      LoweredIsFixed(words[i]);
    }
  }

  lemma BaseWordsAre(f: File, w: Str)
    ensures w in BaseWords(f) <==> NamesBase(f, w)
    ensures forall i :: 0 <= i < |BaseWords(f)| ==> BaseWords(f)[i] != [] && ToLower(BaseWords(f)[i]) == BaseWords(f)[i]
  {
    hide LastDot;
    forall base
      ensures IsBase(f.name, base) <==> base != [] && base == CompleteBaseName(f.name)
    {
      BaseIs(f.name, base);
    }
    hide CompleteBaseName;
    LoweredIsFixed(CompleteBaseName(f.name));
    LoweredIsFixed(ToLower(CompleteBaseName(f.name)));
  }

  /** Indexing a file raises each word of its path to what is due for it and touches no other path. */
  lemma FileEffect(ops: seq<IndexOp>, f: File, w: Str, p: Str)
    requires f.readable && f.path != []
    ensures Replay(ops + FileOps(f), w, p)
            == if p == f.path then Greater(Replay(ops, w, p), Plain(f, w)) else Replay(ops, w, p)
  {
    hide Replay, TokensFrom, BaseWords, ContentFrom, IsTextExtension, HasContent, SpanOf, NamesBase, HoldsRun;
    var tokens, bases := Tokens(f.name), BaseWords(f);
    var words := if HasContent(f) then ContentWords(ReadPart(f.content)) else [];
    TokensAreTokens(f.name, 0);
    TokensLowered(tokens);
    TokensAreSpans(f.name, 0, w);
    AddAllEffect(ops, tokens, f.path, 80, w, p);
    var one := ops + AddAll(tokens, f.path, 80);
    BaseWordsAre(f, w);
    AddAllEffect(one, bases, f.path, 70, w, p);
    var two := one + AddAll(bases, f.path, 70);
    forall x | x in words
      ensures IsToken(x)
    {
      ContentWordsAreRuns(ReadPart(f.content), 0, {}, x);
    }
    TokensLowered(words);
    HoldsRunIs(f, w);
    AddAllEffect(two, words, f.path, 40, w, p);
    assert ops + FileOps(f) == two + AddAll(words, f.path, 40);
  }

  method Record(index: B.Index, w: Str, p: Str, r: int, ghost ops: seq<IndexOp>)
    requires index.Valid() && index.Holds(ops)
    modifies index
    ensures index.Valid() && index.Holds(ops + [Add(w, p, r)])
  {
    ghost var before := index.wordMap;
    assert forall x, y :: Lookup(before, x, y) == Replay(ops, x, y);
    assert (ops + [Add(w, p, r)])[..|ops|] == ops;
    index.Add(w, p, r);
  }

  method RecordAll(index: B.Index, words: seq<Str>, p: Str, r: int, ghost ops: seq<IndexOp>)
    requires index.Valid() && index.Holds(ops)
    modifies index
    ensures index.Valid() && index.Holds(ops + AddAll(words, p, r))
  {
    hide WordsOk, TrigramsExact, PathsExact, Live, Lookup, Replay;
    var i := 0;
    assert ops + AddAll(words[..0], p, r) == ops;
    while i < |words|
      invariant 0 <= i <= |words|
      invariant index.Valid() && index.Holds(ops + AddAll(words[..i], p, r))
    {
      Record(index, words[i], p, r, ops + AddAll(words[..i], p, r));
      assert ops + AddAll(words[..i], p, r) + [Add(words[i], p, r)] == ops + AddAll(words[..i + 1], p, r);
      i := i + 1;
    }
    assert words[..i] == words;
  }

  lemma ContentCut(done: seq<Str>, text: Str, i: nat, e: nat, seen: set<Str>)
    requires i < e <= |text| && (e == |text| || !IsLetterOrNumber(text[e]))
    requires forall j :: i <= j < e ==> IsLetterOrNumber(text[j])
    ensures var w := ToLower(text[i..e]);
            done + ContentFrom(text, i, seen)
            == if WordSized(e - i) && w !in seen then done + [w] + ContentFrom(text, e, seen + {w})
               else done + ContentFrom(text, e, seen)
  {
    RunEndReached(text, i + 1, e);
    var w := ToLower(text[i..e]);
    Assoc(done, [w], ContentFrom(text, e, seen + {w}));
  }

  lemma RunEndReached(text: Str, i: nat, e: nat)
    requires i <= e <= |text| && (e == |text| || !IsLetterOrNumber(text[e]))
    requires forall j :: i <= j < e ==> IsLetterOrNumber(text[j])
    ensures RunEnd(text, i) == e
    decreases e - i
  {
    if i < e {
      RunEndReached(text, i + 1, e);
    }
  }

  lemma ContentSkip(text: Str, i: nat, seen: set<Str>)
    requires i <= |text|
    ensures i < |text| && !IsLetterOrNumber(text[i]) ==> ContentFrom(text, i, seen) == ContentFrom(text, i + 1, seen)
    ensures i == |text| ==> ContentFrom(text, i, seen) == []
  {
  }

  /** The content scan of indexSingleFile: the words it adds, in order. */
  method ScanContent(text: Str) returns (words: seq<Str>)
    ensures words == ContentWords(text)
  {
    hide ContentFrom, ToLower, RunEnd;
    words := [];
    var seen: set<Str> := {};
    var current: Str := [];
    ghost var start := 0;
    var i := 0;
    while i < |text|
      invariant start <= i <= |text|
      invariant current == text[start..i]
      invariant forall j :: start <= j < i ==> IsLetterOrNumber(text[j])
      invariant ContentWords(text) == words + ContentFrom(text, start, seen)
    {
      var c := text[i];
      ContentSkip(text, i, seen);
      if IsLetterOrNumber(c) {
        current := current + [c];
      } else {
        if current != [] {
          ContentCut(words, text, start, i, seen);
        }
        if WordSized(|current|) {
          var lower := ToLower(current);
          if lower !in seen {
            seen := seen + {lower};
            words := words + [lower];
          }
        }
        ContentSkip(text, i, seen);
        current := [];
        start := i + 1;
      }
      i := i + 1;
    }
    ContentSkip(text, i, seen);
    if current != [] {
      ContentCut(words, text, start, i, seen);
      ContentSkip(text, i, seen + {ToLower(current)});
    }
    if WordSized(|current|) {
      var lower := ToLower(current);
      if lower !in seen {
        words := words + [lower];
      }
    }
  }

  /**
   * indexSingleFile: the index afterwards holds the file's operations too, which is to
   * say that each word of the path is raised to what is due for it.
   */
  method IndexSingleFile(index: B.Index, f: File, ghost ops: seq<IndexOp>)
    requires index.Valid() && index.Holds(ops)
    modifies index
    ensures index.Valid() && index.Holds(ops + FileOps(f))
    ensures !f.readable ==> unchanged(index)
    ensures f.readable && f.path != [] ==>
              forall w, p :: Lookup(index.wordMap, w, p)
                             == if p == f.path then Greater(Lookup(old(index.wordMap), w, p), Plain(f, w))
                                else Lookup(old(index.wordMap), w, p)
  {
    ghost var before := index.wordMap;
    assert forall w, p :: Lookup(before, w, p) == Replay(ops, w, p);
    hide Plain, Greater, WordsOk, TrigramsExact, PathsExact, Live, FileOps;
    RecordFile(index, f, ops);
    if f.readable && f.path != [] {
      forall w, p
        ensures Lookup(index.wordMap, w, p)
                == if p == f.path then Greater(Lookup(before, w, p), Plain(f, w)) else Lookup(before, w, p)
      {
        FileEffect(ops, f, w, p);
      }
    }
  }

  /** The three loops of indexSingleFile. */
  method RecordFile(index: B.Index, f: File, ghost ops: seq<IndexOp>)
    requires index.Valid() && index.Holds(ops)
    modifies index
    ensures index.Valid() && index.Holds(ops + FileOps(f))
    ensures !f.readable ==> unchanged(index)
  {
    hide WordsOk, TrigramsExact, PathsExact, Live, Lookup, Replay, Tokens, ContentFrom, IsTextExtension, LastDot;
    if !f.readable {
      assert ops + FileOps(f) == ops;
      return;
    }
    var tokens := Tokenize(f.name);
    RecordAll(index, tokens, f.path, 80, ops);
    ghost var named := ops + AddAll(tokens, f.path, 80);
    RecordAll(index, BaseWords(f), f.path, 70, named);
    ghost var based := named + AddAll(BaseWords(f), f.path, 70);
    if f.regular && IsTextExtension(f.name) && f.opens {
      var data := ReadPart(f.content);
      if !IsBinary(data) {
        var words := ScanContent(data);
        RecordAll(index, words, f.path, 40, based);
        assert ops + FileOps(f) == based + AddAll(words, f.path, 40);
        return;
      }
    }
    assert ops + FileOps(f) == based;
  }

  // ---------------------------------------------------------------- found again

  ghost function HitPaths(hits: seq<Hit>): set<Str> {
    set i | 0 <= i < |hits| :: hits[i].path
  }

  lemma {:induction false} HitPathsCount(hits: seq<Hit>)
    requires forall i, j :: 0 <= i < j < |hits| ==> hits[i].path != hits[j].path
    ensures |HitPaths(hits)| == |hits|
  {
    if hits == [] {
      assert HitPaths(hits) == {};
    } else {
      var n := |hits| - 1;
      var rest := hits[..n];
      HitPathsCount(rest);
      assert forall p :: p in HitPaths(hits) <==> p in HitPaths(rest) || p == hits[n].path;
      assert HitPaths(hits) == HitPaths(rest) + {hits[n].path};
    }
  }

  /** With room for every indexed path, a ranking lists every path found. */
  lemma RoomForAll(f: Facts, qs: seq<Str>, max: nat, hits: seq<Hit>, paths: set<Str>, p: Str)
    requires Ranked(f, qs, max, hits) && Found(f, qs, p)
    requires forall x :: Found(f, qs, x) ==> x in paths
    requires |paths| <= max
    ensures Listed(hits, p)
  {
    if !Listed(hits, p) {
      HitPathsCount(hits);
      forall x | x in HitPaths(hits)
        ensures x in paths - {p}
      {
        var i :| 0 <= i < |hits| && hits[i].path == x;
        assert IsScore(f, qs, hits[i].path, hits[i].score);
      }
      BalooStore.SubsetCount(HitPaths(hits), paths - {p});
    }
  }

  lemma LastAdds(ops: seq<IndexOp>, more: seq<IndexOp>, k: nat, w: Str, p: Str)
    requires forall i :: 0 <= i < |more| ==> more[i].Add?
    requires k < |more| && w != [] && p != [] && ToLower(more[k].word) == w && more[k].path == p
    ensures Replay(ops + more, w, p).Some? && Replay(ops + more, w, p).value >= more[k].relevance
  {
    var all := ops + more;
    var i := |ops| + k;
    assert all[i] == more[k];
    assert forall j :: i < j < |all| ==> all[j] == more[j - |ops|];
    assert Adds(all, i, w, p);
    ReplayIsGreatestSurvivor(all, w, p);
  }

  lemma FileOpsAreAdds(f: File)
    ensures forall i :: 0 <= i < |FileOps(f)| ==> FileOps(f)[i].Add?
  {
  }

  /**
   * A token recorded for a path is found by searching for it, with the recorded
   * relevance and the bonus for an exact match.
   */
  lemma KnownIsFound(all: seq<IndexOp>, t: Str, p: Str, paths: set<Str>, max: nat, hits: seq<Hit>)
    requires IsToken(t) && Replay(all, t, p).Some?
    requires Ranked(History(all), QueryWords(t), max, hits)
    requires forall w, x :: Replay(all, w, x).Some? ==> x in paths
    requires |paths| <= max
    ensures exists i :: 0 <= i < |hits| && hits[i].path == p && hits[i].score >= Replay(all, t, p).value + 20
  {
    hide Replay;
    var facts := History(all);
    TokenIsItsOwnToken(t);
    LoweredIsFixed(t);
    assert QueryWords(t) == [t];
    assert Matches(t, t) by {
      assert OccursAt(t, t, 0);
    }
    var s := Replay(all, t, p).value + 20;
    assert Earns(facts, t, t, p, s);
    assert t in QueryWords(t);
    assert Found(facts, QueryWords(t), p);
    RoomForAll(facts, QueryWords(t), max, hits, paths, p);
    var i :| 0 <= i < |hits| && hits[i].path == p;
    assert IsScore(facts, QueryWords(t), hits[i].path, hits[i].score);
  }

  /** A token added for a file is found with its relevance and the bonus. */
  lemma RecordedIsFound(ops: seq<IndexOp>, f: File, t: Str, r: int, paths: set<Str>, max: nat, hits: seq<Hit>)
    requires IsToken(t) && f.path != [] && Add(t, f.path, r) in FileOps(f)
    requires Ranked(History(ops + FileOps(f)), QueryWords(t), max, hits)
    requires forall w, p :: Replay(ops + FileOps(f), w, p).Some? ==> p in paths
    requires |paths| <= max
    ensures exists i :: 0 <= i < |hits| && hits[i].path == f.path && hits[i].score >= r + 20
  {
    hide Replay, Ranked, QueryWords;
    var more := FileOps(f);
    LoweredIsFixed(t);
    var k :| 0 <= k < |more| && more[k] == Add(t, f.path, r);
    FileOpsAreAdds(f);
    hide FileOps;
    LastAdds(ops, more, k, t, f.path);
    KnownIsFound(ops + more, t, f.path, paths, max, hits);
  }

  /** Searching a token of the file's name finds the file with at least 100. */
  lemma NameTokenIsFound(ops: seq<IndexOp>, f: File, t: Str, paths: set<Str>, max: nat, hits: seq<Hit>)
    requires f.readable && f.path != [] && t in Tokens(f.name)
    requires Ranked(History(ops + FileOps(f)), QueryWords(t), max, hits)
    requires forall w, p :: Replay(ops + FileOps(f), w, p).Some? ==> p in paths
    requires |paths| <= max
    ensures exists i :: 0 <= i < |hits| && hits[i].path == f.path && hits[i].score >= 100
  {
    hide Replay, Ranked, QueryWords, FileOps, TokensFrom, SpanOf;
    TokensAreTokens(f.name, 0);
    TokensAreSpans(f.name, 0, t);
    FileEffect(ops, f, t, f.path);
    KnownIsFound(ops + FileOps(f), t, f.path, paths, max, hits);
  }

  /** Searching an indexed content word finds the file with at least 60. */
  lemma ContentWordIsFound(ops: seq<IndexOp>, f: File, t: Str, paths: set<Str>, max: nat, hits: seq<Hit>)
    requires f.readable && f.path != [] && HasContent(f) && t in ContentWords(ReadPart(f.content))
    requires Ranked(History(ops + FileOps(f)), QueryWords(t), max, hits)
    requires forall w, p :: Replay(ops + FileOps(f), w, p).Some? ==> p in paths
    requires |paths| <= max
    ensures exists i :: 0 <= i < |hits| && hits[i].path == f.path && hits[i].score >= 60
  {
    hide Replay, Ranked, QueryWords, FileOps, ContentFrom, HasContent, HoldsRun, SpanOf, NamesBase;
    ContentWordsAreRuns(ReadPart(f.content), 0, {}, t);
    HoldsRunIs(f, t);
    FileEffect(ops, f, t, f.path);
    KnownIsFound(ops + FileOps(f), t, f.path, paths, max, hits);
  }
}
