/**
 * What the inverted index of userland/kf6/baloo-veridian-index.cpp means.
 *
 * The word map is read through Lookup, the relevance recorded for a word and a
 * path. A run of the index is described by its operations alone (Replay), and
 * ranking is defined by a scan over all words (Found, IsScore, Ranked), with no
 * trigram in sight; the class in BalooIndex.dfy is proved to agree with both.
 */
module IndexModel {
  import opened Text

  datatype Posting = Posting(path: Str, relevance: int)

  type WordMap = map<Str, seq<Posting>>

  // ---------------------------------------------------------------- postings

  /** The relevance stored for path p, if any. */
  function Find(es: seq<Posting>, p: Str): Option<int> {
    if es == [] then None
    else if es[0].path == p then Some(es[0].relevance)
    else Find(es[1..], p)
  }

  lemma {:induction false} FindMeans(es: seq<Posting>, p: Str)
    ensures Find(es, p).None? <==> forall i :: 0 <= i < |es| ==> es[i].path != p
    ensures Find(es, p).Some? ==> Posting(p, Find(es, p).value) in es
  {
    if es != [] {
      FindMeans(es[1..], p);
      assert forall i :: 0 < i < |es| ==> es[i] == es[1..][i - 1];
    }
  }

  ghost predicate DistinctPaths(es: seq<Posting>) {
    forall i, j :: 0 <= i < j < |es| ==> es[i].path != es[j].path
  }

  lemma FindAt(es: seq<Posting>, i: nat)
    requires DistinctPaths(es) && i < |es|
    ensures Find(es, es[i].path) == Some(es[i].relevance)
  {
    FindMeans(es, es[i].path);
  }

  lemma FindUpdated(es: seq<Posting>, i: nat, r: int, p: Str)
    requires DistinctPaths(es) && i < |es|
    ensures var es' := es[i := Posting(es[i].path, r)];
            DistinctPaths(es')
            && Find(es', p) == if p == es[i].path then Some(r) else Find(es, p)
  {
    var es' := es[i := Posting(es[i].path, r)];
    assert forall k :: 0 <= k < |es| ==> es'[k].path == es[k].path;
    FindMeans(es, p);
    FindMeans(es', p);
    if Find(es, p).Some? {
      var k :| 0 <= k < |es| && es[k] == Posting(p, Find(es, p).value);
      FindAt(es', k);
    }
  }

  lemma FindAppended(es: seq<Posting>, e: Posting, p: Str)
    requires DistinctPaths(es) && Find(es, e.path).None?
    ensures DistinctPaths(es + [e])
    ensures Find(es + [e], p) == if p == e.path then Some(e.relevance) else Find(es, p)
  {
    var es' := es + [e];
    FindMeans(es, e.path);
    FindMeans(es, p);
    FindMeans(es', p);
    if p == e.path {
      FindAt(es', |es|);
    } else if Find(es, p).Some? {
      var k :| 0 <= k < |es| && es[k] == Posting(p, Find(es, p).value);
      FindAt(es', k);
    }
  }

  /** The postings that do not mention p, in order. */
  function Without(es: seq<Posting>, p: Str): (r: seq<Posting>)
    ensures |r| <= |es|
  {
    if es == [] then []
    else if es[0].path == p then Without(es[1..], p)
    else [es[0]] + Without(es[1..], p)
  }

  lemma {:induction false} WithoutMeans(es: seq<Posting>, p: Str)
    ensures forall e :: e in Without(es, p) <==> e in es && e.path != p
  {
    if es != [] {
      WithoutMeans(es[1..], p);
      assert es == [es[0]] + es[1..];
    }
  }

  lemma {:induction false} WithoutKeepsDistinct(es: seq<Posting>, p: Str)
    requires DistinctPaths(es)
    ensures DistinctPaths(Without(es, p))
  {
    if es != [] {
      var rest := es[1..];
      assert DistinctPaths(rest);
      WithoutKeepsDistinct(rest, p);
      WithoutMeans(rest, p);
      assert forall e :: e in Without(rest, p) ==> e.path != es[0].path;
    }
  }

  lemma FindWithout(es: seq<Posting>, p: Str, p': Str)
    requires DistinctPaths(es)
    ensures Find(Without(es, p), p') == if p' == p then None else Find(es, p')
  {
    WithoutKeepsDistinct(es, p);
    var r := Without(es, p);
    FindMeans(es, p');
    FindMeans(r, p');
    WithoutMeans(es, p);
    if p' != p && Find(es, p').Some? {
      var e := Posting(p', Find(es, p').value);
      assert e in es && e in r;
      var k :| 0 <= k < |r| && r[k] == e;
      FindAt(r, k);
    }
  }

  // ---------------------------------------------------------------- word map

  function Lookup(wm: WordMap, w: Str, p: Str): Option<int> {
    if w in wm then Find(wm[w], p) else None
  }

  ghost predicate PostingsOk(es: seq<Posting>) {
    DistinctPaths(es) && forall i :: 0 <= i < |es| ==> es[i].path != []
  }

  ghost predicate WordsOk(wm: WordMap) {
    forall w :: w in wm ==> w != [] && IsLowered(w) && PostingsOk(wm[w])
  }

  /** paths is exactly the set of paths that occur in a posting. */
  ghost predicate PathsExact(wm: WordMap, paths: set<Str>) {
    && (forall w, p :: Lookup(wm, w, p).Some? ==> p in paths)
    && (forall p :: p in paths ==> exists w :: Lookup(wm, w, p).Some?)
  }

  /** How many postings the map holds. */
  ghost function Live(wm: WordMap): nat
    decreases |wm|
  {
    if wm == map[] then 0
    else
      var w :| w in wm;
      |wm[w]| + Live(wm - {w})
  }

  lemma {:induction false} LiveSplit(wm: WordMap, w: Str)
    requires w in wm
    ensures Live(wm) == |wm[w]| + Live(wm - {w})
    decreases |wm|
  {
    var v :| v in wm && Live(wm) == |wm[v]| + Live(wm - {v});
    if v != w {
      LiveSplit(wm - {v}, w);
      LiveSplit(wm - {w}, v);
      assert wm - {v} - {w} == wm - {w} - {v};
    }
  }

  lemma LiveUpdated(wm: WordMap, w: Str, es: seq<Posting>)
    ensures Live(wm[w := es]) == Live(wm) + |es| - (if w in wm then |wm[w]| else 0)
  {
    LiveSplit(wm[w := es], w);
    assert wm[w := es] - {w} == wm - {w};
    if w in wm {
      LiveSplit(wm, w);
    } else {
      assert wm - {w} == wm;
    }
  }

  // ---------------------------------------------------------------- trigrams

  type TrigramMap = map<Str, set<Str>>

  function Trigram(w: Str, i: nat): Str
    requires i + 3 <= |w|
  {
    w[i..i + 3]
  }

  /** The three-byte blocks of a word; a shorter word stands for itself. */
  function TrigramsOf(w: Str): set<Str> {
    if |w| < 3 then (if w == [] then {} else {w})
    else set i | 0 <= i <= |w| - 3 :: Trigram(w, i)
  }

  predicate Files(tm: TrigramMap, t: Str, w: Str) {
    t in tm && w in tm[t]
  }

  /** No trigram set is empty, and each holds exactly the words having it. */
  ghost predicate TrigramsExact(words: set<Str>, tm: TrigramMap) {
    && (forall t :: t in tm ==> tm[t] != {})
    && (forall t, w :: Files(tm, t, w) <==> (w in words && t in TrigramsOf(ToLower(w))))
  }

  /** The trigram map is a function of the words: rebuilding it gives it back. */
  lemma TrigramsDetermined(words: set<Str>, tm: TrigramMap, tm': TrigramMap)
    requires TrigramsExact(words, tm) && TrigramsExact(words, tm')
    ensures tm == tm'
  {
    forall t | t in tm
      ensures t in tm' && tm[t] == tm'[t]
    {
      var w :| w in tm[t];
      assert Files(tm, t, w) && Files(tm', t, w);
      assert forall x :: Files(tm, t, x) <==> Files(tm', t, x);
      assert forall x :: x in tm[t] <==> Files(tm, t, x);
      assert forall x :: x in tm'[t] <==> Files(tm', t, x);
    }
    forall t | t in tm'
      ensures t in tm
    {
      var w :| w in tm'[t];
      assert Files(tm', t, w) && Files(tm, t, w);
    }
  }

  /** The words a query word selects, by a plain scan. */
  predicate Matches(w: Str, q: Str) {
    if |q| < 3 then q <= w else Contains(w, q)
  }

  lemma SliceOfSlice(s: Str, a: nat, b: nat, i: nat, j: nat)
    requires a <= b <= |s| && i <= j <= b - a
    ensures s[a..b][i..j] == s[a + i..a + j]
  {
    var x, y := s[a..b][i..j], s[a + i..a + j];
    assert forall k :: 0 <= k < j - i ==> x[k] == s[a + i + k] == y[k];
  }

  /** No false negatives: a word containing q has all of q's trigrams. */
  lemma TrigramsOfSubstring(w: Str, q: Str)
    requires |q| >= 3 && Contains(w, q)
    ensures TrigramsOf(q) <= TrigramsOf(w)
  {
    var k :| 0 <= k <= |w| && OccursAt(w, q, k);
    forall i | 0 <= i <= |q| - 3
      ensures Trigram(q, i) in TrigramsOf(w)
    {
      SliceOfSlice(w, k, k + |q|, i, i + 3);
      assert Trigram(w, k + i) == Trigram(q, i);
    }
  }

  /**
   * Prefix scan plus trigram candidates that contain q is the plain scan:
   * for q of three bytes or more it selects the words containing q, for a
   * shorter q those starting with q.
   */
  lemma CandidateTestIsScan(q: Str, w: Str)
    requires q != []
    ensures (q <= w || (TrigramsOf(q) <= TrigramsOf(w) && Contains(w, q))) <==> Matches(w, q)
  {
    if |q| < 3 {
      if TrigramsOf(q) <= TrigramsOf(w) {
        assert q in TrigramsOf(w);
        assert q == w;
      }
    } else {
      if q <= w {
        assert OccursAt(w, q, 0);
      }
      if Contains(w, q) {
        TrigramsOfSubstring(w, q);
      }
    }
  }

  // ---------------------------------------------------------------- ranking

  /** The facts a ranking is computed from: the relevance of a word for a path. */
  type Facts = (Str, Str) -> Option<int>

  function FactsOf(wm: WordMap): Facts {
    (w, p) => Lookup(wm, w, p)
  }

  ghost predicate SameFacts(f: Facts, g: Facts) {
    forall w, p :: f(w, p) == g(w, p)
  }

  function Bonus(w: Str, q: Str): int {
    if w == q then 20 else if q <= w then 10 else 0
  }

  /** Word w earns path p the score s for query word q. */
  ghost predicate Earns(f: Facts, q: Str, w: Str, p: Str, s: int) {
    Matches(w, q) && f(w, p).Some? && s == f(w, p).value + Bonus(w, q)
  }

  ghost predicate Found(f: Facts, qs: seq<Str>, p: Str) {
    exists q, w, s :: q in qs && Earns(f, q, w, p, s)
  }

  /** s is the best score any query word and any word earn p. */
  ghost predicate IsScore(f: Facts, qs: seq<Str>, p: Str, s: int) {
    && (exists q, w :: q in qs && Earns(f, q, w, p, s))
    && (forall q, w, s' :: q in qs && Earns(f, q, w, p, s') ==> s' <= s)
  }

  datatype Hit = Hit(path: Str, score: int)

  predicate Listed(hits: seq<Hit>, p: Str) {
    exists i :: 0 <= i < |hits| && hits[i].path == p
  }

  /**
   * hits are the best paths, at most max of them: distinct, each with its own
   * score, best first, and a path left out has no better score than one listed
   * and is left out only because max was reached.
   */
  ghost predicate Ranked(f: Facts, qs: seq<Str>, max: nat, hits: seq<Hit>) {
    && |hits| <= max
    && (forall i, j :: 0 <= i < j < |hits| ==> hits[i].path != hits[j].path)
    && (forall i, j :: 0 <= i < j < |hits| ==> hits[i].score >= hits[j].score)
    && (forall i :: 0 <= i < |hits| ==> IsScore(f, qs, hits[i].path, hits[i].score))
    && (forall p :: Found(f, qs, p) && !Listed(hits, p) ==> |hits| == max)
    && (forall p, s, i :: IsScore(f, qs, p, s) && !Listed(hits, p) && 0 <= i < |hits| ==>
          s <= hits[i].score)
  }

  lemma ScoreUnique(f: Facts, qs: seq<Str>, p: Str, s: int, s': int)
    requires IsScore(f, qs, p, s) && IsScore(f, qs, p, s')
    ensures s == s'
  {
  }

  /** Indices with the same facts give every path the same score. */
  lemma SameFactsSameScores(f: Facts, g: Facts, qs: seq<Str>, p: Str, s: int)
    requires SameFacts(f, g)
    ensures Found(f, qs, p) <==> Found(g, qs, p)
    ensures IsScore(f, qs, p, s) <==> IsScore(g, qs, p, s)
  {
    assert forall q, w, s' :: Earns(f, q, w, p, s') <==> Earns(g, q, w, p, s');
  }

  lemma SameFactsSameRanking(f: Facts, g: Facts, qs: seq<Str>, max: nat, hits: seq<Hit>)
    requires SameFacts(f, g)
    ensures Ranked(f, qs, max, hits) <==> Ranked(g, qs, max, hits)
  {
    forall p
      ensures Found(f, qs, p) <==> Found(g, qs, p)
    {
      SameFactsSameScores(f, g, qs, p, 0);
    }
    forall p, s
      ensures IsScore(f, qs, p, s) <==> IsScore(g, qs, p, s)
    {
      SameFactsSameScores(f, g, qs, p, s);
    }
  }

  // ---------------------------------------------------------------- rankings, told plainly

  /**
   * What a word recorded with relevance r is worth for a query word: 20 more when it
   * is that word, 10 more when it goes on after it, r alone when it holds a query word
   * of three bytes or more further in, and nothing otherwise.
   */
  ghost predicate Worth(q: Str, w: Str, r: int, s: int) {
    || (w == q && s == r + 20)
    || (q < w && s == r + 10)
    || (|q| >= 3 && !(q <= w) && s == r && exists k :: OccursAt(w, q, k))
  }

  /** Some recorded word is worth s for p. */
  ghost predicate Scores(f: Facts, qs: seq<Str>, p: Str, s: int) {
    exists q, w :: q in qs && f(w, p).Some? && Worth(q, w, f(w, p).value, s)
  }

  ghost predicate BestScore(f: Facts, qs: seq<Str>, p: Str, s: int) {
    Scores(f, qs, p, s) && forall s' :: Scores(f, qs, p, s') ==> s' <= s
  }

  ghost predicate RankedPlainly(f: Facts, qs: seq<Str>, max: nat, hits: seq<Hit>) {
    && |hits| <= max
    && (forall i, j :: 0 <= i < j < |hits| ==> hits[i].path != hits[j].path && hits[i].score >= hits[j].score)
    && (forall i :: 0 <= i < |hits| ==> BestScore(f, qs, hits[i].path, hits[i].score))
    && (forall p, s :: Scores(f, qs, p, s) && !Listed(hits, p) ==> |hits| == max)
    && (forall p, s, i :: BestScore(f, qs, p, s) && !Listed(hits, p) && 0 <= i < |hits| ==> s <= hits[i].score)
  }

  lemma EarnsIsWorth(f: Facts, q: Str, w: Str, p: Str, s: int)
    requires q != []
    ensures Earns(f, q, w, p, s) <==> f(w, p).Some? && Worth(q, w, f(w, p).value, s)
  {
    if q <= w {
      assert OccursAt(w, q, 0);
      if |q| == |w| {
        assert q == w;
      }
    }
  }

  lemma ScoreIsBest(f: Facts, qs: seq<Str>, p: Str, s: int)
    requires forall q :: q in qs ==> q != []
    ensures IsScore(f, qs, p, s) <==> BestScore(f, qs, p, s)
    ensures Found(f, qs, p) <==> exists s' :: Scores(f, qs, p, s')
  {
    hide Earns, Worth;
    forall s'
      ensures Scores(f, qs, p, s') <==> EarnsSome(f, qs, p, s')
    {
      ScoresIsEarns(f, qs, p, s');
    }
    hide Scores;
    assert Found(f, qs, p) <==> exists s' :: EarnsSome(f, qs, p, s') by {
      if s' :| EarnsSome(f, qs, p, s') {
        var q, w :| q in qs && Earns(f, q, w, p, s');
      }
      if Found(f, qs, p) {
        var q, w, s' :| q in qs && Earns(f, q, w, p, s');
        assert EarnsSome(f, qs, p, s');
      }
    }
    assert (forall q, w, s' :: q in qs && Earns(f, q, w, p, s') ==> s' <= s)
           <==> (forall s' :: EarnsSome(f, qs, p, s') ==> s' <= s) by {
      assert forall q, w, s' :: q in qs && Earns(f, q, w, p, s') ==> EarnsSome(f, qs, p, s');
    }
  }

  ghost predicate EarnsSome(f: Facts, qs: seq<Str>, p: Str, s: int) {
    exists q, w :: q in qs && Earns(f, q, w, p, s)
  }

  lemma ScoresIsEarns(f: Facts, qs: seq<Str>, p: Str, s: int)
    requires forall q :: q in qs ==> q != []
    ensures Scores(f, qs, p, s) <==> EarnsSome(f, qs, p, s)
  {
    hide Earns, Worth;
    if Scores(f, qs, p, s) {
      var q, w :| q in qs && f(w, p).Some? && Worth(q, w, f(w, p).value, s);
      EarnsIsWorth(f, q, w, p, s);
    }
    if EarnsSome(f, qs, p, s) {
      var q, w :| q in qs && Earns(f, q, w, p, s);
      EarnsIsWorth(f, q, w, p, s);
    }
  }

  /** The rankings are those told plainly. */
  lemma RankedMeans(f: Facts, qs: seq<Str>, max: nat, hits: seq<Hit>)
    requires forall q :: q in qs ==> q != []
    ensures Ranked(f, qs, max, hits) <==> RankedPlainly(f, qs, max, hits)
  {
    hide IsScore, BestScore, Found, Scores;
    forall p, s
      ensures IsScore(f, qs, p, s) <==> BestScore(f, qs, p, s)
    {
      ScoreIsBest(f, qs, p, s);
    }
    forall p
      ensures Found(f, qs, p) <==> exists s :: Scores(f, qs, p, s)
    {
      ScoreIsBest(f, qs, p, 0);
    }
    if Ranked(f, qs, max, hits) {
      forall p, s | Scores(f, qs, p, s) && !Listed(hits, p)
        ensures |hits| == max
      {
        assert Found(f, qs, p);
      }
    }
    if RankedPlainly(f, qs, max, hits) {
      forall p | Found(f, qs, p) && !Listed(hits, p)
        ensures |hits| == max
      {
        var s :| Scores(f, qs, p, s);
      }
    }
  }

  /** baloo_index_search: the words a query stands for; none for a blank query. */
  function QueryWords(query: Str): (qs: seq<Str>)
    ensures forall q :: q in qs ==> q != []
  {
    var q := Trimmed(ToLower(query));
    if q == [] then []
    else if Tokens(q) == [] then [q]
    else
      TokensAreTokens(q, 0);
      Tokens(q)
  }

  lemma JoinedReads(words: seq<Str>)
    requires words != [] && forall i :: 0 <= i < |words| ==> IsToken(words[i])
    ensures var text := Joined(words);
            Trimmed(ToLower(text)) == text && text != [] && Tokens(text) == words
  {
    hide *;
    var text := Joined(words);
    JoinedIsTrim(words);
    LoweredIsFixed(text);
    TokensOfJoined(words);
    TrimmedAlready(text);
  }

  /** A query of words and spaces stands for those words. */
  lemma QueryOfWords(words: seq<Str>)
    requires words != [] && forall i :: 0 <= i < |words| ==> IsToken(words[i])
    ensures QueryWords(Joined(words)) == words
  {
    hide Tokens, Trimmed, ToLower, IsToken, Joined;
    JoinedReads(words);
  }

  /** A query without letters and digits stands for itself, without the space around it. */
  lemma QueryOfSigns(query: Str)
    requires forall i :: 0 <= i < |query| ==> !IsLetterOrNumber(query[i])
    ensures exists a, b :: IsInk(query, a, b) && QueryWords(query) == if a == b then [] else [query[a..b]]
  {
    assert ToLower(query) == query;
    var q := Trimmed(query);
    var a, b := TrimsInk(query);
    assert forall k :: !Inked(q, k) by {
      assert forall k :: 0 <= k < |q| ==> q[k] == query[a + k];
    }
    forall x, y
      ensures !IsSpan(q, x, y)
    {
      assert !Inked(q, x);
    }
    forall t
      ensures t !in Tokens(q)
    {
      TokensAreSpans(q, 0, t);
    }
    HasMember(Tokens(q));
    assert IsInk(query, a, b);
  }

  lemma HasMember(words: seq<Str>)
    ensures words != [] ==> exists w :: w in words
  {
    if words != [] {
      assert words[0] in words;
    }
  }

  // ---------------------------------------------------------------- histories

  datatype IndexOp =
    | Add(word: Str, path: Str, relevance: int)
    | Remove(path: Str)
    | Reload

  function Better(known: Option<int>, r: int): int {
    if known.Some? && known.value >= r then known.value else r
  }

  /** What one operation does to the relevance of w for p. */
  function Step(op: IndexOp, w: Str, p: Str, before: Option<int>): Option<int> {
    match op
    case Add(word, path, r) =>
      if word != [] && path != [] && ToLower(word) == w && path == p then Some(Better(before, r)) else before
    case Remove(path) => if path == p then None else before
    case Reload => before
  }

  /** The relevance of w for p after a history, from the operations alone. */
  function Replay(ops: seq<IndexOp>, w: Str, p: Str): Option<int> {
    if ops == [] then None
    else
      var n := |ops| - 1;
      Step(ops[n], w, p, Replay(ops[..n], w, p))
  }

  function History(ops: seq<IndexOp>): Facts {
    (w, p) => Replay(ops, w, p)
  }

  /** ops[i] adds w for p and nothing later removes p. */
  ghost predicate Adds(ops: seq<IndexOp>, i: int, w: Str, p: Str) {
    && 0 <= i < |ops| && ops[i].Add?
    && ops[i].word != [] && ops[i].path != [] && ToLower(ops[i].word) == w && ops[i].path == p
    && forall j :: i < j < |ops| ==> ops[j] != Remove(p)
  }

  /**
   * A pair is recorded exactly when some addition of it was not followed by a
   * removal of its path, and the relevance recorded is the greatest of those.
   */
  lemma {:induction false} ReplayIsGreatestSurvivor(ops: seq<IndexOp>, w: Str, p: Str)
    ensures Replay(ops, w, p).Some? <==> exists i :: Adds(ops, i, w, p)
    ensures Replay(ops, w, p).Some? ==>
              var r := Replay(ops, w, p).value;
              && (exists i :: Adds(ops, i, w, p) && ops[i].relevance == r)
              && (forall i :: Adds(ops, i, w, p) ==> ops[i].relevance <= r)
  {
    if ops != [] {
      var n := |ops| - 1;
      var before := ops[..n];
      ReplayIsGreatestSurvivor(before, w, p);
      if ops[n] == Remove(p) {
        assert forall i :: Adds(ops, i, w, p) ==> i < n;
      } else {
        assert forall i :: 0 <= i < n ==> (Adds(ops, i, w, p) <==> Adds(before, i, w, p));
        if Replay(before, w, p).Some? {
          var i :| Adds(before, i, w, p) && before[i].relevance == Replay(before, w, p).value;
          assert Adds(ops, i, w, p);
        }
        if ops[n].Add? && ops[n].word != [] && ops[n].path != [] && ToLower(ops[n].word) == w && ops[n].path == p {
          assert Adds(ops, n, w, p);
        }
      }
    }
  }

  /**
   * Every listed score comes from an addition that was not removed, by the worth of its
   * word, and no such addition for the path is worth more.
   */
  lemma HitExplained(ops: seq<IndexOp>, qs: seq<Str>, max: nat, hits: seq<Hit>, i: nat)
    requires (forall q :: q in qs ==> q != []) && Ranked(History(ops), qs, max, hits) && i < |hits|
    ensures exists q, k :: q in qs && Survives(ops, k, hits[i].path)
                           && Worth(q, ToLower(ops[k].word), ops[k].relevance, hits[i].score)
    ensures forall q, k, s ::
              (q in qs && Survives(ops, k, hits[i].path) && Worth(q, ToLower(ops[k].word), ops[k].relevance, s)) ==>
                s <= hits[i].score
  {
    hide Worth, Replay, Ranked;
    RankedMeans(History(ops), qs, max, hits);
    var p, s := hits[i].path, hits[i].score;
    assert BestScore(History(ops), qs, p, s);
    var q, w :| q in qs && History(ops)(w, p).Some? && Worth(q, w, Replay(ops, w, p).value, s);
    ReplayIsGreatestSurvivor(ops, w, p);
    var k :| Adds(ops, k, w, p) && ops[k].relevance == Replay(ops, w, p).value;
    assert Survives(ops, k, p);
    forall q, k, s' | q in qs && Survives(ops, k, p) && Worth(q, ToLower(ops[k].word), ops[k].relevance, s')
      ensures s' <= s
    {
      var w := ToLower(ops[k].word);
      assert Adds(ops, k, w, p);
      ReplayIsGreatestSurvivor(ops, w, p);
      var more := Replay(ops, w, p).value - ops[k].relevance;
      WorthGrows(q, w, ops[k].relevance, s', more);
      assert History(ops)(w, p) == Replay(ops, w, p);
      assert Scores(History(ops), qs, p, s' + more);
    }
  }

  lemma WorthGrows(q: Str, w: Str, r: int, s: int, more: int)
    requires Worth(q, w, r, s)
    ensures Worth(q, w, r + more, s + more)
  {
  }

  /** ops[k] adds some word for p and nothing later removes p. */
  ghost predicate Survives(ops: seq<IndexOp>, k: int, p: Str) {
    && 0 <= k < |ops| && ops[k].Add? && ops[k].word != [] && p != [] && ops[k].path == p
    && forall j :: k < j < |ops| ==> ops[j] != Remove(p)
  }

  /** Once removed, a path is found by no query until it is added again. */
  lemma RemovedIsNotFound(ops: seq<IndexOp>, later: seq<IndexOp>, p: Str, qs: seq<Str>)
    requires forall i :: 0 <= i < |later| ==> !(later[i].Add? && later[i].path == p)
    ensures !Found(History(ops + [Remove(p)] + later), qs, p)
  {
    var all := ops + [Remove(p)] + later;
    forall w
      ensures Replay(all, w, p).None?
    {
      ReplayIsGreatestSurvivor(all, w, p);
      forall i
        ensures !Adds(all, i, w, p)
      {
        assert all[|ops|] == Remove(p);
        if |ops| < i < |all| {
          assert all[i] == later[i - |ops| - 1];
        }
      }
    }
  }

  /** Removing one path leaves every other path's score for every query alone. */
  lemma RemovalIsLocal(ops: seq<IndexOp>, p: Str, qs: seq<Str>, p': Str, s: int)
    requires p' != p
    ensures IsScore(History(ops + [Remove(p)]), qs, p', s) <==> IsScore(History(ops), qs, p', s)
  {
    var f, g := History(ops), History(ops + [Remove(p)]);
    assert (ops + [Remove(p)])[..|ops|] == ops;
    assert forall w :: f(w, p') == g(w, p');
    assert forall q, w, s' :: Earns(f, q, w, p', s') <==> Earns(g, q, w, p', s');
  }
}
