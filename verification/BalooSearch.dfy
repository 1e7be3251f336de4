/**
 * baloo_index_search: prefix scan, trigram candidates, score aggregation and
 * ranking, proved to return the ranking that a scan of all words defines.
 */
module BalooSearch {
  import opened Text
  import opened IndexModel
  import B = BalooIndex

  /** The words filed under every trigram of q, whatever order they are met in. */
  method CandidateWords(words: set<Str>, tm: TrigramMap, q: Str) returns (candidates: set<Str>)
    requires TrigramsExact(words, tm)
    requires forall w :: w in words ==> IsLowered(w)
    requires q != [] && IsLowered(q)
    ensures forall w :: w in candidates <==> w in words && TrigramsOf(q) <= TrigramsOf(w)
  {
    var trigrams := B.ExtractTrigrams(q);
    LoweredIsFixed(q);
    forall w | w in words
      ensures ToLower(w) == w
    {
      LoweredIsFixed(w);
    }
    candidates := {};
    var first := true;
    var todo := trigrams;
    ghost var done := {};
    while todo != {}
      invariant todo == trigrams - done && done <= trigrams
      invariant first <==> done == {}
      invariant !first ==> forall w :: w in candidates <==> w in words && done <= TrigramsOf(w)
      decreases todo
    {
      var t :| t in todo;
      if t !in tm {
        candidates := {};
        forall w | w in words
          ensures !(trigrams <= TrigramsOf(w))
        {
          assert !Files(tm, t, w);
        }
        return;
      }
      assert forall w :: w in tm[t] <==> Files(tm, t, w);
      candidates := if first then tm[t] else candidates * tm[t];
      first := false;
      todo := todo - {t};
      done := done + {t};
      assert forall w :: done <= TrigramsOf(w) <==> (done - {t} <= TrigramsOf(w) && t in TrigramsOf(w));
    }
    assert first ==> trigrams == {};
    assert trigrams != {} by {
      if |q| >= 3 {
        assert Trigram(q, 0) in trigrams;
      }
    }
    assert done == trigrams;
  }

  /** The indexed words a query word selects: exactly those a plain scan selects. */
  method MatchingWords(wm: WordMap, tm: TrigramMap, q: Str) returns (matching: set<Str>)
    requires WordsOk(wm) && TrigramsExact(wm.Keys, tm)
    requires q != [] && IsLowered(q)
    ensures matching == set w | w in wm && Matches(w, q)
  {
    matching := {};
    var todo := wm.Keys;
    while todo != {}
      invariant todo <= wm.Keys
      invariant forall w :: w in matching <==> w in wm && w !in todo && q <= w
      decreases todo
    {
      var w :| w in todo;
      todo := todo - {w};
      if q <= w {
        matching := matching + {w};
      }
    }
    var candidates := CandidateWords(wm.Keys, tm, q);
    todo := candidates;
    while todo != {}
      invariant todo <= candidates
      invariant forall w :: w in matching <==>
                            w in wm && (q <= w || (w in candidates && w !in todo && Contains(w, q)))
      decreases todo
    {
      var w :| w in todo;
      todo := todo - {w};
      if Contains(w, q) {
        matching := matching + {w};
      }
    }
    forall w | w in wm
      ensures w in matching <==> Matches(w, q)
    {
      CandidateTestIsScan(q, w);
    }
  }

  // ---------------------------------------------------------------- scores

  /** scores keeps for each path the best of the hits seen. */
  ghost predicate BestOf(seen: set<Hit>, scores: map<Str, int>) {
    && (forall p :: p in scores ==> Hit(p, scores[p]) in seen)
    && (forall h :: h in seen ==> h.path in scores && h.score <= scores[h.path])
  }

  function Bump(scores: map<Str, int>, p: Str, s: int): map<Str, int> {
    if p in scores && scores[p] >= s then scores else scores[p := s]
  }

  lemma BumpKeepsBest(seen: set<Hit>, scores: map<Str, int>, h: Hit)
    requires BestOf(seen, scores)
    ensures BestOf(seen + {h}, Bump(scores, h.path, h.score))
  {
  }

  predicate OneOf(es: seq<Posting>, n: nat, bonus: int, h: Hit)
    requires n <= |es|
  {
    exists k :: 0 <= k < n && h == Hit(es[k].path, es[k].relevance + bonus)
  }

  method AddPostings(es: seq<Posting>, bonus: int, scores: map<Str, int>, ghost seen: set<Hit>)
      returns (scores': map<Str, int>, ghost seen': set<Hit>)
    requires BestOf(seen, scores)
    ensures BestOf(seen', scores')
    ensures forall h :: h in seen' <==> h in seen || OneOf(es, |es|, bonus, h)
  {
    hide BestOf, Bump;
    scores', seen' := scores, seen;
    var i := 0;
    while i < |es|
      invariant 0 <= i <= |es|
      invariant BestOf(seen', scores')
      invariant forall h :: h in seen' <==> h in seen || OneOf(es, i, bonus, h)
    {
      ghost var h := Hit(es[i].path, es[i].relevance + bonus);
      BumpKeepsBest(seen', scores', h);
      scores' := Bump(scores', es[i].path, es[i].relevance + bonus);
      seen' := seen' + {h};
      i := i + 1;
    }
  }

  lemma OneOfMeansEarns(wm: WordMap, q: Str, w: Str, h: Hit)
    requires WordsOk(wm) && w in wm && Matches(w, q)
    ensures OneOf(wm[w], |wm[w]|, Bonus(w, q), h) <==> Earns(FactsOf(wm), q, w, h.path, h.score)
  {
    var es := wm[w];
    FindMeans(es, h.path);
    if OneOf(es, |es|, Bonus(w, q), h) {
      var k :| 0 <= k < |es| && h == Hit(es[k].path, es[k].relevance + Bonus(w, q));
      FindAt(es, k);
    }
  }

  method AddWord(wm: WordMap, q: Str, scores: map<Str, int>, matching: set<Str>, ghost seen: set<Hit>)
      returns (scores': map<Str, int>, ghost seen': set<Hit>)
    requires WordsOk(wm)
    requires matching == set w | w in wm && Matches(w, q)
    requires BestOf(seen, scores)
    ensures BestOf(seen', scores')
    ensures forall h :: h in seen' <==> h in seen || exists w :: Earns(FactsOf(wm), q, w, h.path, h.score)
  {
    scores', seen' := scores, seen;
    ghost var f := FactsOf(wm);
    var todo := matching;
    while todo != {}
      invariant todo <= matching
      invariant BestOf(seen', scores')
      invariant forall h :: h in seen' <==>
                            h in seen || exists w :: w in matching - todo && Earns(f, q, w, h.path, h.score)
      decreases todo
    {
      var w :| w in todo;
      ghost var before := seen';
      scores', seen' := AddPostings(wm[w], Bonus(w, q), scores', seen');
      forall h
        ensures h in seen' <==> h in before || Earns(f, q, w, h.path, h.score)
      {
        OneOfMeansEarns(wm, q, w, h);
      }
      todo := todo - {w};
      assert forall x :: x in matching - todo <==> x in matching - (todo + {w}) || x == w;
    }
    assert forall w, p, s :: Earns(f, q, w, p, s) ==> w in matching;
  }

  /** scores holds exactly the paths found, each with its score. */
  ghost predicate ScoresExact(f: Facts, qs: seq<Str>, scores: map<Str, int>) {
    && (forall p :: p in scores <==> Found(f, qs, p))
    && (forall p :: p in scores ==> IsScore(f, qs, p, scores[p]))
  }

  lemma BestIsExact(f: Facts, qs: seq<Str>, seen: set<Hit>, scores: map<Str, int>)
    requires BestOf(seen, scores)
    requires forall h :: h in seen <==> exists q, w :: q in qs && Earns(f, q, w, h.path, h.score)
    ensures ScoresExact(f, qs, scores)
  {
    forall p
      ensures p in scores <==> Found(f, qs, p)
      ensures p in scores ==> IsScore(f, qs, p, scores[p])
    {
      if p in scores {
        var h := Hit(p, scores[p]);
        assert h in seen;
        forall q, w, s | q in qs && Earns(f, q, w, p, s)
          ensures s <= scores[p]
        {
          assert Hit(p, s) in seen;
        }
      }
      if Found(f, qs, p) {
        var q, w, s :| q in qs && Earns(f, q, w, p, s);
        assert Hit(p, s) in seen;
      }
    }
  }

  method CollectScores(wm: WordMap, tm: TrigramMap, qs: seq<Str>) returns (scores: map<Str, int>)
    requires WordsOk(wm) && TrigramsExact(wm.Keys, tm)
    requires forall q :: q in qs ==> q != [] && IsLowered(q)
    ensures ScoresExact(FactsOf(wm), qs, scores)
  {
    scores := map[];
    ghost var seen: set<Hit> := {};
    ghost var f := FactsOf(wm);
    var i := 0;
    while i < |qs|
      invariant 0 <= i <= |qs|
      invariant BestOf(seen, scores)
      invariant forall h :: h in seen <==> exists q, w :: q in qs[..i] && Earns(f, q, w, h.path, h.score)
    {
      var q := qs[i];
      assert q in qs;
      var matching := MatchingWords(wm, tm, q);
      scores, seen := AddWord(wm, q, scores, matching, seen);
      assert qs[..i + 1] == qs[..i] + [q];
      i := i + 1;
    }
    assert qs[..i] == qs;
    BestIsExact(f, qs, seen, scores);
  }

  // ---------------------------------------------------------------- ranking

  ghost predicate Descending(hits: seq<Hit>) {
    forall i, j :: 0 <= i < j < |hits| ==> hits[i].score >= hits[j].score
  }

  ghost predicate Distinct(hits: seq<Hit>) {
    forall i, j :: 0 <= i < j < |hits| ==> hits[i].path != hits[j].path
  }

  /** hits lists the map scores, once per path. */
  ghost predicate Enumerates(hits: seq<Hit>, scores: map<Str, int>) {
    && Distinct(hits)
    && (forall i :: 0 <= i < |hits| ==> hits[i].path in scores && hits[i].score == scores[hits[i].path])
    && (forall p :: p in scores ==> Listed(hits, p))
  }

  method ListScores(scores: map<Str, int>) returns (hits: seq<Hit>)
    ensures Enumerates(hits, scores)
  {
    hits := [];
    var todo := scores.Keys;
    while todo != {}
      invariant todo <= scores.Keys
      invariant Distinct(hits)
      invariant forall i :: 0 <= i < |hits| ==>
                  hits[i].path in scores.Keys - todo && hits[i].score == scores[hits[i].path]
      invariant forall p :: p in scores.Keys - todo ==> Listed(hits, p)
      decreases todo
    {
      var p :| p in todo;
      ghost var before := hits;
      hits := hits + [Hit(p, scores[p])];
      todo := todo - {p};
      assert hits[|before|].path == p;
      forall x | Listed(before, x)
        ensures Listed(hits, x)
      {
        var k :| 0 <= k < |before| && before[k].path == x;
        assert hits[k].path == x;
      }
    }
  }

  /** Where a hit goes in a list sorted best first. */
  function InsertHit(hits: seq<Hit>, h: Hit): (r: seq<Hit>)
    ensures multiset(r) == multiset(hits) + multiset{h}
  {
    if hits == [] || h.score >= hits[0].score then [h] + hits
    else
      assert hits == [hits[0]] + hits[1..];
      [hits[0]] + InsertHit(hits[1..], h)
  }

  lemma {:induction false} InsertKeepsDescending(hits: seq<Hit>, h: Hit)
    requires Descending(hits)
    ensures Descending(InsertHit(hits, h))
  {
    if hits != [] && h.score < hits[0].score {
      var rest := hits[1..];
      InsertKeepsDescending(rest, h);
      var r := InsertHit(rest, h);
      forall k | 0 <= k < |r|
        ensures r[k].score <= hits[0].score
      {
        assert r[k] in multiset(r);
        assert r[k] in rest || r[k] == h;
      }
    }
  }

  /** std::sort by descending score: some sorted permutation. */
  method SortByScore(hits: seq<Hit>) returns (sorted: seq<Hit>)
    ensures Descending(sorted)
    ensures multiset(sorted) == multiset(hits)
  {
    sorted := [];
    var i := 0;
    while i < |hits|
      invariant 0 <= i <= |hits|
      invariant Descending(sorted)
      invariant multiset(sorted) == multiset(hits[..i])
    {
      assert hits[..i + 1] == hits[..i] + [hits[i]];
      InsertKeepsDescending(sorted, hits[i]);
      sorted := InsertHit(sorted, hits[i]);
      i := i + 1;
    }
    assert hits[..i] == hits;
  }

  lemma PermutationEnumerates(hits: seq<Hit>, sorted: seq<Hit>, scores: map<Str, int>)
    requires Enumerates(hits, scores)
    requires multiset(sorted) == multiset(hits)
    ensures Enumerates(sorted, scores)
  {
    forall h
      ensures h in sorted <==> h in hits
    {
      assert h in multiset(sorted) <==> h in multiset(hits);
    }
    forall p | p in scores
      ensures Listed(sorted, p)
    {
      var k :| 0 <= k < |hits| && hits[k].path == p;
      assert hits[k] in sorted;
    }
    forall i, j | 0 <= i < j < |sorted|
      ensures sorted[i].path != sorted[j].path
    {
      assert sorted[i] in hits && sorted[j] in hits;
      if sorted[i].path == sorted[j].path {
        TwiceInMultiset(sorted, i, j);
        OnceInMultiset(hits, sorted[i]);
      }
    }
    forall i | 0 <= i < |sorted|
      ensures sorted[i].path in scores && sorted[i].score == scores[sorted[i].path]
    {
      assert sorted[i] in hits;
    }
  }

  lemma TwiceInMultiset(s: seq<Hit>, i: nat, j: nat)
    requires i < j < |s| && s[i] == s[j]
    ensures multiset(s)[s[i]] >= 2
  {
    assert s == s[..i] + [s[i]] + s[i + 1..j] + [s[j]] + s[j + 1..];
  }

  lemma OnceInMultiset(s: seq<Hit>, h: Hit)
    requires Distinct(s)
    ensures multiset(s)[h] <= 1
  {
    if s != [] {
      assert s == [s[0]] + s[1..];
      OnceInMultiset(s[1..], h);
      if s[0] == h {
        assert h !in s[1..];
      }
    }
  }

  /** The first max of the sorted list are a ranking. */
  lemma TopIsRanked(f: Facts, qs: seq<Str>, scores: map<Str, int>, sorted: seq<Hit>, max: nat)
    requires ScoresExact(f, qs, scores)
    requires Enumerates(sorted, scores) && Descending(sorted)
    ensures var n := if |sorted| < max then |sorted| else max;
            Ranked(f, qs, max, sorted[..n])
  {
    var n := if |sorted| < max then |sorted| else max;
    var hits := sorted[..n];
    forall k | 0 <= k < n
      ensures Listed(hits, sorted[k].path)
    {
      assert hits[k].path == sorted[k].path;
    }
    forall p | Found(f, qs, p) && !Listed(hits, p)
      ensures |hits| == max
    {
      assert p in scores && Listed(sorted, p);
      var k :| 0 <= k < |sorted| && sorted[k].path == p;
      assert k >= n;
    }
    forall p, s, i | IsScore(f, qs, p, s) && !Listed(hits, p) && 0 <= i < |hits|
      ensures s <= hits[i].score
    {
      assert Found(f, qs, p);
      assert p in scores && Listed(sorted, p);
      ScoreUnique(f, qs, p, s, scores[p]);
      var k :| 0 <= k < |sorted| && sorted[k].path == p;
      assert k >= n;
      assert sorted[i].score >= sorted[k].score;
    }
  }

  // ---------------------------------------------------------------- search

  const PATH_SIZE: nat := 1024

  /** A result slot holds at most 1023 bytes of the path. */
  function Clip(p: Str): (r: Str)
    ensures r <= p && (|p| < 1024 ==> r == p) && (|p| >= 1024 ==> |r| == 1023)
  {
    if |p| >= PATH_SIZE then p[..PATH_SIZE - 1] else p
  }

  function Clipped(h: Hit): Hit {
    Hit(Clip(h.path), h.score)
  }

  lemma QueryWordsLowered(query: Str)
    ensures forall q :: q in QueryWords(query) ==> q != [] && IsLowered(q)
  {
    hide TokensFrom, FirstInk, InkEnd;
    LoweredIsFixed(query);
    TokensAreTokens(Trimmed(ToLower(query)), 0);
  }

  /** The ranking baloo_index_search computes before it fills the results. */
  method Rank(wm: WordMap, tm: TrigramMap, query: Str, max: nat) returns (hits: seq<Hit>)
    requires WordsOk(wm) && TrigramsExact(wm.Keys, tm)
    ensures Ranked(FactsOf(wm), QueryWords(query), max, hits)
  {
    var q := Trimmed(ToLower(query));
    var qs: seq<Str> := [];
    if q != [] {
      qs := Tokenize(q);
      if qs == [] {
        qs := [q];
      }
    }
    QueryWordsLowered(query);
    assert qs == QueryWords(query);
    var scores := CollectScores(wm, tm, qs);
    var listed := ListScores(scores);
    var sorted := SortByScore(listed);
    PermutationEnumerates(listed, sorted, scores);
    TopIsRanked(FactsOf(wm), qs, scores, sorted, max);
    var n := if |sorted| < max then |sorted| else max;
    hits := sorted[..n];
  }

  /**
   * baloo_index_search: fills the caller's array with the ranking and returns
   * how many results it wrote.
   */
  method Search(index: B.Index, query: Str, results: array<Hit>, max: int) returns (count: nat, ghost hits: seq<Hit>)
    requires index.Valid()
    requires max <= results.Length
    modifies results
    ensures max <= 0 ==> count == 0
    ensures max > 0 ==> Ranked(FactsOf(index.wordMap), QueryWords(query), max, hits)
    ensures max > 0 ==> RankedPlainly(FactsOf(index.wordMap), QueryWords(query), max, hits)
    ensures count == |hits| <= results.Length
    ensures forall i :: 0 <= i < count ==> results[i] == Clipped(hits[i])
    ensures forall i :: count <= i < results.Length ==> results[i] == old(results[i])
  {
    hide Ranked, RankedPlainly, WordsOk, TrigramsExact, PathsExact, Live, FactsOf, TokensFrom, Trimmed, Clip;
    hits := [];
    count := 0;
    if max <= 0 {
      return;
    }
    var best := Rank(index.wordMap, index.trigramMap, query, max);
    hits := best;
    RankedMeans(FactsOf(index.wordMap), QueryWords(query), max, hits);
    while count < |best|
      invariant count <= |best|
      invariant forall i :: 0 <= i < count ==> results[i] == Clipped(best[i])
      invariant forall i :: count <= i < results.Length ==> results[i] == old(results[i])
    {
      results[count] := Clipped(best[count]);
      count := count + 1;
    }
  }
}
