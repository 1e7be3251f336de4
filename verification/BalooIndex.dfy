/**
 * The index object of userland/kf6/baloo-veridian-index.cpp: its fields are
 * updated in place, and hash containers are walked in an arbitrary order.
 */
module BalooIndex {
  import opened Text
  import opened IndexModel

  /** extractTrigrams: a loop over the lowered word. */
  method ExtractTrigrams(word: Str) returns (trigrams: set<Str>)
    ensures trigrams == TrigramsOf(ToLower(word))
  {
    trigrams := {};
    var lower := ToLower(word);
    if |lower| < 3 {
      if lower != [] {
        trigrams := {lower};
      }
      return;
    }
    var i := 0;
    while i <= |lower| - 3
      invariant 0 <= i <= |lower| - 2
      invariant trigrams == set k | 0 <= k < i :: Trigram(lower, k)
    {
      trigrams := trigrams + {Trigram(lower, i)};
      i := i + 1;
    }
  }

  /** Garbage left by removals is bounded by a quarter of the live postings. */
  predicate GarbageBounded(live: nat, total: int, deletions: int) {
    && deletions >= 0
    && live == total - deletions
    && (deletions == 0 || live > 4 * deletions)
  }

  ghost predicate Added(wm: WordMap, word: Str, path: Str, r: int, wm': WordMap) {
    forall w, p :: Lookup(wm', w, p) == Step(IndexOp.Add(word, path, r), w, p, Lookup(wm, w, p))
  }

  /** trigramMap[t].remove(w), erasing a set that becomes empty. */
  function Unfile(tm: TrigramMap, t: Str, w: Str): TrigramMap {
    if t !in tm then tm
    else if tm[t] - {w} == {} then tm - {t}
    else tm[t := tm[t] - {w}]
  }

  lemma Unfiled(tm: TrigramMap, t: Str, w: Str)
    requires forall k :: k in tm ==> tm[k] != {}
    ensures var tm' := Unfile(tm, t, w);
            && (forall k :: k in tm' ==> tm'[k] != {})
            && (forall k, x :: Files(tm', k, x) <==> (Files(tm, k, x) && !(x == w && k == t)))
  {
    if t in tm {
      assert forall x :: x in tm[t] && x != w ==> x in tm[t] - {w};
    }
  }

  /** The position of path in a posting list, or its length. */
  method PositionOf(entries: seq<Posting>, path: Str) returns (i: nat)
    ensures i <= |entries|
    ensures i < |entries| ==> entries[i].path == path
    ensures i == |entries| ==> Find(entries, path).None?
  {
    i := 0;
    while i < |entries|
      invariant 0 <= i <= |entries|
      invariant forall k :: 0 <= k < i ==> entries[k].path != path
    {
      if entries[i].path == path {
        return;
      }
      i := i + 1;
    }
    FindMeans(entries, path);
  }

  class Index {
    var wordMap: WordMap
    var trigramMap: TrigramMap
    var allPaths: set<Str>
    var deletionCount: int
    var totalEntries: int

    /** What every operation keeps. */
    ghost predicate Valid()
      reads this
    {
      && WordsOk(wordMap)
      && TrigramsExact(wordMap.Keys, trigramMap)
      && PathsExact(wordMap, allPaths)
      && GarbageBounded(Live(wordMap), totalEntries, deletionCount)
    }

    /** The index holds what the operations so far say. */
    ghost predicate Holds(ops: seq<IndexOp>)
      reads this
    {
      forall w, p :: Lookup(wordMap, w, p) == Replay(ops, w, p)
    }

    /** baloo_index_create */
    constructor ()
      ensures Valid() && Holds([])
      ensures wordMap == map[] && trigramMap == map[] && allPaths == {}
      ensures deletionCount == 0 && totalEntries == 0
    {
      wordMap, trigramMap, allPaths := map[], map[], {};
      deletionCount, totalEntries := 0, 0;
    }

    /** for tri in trigrams: trigramMap[tri].insert(w) */
    method FileTrigrams(w: Str, ghost words: set<Str>)
      requires TrigramsExact(words, trigramMap)
      modifies this`trigramMap
      ensures TrigramsExact(words + {w}, trigramMap)
    {
      var trigrams := ExtractTrigrams(w);
      ghost var before := trigramMap;
      var todo := trigrams;
      while todo != {}
        invariant todo <= trigrams
        invariant forall t :: t in trigramMap ==> trigramMap[t] != {}
        invariant forall t, x ::
                    Files(trigramMap, t, x) <==> (Files(before, t, x) || (x == w && t in trigrams - todo))
        decreases todo
        modifies this`trigramMap
      {
        var t :| t in todo;
        ghost var was := trigramMap;
        trigramMap := trigramMap[t := (if t in trigramMap then trigramMap[t] else {}) + {w}];
        todo := todo - {t};
        assert forall t', x :: Files(trigramMap, t', x) <==> (Files(was, t', x) || (x == w && t' == t));
      }
    }

    /** baloo_index_add */
    method Add(word: Str, path: Str, relevance: int)
      requires Valid()
      modifies this
      ensures Valid()
      ensures Added(old(wordMap), word, path, relevance, wordMap)
      ensures wordMap.Keys <= old(wordMap.Keys) + {ToLower(word)}
    {
      hide WordsOk, TrigramsExact, PathsExact, Live;
      var w := ToLower(word);
      LoweredIsFixed(word);
      if w == [] || path == [] {
        return;
      }
      ghost var was := wordMap;
      var entries := if w in wordMap then wordMap[w] else [];
      var i := PositionOf(entries, path);
      if i < |entries| {
        if entries[i].relevance < relevance {
          wordMap := wordMap[w := entries[i := Posting(path, relevance)]];
        }
        Raised(was, allPaths, word, i, relevance);
        return;
      }
      wordMap := wordMap[w := entries + [Posting(path, relevance)]];
      totalEntries := totalEntries + 1;
      FileTrigrams(w, was.Keys);
      allPaths := allPaths + {path};
      Appended(was, old(allPaths), word, path, relevance);
      assert wordMap.Keys == was.Keys + {w};
    }

    /** The body of the compaction loop: forget one word without postings. */
    method DropWord(w: Str)
      requires w in wordMap && wordMap[w] == []
      requires WordsOk(wordMap)
      requires TrigramsExact(wordMap.Keys, trigramMap)
      modifies this`wordMap, this`trigramMap
      ensures wordMap == old(wordMap) - {w}
      ensures TrigramsExact(wordMap.Keys, trigramMap)
    {
      var trigrams := ExtractTrigrams(w);
      ghost var before := trigramMap;
      var todo := trigrams;
      while todo != {}
        invariant todo <= trigrams
        invariant forall t :: t in trigramMap ==> trigramMap[t] != {}
        invariant forall t, x ::
                    Files(trigramMap, t, x) <==> (Files(before, t, x) && !(x == w && t in trigrams - todo))
        decreases todo
        modifies this`trigramMap
      {
        var t :| t in todo;
        ghost var was := trigramMap;
        trigramMap := Unfile(trigramMap, t, w);
        todo := todo - {t};
        Unfiled(was, t, w);
      }
      wordMap := wordMap - {w};
    }

    /** The first loop of compactIndex: words without postings go. */
    method DropEmptyWords()
      requires WordsOk(wordMap) && TrigramsExact(wordMap.Keys, trigramMap)
      modifies this`wordMap, this`trigramMap
      ensures TrigramsExact(wordMap.Keys, trigramMap)
      ensures wordMap.Keys <= old(wordMap.Keys)
      ensures forall w :: w in wordMap ==> wordMap[w] == old(wordMap)[w]
      ensures forall w :: w in old(wordMap) ==> (w in wordMap <==> old(wordMap)[w] != [])
      ensures Live(wordMap) == Live(old(wordMap))
    {
      ghost var was := wordMap;
      var todo := wordMap.Keys;
      while todo != {}
        invariant todo <= wordMap.Keys <= was.Keys
        invariant forall w :: w in wordMap ==> wordMap[w] == was[w]
        invariant forall w :: w in was && (w in todo || was[w] != []) ==> w in wordMap
        invariant forall w :: w in wordMap && w !in todo ==> was[w] != []
        invariant TrigramsExact(wordMap.Keys, trigramMap)
        invariant Live(wordMap) == Live(was)
        decreases todo
      {
        var w :| w in todo;
        todo := todo - {w};
        if wordMap[w] == [] {
          LiveSplit(wordMap, w);
          DropWord(w);
        }
      }
    }

    /** The second loop of compactIndex. */
    method Recount()
      modifies this`totalEntries
      ensures totalEntries == Live(wordMap)
    {
      totalEntries := 0;
      var todo := wordMap.Keys;
      ghost var counted := {};
      assert wordMap - counted == wordMap;
      while todo != {}
        invariant todo == wordMap.Keys - counted && counted <= wordMap.Keys
        invariant totalEntries + Live(wordMap - counted) == Live(wordMap)
        decreases todo
      {
        var w :| w in todo;
        totalEntries := totalEntries + |wordMap[w]|;
        LiveSplit(wordMap - counted, w);
        assert wordMap - counted - {w} == wordMap - (counted + {w});
        counted := counted + {w};
        todo := todo - {w};
      }
      assert wordMap - counted == map[];
    }

    /** compactIndex, with the 0.20 threshold read as the fraction one fifth. */
    method Compact()
      requires WordsOk(wordMap) && TrigramsExact(wordMap.Keys, trigramMap)
      requires deletionCount >= 0 && Live(wordMap) == totalEntries - deletionCount
      modifies this`wordMap, this`trigramMap, this`totalEntries, this`deletionCount
      ensures WordsOk(wordMap) && TrigramsExact(wordMap.Keys, trigramMap)
      ensures GarbageBounded(Live(wordMap), totalEntries, deletionCount)
      ensures forall w, p :: Lookup(wordMap, w, p) == Lookup(old(wordMap), w, p)
      ensures wordMap.Keys <= old(wordMap.Keys)
      ensures 5 * old(deletionCount) < old(totalEntries) ==> wordMap == old(wordMap)
      ensures 5 * old(deletionCount) >= old(totalEntries) > 0 ==>
                deletionCount == 0 && forall w :: w in wordMap ==> wordMap[w] != []
    {
      if totalEntries == 0 {
        return;
      }
      if 5 * deletionCount < totalEntries {
        return;
      }
      DropEmptyWords();
      Recount();
      deletionCount := 0;
    }

    /** The scan of baloo_index_remove_file over all posting lists. */
    method ClearPostings(path: Str)
      requires WordsOk(wordMap)
      requires deletionCount >= 0 && Live(wordMap) == totalEntries - deletionCount
      modifies this`wordMap, this`deletionCount
      ensures WordsOk(wordMap) && wordMap.Keys == old(wordMap.Keys)
      ensures deletionCount >= 0 && Live(wordMap) == totalEntries - deletionCount
      ensures forall w, p :: Lookup(wordMap, w, p) == Step(Remove(path), w, p, Lookup(old(wordMap), w, p))
    {
      hide WordsOk, Live, Lookup, Without;
      ghost var was := wordMap;
      var todo := wordMap.Keys;
      while todo != {}
        invariant todo <= wordMap.Keys == was.Keys
        invariant forall w :: w in was ==> wordMap[w] == if w in todo then was[w] else Without(was[w], path)
        invariant deletionCount >= 0 && Live(wordMap) == totalEntries - deletionCount
        decreases todo
      {
        var w :| w in todo;
        todo := todo - {w};
        var entries := Without(wordMap[w], path);
        var removed := |wordMap[w]| - |entries|;
        LiveUpdated(wordMap, w, entries);
        wordMap := wordMap[w := entries];
        if removed > 0 {
          deletionCount := deletionCount + removed;
        }
      }
      Cleared(was, wordMap, path);
    }

    /** baloo_index_remove_file */
    method RemoveFile(path: Str)
      requires Valid()
      modifies this
      ensures Valid()
      ensures forall w, p :: Lookup(wordMap, w, p) == Step(Remove(path), w, p, old(Lookup(wordMap, w, p)))
      ensures wordMap.Keys <= old(wordMap.Keys)
    {
      hide WordsOk, TrigramsExact, PathsExact, Live, Lookup;
      ghost var was := wordMap;
      ClearPostings(path);
      ghost var cleared := wordMap;
      allPaths := allPaths - {path};
      Compact();
      assert forall w, p :: Lookup(wordMap, w, p) == Lookup(cleared, w, p);
      PathsCleared(was, wordMap, old(allPaths), path);
    }

    /** baloo_index_get_count */
    method GetCount() returns (n: nat)
      requires Valid()
      ensures n == |allPaths|
      ensures forall p :: p in allPaths <==> exists w :: Lookup(wordMap, w, p).Some?
    {
      n := |allPaths|;
    }
  }

  // ---------------------------------------------------------------- lemmas

  lemma Raised(wm: WordMap, paths: set<Str>, word: Str, i: nat, r: int)
    requires WordsOk(wm) && ToLower(word) in wm && i < |wm[ToLower(word)]| && PathsExact(wm, paths)
    ensures var w := ToLower(word);
            var path := wm[w][i].path;
            var wm' := if wm[w][i].relevance < r then wm[w := wm[w][i := Posting(path, r)]] else wm;
            && WordsOk(wm') && Live(wm') == Live(wm) && PathsExact(wm', paths) && wm'.Keys == wm.Keys
            && Added(wm, word, path, r, wm')
  {
    var w := ToLower(word);
    var es := wm[w];
    var es' := es[i := Posting(es[i].path, r)];
    FindAt(es, i);
    forall p
      ensures Find(es', p) == if p == es[i].path then Some(r) else Find(es, p)
      ensures DistinctPaths(es')
    {
      FindUpdated(es, i, r, p);
    }
    LiveUpdated(wm, w, es');
    var wm' := if es[i].relevance < r then wm[w := es'] else wm;
    assert forall x, p :: Lookup(wm', x, p).Some? <==> Lookup(wm, x, p).Some?;
    assert PostingsOk(es');
  }

  lemma Appended(wm: WordMap, paths: set<Str>, word: Str, path: Str, r: int)
    requires WordsOk(wm) && PathsExact(wm, paths)
    requires word != [] && path != [] && Lookup(wm, ToLower(word), path).None?
    ensures var w := ToLower(word);
            var wm' := wm[w := (if w in wm then wm[w] else []) + [Posting(path, r)]];
            && WordsOk(wm') && Live(wm') == Live(wm) + 1
            && PathsExact(wm', paths + {path})
            && Added(wm, word, path, r, wm')
  {
    var w := ToLower(word);
    LoweredIsFixed(word);
    var es := if w in wm then wm[w] else [];
    var es' := es + [Posting(path, r)];
    var wm' := wm[w := es'];
    forall p
      ensures Find(es', p) == if p == path then Some(r) else Find(es, p)
      ensures DistinctPaths(es')
    {
      FindAppended(es, Posting(path, r), p);
    }
    assert PostingsOk(es');
    LiveUpdated(wm, w, es');
    assert Lookup(wm', w, path).Some?;
    assert forall x, p :: Lookup(wm', x, p) == if x == w && p == path then Some(r) else Lookup(wm, x, p);
    forall p | p in paths
      ensures exists x :: Lookup(wm', x, p).Some?
    {
      var x :| Lookup(wm, x, p).Some?;
      assert Lookup(wm', x, p).Some?;
    }
  }

  lemma PathsCleared(wm: WordMap, wm': WordMap, paths: set<Str>, path: Str)
    requires PathsExact(wm, paths)
    requires forall w, p :: Lookup(wm', w, p) == Step(Remove(path), w, p, Lookup(wm, w, p))
    ensures PathsExact(wm', paths - {path})
  {
    forall p | p in paths && p != path
      ensures exists x :: Lookup(wm', x, p).Some?
    {
      var x :| Lookup(wm, x, p).Some?;
      assert Lookup(wm', x, p).Some?;
    }
  }

  lemma Cleared(wm: WordMap, wm': WordMap, path: Str)
    requires WordsOk(wm)
    requires wm'.Keys == wm.Keys
    requires forall w :: w in wm ==> wm'[w] == Without(wm[w], path)
    ensures WordsOk(wm')
    ensures forall w, p :: Lookup(wm', w, p) == Step(Remove(path), w, p, Lookup(wm, w, p))
  {
    forall w | w in wm'
      ensures w != [] && IsLowered(w) && PostingsOk(wm'[w])
    {
      WithoutKeepsDistinct(wm[w], path);
      WithoutMeans(wm[w], path);
      assert forall i :: 0 <= i < |wm'[w]| ==> wm'[w][i] in wm[w];
    }
    forall w, p | w in wm
      ensures Find(wm'[w], p) == if p == path then None else Find(wm[w], p)
    {
      FindWithout(wm[w], path, p);
    }
  }
}
