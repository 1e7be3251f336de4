/**
 * The indexer as its users see it: index a file, then search.
 */
module BalooEndToEnd {
  import opened Text
  import opened IndexModel
  import opened BalooBackend
  import B = BalooIndex
  import S = BalooSearch
  import BalooStore

  /** The paths of the index are those its history records. */
  lemma PathsFromHistory(wm: WordMap, paths: set<Str>, ops: seq<IndexOp>)
    requires PathsExact(wm, paths)
    requires forall w, p :: Lookup(wm, w, p) == Replay(ops, w, p)
    ensures forall w, p :: Replay(ops, w, p).Some? ==> p in paths
  {
    forall w, p | Replay(ops, w, p).Some?
      ensures p in paths
    {
      assert Lookup(wm, w, p).Some?;
    }
  }

  /** The array lists the file, its path cut to the field, with at least this score. */
  ghost predicate Reported(results: seq<Hit>, count: nat, path: Str, score: int) {
    exists i :: 0 <= i < count <= |results| && results[i].path == S.Clip(path) && results[i].score >= score
  }

  /**
   * After a readable file has been indexed, on top of any history, searching a word
   * that is a token of its name, its base name or a word of its content, with room for
   * all indexed paths, reports the file with at least 100, 90 or 60.
   */
  method IndexThenSearch(index: B.Index, f: File, t: Str, results: array<Hit>, ghost ops: seq<IndexOp>)
      returns (count: nat)
    requires index.Valid() && index.Holds(ops)
    requires f.readable && f.path != []
    modifies index, results
    ensures index.Valid() && index.Holds(ops + FileOps(f))
    ensures |index.allPaths| <= results.Length && SpanOf(f.name, 0, t) ==> Reported(results[..], count, f.path, 100)
    ensures |index.allPaths| <= results.Length && NamesBase(f, t) && IsToken(t) ==>
              Reported(results[..], count, f.path, 90)
    ensures |index.allPaths| <= results.Length && HoldsRun(f, t) ==> Reported(results[..], count, f.path, 60)
  {
    hide WordsOk, TrigramsExact, Live, FileOps, Ranked, RankedPlainly, Replay, SpanOf, NamesBase, HoldsRun;
    IndexSingleFile(index, f, ops);
    ghost var hits;
    count, hits := S.Search(index, t, results, results.Length);
    WordsDue(f, t);
    if |index.allPaths| <= results.Length && IsToken(t) && Plain(f, t).Some? {
      ghost var all := ops + FileOps(f);
      PathsFromHistory(index.wordMap, index.allPaths, all);
      FileEffect(ops, f, t, f.path);
      assert f.path in index.allPaths;
      BalooStore.SearchSeesHistory(all, index.wordMap, QueryWords(t), results.Length, hits);
      KnownIsFound(all, t, f.path, index.allPaths, results.Length, hits);
      Shown(results[..], hits, count, f.path, Plain(f, t).value + 20);
    }
  }

  /** What is due for the words of a file; those of name and content are tokens. */
  lemma WordsDue(f: File, t: Str)
    ensures SpanOf(f.name, 0, t) ==> IsToken(t) && Plain(f, t) == Some(80)
    ensures NamesBase(f, t) ==> Plain(f, t).Some? && Plain(f, t).value >= 70
    ensures HoldsRun(f, t) ==> IsToken(t) && Plain(f, t).Some? && Plain(f, t).value >= 40
  {
    hide SpanOf, NamesBase, HoldsRun, ContentFrom, TokensFrom;
    TokensAreTokens(f.name, 0);
    TokensAreSpans(f.name, 0, t);
    HoldsRunIs(f, t);
    ContentWordsAreRuns(ReadPart(f.content), 0, {}, t);
  }

  lemma Shown(results: seq<Hit>, hits: seq<Hit>, count: nat, path: Str, score: int)
    requires count == |hits| <= |results| && forall i :: 0 <= i < count ==> results[i] == S.Clipped(hits[i])
    requires exists i :: 0 <= i < |hits| && hits[i].path == path && hits[i].score >= score
    ensures forall s :: s <= score ==> Reported(results, count, path, s)
  {
    var i :| 0 <= i < |hits| && hits[i].path == path && hits[i].score >= score;
    assert results[i] == S.Clipped(hits[i]);
  }
}
