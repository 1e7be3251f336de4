/**
 * Saving and loading the index object, and whole runs of it: after any sequence
 * of additions, removals and reloads the object is valid and holds exactly what
 * the sequence says.
 */
module BalooStore {
  import opened Text
  import opened DataStream
  import opened IndexModel
  import opened BlixFormat
  import opened BlixLoad
  import B = BalooIndex

  // ---------------------------------------------------------------- save

  lemma {:induction false} EncodePostingsAppend(es: seq<Posting>, e: Posting)
    ensures EncodePostings(es + [e]) == EncodePostings(es) + EncodePosting(e)
  {
    if es == [] {
      assert EncodePostings([e]) == EncodePosting(e) + EncodePostings([]);
      assert [] + [e] == [e];
    } else {
      assert (es + [e])[1..] == es[1..] + [e];
      EncodePostingsAppend(es[1..], e);
    }
  }

  lemma {:induction false} EncodeWordsAppend(order: seq<Str>, w: Str, wm: WordMap)
    requires w in wm && forall i :: 0 <= i < |order| ==> order[i] in wm
    ensures EncodeWords(order + [w], wm) == EncodeWords(order, wm) + EncodeWord(w, wm[w])
  {
    if order == [] {
      assert EncodeWords([w], wm) == EncodeWord(w, wm[w]) + EncodeWords([], wm);
      assert [] + [w] == [w];
    } else {
      assert (order + [w])[1..] == order[1..] + [w];
      EncodeWordsAppend(order[1..], w, wm);
    }
  }

  lemma EncodeNoPostings()
    ensures EncodePostings([]) == []
  {
  }

  lemma EncodeNoWords(wm: WordMap)
    ensures EncodeWords([], wm) == []
  {
  }

  /** The loop body of baloo_index_save for one word. */
  method WriteWord(file: Str, w: Str, es: seq<Posting>) returns (file': Str)
    ensures file' == file + EncodeWord(w, es)
  {
    hide EncodePostings, Le;
    EncodeNoPostings();
    var head := Le(|w|, 2) + w + Le(|es|, 4);
    file' := file + head;
    var i := 0;
    assert es[..0] == [];
    while i < |es|
      invariant 0 <= i <= |es|
      invariant file' == file + head + EncodePostings(es[..i])
    {
      var e := es[i];
      assert es[..i + 1] == es[..i] + [e];
      EncodePostingsAppend(es[..i], e);
      Assoc(file + head, EncodePostings(es[..i]), EncodePosting(e));
      file' := file' + EncodePosting(e);
      i := i + 1;
    }
    assert es[..i] == es;
    Assoc(file, head, EncodePostings(es));
  }

  /** baloo_index_save: the bytes written, walking the word map in any order. */
  method Save(wm: WordMap) returns (file: Str)
    ensures Encodes(file, wm)
  {
    hide EncodeWords, EncodeWord, Le;
    file := MAGIC + Le(VERSION, 4) + Le(|wm|, 4);
    ghost var head := file;
    ghost var order: seq<Str> := [];
    var todo := wm.Keys;
    EncodeNoWords(wm);
    while todo != {}
      invariant todo <= wm.Keys
      invariant forall i :: 0 <= i < |order| ==> order[i] in wm && order[i] !in todo
      invariant forall i, j :: 0 <= i < j < |order| ==> order[i] != order[j]
      invariant forall w :: w in wm ==> w in todo || w in order
      invariant file == head + EncodeWords(order, wm)
      decreases todo
    {
      var w :| w in todo;
      todo := todo - {w};
      file := WriteWord(file, w, wm[w]);
      EncodeWordsAppend(order, w, wm);
      Assoc(head, EncodeWords(order, wm), EncodeWord(w, wm[w]));
      order := order + [w];
    }
    assert Orders(order, wm) && file == EncodeIndex(order, wm);
  }

  // ---------------------------------------------------------------- load

  method ReadPostings(n: nat, s: Str) returns (es: seq<Posting>, rest: Str)
    ensures DecodePostings(n, s).value == es && DecodePostings(n, s).rest == rest
  {
    hide DecodePosting;
    es, rest := [], s;
    var p := 0;
    while p < n
      invariant 0 <= p <= n
      invariant DecodePostings(n, s).value == es + DecodePostings(n - p, rest).value
      invariant DecodePostings(n, s).rest == DecodePostings(n - p, rest).rest
    {
      var e := DecodePosting(rest);
      Assoc(es, [e.value], DecodePostings(n - p - 1, e.rest).value);
      es, rest := es + [e.value], e.rest;
      p := p + 1;
    }
  }

  /** The loop body of baloo_index_load: one word and its postings. */
  method ReadWord(index: B.Index, s: Str) returns (rest: Str)
    requires TrigramsExact(index.wordMap.Keys, index.trigramMap)
    modifies index`wordMap, index`trigramMap, index`allPaths, index`totalEntries
    ensures TrigramsExact(index.wordMap.Keys, index.trigramMap)
    ensures var e := DecodeEntry(s);
            && rest == e.rest
            && index.wordMap == old(index.wordMap)[e.value.word := e.value.postings]
            && index.allPaths == old(index.allPaths) + PathSet(e.value.postings)
            && index.totalEntries == old(index.totalEntries) + |e.value.postings|
  {
    var len := ReadInt(s, 2);
    var word := ReadRaw(len.rest, len.value);
    var paths := ReadInt(word.rest, 4);
    var es;
    es, rest := ReadPostings(paths.value, paths.rest);
    ghost var keys := index.wordMap.Keys;
    index.allPaths := index.allPaths + PathSet(es);
    index.wordMap := index.wordMap[word.value := es];
    index.totalEntries := index.totalEntries + |es|;
    index.FileTrigrams(word.value, keys);
    assert index.wordMap.Keys == keys + {word.value};
  }

  /** The word loop of baloo_index_load. */
  method ReadWords(count: nat, bytes: Str) returns (index: B.Index)
    ensures fresh(index) && index.deletionCount == 0
    ensures Loaded(index.wordMap, index.allPaths, index.totalEntries) == DecodeWords(count, bytes, NOTHING)
    ensures TrigramsExact(index.wordMap.Keys, index.trigramMap)
  {
    hide DecodeEntry, ReadInt, ReadRaw, TrigramsExact, PathSet, WordsOk, PathsExact, Live;
    index := new B.Index();
    var rest := bytes;
    var w := 0;
    ghost var acc := NOTHING;
    while w < count && rest != []
      invariant 0 <= w <= count
      invariant fresh(index) && index.deletionCount == 0
      invariant TrigramsExact(index.wordMap.Keys, index.trigramMap)
      invariant acc.words == index.wordMap && acc.paths == index.allPaths && acc.total == index.totalEntries
      invariant DecodeWords(count, bytes, NOTHING) == DecodeWords(count - w, rest, acc)
    {
      ghost var e := DecodeEntry(rest).value;
      acc := Insert(acc, e.word, e.postings);
      rest := ReadWord(index, rest);
      w := w + 1;
    }
  }

  /** baloo_index_load, on any bytes; the index is valid exactly when the entries read are sane. */
  method Load(file: Str) returns (index: B.Index?)
    ensures index == null <==> DecodeIndex(file).None?
    ensures index != null ==>
              && fresh(index)
              && Some(Loaded(index.wordMap, index.allPaths, index.totalEntries)) == DecodeIndex(file)
              && index.deletionCount == 0
              && TrigramsExact(index.wordMap.Keys, index.trigramMap)
              && (index.Valid() <==> Sane(EntriesOf(file)))
  {
    hide DecodeWords, ReadInt, ReadRaw, TrigramsExact, WordsOk, PathsExact, Live, Sane, EntriesOf, Built;
    var magic := ReadRaw(file, 4);
    if !magic.ok || magic.value != MAGIC {
      return null;
    }
    var version := ReadInt(magic.rest, 4);
    if version.value != VERSION {
      return null;
    }
    var count := ReadInt(version.rest, 4);
    index := ReadWords(count.value, count.rest);
    DecodedIsBuilt(file);
    ProperExactly(EntriesOf(file));
  }

  lemma PathsDetermined(wm: WordMap, paths: set<Str>, paths': set<Str>)
    requires PathsExact(wm, paths) && PathsExact(wm, paths')
    ensures paths == paths'
  {
    forall p
      ensures p in paths <==> p in paths'
    {
    }
  }

  /** Saving and loading: same postings, same paths, the same trigram map rebuilt. */
  method Reload(index: B.Index) returns (loaded: B.Index)
    requires index.Valid() && Fits(index.wordMap)
    ensures fresh(loaded) && loaded.Valid()
    ensures loaded.wordMap == index.wordMap
    ensures loaded.trigramMap == index.trigramMap
    ensures loaded.allPaths == index.allPaths
    ensures loaded.deletionCount == 0
  {
    var file := Save(index.wordMap);
    ghost var order :| Orders(order, index.wordMap) && file == EncodeIndex(order, index.wordMap);
    LoadAfterSave(order, index.wordMap);
    var found := Load(file);
    loaded := found;
    TrigramsDetermined(index.wordMap.Keys, index.trigramMap, loaded.trigramMap);
    PathsDetermined(index.wordMap, index.allPaths, loaded.allPaths);
  }

  // ---------------------------------------------------------------- runs

  /** The operation's words, paths and relevances fit the file format. */
  predicate OpFits(op: IndexOp) {
    op.Add? ==> |op.word| < U16 && |op.path| < U16 && FitsInt32(op.relevance)
  }

  function AddedWords(ops: seq<IndexOp>): (r: set<Str>)
    ensures |r| <= |ops|
  {
    if ops == [] then {}
    else
      var n := |ops| - 1;
      AddedWords(ops[..n]) + (if ops[n].Add? then {ToLower(ops[n].word)} else {})
  }

  function AddedPaths(ops: seq<IndexOp>): (r: set<Str>)
    ensures |r| <= |ops|
  {
    if ops == [] then {}
    else
      var n := |ops| - 1;
      AddedPaths(ops[..n]) + (if ops[n].Add? then {ops[n].path} else {})
  }

  lemma {:induction false} AddedMembers(ops: seq<IndexOp>, i: nat)
    requires i < |ops| && ops[i].Add?
    ensures ToLower(ops[i].word) in AddedWords(ops) && ops[i].path in AddedPaths(ops)
  {
    if i < |ops| - 1 {
      AddedMembers(ops[..|ops| - 1], i);
    }
  }

  lemma {:induction false} AddedWordsShort(ops: seq<IndexOp>, w: Str)
    requires forall i :: 0 <= i < |ops| ==> OpFits(ops[i])
    requires w in AddedWords(ops)
    ensures |w| < U16
  {
    var n := |ops| - 1;
    if w in AddedWords(ops[..n]) {
      AddedWordsShort(ops[..n], w);
    }
  }

  lemma {:induction false} DistinctCount(es: seq<Posting>)
    requires DistinctPaths(es)
    ensures |PathSet(es)| == |es|
  {
    if es == [] {
      assert PathSet(es) == {};
    } else {
      hide PathSet;
      var n := |es| - 1;
      DistinctCount(es[..n]);
      PathSetLast(es);
    }
  }

  lemma PathSetLast(es: seq<Posting>)
    requires es != []
    ensures var n := |es| - 1;
            && PathSet(es) == PathSet(es[..n]) + {es[n].path}
            && (DistinctPaths(es) ==> es[n].path !in PathSet(es[..n]))
  {
    var n := |es| - 1;
    assert es == es[..n] + [es[n]];
    forall p
      ensures p in PathSet(es) <==> p in PathSet(es[..n]) || p == es[n].path
    {
      if p in PathSet(es) {
        var k :| 0 <= k < |es| && es[k].path == p;
        assert k < n ==> es[..n][k].path == p;
      }
    }
  }

  lemma SubsetCount(a: set<Str>, b: set<Str>)
    requires a <= b
    ensures |a| <= |b|
  {
    assert b == a + (b - a);
  }

  /** A run of fitting operations always leaves an index that can be saved. */
  lemma RunsFit(ops: seq<IndexOp>, wm: WordMap)
    requires |ops| < U32 && forall i :: 0 <= i < |ops| ==> OpFits(ops[i])
    requires WordsOk(wm) && wm.Keys <= AddedWords(ops)
    requires forall w, p :: Lookup(wm, w, p) == Replay(ops, w, p)
    ensures Fits(wm)
  {
    SubsetCount(wm.Keys, AddedWords(ops));
    forall w | w in wm
      ensures |w| < U16 && PostingsFit(wm[w])
    {
      AddedWordsShort(ops, w);
      var es := wm[w];
      forall i | 0 <= i < |es|
        ensures PostingFits(es[i]) && es[i].path in AddedPaths(ops)
      {
        PostingFromOp(ops, wm, w, i);
      }
      DistinctCount(es);
      SubsetCount(PathSet(es), AddedPaths(ops));
    }
  }

  lemma PostingFromOp(ops: seq<IndexOp>, wm: WordMap, w: Str, i: nat)
    requires forall k :: 0 <= k < |ops| ==> OpFits(ops[k])
    requires WordsOk(wm) && w in wm && i < |wm[w]|
    requires forall x, p :: Lookup(wm, x, p) == Replay(ops, x, p)
    ensures PostingFits(wm[w][i]) && wm[w][i].path in AddedPaths(ops)
  {
    var e := wm[w][i];
    FindAt(wm[w], i);
    assert Lookup(wm, w, e.path) == Replay(ops, w, e.path);
    ReplayIsGreatestSurvivor(ops, w, e.path);
    var k :| Adds(ops, k, w, e.path) && ops[k].relevance == e.relevance;
    AddedMembers(ops, k);
  }

  /** One operation of a run; a reload puts the loaded index in place of the old. */
  method Perform(index: B.Index, op: IndexOp, ghost ops: seq<IndexOp>) returns (index': B.Index)
    requires op.Reload? ==> |ops| < U32 && forall i :: 0 <= i < |ops| ==> OpFits(ops[i])
    requires index.Valid() && index.Holds(ops) && index.wordMap.Keys <= AddedWords(ops)
    modifies index
    ensures index' == index || fresh(index')
    ensures index'.Valid() && index'.wordMap.Keys <= AddedWords(ops + [op])
    ensures forall w, p :: Lookup(index'.wordMap, w, p) == Step(op, w, p, Replay(ops, w, p))
  {
    index' := index;
    ghost var before := index.wordMap;
    assert forall w, p :: Lookup(before, w, p) == Replay(ops, w, p);
    assert (ops + [op])[..|ops|] == ops;
    match op {
      case Add(w, p, r) =>
        index.Add(w, p, r);
      case Remove(p) =>
        index.RemoveFile(p);
      case Reload =>
        RunsFit(ops, index.wordMap);
        index' := Reload(index);
    }
  }

  /** Whatever a reload of the run saves fits the file format. */
  predicate ReloadsFit(ops: seq<IndexOp>) {
    forall i, j :: 0 <= i < j < |ops| && ops[j].Reload? ==> j < U32 && OpFits(ops[i])
  }

  /** Any run: the index stays valid and holds what the operations say. */
  method Execute(ops: seq<IndexOp>) returns (index: B.Index)
    requires ReloadsFit(ops)
    ensures fresh(index) && index.Valid()
    ensures index.Holds(ops)
  {
    hide WordsOk, TrigramsExact, PathsExact, Live, Lookup;
    index := new B.Index();
    var i := 0;
    while i < |ops|
      invariant 0 <= i <= |ops|
      invariant fresh(index) && index.Valid()
      invariant index.Holds(ops[..i])
      invariant index.wordMap.Keys <= AddedWords(ops[..i])
    {
      assert ops[..i] + [ops[i]] == ops[..i + 1];
      assert ops[..i + 1][..i] == ops[..i];
      assert ops[i].Reload? && i > 0 ==> OpFits(ops[0]);
      index := Perform(index, ops[i], ops[..i]);
      i := i + 1;
    }
    assert ops[..i] == ops;
  }

  /** After any run, a search ranks by the history of operations alone. */
  lemma SearchSeesHistory(ops: seq<IndexOp>, wm: WordMap, qs: seq<Str>, max: nat, hits: seq<Hit>)
    requires forall w, p :: Lookup(wm, w, p) == Replay(ops, w, p)
    ensures Ranked(FactsOf(wm), qs, max, hits) <==> Ranked(History(ops), qs, max, hits)
  {
    forall w, p
      ensures FactsOf(wm)(w, p) == History(ops)(w, p)
    {
      assert Lookup(wm, w, p) == Replay(ops, w, p);
    }
    SameFactsSameRanking(FactsOf(wm), History(ops), qs, max, hits);
  }
}
