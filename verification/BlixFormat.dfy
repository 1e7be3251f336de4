/**
 * The BLIX file of baloo_index_save and baloo_index_load: what is written, what
 * any byte string is read as, and exactly when reading gives back what was saved.
 */
module BlixFormat {
  import opened Text
  import opened DataStream
  import opened IndexModel

  const MAGIC: Str := ['B' as int, 'L' as int, 'I' as int, 'X' as int]
  const VERSION: nat := 1

  // ---------------------------------------------------------------- writing

  function EncodePosting(e: Posting): Str {
    Le(|e.path|, 2) + e.path + Le(Unsigned32(e.relevance), 4)
  }

  function EncodePostings(es: seq<Posting>): Str {
    if es == [] then [] else EncodePosting(es[0]) + EncodePostings(es[1..])
  }

  function EncodeWord(w: Str, es: seq<Posting>): Str {
    Le(|w|, 2) + w + Le(|es|, 4) + EncodePostings(es)
  }

  function EncodeWords(order: seq<Str>, wm: WordMap): Str
    requires forall i :: 0 <= i < |order| ==> order[i] in wm
  {
    if order == [] then [] else EncodeWord(order[0], wm[order[0]]) + EncodeWords(order[1..], wm)
  }

  /** order lists the words of wm, each once: one possible iteration order. */
  ghost predicate Orders(order: seq<Str>, wm: WordMap) {
    && (forall i :: 0 <= i < |order| ==> order[i] in wm)
    && (forall i, j :: 0 <= i < j < |order| ==> order[i] != order[j])
    && (forall w :: w in wm ==> w in order)
  }

  function EncodeIndex(order: seq<Str>, wm: WordMap): Str
    requires forall i :: 0 <= i < |order| ==> order[i] in wm
  {
    MAGIC + Le(VERSION, 4) + Le(|wm|, 4) + EncodeWords(order, wm)
  }

  /** The file holds wm, its words in some order. */
  ghost predicate Encodes(file: Str, wm: WordMap) {
    exists order :: Orders(order, wm) && file == EncodeIndex(order, wm)
  }

  // ---------------------------------------------------------------- reading

  function DecodePosting(s: Str): (r: Read<Posting>)
    ensures |r.rest| <= |s|
  {
    var len := ReadInt(s, 2);
    var path := ReadRaw(len.rest, len.value);
    var rel := ReadInt(path.rest, 4);
    ReadIntBound(path.rest, 4);
    Widths();
    Read(Posting(path.value, Signed32(rel.value)), rel.rest, rel.ok)
  }

  function DecodePostings(n: nat, s: Str): (r: Read<seq<Posting>>)
    ensures |r.value| == n
    ensures |r.rest| <= |s|
  {
    if n == 0 then Read([], s, true)
    else
      var e := DecodePosting(s);
      var more := DecodePostings(n - 1, e.rest);
      Read([e.value] + more.value, more.rest, more.ok)
  }

  /** What baloo_index_load has built so far. */
  datatype Loaded = Loaded(words: WordMap, paths: set<Str>, total: int)

  function PathSet(es: seq<Posting>): set<Str> {
    set i | 0 <= i < |es| :: es[i].path
  }

  function Insert(acc: Loaded, w: Str, es: seq<Posting>): Loaded {
    Loaded(acc.words[w := es], acc.paths + PathSet(es), acc.total + |es|)
  }

  datatype Entry = Entry(word: Str, postings: seq<Posting>)

  function DecodeEntry(s: Str): (r: Read<Entry>)
    ensures |r.rest| <= |s|
  {
    var len := ReadInt(s, 2);
    var word := ReadRaw(len.rest, len.value);
    var count := ReadInt(word.rest, 4);
    var es := DecodePostings(count.value, count.rest);
    Read(Entry(word.value, es.value), es.rest, es.ok)
  }

  function DecodeWords(n: nat, s: Str, acc: Loaded): Loaded {
    if n == 0 || s == [] then acc
    else
      var e := DecodeEntry(s);
      DecodeWords(n - 1, e.rest, Insert(acc, e.value.word, e.value.postings))
  }

  const NOTHING := Loaded(map[], {}, 0)

  function DecodeIndex(s: Str): Option<Loaded> {
    var magic := ReadRaw(s, 4);
    var version := ReadInt(magic.rest, 4);
    var count := ReadInt(version.rest, 4);
    if !magic.ok || magic.value != MAGIC then None
    else if version.value != VERSION then None
    else Some(DecodeWords(count.value, count.rest, NOTHING))
  }

  // ---------------------------------------------------------------- limits

  predicate PostingFits(e: Posting) {
    |e.path| < U16 && FitsInt32(e.relevance)
  }

  ghost predicate PostingsFit(es: seq<Posting>) {
    |es| < U32 && forall i :: 0 <= i < |es| ==> PostingFits(es[i])
  }

  /** Every length fits the field that stores it. */
  ghost predicate Fits(wm: WordMap) {
    |wm| < U32 && forall w :: w in wm ==> |w| < U16 && PostingsFit(wm[w])
  }

  lemma {:induction false} DecodedPostingsFit(n: nat, s: Str)
    ensures forall i :: 0 <= i < n ==> PostingFits(DecodePostings(n, s).value[i])
  {
    if n != 0 {
      ReadIntBound(s, 2);
      Widths();
      DecodedPostingsFit(n - 1, DecodePosting(s).rest);
    }
  }

  lemma DecodedEntryFits(s: Str)
    ensures |DecodeEntry(s).value.word| < U16 && PostingsFit(DecodeEntry(s).value.postings)
  {
    hide DecodePostings;
    Widths();
    ReadIntBound(s, 2);
    var word := ReadRaw(ReadInt(s, 2).rest, ReadInt(s, 2).value);
    ReadIntBound(word.rest, 4);
    DecodedPostingsFit(ReadInt(word.rest, 4).value, ReadInt(word.rest, 4).rest);
  }

  lemma InsertFits(acc: Loaded, w: Str, es: seq<Posting>)
    requires |acc.words| + 1 < U32 && Fits(acc.words)
    requires |w| < U16 && PostingsFit(es)
    ensures Fits(Insert(acc, w, es).words) && |Insert(acc, w, es).words| <= |acc.words| + 1
  {
    hide PostingsFit;
    var words := acc.words[w := es];
    assert words.Keys == acc.words.Keys + {w};
    assert |words| == |words.Keys| && |acc.words| == |acc.words.Keys|;
  }

  /** Whatever the bytes, what is loaded could have been saved. */
  lemma {:induction false} DecodedWordsFit(n: nat, s: Str, acc: Loaded)
    requires |acc.words| + n < U32
    requires Fits(acc.words)
    ensures Fits(DecodeWords(n, s, acc).words)
  {
    hide DecodeEntry, PostingsFit, Fits, Insert;
    if n != 0 && s != [] {
      var e := DecodeEntry(s);
      DecodedEntryFits(s);
      InsertFits(acc, e.value.word, e.value.postings);
      DecodedWordsFit(n - 1, e.rest, Insert(acc, e.value.word, e.value.postings));
    }
  }

  // ---------------------------------------------------------------- round trip

  lemma ReadBackPosting(e: Posting, tail: Str)
    requires PostingFits(e)
    ensures DecodePosting(EncodePosting(e) + tail) == Read(e, tail, true)
  {
    hide Le, ReadInt, ReadRaw;
    Widths();
    var rel := Le(Unsigned32(e.relevance), 4);
    assert EncodePosting(e) + tail == Le(|e.path|, 2) + (e.path + (rel + tail));
    ReadBackInt(|e.path|, 2, e.path + (rel + tail));
    ReadBackRaw(e.path, rel + tail);
    ReadBackInt(Unsigned32(e.relevance), 4, tail);
    Int32RoundTrip(e.relevance);
  }

  lemma ReadBackOnePosting(n: nat, e: Posting, tail: Str)
    requires n > 0 && PostingFits(e)
    ensures var more := DecodePostings(n - 1, tail);
            DecodePostings(n, EncodePosting(e) + tail) == Read([e] + more.value, more.rest, more.ok)
  {
    ReadBackPosting(e, tail);
  }

  lemma {:induction false} ReadBackPostings(es: seq<Posting>, tail: Str)
    requires forall i :: 0 <= i < |es| ==> PostingFits(es[i])
    ensures DecodePostings(|es|, EncodePostings(es) + tail) == Read(es, tail, true)
  {
    hide EncodePosting, DecodePosting;
    if es == [] {
      assert EncodePostings(es) + tail == tail;
    } else {
      var e, rest := es[0], es[1..];
      var more := EncodePostings(rest) + tail;
      Assoc(EncodePosting(e), EncodePostings(rest), tail);
      ReadBackPostings(rest, tail);
      ReadBackOnePosting(|es|, e, more);
      assert es == [e] + rest;
    }
  }

  lemma ReadBackWord(w: Str, es: seq<Posting>, tail: Str)
    requires |w| < U16 && PostingsFit(es)
    ensures DecodeEntry(EncodeWord(w, es) + tail) == Read(Entry(w, es), tail, true)
  {
    hide EncodePostings, DecodePostings, Le, ReadInt, ReadRaw;
    Widths();
    var body := EncodePostings(es) + tail;
    assert EncodeWord(w, es) + tail == Le(|w|, 2) + (w + (Le(|es|, 4) + body));
    ReadBackInt(|w|, 2, w + (Le(|es|, 4) + body));
    ReadBackRaw(w, Le(|es|, 4) + body);
    ReadBackInt(|es|, 4, body);
    ReadBackPostings(es, tail);
  }

  /** acc is what reading the words in done must give. */
  ghost predicate LoadedSoFar(wm: WordMap, done: set<Str>, acc: Loaded) {
    && done <= wm.Keys
    && acc.words == (map w | w in done :: wm[w])
    && acc.total == Live(acc.words)
    && PathsExact(acc.words, acc.paths)
  }

  lemma InsertKeepsLoaded(wm: WordMap, done: set<Str>, acc: Loaded, w: Str)
    requires LoadedSoFar(wm, done, acc) && w in wm && w !in done
    ensures LoadedSoFar(wm, done + {w}, Insert(acc, w, wm[w]))
  {
    var es := wm[w];
    var acc' := Insert(acc, w, es);
    LiveUpdated(acc.words, w, es);
    forall p
      ensures Find(es, p).Some? <==> p in PathSet(es)
    {
      FindMeans(es, p);
    }
    assert forall x, p :: Lookup(acc'.words, x, p) == if x == w then Find(es, p) else Lookup(acc.words, x, p);
    forall p | p in acc'.paths
      ensures exists x :: Lookup(acc'.words, x, p).Some?
    {
      if p in acc.paths {
        var x :| Lookup(acc.words, x, p).Some?;
        assert Lookup(acc'.words, x, p).Some?;
      } else {
        assert Lookup(acc'.words, w, p).Some?;
      }
    }
  }

  lemma ReadBackOneWord(n: nat, w: Str, es: seq<Posting>, tail: Str, acc: Loaded)
    requires n > 0 && |w| < U16 && PostingsFit(es)
    ensures DecodeWords(n, EncodeWord(w, es) + tail, acc) == DecodeWords(n - 1, tail, Insert(acc, w, es))
  {
    hide DecodeEntry;
    ReadBackWord(w, es, tail);
    assert |EncodeWord(w, es) + tail| >= 2;
  }

  ghost function WordSet(order: seq<Str>): (r: set<Str>)
    ensures forall w :: w in r <==> w in order
  {
    if order == [] then {} else {order[0]} + WordSet(order[1..])
  }

  /** The words of order inserted one by one. */
  ghost function InsertAll(order: seq<Str>, wm: WordMap, acc: Loaded): Loaded
    requires forall i :: 0 <= i < |order| ==> order[i] in wm
  {
    if order == [] then acc else InsertAll(order[1..], wm, Insert(acc, order[0], wm[order[0]]))
  }

  lemma {:induction false} ReadBackWords(order: seq<Str>, wm: WordMap, acc: Loaded)
    requires forall i :: 0 <= i < |order| ==> order[i] in wm
    requires Fits(wm)
    ensures DecodeWords(|order|, EncodeWords(order, wm), acc) == InsertAll(order, wm, acc)
  {
    if order != [] {
      var w, rest := order[0], order[1..];
      ReadBackOneWord(|order|, w, wm[w], EncodeWords(rest, wm), acc);
      ReadBackWords(rest, wm, Insert(acc, w, wm[w]));
    }
  }

  lemma {:induction false} InsertAllLoads(order: seq<Str>, wm: WordMap, done: set<Str>, acc: Loaded)
    requires forall i :: 0 <= i < |order| ==> order[i] in wm && order[i] !in done
    requires forall i, j :: 0 <= i < j < |order| ==> order[i] != order[j]
    requires LoadedSoFar(wm, done, acc)
    ensures LoadedSoFar(wm, done + WordSet(order), InsertAll(order, wm, acc))
  {
    if order == [] {
      assert done + WordSet(order) == done;
    } else {
      var w, rest := order[0], order[1..];
      InsertKeepsLoaded(wm, done, acc, w);
      InsertAllLoads(rest, wm, done + {w}, Insert(acc, w, wm[w]));
      assert (done + {w}) + WordSet(rest) == done + WordSet(order);
    }
  }

  lemma {:induction false} OrderLength(order: seq<Str>, wm: WordMap)
    requires Orders(order, wm)
    ensures |order| == |wm|
  {
    if order == [] {
      assert wm == map[];
    } else {
      var w, rest := order[0], order[1..];
      assert forall x :: x in rest <==> x in order && x != w;
      OrderLength(rest, wm - {w});
      assert wm.Keys == (wm - {w}).Keys + {w};
    }
  }

  /**
   * Loading what was saved, in any iteration order, gives back the same word
   * map exactly when every length and relevance fits its field; the path set
   * and the posting count then come out right too.
   */
  lemma LoadAfterSave(order: seq<Str>, wm: WordMap)
    requires Orders(order, wm)
    ensures DecodeIndex(EncodeIndex(order, wm)).Some?
    ensures DecodeIndex(EncodeIndex(order, wm)).value.words == wm <==> Fits(wm)
    ensures Fits(wm) ==>
              var l := DecodeIndex(EncodeIndex(order, wm)).value;
              PathsExact(wm, l.paths) && l.total == Live(wm)
  {
    hide EncodeWords, DecodeWords, DecodeIndex, EncodeIndex, Le, ReadInt, InsertAll;
    Widths();
    HeaderReadBack(order, wm);
    var tail := Le(|wm|, 4) + EncodeWords(order, wm);
    ReadIntBound(tail, 4);
    DecodedWordsFit(ReadInt(tail, 4).value, ReadInt(tail, 4).rest, NOTHING);
    if Fits(wm) {
      BodyReadBack(order, wm);
      AllInserted(order, wm);
    }
  }

  lemma HeaderReadBack(order: seq<Str>, wm: WordMap)
    requires forall i :: 0 <= i < |order| ==> order[i] in wm
    ensures var count := ReadInt(Le(|wm|, 4) + EncodeWords(order, wm), 4);
            DecodeIndex(EncodeIndex(order, wm)) == Some(DecodeWords(count.value, count.rest, NOTHING))
  {
    hide EncodeWords, DecodeWords, Le, ReadInt, ReadRaw;
    var tail := Le(|wm|, 4) + EncodeWords(order, wm);
    Assoc(MAGIC + Le(VERSION, 4), Le(|wm|, 4), EncodeWords(order, wm));
    Assoc(MAGIC, Le(VERSION, 4), tail);
    ReadBackRaw(MAGIC, Le(VERSION, 4) + tail);
    Widths();
    ReadBackInt(VERSION, 4, tail);
  }

  lemma BodyReadBack(order: seq<Str>, wm: WordMap)
    requires Orders(order, wm) && Fits(wm)
    ensures DecodeIndex(EncodeIndex(order, wm)) == Some(InsertAll(order, wm, NOTHING))
  {
    hide EncodeWords, DecodeWords, DecodeIndex, EncodeIndex, Le, ReadInt;
    Widths();
    HeaderReadBack(order, wm);
    ReadBackInt(|wm|, 4, EncodeWords(order, wm));
    OrderLength(order, wm);
    ReadBackWords(order, wm, NOTHING);
  }

  lemma AllInserted(order: seq<Str>, wm: WordMap)
    requires Orders(order, wm)
    ensures LoadedSoFar(wm, wm.Keys, InsertAll(order, wm, NOTHING))
    ensures InsertAll(order, wm, NOTHING).words == wm
  {
    assert LoadedSoFar(wm, {}, NOTHING);
    hide InsertAll, PathsExact, Live;
    InsertAllLoads(order, wm, {}, NOTHING);
    assert {} + WordSet(order) == wm.Keys;
    assert (map w | w in wm.Keys :: wm[w]) == wm;
  }

  // ---------------------------------------------------------------- byte by byte

  const SAMPLE: WordMap := map[[97] := [Posting([47], 40)]]

  lemma SampleWord()
    ensures EncodeWord([97], SAMPLE[[97]]) == [1, 0, 97, 1, 0, 0, 0, 1, 0, 47, 40, 0, 0, 0]
  {
    hide Le;
    SmallFields(1);
    SmallFields(40);
    var es := SAMPLE[[97]];
    assert EncodePosting(es[0]) == [1, 0, 47, 40, 0, 0, 0];
    assert EncodePostings(es) == EncodePosting(es[0]) + EncodePostings([]);
  }

  lemma OneOnly(order: seq<Str>, w: Str)
    requires w in order && forall i :: 0 <= i < |order| ==> order[i] == w
    ensures (forall i, j :: 0 <= i < j < |order| ==> order[i] != order[j]) ==> order == [w]
  {
    if |order| >= 2 {
      assert order[0] == order[1];
    }
  }

  lemma OneWord(order: seq<Str>, w: Str, es: seq<Posting>)
    requires Orders(order, map[w := es])
    ensures order == [w] && EncodeWords(order, map[w := es]) == EncodeWord(w, es)
  {
    assert w in order;
    OneOnly(order, w);
    assert EncodeWords([w], map[w := es]) == EncodeWord(w, es) + EncodeWords([], map[w := es]);
  }

  /** An index file byte by byte: the word "a" with the path "/" at 40. */
  lemma SampleFile(file: Str)
    requires Encodes(file, SAMPLE)
    ensures file == [66, 76, 73, 88, 1, 0, 0, 0, 1, 0, 0, 0, 1, 0, 97, 1, 0, 0, 0, 1, 0, 47, 40, 0, 0, 0]
  {
    hide Le, EncodeWord, EncodeWords;
    var order :| Orders(order, SAMPLE) && file == EncodeIndex(order, SAMPLE);
    OneWord(order, [97], SAMPLE[[97]]);
    SampleWord();
    SmallFields(1);
    assert |SAMPLE| == 1;
  }

  /** A file is read exactly when it begins with "BLIX" and version 1. */
  lemma ReadExactly(file: Str)
    ensures DecodeIndex(file).Some? <==> |file| >= 8 && file[..8] == [66, 76, 73, 88, 1, 0, 0, 0]
  {
    hide DecodeWords, ValueOf;
    if |file| >= 8 {
      OneInFour(file[4..8]);
      assert file[4..][..4] == file[4..8];
      assert file[..8] == file[..4] + file[4..8];
    }
  }

  /** The file begins with "BLIX", version 1 and the number of words. */
  lemma IndexHeader(file: Str, wm: WordMap)
    requires Encodes(file, wm)
    ensures |file| >= 12 && file[..8] == [66, 76, 73, 88, 1, 0, 0, 0] && file[8..12] == Le(|wm|, 4)
  {
    hide Le, EncodeWords;
    SmallFields(1);
    var order :| Orders(order, wm) && file == EncodeIndex(order, wm);
  }
}
