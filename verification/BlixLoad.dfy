/**
 * What the loader of userland/kf6/baloo-veridian-index.cpp makes of arbitrary bytes:
 * it checks nothing about the entries it reads, so the index it builds is a valid one
 * exactly when the entries are sane.
 */
module BlixLoad {
  import opened Text
  import opened DataStream
  import opened IndexModel
  import opened BlixFormat

  /** The entries read, at most n. */
  function Decoded(n: nat, s: Str): seq<Entry> {
    if n == 0 || s == [] then [] else [DecodeEntry(s).value] + Decoded(n - 1, DecodeEntry(s).rest)
  }

  /** The entries of an index file. */
  function EntriesOf(file: Str): seq<Entry> {
    var count := ReadInt(ReadInt(ReadRaw(file, 4).rest, 4).rest, 4);
    Decoded(count.value, count.rest)
  }

  /** What inserting the entries in turn builds; a word that comes again replaces its postings. */
  function Built(es: seq<Entry>): Loaded {
    if es == [] then NOTHING
    else
      var n := |es| - 1;
      Insert(Built(es[..n]), es[n].word, es[n].postings)
  }

  lemma {:induction false} DecodingBuilds(n: nat, s: Str, es: seq<Entry>)
    ensures DecodeWords(n, s, Built(es)) == Built(es + Decoded(n, s))
  {
    hide DecodeEntry, Insert;
    if n == 0 || s == [] {
      assert es + Decoded(n, s) == es;
    } else {
      var e := DecodeEntry(s);
      assert (es + [e.value])[..|es|] == es;
      DecodingBuilds(n - 1, e.rest, es + [e.value]);
      Assoc(es, [e.value], Decoded(n - 1, e.rest));
    }
  }

  lemma DecodedIsBuilt(file: Str)
    ensures DecodeIndex(file).Some? ==> DecodeIndex(file).value == Built(EntriesOf(file))
  {
    hide DecodeWords, Decoded, Built, ReadRaw, ReadInt;
    var count := ReadInt(ReadInt(ReadRaw(file, 4).rest, 4).rest, 4);
    DecodingBuilds(count.value, count.rest, []);
    NothingBuilt();
    assert [] + EntriesOf(file) == EntriesOf(file);
  }

  lemma NothingBuilt()
    ensures Built([]) == NOTHING
  {
  }

  // ---------------------------------------------------------------- when it is valid

  ghost predicate EntryOk(e: Entry) {
    e.word != [] && IsLowered(e.word) && PostingsOk(e.postings)
  }

  /** An entry whose word comes again later has no postings. */
  ghost predicate NoneLost(es: seq<Entry>) {
    forall i, j :: 0 <= i < j < |es| && es[i].word == es[j].word ==> es[i].postings == []
  }

  /** Words are non-empty and lowered, paths non-empty and distinct, and no replaced entry had postings. */
  ghost predicate Sane(es: seq<Entry>) {
    NoneLost(es) && forall i :: 0 <= i < |es| ==> EntryOk(es[i])
  }

  /** The words and postings, paths and total of a valid index. */
  ghost predicate Proper(l: Loaded) {
    WordsOk(l.words) && PathsExact(l.words, l.paths) && l.total == Live(l.words)
  }

  /** i is the last entry for its word. */
  ghost predicate IsLast(es: seq<Entry>, i: int) {
    0 <= i < |es| && forall j :: i < j < |es| ==> es[j].word != es[i].word
  }

  /** The map holds, for every word that occurs, the postings of its last entry. */
  lemma {:induction false} LastWins(es: seq<Entry>, w: Str)
    ensures w in Built(es).words <==> exists i :: IsLast(es, i) && es[i].word == w
    ensures forall i :: IsLast(es, i) && es[i].word == w ==>
              w in Built(es).words && Built(es).words[w] == es[i].postings
  {
    if es != [] {
      var n := |es| - 1;
      var rest := es[..n];
      LastWins(rest, w);
      assert IsLast(es, n);
      forall i | 0 <= i < n && es[i].word == w && es[n].word != w
        ensures IsLast(es, i) <==> IsLast(rest, i)
      {
        if IsLast(rest, i) {
          forall j | i < j < |es|
            ensures es[j].word != es[i].word
          {
            assert j < n ==> rest[j] == es[j];
          }
        }
      }
      if w in Built(rest).words && w != es[n].word {
        var i :| IsLast(rest, i) && rest[i].word == w;
        assert IsLast(es, i);
      }
    }
  }

  lemma {:induction false} HasLast(es: seq<Entry>, i: nat) returns (k: nat)
    requires i < |es|
    ensures i <= k && IsLast(es, k) && es[k].word == es[i].word
    decreases |es| - i
  {
    if IsLast(es, i) {
      k := i;
    } else {
      var j :| i < j < |es| && es[j].word == es[i].word;
      k := HasLast(es, j);
    }
  }

  /** The total counts replaced postings too. */
  lemma {:induction false} TotalExcess(es: seq<Entry>)
    ensures Built(es).total >= Live(Built(es).words)
    ensures Built(es).total == Live(Built(es).words) <==> NoneLost(es)
  {
    if es == [] {
      assert Live(map[]) == 0;
    } else {
      hide Live, Built;
      var n := |es| - 1;
      var rest, w := es[..n], es[n].word;
      TotalExcess(rest);
      var b := Built(rest);
      BuiltStep(es);
      LiveUpdated(b.words, w, es[n].postings);
      assert NoneLost(es) ==> NoneLost(rest);
      if NoneLost(rest) {
        LostHere(es);
      }
    }
  }

  lemma BuiltStep(es: seq<Entry>)
    requires es != []
    ensures var n := |es| - 1;
            Built(es) == Insert(Built(es[..n]), es[n].word, es[n].postings)
  {
  }

  /** The last entry replaces postings exactly when an earlier entry for its word is lost by it. */
  lemma LostHere(es: seq<Entry>)
    requires es != [] && NoneLost(es[..|es| - 1])
    ensures var n := |es| - 1;
            var words := Built(es[..n]).words;
            NoneLost(es) <==> (es[n].word in words ==> words[es[n].word] == [])
  {
    hide Built;
    var n := |es| - 1;
    var rest, w := es[..n], es[n].word;
    LastWins(rest, w);
    var words := Built(rest).words;
    if w in words {
      var k :| IsLast(rest, k) && rest[k].word == w;
      assert es[k] == rest[k];
      if words[w] == [] {
        forall i, j | 0 <= i < j < |es| && es[i].word == es[j].word
          ensures es[i].postings == []
        {
          assert rest[i] == es[i];
          if j < n {
            assert rest[j] == es[j];
          } else if i < k {
            assert rest[i].word == rest[k].word;
          }
        }
      }
    } else {
      forall i, j | 0 <= i < j < |es| && es[i].word == es[j].word
        ensures es[i].postings == []
      {
        if j == n {
          var k := HasLast(rest, i);
        }
        assert rest[i] == es[i];
      }
    }
  }

  /** Words and postings are fine exactly when those of the last entries are. */
  lemma WordsOfLast(es: seq<Entry>)
    ensures WordsOk(Built(es).words) <==> forall i :: IsLast(es, i) ==> EntryOk(es[i])
  {
    hide Built, IsLowered, PostingsOk;
    var words := Built(es).words;
    if WordsOk(words) {
      forall i | IsLast(es, i)
        ensures EntryOk(es[i])
      {
        LastWins(es, es[i].word);
      }
    }
    if forall i :: IsLast(es, i) ==> EntryOk(es[i]) {
      forall w | w in words
        ensures w != [] && IsLowered(w) && PostingsOk(words[w])
      {
        LastWins(es, w);
        var i :| IsLast(es, i) && es[i].word == w;
      }
    }
  }

  lemma {:induction false} PathsOfEntries(es: seq<Entry>, p: Str)
    ensures p in Built(es).paths <==> exists i :: 0 <= i < |es| && p in PathSet(es[i].postings)
  {
    hide PathSet;
    if es != [] {
      var n := |es| - 1;
      PathsOfEntries(es[..n], p);
      if i :| 0 <= i < |es| && p in PathSet(es[i].postings) {
        assert i < n ==> es[..n][i] == es[i];
      }
    }
  }

  lemma FindIsPath(ps: seq<Posting>, p: Str)
    ensures Find(ps, p).Some? <==> p in PathSet(ps)
    ensures ps == [] ==> p !in PathSet(ps)
  {
    FindMeans(ps, p);
  }

  /** When nothing was lost the paths are those of the map. */
  lemma PathsKept(es: seq<Entry>)
    requires NoneLost(es)
    ensures PathsExact(Built(es).words, Built(es).paths)
  {
    hide Built, PathSet, Find;
    var b := Built(es);
    forall w, p | Lookup(b.words, w, p).Some?
      ensures p in b.paths
    {
      LastWins(es, w);
      var i :| IsLast(es, i) && es[i].word == w;
      FindIsPath(es[i].postings, p);
      PathsOfEntries(es, p);
    }
    forall p | p in b.paths
      ensures exists w :: Lookup(b.words, w, p).Some?
    {
      PathsOfEntries(es, p);
      var i :| 0 <= i < |es| && p in PathSet(es[i].postings);
      FindIsPath(es[i].postings, p);
      var k := HasLast(es, i);
      LastWins(es, es[i].word);
      assert Lookup(b.words, es[i].word, p).Some?;
    }
  }

  /** What the loader builds is proper exactly when the entries are sane. */
  lemma ProperExactly(es: seq<Entry>)
    ensures Proper(Built(es)) <==> Sane(es)
  {
    hide Built, Live, PathsExact, WordsOk, EntryOk;
    TotalExcess(es);
    WordsOfLast(es);
    if NoneLost(es) {
      PathsKept(es);
      if forall i :: IsLast(es, i) ==> EntryOk(es[i]) {
        forall i | 0 <= i < |es|
          ensures EntryOk(es[i])
        {
          var k := HasLast(es, i);
          LostEntryOk(es, i, k);
        }
      }
    }
  }

  lemma LostEntryOk(es: seq<Entry>, i: nat, k: nat)
    requires NoneLost(es) && i <= k < |es| && es[k].word == es[i].word && EntryOk(es[k])
    ensures EntryOk(es[i])
  {
  }
}
