/**
 * The wallet file of userland/kf6/kwallet-veridian-backend.cpp: serialize and
 * deserialize, the keystream, and the file around them.
 */
module WalletFormat {
  import opened Text
  import opened DataStream

  // ---------------------------------------------------------------- data

  /** WalletEntry; kind is the EntryType as the 32-bit integer it is stored as. */
  datatype Entry = Entry(key: Str, value: Str, kind: nat)

  datatype Folder = Folder(name: Str, entries: map<Str, Entry>)

  type Folders = map<Str, Folder>

  ghost predicate EntriesKeyed(entries: map<Str, Entry>) {
    forall k :: k in entries ==> entries[k].key == k
  }

  /** Each folder and each entry stores the key it is filed under. */
  ghost predicate WellKeyed(folders: Folders) {
    forall f :: f in folders ==> folders[f].name == f && EntriesKeyed(folders[f].entries)
  }

  const MAX_FOLDERS: nat := 1000
  const MAX_NAME: nat := 10000
  const MAX_ENTRIES: nat := 100000
  const MAX_KEY: nat := 10000
  const MAX_VALUE: nat := 10000000

  predicate EntryCapped(e: Entry) {
    |e.key| <= MAX_KEY && e.kind < U32 && |e.value| <= MAX_VALUE
  }

  ghost predicate EntriesCapped(entries: map<Str, Entry>) {
    |entries| <= MAX_ENTRIES && forall k :: k in entries ==> EntryCapped(entries[k])
  }

  /** The limits deserialize enforces. */
  ghost predicate Capped(folders: Folders) {
    && |folders| <= MAX_FOLDERS
    && forall f :: f in folders ==> |folders[f].name| <= MAX_NAME && EntriesCapped(folders[f].entries)
  }

  /** The limits, number by number. */
  lemma CappedMeans(folders: Folders)
    ensures Capped(folders) <==>
              && |folders| <= 1000
              && forall f :: f in folders ==>
                   && |folders[f].name| <= 10000 && |folders[f].entries| <= 100000
                   && forall k :: k in folders[f].entries ==>
                        var e := folders[f].entries[k];
                        |e.key| <= 10000 && |e.value| <= 10000000 && e.kind < 0x1_0000_0000
  {
  }

  // ---------------------------------------------------------------- writing

  /** order lists the keys of m, each once. */
  ghost predicate Lists<V>(order: seq<Str>, m: map<Str, V>) {
    && (forall i :: 0 <= i < |order| ==> order[i] in m)
    && (forall i, j :: 0 <= i < j < |order| ==> order[i] != order[j])
    && (forall k :: k in m ==> k in order)
  }

  function EncodeEntry(e: Entry): Str {
    Le(|e.key|, 4) + e.key + Le(e.kind, 4) + Le(|e.value|, 4) + e.value
  }

  function EncodeEntries(order: seq<Str>, entries: map<Str, Entry>): Str
    requires forall i :: 0 <= i < |order| ==> order[i] in entries
  {
    if order == [] then []
    else
      var n := |order| - 1;
      EncodeEntries(order[..n], entries) + EncodeEntry(entries[order[n]])
  }

  function EncodeFolder(f: Folder, order: seq<Str>): Str
    requires forall i :: 0 <= i < |order| ==> order[i] in f.entries
  {
    Le(|f.name|, 4) + f.name + Le(|f.entries|, 4) + EncodeEntries(order, f.entries)
  }

  /** One iteration order of the folders and, for each folder, of its entries. */
  datatype Order = Order(folders: seq<Str>, entries: map<Str, seq<Str>>)

  ghost predicate OrderFits(o: Order, folders: Folders) {
    forall i :: 0 <= i < |o.folders| ==>
      && o.folders[i] in folders && o.folders[i] in o.entries
      && Lists(o.entries[o.folders[i]], folders[o.folders[i]].entries)
  }

  ghost function EncodeFolders(o: Order, folders: Folders): Str
    requires OrderFits(o, folders)
    decreases |o.folders|
  {
    if o.folders == [] then []
    else
      var n := |o.folders| - 1;
      var f := o.folders[n];
      EncodeFolders(o.(folders := o.folders[..n]), folders) + EncodeFolder(folders[f], o.entries[f])
  }

  ghost function Serialized(o: Order, folders: Folders): Str
    requires OrderFits(o, folders)
  {
    Le(|folders|, 4) + EncodeFolders(o, folders)
  }

  /** data is the wallet serialized in some order of folders and entries. */
  ghost predicate Serializes(data: Str, folders: Folders) {
    exists o :: Orders(o, folders) && data == Serialized(o, folders)
  }

  ghost predicate Orders(o: Order, folders: Folders) {
    OrderFits(o, folders) && Lists(o.folders, folders)
  }

  // ---------------------------------------------------------------- reading

  function DecodeEntry(s: Str): (r: Option<Read<Entry>>)
    ensures r.Some? ==> |r.value.rest| <= |s| && EntryCapped(r.value.value)
  {
    var keyLen := ReadInt(s, 4);
    if !keyLen.ok || keyLen.value > MAX_KEY then None
    else
      var key := ReadRaw(keyLen.rest, keyLen.value);
      var kind := ReadInt(key.rest, 4);
      var valueLen := ReadInt(kind.rest, 4);
      if !valueLen.ok || valueLen.value > MAX_VALUE then None
      else
        var value := ReadRaw(valueLen.rest, valueLen.value);
        ReadIntBound(key.rest, 4);
        Widths();
        Some(Read(Entry(key.value, value.value, kind.value), value.rest, value.ok))
  }

  function DecodeEntries(n: nat, s: Str, acc: map<Str, Entry>): (r: Option<Read<map<Str, Entry>>>) {
    if n == 0 then Some(Read(acc, s, true))
    else
      var e := DecodeEntry(s);
      if e.None? then None
      else DecodeEntries(n - 1, e.value.rest, acc[e.value.value.key := e.value.value])
  }

  function DecodeFolder(s: Str): Option<Read<Folder>> {
    var nameLen := ReadInt(s, 4);
    if !nameLen.ok || nameLen.value > MAX_NAME then None
    else
      var name := ReadRaw(nameLen.rest, nameLen.value);
      var count := ReadInt(name.rest, 4);
      if !count.ok || count.value > MAX_ENTRIES then None
      else
        var es := DecodeEntries(count.value, count.rest, map[]);
        if es.None? then None
        else Some(Read(Folder(name.value, es.value.value), es.value.rest, es.value.ok))
  }

  /** The verdict of deserialize and what it left in m_folders. */
  datatype Parsed = Parsed(ok: bool, folders: Folders)

  function DecodeFolders(n: nat, s: Str, acc: Folders): Parsed {
    if n == 0 then Parsed(true, acc)
    else
      var f := DecodeFolder(s);
      if f.None? then Parsed(false, acc)
      else DecodeFolders(n - 1, f.value.rest, acc[f.value.value.name := f.value.value])
  }

  function Deserialized(s: Str): Parsed {
    var count := ReadInt(s, 4);
    if !count.ok || count.value > MAX_FOLDERS then Parsed(false, map[])
    else DecodeFolders(count.value, count.rest, map[])
  }

  // ---------------------------------------------------------------- reading is capped and keyed

  lemma CountAfterUpdate<V>(m: map<Str, V>, k: Str, v: V)
    ensures |m[k := v]| <= |m| + 1
  {
    assert m[k := v].Keys == m.Keys + {k};
    assert |m[k := v]| == |m[k := v].Keys| && |m| == |m.Keys|;
  }

  lemma {:induction false} DecodedEntriesOk(n: nat, s: Str, acc: map<Str, Entry>)
    requires |acc| + n <= MAX_ENTRIES
    requires EntriesCapped(acc) && EntriesKeyed(acc)
    ensures DecodeEntries(n, s, acc).Some? ==>
              EntriesCapped(DecodeEntries(n, s, acc).value.value) && EntriesKeyed(DecodeEntries(n, s, acc).value.value)
  {
    hide DecodeEntry;
    if n != 0 && DecodeEntry(s).Some? {
      var e := DecodeEntry(s).value;
      CountAfterUpdate(acc, e.value.key, e.value);
      DecodedEntriesOk(n - 1, e.rest, acc[e.value.key := e.value]);
    }
  }

  lemma DecodedFolderOk(s: Str)
    ensures DecodeFolder(s).Some? ==>
              var f := DecodeFolder(s).value.value;
              |f.name| <= MAX_NAME && EntriesCapped(f.entries) && EntriesKeyed(f.entries)
  {
    hide DecodeEntries;
    if DecodeFolder(s).Some? {
      var name := ReadRaw(ReadInt(s, 4).rest, ReadInt(s, 4).value);
      var count := ReadInt(name.rest, 4);
      DecodedEntriesOk(count.value, count.rest, map[]);
    }
  }

  /** Whatever the bytes, what is read obeys the caps and stores its own keys. */
  lemma {:induction false} DecodedFoldersOk(n: nat, s: Str, acc: Folders)
    requires |acc| + n <= MAX_FOLDERS
    requires Capped(acc) && WellKeyed(acc)
    ensures Capped(DecodeFolders(n, s, acc).folders) && WellKeyed(DecodeFolders(n, s, acc).folders)
  {
    hide DecodeFolder, EntriesCapped, EntriesKeyed;
    if n != 0 && DecodeFolder(s).Some? {
      var f := DecodeFolder(s).value;
      DecodedFolderOk(s);
      CountAfterUpdate(acc, f.value.name, f.value);
      DecodedFoldersOk(n - 1, f.rest, acc[f.value.name := f.value]);
    }
  }

  lemma DeserializedOk(s: Str)
    ensures Capped(Deserialized(s).folders) && WellKeyed(Deserialized(s).folders)
  {
    hide DecodeFolders;
    var count := ReadInt(s, 4);
    if count.ok && count.value <= MAX_FOLDERS {
      DecodedFoldersOk(count.value, count.rest, map[]);
    }
  }

  // ---------------------------------------------------------------- reading back

  lemma ReadBackEntry(e: Entry, tail: Str)
    requires EntryCapped(e)
    ensures DecodeEntry(EncodeEntry(e) + tail) == Some(Read(e, tail, true))
  {
    hide Le, ReadInt, ReadRaw;
    Widths();
    var d := e.value + tail;
    var c := Le(|e.value|, 4) + d;
    var b := Le(e.kind, 4) + c;
    var a := e.key + b;
    assert EncodeEntry(e) + tail == Le(|e.key|, 4) + a;
    ReadBackInt(|e.key|, 4, a);
    ReadBackRaw(e.key, b);
    ReadBackInt(e.kind, 4, c);
    ReadBackInt(|e.value|, 4, d);
    ReadBackRaw(e.value, tail);
  }

  ghost function Restrict<V>(m: map<Str, V>, order: seq<Str>): map<Str, V>
    requires forall i :: 0 <= i < |order| ==> order[i] in m
  {
    map k | k in order :: m[k]
  }

  lemma RestrictAll<V>(m: map<Str, V>, order: seq<Str>)
    requires Lists(order, m)
    ensures Restrict(m, order) == m
  {
  }

  lemma RestrictMore<V>(m: map<Str, V>, order: seq<Str>, n: nat)
    requires n < |order| && forall i :: 0 <= i < |order| ==> order[i] in m
    ensures Restrict(m, order[..n + 1]) == Restrict(m, order[..n])[order[n] := m[order[n]]]
  {
    assert forall k :: k in order[..n + 1] <==> k in order[..n] || k == order[n];
  }

  lemma {:induction false} ListsCount<V>(order: seq<Str>, m: map<Str, V>)
    requires Lists(order, m)
    ensures |order| == |m|
  {
    if order == [] {
      assert m == map[];
    } else {
      var n := |order| - 1;
      var k, rest := order[n], order[..n];
      assert forall x :: x in rest <==> x in order && x != k;
      ListsCount(rest, m - {k});
      assert m.Keys == (m - {k}).Keys + {k};
    }
  }

  /** Reading n entries and then more is reading them all. */
  lemma {:induction false} DecodeEntriesMore(n: nat, s: Str, acc: map<Str, Entry>)
    requires DecodeEntries(n, s, acc).Some?
    ensures var r := DecodeEntries(n, s, acc).value;
            DecodeEntries(n + 1, s, acc) == DecodeEntries(1, r.rest, r.value)
  {
    hide DecodeEntry;
    if n != 0 {
      var e := DecodeEntry(s).value;
      DecodeEntriesMore(n - 1, e.rest, acc[e.value.key := e.value]);
    }
  }

  lemma {:induction false} ReadBackEntries(order: seq<Str>, entries: map<Str, Entry>, tail: Str)
    requires forall i :: 0 <= i < |order| ==> order[i] in entries
    requires EntriesKeyed(entries) && EntriesCapped(entries)
    ensures DecodeEntries(|order|, EncodeEntries(order, entries) + tail, map[])
            == Some(Read(Restrict(entries, order), tail, true))
  {
    hide DecodeEntry, EncodeEntry;
    if order == [] {
      assert EncodeEntries(order, entries) + tail == tail;
      assert Restrict(entries, order) == map[];
    } else {
      var n := |order| - 1;
      var rest, e := order[..n], entries[order[n]];
      var more := EncodeEntry(e) + tail;
      Assoc(EncodeEntries(rest, entries), EncodeEntry(e), tail);
      ReadBackEntries(rest, entries, more);
      DecodeEntriesMore(n, EncodeEntries(rest, entries) + more, map[]);
      ReadBackEntry(e, tail);
      OneMoreEntry(more, Restrict(entries, rest), e, tail);
      RestrictMore(entries, order, n);
      assert order[..n + 1] == order;
    }
  }

  lemma OneMoreEntry(s: Str, acc: map<Str, Entry>, e: Entry, tail: Str)
    requires DecodeEntry(s) == Some(Read(e, tail, true))
    ensures DecodeEntries(1, s, acc) == Some(Read(acc[e.key := e], tail, true))
  {
    hide DecodeEntry;
    assert DecodeEntries(0, tail, acc[e.key := e]) == Some(Read(acc[e.key := e], tail, true));
  }

  lemma ReadBackFolder(f: Folder, order: seq<Str>, tail: Str)
    requires Lists(order, f.entries)
    requires |f.name| <= MAX_NAME && EntriesKeyed(f.entries) && EntriesCapped(f.entries)
    ensures DecodeFolder(EncodeFolder(f, order) + tail) == Some(Read(f, tail, true))
  {
    hide Le, ReadInt, ReadRaw, EncodeEntries, DecodeEntries;
    Widths();
    var c := EncodeEntries(order, f.entries) + tail;
    var b := Le(|f.entries|, 4) + c;
    var a := f.name + b;
    assert EncodeFolder(f, order) + tail == Le(|f.name|, 4) + a;
    ReadBackInt(|f.name|, 4, a);
    ReadBackRaw(f.name, b);
    ReadBackInt(|f.entries|, 4, c);
    ListsCount(order, f.entries);
    ReadBackEntries(order, f.entries, tail);
    RestrictAll(f.entries, order);
  }

  /** Reading n folders from s succeeds, gives done, and leaves rest. */
  ghost predicate Reads(n: nat, s: Str, acc: Folders, done: Folders, rest: Str) {
    if n == 0 then acc == done && s == rest
    else
      var f := DecodeFolder(s);
      f.Some? && Reads(n - 1, f.value.rest, acc[f.value.value.name := f.value.value], done, rest)
  }

  lemma {:induction false} ReadsOneMore(n: nat, s: Str, acc: Folders, done: Folders, rest: Str, f: Folder, tail: Str)
    requires Reads(n, s, acc, done, rest)
    requires DecodeFolder(rest) == Some(Read(f, tail, true))
    ensures Reads(n + 1, s, acc, done[f.name := f], tail)
  {
    hide DecodeFolder;
    if n == 0 {
      assert Reads(0, tail, done[f.name := f], done[f.name := f], tail);
    } else {
      var g := DecodeFolder(s).value;
      ReadsOneMore(n - 1, g.rest, acc[g.value.name := g.value], done, rest, f, tail);
    }
  }

  lemma {:induction false} ReadsDecodes(n: nat, s: Str, acc: Folders, done: Folders, rest: Str)
    requires Reads(n, s, acc, done, rest)
    ensures DecodeFolders(n, s, acc) == Parsed(true, done)
  {
    hide DecodeFolder;
    if n != 0 {
      var f := DecodeFolder(s).value;
      ReadsDecodes(n - 1, f.rest, acc[f.value.name := f.value], done, rest);
    }
  }

  lemma {:induction false} ReadBackFolders(o: Order, folders: Folders, tail: Str)
    requires OrderFits(o, folders)
    requires WellKeyed(folders) && Capped(folders)
    ensures Reads(|o.folders|, EncodeFolders(o, folders) + tail, map[], Restrict(folders, o.folders), tail)
    decreases |o.folders|
  {
    hide DecodeFolder, EncodeFolder;
    if o.folders == [] {
      assert EncodeFolders(o, folders) + tail == tail;
      assert Restrict(folders, o.folders) == map[];
    } else {
      var n := |o.folders| - 1;
      var name := o.folders[n];
      var f, order := folders[name], o.entries[name];
      var o' := o.(folders := o.folders[..n]);
      var more := EncodeFolder(f, order) + tail;
      Assoc(EncodeFolders(o', folders), EncodeFolder(f, order), tail);
      ReadBackFolders(o', folders, more);
      ReadBackFolder(f, order, tail);
      ReadsOneMore(n, EncodeFolders(o', folders) + more, map[], Restrict(folders, o'.folders), more, f, tail);
      RestrictMore(folders, o.folders, n);
      assert o.folders[..n + 1] == o.folders;
    }
  }

  /**
   * Reading back a serialized wallet, whatever the iteration orders, gives the
   * same folders exactly when they are within the caps.
   */
  lemma DeserializeAfterSerialize(o: Order, folders: Folders)
    requires Orders(o, folders) && WellKeyed(folders)
    ensures Deserialized(Serialized(o, folders)) == Parsed(true, folders) <==> Capped(folders)
  {
    hide DecodeFolders, EncodeFolders, Le, ReadInt;
    DeserializedOk(Serialized(o, folders));
    if Capped(folders) {
      Widths();
      var body := EncodeFolders(o, folders);
      ReadBackInt(|folders|, 4, body);
      ListsCount(o.folders, folders);
      RestrictAll(folders, o.folders);
      ReadBackFolders(o, folders, []);
      assert body + [] == body;
      ReadsDecodes(|folders|, body, map[], folders, []);
    }
  }

  // ---------------------------------------------------------------- keystream

  function Power2(k: nat): (r: nat)
    ensures r >= 1
  {
    if k == 0 then 1 else 2 * Power2(k - 1)
  }

  /** Exclusive or of the k low bits, bit by bit. */
  function XorBits(a: nat, b: nat, k: nat): (r: nat)
    ensures r < Power2(k)
  {
    if k == 0 then 0 else (a + b) % 2 + 2 * XorBits(a / 2, b / 2, k - 1)
  }

  lemma EightBits()
    ensures Power2(8) == 256
  {
    assert Power2(1) == 2;
    assert Power2(2) == 4;
    assert Power2(3) == 8;
    assert Power2(4) == 16;
    assert Power2(5) == 32;
    assert Power2(6) == 64;
    assert Power2(7) == 128;
  }

  function Xor(a: Byte, b: Byte): Byte {
    EightBits();
    XorBits(a, b, 8)
  }

  lemma LowBit(a: nat, b: nat, q: nat)
    ensures var r := (a + b) % 2 + 2 * q;
            r / 2 == q && (r + b) % 2 == a % 2
  {
  }

  lemma {:induction false} XorTwice(a: nat, b: nat, k: nat)
    requires a < Power2(k)
    ensures XorBits(XorBits(a, b, k), b, k) == a
  {
    if k != 0 {
      var r := XorBits(a, b, k);
      var q := XorBits(a / 2, b / 2, k - 1);
      assert a / 2 < Power2(k - 1);
      assert r == (a + b) % 2 + 2 * q && XorBits(r, b, k) == (r + b) % 2 + 2 * XorBits(r / 2, b / 2, k - 1);
      hide Power2, XorBits;
      XorTwice(a / 2, b / 2, k - 1);
      LowBit(a, b, q);
    }
  }

  /** Bit i of x. */
  function Bit(x: nat, i: nat): (b: nat)
    ensures b <= 1
  {
    if i == 0 then x % 2 else Bit(x / 2, i - 1)
  }

  lemma Parity(a: nat, b: nat, q: nat)
    ensures ((a + b) % 2 + 2 * q) % 2 == 1 <==> a % 2 != b % 2
  {
  }

  /** Every bit of the result is set exactly when one of the two bits is. */
  lemma {:induction false} XorBit(a: nat, b: nat, k: nat, i: nat)
    requires i < k
    ensures Bit(XorBits(a, b, k), i) == 1 <==> Bit(a, i) != Bit(b, i)
  {
    var q := XorBits(a / 2, b / 2, k - 1);
    var x := XorBits(a, b, k);
    assert x == (a + b) % 2 + 2 * q;
    hide XorBits, Power2;
    LowBit(a, b, q);
    Parity(a, b, q);
    if i != 0 {
      XorBit(a / 2, b / 2, k - 1, i - 1);
      assert Bit(x, i) == Bit(x / 2, i - 1);
    }
  }

  /** Numbers below two to the k with the same bits are the same. */
  lemma {:induction false} SameBits(x: nat, y: nat, k: nat)
    requires x < Power2(k) && y < Power2(k) && forall i: nat :: i < k ==> Bit(x, i) == Bit(y, i)
    ensures x == y
  {
    if k != 0 {
      forall i: nat | i < k - 1
        ensures Bit(x / 2, i) == Bit(y / 2, i)
      {
        assert Bit(x, i + 1) == Bit(y, i + 1);
      }
      assert Bit(x, 0) == Bit(y, 0);
      SameBits(x / 2, y / 2, k - 1);
    }
  }

  lemma XorHasBits(a: Byte, b: Byte, i: nat)
    requires i < 8
    ensures Bit(Xor(a, b), i) == 1 <==> Bit(a, i) != Bit(b, i)
  {
    XorBit(a, b, 8, i);
  }

  predicate BitsDiffer(a: Byte, b: Byte, r: Byte, i: nat) {
    Bit(r, i) == 1 <==> Bit(a, i) != Bit(b, i)
  }

  /** The exclusive or of two bytes, told by its bits alone. */
  lemma XorIs(a: Byte, b: Byte, r: Byte)
    ensures r == Xor(a, b) <==> forall i: nat :: i < 8 ==> BitsDiffer(a, b, r, i)
  {
    hide Xor, Bit, Power2;
    EightBits();
    var x := Xor(a, b);
    forall i: nat | i < 8
      ensures BitsDiffer(a, b, x, i)
    {
      XorHasBits(a, b, i);
    }
    if forall i: nat :: i < 8 ==> BitsDiffer(a, b, r, i) {
      forall i: nat | i < 8
        ensures Bit(r, i) == Bit(x, i)
      {
        assert BitsDiffer(a, b, r, i) && BitsDiffer(a, b, x, i);
      }
      SameBits(r, x, 8);
    }
  }

  /** Two key bytes leave a byte the same exactly when they are the same; zero leaves it alone. */
  lemma XorTells(a: Byte, b: Byte, c: Byte)
    ensures Xor(a, b) == Xor(a, c) <==> b == c
    ensures Xor(a, b) == a <==> b == 0
  {
    hide Xor, Bit, Power2;
    EightBits();
    var x, y := Xor(a, b), Xor(a, c);
    XorIs(a, b, x);
    XorIs(a, c, y);
    XorIs(a, b, a);
    if x == y {
      forall i: nat | i < 8
        ensures Bit(b, i) == Bit(c, i)
      {
        assert BitsDiffer(a, b, x, i) && BitsDiffer(a, c, y, i);
      }
      SameBits(b, c, 8);
    }
    forall i: nat | i < 8 && (x == a || b == 0)
      ensures Bit(b, i) == Bit(0, i) && BitsDiffer(a, b, a, i)
    {
      ZeroBits(i);
      assert x == a ==> BitsDiffer(a, b, x, i);
    }
    if x == a {
      SameBits(b, 0, 8);
    }
  }

  lemma {:induction false} ZeroBits(i: nat)
    ensures Bit(0, i) == 0
  {
    if i != 0 {
      ZeroBits(i - 1);
    }
  }

  /** encrypt, and decrypt too: every byte against the repeated key. */
  function Crypt(data: Str, key: Str): (r: Str)
    requires key != []
    ensures |r| == |data|
    ensures forall i :: 0 <= i < |data| ==> r[i] == Xor(data[i], key[i % |key|])
  {
    seq(|data|, i requires 0 <= i < |data| => Xor(data[i], key[i % |key|]))
  }

  lemma CryptTwice(data: Str, key: Str)
    requires key != []
    ensures Crypt(Crypt(data, key), key) == data
  {
    EightBits();
    forall i | 0 <= i < |data|
      ensures Crypt(Crypt(data, key), key)[i] == data[i]
    {
      XorTwice(data[i], key[i % |key|], 8);
    }
  }

  /** Data encrypted with one key reads as itself with another exactly when the keystreams agree on it. */
  lemma WrongKey(data: Str, key: Str, other: Str)
    requires key != [] && other != []
    ensures Crypt(Crypt(data, key), other) == data
            <==> forall i :: 0 <= i < |data| ==> key[i % |key|] == other[i % |other|]
  {
    hide Xor;
    var x := Crypt(data, key);
    forall i | 0 <= i < |data|
      ensures Crypt(x, other)[i] == data[i] <==> key[i % |key|] == other[i % |other|]
    {
      XorTells(x[i], other[i % |other|], key[i % |key|]);
      CryptTwice(data, key);
      assert Crypt(x, key)[i] == data[i];
    }
    if Crypt(x, other) == data {
      forall i | 0 <= i < |data|
        ensures key[i % |key|] == other[i % |other|]
      {
        assert Crypt(x, other)[i] == data[i];
      }
    }
  }

  // ---------------------------------------------------------------- the file

  /** A list of the keys of a map with one key. */
  lemma ListsOne<V>(order: seq<Str>, k: Str, v: V)
    requires Lists(order, map[k := v])
    ensures order == [k]
  {
    ListsCount(order, map[k := v]);
    assert |map[k := v]| == 1;
  }

  const SAMPLE_ENTRY := Entry([107], [118], 2)
  const SAMPLE_FOLDER := Folder([65], map[[107] := SAMPLE_ENTRY])
  const SAMPLE: Folders := map[[65] := SAMPLE_FOLDER]

  lemma SampleEntryBytes()
    ensures EncodeEntry(SAMPLE_ENTRY) == [1, 0, 0, 0, 107, 2, 0, 0, 0, 1, 0, 0, 0, 118]
  {
    hide Le;
    SmallFields(1);
    SmallFields(2);
  }

  lemma SampleFolderBytes()
    ensures EncodeFolder(SAMPLE_FOLDER, [[107]])
            == [1, 0, 0, 0, 65, 1, 0, 0, 0, 1, 0, 0, 0, 107, 2, 0, 0, 0, 1, 0, 0, 0, 118]
  {
    hide Le, EncodeEntry;
    SmallFields(1);
    SampleEntryBytes();
    var entries := SAMPLE_FOLDER.entries;
    assert EncodeEntries([[107]], entries) == EncodeEntries([], entries) + EncodeEntry(entries[[107]]);
    assert |entries| == 1;
  }

  lemma OneFolder(o: Order, folders: Folders, f: Str)
    requires OrderFits(o, folders) && o.folders == [f]
    requires f in folders && f in o.entries && Lists(o.entries[f], folders[f].entries)
    ensures EncodeFolders(o, folders) == EncodeFolder(folders[f], o.entries[f])
  {
    var none := o.(folders := o.folders[..0]);
    assert EncodeFolders(none, folders) == [];
  }

  /** A wallet byte by byte: one folder "A" with one entry "k" of kind 2 and value "v". */
  lemma SampleWallet(data: Str)
    requires Serializes(data, SAMPLE)
    ensures data == [1, 0, 0, 0]
                    + [1, 0, 0, 0, 65, 1, 0, 0, 0, 1, 0, 0, 0, 107, 2, 0, 0, 0, 1, 0, 0, 0, 118]
  {
    hide Le, EncodeFolder, EncodeFolders, Lists;
    var o :| Orders(o, SAMPLE) && data == Serialized(o, SAMPLE);
    ListsOne(o.folders, [65], SAMPLE_FOLDER);
    assert o.folders[0] == [65];
    ListsOne(o.entries[[65]], [107], SAMPLE_ENTRY);
    OneFolder(o, SAMPLE, [65]);
    assert |SAMPLE| == 1;
    hide OrderFits, Orders;
    SampleFolderBytes();
    SmallFields(1);
  }

  /** The file begins with "VKWL" and version 1. */
  lemma WalletHeader(file: Str, folders: Folders, key: Str)
    requires key != [] && Saves(file, folders, key)
    ensures |file| >= 8 && file[..8] == [86, 75, 87, 76, 1, 0, 0, 0]
  {
    hide Serialized, Crypt, Orders;
    SmallFields(1);
  }

  const MAGIC: Str := ['V' as int, 'K' as int, 'W' as int, 'L' as int]
  const VERSION: nat := 1

  /** file holds the folders, encrypted with key. */
  ghost predicate Saves(file: Str, folders: Folders, key: Str)
    requires key != []
  {
    exists o :: Orders(o, folders) && file == MAGIC + Le(VERSION, 4) + Crypt(Serialized(o, folders), key)
  }

  /** What loading a file makes of it; a bad header leaves the folders alone. */
  datatype Loading = BadHeader | Body(parsed: Parsed)

  function LoadFile(file: Str, key: Str): Loading
    requires key != []
  {
    var magic := ReadRaw(file, 4);
    var version := ReadInt(magic.rest, 4);
    if !magic.ok || magic.value != MAGIC || !version.ok || version.value != VERSION then BadHeader
    else Body(Deserialized(Crypt(version.rest, key)))
  }

  /** A saved wallet loads back to the same folders exactly when they are within the caps. */
  lemma LoadAfterSave(file: Str, folders: Folders, key: Str)
    requires key != [] && Saves(file, folders, key) && WellKeyed(folders)
    ensures LoadFile(file, key) == Body(Parsed(true, folders)) <==> Capped(folders)
  {
    hide Serialized, Deserialized, Le, ReadInt, ReadRaw, Crypt, OrderFits, Lists;
    var o :| Orders(o, folders) && file == MAGIC + Le(VERSION, 4) + Crypt(Serialized(o, folders), key);
    var cipher := Crypt(Serialized(o, folders), key);
    Assoc(MAGIC, Le(VERSION, 4), cipher);
    ReadBackRaw(MAGIC, Le(VERSION, 4) + cipher);
    Widths();
    ReadBackInt(VERSION, 4, cipher);
    CryptTwice(Serialized(o, folders), key);
    DeserializeAfterSerialize(o, folders);
  }

  /** The body of a file is looked at exactly when it begins with "VKWL" and version 1. */
  lemma ReadExactly(file: Str, key: Str)
    requires key != []
    ensures LoadFile(file, key).Body? <==> |file| >= 8 && file[..8] == [86, 75, 87, 76, 1, 0, 0, 0]
  {
    hide Deserialized, Crypt, ValueOf;
    if |file| >= 8 {
      OneInFour(file[4..8]);
      assert file[4..][..4] == file[4..8];
      assert file[..8] == file[..4] + file[4..8];
    }
  }

  lemma LoadedIsCapped(file: Str, key: Str)
    requires key != []
    ensures LoadFile(file, key).Body? ==>
              var f := LoadFile(file, key).parsed.folders;
              Capped(f) && WellKeyed(f)
  {
    hide Deserialized;
    DeserializedOk(Crypt(ReadInt(ReadRaw(file, 4).rest, 4).rest, key));
  }
}
