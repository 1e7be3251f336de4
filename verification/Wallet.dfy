/**
 * The wallet object of userland/kf6/kwallet-veridian-backend.cpp: loops that
 * write and read the file, folder and entry operations, and the life of a wallet
 * from open to close over an abstract disk.
 */
module Wallet {
  import opened Text
  import opened DataStream
  import opened WalletFormat
  import opened WalletModel

  // ---------------------------------------------------------------- the file loops

  /** encrypt: exclusive or in place. */
  method Encrypt(data: Str, key: Str) returns (result: Str)
    requires key != []
    ensures result == Crypt(data, key)
    ensures |result| == |data| && forall i :: 0 <= i < |data| ==> (result[i] == data[i] <==> key[i % |key|] == 0)
  {
    hide Xor;
    forall i | 0 <= i < |data|
      ensures Xor(data[i], key[i % |key|]) == data[i] <==> key[i % |key|] == 0
    {
      XorTells(data[i], key[i % |key|], 0);
    }
    result := data;
    var i := 0;
    while i < |result|
      invariant 0 <= i <= |data| == |result|
      invariant forall k :: 0 <= k < i ==> result[k] == Xor(data[k], key[k % |key|])
      invariant forall k :: i <= k < |data| ==> result[k] == data[k]
    {
      result := result[i := Xor(result[i], key[i % |key|])];
      i := i + 1;
    }
  }

  method WriteEntries(data: Str, entries: map<Str, Entry>) returns (data': Str, ghost order: seq<Str>)
    ensures Lists(order, entries)
    ensures data' == data + EncodeEntries(order, entries)
  {
    hide EncodeEntry;
    data', order := data, [];
    assert EncodeEntries([], entries) == [];
    var todo := entries.Keys;
    while todo != {}
      invariant todo <= entries.Keys
      invariant forall i :: 0 <= i < |order| ==> order[i] in entries && order[i] !in todo
      invariant forall i, j :: 0 <= i < j < |order| ==> order[i] != order[j]
      invariant forall k :: k in entries ==> k in todo || k in order
      invariant data' == data + EncodeEntries(order, entries)
      decreases todo
    {
      var k :| k in todo;
      todo := todo - {k};
      ghost var more := order + [k];
      assert more[..|order|] == order;
      Assoc(data, EncodeEntries(order, entries), EncodeEntry(entries[k]));
      data' := data' + EncodeEntry(entries[k]);
      order := more;
    }
  }

  /** serialize: folders and entries in any iteration order. */
  method Serialize(folders: Folders) returns (data: Str)
    ensures Serializes(data, folders)
  {
    hide Le, EncodeEntries, EncodeFolder, EncodeFolders;
    data := Le(|folders|, 4);
    ghost var head := data;
    ghost var o := Order([], map[]);
    var todo := folders.Keys;
    NoFolders(folders);
    while todo != {}
      invariant todo <= folders.Keys
      invariant forall i :: 0 <= i < |o.folders| ==> o.folders[i] in folders && o.folders[i] !in todo
      invariant forall i, j :: 0 <= i < j < |o.folders| ==> o.folders[i] != o.folders[j]
      invariant forall k :: k in folders ==> k in todo || k in o.folders
      invariant OrderFits(o, folders)
      invariant data == head + EncodeFolders(o, folders)
      decreases todo
    {
      var name :| name in todo;
      todo := todo - {name};
      var f := folders[name];
      ghost var before := data;
      data := data + (Le(|f.name|, 4) + f.name + Le(|f.entries|, 4));
      ghost var order;
      data, order := WriteEntries(data, f.entries);
      FolderParts(before, f, order);
      AppendFolder(head, o, folders, name, order);
      o := Order(o.folders + [name], o.entries[name := order]);
    }
    assert Orders(o, folders) && data == Serialized(o, folders);
  }

  lemma NoFolders(folders: Folders)
    ensures EncodeFolders(Order([], map[]), folders) == []
  {
  }

  lemma FolderParts(before: Str, f: Folder, order: seq<Str>)
    requires forall i :: 0 <= i < |order| ==> order[i] in f.entries
    ensures before + (Le(|f.name|, 4) + f.name + Le(|f.entries|, 4)) + EncodeEntries(order, f.entries)
            == before + EncodeFolder(f, order)
  {
    hide Le, EncodeEntries;
    Assoc(before, Le(|f.name|, 4) + f.name + Le(|f.entries|, 4), EncodeEntries(order, f.entries));
  }

  /** Orders only matter for the folders they are used for. */
  lemma {:induction false} EncodeIgnoresOthers(o: Order, folders: Folders, name: Str, order: seq<Str>)
    requires OrderFits(o, folders) && name !in o.folders
    ensures var o' := o.(entries := o.entries[name := order]);
            OrderFits(o', folders) && EncodeFolders(o', folders) == EncodeFolders(o, folders)
    decreases |o.folders|
  {
    hide EncodeFolder;
    if o.folders != [] {
      var n := |o.folders| - 1;
      EncodeIgnoresOthers(o.(folders := o.folders[..n]), folders, name, order);
    }
  }

  lemma AppendFolder(head: Str, o: Order, folders: Folders, name: Str, order: seq<Str>)
    requires OrderFits(o, folders) && name !in o.folders && name in folders
    requires Lists(order, folders[name].entries)
    ensures var o' := Order(o.folders + [name], o.entries[name := order]);
            && OrderFits(o', folders)
            && head + EncodeFolders(o, folders) + EncodeFolder(folders[name], order)
               == head + EncodeFolders(o', folders)
  {
    hide EncodeFolder;
    var o' := Order(o.folders + [name], o.entries[name := order]);
    EncodeIgnoresOthers(o, folders, name, order);
    assert o'.folders[..|o.folders|] == o.folders;
    assert o'.(folders := o.folders) == o.(entries := o.entries[name := order]);
    Assoc(head, EncodeFolders(o, folders), EncodeFolder(folders[name], order));
  }

  method ReadEntries(n: nat, s: Str) returns (r: Option<Read<map<Str, Entry>>>)
    ensures r == DecodeEntries(n, s, map[])
  {
    hide DecodeEntry;
    var acc, rest := map[], s;
    var e := 0;
    while e < n
      invariant 0 <= e <= n
      invariant DecodeEntries(n, s, map[]) == DecodeEntries(n - e, rest, acc)
    {
      var d := DecodeEntry(rest);
      if d.None? {
        return None;
      }
      acc, rest := acc[d.value.value.key := d.value.value], d.value.rest;
      e := e + 1;
    }
    r := Some(Read(acc, rest, true));
  }

  /** deserialize: the folders read before a failure stay. */
  method Deserialize(data: Str) returns (p: Parsed)
    ensures p == Deserialized(data)
  {
    hide DecodeEntries, ReadInt, ReadRaw;
    var count := ReadInt(data, 4);
    if !count.ok || count.value > MAX_FOLDERS {
      return Parsed(false, map[]);
    }
    var folders, rest := map[], count.rest;
    var f := 0;
    while f < count.value
      invariant 0 <= f <= count.value
      invariant Deserialized(data) == DecodeFolders(count.value - f, rest, folders)
    {
      var nameLen := ReadInt(rest, 4);
      if !nameLen.ok || nameLen.value > MAX_NAME {
        return Parsed(false, folders);
      }
      var name := ReadRaw(nameLen.rest, nameLen.value);
      var n := ReadInt(name.rest, 4);
      if !n.ok || n.value > MAX_ENTRIES {
        return Parsed(false, folders);
      }
      var es := ReadEntries(n.value, n.rest);
      if es.None? {
        return Parsed(false, folders);
      }
      folders, rest := folders[name.value := Folder(name.value, es.value.value)], es.value.rest;
      f := f + 1;
    }
    p := Parsed(true, folders);
  }

  // ---------------------------------------------------------------- the object

  class Backend {
    var walletName: Str
    var encryptionKey: Str
    var currentFolder: Str
    var folders: Folders
    var isOpen: bool
    var dirty: bool

    /** The wallet directory: file contents by wallet name. */
    var disk: map<Str, Str>

    ghost function TheState(): State
      reads this
    {
      State(walletName, encryptionKey, currentFolder, folders, isOpen, dirty, disk)
    }

    ghost predicate OnDisk()
      reads this
    {
      IsOnDisk(TheState())
    }

    ghost predicate Sound()
      reads this
    {
      IsSound(TheState())
    }

    constructor (disk: map<Str, Str>)
      ensures Sound() && TheState() == Start(disk)
    {
      walletName, encryptionKey, currentFolder := [], [], DEFAULT_FOLDER;
      folders, isOpen, dirty := map[], false, false;
      this.disk := disk;
    }

    /** saveToFile; canWrite says whether the file can be opened for writing. */
    method SaveToFile(canWrite: bool) returns (ok: bool)
      requires encryptionKey != []
      modifies this`disk, this`dirty
      ensures ok == canWrite
      ensures ok ==>
                && !dirty && walletName in disk && Saves(disk[walletName], folders, encryptionKey)
                && disk == old(disk)[walletName := disk[walletName]]
      ensures !ok ==> disk == old(disk) && dirty == old(dirty)
    {
      hide Orders, Serialized, Crypt, Le;
      var plaintext := Serialize(folders);
      var ciphertext := Encrypt(plaintext, encryptionKey);
      ok := canWrite;
      if ok {
        disk := disk[walletName := MAGIC + Le(VERSION, 4) + ciphertext];
        dirty := false;
      }
    }

    /**
     * closeWallet. A close that returns 0 leaves on disk what was in memory,
     * exactly when that was within the caps of the reader.
     */
    method CloseWallet(canWrite: bool) returns (rc: int)
      requires Sound()
      modifies this
      ensures Sound() && Step(old(TheState()), Close(canWrite), TheState())
      ensures rc == 0 || rc == -1
      ensures rc == -1 <==> old(isOpen && dirty) && !canWrite
      ensures rc == -1 ==>
                && isOpen && dirty && disk == old(disk) && folders == old(folders)
                && walletName == old(walletName) && encryptionKey == old(encryptionKey)
      ensures rc == 0 ==> !isOpen && (old(isOpen) ==> folders == map[] && !dirty && encryptionKey == [])
      ensures rc == 0 && old(isOpen) ==> walletName == [] && currentFolder == DEFAULT_FOLDER
      ensures rc == 0 && old(isOpen) ==>
                && old(walletName) in disk
                && (LoadFile(disk[old(walletName)], old(encryptionKey)) == Body(Parsed(true, old(folders)))
                    <==> Capped(old(folders)))
    {
      hide LoadFile, WellKeyed, Capped, Saves;
      EmptyIsKeyed();
      ghost var was := TheState();
      if !isOpen {
        return 0;
      }
      if dirty {
        var ok := SaveToFile(canWrite);
        if !ok {
          return -1;
        }
      }
      walletName, encryptionKey := [], [];
      folders := map[];
      currentFolder := DEFAULT_FOLDER;
      isOpen, dirty := false, false;
      ClosedIsOnDisk(was, canWrite, TheState());
      rc := 0;
    }

    /** loadFromFile; canRead says whether the file can be opened for reading. */
    method LoadFromFile(name: Str, key: Str, canRead: bool) returns (ok: bool)
      requires key != [] && name in disk
      modifies this`folders
      ensures ok == Loads(disk[name], key, canRead)
      ensures canRead && LoadFile(disk[name], key).Body? ==> folders == LoadFile(disk[name], key).parsed.folders
      ensures !canRead || LoadFile(disk[name], key).BadHeader? ==> folders == old(folders)
    {
      if !canRead {
        return false;
      }
      var magic := ReadRaw(disk[name], 4);
      if !magic.ok || magic.value != MAGIC {
        return false;
      }
      var version := ReadInt(magic.rest, 4);
      if !version.ok || version.value != VERSION {
        return false;
      }
      var plaintext := Encrypt(version.rest, key);
      var p := Deserialize(plaintext);
      folders := p.folders;
      ok := p.ok;
    }

    /**
     * openWallet with the key derived from the password. The previous wallet is
     * closed first and the outcome of that close is ignored, so:
     * - the object stays sound exactly when that close succeeded or the new
     *   wallet was opened;
     * - a wallet with no file starts with just the default folder exactly when
     *   no folder was left over from before.
     */
    method OpenWallet(name: Str, key: Str, canWrite: bool, canRead: bool) returns (rc: int)
      requires Sound() && key != []
      modifies this
      ensures Step(old(TheState()), Open(name, key, canWrite, canRead), TheState())
      ensures rc == 0 || rc == -1
      ensures WellKeyed(folders)
      ensures Sound() <==>
                !(old(isOpen && dirty) && !canWrite && name in old(disk) && !Loads(old(disk)[name], key, canRead))
      ensures rc == 0 ==> isOpen && walletName == name && encryptionKey == key && currentFolder == DEFAULT_FOLDER
      ensures rc == 0 && !dirty ==>
                name in disk && canRead && LoadFile(disk[name], key) == Body(Parsed(true, folders))
      ensures rc == 0 && dirty ==>
                && name !in disk
                && (folders == EMPTY_DEFAULT <==> LeftOver(old(TheState()), canWrite).Keys <= {DEFAULT_FOLDER})
      ensures rc == -1 <==> name in disk && !Loads(disk[name], key, canRead)
      ensures rc == -1 ==> encryptionKey == [] && !dirty && isOpen == (old(isOpen && dirty) && !canWrite)
    {
      hide LoadFile, WellKeyed, Capped, Saves;
      ghost var was := TheState();
      if isOpen {
        var closed := CloseWallet(canWrite);
      }
      rc := Begin(name, key, canRead);
      OpenSound(was, Open(name, key, canWrite, canRead), TheState());
      if name !in disk {
        NewStartsEmpty(was, Open(name, key, canWrite, canRead), TheState());
      }
    }

    /** The second half of openWallet. */
    method Begin(name: Str, key: Str, canRead: bool) returns (rc: int)
      requires key != []
      modifies this
      ensures TheState() == Begun(old(TheState()), name, key, canRead)
      ensures rc == if name in disk && !Loads(disk[name], key, canRead) then -1 else 0
    {
      hide LoadFile;
      walletName, encryptionKey := name, key;
      currentFolder, dirty := DEFAULT_FOLDER, false;
      if name in disk {
        var loaded := LoadFromFile(name, key, canRead);
        if !loaded {
          encryptionKey := [];
          return -1;
        }
      } else {
        folders := folders[DEFAULT_FOLDER := Folder(DEFAULT_FOLDER, map[])];
        dirty := true;
      }
      isOpen := true;
      rc := 0;
    }

    /** The call would be the bad open. */
    predicate OpensBadly(op: Op)
      requires OpOk(op)
      reads this
      ensures OpensBadly(op) <==> BadOpen(TheState(), op)
    {
      op.Open? && isOpen && dirty && !op.canWrite && op.name in disk && !Loads(disk[op.name], op.key, op.canRead)
    }

    // -------------------------------------------------------------- folders

    /** createFolder; works on a closed wallet too */
    method CreateFolder(name: Str)
      requires Sound()
      modifies this`folders, this`dirty
      ensures Sound() && Step(old(TheState()), NewFolder(name), TheState())
      ensures folders == if name in old(folders) then old(folders) else old(folders)[name := Folder(name, map[])]
      ensures dirty == (old(dirty) || name !in old(folders))
    {
      hide LoadFile, WellKeyed;
      if name in folders {
        return;
      }
      FiledIsKeyed(folders, Folder(name, map[]));
      folders := folders[name := Folder(name, map[])];
      dirty := true;
    }

    /** removeFolder */
    method RemoveFolder(name: Str) returns (ok: bool)
      requires Sound()
      modifies this`folders, this`dirty, this`currentFolder
      ensures Sound() && Step(old(TheState()), DropFolder(name), TheState())
      ensures ok <==> name in old(folders)
      ensures folders == old(folders) - {name}
      ensures dirty == (old(dirty) || ok)
      ensures currentFolder == if ok && old(currentFolder) == name then DEFAULT_FOLDER else old(currentFolder)
    {
      if name !in folders {
        assert folders - {name} == folders;
        return false;
      }
      folders := folders - {name};
      if currentFolder == name {
        currentFolder := DEFAULT_FOLDER;
      }
      dirty := true;
      ok := true;
    }

    /** setFolder */
    method SetFolder(name: Str)
      requires Sound()
      modifies this`folders, this`dirty, this`currentFolder
      ensures Sound() && Step(old(TheState()), UseFolder(name), TheState())
      ensures currentFolder == name && name in folders
      ensures folders == if name in old(folders) then old(folders) else old(folders)[name := Folder(name, map[])]
      ensures dirty == (old(dirty) || name !in old(folders))
    {
      hide LoadFile, WellKeyed;
      if name !in folders {
        CreateFolder(name);
      }
      currentFolder := name;
    }

    // -------------------------------------------------------------- entries

    /** The entries of the current folder; none when it does not exist. */
    function Current(): map<Str, Entry>
      reads this
    {
      if currentFolder in folders then folders[currentFolder].entries else map[]
    }

    /** Every folder but the current one is as in was. */
    ghost predicate OthersAre(was: Folders)
      reads this
    {
      forall f :: f != currentFolder ==> (f in folders <==> f in was) && (f in folders ==> folders[f] == was[f])
    }

    /** readPassword, readEntry */
    method ReadEntry(key: Str) returns (rc: int, value: Str)
      requires Sound()
      ensures rc == 0 <==> isOpen && key in Current()
      ensures rc == 0 ==> value == Current()[key].value
      ensures rc == 0 || rc == -1
    {
      value := [];
      if !isOpen || currentFolder !in folders || key !in folders[currentFolder].entries {
        return -1, value;
      }
      return 0, folders[currentFolder].entries[key].value;
    }

    /** Replace the entries of the current folder, which exists. */
    method PutEntries(entries: map<Str, Entry>)
      requires Sound() && currentFolder in folders && EntriesKeyed(entries)
      modifies this`folders, this`dirty
      ensures Sound() && TheState() == WithEntries(old(TheState()), entries)
      ensures dirty && currentFolder in folders && Current() == entries
      ensures OthersAre(old(folders))
    {
      hide LoadFile, EntriesKeyed;
      folders := folders[currentFolder := folders[currentFolder].(entries := entries)];
      dirty := true;
    }

    /** writePassword, writeEntry and writeMap, with the kind each of them stores */
    method WriteEntry(key: Str, value: Str, kind: nat) returns (rc: int)
      requires Sound()
      modifies this`folders, this`dirty
      ensures Sound() && Step(old(TheState()), Write(key, value, kind), TheState())
      ensures rc == if isOpen then 0 else -1
      ensures rc == 0 ==>
                && dirty && OthersAre(old(folders))
                && Current() == old(Current())[key := Entry(key, value, kind)]
      ensures rc == -1 ==> folders == old(folders) && dirty == old(dirty)
    {
      hide LoadFile, WellKeyed;
      if !isOpen {
        return -1;
      }
      if currentFolder !in folders {
        CreateFolder(currentFolder);
      }
      CurrentKeyed(folders, currentFolder);
      PutEntries(folders[currentFolder].entries[key := Entry(key, value, kind)]);
      rc := 0;
    }

    /** removeEntry */
    method RemoveEntry(key: Str) returns (rc: int)
      requires Sound()
      modifies this`folders, this`dirty
      ensures Sound() && Step(old(TheState()), Erase(key), TheState())
      ensures rc == if isOpen && key in old(Current()) then 0 else -1
      ensures rc == 0 ==> dirty && Current() == old(Current()) - {key} && OthersAre(old(folders))
      ensures rc == -1 ==> folders == old(folders) && dirty == old(dirty)
    {
      hide LoadFile, WellKeyed;
      if !isOpen || currentFolder !in folders || key !in folders[currentFolder].entries {
        return -1;
      }
      CurrentKeyed(folders, currentFolder);
      PutEntries(folders[currentFolder].entries - {key});
      rc := 0;
    }

    /** renameEntry: the stored key is renamed too; an entry under newKey is replaced. */
    method RenameEntry(oldKey: Str, newKey: Str) returns (rc: int)
      requires Sound()
      modifies this`folders, this`dirty
      ensures Sound() && Step(old(TheState()), Rename(oldKey, newKey), TheState())
      ensures rc == if isOpen && oldKey in old(Current()) then 0 else -1
      ensures rc == 0 ==>
                && dirty && OthersAre(old(folders))
                && Current() == (old(Current()) - {oldKey})[newKey := old(Current())[oldKey].(key := newKey)]
      ensures rc == -1 ==> folders == old(folders) && dirty == old(dirty)
    {
      hide LoadFile, WellKeyed;
      if !isOpen || currentFolder !in folders || oldKey !in folders[currentFolder].entries {
        return -1;
      }
      CurrentKeyed(folders, currentFolder);
      var entries := folders[currentFolder].entries;
      PutEntries((entries - {oldKey})[newKey := entries[oldKey].(key := newKey)]);
      rc := 0;
    }

    /**
     * deleteWallet; canRemove says whether an existing file can be removed. The
     * wallet itself is closed first, which may write the file being deleted; a
     * close that fails leaves it open, with its changes, and without a file.
     */
    method DeleteWallet(name: Str, canWrite: bool, canRemove: bool) returns (rc: int)
      requires Sound()
      modifies this
      ensures Sound() && Step(old(TheState()), Delete(name, canWrite, canRemove), TheState())
      ensures rc == 0 || rc == -1
      ensures rc == 0 <==>
                canRemove && (name in old(disk) || (canWrite && old(isOpen && walletName == name && dirty)))
      ensures name in disk <==>
                !canRemove && (name in old(disk) || (canWrite && old(isOpen && walletName == name && dirty)))
      ensures old(isOpen && walletName == name && (canWrite || !dirty)) ==> !isOpen && folders == map[]
      ensures old(!isOpen || walletName != name || (!canWrite && dirty)) ==>
                && isOpen == old(isOpen) && dirty == old(dirty) && folders == old(folders)
                && walletName == old(walletName) && encryptionKey == old(encryptionKey)
      ensures forall n :: n != name ==> (n in disk <==> n in old(disk)) && (n in disk ==> disk[n] == old(disk)[n])
    {
      hide LoadFile, WellKeyed, Saves, Capped;
      if isOpen && walletName == name {
        var closed := CloseWallet(canWrite);
      }
      if name in disk && canRemove {
        disk := disk - {name};
        return 0;
      }
      rc := -1;
    }
  }

  // ---------------------------------------------------------------- whole runs

  method Perform(b: Backend, op: Op)
    requires b.Sound() && OpOk(op) && !BadOpen(b.TheState(), op)
    modifies b
    ensures b.Sound() && Step(old(b.TheState()), op, b.TheState())
  {
    hide LoadFile, WellKeyed;
    match op {
      case Open(n, k, w, r) => var rc := b.OpenWallet(n, k, w, r);
      case Close(w) => var rc := b.CloseWallet(w);
      case Delete(n, w, r) => var rc := b.DeleteWallet(n, w, r);
      case NewFolder(n) => b.CreateFolder(n);
      case DropFolder(n) => var ok := b.RemoveFolder(n);
      case UseFolder(n) => b.SetFolder(n);
      case Write(k, v, kind) => var rc := b.WriteEntry(k, v, kind);
      case Erase(k) => var rc := b.RemoveEntry(k);
      case Rename(k, n) => var rc := b.RenameEntry(k, n);
    }
  }

  /**
   * Any run, call by call: every state up to the first bad open is sound, and the
   * run goes on to the end if there is none.
   */
  method Execute(disk: map<Str, Str>, ops: seq<Op>) returns (b: Backend, done: nat, ghost trace: seq<State>)
    requires forall i :: 0 <= i < |ops| ==> OpOk(ops[i])
    ensures fresh(b) && done <= |ops|
    ensures IsRun(disk, ops[..done], trace) && trace[done] == b.TheState()
    ensures forall i :: 0 <= i <= done ==> IsSound(trace[i])
    ensures forall i :: 0 <= i < done ==> !BadOpen(trace[i], ops[i])
    ensures done < |ops| ==> BadOpen(trace[done], ops[done])
  {
    hide LoadFile, WellKeyed, Step;
    b := new Backend(disk);
    done := 0;
    trace := [b.TheState()];
    while done < |ops|
      invariant 0 <= done <= |ops|
      invariant fresh(b) && b.Sound()
      invariant IsRun(disk, ops[..done], trace) && trace[done] == b.TheState()
      invariant forall i :: 0 <= i <= done ==> IsSound(trace[i])
      invariant forall i :: 0 <= i < done ==> !BadOpen(trace[i], ops[i])
    {
      if b.OpensBadly(ops[done]) {
        return;
      }
      Perform(b, ops[done]);
      trace := trace + [b.TheState()];
      done := done + 1;
    }
  }

  /**
   * Closing and reopening with the same key gives back the same folders, exactly
   * when they were within the caps; reopening fails otherwise or changes them.
   */
  method Reopen(b: Backend, canWrite: bool) returns (closeRc: int, openRc: int)
    requires b.Sound() && b.isOpen
    modifies b
    ensures b.Sound()
    ensures closeRc == -1 ==> b.folders == old(b.folders) && b.isOpen && b.dirty
    ensures closeRc == 0 ==> ((openRc == 0 && b.folders == old(b.folders)) <==> Capped(old(b.folders)))
    ensures closeRc == -1 <==> old(b.dirty) && !canWrite
  {
    hide LoadFile, WellKeyed, Capped;
    ghost var was := b.folders;
    var name, key := b.walletName, b.encryptionKey;
    closeRc := b.CloseWallet(canWrite);
    openRc := -1;
    if closeRc == 0 {
      LoadedIsCapped(b.disk[name], key);
      openRc := b.OpenWallet(name, key, true, true);
    }
  }

  /** A failed close that open ignores: open, clean, and nothing on disk matches. */
  method FailedCloseBreaksSoundness() returns (b: Backend)
    ensures fresh(b) && b.isOpen && !b.dirty && !b.OnDisk()
  {
    var other: Str, junk: Str := [66], [0];
    b := new Backend(map[other := junk]);
    var first := b.OpenWallet([65], [1], true, true);
    assert !Loads(junk, [1], true);
    var second := b.OpenWallet(other, [1], false, true);
  }

  /** A folder made while no wallet is open turns up in the next new wallet. */
  method LeftOverFolderLeaks() returns (b: Backend)
    ensures fresh(b) && b.isOpen && b.folders != EMPTY_DEFAULT
  {
    b := new Backend(map[]);
    b.CreateFolder([120]);
    var rc := b.OpenWallet([65], [1], true, true);
    assert [120] in b.folders;
  }
}
