/**
 * The life of a wallet as steps between states: what each call of
 * userland/kf6/kwallet-veridian-backend.cpp makes of the object and of the wallet
 * directory. A step is a relation only because a file may be written in any order
 * of folders and entries.
 */
module WalletModel {
  import opened Text
  import opened WalletFormat

  /** "Passwords" */
  const DEFAULT_FOLDER: Str := [80, 97, 115, 115, 119, 111, 114, 100, 115]

  const EMPTY_DEFAULT: Folders := map[DEFAULT_FOLDER := Folder(DEFAULT_FOLDER, map[])]

  /** disk is the wallet directory: file contents by wallet name. */
  datatype State = State(name: Str, key: Str, current: Str, folders: Folders, isOpen: bool, dirty: bool,
                         disk: map<Str, Str>)

  datatype Op =
    | Open(name: Str, key: Str, canWrite: bool, canRead: bool)
    | Close(canWrite: bool)
    | Delete(name: Str, canWrite: bool, canRemove: bool)
    | NewFolder(name: Str)
    | DropFolder(name: Str)
    | UseFolder(name: Str)
    | Write(key: Str, value: Str, kind: nat)
    | Erase(key: Str)
    | Rename(oldKey: Str, newKey: Str)

  /** Keys come from a hash and are never empty. */
  predicate OpOk(op: Op) {
    op.Open? ==> op.key != []
  }

  /** The file can be read and its contents accepted. */
  predicate Loads(file: Str, key: Str, canRead: bool)
    requires key != []
  {
    canRead && LoadFile(file, key).Body? && LoadFile(file, key).parsed.ok
  }

  /** The file of the current wallet decodes to the folders in memory. */
  ghost predicate IsOnDisk(s: State) {
    s.name in s.disk && s.key != [] && LoadFile(s.disk[s.name], s.key) == Body(Parsed(true, s.folders))
  }

  /** A clean open wallet is on disk; every folder and entry stores its own key. */
  ghost predicate IsSound(s: State) {
    && WellKeyed(s.folders)
    && (s.isOpen ==> s.key != [])
    && (s.isOpen && !s.dirty ==> IsOnDisk(s))
  }

  // ---------------------------------------------------------------- steps

  /** A close that cannot save: the wallet stays as it is. */
  predicate Stuck(s: State, canWrite: bool) {
    s.isOpen && s.dirty && !canWrite
  }

  /** disk after a close: a dirty wallet's file holds its folders, all else is as before. */
  ghost predicate ClosedDisk(s: State, canWrite: bool, disk: map<Str, Str>) {
    if s.isOpen && s.dirty && canWrite then
      && s.key != [] && s.name in disk && disk == s.disk[s.name := disk[s.name]]
      && Saves(disk[s.name], s.folders, s.key)
    else disk == s.disk
  }

  function Closed(s: State, canWrite: bool, disk: map<Str, Str>): State {
    if !s.isOpen || Stuck(s, canWrite) then s.(disk := disk)
    else State([], [], DEFAULT_FOLDER, map[], false, false, disk)
  }

  /** The folders after reading a file: a bad header leaves them alone. */
  function Reading(s: State, name: Str, key: Str, canRead: bool): Folders
    requires key != [] && name in s.disk
  {
    var l := LoadFile(s.disk[name], key);
    if canRead && l.Body? then l.parsed.folders else s.folders
  }

  /** The second half of an open; the folders found in memory are not cleared first. */
  function Begun(s: State, name: Str, key: Str, canRead: bool): State
    requires key != []
  {
    if name !in s.disk then
      State(name, key, DEFAULT_FOLDER, s.folders[DEFAULT_FOLDER := Folder(DEFAULT_FOLDER, map[])], true, true, s.disk)
    else if Loads(s.disk[name], key, canRead) then
      State(name, key, DEFAULT_FOLDER, Reading(s, name, key, canRead), true, false, s.disk)
    else
      State(name, [], DEFAULT_FOLDER, Reading(s, name, key, canRead), s.isOpen, false, s.disk)
  }

  /** The wallet is there to be removed: on disk, or about to be by its own close. */
  predicate Removable(s: State, name: Str, canWrite: bool) {
    name in s.disk || (s.isOpen && s.name == name && s.dirty && canWrite)
  }

  ghost predicate DeletedDisk(s: State, name: Str, canWrite: bool, canRemove: bool, disk: map<Str, Str>) {
    if Removable(s, name, canWrite) && canRemove then disk == s.disk - {name}
    else if s.isOpen && s.name == name then ClosedDisk(s, canWrite, disk)
    else disk == s.disk
  }

  function WithFolder(s: State, name: Str): State {
    if name in s.folders then s else s.(folders := s.folders[name := Folder(name, map[])], dirty := true)
  }

  /** The entries of the current folder; none when it does not exist. */
  function Entries(s: State): map<Str, Entry> {
    if s.current in s.folders then s.folders[s.current].entries else map[]
  }

  function WithEntries(s: State, entries: map<Str, Entry>): State {
    if s.current in s.folders
    then s.(folders := s.folders[s.current := s.folders[s.current].(entries := entries)], dirty := true)
    else s
  }

  /**
   * One call. There is no step from an open wallet without a key that would have to
   * be saved: encrypting with an empty key divides by its length.
   */
  ghost predicate Step(s: State, op: Op, s': State) {
    match op
    case Open(name, key, canWrite, canRead) =>
      key != [] && ClosedDisk(s, canWrite, s'.disk) && s' == Begun(Closed(s, canWrite, s'.disk), name, key, canRead)
    case Close(canWrite) =>
      ClosedDisk(s, canWrite, s'.disk) && s' == Closed(s, canWrite, s'.disk)
    case Delete(name, canWrite, canRemove) =>
      && DeletedDisk(s, name, canWrite, canRemove, s'.disk)
      && s' == if s.isOpen && s.name == name then Closed(s, canWrite, s'.disk) else s.(disk := s'.disk)
    case NewFolder(name) =>
      s' == WithFolder(s, name)
    case DropFolder(name) =>
      s' == if name !in s.folders then s
            else s.(folders := s.folders - {name}, dirty := true,
                    current := if s.current == name then DEFAULT_FOLDER else s.current)
    case UseFolder(name) =>
      s' == WithFolder(s, name).(current := name)
    case Write(key, value, kind) =>
      s' == if s.isOpen
            then WithEntries(WithFolder(s, s.current), Entries(s)[key := Entry(key, value, kind)]) else s
    case Erase(key) =>
      s' == if s.isOpen && key in Entries(s) then WithEntries(s, Entries(s) - {key}) else s
    case Rename(oldKey, newKey) =>
      s' == if s.isOpen && oldKey in Entries(s)
            then WithEntries(s, (Entries(s) - {oldKey})[newKey := Entries(s)[oldKey].(key := newKey)]) else s
  }

  // ---------------------------------------------------------------- what steps keep

  /** The open that breaks soundness: the close it ignores fails and the new wallet does not load. */
  predicate BadOpen(s: State, op: Op)
    requires OpOk(op)
  {
    op.Open? && Stuck(s, op.canWrite) && op.name in s.disk && !Loads(s.disk[op.name], op.key, op.canRead)
  }

  lemma CurrentKeyed(folders: Folders, name: Str)
    requires WellKeyed(folders) && name in folders
    ensures EntriesKeyed(folders[name].entries)
  {
  }

  lemma EmptyIsKeyed()
    ensures WellKeyed(map[]) && EntriesKeyed(map[])
  {
  }

  lemma FiledIsKeyed(folders: Folders, f: Folder)
    requires WellKeyed(folders) && EntriesKeyed(f.entries)
    ensures WellKeyed(folders[f.name := f])
  {
  }

  lemma EntriesStayKeyed(s: State, entries: map<Str, Entry>)
    requires IsSound(s) && EntriesKeyed(entries)
    ensures IsSound(WithEntries(s, entries))
  {
    hide LoadFile;
    if s.current in s.folders {
      FiledIsKeyed(s.folders, s.folders[s.current].(entries := entries));
    }
  }

  lemma FolderStaysSound(s: State, name: Str)
    requires IsSound(s)
    ensures IsSound(WithFolder(s, name))
  {
    hide LoadFile, WellKeyed, EntriesKeyed;
    EmptyIsKeyed();
    FiledIsKeyed(s.folders, Folder(name, map[]));
  }

  lemma EntriesOfSound(s: State)
    requires IsSound(s)
    ensures EntriesKeyed(Entries(s))
  {
    EmptyIsKeyed();
  }

  /** An open keeps soundness exactly when it is not the bad one. */
  lemma OpenSound(s: State, op: Op, s': State)
    requires op.Open? && IsSound(s) && OpOk(op) && Step(s, op, s')
    ensures WellKeyed(s'.folders)
    ensures IsSound(s') <==> !BadOpen(s, op)
  {
    hide LoadFile, WellKeyed, EntriesKeyed, Saves;
    EmptyIsKeyed();
    var mid := Closed(s, op.canWrite, s'.disk);
    if op.name in s'.disk {
      LoadedIsCapped(s'.disk[op.name], op.key);
    } else {
      FiledIsKeyed(mid.folders, Folder(DEFAULT_FOLDER, map[]));
    }
  }

  /** Every call keeps soundness, but for the one kind of open. */
  lemma StepSound(s: State, op: Op, s': State)
    requires IsSound(s) && OpOk(op) && Step(s, op, s')
    ensures IsSound(s') <==> !BadOpen(s, op)
  {
    hide LoadFile, WellKeyed, EntriesKeyed, Saves;
    match op {
      case Open(_, _, _, _) => OpenSound(s, op, s');
      case Close(_) => EmptyIsKeyed();
      case Delete(_, _, _) => DeleteSound(s, op, s');
      case NewFolder(name) => FolderStaysSound(s, name);
      case DropFolder(name) => DropSound(s, op, s');
      case UseFolder(name) => FolderStaysSound(s, name);
      case _ => EntrySound(s, op, s');
    }
  }

  lemma DeleteSound(s: State, op: Op, s': State)
    requires op.Delete? && IsSound(s) && Step(s, op, s')
    ensures IsSound(s')
  {
    hide LoadFile, WellKeyed, Saves;
    EmptyIsKeyed();
  }

  lemma DropSound(s: State, op: Op, s': State)
    requires op.DropFolder? && IsSound(s) && Step(s, op, s')
    ensures IsSound(s')
  {
    hide LoadFile, EntriesKeyed;
  }

  lemma EntrySound(s: State, op: Op, s': State)
    requires (op.Write? || op.Erase? || op.Rename?) && IsSound(s) && Step(s, op, s')
    ensures IsSound(s')
  {
    hide LoadFile, WellKeyed;
    EntriesOfSound(s);
    FolderStaysSound(s, s.current);
    if op.Write? {
      EntriesStayKeyed(WithFolder(s, s.current), Entries(s)[op.key := Entry(op.key, op.value, op.kind)]);
    } else if op.Erase? {
      EntriesStayKeyed(s, Entries(s) - {op.key});
    } else if op.oldKey in Entries(s) {
      EntriesStayKeyed(s, (Entries(s) - {op.oldKey})[op.newKey := Entries(s)[op.oldKey].(key := op.newKey)]);
    }
  }

  /** A call touches no file but that of the open wallet and one it is asked to delete. */
  lemma OtherFilesStay(s: State, op: Op, s': State, name: Str)
    requires Step(s, op, s')
    requires !(s.isOpen && s.name == name) && !(op.Delete? && op.name == name)
    ensures name in s'.disk <==> name in s.disk
    ensures name in s.disk ==> s'.disk[name] == s.disk[name]
  {
    hide LoadFile, Saves;
  }

  /** A close that worked left on disk what was in memory, exactly when it was within the reader's caps. */
  lemma ClosedIsOnDisk(s: State, canWrite: bool, s': State)
    requires IsSound(s) && s.isOpen && Step(s, Close(canWrite), s') && !s'.isOpen
    ensures s.name in s'.disk
    ensures LoadFile(s'.disk[s.name], s.key) == Body(Parsed(true, s.folders)) <==> Capped(s.folders)
  {
    hide LoadFile, WellKeyed, Capped, Saves;
    if s.dirty {
      LoadAfterSave(s'.disk[s.name], s.folders, s.key);
    } else {
      LoadedIsCapped(s'.disk[s.name], s.key);
    }
  }

  /** What openWallet finds in m_folders after the close it ignores the outcome of. */
  function LeftOver(s: State, canWrite: bool): Folders {
    if s.isOpen && !Stuck(s, canWrite) then map[] else s.folders
  }

  /** A wallet without a file starts with just the default folder exactly when nothing was left over. */
  lemma NewStartsEmpty(s: State, op: Op, s': State)
    requires op.Open? && Step(s, op, s') && op.name !in s'.disk
    ensures s'.isOpen && s'.dirty
    ensures s'.folders == EMPTY_DEFAULT <==> LeftOver(s, op.canWrite).Keys <= {DEFAULT_FOLDER}
  {
    hide LoadFile, Saves;
    var left := LeftOver(s, op.canWrite);
    assert s'.folders == left[DEFAULT_FOLDER := Folder(DEFAULT_FOLDER, map[])];
    assert s'.folders.Keys == left.Keys + {DEFAULT_FOLDER};
    if left.Keys <= {DEFAULT_FOLDER} {
      assert s'.folders.Keys == {DEFAULT_FOLDER};
    } else {
      var k :| k in left.Keys && k != DEFAULT_FOLDER;
      assert k in s'.folders;
    }
  }

  // ---------------------------------------------------------------- whole runs

  function Start(disk: map<Str, Str>): State {
    State([], [], DEFAULT_FOLDER, map[], false, false, disk)
  }

  /** The states of a run of the calls, from a new object on. */
  ghost predicate IsRun(disk: map<Str, Str>, ops: seq<Op>, trace: seq<State>) {
    && |trace| == |ops| + 1 && trace[0] == Start(disk)
    && forall i :: 0 <= i < |ops| ==> Step(trace[i], ops[i], trace[i + 1])
  }

  /** Some call before the n-th was the bad open. */
  ghost predicate WentBad(ops: seq<Op>, trace: seq<State>, n: nat)
    requires n <= |ops| < |trace| && forall i :: 0 <= i < |ops| ==> OpOk(ops[i])
  {
    exists i :: 0 <= i < n && BadOpen(trace[i], ops[i])
  }

  lemma {:induction false} SoundUntilBad(disk: map<Str, Str>, ops: seq<Op>, trace: seq<State>, n: nat)
    requires IsRun(disk, ops, trace) && n <= |ops| && forall i :: 0 <= i < |ops| ==> OpOk(ops[i])
    requires !WentBad(ops, trace, n)
    ensures IsSound(trace[n])
  {
    hide LoadFile, WellKeyed, Step, BadOpen;
    if n == 0 {
      EmptyIsKeyed();
    } else {
      SoundUntilBad(disk, ops, trace, n - 1);
      StepSound(trace[n - 1], ops[n - 1], trace[n]);
    }
  }

  /** Every run: all its states are sound exactly when none of its opens was the bad one. */
  lemma RunsAreSound(disk: map<Str, Str>, ops: seq<Op>, trace: seq<State>)
    requires IsRun(disk, ops, trace) && forall i :: 0 <= i < |ops| ==> OpOk(ops[i])
    ensures (forall n :: 0 <= n <= |ops| ==> IsSound(trace[n])) <==> !WentBad(ops, trace, |ops|)
  {
    hide LoadFile, WellKeyed, Step, BadOpen;
    if !WentBad(ops, trace, |ops|) {
      forall n | 0 <= n <= |ops|
        ensures IsSound(trace[n])
      {
        SoundUntilBad(disk, ops, trace, n);
      }
    } else {
      var i :| 0 <= i < |ops| && BadOpen(trace[i], ops[i]);
      if IsSound(trace[i]) {
        StepSound(trace[i], ops[i], trace[i + 1]);
      }
    }
  }
}
