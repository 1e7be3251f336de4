/**
 * The kernel log buffer of kernel/src/log_service.rs.
 */
module LogRing {
  import opened Text

  const CAPACITY: nat := 256
  const MESSAGE_MAX: nat := 128
  const SUBSYSTEM_MAX: nat := 16

  datatype Entry = Entry(timestamp: nat, level: nat, subsystem: Str, message: Str)

  const EMPTY := Entry(0, 4, [], [])

  function Cut(s: Str, max: nat): (r: Str)
    ensures r <= s && |r| == if |s| <= max then |s| else max
  {
    if |s| <= max then s else s[..max]
  }

  /** The newest entries, at most a full buffer of them, oldest first. */
  function Newest(history: seq<Entry>): (r: seq<Entry>)
    ensures |r| == if |history| < 256 then |history| else 256
  {
    if |history| <= CAPACITY then history else history[|history| - CAPACITY..]
  }

  /** They are the end of the history. */
  lemma NewestIsTail(history: seq<Entry>)
    ensures Newest(history) == history[|history| - |Newest(history)|..]
  {
  }

  /** Where the k-th entry pushed since the last clear is put. */
  function Slot(k: nat): (r: nat)
    ensures r < CAPACITY
  {
    k % CAPACITY
  }

  /** Entries that are in the buffer together sit in different slots. */
  lemma SlotsDistinct(n: nat, i: nat, j: nat)
    requires i < j < n && n - i <= CAPACITY
    ensures Slot(i) != Slot(j)
  {
  }

  lemma NextSlot(n: nat)
    ensures (Slot(n) + 1) % CAPACITY == Slot(n + 1)
  {
  }

  class LogBuffer {
    const entries: array<Entry>
    var head: nat
    var count: nat
    /** Everything pushed since the last clear. */
    ghost var history: seq<Entry>

    ghost predicate Valid()
      reads this, entries
    {
      && entries.Length == CAPACITY
      && head == Slot(|history|)
      && count == |Newest(history)|
      && (forall k :: |history| - count <= k < |history| ==> entries[Slot(k)] == history[k])
    }

    constructor ()
      ensures Valid() && history == [] && fresh(entries)
    {
      entries := new Entry[CAPACITY](_ => EMPTY);
      head, count, history := 0, 0, [];
    }

    /** push */
    method Push(e: Entry)
      requires Valid()
      modifies this, entries
      ensures Valid() && history == old(history) + [e]
    {
      hide Slot;
      ghost var n := |history|;
      NextSlot(n);
      entries[head] := e;
      head := (head + 1) % CAPACITY;
      if count < CAPACITY {
        count := count + 1;
      }
      history := history + [e];
      forall k | n + 1 - count <= k < n
        ensures entries[Slot(k)] == history[k]
      {
        SlotsDistinct(n + 1, k, n);
      }
    }

    /** klog: the tag and the message are cut to their fields */
    method Log(level: nat, subsystem: Str, message: Str, now: nat)
      requires Valid()
      modifies this, entries
      ensures Valid()
      ensures history == old(history) + [Entry(now, level, Cut(subsystem, 16), Cut(message, 128))]
    {
      Push(Entry(now, level, Cut(subsystem, SUBSYSTEM_MAX), Cut(message, MESSAGE_MAX)));
    }

    /** clear */
    method Clear()
      requires Valid()
      modifies this
      ensures Valid() && history == []
    {
      head, count := 0, 0;
      history := [];
    }

    /** tail */
    function Tail(): nat
      reads this
    {
      if count < CAPACITY then 0 else head
    }

    /** get: the i-th oldest entry */
    method Get(i: nat) returns (r: Option<Entry>)
      requires Valid()
      ensures r == if i < count then Some(Newest(history)[i]) else None
    {
      if i >= count {
        return None;
      }
      ghost var k := |history| - count + i;
      assert (Tail() + i) % CAPACITY == Slot(k) by {
        if count == CAPACITY {
          WrapsAround(|history|, i);
        }
      }
      r := Some(entries[(Tail() + i) % CAPACITY]);
    }

    /** log_drain: what the callback is called with, in order */
    method Drain() returns (visited: seq<Entry>)
      requires Valid()
      ensures visited == Newest(history)
    {
      visited := [];
      var i := 0;
      while i < count
        invariant 0 <= i <= count
        invariant visited == Newest(history)[..i]
      {
        var e := Get(i);
        visited := visited + [e.value];
        i := i + 1;
      }
    }
  }

  lemma WrapsAround(n: nat, i: nat)
    requires n >= CAPACITY && i < CAPACITY
    ensures (Slot(n) + i) % CAPACITY == Slot(n - CAPACITY + i)
  {
  }

  // ---------------------------------------------------------------- whole runs

  datatype Op = Pushed(e: Entry) | Cleared

  /** What was pushed since the last clear. */
  function Since(ops: seq<Op>): seq<Entry> {
    if ops == [] then []
    else
      var n := |ops| - 1;
      match ops[n]
      case Pushed(e) => Since(ops[..n]) + [e]
      case Cleared => []
  }

  /** Any run of pushes and clears: draining shows the newest entries since the last clear. */
  method Execute(ops: seq<Op>) returns (visited: seq<Entry>)
    ensures visited == Newest(Since(ops))
    ensures |visited| == (if |Since(ops)| < 256 then |Since(ops)| else 256)
    ensures visited == Since(ops)[|Since(ops)| - |visited|..]
  {
    hide Slot, Newest;
    var b := new LogBuffer();
    var i := 0;
    while i < |ops|
      invariant 0 <= i <= |ops|
      invariant fresh(b) && fresh(b.entries) && b.Valid() && b.history == Since(ops[..i])
    {
      assert ops[..i + 1][..i] == ops[..i];
      match ops[i] {
        case Pushed(e) => b.Push(e);
        case Cleared => b.Clear();
      }
      i := i + 1;
    }
    assert ops[..i] == ops;
    visited := b.Drain();
    NewestIsTail(Since(ops));
  }
}
