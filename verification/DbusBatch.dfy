/**
 * The message batching of userland/integration/dbus-optimize.cpp.
 *
 * Pending messages sit in a fixed array that every flush compacts in place. Seen
 * from outside it is one queue per destination: what was handed to the bus
 * followed by what still waits is what was accepted, in order.
 */
module DbusBatch {
  import opened Text

  const MAX_QUEUE: nat := 256
  const MAX_DEST: nat := 256
  const BODY_SIZE: nat := 4096
  const DEFAULT_MAX_BATCH: nat := 32

  /** dbus_opt_message; a null body is None. */
  datatype Message = Message(iface: Str, member: Str, body: Option<Str>, bodyLen: nat)

  /** batch_entry, with the message body kept by value in data. */
  datatype Slot = Slot(dest: Str, iface: Str, member: Str, bodyLen: nat, data: Str, valid: bool)

  const EMPTY_SLOT := Slot([], [], [], 0, seq(BODY_SIZE, _ => 0), false)

  /** A message as the bus sees it. */
  datatype Mail = Mail(dest: Str, iface: Str, member: Str, payload: Str)

  predicate SlotOk(s: Slot) {
    |s.dest| < MAX_DEST && |s.data| == BODY_SIZE && s.bodyLen <= BODY_SIZE
  }

  function MailOf(s: Slot): Mail
    requires SlotOk(s)
  {
    Mail(s.dest, s.iface, s.member, s.data[..s.bodyLen])
  }

  // ---------------------------------------------------------------- views of a queue

  function Mails(slots: seq<Slot>): (r: seq<Mail>)
    requires forall i :: 0 <= i < |slots| ==> SlotOk(slots[i])
    ensures |r| == |slots|
    ensures forall i :: 0 <= i < |slots| ==> r[i] == MailOf(slots[i])
  {
    seq(|slots|, i requires 0 <= i < |slots| => MailOf(slots[i]))
  }

  /** The mails for one destination, in order. */
  function For(d: Str, mails: seq<Mail>): seq<Mail> {
    if mails == [] then []
    else
      var n := |mails| - 1;
      For(d, mails[..n]) + (if mails[n].dest == d then [mails[n]] else [])
  }

  /** The mails for all other destinations, in order. */
  function Others(d: Str, mails: seq<Mail>): seq<Mail> {
    if mails == [] then []
    else
      var n := |mails| - 1;
      Others(d, mails[..n]) + (if mails[n].dest != d then [mails[n]] else [])
  }

  lemma {:induction false} ForConcat(d: Str, a: seq<Mail>, b: seq<Mail>)
    ensures For(d, a + b) == For(d, a) + For(d, b)
  {
    if b == [] {
      assert a + b == a;
    } else {
      var n := |b| - 1;
      assert (a + b)[..|a| + n] == a + b[..n];
      ForConcat(d, a, b[..n]);
      Assoc(For(d, a), For(d, b[..n]), if b[n].dest == d then [b[n]] else []);
    }
  }

  lemma ForAppend(d: Str, mails: seq<Mail>, m: Mail)
    ensures For(d, mails + [m]) == if m.dest == d then For(d, mails) + [m] else For(d, mails)
    ensures Others(d, mails + [m]) == if m.dest != d then Others(d, mails) + [m] else Others(d, mails)
  {
    assert (mails + [m])[..|mails|] == mails;
  }

  lemma {:induction false} ForOthers(d: Str, x: Str, mails: seq<Mail>)
    ensures For(x, Others(d, mails)) == if x == d then [] else For(x, mails)
  {
    if mails != [] {
      var n := |mails| - 1;
      ForOthers(d, x, mails[..n]);
      ForAppend(x, Others(d, mails[..n]), mails[n]);
      assert mails[n].dest == d ==> Others(d, mails) == Others(d, mails[..n]);
    }
  }

  lemma {:induction false} ForFor(d: Str, x: Str, mails: seq<Mail>)
    ensures For(x, For(d, mails)) == if x == d then For(d, mails) else []
  {
    if mails != [] {
      var n := |mails| - 1;
      ForFor(d, x, mails[..n]);
      ForAppend(x, For(d, mails[..n]), mails[n]);
      assert mails[n].dest != d ==> For(d, mails) == For(d, mails[..n]);
    }
  }

  lemma {:induction false} OthersMembers(d: Str, mails: seq<Mail>)
    ensures forall m :: m in Others(d, mails) <==> m in mails && m.dest != d
    ensures |Others(d, mails)| + |For(d, mails)| == |mails|
  {
    if mails != [] {
      var n := |mails| - 1;
      OthersMembers(d, mails[..n]);
      assert mails == mails[..n] + [mails[n]];
    }
  }

  /** Per destination: sent, then pending, is accepted. */
  ghost predicate Conserved(sent: seq<Mail>, pending: seq<Mail>, accepted: seq<Mail>) {
    forall d :: For(d, sent) + For(d, pending) == For(d, accepted)
  }

  /** Flushing one destination neither loses, repeats nor reorders anything. */
  lemma FlushConserves(d: Str, sent: seq<Mail>, pending: seq<Mail>, accepted: seq<Mail>)
    requires Conserved(sent, pending, accepted)
    ensures Conserved(sent + For(d, pending), Others(d, pending), accepted)
  {
    hide For, Others;
    forall x
      ensures For(x, sent + For(d, pending)) + For(x, Others(d, pending)) == For(x, accepted)
    {
      ForConcat(x, sent, For(d, pending));
      ForFor(d, x, pending);
      ForOthers(d, x, pending);
      assert For(x, sent) + For(x, pending) == For(x, accepted);
      assert For(x, sent) + [] == For(x, sent);
      assert For(d, sent) + For(d, pending) + [] == For(d, sent) + For(d, pending);
    }
  }

  lemma AppendConserves(sent: seq<Mail>, pending: seq<Mail>, accepted: seq<Mail>, m: Mail)
    requires Conserved(sent, pending, accepted)
    ensures Conserved(sent, pending + [m], accepted + [m])
  {
    forall x
      ensures For(x, sent) + For(x, pending + [m]) == For(x, accepted + [m])
    {
      ForConcat(x, pending, [m]);
      ForConcat(x, accepted, [m]);
      Assoc(For(x, sent), For(x, pending), For(x, [m]));
      assert For(x, sent) + For(x, pending) == For(x, accepted);
    }
  }

  lemma SendNowConserves(sent: seq<Mail>, accepted: seq<Mail>, m: Mail)
    requires Conserved(sent, [], accepted)
    ensures Conserved(sent + [m], [], accepted + [m])
  {
    forall x
      ensures For(x, sent + [m]) + For(x, []) == For(x, accepted + [m])
    {
      ForConcat(x, sent, [m]);
      ForConcat(x, accepted, [m]);
      assert For(x, sent) + For(x, []) == For(x, accepted);
    }
  }

  /** What the auto-flush leaves of a queue: it counts the slots that carry the caller's name. */
  function Limited(dest: Str, q: seq<Mail>, max: nat): seq<Mail> {
    if |For(dest, q)| < max then q else Others(dest, q)
  }

  lemma {:induction false} ForNone(d: Str, mails: seq<Mail>)
    requires forall i :: 0 <= i < |mails| ==> mails[i].dest != d
    ensures For(d, mails) == []
  {
    if mails != [] {
      ForNone(d, mails[..|mails| - 1]);
    }
  }

  lemma {:induction false} ForAll(d: Str, mails: seq<Mail>)
    requires forall i :: 0 <= i < |mails| ==> mails[i].dest == d
    ensures For(d, mails) == mails
  {
    if mails != [] {
      ForAll(d, mails[..|mails| - 1]);
    }
  }

  /** Every queued name fits its field. */
  ghost predicate NamesFit(mails: seq<Mail>) {
    forall i :: 0 <= i < |mails| ==> |mails[i].dest| < MAX_DEST
  }

  /** A queue as full of dest as the limit allows gets one more message for dest. */
  ghost predicate OneMore(dest: Str, q: seq<Mail>, max: nat) {
    && q != [] && NamesFit(q) && q[|q| - 1].dest == Stored(dest)
    && |For(Stored(dest), q[..|q| - 1])| < max
  }

  /** The limit per destination is kept exactly for names that fit the field; a longer name is never counted. */
  lemma LimitExact(dest: Str, max: nat)
    requires max >= 1
    ensures (forall q :: OneMore(dest, q, max) ==> |For(Stored(dest), Limited(dest, q, max))| < max)
            <==> |dest| < 256
  {
    hide For, Others;
    if |dest| < MAX_DEST {
      forall q | OneMore(dest, q, max)
        ensures |For(Stored(dest), Limited(dest, q, max))| < max
      {
        ForOthers(dest, dest, q);
      }
    } else {
      var q := seq(max, _ => Mail(Stored(dest), [], [], []));
      LongNeverFlushes(dest, q, max);
      ForAll(Stored(dest), q);
      ForAll(Stored(dest), q[..max - 1]);
      assert OneMore(dest, q, max);
    }
  }

  /** Nothing is flushed for a name too long for the field. */
  lemma LongNeverFlushes(dest: Str, q: seq<Mail>, max: nat)
    requires |dest| >= MAX_DEST && NamesFit(q) && max >= 1
    ensures Limited(dest, q, max) == q
  {
    hide For;
    ForNone(dest, q);
  }

  /** Every destination but this one has the same messages waiting. */
  ghost predicate OthersWait(dest: Str, before: seq<Mail>, after: seq<Mail>) {
    forall d :: d != dest && d != Stored(dest) ==> For(d, after) == For(d, before)
  }

  lemma OthersWaitTrans(dest: Str, a: seq<Mail>, b: seq<Mail>, c: seq<Mail>)
    ensures OthersWait(dest, a, a)
    ensures OthersWait(dest, a, b) && OthersWait(dest, b, c) ==> OthersWait(dest, a, c)
  {
  }

  lemma FlushLeavesOthers(dest: Str, pending: seq<Mail>)
    ensures OthersWait(dest, pending, Others(dest, pending))
  {
    hide For, Others, Stored;
    forall d | d != dest && d != Stored(dest)
      ensures For(d, Others(dest, pending)) == For(d, pending)
    {
      ForOthers(dest, d, pending);
    }
  }

  lemma QueueLeavesOthers(dest: Str, pending: seq<Mail>, x: Mail)
    requires x.dest == Stored(dest)
    ensures OthersWait(dest, pending, pending + [x])
  {
    hide For, Stored;
    forall d | d != dest && d != Stored(dest)
      ensures For(d, pending + [x]) == For(d, pending)
    {
      ForAppend(d, pending, x);
    }
  }

  /** When nothing waits, every destination has got exactly what was accepted for it. */
  lemma DrainedIsDelivered(sent: seq<Mail>, accepted: seq<Mail>, d: Str)
    requires Conserved(sent, [], accepted)
    ensures For(d, sent) == For(d, accepted)
  {
    assert For(d, sent) + For(d, []) == For(d, accepted);
  }

  lemma AllSent(early: seq<Mail>, sent: seq<Mail>, accepted: seq<Mail>)
    requires Conserved(early, [], accepted) && early <= sent
    ensures forall d :: For(d, accepted) <= For(d, sent)
  {
    forall d
      ensures For(d, accepted) <= For(d, sent)
    {
      DrainedIsDelivered(early, accepted, d);
      assert sent == early + sent[|early|..];
      ForConcat(d, early, sent[|early|..]);
    }
  }

  // ---------------------------------------------------------------- slot loops

  /** The slots still valid, in order. */
  function Keep(slots: seq<Slot>): seq<Slot> {
    if slots == [] then []
    else
      var n := |slots| - 1;
      Keep(slots[..n]) + (if slots[n].valid then [slots[n]] else [])
  }

  lemma KeepStart(slots: seq<Slot>)
    ensures Keep(slots[..0]) == []
  {
  }

  lemma KeepStep(slots: seq<Slot>, n: nat)
    requires n < |slots|
    ensures Keep(slots[..n + 1]) == if slots[n].valid then Keep(slots[..n]) + [slots[n]] else Keep(slots[..n])
  {
    assert slots[..n + 1][..n] == slots[..n];
  }

  function Unmarked(s: Slot, d: Str): Slot {
    if s.dest == d then s.(valid := false) else s
  }

  function Mark(slots: seq<Slot>, d: Str): (r: seq<Slot>)
    ensures |r| == |slots|
    ensures forall i :: 0 <= i < |slots| ==> r[i] == Unmarked(slots[i], d)
  {
    seq(|slots|, i requires 0 <= i < |slots| => Unmarked(slots[i], d))
  }

  ghost predicate SlotsOk(slots: seq<Slot>) {
    forall i :: 0 <= i < |slots| ==> SlotOk(slots[i]) && slots[i].valid
  }

  lemma MailsStep(slots: seq<Slot>, n: nat)
    requires n < |slots| && forall i :: 0 <= i < |slots| ==> SlotOk(slots[i])
    ensures Mails(slots[..n + 1]) == Mails(slots[..n]) + [MailOf(slots[n])]
    ensures n + 1 == |slots| ==> Mails(slots) == Mails(slots[..n]) + [MailOf(slots[n])]
  {
  }

  lemma MailsAppend(slots: seq<Slot>, s: Slot)
    requires SlotOk(s) && forall i :: 0 <= i < |slots| ==> SlotOk(slots[i])
    ensures Mails(slots + [s]) == Mails(slots) + [MailOf(s)]
  {
  }

  lemma SelectStep(done: seq<Mail>, slots: seq<Slot>, i: nat, d: Str)
    requires i < |slots| && forall k :: 0 <= k < |slots| ==> SlotOk(slots[k])
    ensures done + For(d, Mails(slots[..i + 1]))
            == if slots[i].dest == d then done + For(d, Mails(slots[..i])) + [MailOf(slots[i])]
               else done + For(d, Mails(slots[..i]))
  {
    hide For, Mails;
    MailsStep(slots, i);
    ForAppend(d, Mails(slots[..i]), MailOf(slots[i]));
    Assoc(done, For(d, Mails(slots[..i])), [MailOf(slots[i])]);
  }

  lemma NoneLong(slots: seq<Slot>, dest: Str)
    requires SlotsOk(slots) && |dest| >= MAX_DEST
    ensures For(dest, Mails(slots)) == []
  {
    ForNone(dest, Mails(slots));
  }

  function KeepOther(slots: seq<Slot>, d: Str): seq<Slot> {
    if slots == [] then []
    else
      var n := |slots| - 1;
      if slots[n].dest != d then KeepOther(slots[..n], d) + [slots[n]] else KeepOther(slots[..n], d)
  }

  lemma {:induction false} KeepMarkedIsOther(slots: seq<Slot>, d: Str)
    requires SlotsOk(slots)
    ensures Keep(Mark(slots, d)) == KeepOther(slots, d)
  {
    if slots == [] {
      assert Mark(slots, d) == [];
    } else {
      var n := |slots| - 1;
      KeepMarkedIsOther(slots[..n], d);
      assert Mark(slots, d)[..n] == Mark(slots[..n], d);
      assert slots[n].dest == d ==> Keep(Mark(slots, d)) == Keep(Mark(slots[..n], d)) + [];
    }
  }

  lemma {:induction false} MailsOfOther(slots: seq<Slot>, d: Str)
    requires SlotsOk(slots)
    ensures SlotsOk(KeepOther(slots, d))
    ensures Mails(KeepOther(slots, d)) == Others(d, Mails(slots))
  {
    hide Others, Mails, For, SlotOk;
    if slots == [] {
      NoMails(d);
    } else {
      var n := |slots| - 1;
      var rest, s := slots[..n], slots[n];
      MailsOfOther(rest, d);
      MailsStep(slots, n);
      ForAppend(d, Mails(rest), MailOf(s));
      MailsAppend(KeepOther(rest, d), s);
    }
  }

  /** snprintf into a 256-byte field. */
  function Stored(dest: Str): (r: Str)
    ensures |r| < MAX_DEST
    ensures r == dest <==> |dest| < MAX_DEST
  {
    if |dest| < MAX_DEST then dest else dest[..MAX_DEST - 1]
  }

  /** What a C string can hold. */
  predicate IsName(s: Str) {
    forall i :: 0 <= i < |s| ==> s[i] != 0
  }

  /**
   * Two names share a queue when their first 255 bytes agree and one of them is
   * longer, so a queue belongs to one name exactly when that name is shorter than
   * 255 bytes.
   */
  lemma QueueIsPrivate(dest: Str)
    requires IsName(dest)
    ensures (forall other :: IsName(other) && Stored(other) == Stored(dest) ==> other == dest)
            <==> |dest| < 255
  {
    if |dest| == MAX_DEST - 1 {
      var other := dest + [1];
      assert other[..MAX_DEST - 1] == dest;
      assert IsName(other) && Stored(other) == Stored(dest) && other != dest;
    } else if |dest| >= MAX_DEST {
      var other := Stored(dest);
      assert IsName(other) && Stored(other) == Stored(dest) && other != dest;
    }
  }

  function CopyLen(m: Message): (n: nat)
    ensures n <= BODY_SIZE
  {
    if m.bodyLen > BODY_SIZE then BODY_SIZE else m.bodyLen
  }

  /** A body pointer, when there is one, points at bodyLen bytes. */
  predicate MessageOk(m: Message) {
    m.body.Some? ==> |m.body.value| >= m.bodyLen
  }

  /** x is message m for dest, queued: long names and bodies are cut. */
  predicate Queued(dest: Str, m: Message, x: Mail)
    requires MessageOk(m)
  {
    && x.dest == Stored(dest) && x.iface == m.iface && x.member == m.member
    && |x.payload| == CopyLen(m)
    && (m.body.Some? ==> x.payload == m.body.value[..CopyLen(m)])
  }

  /** x is message m for dest, sent at once: nothing is cut. */
  predicate Direct(dest: Str, m: Message, x: Mail)
    requires MessageOk(m)
  {
    && x.dest == dest && x.iface == m.iface && x.member == m.member
    && x.payload == if m.body.Some? then m.body.value[..m.bodyLen] else []
  }

  /** The slot after the message was copied into it; without a body the old bytes stay. */
  function Filled(was: Slot, dest: Str, m: Message): (s: Slot)
    requires |was.data| == BODY_SIZE && MessageOk(m)
    ensures SlotOk(s) && s.valid && Queued(dest, m, MailOf(s))
  {
    var n := CopyLen(m);
    var data := if m.body.Some? then m.body.value[..n] + was.data[n..] else was.data;
    Slot(Stored(dest), m.iface, m.member, n, data, true)
  }

  /** The batch window in whole seconds, at least one, has passed. */
  predicate Elapsed(seconds: int, intervalMs: nat) {
    seconds >= 1 && seconds >= intervalMs / 1000
  }

  /** A send at t milliseconds finds the window passed that began at l: the clock shows whole seconds. */
  predicate DueAt(l: nat, t: nat, intervalMs: nat) {
    Elapsed(t / 1000 - l / 1000, intervalMs)
  }

  /** The window the code really waits, in seconds. */
  function Seconds(intervalMs: nat): (k: nat)
    ensures k >= 1
  {
    if intervalMs < 1000 then 1 else intervalMs / 1000
  }

  /** Whatever the window, some sends are early or late against the promised milliseconds. */
  lemma WindowMissed(ms: nat) returns (l: nat, t: nat)
    requires ms > 0
    ensures l <= t && (DueAt(l, t, ms) <==> t - l < ms)
    ensures ms < 1000 <==> !DueAt(l, t, ms)
  {
    if ms < 1000 {
      l, t := 0, 999;
    } else {
      l, t := 999, 1000 * (ms / 1000);
    }
  }

  /**
   * What the code does keep: a send is due once the whole seconds of the window have
   * passed and never when a second less has; both bounds are reached.
   */
  lemma WindowBounds(ms: nat)
    ensures forall l: nat, t: nat :: l <= t && t - l >= 1000 * Seconds(ms) ==> DueAt(l, t, ms)
    ensures forall l: nat, t: nat :: l <= t && DueAt(l, t, ms) ==> t - l > 1000 * (Seconds(ms) - 1)
    ensures exists l: nat, t: nat :: l <= t && t - l == 1000 * Seconds(ms) - 1 && !DueAt(l, t, ms)
    ensures exists l: nat, t: nat :: l <= t && t - l == 1000 * (Seconds(ms) - 1) + 1 && DueAt(l, t, ms)
  {
    var k := Seconds(ms);
    assert !DueAt(0, 1000 * k - 1, ms);
    assert DueAt(999, 1000 * k, ms);
  }

  /** On no window is the promise in milliseconds kept at all times. */
  lemma WindowNeverExact(ms: nat)
    requires ms > 0
    ensures !(forall l: nat, t: nat :: l <= t ==> (DueAt(l, t, ms) <==> t - l >= ms))
  {
    var l, t := WindowMissed(ms);
  }

  // ---------------------------------------------------------------- the subsystem

  class Batcher {
    const queue: array<Slot>
    var count: nat
    var intervalMs: nat
    var maxBatch: nat
    var enabled: bool
    var lastFlush: int
    var initialized: bool

    var statSent: nat
    var statBatched: nat
    var statFlushes: nat

    ghost var sent: seq<Mail>
    ghost var accepted: seq<Mail>
    ghost var sentBefore: nat

    ghost predicate Shape()
      reads this, queue
    {
      && queue.Length == MAX_QUEUE
      && count <= MAX_QUEUE
      && (forall i :: 0 <= i < queue.Length ==> |queue[i].data| == BODY_SIZE)
      && SlotsOk(queue[..count])
    }

    ghost function Pending(): seq<Mail>
      reads this, queue
      requires Shape()
    {
      Mails(queue[..count])
    }

    /** What every operation keeps. */
    ghost predicate Valid()
      reads this, queue
    {
      && Shape()
      && Conserved(sent, Pending(), accepted)
      && 1 <= maxBatch <= MAX_QUEUE
      && (!enabled || !initialized ==> count == 0)
      && (initialized ==> statSent + sentBefore == |sent|)
      && (initialized ==> statBatched <= statSent)
    }

    /** A send at this time finds the window passed and something waiting. */
    ghost predicate Due(now: int)
      reads this
    {
      enabled && intervalMs != 0 && Elapsed(now - lastFlush, intervalMs) && count > 0
    }

    ghost function CurrentMode(): Mode
      reads this
    {
      if !initialized then Down else if enabled then Batching else Immediate
    }

    constructor ()
      ensures Valid() && fresh(queue) && CurrentMode() == Down
      ensures sent == [] && accepted == []
    {
      queue := new Slot[MAX_QUEUE](_ => EMPTY_SLOT);
      count, intervalMs, maxBatch := 0, 0, DEFAULT_MAX_BATCH;
      enabled, initialized, lastFlush := false, false, 0;
      statSent, statBatched, statFlushes := 0, 0, 0;
      sent, accepted, sentBefore := [], [], 0;
    }

    /** How many queued messages name dest. */
    method CountFor(dest: Str) returns (n: nat)
      requires Shape()
      ensures n == |For(dest, Pending())|
    {
      n := 0;
      var i := 0;
      assert Mails(queue[..0]) == [];
      while i < count
        invariant 0 <= i <= count
        invariant n == |For(dest, Mails(queue[..i]))|
      {
        MailsStep(queue[..count], i);
        assert queue[..count][..i] == queue[..i] && queue[..count][..i + 1] == queue[..i + 1];
        ForAppend(dest, Mails(queue[..i]), MailOf(queue[i]));
        if queue[i].valid && queue[i].dest == dest {
          n := n + 1;
        }
        i := i + 1;
      }
    }

    /** Send and invalidate slot i if it is for dest. */
    method SendSlot(i: nat, dest: Str) returns (hit: bool)
      requires i < queue.Length && SlotOk(queue[i]) && queue[i].valid
      modifies this`statSent, this`statBatched, this`sent, queue
      ensures hit <==> old(queue[i]).dest == dest
      ensures queue[i] == Unmarked(old(queue[i]), dest)
      ensures forall k :: 0 <= k < queue.Length && k != i ==> queue[k] == old(queue[k])
      ensures sent == if hit then old(sent) + [MailOf(old(queue[i]))] else old(sent)
      ensures statSent == old(statSent) + (if hit then 1 else 0)
      ensures statBatched == old(statBatched) + (if hit then 1 else 0)
    {
      hit := queue[i].valid && queue[i].dest == dest;
      if hit {
        statSent := statSent + 1;
        statBatched := statBatched + 1;
        sent := sent + [MailOf(queue[i])];
        queue[i] := queue[i].(valid := false);
      }
    }

    /** The second loop of flush_batch_for_dest: send and invalidate. */
    method SendAll(dest: Str) returns (flushed: nat)
      requires Shape()
      modifies this`statSent, this`statBatched, this`sent, queue
      ensures queue[..count] == Mark(old(queue[..count]), dest)
      ensures forall i :: 0 <= i < queue.Length ==> |queue[i].data| == BODY_SIZE
      ensures sent == old(sent) + For(dest, old(Pending()))
      ensures flushed == |For(dest, old(Pending()))|
      ensures statSent == old(statSent) + flushed && statBatched == old(statBatched) + flushed
    {
      hide For, Mails, SlotOk;
      ghost var all, was, sent0 := queue[..], queue[..count], sent;
      flushed := 0;
      var i := 0;
      NoMails(dest);
      assert was[..0] == [];
      while i < count
        invariant 0 <= i <= count
        invariant forall k :: 0 <= k < i ==> queue[k] == Unmarked(all[k], dest)
        invariant forall k :: i <= k < queue.Length ==> queue[k] == all[k]
        invariant sent == sent0 + For(dest, Mails(was[..i]))
        invariant flushed == |sent| - |sent0|
        invariant statSent == old(statSent) + flushed && statBatched == old(statBatched) + flushed
      {
        assert all[i] == was[i];
        SelectStep(sent0, was, i, dest);
        var hit := SendSlot(i, dest);
        if hit {
          flushed := flushed + 1;
        }
        i := i + 1;
      }
      assert was[..i] == was;
      assert queue[..count] == Mark(was, dest);
    }

    /** The compaction loop of flush_batch_for_dest. */
    method CompactQueue()
      requires queue.Length == MAX_QUEUE && count <= MAX_QUEUE
      requires forall i :: 0 <= i < queue.Length ==> |queue[i].data| == BODY_SIZE
      modifies this`count, queue
      ensures count <= old(count)
      ensures queue[..count] == Keep(old(queue[..count]))
      ensures forall i :: 0 <= i < queue.Length ==> |queue[i].data| == BODY_SIZE
    {
      hide Keep;
      ghost var was := queue[..count];
      KeepStart(was);
      var write := 0;
      var read := 0;
      while read < count
        invariant 0 <= write <= read <= count
        invariant queue[..write] == Keep(was[..read])
        invariant forall k :: read <= k < count ==> queue[k] == was[k]
        invariant forall i :: 0 <= i < queue.Length ==> |queue[i].data| == BODY_SIZE
        modifies queue
      {
        ghost var kept := queue[..write];
        KeepStep(was, read);
        if queue[read].valid {
          if write != read {
            queue[write] := queue[read];
          }
          assert queue[..write] == kept;
          assert queue[..write + 1] == kept + [was[read]];
          write := write + 1;
        }
        read := read + 1;
      }
      assert was[..read] == was;
      count := write;
    }

    /** flush_batch_for_dest */
    method FlushDest(dest: Str) returns (flushed: nat)
      requires Shape()
      modifies this`statSent, this`statBatched, this`statFlushes, this`sent, this`count, queue
      ensures Shape() && count <= old(count)
      ensures sent == old(sent) + For(dest, old(Pending()))
      ensures Pending() == Others(dest, old(Pending()))
      ensures flushed == |For(dest, old(Pending()))|
      ensures statSent == old(statSent) + flushed && statBatched == old(statBatched) + flushed
    {
      ghost var was := queue[..count];
      flushed := CountFor(dest);
      OthersMembers(dest, Pending());
      if flushed == 0 {
        NoneFor(dest, Pending());
        return;
      }
      flushed := SendAll(dest);
      statFlushes := statFlushes + 1;
      CompactQueue();
      KeepMarkedIsOther(was, dest);
      MailsOfOther(was, dest);
    }

    /** The inner loop of flush_all_batches. */
    static method IsListed(dests: seq<Str>, dest: Str) returns (dup: bool)
      ensures dup <==> dest in dests
    {
      var j := 0;
      while j < |dests|
        invariant 0 <= j <= |dests| && dest !in dests[..j]
      {
        if dests[j] == dest {
          return true;
        }
        j := j + 1;
      }
      dup := false;
    }

    /** The destinations that have something queued, each once. */
    method Destinations() returns (dests: seq<Str>)
      requires Shape()
      ensures forall m :: m in Pending() ==> m.dest in dests
      ensures forall d :: d in dests ==> exists m :: m in Pending() && m.dest == d
      ensures forall i, j :: 0 <= i < j < |dests| ==> dests[i] != dests[j]
      ensures |dests| <= count <= MAX_QUEUE
    {
      hide Mails, SlotOk;
      ghost var from: seq<nat> := [];
      dests := [];
      var i := 0;
      while i < count
        invariant 0 <= i <= count
        invariant |dests| <= i
        invariant forall k :: 0 <= k < i ==> queue[k].dest in dests
        invariant forall j, k :: 0 <= j < k < |dests| ==> dests[j] != dests[k]
        invariant |from| == |dests| && forall j :: 0 <= j < |dests| ==> from[j] < i && queue[from[j]].dest == dests[j]
      {
        if queue[i].valid {
          var dup := IsListed(dests, queue[i].dest);
          if !dup && |dests| < MAX_QUEUE {
            dests := dests + [queue[i].dest];
            from := from + [i];
          }
        }
        i := i + 1;
      }
      forall d | d in dests
        ensures exists m :: m in Pending() && m.dest == d
      {
        var j :| 0 <= j < |dests| && dests[j] == d;
        assert Pending()[from[j]] == MailOf(queue[from[j]]);
      }
    }

    /** flush_all_batches: afterwards nothing waits. */
    method FlushAll(now: int)
      requires Shape()
      requires Conserved(sent, Pending(), accepted)
      modifies this`statSent, this`statBatched, this`statFlushes, this`sent, this`count, this`lastFlush, queue
      ensures Shape() && count == 0 && lastFlush == now
      ensures Conserved(sent, [], accepted)
      ensures old(sent) <= sent
      ensures statSent - old(statSent) == statBatched - old(statBatched) == |sent| - |old(sent)| == old(count)
    {
      hide Conserved, For, Others, Mails;
      var dests := Destinations();
      var i := 0;
      while i < |dests|
        invariant 0 <= i <= |dests|
        invariant Shape() && Conserved(sent, Pending(), accepted)
        invariant forall m :: m in Pending() ==> m.dest in dests[i..]
        invariant old(sent) <= sent
        invariant statSent - old(statSent) == statBatched - old(statBatched) == |sent| - |old(sent)|
        invariant |sent| + count == |old(sent)| + old(count)
      {
        ghost var before, waiting := sent, Pending();
        var n := FlushDest(dests[i]);
        OthersMembers(dests[i], waiting);
        FlushConserves(dests[i], before, waiting, accepted);
        assert forall m :: m in Pending() ==> m in waiting && m.dest != dests[i];
        assert dests[i..] == [dests[i]] + dests[i + 1..];
        i := i + 1;
      }
      assert dests[i..] == [];
      assert forall m :: m !in Pending();
      Memberless(Pending());
      lastFlush := now;
    }

    /** check_batch_timer */
    method CheckTimer(now: int)
      requires Valid()
      modifies this`statSent, this`statBatched, this`statFlushes, this`sent, this`count, this`lastFlush, queue
      ensures Valid() && old(sent) <= sent
      ensures old(Due(now)) ==> count == 0 && lastFlush == now
      ensures !old(Due(now)) ==>
                && sent == old(sent) && count == old(count) && lastFlush == old(lastFlush)
                && queue[..] == old(queue[..])
    {
      if !enabled || intervalMs == 0 {
        return;
      }
      var interval := intervalMs / 1000;
      if interval < 1 {
        interval := 1;
      }
      if now - lastFlush >= interval && count > 0 {
        FlushAll(now);
        assert Pending() == [];
      }
    }

    /** Copy a message into the first free slot, which must exist. */
    method PutSlot(dest: Str, m: Message) returns (ghost x: Mail)
      requires Shape() && count < MAX_QUEUE && MessageOk(m)
      modifies this`count, queue
      ensures Shape() && count == old(count) + 1
      ensures Pending() == old(Pending()) + [x] && Queued(dest, m, x)
    {
      hide Mails, Stored;
      ghost var was := queue[..count];
      queue[count] := Filled(queue[count], dest, m);
      x := MailOf(queue[count]);
      assert queue[..count] == was;
      assert queue[..count + 1] == was + [queue[count]];
      MailsAppend(was, queue[count]);
      count := count + 1;
    }

    /** One round of the queueing loop of dbus_opt_send_batched. */
    method Enqueue(dest: Str, m: Message, now: int) returns (ghost x: Mail)
      requires Valid() && enabled && initialized && MessageOk(m)
      modifies this`statSent, this`statBatched, this`statFlushes, this`sent, this`count, this`lastFlush,
               this`accepted, queue
      ensures Valid() && old(sent) <= sent
      ensures accepted == old(accepted) + [x] && Queued(dest, m, x)
      ensures |dest| < MAX_DEST ==> |For(dest, Pending())| < maxBatch
      ensures Pending() == Limited(dest, (if old(count) < MAX_QUEUE then old(Pending()) else []) + [x], maxBatch)
      ensures old(count) < MAX_QUEUE ==>
                var q := old(Pending()) + [x];
                sent == if |For(dest, q)| < maxBatch then old(sent) else old(sent) + For(dest, q)
      ensures lastFlush == if old(count) < MAX_QUEUE then old(lastFlush) else now
      ensures count <= old(count) + 1
      ensures old(count) < MAX_QUEUE && |dest| >= MAX_DEST ==> count == old(count) + 1 && sent == old(sent)
      ensures old(count) < MAX_QUEUE ==> OthersWait(dest, old(Pending()), Pending())
    {
      hide Conserved, For, Others, Mails, SlotsOk, Stored;
      NoMails(dest);
      if count >= MAX_QUEUE {
        FlushAll(now);
        assert queue[..count] == [];
      }
      ghost var waiting := Pending();
      x := PutSlot(dest, m);
      AppendConserves(sent, waiting, accepted, x);
      accepted := accepted + [x];
      var n := CountFor(dest);
      if |dest| >= MAX_DEST {
        NoneLong(queue[..count], dest);
      }
      if n >= maxBatch {
        ghost var before, queued := sent, Pending();
        var flushed := FlushDest(dest);
        FlushConserves(dest, before, queued, accepted);
        ForOthers(dest, dest, queued);
        FlushLeavesOthers(dest, queued);
      }
      QueueLeavesOthers(dest, waiting, x);
    }

    /** dbus_opt_init */
    method Init(now: int)
      requires Valid()
      modifies this, queue
      ensures Valid() && initialized
      ensures sent == old(sent) && accepted == old(accepted)
      ensures old(initialized) ==> unchanged(this) && queue[..] == old(queue[..])
      ensures !old(initialized) ==>
                && count == 0 && intervalMs == 0 && maxBatch == 32 && !enabled && lastFlush == now
                && statSent == statBatched == statFlushes == 0
    {
      hide Conserved, Mails, SlotsOk, For, SlotOk;
      if initialized {
        return;
      }
      Restart(now);
    }

    /** The part of dbus_opt_init that runs once. */
    method Restart(now: int)
      requires Valid() && !initialized
      modifies this, queue
      ensures Valid() && initialized && !enabled && count == 0
      ensures sent == old(sent) && accepted == old(accepted)
      ensures intervalMs == 0 && maxBatch == DEFAULT_MAX_BATCH && lastFlush == now
      ensures statSent == statBatched == statFlushes == 0
    {
      hide Conserved, Mails, SlotsOk, For, SlotOk;
      assert queue[..count] == [];
      ClearQueue();
      statSent, statBatched, statFlushes := 0, 0, 0;
      sentBefore := |sent|;
      intervalMs, maxBatch, enabled := 0, DEFAULT_MAX_BATCH, false;
      lastFlush := now;
      initialized := true;
    }

    /** memset of the queue; nothing may be waiting. */
    method ClearQueue()
      requires Shape() && count == 0
      modifies queue
      ensures Shape() && Pending() == []
    {
      forall i | 0 <= i < queue.Length {
        queue[i] := EMPTY_SLOT;
      }
      assert queue[..count] == [];
    }

    /** dbus_opt_enable_batching; an interval of zero disables and flushes. */
    method EnableBatching(interval: nat, now: int)
      requires Valid()
      modifies this, queue
      ensures Valid() && initialized == old(initialized)
      ensures accepted == old(accepted) && old(sent) <= sent
      ensures !initialized ==> unchanged(this) && queue[..] == old(queue[..])
      ensures initialized ==> (enabled <==> interval != 0) && intervalMs == interval && maxBatch == old(maxBatch)
      ensures initialized && interval == 0 ==> Pending() == []
      ensures initialized && interval != 0 ==>
                sent == old(sent) && count == old(count) && queue[..] == old(queue[..]) && lastFlush == now
    {
      if !initialized {
        return;
      }
      if interval == 0 {
        if count > 0 {
          FlushAll(now);
        }
        enabled := false;
        intervalMs := 0;
        assert Pending() == [];
        return;
      }
      intervalMs := interval;
      enabled := true;
      lastFlush := now;
    }

    /** dbus_opt_send_batched */
    method SendBatched(dest: Str, messages: seq<Message>, now: int) returns (rc: int)
      requires Valid()
      requires forall k :: 0 <= k < |messages| ==> MessageOk(messages[k])
      modifies this, queue
      ensures Valid() && initialized == old(initialized) && enabled == old(enabled) && maxBatch == old(maxBatch)
      ensures old(sent) <= sent
      ensures rc == -1 <==> |messages| == 0 || !initialized
      ensures rc == -1 ==> accepted == old(accepted) && sent == old(sent)
      ensures rc != -1 ==>
                && rc == 0 && |accepted| == |old(accepted)| + |messages| && old(accepted) <= accepted
                && forall k :: 0 <= k < |messages| ==>
                     var x := accepted[|old(accepted)| + k];
                     if enabled then Queued(dest, messages[k], x) else Direct(dest, messages[k], x)
      ensures rc == 0 && enabled && |dest| < MAX_DEST ==> |For(dest, Pending())| < maxBatch
      ensures rc == 0 && old(Due(now)) ==> forall d :: For(d, old(accepted)) <= For(d, sent)
      ensures rc == 0 && !old(Due(now)) && old(count) + |messages| <= MAX_QUEUE ==>
                OthersWait(dest, old(Pending()), Pending())
      ensures rc == 0 && enabled && !old(Due(now)) && old(count) + |messages| <= MAX_QUEUE && |dest| >= MAX_DEST ==>
                count == old(count) + |messages| && sent == old(sent)
    {
      if |messages| == 0 || !initialized {
        return -1;
      }
      hide For, Mails, SlotsOk, Conserved, OthersWait, Queued, Direct;
      NoMails([]);
      ghost var due := Due(now);
      CheckTimer(now);
      ghost var early := sent;
      if due {
        assert queue[..count] == [];
      } else {
        assert queue[..count] == queue[..][..count];
      }
      if !enabled {
        SendDirect(dest, messages);
      } else {
        QueueAll(dest, messages, now);
      }
      if due {
        AllSent(early, sent, old(accepted));
      }
      rc := 0;
    }

    /** Batching disabled: every message is sent at once. */
    method SendDirect(dest: Str, messages: seq<Message>)
      requires Valid() && initialized && !enabled
      requires forall k :: 0 <= k < |messages| ==> MessageOk(messages[k])
      modifies this`statSent, this`sent, this`accepted
      ensures Valid() && old(sent) <= sent
      ensures |accepted| == |old(accepted)| + |messages| && old(accepted) <= accepted
      ensures forall k :: 0 <= k < |messages| ==> Direct(dest, messages[k], accepted[|old(accepted)| + k])
    {
      hide Conserved, For, Mails, SlotsOk;
      NoMails(dest);
      assert queue[..count] == [];
      var k := 0;
      while k < |messages|
        invariant 0 <= k <= |messages|
        invariant Valid() && old(sent) <= sent
        invariant |accepted| == |old(accepted)| + k && old(accepted) <= accepted
        invariant forall j :: 0 <= j < k ==> Direct(dest, messages[j], accepted[|old(accepted)| + j])
      {
        ghost var m := messages[k];
        ghost var x := Mail(dest, m.iface, m.member, if m.body.Some? then m.body.value[..m.bodyLen] else []);
        SendNowConserves(sent, accepted, x);
        statSent := statSent + 1;
        sent := sent + [x];
        accepted := accepted + [x];
        k := k + 1;
      }
    }

    /** Batching enabled: every message is queued. */
    method QueueAll(dest: Str, messages: seq<Message>, now: int)
      requires Valid() && initialized && enabled && messages != []
      requires forall k :: 0 <= k < |messages| ==> MessageOk(messages[k])
      modifies this`statSent, this`statBatched, this`statFlushes, this`sent, this`count, this`lastFlush,
               this`accepted, queue
      ensures Valid() && old(sent) <= sent
      ensures |accepted| == |old(accepted)| + |messages| && old(accepted) <= accepted
      ensures forall k :: 0 <= k < |messages| ==> Queued(dest, messages[k], accepted[|old(accepted)| + k])
      ensures |dest| < MAX_DEST ==> |For(dest, Pending())| < maxBatch
      ensures old(count) + |messages| <= MAX_QUEUE ==> OthersWait(dest, old(Pending()), Pending())
      ensures old(count) + |messages| <= MAX_QUEUE && |dest| >= MAX_DEST ==>
                count == old(count) + |messages| && sent == old(sent)
    {
      hide Conserved, For, Mails, SlotsOk, SlotOk, Queued, OthersWait, Limited;
      OthersWaitTrans(dest, Pending(), Pending(), Pending());
      var k := 0;
      while k < |messages|
        invariant 0 <= k <= |messages|
        invariant Valid() && old(sent) <= sent
        invariant |accepted| == |old(accepted)| + k && old(accepted) <= accepted
        invariant forall j :: 0 <= j < k ==> Queued(dest, messages[j], accepted[|old(accepted)| + j])
        invariant k > 0 && |dest| < MAX_DEST ==> |For(dest, Pending())| < maxBatch
        invariant count <= old(count) + k
        invariant old(count) + |messages| <= MAX_QUEUE && |dest| >= MAX_DEST ==>
                    count == old(count) + k && sent == old(sent)
        invariant old(count) + |messages| <= MAX_QUEUE ==> OthersWait(dest, old(Pending()), Pending())
      {
        ghost var mid := Pending();
        ghost var x := Enqueue(dest, messages[k], now);
        OthersWaitTrans(dest, old(Pending()), mid, Pending());
        k := k + 1;
      }
    }

    /** dbus_opt_set_max_batch_size */
    method SetMaxBatchSize(n: nat)
      requires Valid()
      modifies this`maxBatch
      ensures Valid()
      ensures !initialized ==> maxBatch == old(maxBatch)
      ensures initialized ==> maxBatch == if n == 0 then 1 else if n > 256 then 256 else n
    {
      if !initialized {
        return;
      }
      maxBatch := if n == 0 then 1 else if n > MAX_QUEUE then MAX_QUEUE else n;
    }

    /** dbus_opt_shutdown: everything accepted has been sent. */
    method Shutdown(now: int)
      requires Valid()
      modifies this, queue
      ensures Valid() && !initialized
      ensures accepted == old(accepted) && old(sent) <= sent
      ensures forall d :: For(d, sent) == For(d, accepted)
    {
      hide Conserved, For, Mails, SlotsOk;
      if initialized {
        if count > 0 {
          FlushAll(now);
        }
        ClearQueue();
        statSent, statBatched, statFlushes := 0, 0, 0;
        enabled, initialized := false, false;
      }
      assert queue[..count] == [];
      NoMails([]);
      forall d
        ensures For(d, sent) == For(d, accepted)
      {
        DrainedIsDelivered(sent, accepted, d);
      }
    }
  }

  // ---------------------------------------------------------------- whole runs

  datatype Op =
    | Init(now: int)
    | Enable(intervalMs: nat, now: int)
    | Send(dest: Str, messages: seq<Message>, now: int)
    | SetMax(n: nat)
    | Shutdown(now: int)

  predicate OpOk(op: Op) {
    op.Send? ==> forall k :: 0 <= k < |op.messages| ==> MessageOk(op.messages[k])
  }

  datatype Mode = Down | Immediate | Batching

  function ModeAfter(ops: seq<Op>): Mode {
    if ops == [] then Down
    else
      var n := |ops| - 1;
      var m := ModeAfter(ops[..n]);
      match ops[n]
      case Init(_) => if m == Down then Immediate else m
      case Enable(ms, _) => if m == Down then Down else if ms == 0 then Immediate else Batching
      case Shutdown(_) => Down
      case _ => m
  }

  /** A message handed in while the subsystem was up. */
  datatype Submission = Submission(dest: Str, message: Message, queued: bool)

  function Batch(dest: Str, messages: seq<Message>, queued: bool): (r: seq<Submission>)
    ensures |r| == |messages| && forall i :: 0 <= i < |r| ==> r[i] == Submission(dest, messages[i], queued)
  {
    seq(|messages|, i requires 0 <= i < |messages| => Submission(dest, messages[i], queued))
  }

  /** What a run submits: every message of every send made between init and shutdown. */
  function Submitted(ops: seq<Op>): seq<Submission> {
    if ops == [] then []
    else
      var n := |ops| - 1;
      var m := ModeAfter(ops[..n]);
      if ops[n].Send? && m != Down
      then Submitted(ops[..n]) + Batch(ops[n].dest, ops[n].messages, m == Batching)
      else Submitted(ops[..n])
  }

  function SubmittedFor(d: Str, subs: seq<Submission>): seq<Submission> {
    if subs == [] then []
    else
      var n := |subs| - 1;
      SubmittedFor(d, subs[..n]) + (if subs[n].dest == d then [subs[n]] else [])
  }

  /** x is the submitted message as the bus gets it. */
  ghost predicate Carries(s: Submission, x: Mail) {
    MessageOk(s.message) && if s.queued then Queued(s.dest, s.message, x) else Direct(s.dest, s.message, x)
  }

  /** The mails are the submissions, one by one. */
  ghost predicate Carried(subs: seq<Submission>, mails: seq<Mail>) {
    |subs| == |mails| && forall i :: 0 <= i < |subs| ==> Carries(subs[i], mails[i])
  }

  /** A name shorter than 255 bytes gets what was submitted for it and nothing else. */
  lemma {:induction false} CarriedFor(d: Str, subs: seq<Submission>, mails: seq<Mail>)
    requires |d| < MAX_DEST - 1 && Carried(subs, mails)
    ensures Carried(SubmittedFor(d, subs), For(d, mails))
  {
    hide Carries;
    if subs != [] {
      var n := |subs| - 1;
      CarriedFor(d, subs[..n], mails[..n]);
      CarriesName(d, subs[n], mails[n]);
    }
  }

  lemma CarriesName(d: Str, s: Submission, x: Mail)
    requires |d| < MAX_DEST - 1 && Carries(s, x)
    ensures x.dest == d <==> s.dest == d
  {
  }

  /** What arrives of a submitted message with a body, told plainly: names and bodies cut only when queued. */
  lemma ArrivesAs(s: Submission, x: Mail)
    requires Carries(s, x) && s.message.body.Some?
    ensures x.iface == s.message.iface && x.member == s.message.member
    ensures x.dest == if s.queued && |s.dest| > 255 then s.dest[..255] else s.dest
    ensures var n := s.message.bodyLen;
            x.payload == s.message.body.value[..if s.queued && n > 4096 then 4096 else n]
  {
  }

  lemma CarriedAppend(subs: seq<Submission>, mails: seq<Mail>, more: seq<Submission>, all: seq<Mail>)
    requires Carried(subs, mails) && mails <= all && |all| == |mails| + |more|
    requires forall k :: 0 <= k < |more| ==> Carries(more[k], all[|mails| + k])
    ensures Carried(subs + more, all)
  {
    forall i | 0 <= i < |subs + more|
      ensures Carries((subs + more)[i], all[i])
    {
      if i >= |subs| {
        assert all[i] == all[|mails| + (i - |subs|)];
      }
    }
  }

  /** One operation of a run. */
  method Perform(b: Batcher, op: Op, ghost ops: seq<Op>)
    requires b.Valid() && OpOk(op)
    requires b.CurrentMode() == ModeAfter(ops) && Carried(Submitted(ops), b.accepted)
    modifies b, b.queue
    ensures b.Valid()
    ensures b.CurrentMode() == ModeAfter(ops + [op]) && Carried(Submitted(ops + [op]), b.accepted)
    ensures op.Shutdown? ==> forall d :: For(d, b.sent) == For(d, b.accepted)
  {
    hide Mails, SlotsOk, For, Carried, Conserved, Queued, Direct;
    assert (ops + [op])[..|ops|] == ops;
    match op {
      case Init(now) => b.Init(now);
      case Enable(ms, now) => b.EnableBatching(ms, now);
      case SetMax(n) => b.SetMaxBatchSize(n);
      case Shutdown(now) => b.Shutdown(now);
      case Send(dest, messages, now) =>
        ghost var was, more := b.accepted, Batch(dest, messages, b.enabled);
        var rc := b.SendBatched(dest, messages, now);
        if rc == 0 {
          CarriedAppend(Submitted(ops), was, more, b.accepted);
        } else {
          assert messages == [] ==> Submitted(ops) + more == Submitted(ops);
        }
    }
  }

  /**
   * Any run, on any clock: for every name shorter than 255 bytes what was sent
   * followed by what is pending is what the run submitted for that name, in order,
   * and after a shutdown all of it has been sent.
   */
  method Execute(ops: seq<Op>) returns (b: Batcher)
    requires forall i :: 0 <= i < |ops| ==> OpOk(ops[i])
    ensures fresh(b) && b.Valid() && b.CurrentMode() == ModeAfter(ops)
    ensures Carried(Submitted(ops), b.accepted)
    ensures forall d :: |d| < MAX_DEST - 1 ==>
              Carried(SubmittedFor(d, Submitted(ops)), For(d, b.sent) + For(d, b.Pending()))
    ensures ops != [] && ops[|ops| - 1].Shutdown? ==>
              forall d :: |d| < MAX_DEST - 1 ==> Carried(SubmittedFor(d, Submitted(ops)), For(d, b.sent))
  {
    hide Mails, SlotsOk, For, Carried, ModeAfter, SubmittedFor;
    b := new Batcher();
    var i := 0;
    NothingSubmitted();
    assert ops[..0] == [];
    while i < |ops|
      invariant 0 <= i <= |ops|
      invariant fresh(b) && fresh(b.queue) && b.Valid()
      invariant b.CurrentMode() == ModeAfter(ops[..i]) && Carried(Submitted(ops[..i]), b.accepted)
      invariant i > 0 && ops[i - 1].Shutdown? ==> forall d :: For(d, b.sent) == For(d, b.accepted)
    {
      assert ops[..i] + [ops[i]] == ops[..i + 1];
      Perform(b, ops[i], ops[..i]);
      i := i + 1;
    }
    assert ops[..i] == ops;
    forall d | |d| < MAX_DEST - 1
      ensures Carried(SubmittedFor(d, Submitted(ops)), For(d, b.accepted))
    {
      CarriedFor(d, Submitted(ops), b.accepted);
    }
  }

  lemma NothingSubmitted()
    ensures ModeAfter([]) == Down && Carried(Submitted([]), [])
  {
  }

  /** An instance: with a limit of one, a name of 300 bytes has 256 messages waiting. */
  method LongNameFillsQueue() returns (b: Batcher, dest: Str)
    ensures fresh(b) && b.Valid() && b.maxBatch == 1 && IsName(dest)
    ensures |For(Stored(dest), b.Pending())| == 256
  {
    hide For, Mails, SlotsOk, Conserved;
    dest := seq(300, _ => 97);
    var messages := seq(MAX_QUEUE, _ => Message([], [], None, 0));
    b := new Batcher();
    b.Init(0);
    b.EnableBatching(1000, 0);
    b.SetMaxBatchSize(1);
    var rc := b.SendBatched(dest, messages, 0);
    forall i | 0 <= i < |b.accepted|
      ensures b.accepted[i].dest == Stored(dest)
    {
      assert Queued(dest, messages[i], b.accepted[i]);
    }
    AllWaiting(dest, b.sent, b.Pending(), b.accepted);
  }

  lemma AllWaiting(dest: Str, sent: seq<Mail>, pending: seq<Mail>, accepted: seq<Mail>)
    requires sent == [] && Conserved(sent, pending, accepted)
    requires forall i :: 0 <= i < |accepted| ==> accepted[i].dest == Stored(dest)
    ensures |For(Stored(dest), pending)| == |accepted|
  {
    hide For;
    NoMails(Stored(dest));
    ForAll(Stored(dest), accepted);
    assert For(Stored(dest), sent) + For(Stored(dest), pending) == For(Stored(dest), accepted);
  }

  lemma Memberless(mails: seq<Mail>)
    ensures mails != [] ==> exists m :: m in mails
  {
    if mails != [] {
      assert mails[0] in mails;
    }
  }

  lemma NoMails(d: Str)
    ensures For(d, []) == [] && Others(d, []) == [] && Mails([]) == []
  {
  }

  lemma {:induction false} NoneFor(d: Str, mails: seq<Mail>)
    requires |For(d, mails)| == 0
    ensures For(d, mails) == [] && Others(d, mails) == mails
  {
    if mails != [] {
      NoneFor(d, mails[..|mails| - 1]);
    }
  }
}
