/**
 * The input method bridge of userland/integration/xwayland-im.cpp: client slots and
 * one focus index. Every call does to the object what the model says.
 */
module XimBridge {
  import opened Text
  import opened XimTrace
  import opened XimModel

  datatype Client = Client(window: int, focused: bool, active: bool, preedit: Str, caret: int)

  const NO_CLIENT := Client(0, false, false, [], 0)

  /** What the stored preedit text of a slot becomes when its composition ends. */
  function Cleared(c: Client): Client {
    c.(preedit := [])
  }

  ghost predicate Distinct(slots: seq<Client>) {
    forall i, j :: 0 <= i < j < |slots| && slots[i].active && slots[j].active ==> slots[i].window != slots[j].window
  }

  /** The windows of the active slots. */
  function Known(slots: seq<Client>): set<int> {
    if slots == [] then {}
    else
      var n := |slots| - 1;
      Known(slots[..n]) + (if slots[n].active then {slots[n].window} else {})
  }

  ghost predicate HasWindow(slots: seq<Client>, w: int) {
    exists i :: 0 <= i < |slots| && slots[i].active && slots[i].window == w
  }

  lemma {:induction false} KnownMembers(slots: seq<Client>)
    ensures forall w :: w in Known(slots) <==> HasWindow(slots, w)
  {
    if slots != [] {
      var n := |slots| - 1;
      KnownMembers(slots[..n]);
      forall w
        ensures HasWindow(slots, w) <==> HasWindow(slots[..n], w) || (slots[n].active && slots[n].window == w)
      {
        if HasWindow(slots, w) {
          var i :| 0 <= i < |slots| && slots[i].active && slots[i].window == w;
          assert i < n ==> slots[..n][i] == slots[i];
        }
      }
    }
  }

  /** Slots of distinct windows: as many are known as are active. */
  lemma {:induction false} KnownCount(slots: seq<Client>)
    requires Distinct(slots)
    ensures |Known(slots)| <= |slots|
    ensures |Known(slots)| == |slots| <==> forall i :: 0 <= i < |slots| ==> slots[i].active
  {
    if slots != [] {
      var n := |slots| - 1;
      KnownCount(slots[..n]);
      KnownMembers(slots[..n]);
      assert slots[n].active ==> slots[n].window !in Known(slots[..n]);
      assert (forall i :: 0 <= i < |slots| ==> slots[i].active)
             <==> (forall i :: 0 <= i < n ==> slots[..n][i].active) && slots[n].active;
    }
  }

  lemma SameKnown(a: seq<Client>, b: seq<Client>)
    requires |a| == |b|
    requires forall i :: 0 <= i < |a| ==> a[i].active == b[i].active && a[i].window == b[i].window
    ensures Known(a) == Known(b)
  {
    KnownMembers(a);
    KnownMembers(b);
    forall w
      ensures HasWindow(a, w) <==> HasWindow(b, w)
    {
    }
  }

  /** Taking a free slot makes its window known. */
  lemma OneMoreKnown(a: seq<Client>, b: seq<Client>, idx: nat)
    requires |a| == |b| && idx < |a| && !a[idx].active && b == a[idx := b[idx]] && b[idx].active
    ensures Known(b) == Known(a) + {b[idx].window}
  {
    KnownMembers(a);
    KnownMembers(b);
    forall w
      ensures HasWindow(b, w) <==> HasWindow(a, w) || w == b[idx].window
    {
      if HasWindow(a, w) {
        var i :| 0 <= i < |a| && a[i].active && a[i].window == w;
        assert b[i] == a[i];
      }
    }
  }

  lemma NoneKnown(slots: seq<Client>)
    requires forall i :: 0 <= i < |slots| ==> !slots[i].active
    ensures Known(slots) == {}
  {
    KnownMembers(slots);
  }

  class Bridge {
    const clients: array<Client>
    var focusedIdx: int
    var initialized: bool
    ghost var events: seq<Event>

    /** What every operation keeps. */
    ghost predicate Valid()
      reads this, clients
    {
      && clients.Length == MAX_CLIENTS
      && -1 <= focusedIdx < MAX_CLIENTS
      && (focusedIdx >= 0 ==> initialized && clients[focusedIdx].active)
      && Distinct(clients[..])
      // only the slot at focusedIdx ever holds preedit text, and at most it has the focus flag
      && (forall i :: 0 <= i < MAX_CLIENTS && i != focusedIdx ==> clients[i].preedit == [] && !clients[i].focused)
      && (forall i :: 0 <= i < MAX_CLIENTS ==> |clients[i].preedit| < MAX_PREEDIT)
      && (!initialized ==> forall i :: 0 <= i < MAX_CLIENTS ==> !clients[i].active)
    }

    ghost function TheView(): View
      reads this, clients
      requires Valid()
    {
      View(initialized, Known(clients[..]),
           if focusedIdx < 0 then None else Some(clients[focusedIdx].window),
           if focusedIdx < 0 then [] else clients[focusedIdx].preedit,
           events)
    }

    /** xim_bridge_init */
    constructor ()
      ensures Valid() && TheView() == FRESH && fresh(clients)
    {
      clients := new Client[MAX_CLIENTS](_ => NO_CLIENT);
      focusedIdx := -1;
      initialized := true;
      events := [];
      new;
      NoneKnown(clients[..]);
    }

    /** xim_find_client */
    method FindClient(window: int) returns (idx: int)
      requires clients.Length == MAX_CLIENTS
      ensures -1 <= idx < MAX_CLIENTS
      ensures idx >= 0 ==> clients[idx].active && clients[idx].window == window
      ensures idx == -1 ==> forall i :: 0 <= i < MAX_CLIENTS && clients[i].active ==> clients[i].window != window
    {
      idx := 0;
      while idx < MAX_CLIENTS
        invariant 0 <= idx <= MAX_CLIENTS
        invariant forall i :: 0 <= i < idx && clients[i].active ==> clients[i].window != window
      {
        if clients[idx].active && clients[idx].window == window {
          return;
        }
        idx := idx + 1;
      }
      idx := -1;
    }

    /** xim_alloc_client */
    method AllocClient() returns (idx: int)
      requires clients.Length == MAX_CLIENTS
      ensures -1 <= idx < MAX_CLIENTS
      ensures idx >= 0 ==> !clients[idx].active
      ensures idx == -1 ==> forall i :: 0 <= i < MAX_CLIENTS ==> clients[i].active
    {
      idx := 0;
      while idx < MAX_CLIENTS
        invariant 0 <= idx <= MAX_CLIENTS
        invariant forall i :: 0 <= i < idx ==> clients[i].active
      {
        if !clients[idx].active {
          return;
        }
        idx := idx + 1;
      }
      idx := -1;
    }

    /** Replace the contents of the focused slot and send events. */
    method Update(c: Client, ghost more: seq<Event>)
      requires Valid() && focusedIdx >= 0
      requires c.window == clients[focusedIdx].window && c.active && |c.preedit| < MAX_PREEDIT
      modifies this`events, clients
      ensures Valid() && TheView() == old(TheView()).(text := c.preedit, events := old(events) + more)
      ensures clients[focusedIdx] == c
      ensures forall k :: 0 <= k < MAX_CLIENTS && k != focusedIdx ==> clients[k] == old(clients[k])
    {
      ghost var was := clients[..];
      events := events + more;
      clients[focusedIdx] := c;
      SameKnown(was, clients[..]);
    }

    /** Send PreeditDone for the focused slot if it is composing. */
    method EndComposition()
      requires Valid() && focusedIdx >= 0
      modifies this`events, clients
      ensures Valid() && clients[focusedIdx] == Cleared(old(clients[focusedIdx]))
      ensures TheView() == Stopped(old(TheView()))
      ensures forall k :: 0 <= k < MAX_CLIENTS && k != focusedIdx ==> clients[k] == old(clients[k])
    {
      var c := clients[focusedIdx];
      if c.preedit != [] {
        Update(Cleared(c), [Done(c.window)]);
      }
    }

    /** End the focused client's composition and take its focus flag. */
    method LeaveFocused()
      requires Valid() && focusedIdx >= 0
      modifies this`events, clients
      ensures Valid() && TheView() == Stopped(old(TheView()))
      ensures clients[focusedIdx] == Cleared(old(clients[focusedIdx])).(focused := false)
      ensures forall k :: 0 <= k < MAX_CLIENTS && k != focusedIdx ==> clients[k] == old(clients[k])
    {
      EndComposition();
      assert events + [] == events;
      Update(clients[focusedIdx].(focused := false), []);
    }

    /** xim_bridge_unset_focus */
    method UnsetFocus()
      requires Valid()
      modifies this`events, this`focusedIdx, clients
      ensures Valid() && TheView() == Step(old(TheView()), Op.Unfocus)
      ensures initialized ==> focusedIdx == -1
      ensures events == old(events) + (if old(focusedIdx) >= 0 && old(clients[focusedIdx]).preedit != []
                                        then [Done(old(clients[focusedIdx]).window)] else [])
      ensures forall k :: 0 <= k < MAX_CLIENTS ==>
                clients[k].active == old(clients[k]).active && clients[k].window == old(clients[k]).window
    {
      if !initialized {
        return;
      }
      if 0 <= focusedIdx {
        LeaveFocused();
      }
      focusedIdx := -1;
    }

    /** Take a free slot for a window no slot has. */
    method Admit(idx: int, window: int)
      requires Valid() && initialized && 0 <= idx < MAX_CLIENTS && !clients[idx].active
      requires forall i :: 0 <= i < MAX_CLIENTS && clients[i].active ==> clients[i].window != window
      modifies clients
      ensures Valid() && clients[idx] == Client(window, false, true, [], 0)
      ensures TheView() == old(TheView()).(known := old(TheView()).known + {window})
      ensures forall k :: 0 <= k < MAX_CLIENTS && k != idx ==> clients[k] == old(clients[k])
    {
      ghost var was := clients[..];
      clients[idx] := Client(window, false, true, [], 0);
      OneMoreKnown(was, clients[..], idx);
    }

    /** The slot of the window, taking a free one for a new window. */
    method SlotFor(window: int) returns (idx: int)
      requires Valid() && initialized
      modifies clients
      ensures Valid() && -1 <= idx < MAX_CLIENTS
      ensures var known := old(TheView()).known;
              && (idx == -1 <==> window !in known && |known| >= MAX_CLIENTS)
              && TheView() == old(TheView()).(known := if idx == -1 then known else known + {window})
      ensures idx >= 0 ==> clients[idx].active && clients[idx].window == window
      ensures forall i :: 0 <= i < MAX_CLIENTS ==>
                clients[i].preedit == old(clients[i]).preedit && (clients[i].focused ==> old(clients[i]).focused)
    {
      hide Known, Distinct;
      KnownMembers(clients[..]);
      KnownCount(clients[..]);
      idx := FindClient(window);
      if idx < 0 {
        assert !HasWindow(clients[..], window);
        idx := AllocClient();
        if idx >= 0 {
          assert !clients[..][idx].active;
          Admit(idx, window);
        }
      } else {
        assert clients[..][idx].window == window;
        assert TheView().known + {window} == TheView().known;
      }
    }

    /** xim_bridge_set_focus; on failure for want of a slot the old index stays. */
    method SetFocus(window: int) returns (rc: int)
      requires Valid()
      modifies this`events, this`focusedIdx, clients
      ensures Valid() && TheView() == Step(old(TheView()), Focus(window))
      ensures rc == 0 || rc == -1
      ensures rc == 0 ==> 0 <= focusedIdx && clients[focusedIdx].window == window && clients[focusedIdx].focused
      ensures var known := old(TheView()).known;
              rc == -1 <==> !initialized || window == 0 || (window !in known && |known| >= 32)
      ensures events == old(events) + (if window != 0 && old(focusedIdx) >= 0 && old(clients[focusedIdx]).preedit != []
                                        then [Done(old(clients[focusedIdx]).window)] else [])
    {
      hide Known, Distinct;
      if !initialized || window == 0 {
        return -1;
      }
      if 0 <= focusedIdx {
        LeaveFocused();
      }
      ghost var u := TheView();
      var idx := SlotFor(window);
      if idx < 0 {
        return -1;
      }
      focusedIdx := idx;
      assert events + [] == events;
      Update(clients[idx].(focused := true), []);
      assert window in u.known ==> u.known + {window} == u.known;
      rc := 0;
    }

    /** xim_bridge_commit_string; a null text is None. */
    method CommitString(text: Option<Str>) returns (rc: int)
      requires Valid()
      modifies this`events, clients
      ensures Valid() && TheView() == Step(old(TheView()), CommitText(text))
      ensures rc == 0 <==> initialized && text.Some? && focusedIdx >= 0 && 1 <= |text.value| <= 127
      ensures rc == 0 || rc == -1
      ensures rc == -1 ==> events == old(events)
      ensures rc == 0 ==>
                var c := old(clients[focusedIdx]);
                && clients[focusedIdx] == c.(preedit := [])
                && events == old(events) + (if c.preedit == [] then [] else [Done(c.window)])
                             + [Commit(c.window, text.value)]
    {
      if !initialized || text.None? {
        return -1;
      }
      if focusedIdx < 0 {
        return -1;
      }
      if |text.value| <= 0 || |text.value| >= MAX_COMMIT {
        return -1;
      }
      EndComposition();
      var c := clients[focusedIdx];
      Update(c, [Commit(c.window, text.value)]);
      rc := 0;
    }

    /** xim_bridge_set_preedit; a null or empty text clears. */
    method SetPreedit(text: Option<Str>, cursor: int) returns (rc: int)
      requires Valid()
      modifies this`events, clients
      ensures Valid() && TheView() == Step(old(TheView()), Preedit(text, cursor))
      ensures rc == 0 <==> initialized && focusedIdx >= 0
      ensures rc == 0 || rc == -1
      ensures rc == -1 ==> events == old(events)
      ensures rc == 0 && (text.None? || text.value == []) ==>
                var c := old(clients[focusedIdx]);
                && clients[focusedIdx].preedit == []
                && events == old(events) + (if c.preedit == [] then [] else [Done(c.window)])
      ensures rc == 0 && text.Some? && text.value != [] ==>
                var c := old(clients[focusedIdx]);
                var cut := if |text.value| <= 255 then text.value else text.value[..255];
                && clients[focusedIdx].preedit == cut && clients[focusedIdx].caret == cursor
                && events == old(events) + (if c.preedit == [] then [Start(c.window)] else [])
                             + [Draw(c.window, 0, |c.preedit|, cut, cursor)]
    {
      hide Known, Distinct, Stopped;
      if !initialized || focusedIdx < 0 {
        return -1;
      }
      if text.None? || text.value == [] {
        ClearPreedit();
        return 0;
      }
      Compose(text.value, cursor);
      rc := 0;
    }

    /** The clearing part of xim_bridge_set_preedit. */
    method ClearPreedit()
      requires Valid() && focusedIdx >= 0
      modifies this`events, clients
      ensures Valid() && TheView() == Stopped(old(TheView())) && clients[focusedIdx].preedit == []
      ensures var c := old(clients[focusedIdx]);
              events == old(events) + (if c.preedit == [] then [] else [Done(c.window)])
    {
      hide Known, Distinct;
      var c := clients[focusedIdx];
      if c.preedit != [] {
        Update(Cleared(c).(caret := 0), [Done(c.window)]);
      }
    }

    /** The drawing part of xim_bridge_set_preedit. */
    method Compose(text: Str, cursor: int)
      requires Valid() && focusedIdx >= 0 && text != []
      modifies this`events, clients
      ensures var v := old(TheView());
              && Valid() && v.focus.Some?
              && TheView() == v.(text := Clip(text),
                                 events := v.events + PreeditEvents(v.focus.value, v.text, text, cursor))
      ensures var c := old(clients[focusedIdx]);
              && clients[focusedIdx].preedit == Clip(text) && clients[focusedIdx].caret == cursor
              && events == old(events) + (if c.preedit == [] then [Start(c.window)] else [])
                           + [Draw(c.window, 0, |c.preedit|, Clip(text), cursor)]
    {
      hide Known, Distinct;
      var c := clients[focusedIdx];
      ghost var draw := Draw(c.window, 0, |c.preedit|, Clip(text), cursor);
      Assoc(events, if c.preedit == [] then [Start(c.window)] else [], [draw]);
      Update(c.(preedit := Clip(text), caret := cursor), PreeditEvents(c.window, c.preedit, text, cursor));
    }

    /** xim_bridge_destroy: the clean-up loop finds no composition left to end. */
    method Destroy()
      requires Valid()
      modifies this, clients
      ensures Valid() && TheView() == Step(old(TheView()), Op.Destroy) && !initialized && focusedIdx == -1
      ensures events == old(events) + (if old(focusedIdx) >= 0 && old(clients[focusedIdx]).preedit != []
                                        then [Done(old(clients[focusedIdx]).window)] else [])
    {
      if focusedIdx >= 0 {
        UnsetFocus();
      }
      ghost var now := clients[..];
      var i := 0;
      while i < MAX_CLIENTS
        invariant 0 <= i <= MAX_CLIENTS
        invariant forall k :: 0 <= k < MAX_CLIENTS ==>
                    clients[k] == if k < i then now[k].(active := false) else now[k]
        modifies clients
      {
        if clients[i].active {
          // no composition is left open, so no further PreeditDone is due
          assert clients[i].preedit == [];
          clients[i] := clients[i].(active := false);
        }
        i := i + 1;
      }
      initialized := false;
      NoneKnown(clients[..]);
    }
  }

  // ---------------------------------------------------------------- whole runs

  /**
   * Any run of the bridge sends exactly the events the calls call for, so every
   * window's trace is well bracketed.
   */
  method Execute(ops: seq<Op>) returns (b: Bridge)
    ensures fresh(b) && b.Valid() && b.TheView() == After(ops)
    ensures b.events == EventsOf(ops)
    ensures forall w :: WellBracketed(Trace(b.events, w)) && CommitTexts(Trace(b.events, w)) == Committed(ops, w)
  {
    hide Step, WellBracketed, Known, Distinct, CommitTexts, Committed, Trace;
    b := new Bridge();
    var i := 0;
    while i < |ops|
      invariant 0 <= i <= |ops|
      invariant fresh(b) && fresh(b.clients) && b.Valid() && b.TheView() == After(ops[..i])
    {
      assert ops[..i + 1][..i] == ops[..i];
      match ops[i] {
        case Focus(w) => var rc := b.SetFocus(w);
        case Unfocus => b.UnsetFocus();
        case Preedit(text, cursor) => var rc := b.SetPreedit(text, cursor);
        case CommitText(text) => var rc := b.CommitString(text);
        case Destroy => b.Destroy();
      }
      i := i + 1;
    }
    assert ops[..i] == ops;
    forall w
      ensures WellBracketed(Trace(b.events, w)) && CommitTexts(Trace(b.events, w)) == Committed(ops, w)
    {
      RunsAreBracketed(ops, w);
      CommitsArrive(ops, w);
    }
  }
}
