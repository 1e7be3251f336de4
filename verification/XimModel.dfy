/**
 * What the input method bridge of userland/integration/xwayland-im.cpp sends, told
 * by its calls alone: the windows it knows, the one in focus, the text being
 * composed there and the events so far.
 */
module XimModel {
  import opened Text
  import opened XimTrace

  const MAX_PREEDIT: nat := 256
  const MAX_COMMIT: nat := 128
  const MAX_CLIENTS: nat := 32

  /** The window's trace agrees with the text stored for it. */
  ghost predicate Follows(events: seq<Event>, w: int, preedit: Str) {
    var t := Trace(events, w);
    && PhaseAfter(Closed, t) == (if preedit == [] then Closed else Drawing)
    && Shown(t) == (if preedit == [] then None else Some(preedit))
  }

  function Clip(text: Str): (r: Str)
    ensures |r| < MAX_PREEDIT
    ensures text != [] ==> r != []
    ensures r <= text && (|text| <= 255 ==> r == text) && (|text| > 255 ==> |r| == 255)
  {
    if |text| >= MAX_PREEDIT then text[..MAX_PREEDIT - 1] else text
  }

  // ---------------------------------------------------------------- traces that follow a text

  lemma TraceAppend(events: seq<Event>, e: Event, w: int)
    ensures Trace(events + [e], w) == if e.window == w then Trace(events, w) + [e] else Trace(events, w)
  {
    assert (events + [e])[..|events|] == events;
  }

  /** One more event changes the phase and the shown text of its window only. */
  lemma OneMore(events: seq<Event>, e: Event, w: int)
    ensures e.window != w ==> Trace(events + [e], w) == Trace(events, w)
    ensures e.window == w ==>
              var t := Trace(events, w);
              && Trace(events + [e], w) == t + [e]
              && PhaseAfter(Closed, t + [e]) == Next(PhaseAfter(Closed, t), e)
              && (t + [e])[..|t|] == t
  {
    TraceAppend(events, e, w);
    var t := Trace(events, w);
    PhaseConcat(Closed, t, [e]);
    assert PhaseAfter(PhaseAfter(Closed, t), [e]) == PhaseAfter(Next(PhaseAfter(Closed, t), e), []);
  }

  lemma DoneCloses(events: seq<Event>, w: int, preedit: Str)
    requires Follows(events, w, preedit) && preedit != []
    ensures Follows(events + [Done(w)], w, [])
  {
    OneMore(events, Done(w), w);
  }

  lemma CommitStays(events: seq<Event>, w: int, text: Str)
    requires Follows(events, w, [])
    ensures Follows(events + [Commit(w, text)], w, [])
  {
    OneMore(events, Commit(w, text), w);
  }

  /** The events set_preedit sends for a new text. */
  function PreeditEvents(w: int, preedit: Str, text: Str, caret: int): seq<Event> {
    (if preedit == [] then [Start(w)] else []) + [Draw(w, 0, |preedit|, Clip(text), caret)]
  }

  /** The window is composing and shows text. */
  ghost predicate Showing(events: seq<Event>, w: int, text: Str) {
    var t := Trace(events, w);
    (PhaseAfter(Closed, t) == Started || PhaseAfter(Closed, t) == Drawing) && Shown(t) == Some(text)
  }

  lemma StartShowsNothing(events: seq<Event>, w: int)
    requires Follows(events, w, [])
    ensures Showing(events + [Start(w)], w, [])
  {
    OneMore(events, Start(w), w);
  }

  lemma DrawShows(events: seq<Event>, w: int, preedit: Str, text: Str, caret: int)
    requires Showing(events, w, preedit) && text != []
    ensures Follows(events + [Draw(w, 0, |preedit|, text, caret)], w, text)
  {
    OneMore(events, Draw(w, 0, |preedit|, text, caret), w);
    assert preedit[..0] + text + preedit[0 + |preedit|..] == text;
  }

  lemma DrawReplaces(events: seq<Event>, w: int, preedit: Str, text: Str, caret: int)
    requires Follows(events, w, preedit) && text != []
    ensures Follows(events + PreeditEvents(w, preedit, text, caret), w, Clip(text))
  {
    var draw := Draw(w, 0, |preedit|, Clip(text), caret);
    var before := if preedit == [] then events + [Start(w)] else events;
    assert preedit != [] ==> Showing(events, w, preedit);
    assert events + PreeditEvents(w, preedit, text, caret) == before + [draw];
    hide Showing, Follows;
    if preedit == [] {
      StartShowsNothing(events, w);
    }
    DrawShows(before, w, preedit, Clip(text), caret);
  }

  lemma {:induction false} OthersUnaffected(events: seq<Event>, more: seq<Event>, w: int, preedit: Str)
    requires Follows(events, w, preedit)
    requires forall i :: 0 <= i < |more| ==> more[i].window != w
    ensures Follows(events + more, w, preedit)
  {
    hide Follows, Shown, PhaseAfter;
    TraceUnaffected(events, more, w);
    assert Follows(events + more, w, preedit) by {
      FollowsByTrace(events, events + more, w, preedit);
    }
  }

  lemma FollowsByTrace(events: seq<Event>, events': seq<Event>, w: int, preedit: Str)
    requires Follows(events, w, preedit) && Trace(events, w) == Trace(events', w)
    ensures Follows(events', w, preedit)
  {
  }

  lemma {:induction false} TraceUnaffected(events: seq<Event>, more: seq<Event>, w: int)
    requires forall i :: 0 <= i < |more| ==> more[i].window != w
    ensures Trace(events + more, w) == Trace(events, w)
  {
    if more == [] {
      assert events + more == events;
    } else {
      var n := |more| - 1;
      assert events + more == events + more[..n] + [more[n]];
      TraceAppend(events + more[..n], more[n], w);
      TraceUnaffected(events, more[..n], w);
    }
  }

  lemma FollowsIsBracketed(events: seq<Event>, w: int, preedit: Str)
    requires Follows(events, w, preedit)
    ensures WellBracketed(Trace(events, w))
    ensures preedit == [] ==> PhaseAfter(Closed, Trace(events, w)) == Closed
  {
    PhasesAreBrackets(Trace(events, w));
  }

  // ---------------------------------------------------------------- the bridge

  datatype Op =
    | Focus(window: int)
    | Unfocus
    | Preedit(text: Option<Str>, cursor: int)
    | CommitText(text: Option<Str>)
    | Destroy

  /** text is being composed in the focused window. */
  datatype View = View(alive: bool, known: set<int>, focus: Option<int>, text: Str, events: seq<Event>)

  const FRESH := View(true, {}, None, [], [])

  /** The composition, if there is one, has been ended. */
  function Stopped(v: View): View {
    if v.focus.Some? && v.text != [] then v.(text := [], events := v.events + [Done(v.focus.value)]) else v
  }

  /** One call: at most 32 windows get known, and the focus stays when one more would be needed. */
  function Step(v: View, op: Op): View {
    match op
    case Focus(w) =>
      if !v.alive || w == 0 then v
      else if w in v.known then Stopped(v).(focus := Some(w))
      else if |v.known| < MAX_CLIENTS then Stopped(v).(known := v.known + {w}, focus := Some(w))
      else Stopped(v)
    case Unfocus => if v.alive then Stopped(v).(focus := None) else v
    case Preedit(text, cursor) =>
      if !v.alive || v.focus.None? then v
      else if text.None? || text.value == [] then Stopped(v)
      else v.(text := Clip(text.value), events := v.events + PreeditEvents(v.focus.value, v.text, text.value, cursor))
    case CommitText(text) =>
      if v.alive && v.focus.Some? && text.Some? && 0 < |text.value| < MAX_COMMIT
      then Stopped(v).(events := Stopped(v).events + [Commit(v.focus.value, text.value)])
      else v
    case Destroy => Stopped(v).(alive := false, known := {}, focus := None)
  }

  function After(ops: seq<Op>): View {
    if ops == [] then FRESH else Step(After(ops[..|ops| - 1]), ops[|ops| - 1])
  }

  /** Everything a run of calls sends. */
  function EventsOf(ops: seq<Op>): seq<Event> {
    After(ops).events
  }

  /** The text a window is left composing. */
  function Composed(v: View, w: int): Str {
    if v.focus == Some(w) then v.text else []
  }

  /** Every window's trace tells what it is composing. */
  ghost predicate Told(v: View) {
    && (v.focus.None? ==> v.text == [])
    && (v.focus.Some? ==> v.alive && v.focus.value in v.known)
    && |v.known| <= MAX_CLIENTS
    && forall w :: Follows(v.events, w, Composed(v, w))
  }

  /** Events for the focused window that leave it following text. */
  lemma Extend(v: View, more: seq<Event>, text: Str)
    requires Told(v) && v.focus.Some?
    requires forall i :: 0 <= i < |more| ==> more[i].window == v.focus.value
    requires Follows(v.events + more, v.focus.value, text)
    ensures Told(v.(text := text, events := v.events + more))
  {
    hide Follows;
    var v' := v.(text := text, events := v.events + more);
    forall w
      ensures Follows(v'.events, w, Composed(v', w))
    {
      if w != v.focus.value {
        assert Follows(v.events, w, Composed(v, w));
        OthersUnaffected(v.events, more, w, []);
      }
    }
  }

  lemma StoppedTold(v: View)
    requires Told(v)
    ensures Told(Stopped(v)) && Stopped(v).text == []
    ensures forall w :: Follows(Stopped(v).events, w, [])
  {
    hide Follows;
    if v.focus.Some? && v.text != [] {
      var w := v.focus.value;
      assert Follows(v.events, w, Composed(v, w));
      DoneCloses(v.events, w, v.text);
      Extend(v, [Done(w)], []);
    }
    var u := Stopped(v);
    forall w
      ensures Follows(u.events, w, [])
    {
      assert Follows(u.events, w, Composed(u, w));
    }
  }

  lemma StepTold(v: View, op: Op)
    requires Told(v)
    ensures Told(Step(v, op))
    ensures op.Destroy? ==> forall w :: Follows(Step(v, op).events, w, [])
  {
    hide Follows, PreeditEvents;
    StoppedTold(v);
    var u := Stopped(v);
    match op {
      case Preedit(text, cursor) =>
        if v.alive && v.focus.Some? && text.Some? && text.value != [] {
          var w := v.focus.value;
          assert Follows(v.events, w, Composed(v, w));
          DrawReplaces(v.events, w, v.text, text.value, cursor);
          PreeditWindow(w, v.text, text.value, cursor);
          Extend(v, PreeditEvents(w, v.text, text.value, cursor), Clip(text.value));
        }
      case CommitText(text) =>
        if v.alive && v.focus.Some? && text.Some? {
          var w := v.focus.value;
          CommitStays(u.events, w, text.value);
          Extend(u, [Commit(w, text.value)], []);
        }
      case _ =>
    }
  }

  lemma {:induction false} AfterTold(ops: seq<Op>)
    ensures Told(After(ops))
  {
    if ops != [] {
      AfterTold(ops[..|ops| - 1]);
      StepTold(After(ops[..|ops| - 1]), ops[|ops| - 1]);
    }
  }

  /**
   * Every run: every window's trace is well bracketed, replaying its callbacks shows
   * the text left composing there, and after a destroy no composition is open.
   */
  lemma RunsAreBracketed(ops: seq<Op>, w: int)
    ensures var t := Trace(EventsOf(ops), w);
            var text := Composed(After(ops), w);
            && WellBracketed(t)
            && Shown(t) == (if text == [] then None else Some(text))
            && (ops != [] && ops[|ops| - 1].Destroy? ==> PhaseAfter(Closed, t) == Closed && Shown(t) == None)
  {
    hide WellBracketed, Trace;
    AfterTold(ops);
    var v := After(ops);
    assert Follows(v.events, w, Composed(v, w));
    FollowsIsBracketed(v.events, w, Composed(v, w));
    if ops != [] && ops[|ops| - 1].Destroy? {
      var before := After(ops[..|ops| - 1]);
      AfterTold(ops[..|ops| - 1]);
      StepTold(before, Destroy);
    }
  }

  lemma PreeditWindow(w: int, preedit: Str, text: Str, caret: int)
    ensures var more := PreeditEvents(w, preedit, text, caret);
            forall k :: 0 <= k < |more| ==> more[k].window == w
  {
  }

  // ---------------------------------------------------------------- what arrives, told from the calls

  /** The windows known and the one in focus. */
  datatype Desk = Desk(alive: bool, known: set<int>, focus: Option<int>)

  /** Only focus calls make windows known, 32 of them, and move the focus. */
  function DeskAfter(ops: seq<Op>): Desk {
    if ops == [] then Desk(true, {}, None)
    else
      var d := DeskAfter(ops[..|ops| - 1]);
      match ops[|ops| - 1]
      case Focus(w) =>
        if d.alive && w != 0 && (w in d.known || |d.known| < 32) then Desk(true, d.known + {w}, Some(w)) else d
      case Unfocus => d.(focus := None)
      case Destroy => Desk(false, {}, None)
      case _ => d
  }

  /** The call is a commit that is taken. */
  predicate Takes(op: Op, d: Desk) {
    op.CommitText? && op.text.Some? && 1 <= |op.text.value| <= 127 && d.focus.Some?
  }

  /** The texts committed while w had the focus. */
  function Committed(ops: seq<Op>, w: int): seq<Str> {
    if ops == [] then []
    else
      var n := |ops| - 1;
      if Takes(ops[n], DeskAfter(ops[..n])) && DeskAfter(ops[..n]).focus == Some(w)
      then Committed(ops[..n], w) + [ops[n].text.value]
      else Committed(ops[..n], w)
  }

  /** The text being composed: that of the last preedit call, unless something ended it. */
  function Composing(ops: seq<Op>): Str {
    if ops == [] then []
    else
      var n := |ops| - 1;
      var d, before := DeskAfter(ops[..n]), Composing(ops[..n]);
      match ops[n]
      case Focus(w) => if d.alive && w != 0 then [] else before
      case Unfocus => []
      case Destroy => []
      case CommitText(_) => if Takes(ops[n], d) then [] else before
      case Preedit(text, _) =>
        if d.focus.None? then before
        else if text.None? then []
        else if |text.value| <= 255 then text.value
        else text.value[..255]
  }

  lemma {:induction false} DeskIsView(ops: seq<Op>)
    ensures var v := After(ops);
            && DeskAfter(ops) == Desk(v.alive, v.known, v.focus) && v.text == Composing(ops)
            && (v.focus.Some? ==> v.alive) && (v.focus.None? ==> v.text == [])
            && (!v.alive ==> v.focus.None?)
  {
    if ops != [] {
      var n := |ops| - 1;
      DeskIsView(ops[..n]);
      var v := After(ops[..n]);
      match ops[n] {
        case Focus(w) =>
          assert w in v.known ==> v.known + {w} == v.known;
        case _ =>
      }
    }
  }

  /** The texts of the commit events. */
  function CommitTexts(t: seq<Event>): seq<Str> {
    if t == [] then []
    else
      var n := |t| - 1;
      if t[n].Commit? then CommitTexts(t[..n]) + [t[n].text] else CommitTexts(t[..n])
  }

  lemma CommitTextsAppend(events: seq<Event>, e: Event, w: int)
    ensures CommitTexts(Trace(events + [e], w))
            == if e.Commit? && e.window == w then CommitTexts(Trace(events, w)) + [e.text]
               else CommitTexts(Trace(events, w))
  {
    TraceAppend(events, e, w);
    var t := Trace(events, w);
    assert (t + [e])[..|t|] == t;
  }

  lemma CommitTextsStopped(v: View, w: int)
    ensures CommitTexts(Trace(Stopped(v).events, w)) == CommitTexts(Trace(v.events, w))
  {
    hide Trace, CommitTexts;
    if v.focus.Some? {
      CommitTextsAppend(v.events, Done(v.focus.value), w);
    }
  }

  lemma CommitTextsPreedit(v: View, text: Str, cursor: int, w: int)
    requires v.focus.Some?
    ensures CommitTexts(Trace(v.events + PreeditEvents(v.focus.value, v.text, text, cursor), w))
            == CommitTexts(Trace(v.events, w))
  {
    hide Trace, CommitTexts;
    var x := v.focus.value;
    var draw := Draw(x, 0, |v.text|, Clip(text), cursor);
    var mid := if v.text == [] then v.events + [Start(x)] else v.events;
    CommitTextsAppend(v.events, Start(x), w);
    CommitTextsAppend(mid, draw, w);
    assert v.events + PreeditEvents(x, v.text, text, cursor) == mid + [draw];
  }

  /**
   * Every run: what a window is sent as committed is exactly what was committed while it
   * had the focus, in order, and what it shows is the text being composed.
   */
  lemma {:induction false} CommitsArrive(ops: seq<Op>, w: int)
    ensures CommitTexts(Trace(EventsOf(ops), w)) == Committed(ops, w)
    ensures Composed(After(ops), w) == if DeskAfter(ops).focus == Some(w) then Composing(ops) else []
  {
    hide Trace, CommitTexts, PreeditEvents;
    DeskIsView(ops);
    if ops == [] {
      assert After(ops).events == [];
      NoCommits(w);
    } else {
      var n := |ops| - 1;
      var v := After(ops[..n]);
      CommitsArrive(ops[..n], w);
      DeskIsView(ops[..n]);
      CommitTextsStopped(v, w);
      match ops[n] {
        case CommitText(text) =>
          if Takes(ops[n], DeskAfter(ops[..n])) {
            CommitTextsAppend(Stopped(v).events, Commit(v.focus.value, text.value), w);
          }
        case Preedit(text, cursor) =>
          if v.focus.Some? && text.Some? {
            CommitTextsPreedit(v, text.value, cursor, w);
          }
        case _ =>
      }
    }
  }

  lemma NoCommits(w: int)
    ensures CommitTexts(Trace([], w)) == []
  {
  }
}
