/**
 * What an X11 client sees of an input method: the preedit callbacks and commits
 * of one window, and when such a trace is well formed.
 */
module XimTrace {
  import opened Text

  datatype Event =
    | Start(window: int)
    | Draw(window: int, first: int, length: int, text: Str, caret: int)
    | Done(window: int)
    | Commit(window: int, text: Str)

  /** The events of one window, in order. */
  function Trace(events: seq<Event>, w: int): seq<Event> {
    if events == [] then []
    else
      var n := |events| - 1;
      if events[n].window == w then Trace(events[..n], w) + [events[n]] else Trace(events[..n], w)
  }

  // ---------------------------------------------------------------- phases

  datatype Phase = Closed | Started | Drawing | Broken

  /** PreeditStart opens, PreeditDraw needs an open one, PreeditDone needs a draw; commits need none open. */
  function Next(p: Phase, e: Event): Phase {
    match e
    case Start(_) => if p == Closed then Started else Broken
    case Draw(_, _, _, _, _) => if p == Started || p == Drawing then Drawing else Broken
    case Done(_) => if p == Drawing then Closed else Broken
    case Commit(_, _) => if p == Closed then Closed else Broken
  }

  function PhaseAfter(p: Phase, t: seq<Event>): Phase
    decreases |t|
  {
    if t == [] then p else PhaseAfter(Next(p, t[0]), t[1..])
  }

  lemma {:induction false} PhaseConcat(p: Phase, a: seq<Event>, b: seq<Event>)
    ensures PhaseAfter(p, a + b) == PhaseAfter(PhaseAfter(p, a), b)
    decreases |a|
  {
    if a == [] {
      assert a + b == b;
    } else {
      assert (a + b)[1..] == a[1..] + b;
      PhaseConcat(Next(p, a[0]), a[1..], b);
    }
  }

  lemma {:induction false} BrokenStaysBroken(t: seq<Event>)
    ensures PhaseAfter(Broken, t) == Broken
  {
    if t != [] {
      BrokenStaysBroken(t[1..]);
    }
  }

  // ---------------------------------------------------------------- the grammar

  predicate AllDraws(t: seq<Event>) {
    forall i :: 0 <= i < |t| ==> t[i].Draw?
  }

  /** (Commit | Start Draw+ Done)*, and a last composition may still be open. */
  ghost predicate WellBracketed(t: seq<Event>)
    decreases |t|
  {
    || t == []
    || (t[0].Commit? && WellBracketed(t[1..]))
    || (t[0].Start? && AllDraws(t[1..]))
    || (t[0].Start? && exists k :: Session(t, k) && WellBracketed(t[k + 1..]))
  }

  /** t[..k + 1] is Start Draw+ Done. */
  predicate Session(t: seq<Event>, k: int) {
    1 < k < |t| && AllDraws(t[1..k]) && t[k].Done?
  }

  lemma {:induction false} DrawsKeepDrawing(t: seq<Event>)
    requires AllDraws(t)
    ensures PhaseAfter(Drawing, t) == Drawing
    ensures PhaseAfter(Started, t) == if t == [] then Started else Drawing
  {
    if t != [] {
      DrawsKeepDrawing(t[1..]);
    }
  }

  lemma AfterSession(t: seq<Event>, k: int)
    requires t != [] && t[0].Start? && Session(t, k)
    ensures PhaseAfter(Closed, t) == PhaseAfter(Closed, t[k + 1..])
  {
    var head := [t[0]] + t[1..k] + [t[k]];
    assert t == head + t[k + 1..];
    PhaseConcat(Closed, head, t[k + 1..]);
    PhaseConcat(Closed, [t[0]] + t[1..k], [t[k]]);
    PhaseConcat(Closed, [t[0]], t[1..k]);
    DrawsKeepDrawing(t[1..k]);
    assert PhaseAfter(Closed, [t[0]]) == PhaseAfter(Started, []) == Started;
    assert PhaseAfter(Drawing, [t[k]]) == PhaseAfter(Closed, []) == Closed;
  }

  /** The first event from i on that is not a draw, or the length. */
  function DrawEnd(t: seq<Event>, i: nat): (k: nat)
    requires i <= |t|
    ensures i <= k <= |t| && AllDraws(t[i..k])
    ensures k < |t| ==> !t[k].Draw?
    decreases |t| - i
  {
    if i == |t| || !t[i].Draw? then i
    else
      var k := DrawEnd(t, i + 1);
      assert t[i..k] == [t[i]] + t[i + 1..k];
      k
  }

  /** The phase automaton accepts exactly the traces of the grammar. */
  lemma {:induction false} PhasesAreBrackets(t: seq<Event>)
    ensures PhaseAfter(Closed, t) != Broken <==> WellBracketed(t)
    decreases |t|
  {
    if t == [] {
    } else if t[0].Commit? {
      PhasesAreBrackets(t[1..]);
    } else if !t[0].Start? {
      BrokenStaysBroken(t[1..]);
    } else {
      var k := DrawEnd(t, 1);
      assert t[1..] == t[1..k] + t[k..];
      PhaseConcat(Started, t[1..k], t[k..]);
      DrawsKeepDrawing(t[1..k]);
      if k == |t| {
        assert t[1..k] == t[1..];
      } else {
        BrokenStaysBroken(t[k..][1..]);
        if k > 1 && t[k].Done? {
          assert Session(t, k);
          AfterSession(t, k);
          PhasesAreBrackets(t[k + 1..]);
        }
        OnlySession(t, k);
      }
    }
  }

  /** A composition can only end at the first event that is not a draw. */
  lemma OnlySession(t: seq<Event>, k: nat)
    requires 1 <= k < |t| && AllDraws(t[1..k]) && !t[k].Draw?
    ensures !AllDraws(t[1..])
    ensures forall j :: j != k ==> !Session(t, j)
  {
    assert t[1..][k - 1] == t[k];
    forall j | j != k
      ensures !Session(t, j)
    {
      if 1 < j < k {
        assert t[1..k][j - 1] == t[j];
      } else if k < j < |t| {
        assert t[1..j][k - 1] == t[k];
      }
    }
  }

  // ---------------------------------------------------------------- what is on screen

  /** The text shown as being composed, from the callbacks alone. */
  function Shown(t: seq<Event>): Option<Str> {
    if t == [] then None
    else
      var n := |t| - 1;
      var before := Shown(t[..n]);
      match t[n]
      case Start(_) => Some([])
      case Draw(_, first, length, text, _) =>
        if before.Some? && 0 <= first && 0 <= length && first + length <= |before.value|
        then Some(before.value[..first] + text + before.value[first + length..])
        else None
      case Done(_) => None
      case Commit(_, _) => before
  }
}
