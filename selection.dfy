/** Which set the Qt window shows, as a function of the keyboard events
    delivered to it (emome.py, and its copy qemome.py).

    Each registered callback is one event. The press and release callbacks
    receive the key event and do nothing for a keypad key; the three
    combination callbacks take no event and have no keypad check. Every
    callback that acts selects one fixed set, whatever was shown before:
    in particular any release selects Set1 even when another modifier is
    still held, and no callback exists for Ctrl+Alt+Shift. */
module Selection {
  import opened EmojiSets

  datatype Modifier = Shift | Ctrl | Alt

  /** The part of the `keyboard` library's event the handlers look at. */
  datatype KeyEvent = KeyEvent(isKeypad: bool)

  datatype Combination = CtrlAlt | CtrlShift | AltShift

  datatype Event =
    | Pressed(key: Modifier, e: KeyEvent)
    | Released(key: Modifier, e: KeyEvent)
    | Hotkey(combo: Combination)

  /** The set a press of a single modifier selects. */
  function PressTarget(k: Modifier): SetTag
  {
    match k
    case Shift => Set2
    case Ctrl => Set3
    case Alt => Set4
  }

  /** The set a combination hotkey selects. */
  function ComboTarget(c: Combination): SetTag
  {
    match c
    case CtrlAlt => Set7
    case CtrlShift => Set5
    case AltShift => Set6
  }

  /** The current set after one callback has run on `current`. */
  function Next(current: SetTag, ev: Event): SetTag
  {
    match ev
    case Pressed(k, e) => if e.isKeypad then current else PressTarget(k)
    case Released(_, e) => if e.isKeypad then current else Set1
    case Hotkey(c) => ComboTarget(c)
  }

  /** Whether a callback reaches its assignment (it is not a keypad event). */
  predicate Acts(ev: Event)
  {
    !(ev.Pressed? || ev.Released?) || !ev.e.isKeypad
  }

  /** The set an acting callback selects. */
  function Target(ev: Event): SetTag
  {
    match ev
    case Pressed(k, _) => PressTarget(k)
    case Released(_, _) => Set1
    case Hotkey(c) => ComboTarget(c)
  }

  /** One callback either selects its own fixed set, independent of the
      current one, or (a keypad event) changes nothing. */
  lemma NextCharacterized(current: SetTag, ev: Event)
    ensures Acts(ev) ==> Next(current, ev) == Target(ev)
    ensures !Acts(ev) ==> Next(current, ev) == current
  {
  }

  /** The seven distinct sets are the targets of the nine callbacks. */
  lemma EveryTargetReachable(t: SetTag)
    ensures exists ev :: Acts(ev) && Target(ev) == t
  {
    var nonKeypad := KeyEvent(false);
    match t
    case Set1 => assert Acts(Released(Shift, nonKeypad));
    case Set2 => assert Target(Pressed(Shift, nonKeypad)) == Set2;
    case Set3 => assert Target(Pressed(Ctrl, nonKeypad)) == Set3;
    case Set4 => assert Target(Pressed(Alt, nonKeypad)) == Set4;
    case Set5 => assert Target(Hotkey(CtrlShift)) == Set5;
    case Set6 => assert Target(Hotkey(AltShift)) == Set6;
    case Set7 => assert Target(Hotkey(CtrlAlt)) == Set7;
  }

  /** The current set after the callbacks `evs` have run, in order. */
  function Run(current: SetTag, evs: seq<Event>): SetTag
    decreases |evs|
  {
    if evs == [] then current else Run(Next(current, evs[0]), evs[1..])
  }

  /** Reference definition: the target of the last acting callback, or the
      starting set when none acted. */
  function LastActing(current: SetTag, evs: seq<Event>): SetTag
    decreases |evs|
  {
    if evs == [] then current
    else if Acts(evs[|evs| - 1]) then Target(evs[|evs| - 1])
    else LastActing(current, evs[..|evs| - 1])
  }

  /** Running one more callback after a history is one more `Next`. */
  lemma {:induction false} RunSnoc(current: SetTag, evs: seq<Event>, ev: Event)
    ensures Run(current, evs + [ev]) == Next(Run(current, evs), ev)
    decreases |evs|
  {
    if evs == [] {
      assert [] + [ev] == [ev];
    } else {
      assert (evs + [ev])[1..] == evs[1..] + [ev];
      RunSnoc(Next(current, evs[0]), evs[1..], ev);
    }
  }

  /** The selected set depends only on the last callback that acted. */
  lemma {:induction false} RunIsLastActing(current: SetTag, evs: seq<Event>)
    ensures Run(current, evs) == LastActing(current, evs)
    decreases |evs|
  {
    if evs != [] {
      var init, last := evs[..|evs| - 1], evs[|evs| - 1];
      assert evs == init + [last];
      RunSnoc(current, init, last);
      RunIsLastActing(current, init);
    }
  }

  /** Any non-keypad release, after any history, leaves Set1 selected; for
      example Ctrl+Shift followed by releasing Shift gives Set1, not Set3. */
  lemma ReleaseAfterAnyHistory(current: SetTag, evs: seq<Event>, k: Modifier, e: KeyEvent)
    requires !e.isKeypad
    ensures Run(current, evs + [Released(k, e)]) == Set1
  {
    RunSnoc(current, evs, Released(k, e));
  }

  /** A history made only of keypad events leaves the selection as it was. */
  lemma {:induction false} KeypadHistoryChangesNothing(current: SetTag, evs: seq<Event>)
    requires forall i :: 0 <= i < |evs| ==> !Acts(evs[i])
    ensures Run(current, evs) == current
    decreases |evs|
  {
    if evs != [] {
      KeypadHistoryChangesNothing(Next(current, evs[0]), evs[1..]);
    }
  }

  /** Delivering the same callback twice in a row is the same as once. */
  lemma RepeatIsNoOp(current: SetTag, evs: seq<Event>, ev: Event)
    ensures Run(current, evs + [ev, ev]) == Run(current, evs + [ev])
  {
    assert evs + [ev, ev] == (evs + [ev]) + [ev];
    RunSnoc(current, evs + [ev], ev);
    RunSnoc(current, evs, ev);
  }

  /** Starting from the initial set, the sequence Shift down, Ctrl+Shift,
      Shift up ends on Set1 (a per-modifier design would end on Set3). */
  lemma ShiftCtrlReleaseShift()
    ensures Run(Set1, [Pressed(Shift, KeyEvent(false)), Hotkey(CtrlShift), Released(Shift, KeyEvent(false))]) == Set1
  {
  }
}
