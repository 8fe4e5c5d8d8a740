/**
 * The global-hotkey listener of hotkeys.py: a shift flag kept by a key
 * listener, and two hotkey handlers, one of which is suppressed while shift
 * is held so that Ctrl+Alt+Shift+P does not also trigger Ctrl+Alt+P. The two
 * pynput listeners are modelled as one sequential stream of events; the two
 * callbacks are recorded in the order they are invoked.
 */
module Hotkeys {

  /** The keys the key listener reports; only the three shift keys are told apart. */
  datatype Key = Shift | ShiftL | ShiftR | OtherKey(name: string)

  predicate IsShift(k: Key) {
    k.Shift? || k.ShiftL? || k.ShiftR?
  }

  /** `expand_callback` and `settings_callback`. */
  datatype Callback = ExpandCallback | SettingsCallback

  /** One event of the merged stream: a key press or release, or one of the two combos. */
  datatype Event = Press(key: Key) | Release(key: Key) | ExpandCombo | SettingsCombo

  predicate IsShiftEvent(e: Event) {
    (e.Press? || e.Release?) && IsShift(e.key)
  }

  /** The shift flag after one event: a shift press sets it, a shift release clears it. */
  function NextShift(shift: bool, e: Event): (r: bool)
    ensures r <==> (e.Press? && IsShift(e.key)) || (shift && !(e.Release? && IsShift(e.key)))
  {
    if IsShiftEvent(e) then e.Press? else shift
  }

  /**
   * The callbacks one event invokes: at most one; the expand callback exactly
   * for an expand combo with the flag clear, the settings callback exactly for
   * a settings combo.
   */
  function Invokes(shift: bool, e: Event): (r: seq<Callback>)
    ensures |r| <= 1
    ensures ExpandCallback in r <==> e.ExpandCombo? && !shift
    ensures SettingsCallback in r <==> e.SettingsCombo?
  {
    match e
    case ExpandCombo => if shift then [] else [ExpandCallback]
    case SettingsCombo => [SettingsCallback]
    case _ => []
  }

  /** The shift flag after the stream `events`, starting from `shift`. */
  function ShiftAfter(shift: bool, events: seq<Event>): bool {
    if |events| == 0 then shift
    else NextShift(ShiftAfter(shift, events[..|events| - 1]), events[|events| - 1])
  }

  /** The callbacks the stream `events` invokes, in order, starting from `shift`. */
  function Fired(shift: bool, events: seq<Event>): (r: seq<Callback>)
    ensures |r| <= |events|
  {
    if |events| == 0 then []
    else
      var prefix := events[..|events| - 1];
      Fired(shift, prefix) + Invokes(ShiftAfter(shift, prefix), events[|events| - 1])
  }

  /** The flag is decided by the last shift press or release: it is set exactly when that was a press. */
  lemma {:induction false} ShiftFollowsLastShiftEvent(shift: bool, events: seq<Event>, i: nat)
    requires i < |events| && IsShiftEvent(events[i])
    requires forall j :: i < j < |events| ==> !IsShiftEvent(events[j])
    ensures ShiftAfter(shift, events) == events[i].Press?
    decreases |events|
  {
    if i < |events| - 1 {
      var prefix := events[..|events| - 1];
      assert prefix[i] == events[i];
      ShiftFollowsLastShiftEvent(shift, prefix, i);
    }
  }

  /** Without any shift press or release, the flag keeps its starting value. */
  lemma {:induction false} ShiftUnchangedWithoutShiftEvents(shift: bool, events: seq<Event>)
    requires forall j :: 0 <= j < |events| ==> !IsShiftEvent(events[j])
    ensures ShiftAfter(shift, events) == shift
    decreases |events|
  {
    if |events| > 0 {
      ShiftUnchangedWithoutShiftEvents(shift, events[..|events| - 1]);
    }
  }

  /** Streams compose: the flag after `a + b` is the flag after `b` started from `a`'s flag. */
  lemma {:induction false} ShiftAfterAppend(shift: bool, a: seq<Event>, b: seq<Event>)
    ensures ShiftAfter(shift, a + b) == ShiftAfter(ShiftAfter(shift, a), b)
    decreases |b|
  {
    if |b| > 0 {
      var b' := b[..|b| - 1];
      assert (a + b)[..|a + b| - 1] == a + b';
      assert (a + b)[|a + b| - 1] == b[|b| - 1];
      ShiftAfterAppend(shift, a, b');
    } else {
      assert a + b == a;
    }
  }

  /** Streams compose: the callbacks of `a + b` are those of `a` followed by those of `b` from `a`'s flag. */
  lemma {:induction false} FiredAppend(shift: bool, a: seq<Event>, b: seq<Event>)
    ensures Fired(shift, a + b) == Fired(shift, a) + Fired(ShiftAfter(shift, a), b)
    decreases |b|
  {
    if |b| > 0 {
      var b' := b[..|b| - 1];
      assert (a + b)[..|a + b| - 1] == a + b';
      assert (a + b)[|a + b| - 1] == b[|b| - 1];
      FiredAppend(shift, a, b');
      ShiftAfterAppend(shift, a, b');
    } else {
      assert a + b == a;
    }
  }

  /**
   * Ctrl+Alt+Shift+P does not also expand: once a shift key is pressed and
   * no shift key has been released since, the expand combo invokes nothing.
   */
  lemma ExpandSuppressedWhileShiftHeld(shift: bool, before: seq<Event>, k: Key, since: seq<Event>)
    requires IsShift(k)
    requires forall j :: 0 <= j < |since| ==> !(since[j].Release? && IsShift(since[j].key))
    ensures var held := before + [Press(k)] + since;
      Fired(shift, held + [ExpandCombo]) == Fired(shift, held)
  {
    var pressed := before + [Press(k)];
    var held := pressed + since;
    assert pressed[..|pressed| - 1] == before;
    ShiftAfterAppend(shift, pressed, since);
    ShiftHeldWithoutRelease(since);
    assert (held + [ExpandCombo])[..|held|] == held;
  }

  /** A set flag stays set through any stream without a shift release. */
  lemma {:induction false} ShiftHeldWithoutRelease(since: seq<Event>)
    requires forall j :: 0 <= j < |since| ==> !(since[j].Release? && IsShift(since[j].key))
    ensures ShiftAfter(true, since)
    decreases |since|
  {
    if |since| > 0 {
      ShiftHeldWithoutRelease(since[..|since| - 1]);
    }
  }

  /** The settings combo always invokes the settings callback, once per combo, whatever the flag. */
  lemma {:induction false} SettingsAlwaysFires(shift: bool, events: seq<Event>)
    ensures multiset(Fired(shift, events))[SettingsCallback] == multiset(events)[SettingsCombo]
    decreases |events|
  {
    if |events| > 0 {
      var prefix := events[..|events| - 1];
      var e := events[|events| - 1];
      assert events == prefix + [e];
      assert multiset(events) == multiset(prefix) + multiset{e};
      var now := Invokes(ShiftAfter(shift, prefix), e);
      assert multiset(Fired(shift, events)) == multiset(Fired(shift, prefix)) + multiset(now);
      assert multiset(now)[SettingsCallback] == if e.SettingsCombo? then 1 else 0;
      SettingsAlwaysFires(shift, prefix);
    }
  }

  /**
   * Over a whole stream, the expand callback runs at most as many times as
   * there are expand combos in it (which single event can invoke it is what
   * `Invokes` states).
   */
  lemma {:induction false} ExpandAtMostPerCombo(shift: bool, events: seq<Event>)
    ensures multiset(Fired(shift, events))[ExpandCallback] <= multiset(events)[ExpandCombo]
    decreases |events|
  {
    if |events| > 0 {
      var prefix := events[..|events| - 1];
      var e := events[|events| - 1];
      assert events == prefix + [e];
      assert multiset(events) == multiset(prefix) + multiset{e};
      var now := Invokes(ShiftAfter(shift, prefix), e);
      assert multiset(Fired(shift, events)) == multiset(Fired(shift, prefix)) + multiset(now);
      assert multiset(now)[ExpandCallback] <= if e.ExpandCombo? then 1 else 0;
      ExpandAtMostPerCombo(shift, prefix);
    }
  }

  /** The state of `start_listener`'s closures: the `shift_pressed` flag and the callbacks invoked so far. */
  class HotkeyListener {
    var shiftPressed: bool
    var invoked: seq<Callback>

    /** `shift_pressed = False` */
    constructor ()
      ensures !shiftPressed && invoked == []
    {
      shiftPressed := false;
      invoked := [];
    }

    /** `on_press`: a shift key sets the flag; any other key leaves it. */
    method OnPress(key: Key)
      modifies this`shiftPressed
      ensures shiftPressed == (IsShift(key) || old(shiftPressed))
    {
      if IsShift(key) {
        shiftPressed := true;
      }
    }

    /** `on_release`: any shift key clears the flag, even with the other still held; any other key leaves it. */
    method OnRelease(key: Key)
      modifies this`shiftPressed
      ensures shiftPressed == (!IsShift(key) && old(shiftPressed))
    {
      if IsShift(key) {
        shiftPressed := false;
      }
    }

    /** `on_activate_expand`: calls the expand callback unless shift is held. */
    method OnActivateExpand()
      modifies this`invoked
      ensures invoked == old(invoked) + (if shiftPressed then [] else [ExpandCallback])
    {
      if shiftPressed {
        return;
      }
      invoked := invoked + [ExpandCallback];
    }

    /** `on_activate_settings`: always calls the settings callback. */
    method OnActivateSettings()
      modifies this`invoked
      ensures invoked == old(invoked) + [SettingsCallback]
    {
      invoked := invoked + [SettingsCallback];
    }

    /** Hands one event to the handler the listeners route it to. */
    method Dispatch(e: Event)
      modifies this
      ensures shiftPressed == NextShift(old(shiftPressed), e)
      ensures invoked == old(invoked) + Invokes(old(shiftPressed), e)
    {
      match e
      case Press(k) => OnPress(k);
      case Release(k) => OnRelease(k);
      case ExpandCombo => OnActivateExpand();
      case SettingsCombo => OnActivateSettings();
    }

    /** The listeners delivering a stream of events, one at a time. */
    method Listen(events: seq<Event>)
      modifies this
      ensures shiftPressed == ShiftAfter(old(shiftPressed), events)
      ensures invoked == old(invoked) + Fired(old(shiftPressed), events)
    {
      var i := 0;
      while i < |events|
        invariant 0 <= i <= |events|
        invariant shiftPressed == ShiftAfter(old(shiftPressed), events[..i])
        invariant invoked == old(invoked) + Fired(old(shiftPressed), events[..i])
      {
        assert events[..i + 1][..i] == events[..i];
        Dispatch(events[i]);
        i := i + 1;
      }
      assert events[..i] == events;
    }
  }
}
