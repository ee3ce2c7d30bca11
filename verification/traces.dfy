/**
 * The application as a sequence of atomic events: each hook call, timer tick,
 * menu click, disposal and finalization runs to completion before the next.
 * The trace lemmas relate `Run` to small reference definitions that only count.
 */
module Traces {
  import opened NativeMethods
  import GlobalInput
  import opened TrayIconUi

  datatype Event =
    | KeyboardHook(nCode: Int32, wParam: Ptr, lParam: Ptr, mem: Memory, cursor: Point, next: Ptr)
    | TimerTick
    | StartStopKeyClicked(key: Int32)
    | CpsClicked(cps: Int32)
    | PinClicked
    | Disposed
    | Finalized

  /** The system always passes a readable keyboard record to a low-level keyboard hook. */
  predicate Delivered(e: Event)
  {
    e.KeyboardHook? ==> Readable(e.mem, e.lParam)
  }

  predicate AllDelivered(es: seq<Event>)
  {
    forall i :: 0 <= i < |es| ==> Delivered(es[i])
  }

  /** Menu clicks can only choose offered values. */
  predicate FromMenu(e: Event)
  {
    && (e.StartStopKeyClicked? ==> e.key in StartStopKeysAvailable)
    && (e.CpsClicked? ==> e.cps in CpsAvailable)
  }

  /**
   * One event. A timer tick reaches the handler only while the timer is
   * enabled. `Disposed` is the owner's `GlobalInput.Dispose()` call; an
   * exception thrown by the rate setter leaves its partial update in place.
   */
  function Step(s: State, e: Event): State
    requires Delivered(e)
  {
    match e
    case KeyboardHook(nCode, wParam, lParam, mem, cursor, next) => OnHook(s, nCode, wParam, lParam, mem, cursor, next)
    case TimerTick => if s.timerEnabled then OnTick(s) else s
    case StartStopKeyClicked(k) => SetStartStopKey(s, k)
    case CpsClicked(v) => SetCps(s, v).state
    case PinClicked => TogglePinClick(s)
    case Disposed =>
      var d := GlobalInput.Dispose(s.input);
      s.(input := d.state, log := s.log + d.actions)
    case Finalized =>
      var f := GlobalInput.Finalize(s.input);
      s.(input := f.state, log := s.log + f.actions)
  }

  function Run(s: State, es: seq<Event>): State
    requires AllDelivered(es)
    decreases |es|
  {
    if es == [] then s else Run(Step(s, es[0]), es[1..])
  }

  // ---------------------------------------------------------------------------
  // Reference definitions

  /** The event is a key-down of `key` that reaches the key handler. */
  predicate IsToggle(key: int, subscribed: bool, e: Event)
    requires Delivered(e)
  {
    && e.KeyboardHook?
    && GlobalInput.RaisesKeyEvent(e.nCode, e.wParam, subscribed)
    && ReadInt32(e.mem, e.lParam) == key
  }

  /** The start/stop key after the event. */
  function KeyAfter(key: Int32, e: Event): Int32
  {
    if e.StartStopKeyClicked? then e.key else key
  }

  /** Number of start/stop key presses in a trace, following changes of the key. */
  function Toggles(key: Int32, subscribed: bool, es: seq<Event>): nat
    requires AllDelivered(es)
    decreases |es|
  {
    if es == [] then 0
    else (if IsToggle(key, subscribed, es[0]) then 1 else 0) + Toggles(KeyAfter(key, es[0]), subscribed, es[1..])
  }

  /** Number of ticks that fire while clicking is on, following toggles and key changes. */
  function ActiveTicks(enabled: bool, key: Int32, subscribed: bool, es: seq<Event>): nat
    requires AllDelivered(es)
    decreases |es|
  {
    if es == [] then 0
    else
      var e := es[0];
      (if e.TimerTick? && enabled then 1 else 0)
      + ActiveTicks(enabled != IsToggle(key, subscribed, e), KeyAfter(key, e), subscribed, es[1..])
  }

  function Disposals(es: seq<Event>): nat
  {
    if es == [] then 0 else (if es[0].Disposed? then 1 else 0) + Disposals(es[1..])
  }

  /** The finalizer runs before any explicit disposal. */
  predicate FinalizedFirst(es: seq<Event>)
    decreases |es|
  {
    es != [] && (es[0].Finalized? || (!es[0].Disposed? && FinalizedFirst(es[1..])))
  }

  function Ticks(es: seq<Event>): nat
  {
    if es == [] then 0 else (if es[0].TimerTick? then 1 else 0) + Ticks(es[1..])
  }

  // ---------------------------------------------------------------------------
  // One step

  /** The native calls one event makes. */
  function Added(s: State, e: Event): seq<Action>
  {
    match e
    case KeyboardHook(nCode, wParam, lParam, _, _, _) => [CallNextHookEx(s.input.keyboardHookId, nCode, wParam, lParam)]
    case TimerTick =>
      if !s.timerEnabled then []
      else if s.settings.pinCursor then GlobalInput.LeftClickAt(s.position)
      else GlobalInput.LeftClick()
    case Disposed => GlobalInput.Dispose(s.input).actions
    case Finalized => GlobalInput.Finalize(s.input).actions
    case _ => []
  }

  /** An event appends its calls to the log and changes nothing of the state the trace lemmas follow, except as stated. */
  lemma StepState(s: State, e: Event)
    requires Delivered(e)
    ensures var r := Step(s, e);
      && r.log == s.log + Added(s, e)
      && r.input.hasSubscriber == s.input.hasSubscriber
      && r.input.keyboardHookId == s.input.keyboardHookId
      && r.settings.startStopKey == KeyAfter(s.settings.startStopKey, e)
      && r.timerEnabled == (s.timerEnabled != IsToggle(s.settings.startStopKey, s.input.hasSubscriber, e))
      && (IsToggle(s.settings.startStopKey, s.input.hasSubscriber, e) && !s.timerEnabled ==> r.position == e.cursor)
      && (!IsToggle(s.settings.startStopKey, s.input.hasSubscriber, e) || s.timerEnabled ==> r.position == s.position)
      && r.input.isDisposing == (s.input.isDisposing || e.Disposed? || e.Finalized?)
      && r.settings.pinCursor == (if e.PinClicked? then !s.pinChecked else s.settings.pinCursor)
  {
  }

  /** How many installations, removals and clicks one event adds, and which handle it removes. */
  lemma AddedCounts(s: State, e: Event)
    ensures var added := Added(s, e);
      && Count(added, Install) == 0
      && Count(added, Unhook) == (if e.Disposed? || (e.Finalized? && !s.input.isDisposing) then 1 else 0)
      && Count(added, Click) == (if e.TimerTick? && s.timerEnabled then 1 else 0)
      && (forall i :: 0 <= i < |added| && added[i].UnhookWindowsHookEx? ==> added[i].hhk == s.input.keyboardHookId)
  {
    var added := Added(s, e);
    if e.KeyboardHook? {
      CountSingle(added[0], Install);
      CountSingle(added[0], Unhook);
      CountSingle(added[0], Click);
    } else if e.TimerTick? && s.timerEnabled {
      TickCounts(added, s.settings.pinCursor, s.position);
    }
  }

  // ---------------------------------------------------------------------------
  // Traces

  /** Whatever happens, the monitor keeps its handle and subscriber, the log only grows, the hook is never installed again, and every removal targets the stored handle. */
  lemma {:induction false} RunKeepsHook(s: State, es: seq<Event>)
    requires AllDelivered(es)
    ensures var r := Run(s, es);
      && r.input.keyboardHookId == s.input.keyboardHookId
      && r.input.hasSubscriber == s.input.hasSubscriber
      && |r.log| >= |s.log| && r.log[..|s.log|] == s.log
      && Count(r.log, Install) == Count(s.log, Install)
      && (forall i :: |s.log| <= i < |r.log| && r.log[i].UnhookWindowsHookEx? ==> r.log[i].hhk == s.input.keyboardHookId)
    decreases |es|
  {
    if es != [] {
      var s1 := Step(s, es[0]);
      StepState(s, es[0]);
      AddedCounts(s, es[0]);
      CountDistributes(s.log, Added(s, es[0]), Install);
      RunKeepsHook(s1, es[1..]);
      var r := Run(s, es);
      assert r == Run(s1, es[1..]);
      forall i | |s.log| <= i < |r.log| && r.log[i].UnhookWindowsHookEx?
        ensures r.log[i].hhk == s.input.keyboardHookId
      {
        if i < |s1.log| {
          assert r.log[i] == s1.log[i] == Added(s, es[0])[i - |s.log|];
        }
      }
    }
  }

  /** After any trace the timer is on iff it started on and the start/stop key was pressed an odd number of times. */
  lemma {:induction false} ToggleParity(s: State, es: seq<Event>)
    requires AllDelivered(es)
    ensures Run(s, es).timerEnabled
            == (s.timerEnabled != (Toggles(s.settings.startStopKey, s.input.hasSubscriber, es) % 2 == 1))
    decreases |es|
  {
    if es != [] {
      StepState(s, es[0]);
      ToggleParity(Step(s, es[0]), es[1..]);
    }
  }

  /** Without a press of the start/stop key, clicking stays as it was and so does the captured position. */
  lemma {:induction false} OtherKeysChangeNothing(s: State, es: seq<Event>)
    requires AllDelivered(es)
    requires Toggles(s.settings.startStopKey, s.input.hasSubscriber, es) == 0
    ensures Run(s, es).timerEnabled == s.timerEnabled
    ensures Run(s, es).position == s.position
    decreases |es|
  {
    if es != [] {
      StepState(s, es[0]);
      OtherKeysChangeNothing(Step(s, es[0]), es[1..]);
    }
  }

  /** One click is synthesized for each tick that fires while clicking is on, and no other. */
  lemma {:induction false} ClicksAreActiveTicks(s: State, es: seq<Event>)
    requires AllDelivered(es)
    ensures Count(Run(s, es).log, Click)
            == Count(s.log, Click) + ActiveTicks(s.timerEnabled, s.settings.startStopKey, s.input.hasSubscriber, es)
    decreases |es|
  {
    if es != [] {
      StepState(s, es[0]);
      AddedCounts(s, es[0]);
      CountDistributes(s.log, Added(s, es[0]), Click);
      ClicksAreActiveTicks(Step(s, es[0]), es[1..]);
    }
  }

  /** Without a press of the start/stop key, every tick clicks when clicking is on and none does when it is off. */
  lemma {:induction false} ActiveTicksWithoutToggles(enabled: bool, key: Int32, subscribed: bool, es: seq<Event>)
    requires AllDelivered(es)
    requires Toggles(key, subscribed, es) == 0
    ensures ActiveTicks(enabled, key, subscribed, es) == if enabled then Ticks(es) else 0
    decreases |es|
  {
    if es != [] {
      ActiveTicksWithoutToggles(enabled, KeyAfter(key, es[0]), subscribed, es[1..]);
    }
  }

  /** No click happens while the timer is off. */
  lemma NoClicksWhileDisabled(s: State, es: seq<Event>)
    requires AllDelivered(es)
    requires !s.timerEnabled && Toggles(s.settings.startStopKey, s.input.hasSubscriber, es) == 0
    ensures Count(Run(s, es).log, Click) == Count(s.log, Click)
  {
    ClicksAreActiveTicks(s, es);
    ActiveTicksWithoutToggles(false, s.settings.startStopKey, s.input.hasSubscriber, es);
  }

  /**
   * The hook is removed once per explicit disposal, plus once more when the
   * finalizer runs before any disposal has started; a disposal followed by
   * finalization therefore removes it once, and two disposals remove it twice.
   */
  lemma {:induction false} UnhookCount(s: State, es: seq<Event>)
    requires AllDelivered(es)
    ensures Count(Run(s, es).log, Unhook)
            == Count(s.log, Unhook) + Disposals(es) + (if !s.input.isDisposing && FinalizedFirst(es) then 1 else 0)
    decreases |es|
  {
    if es != [] {
      StepState(s, es[0]);
      AddedCounts(s, es[0]);
      CountDistributes(s.log, Added(s, es[0]), Unhook);
      UnhookCount(Step(s, es[0]), es[1..]);
    }
  }

  /**
   * One explicit disposal, before which the finalizer has not run, removes the
   * hook exactly once over the whole trace: a later finalization finds the flag
   * set and does nothing.
   */
  lemma SingleDisposeUnhooksOnce(s: State, before: seq<Event>, after: seq<Event>)
    requires !s.input.isDisposing
    requires AllDelivered(before) && AllDelivered(after)
    requires Disposals(before) == 0 && !FinalizedFirst(before)
    requires Disposals(after) == 0
    ensures AllDelivered(before + [Disposed] + after)
    ensures Count(Run(s, before + [Disposed] + after).log, Unhook) == Count(s.log, Unhook) + 1
  {
    var tail := [Disposed] + after;
    var es := before + tail;
    assert before + [Disposed] + after == es;
    assert tail[0] == Disposed && tail[1..] == after;
    assert AllDelivered(tail);
    forall i | 0 <= i < |es| ensures Delivered(es[i]) {
      if i < |before| { assert es[i] == before[i]; } else { assert es[i] == tail[i - |before|]; }
    }
    assert Disposals(tail) == 1;
    assert !FinalizedFirst(tail);
    DisposalsAppend(before, tail);
    FinalizedFirstAppend(before, tail);
    UnhookCount(s, es);
  }

  lemma {:induction false} DisposalsAppend(a: seq<Event>, b: seq<Event>)
    ensures Disposals(a + b) == Disposals(a) + Disposals(b)
    decreases |a|
  {
    if a == [] {
      assert a + b == b;
    } else {
      assert (a + b)[1..] == a[1..] + b;
      DisposalsAppend(a[1..], b);
    }
  }

  lemma {:induction false} FinalizedFirstAppend(a: seq<Event>, b: seq<Event>)
    requires Disposals(a) == 0 && !FinalizedFirst(a)
    ensures FinalizedFirst(a + b) == FinalizedFirst(b)
    decreases |a|
  {
    if a == [] {
      assert a + b == b;
    } else {
      assert (a + b)[1..] == a[1..] + b;
      FinalizedFirstAppend(a[1..], b);
    }
  }

  /** Menu clicks and all other events keep the running application's invariant. */
  lemma {:induction false} InvPreserved(s: State, es: seq<Event>)
    requires Inv(s) && AllDelivered(es)
    requires forall i :: 0 <= i < |es| ==> FromMenu(es[i])
    ensures Inv(Run(s, es))
    decreases |es|
  {
    if es != [] {
      InvStep(s, es[0]);
      InvPreserved(Step(s, es[0]), es[1..]);
    }
  }

  lemma InvStep(s: State, e: Event)
    requires Inv(s) && Delivered(e) && FromMenu(e)
    ensures Inv(Step(s, e))
  {
    match e {
      case KeyboardHook(nCode, wParam, lParam, mem, cursor, next) =>
        var r := OnHook(s, nCode, wParam, lParam, mem, cursor, next);
        assert r.(log := s.log, timerEnabled := s.timerEnabled, position := s.position) == s;
      case TimerTick =>
      case StartStopKeyClicked(k) =>
      case CpsClicked(v) =>
        IntervalOfRate(v);
        var r := SetCps(s, v);
        assert r.fault.None?;
      case PinClicked =>
      case Disposed =>
      case Finalized =>
    }
  }

  /**
   * Pin mode: once a press of the start/stop key switches clicking on, and as
   * long as the key is not pressed again and the pin item is not clicked, every
   * tick clicks at the cursor position captured by that press, wherever the
   * user has moved the cursor since.
   */
  lemma PinnedClicksStayAtCapture(s: State, press: Event, es: seq<Event>, d: Desktop)
    requires Delivered(press) && AllDelivered(es)
    requires !s.timerEnabled && s.settings.pinCursor
    requires IsToggle(s.settings.startStopKey, s.input.hasSubscriber, press)
    requires forall i :: 0 <= i < |es| ==> !es[i].PinClicked?
    requires Toggles(s.settings.startStopKey, s.input.hasSubscriber, es) == 0
    ensures var r := Run(Step(s, press), es);
      && r.timerEnabled
      && PerformAll(d, Added(r, TimerTick)) == Desktop(press.cursor, d.presses + [press.cursor], d.releases + [press.cursor])
  {
    var s1 := Step(s, press);
    StepState(s, press);
    OtherKeysChangeNothing(s1, es);
    PinUnchanged(s1, es);
    var r := Run(s1, es);
    assert Added(r, TimerTick) == GlobalInput.LeftClickAt(r.position);
    GlobalInput.LeftClickAtPosition(d, r.position);
  }

  lemma {:induction false} PinUnchanged(s: State, es: seq<Event>)
    requires AllDelivered(es)
    requires forall i :: 0 <= i < |es| ==> !es[i].PinClicked?
    ensures Run(s, es).settings.pinCursor == s.settings.pinCursor
    decreases |es|
  {
    if es != [] {
      StepState(s, es[0]);
      PinUnchanged(Step(s, es[0]), es[1..]);
    }
  }

  /** `n` timer ticks. */
  function TickRun(n: nat): (es: seq<Event>)
    ensures |es| == n && forall i :: 0 <= i < n ==> es[i] == TimerTick
  {
    if n == 0 then [] else [TimerTick] + TickRun(n - 1)
  }

  lemma {:induction false} TickRunCounts(enabled: bool, key: Int32, subscribed: bool, n: nat, rest: seq<Event>)
    requires AllDelivered(rest)
    ensures AllDelivered(TickRun(n) + rest)
    ensures ActiveTicks(enabled, key, subscribed, TickRun(n) + rest)
            == (if enabled then n else 0) + ActiveTicks(enabled, key, subscribed, rest)
    ensures Toggles(key, subscribed, TickRun(n) + rest) == Toggles(key, subscribed, rest)
    decreases n
  {
    if n == 0 {
      assert TickRun(n) + rest == rest;
    } else {
      assert (TickRun(n) + rest)[1..] == TickRun(n - 1) + rest;
      TickRunCounts(enabled, key, subscribed, n - 1, rest);
    }
  }

  /**
   * Switching on, `n` ticks, switching off, one more tick: exactly `n` clicks,
   * and clicking ends switched off.
   */
  lemma TicksBetweenPressesClickOncePerTick(s: State, press: Event, release: Event, n: nat)
    requires !s.timerEnabled && Delivered(press) && Delivered(release)
    requires IsToggle(s.settings.startStopKey, s.input.hasSubscriber, press)
    requires IsToggle(s.settings.startStopKey, s.input.hasSubscriber, release)
    ensures var es := [press] + TickRun(n) + [release, TimerTick];
            && AllDelivered(es)
            && Count(Run(s, es).log, Click) == Count(s.log, Click) + n
            && !Run(s, es).timerEnabled
  {
    var key, sub := s.settings.startStopKey, s.input.hasSubscriber;
    var tail := [release, TimerTick];
    ReleaseThenTick(key, sub, release);
    TickRunCounts(true, key, sub, n, tail);
    var rest := TickRun(n) + tail;
    var es := [press] + rest;
    assert [press] + TickRun(n) + [release, TimerTick] == es;
    assert es[0] == press && es[1..] == rest;
    assert Toggles(key, sub, es) == 2;
    assert ActiveTicks(false, key, sub, es) == n;
    ClicksAreActiveTicks(s, es);
    ToggleParity(s, es);
  }

  lemma ReleaseThenTick(key: Int32, subscribed: bool, release: Event)
    requires Delivered(release) && IsToggle(key, subscribed, release)
    ensures AllDelivered([release, TimerTick])
    ensures ActiveTicks(true, key, subscribed, [release, TimerTick]) == 0
    ensures Toggles(key, subscribed, [release, TimerTick]) == 1
  {
    var tail := [release, TimerTick];
    assert tail[1..] == [TimerTick] && [TimerTick][1..] == [];
  }

  /** The key-down message of the start/stop key, as the system delivers it, is a press. */
  lemma KeyDownOfStartStopKeyToggles(s: State, nCode: Int32, lParam: Ptr, mem: Memory, cursor: Point, next: Ptr)
    requires s.input.hasSubscriber && nCode >= 0
    ensures var e := KeyboardHook(nCode, WM_KEYDOWN, lParam, Store(mem, lParam, EncodeInt32(s.settings.startStopKey)), cursor, next);
            Delivered(e) && IsToggle(s.settings.startStopKey, s.input.hasSubscriber, e)
  {
    ReadStoredInt32(mem, lParam, s.settings.startStopKey);
  }

  /** Only timer ticks act on the mouse: every other event leaves the cursor and the buttons as they were. */
  lemma HookCallsLeaveMouseAlone(s: State, e: Event, d: Desktop)
    requires !e.TimerTick?
    ensures PerformAll(d, Added(s, e)) == d
  {
    var added := Added(s, e);
    if e.KeyboardHook? {
      assert NoMouseActions(added);
    } else if e.Disposed? {
      assert NoMouseActions(GlobalInput.Dispose(s.input).actions);
    } else if e.Finalized? {
      assert NoMouseActions(GlobalInput.Finalize(s.input).actions);
    } else {
      assert added == [];
    }
    PerformHookActions(d, added);
  }
}
