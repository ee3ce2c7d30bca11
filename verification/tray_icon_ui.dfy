/**
 * The tray application (class `TrayIconUi`): the persisted settings, the two
 * check-mark menus and the pin item, the click timer, the captured position,
 * the keyboard monitor it owns, and the log of native calls made so far.
 *
 * Property setters that throw in `TrayIconUi` return the fault together with the
 * state as it was when the exception left the setter.
 */
module TrayIconUi {
  import opened Wrappers
  import opened NativeMethods
  import GlobalInput

  /** `Keys.Scroll` and `Keys.RControlKey`. */
  const Scroll: Int32 := 145
  const RControlKey: Int32 := 163

  /** The start/stop keys offered, in menu order. */
  const StartStopKeysAvailable: seq<Int32> := [Scroll, RControlKey]

  /** The clicks-per-second rates offered, in menu order. */
  const CpsAvailable: seq<Int32> := [5, 15, 30, 60]

  /** The interval of a new `System.Windows.Forms.Timer`, in milliseconds. */
  const DefaultInterval := 100

  /** The persisted user settings. */
  datatype Settings = Settings(startStopKey: Int32, cps: Int32, pinCursor: bool)

  datatype MenuItem = MenuItem(tag: int, checked: bool)

  /** Exceptions the modelled code can throw. */
  datatype Fault = DivideByZero | ArgumentOutOfRange | KeyNotFound

  datatype State = State(
    settings: Settings,
    keysMenu: seq<MenuItem>,
    cpsMenu: seq<MenuItem>,
    pinChecked: bool,
    timerEnabled: bool,
    timerInterval: int,
    position: Point,
    input: GlobalInput.State,
    log: seq<Action>)

  /** The state a setter leaves and the exception it throws, if any. */
  datatype Outcome = Outcome(state: State, fault: Option<Fault>)

  function Tags(items: seq<MenuItem>): (t: seq<int>)
    ensures |t| == |items|
  {
    seq(|items|, i requires 0 <= i < |items| => items[i].tag)
  }

  /** Exactly the items tagged `value` carry a check mark. */
  predicate CheckedExactly(items: seq<MenuItem>, value: int)
  {
    forall i :: 0 <= i < |items| ==> (items[i].checked <==> items[i].tag == value)
  }

  /** The loop of the two selection setters: each item is checked iff its tag equals the new value. */
  function CheckMatching(items: seq<MenuItem>, value: int): (r: seq<MenuItem>)
    ensures |r| == |items|
    ensures forall i :: 0 <= i < |r| ==> r[i].tag == items[i].tag
    ensures Tags(r) == Tags(items)
    ensures CheckedExactly(r, value)
  {
    if items == [] then []
    else [items[0].(checked := items[0].tag == value)] + CheckMatching(items[1..], value)
  }

  /** With distinct tags, at most one item is checked, and one is when the value is offered. */
  lemma {:induction false} CheckedIsUnique(items: seq<MenuItem>, value: int)
    requires CheckedExactly(items, value)
    requires forall i, j :: 0 <= i < j < |items| ==> items[i].tag != items[j].tag
    ensures forall i, j :: 0 <= i < |items| && 0 <= j < |items| && items[i].checked && items[j].checked ==> i == j
    ensures value in Tags(items) ==> exists i :: 0 <= i < |items| && items[i].checked
  {
    if value in Tags(items) {
      var i :| 0 <= i < |items| && Tags(items)[i] == value;
      assert items[i].checked;
    }
  }

  /** C# integer division, which truncates toward zero. */
  function CsDiv(a: int, b: int): (q: int)
    requires b != 0
    ensures a >= 0 ==> (b > 0 ==> q == a / b) && (b < 0 ==> q == -(a / -b))
  {
    var n := if a < 0 then -a else a;
    var d := if b < 0 then -b else b;
    if (a < 0) != (b < 0) then -(n / d) else n / d
  }

  /** 1000 / v is a valid interval exactly for the rates 1..1000, and then it is the whole number of milliseconds per click. */
  lemma IntervalOfRate(v: int)
    requires v != 0
    ensures CsDiv(1000, v) >= 1 <==> 1 <= v <= 1000
    ensures 1 <= v <= 1000 ==> CsDiv(1000, v) * v <= 1000 < (CsDiv(1000, v) + 1) * v
  {
    if v > 0 {
      var q, r := 1000 / v, 1000 % v;
      assert q * v + r == 1000 && 0 <= r < v;
      if v <= 1000 {
        assert q * v > 0;
        assert q >= 1;
      } else {
        assert q == 0;
      }
    } else {
      assert 1000 / -v >= 0;
    }
  }

  /** The `Timer.Interval` setter, which rejects values below one. */
  function SetInterval(s: State, interval: int): (r: Outcome)
    ensures r.fault == None <==> interval >= 1
    ensures r.fault == None ==> r.state == s.(timerInterval := interval)
    ensures r.fault != None ==> r.fault == Some(ArgumentOutOfRange) && r.state == s
  {
    if interval < 1 then Outcome(s, Some(ArgumentOutOfRange))
    else Outcome(s.(timerInterval := interval), None)
  }

  /** The `StartStopKey` setter. */
  function SetStartStopKey(s: State, key: Int32): (r: State)
    ensures CheckedExactly(r.keysMenu, key) && Tags(r.keysMenu) == Tags(s.keysMenu)
    ensures r.settings == s.settings.(startStopKey := key)
    ensures r.(keysMenu := s.keysMenu, settings := s.settings) == s
  {
    s.(keysMenu := CheckMatching(s.keysMenu, key), settings := s.settings.(startStopKey := key))
  }

  /**
   * The `CPS` setter: marks the menu and stores the setting, then sets the
   * interval to 1000 / v milliseconds. A zero rate divides by zero, and a rate
   * above 1000 or below 1 gives an interval the timer rejects; in both cases the
   * menu and the setting have already changed and the interval has not.
   */
  function SetCps(s: State, v: Int32): (r: Outcome)
    ensures CheckedExactly(r.state.cpsMenu, v) && Tags(r.state.cpsMenu) == Tags(s.cpsMenu)
    ensures r.state.settings == s.settings.(cps := v)
    ensures r.fault == None <==> 1 <= v <= 1000
    ensures v == 0 ==> r.fault == Some(DivideByZero)
    ensures v != 0 && r.fault != None ==> r.fault == Some(ArgumentOutOfRange)
    ensures r.fault == None ==> r.state.timerInterval * v <= 1000 < (r.state.timerInterval + 1) * v
    ensures r.fault != None ==> r.state.timerInterval == s.timerInterval
    ensures r.state.(cpsMenu := s.cpsMenu, settings := s.settings, timerInterval := s.timerInterval) == s
  {
    var marked := s.(cpsMenu := CheckMatching(s.cpsMenu, v), settings := s.settings.(cps := v));
    if v == 0 then Outcome(marked, Some(DivideByZero))
    else
      var interval := CsDiv(1000, v);
      IntervalOfRate(v);
      SetInterval(marked, interval)
  }

  /** Every offered rate is accepted, with intervals 200, 66, 33 and 16 ms. */
  lemma OfferedRateIntervals(s: State)
    ensures SetCps(s, 5).fault == None && SetCps(s, 5).state.timerInterval == 200
    ensures SetCps(s, 15).fault == None && SetCps(s, 15).state.timerInterval == 66
    ensures SetCps(s, 30).fault == None && SetCps(s, 30).state.timerInterval == 33
    ensures SetCps(s, 60).fault == None && SetCps(s, 60).state.timerInterval == 16
  {
  }

  /** The `IsCursorPinned` setter: the pin item's check mark and the setting take the same value. */
  function SetIsCursorPinned(s: State, pinned: bool): (r: State)
    ensures r.pinChecked == pinned && r.settings == s.settings.(pinCursor := pinned)
    ensures r.(pinChecked := s.pinChecked, settings := s.settings) == s
  {
    s.(pinChecked := pinned, settings := s.settings.(pinCursor := pinned))
  }

  /** `TogglePinClick`: pins iff the item was not checked; afterwards the item shows the setting. */
  function TogglePinClick(s: State): (r: State)
    ensures r.settings.pinCursor == !s.pinChecked
    ensures r.pinChecked == r.settings.pinCursor
    ensures r.(pinChecked := s.pinChecked, settings := s.settings) == s
  {
    SetIsCursorPinned(s, !s.pinChecked)
  }

  /** Two pin clicks restore the pin setting, provided the item showed the setting to begin with. */
  lemma PinClickTwiceRestores(s: State)
    requires s.pinChecked == s.settings.pinCursor
    ensures TogglePinClick(TogglePinClick(s)) == s
  {
  }

  /** A menu as built by the constructor: one unchecked item per offered value. */
  function FreshMenu(tags: seq<Int32>): (items: seq<MenuItem>)
    ensures Tags(items) == tags
    ensures forall i :: 0 <= i < |items| ==> !items[i].checked
  {
    seq(|tags|, i requires 0 <= i < |tags| => MenuItem(tags[i], false))
  }

  /**
   * What holds between events once the application runs: the menus show the
   * settings, the monitor has its subscriber, the rate is one the timer accepts,
   * and the interval is either the raw rate (as the constructor leaves it) or the
   * derived 1000 / rate.
   */
  predicate Inv(s: State)
  {
    && Tags(s.keysMenu) == StartStopKeysAvailable
    && Tags(s.cpsMenu) == CpsAvailable
    && CheckedExactly(s.keysMenu, s.settings.startStopKey)
    && CheckedExactly(s.cpsMenu, s.settings.cps)
    && s.pinChecked == s.settings.pinCursor
    && s.input.hasSubscriber
    && s.settings.startStopKey in StartStopKeysAvailable
    && 1 <= s.settings.cps <= 1000
    && (|| s.timerInterval == s.settings.cps
        || s.timerInterval * s.settings.cps <= 1000 < (s.timerInterval + 1) * s.settings.cps)
  }

  /**
   * The constructor, in the order of its statements: the monitor (a field initializer) installs
   * its hook first; the menus are built; the rate, key and pin setters run; the
   * tray text looks the key up among the offered ones; the tick handler is
   * attached; the interval is overwritten with the raw rate; the key handler is
   * attached last. The timer starts disabled and the position at the origin.
   */
  function New(settings: Settings, mainModule: Handle, hookHandle: Handle): (r: Result<State, Fault>)
    ensures r.Success? <==> 1 <= settings.cps <= 1000 && settings.startStopKey in StartStopKeysAvailable
    ensures settings.cps == 0 ==> r == Failure(DivideByZero)
    ensures settings.cps != 0 && !(1 <= settings.cps <= 1000) ==> r == Failure(ArgumentOutOfRange)
    ensures 1 <= settings.cps <= 1000 && settings.startStopKey !in StartStopKeysAvailable ==> r == Failure(KeyNotFound)
    ensures r.Success? ==>
      && Inv(r.value)
      && r.value.settings == settings
      && !r.value.timerEnabled
      && r.value.position == Origin
      && r.value.input.keyboardHookId == hookHandle
      && !r.value.input.isDisposing
      && r.value.log == [SetWindowsHookEx(WH_KEYBOARD_LL, mainModule, 0)]
  {
    var g := GlobalInput.New(mainModule, hookHandle);
    var s0 := State(settings, FreshMenu(StartStopKeysAvailable), FreshMenu(CpsAvailable), false,
                    false, DefaultInterval, Origin, g.state, g.actions);
    var c := SetCps(s0, settings.cps);
    if c.fault.Some? then Failure(c.fault.value)
    else
      var s1 := SetIsCursorPinned(SetStartStopKey(c.state, settings.startStopKey), settings.pinCursor);
      if settings.startStopKey !in StartStopKeysAvailable then Failure(KeyNotFound)
      else
        // The rate setter has already rejected every rate this assignment would reject.
        var t := SetInterval(s1, settings.cps);
        assert t.fault == None;
        Success(t.state.(input := GlobalInput.Subscribe(t.state.input)))
  }

  /**
   * After construction the interval is the raw rate, not the 1000 / rate the
   * rate setter derived: the later assignment of the raw setting overwrites it,
   * and no accepted rate is its own interval.
   */
  lemma ConstructedIntervalIsRawCps(settings: Settings, mainModule: Handle, hookHandle: Handle)
    requires New(settings, mainModule, hookHandle).Success?
    ensures New(settings, mainModule, hookHandle).value.timerInterval == settings.cps
    ensures New(settings, mainModule, hookHandle).value.timerInterval != 1000 / settings.cps
  {
    NoRateIsItsOwnInterval(settings.cps);
  }

  lemma NoRateIsItsOwnInterval(c: int)
    requires 1 <= c <= 1000
    ensures 1000 / c != c
  {
    assert (1000 / c) * c + 1000 % c == 1000;
  }

  /**
   * The key handler. A key other than the start/stop key changes nothing; the
   * start/stop key flips the timer and, when it switches clicking on, captures
   * the live cursor position.
   */
  function OnKeyEvent(s: State, e: GlobalInput.GlobalKeyEventArgs, cursor: Point): (r: State)
    ensures e.keyCode != s.settings.startStopKey ==> r == s
    ensures e.keyCode == s.settings.startStopKey ==> r.timerEnabled == !s.timerEnabled
    ensures e.keyCode == s.settings.startStopKey && !s.timerEnabled ==> r.position == cursor
    ensures s.timerEnabled ==> r.position == s.position
    ensures r.(timerEnabled := s.timerEnabled, position := s.position) == s
  {
    if e.keyCode != s.settings.startStopKey then s
    else
      var captured := if !s.timerEnabled then s.(position := cursor) else s;
      captured.(timerEnabled := !captured.timerEnabled)
  }

  /** A hook call that reaches the key handler with the start/stop key. */
  predicate PressesStartStopKey(s: State, nCode: Int32, wParam: Ptr, lParam: Ptr, mem: Memory)
    requires GlobalInput.RaisesKeyEvent(nCode, wParam, s.input.hasSubscriber) ==> Readable(mem, lParam)
  {
    GlobalInput.RaisesKeyEvent(nCode, wParam, s.input.hasSubscriber) && ReadInt32(mem, lParam) == s.settings.startStopKey
  }

  /**
   * One call of the hook procedure: the filter, the key handler when an event is
   * raised, and the forwarding of the unchanged message to the next hook.
   */
  function OnHook(s: State, nCode: Int32, wParam: Ptr, lParam: Ptr, mem: Memory, cursor: Point, next: Ptr): (r: State)
    requires GlobalInput.RaisesKeyEvent(nCode, wParam, s.input.hasSubscriber) ==> Readable(mem, lParam)
    ensures r.log == s.log + [CallNextHookEx(s.input.keyboardHookId, nCode, wParam, lParam)]
    ensures r.timerEnabled == (s.timerEnabled != PressesStartStopKey(s, nCode, wParam, lParam, mem))
    ensures PressesStartStopKey(s, nCode, wParam, lParam, mem) && !s.timerEnabled ==> r.position == cursor
    ensures !PressesStartStopKey(s, nCode, wParam, lParam, mem) || s.timerEnabled ==> r.position == s.position
    ensures r.(log := s.log, timerEnabled := s.timerEnabled, position := s.position) == s
  {
    var h := GlobalInput.KeyboardLowLevelHandler(s.input, nCode, wParam, lParam, mem, next);
    var handled := if h.raised.Some? then OnKeyEvent(s, h.raised.value, cursor) else s;
    handled.(log := handled.log + [h.forwarded])
  }

  /** The tick handler: a click at the captured position when pinned, at the live cursor otherwise. */
  function OnTick(s: State): (r: State)
    ensures |r.log| > |s.log| && r.log[..|s.log|] == s.log
    ensures Count(r.log, Click) == Count(s.log, Click) + 1
    ensures Count(r.log, Install) == Count(s.log, Install) && Count(r.log, Unhook) == Count(s.log, Unhook)
    ensures r.(log := s.log) == s
  {
    var added := if s.settings.pinCursor then GlobalInput.LeftClickAt(s.position) else GlobalInput.LeftClick();
    TickCounts(added, s.settings.pinCursor, s.position);
    CountDistributes(s.log, added, Click);
    CountDistributes(s.log, added, Install);
    CountDistributes(s.log, added, Unhook);
    s.(log := s.log + added)
  }

  lemma TickCounts(added: seq<Action>, pinned: bool, position: Point)
    requires added == if pinned then GlobalInput.LeftClickAt(position) else GlobalInput.LeftClick()
    ensures Count(added, Click) == 1 && Count(added, Install) == 0 && Count(added, Unhook) == 0
  {
    forall k: Kind ensures Count(added, k) == if k == Click then 1 else if k == CursorMove && pinned then 1 else 0 {
      CountSingle(added[0], k);
      if pinned {
        assert [added[0]] + [added[1]] == added;
        CountDistributes([added[0]], [added[1]], k);
        CountSingle(added[1], k);
      }
    }
  }

  /** Where a tick clicks: at the captured position when pinned, wherever the user left the cursor otherwise. */
  lemma TickClickTarget(s: State, d: Desktop)
    ensures var target := if s.settings.pinCursor then s.position else d.cursor;
            PerformAll(d, OnTick(s).log[|s.log|..]) == Desktop(target, d.presses + [target], d.releases + [target])
  {
    var added := OnTick(s).log[|s.log|..];
    if s.settings.pinCursor {
      assert added == GlobalInput.LeftClickAt(s.position);
      GlobalInput.LeftClickAtPosition(d, s.position);
    } else {
      assert added == GlobalInput.LeftClick();
      GlobalInput.LeftClickAtCursor(d);
    }
  }
}
