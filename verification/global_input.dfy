/**
 * The global keyboard monitor and mouse injector (class `GlobalInput`).
 *
 * The object's state is the stored hook handle, the disposal flag and whether
 * anyone subscribes to `KeyEvent`. Each operation returns the new state together
 * with the native calls it makes, in order.
 */
module GlobalInput {
  import opened Wrappers
  import opened NativeMethods

  /** `GlobalKeyEventArgs`: `(Keys)value` keeps the integer read from the hook unchanged. */
  datatype GlobalKeyEventArgs = GlobalKeyEventArgs(keyCode: Int32)

  datatype State = State(keyboardHookId: Handle, isDisposing: bool, hasSubscriber: bool)

  /** A new state and the native calls made on the way to it. */
  datatype Step = Step(state: State, actions: seq<Action>)

  /**
   * The constructor: installs a low-level keyboard hook for every thread of the
   * desktop, in the main module, and keeps whatever handle the system returns
   * (the handle is not checked, so a failed installation stores zero).
   */
  function New(mainModule: Handle, returned: Handle): (r: Step)
    ensures r.actions == [SetWindowsHookEx(WH_KEYBOARD_LL, mainModule, 0)]
    ensures Count(r.actions, Install) == 1 && Count(r.actions, Unhook) == 0
    ensures r.state.keyboardHookId == returned
    ensures !r.state.isDisposing && !r.state.hasSubscriber
  {
    var log := [SetWindowsHookEx(WH_KEYBOARD_LL, mainModule, 0)];
    CountSingle(log[0], Install);
    CountSingle(log[0], Unhook);
    Step(State(returned, false, false), log)
  }

  /** `KeyEvent += handler`. */
  function Subscribe(g: State): State
  {
    g.(hasSubscriber := true)
  }

  /** The filter of the hook procedure: only key-down messages with a non-negative code reach a subscriber. */
  predicate RaisesKeyEvent(nCode: Int32, wParam: Ptr, hasSubscriber: bool)
  {
    nCode >= 0 && hasSubscriber && wParam == WM_KEYDOWN
  }

  /** What one call of the hook procedure does: the event it raises, the call it forwards, the value it returns. */
  datatype HookOutcome = HookOutcome(raised: Option<GlobalKeyEventArgs>, forwarded: Action, returned: Ptr)

  /**
   * `KeyboardLowLevelHandler`. `next` is the value `CallNextHookEx` returns.
   * The key code is read from `lParam` only when the event is raised, so only
   * then must that memory be readable.
   */
  function KeyboardLowLevelHandler(g: State, nCode: Int32, wParam: Ptr, lParam: Ptr, mem: Memory, next: Ptr): (r: HookOutcome)
    requires RaisesKeyEvent(nCode, wParam, g.hasSubscriber) ==> Readable(mem, lParam)
    ensures r.raised.Some? <==> nCode >= 0 && g.hasSubscriber && wParam == WM_KEYDOWN
    ensures r.raised.Some? ==> r.raised.value.keyCode == ReadInt32(mem, lParam)
    ensures r.forwarded == CallNextHookEx(g.keyboardHookId, nCode, wParam, lParam)
    ensures r.returned == next
  {
    var raised :=
      if RaisesKeyEvent(nCode, wParam, g.hasSubscriber)
      then Some(GlobalKeyEventArgs(ReadInt32(mem, lParam)))
      else None;
    HookOutcome(raised, CallNextHookEx(g.keyboardHookId, nCode, wParam, lParam), next)
  }

  /** Key-up and system-key messages, and any message with a negative code, raise nothing. */
  lemma OnlyKeyDownRaises(g: State, nCode: Int32, wParam: Ptr, lParam: Ptr, mem: Memory, next: Ptr)
    requires wParam in {WM_KEYUP, WM_SYSKEYDOWN, WM_SYSKEYUP} || nCode < 0 || !g.hasSubscriber
    ensures KeyboardLowLevelHandler(g, nCode, wParam, lParam, mem, next).raised == None
  {
  }

  /** The key code raised is the virtual-key code the system stored at `lParam`. */
  lemma RaisedKeyIsStoredCode(g: State, nCode: Int32, lParam: Ptr, mem: Memory, vkCode: Int32, next: Ptr)
    requires nCode >= 0 && g.hasSubscriber
    ensures KeyboardLowLevelHandler(g, nCode, WM_KEYDOWN, lParam, Store(mem, lParam, EncodeInt32(vkCode)), next).raised
            == Some(GlobalKeyEventArgs(vkCode))
  {
    ReadStoredInt32(mem, lParam, vkCode);
  }

  /** `LeftClick()`: one absolute left press and release with zero coordinates, no cursor move. */
  function LeftClick(): (a: seq<Action>)
    ensures |a| == 1 && a[0] == MouseEvent(0x8006, 0, 0, 0, 0)
  {
    [MouseEvent(MOUSEEVENTF_ABSOLUTE | MOUSEEVENTF_LEFTDOWN | MOUSEEVENTF_LEFTUP, 0, 0, 0, 0)]
  }

  /** `LeftClick(position)`: move the cursor, then a left press and release. */
  function LeftClickAt(position: Point): (a: seq<Action>)
    ensures a == [SetCursorPosition(position), MouseEvent(0x0006, 0, 0, 0, 0)]
  {
    [SetCursorPosition(position), MouseEvent(MOUSEEVENTF_LEFTDOWN | MOUSEEVENTF_LEFTUP, 0, 0, 0, 0)]
  }

  /** `LeftClick()` presses and releases the left button where the cursor already is, and leaves it there. */
  lemma LeftClickAtCursor(d: Desktop)
    ensures PerformAll(d, LeftClick())
            == Desktop(d.cursor, d.presses + [d.cursor], d.releases + [d.cursor])
  {
  }

  /** `LeftClick(p)` presses and releases the left button at `p`, wherever the cursor was, and leaves it at `p`. */
  lemma LeftClickAtPosition(d: Desktop, p: Point)
    ensures PerformAll(d, LeftClickAt(p)) == Desktop(p, d.presses + [p], d.releases + [p])
  {
    var a := LeftClickAt(p);
    var moved := Perform(d, a[0]);
    assert moved == d.(cursor := p);
    assert a[1..][1..] == [];
    assert PerformAll(d, a) == PerformAll(moved, a[1..]);
  }

  /** `Dispose`: set the flag, then unhook the stored handle, unconditionally. */
  function Dispose(g: State): (r: Step)
    ensures r.state == g.(isDisposing := true)
    ensures Count(r.actions, Unhook) == 1 && Count(r.actions, Install) == 0 && NoMouseActions(r.actions)
    ensures forall i :: 0 <= i < |r.actions| ==> r.actions[i] == UnhookWindowsHookEx(g.keyboardHookId)
  {
    var log := [UnhookWindowsHookEx(g.keyboardHookId)];
    CountSingle(log[0], Install);
    CountSingle(log[0], Unhook);
    Step(g.(isDisposing := true), log)
  }

  /** The finalizer: disposes only when no disposal has started. */
  function Finalize(g: State): (r: Step)
    ensures r.state == g.(isDisposing := true)
    ensures Count(r.actions, Unhook) == (if g.isDisposing then 0 else 1)
    ensures Count(r.actions, Install) == 0 && NoMouseActions(r.actions)
    ensures forall i :: 0 <= i < |r.actions| ==> r.actions[i] == UnhookWindowsHookEx(g.keyboardHookId)
  {
    if !g.isDisposing then Dispose(g) else Step(g, [])
  }

  /** Explicit disposal followed by finalization removes the hook exactly once. */
  lemma DisposeThenFinalizeUnhooksOnce(g: State)
    ensures var d := Dispose(g);
            Count(d.actions + Finalize(d.state).actions, Unhook) == 1
  {
    var d := Dispose(g);
    CountDistributes(d.actions, Finalize(d.state).actions, Unhook);
  }

  /** Finalization alone removes a hook that was never disposed, exactly once. */
  lemma FinalizeAloneUnhooksOnce(g: State)
    requires !g.isDisposing
    ensures Count(Finalize(g).actions, Unhook) == 1
  {
  }

  /** `Dispose` has no guard: calling it twice removes the hook twice. */
  lemma DisposeIsNotIdempotent(g: State)
    ensures var d := Dispose(g);
            Count(d.actions + Dispose(d.state).actions, Unhook) == 2
  {
    var d := Dispose(g);
    CountDistributes(d.actions, Dispose(d.state).actions, Unhook);
  }
}
