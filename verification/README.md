# AutoClicker core in Dafny

A model of the AutoClicker tray utility's core: the global low-level keyboard
hook (`GlobalInput`), the synthetic left click it can inject, and the logic of
the tray application (`TrayIconUi`) that turns a start/stop hotkey into a
switch for a click timer, optionally pinned to the cursor position captured
when clicking was switched on.

Every OS or timer callback is one atomic step over an immutable state record:
the settings (start/stop key, clicks per second, pin flag), the two check-mark
menus and the pin item, the timer's `Enabled` and `Interval`, the captured
`Position`, the monitor's hook handle, `IsDisposing` flag and subscriber, and a
log of the native calls made so far (`SetWindowsHookEx`, `CallNextHookEx`,
`UnhookWindowsHookEx`, `mouse_event`, cursor moves). Native calls are not
executed; they are appended to the log. A small reference semantics of the
mouse actions (`NativeMethods.Desktop`, `Perform`) says where the cursor is
and where each left press and release lands, and the click operations are
proved against it.

Files:

- `wrappers.dfy`: `Option` and `Result`.
- `native_methods.dfy`: 32-bit integers, points, memory and `Marshal.ReadInt32`
  (little-endian), the native call log and its counts, the mouse reference semantics.
- `global_input.dfy`: the hook filter and handler, `GlobalKeyEventArgs`,
  `LeftClick()` / `LeftClick(Point)`, construction, `Dispose` and the finalizer.
- `tray_icon_ui.dfy`: the menus, the `StartStopKey` / `CPS` / `IsCursorPinned`
  setters, `TogglePinClick`, the constructor, the key and tick handlers.
- `traces.dfy`: events, `Step` and `Run`, and the trace properties.

## Behaviour worth noting

- `KeyEvent` is documented as occurring whenever any key is pressed or
  released (GlobalInput.cs:18), but the hook raises it only for `WM_KEYDOWN`
  (`GlobalInput.OnlyKeyDownRaises`).
- Hook installation is not checked. The constructor stores whatever handle
  `SetWindowsHookEx` returns; there is no installation error.
- `Dispose` has no guard. Only the finalizer checks `IsDisposing`, so a
  disposal followed by finalization removes the hook once, but two explicit
  disposals remove it twice (`GlobalInput.DisposeIsNotIdempotent`,
  `Traces.UnhookCount`).
- After construction the timer interval is the raw clicks-per-second value,
  because the constructor assigns the raw setting to `Timer.Interval` after the
  `CPS` setter derived 1000 / CPS (`TrayIconUi.ConstructedIntervalIsRawCps`).
  The model keeps this behaviour.
- The constructor throws when the stored start/stop key is not one of the
  offered keys, because the tray text looks the key up in the dictionary of
  offered keys. It also throws when the rate is 0 (division by zero), or when
  1000 / rate is below 1, since the WinForms timer rejects intervals below 1.

## Model

| member | source | states |
|---|---|---|
| GlobalInput.New | GlobalInput.cs:25-32 | construction makes exactly one installation, of a `WH_KEYBOARD_LL` (13) hook for thread 0 in the main module, removes nothing, stores the returned handle, and starts with no subscriber and the disposal flag clear |
| GlobalInput.KeyboardLowLevelHandler | GlobalInput.cs:41-44 | an event is raised iff `nCode >= 0`, a subscriber exists and `wParam` is `WM_KEYDOWN` (0x0100); its key code is the 32-bit value read at `lParam`; on every path the same `nCode`/`wParam`/`lParam` go to `CallNextHookEx` through the stored handle, and its result is returned |
| GlobalInput.OnlyKeyDownRaises | GlobalInput.cs:42 | key-up, sys-key-down and sys-key-up messages, negative codes and the absence of a subscriber raise nothing |
| GlobalInput.RaisedKeyIsStoredCode | GlobalInput.cs:42 | when the system has stored virtual-key code `vk` at `lParam`, the raised `GlobalKeyEventArgs` carries exactly `vk` |
| NativeMethods.ReadStoredInt32 | GlobalInput.cs:42 | `Marshal.ReadInt32` returns any 32-bit value written at the address as four little-endian bytes |
| NativeMethods.EncodeReadInt32 | GlobalInput.cs:42 | the value read from four bytes encodes back to those same bytes, so reading loses nothing |
| GlobalInput.LeftClick | GlobalInput.cs:49 | `LeftClick()` is one `mouse_event` with flags `ABSOLUTE|LEFTDOWN|LEFTUP` = 0x8006 and zero coordinates, and no cursor move |
| GlobalInput.LeftClickAt | GlobalInput.cs:55-58 | `LeftClick(p)` first sets the cursor to `p`, then one `mouse_event` with flags `LEFTDOWN|LEFTUP` = 0x0006 |
| GlobalInput.LeftClickAtCursor | GlobalInput.cs:49 | `LeftClick()` presses and releases the left button at the current cursor and does not move it |
| GlobalInput.LeftClickAtPosition | GlobalInput.cs:55-58 | `LeftClick(p)` presses and releases the left button at `p`, wherever the cursor was, and leaves it at `p` |
| GlobalInput.Dispose | GlobalInput.cs:62-65 | disposal sets `IsDisposing` and removes the stored hook exactly once, unconditionally, with no installation and no mouse action |
| GlobalInput.Finalize | GlobalInput.cs:70-72 | the finalizer removes the stored hook once if `IsDisposing` is clear and makes no call otherwise; afterwards the flag is set |
| GlobalInput.DisposeThenFinalizeUnhooksOnce | GlobalInput.cs:62-72 | `Dispose` followed by finalization removes the hook exactly once |
| GlobalInput.FinalizeAloneUnhooksOnce | GlobalInput.cs:70-72 | finalization of a monitor that was never disposed removes the hook exactly once |
| GlobalInput.DisposeIsNotIdempotent | GlobalInput.cs:62-65 | two explicit `Dispose` calls remove the hook twice |
| TrayIconUi.CheckMatching | TrayIconUi.cs:36-37 | the setters' loop keeps every item's tag and checks an item iff its tag equals the new value |
| TrayIconUi.CheckedIsUnique | TrayIconUi.cs:37 | with distinct tags at most one item is checked, and one is checked when the value is offered |
| TrayIconUi.SetStartStopKey | TrayIconUi.cs:34-39 | after `StartStopKey := k` exactly the items tagged `k` are checked and the setting is `k`; nothing else changes |
| TrayIconUi.SetCps | TrayIconUi.cs:47-52 | after `CPS := v` exactly the items tagged `v` are checked and the setting is `v`; the interval becomes the floor of 1000 / v, accepted iff 1 <= v <= 1000; v = 0 divides by zero, other rejected rates raise an out-of-range error, and then the interval is unchanged |
| TrayIconUi.IntervalOfRate | TrayIconUi.cs:51 | 1000 / v is at least 1 exactly for rates 1..1000, and then `interval * v <= 1000 < (interval + 1) * v` |
| TrayIconUi.OfferedRateIntervals | TrayIconUi.cs:26 | the offered rates 5, 15, 30 and 60 are accepted and give 200, 66, 33 and 16 ms |
| TrayIconUi.SetIsCursorPinned | TrayIconUi.cs:58-64 | the pin item's check mark and the pin setting both take the new value; nothing else changes |
| TrayIconUi.TogglePinClick | TrayIconUi.cs:134 | a pin click sets the pin setting to the negation of the item's check mark, and the item then shows the setting |
| TrayIconUi.PinClickTwiceRestores | TrayIconUi.cs:134 | when the pin item shows the setting, two pin clicks restore the state |
| TrayIconUi.FreshMenu | TrayIconUi.cs:70-73 | the constructor builds one unchecked item per offered value, in order |
| TrayIconUi.New | TrayIconUi.cs:69-98 | construction succeeds iff 1 <= CPS <= 1000 and the key is offered; rate 0 divides by zero, any other rejected rate raises an out-of-range error, and a key that is not offered is not found; on success the menus show the settings, the timer is off, the position is the origin, the key handler is subscribed and the log holds only the hook installation |
| TrayIconUi.ConstructedIntervalIsRawCps | TrayIconUi.cs:79-90 | after construction the interval equals the raw CPS value and differs from 1000 / CPS for every accepted rate |
| TrayIconUi.OnKeyEvent | TrayIconUi.cs:91-96 | a key other than the start/stop key changes nothing; the start/stop key flips the timer, captures the cursor when switching on and keeps the position when switching off |
| TrayIconUi.OnHook | GlobalInput.cs:41-44 | a hook call forwards the message unchanged; the timer flips iff the call raises the start/stop key, the position changes only when that switches clicking on, and nothing else changes |
| TrayIconUi.OnTick | TrayIconUi.cs:86-89 | a tick synthesizes exactly one click, installs and removes no hook, and changes nothing but the log |
| TrayIconUi.TickClickTarget | TrayIconUi.cs:86-89 | a tick presses and releases at the captured position when pinned and at the live cursor otherwise |
| Traces.RunKeepsHook | GlobalInput.cs:25-65 | over any trace the hook handle and subscriber are kept, the log only grows, no hook is installed again, and every removal targets the stored handle |
| Traces.ToggleParity | TrayIconUi.cs:92-95 | after any trace the timer is on iff it started on XOR the start/stop key (as configured at each press) was pressed an odd number of times; no debounce |
| Traces.OtherKeysChangeNothing | TrayIconUi.cs:92 | a trace with no start/stop key press leaves the timer and the captured position unchanged |
| Traces.ClicksAreActiveTicks | TrayIconUi.cs:86-95 | the number of synthesized clicks equals the number of ticks that fire while clicking is on |
| Traces.NoClicksWhileDisabled | TrayIconUi.cs:86-94 | while the timer is off and the key is not pressed, no click is synthesized |
| Traces.UnhookCount | GlobalInput.cs:62-72 | the hook is removed once per explicit disposal, plus once when the finalizer runs before any disposal |
| Traces.SingleDisposeUnhooksOnce | GlobalInput.cs:62-72 | one explicit disposal, not preceded by finalization, removes the hook exactly once over the whole trace, finalizer or not |
| Traces.InvPreserved | TrayIconUi.cs:31-64 | menu clicks and all other events keep the menus showing the settings, the subscriber, an accepted rate and an interval that is the raw rate or 1000 / rate |
| Traces.PinnedClicksStayAtCapture | TrayIconUi.cs:86-95 | after switching on with pinning, until the key or the pin item is used again, every tick clicks at the position captured by the switching press, wherever the cursor is |
| Traces.TicksBetweenPressesClickOncePerTick | TrayIconUi.cs:86-95 | pressing the start/stop key, `n` ticks, pressing it again and one more tick give exactly `n` clicks and end switched off |
| Traces.KeyDownOfStartStopKeyToggles | TrayIconUi.cs:92 | a key-down message with any non-negative code whose stored virtual-key code is the start/stop key reaches the key handler as a press of that key |
| Traces.HookCallsLeaveMouseAlone | GlobalInput.cs:41-72 | hook calls, disposal, finalization and menu clicks leave the cursor and the mouse buttons untouched; only ticks act on the mouse |

## Left out

- Native calls (`SetWindowsHookEx`, `CallNextHookEx`, `UnhookWindowsHookEx`, `mouse_event`): their effect on the system is not modelled. They are logged with their arguments, except `SetWindowsHookEx`'s hook procedure `lpfn`, which is always `KeyboardLowLevelHandler` and is not logged; `Traces.Step` sends every hook call to that procedure. The handles and results that `SetWindowsHookEx` and `CallNextHookEx` return are parameters. The `bool` that `UnhookWindowsHookEx` returns is discarded by the code and is not modelled. Only the mouse actions get a reference semantics.
- `GetModuleHandle`: not logged; the handle it returns is the `mainModule` parameter of `GlobalInput.New`.
- The main module name lookup (`MainModuleName`): its module handle is a parameter of construction.
- `GC.KeepAlive` and the lifetime of the hook delegate: garbage collection is not modelled.
- The conversion `(int)wParam`: message identifiers fit in 32 bits, so the model compares the pointer value directly.
- Threads and `SwitchLock`: each callback is one atomic step. The tick reads `Position` without the lock, which interleaving would expose; this is not modelled.
- Real-time timer behaviour (ticks per second, drift, overlapping ticks): ticks are discrete events that reach the handler only while the timer is enabled.
- After the hook is removed the system stops calling it; the traces do not forbid later hook events, since delivery is the system's choice.
- A constructor that throws after the monitor was created leaves the hook installed until finalization; the model returns only the fault.
- `NativeMethods.Perform` takes absolute `mouse_event` coordinates as screen coordinates instead of the 0..65535 normalised range; the modelled clicks never move the mouse through `mouse_event`.
- `NativeMethods.Perform` places the cursor exactly where `Cursor.Position` is set: the system's clipping of the point to the screen and to any `ClipCursor` rectangle is not modelled, so `GlobalInput.LeftClickAtPosition`, `TrayIconUi.TickClickTarget` and `Traces.PinnedClicksStayAtCapture` speak of clicks at points the cursor can actually reach.
- Tray icon, icons, tooltip text, balloon help, `Settings.Save()`, `Application.Exit` and the rest of `TrayIconUi.Dispose`: user-interface and persistence glue. The owner's call to `GlobalInput.Dispose()` is the `Disposed` event. `TrayIconUi.Dispose` also disposes the timer before that call, which stops the ticks; the timer's disposal is not modelled, so the traces do not rule out ticks, and their clicks, after `Disposed`.
- `Program.cs`: start-up only.
