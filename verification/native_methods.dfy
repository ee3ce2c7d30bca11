/**
 * The boundary between the clicker and the Windows API.
 *
 * Native calls are not executed: each one becomes an `Action` appended to a log.
 * What the operating system does with the mouse actions is given by an independent
 * reference semantics (`Desktop`, `Perform`), against which the injector is proved.
 */
module NativeMethods {

  /** A C# `int`. */
  type Int32 = x: int | -0x8000_0000 <= x < 0x8000_0000

  /** An `IntPtr`: a hook handle, a module handle, or an address. */
  type Handle = int
  type Ptr = int

  /** `System.Drawing.Point`; `Point.Empty` is the origin. */
  datatype Point = Point(x: int, y: int)

  const Origin := Point(0, 0)

  // Hook type and keyboard message identifiers.
  const WH_KEYBOARD_LL: Int32 := 13
  const WM_KEYDOWN: Int32 := 0x0100
  const WM_KEYUP: Int32 := 0x0101
  const WM_SYSKEYDOWN: Int32 := 0x0104
  const WM_SYSKEYUP: Int32 := 0x0105

  // `mouse_event` flag bits.
  const MOUSEEVENTF_ABSOLUTE: bv32 := 0x8000
  const MOUSEEVENTF_MOVE: bv32 := 0x0001
  const MOUSEEVENTF_LEFTDOWN: bv32 := 0x0002
  const MOUSEEVENTF_LEFTUP: bv32 := 0x0004

  /**
   * One call across the boundary, with the arguments it was given. The hook
   * procedure passed to `SetWindowsHookEx` is always `KeyboardLowLevelHandler`
   * and is not recorded.
   */
  datatype Action =
    | SetWindowsHookEx(idHook: Int32, hMod: Handle, threadId: nat)
    | CallNextHookEx(hhk: Handle, nCode: Int32, wParam: Ptr, lParam: Ptr)
    | UnhookWindowsHookEx(hhk: Handle)
    | MouseEvent(flags: bv32, dx: Int32, dy: Int32, data: Int32, extraInfo: Ptr)
    | SetCursorPosition(position: Point)

  /** Kinds of logged calls that the model counts. */
  datatype Kind = Install | Unhook | Click | CursorMove

  predicate IsKind(a: Action, k: Kind)
  {
    match k
    case Install => a.SetWindowsHookEx?
    case Unhook => a.UnhookWindowsHookEx?
    case Click => a.MouseEvent?
    case CursorMove => a.SetCursorPosition?
  }

  /** Number of calls of kind `k` in a log. */
  function Count(log: seq<Action>, k: Kind): nat
  {
    if log == [] then 0
    else (if IsKind(log[|log| - 1], k) then 1 else 0) + Count(log[..|log| - 1], k)
  }

  lemma {:induction false} CountDistributes(a: seq<Action>, b: seq<Action>, k: Kind)
    ensures Count(a + b, k) == Count(a, k) + Count(b, k)
    decreases |b|
  {
    if b != [] {
      var b' := b[..|b| - 1];
      assert (a + b)[..|a + b| - 1] == a + b';
      CountDistributes(a, b', k);
    } else {
      assert a + b == a;
    }
  }

  lemma CountSingle(a: Action, k: Kind)
    ensures Count([a], k) == if IsKind(a, k) then 1 else 0
  {
    assert [a][..0] == [];
  }

  /** Hook calls leave the mouse alone. */
  predicate NoMouseActions(log: seq<Action>)
  {
    forall i :: 0 <= i < |log| ==> !log[i].MouseEvent? && !log[i].SetCursorPosition?
  }

  // ---------------------------------------------------------------------------
  // Process memory and Marshal.ReadInt32

  type Byte = x: int | 0 <= x < 0x100

  /** The bytes of the process that can be read, by address. */
  type Memory = map<Ptr, Byte>

  predicate Readable(mem: Memory, p: Ptr)
  {
    p in mem && p + 1 in mem && p + 2 in mem && p + 3 in mem
  }

  /** Unsigned value of four bytes, least significant first. */
  function Unsigned32(b0: Byte, b1: Byte, b2: Byte, b3: Byte): (u: nat)
    ensures u < 0x1_0000_0000
  {
    b0 + 0x100 * (b1 + 0x100 * (b2 + 0x100 * b3))
  }

  /** `Marshal.ReadInt32`: the little-endian signed 32-bit value stored at `p`. */
  function ReadInt32(mem: Memory, p: Ptr): Int32
    requires Readable(mem, p)
  {
    var u := Unsigned32(mem[p], mem[p + 1], mem[p + 2], mem[p + 3]);
    if u < 0x8000_0000 then u else u - 0x1_0000_0000
  }

  /** The four bytes, least significant first, that represent `v` in two's complement. */
  function EncodeInt32(v: Int32): (b: seq<Byte>)
    ensures |b| == 4
  {
    var u := if v < 0 then v + 0x1_0000_0000 else v;
    var u1 := u / 0x100;
    var u2 := u1 / 0x100;
    [u % 0x100, u1 % 0x100, u2 % 0x100, u2 / 0x100]
  }

  /** Memory after the four bytes `b` are written at `p`. */
  function Store(mem: Memory, p: Ptr, b: seq<Byte>): (m: Memory)
    requires |b| == 4
    ensures Readable(m, p)
    ensures forall q :: q in mem && (q < p || p + 3 < q) ==> q in m && m[q] == mem[q]
  {
    mem[p := b[0]][p + 1 := b[1]][p + 2 := b[2]][p + 3 := b[3]]
  }

  /** A value written to memory reads back unchanged. */
  lemma ReadStoredInt32(mem: Memory, p: Ptr, v: Int32)
    ensures ReadInt32(Store(mem, p, EncodeInt32(v)), p) == v
  {
    var u := if v < 0 then v + 0x1_0000_0000 else v;
    var u1 := u / 0x100;
    var u2 := u1 / 0x100;
    assert u == (u % 0x100) + 0x100 * u1;
    assert u1 == (u1 % 0x100) + 0x100 * u2;
    assert u2 == (u2 % 0x100) + 0x100 * (u2 / 0x100);
    var b := EncodeInt32(v);
    var m := Store(mem, p, b);
    assert m[p] == b[0] && m[p + 1] == b[1] && m[p + 2] == b[2] && m[p + 3] == b[3];
    assert Unsigned32(b[0], b[1], b[2], b[3]) == u;
  }

  /** Reading four bytes and encoding the value gives the same four bytes back. */
  lemma EncodeReadInt32(mem: Memory, p: Ptr)
    requires Readable(mem, p)
    ensures EncodeInt32(ReadInt32(mem, p)) == [mem[p], mem[p + 1], mem[p + 2], mem[p + 3]]
  {
    var b0, b1, b2, b3: int := mem[p], mem[p + 1], mem[p + 2], mem[p + 3];
    var u2 := b2 + 0x100 * b3;
    var u1 := b1 + 0x100 * u2;
    var u := b0 + 0x100 * u1;
    assert u == Unsigned32(mem[p], mem[p + 1], mem[p + 2], mem[p + 3]);
    assert u / 0x100 == u1 && u % 0x100 == b0;
    assert u1 / 0x100 == u2 && u1 % 0x100 == b1;
    assert u2 / 0x100 == b3 && u2 % 0x100 == b2;
  }

  // ---------------------------------------------------------------------------
  // What the operating system does with mouse actions

  /** The system cursor and the left-button presses and releases seen so far, each at the point where it happened. */
  datatype Desktop = Desktop(cursor: Point, presses: seq<Point>, releases: seq<Point>)

  predicate HasFlag(flags: bv32, flag: bv32)
  {
    flags & flag != 0
  }

  /**
   * The effect of one action on the desktop. Cursor movement by `mouse_event`
   * happens only with the MOVE bit; absolute coordinates are taken as screen
   * coordinates (the normalisation to 0..65535 is not modelled). A button press
   * or release happens at the cursor after the movement. Hook actions leave the
   * desktop alone.
   */
  function Perform(d: Desktop, a: Action): Desktop
  {
    match a
    case SetCursorPosition(p) => d.(cursor := p)
    case MouseEvent(flags, dx, dy, _, _) =>
      var at :=
        if !HasFlag(flags, MOUSEEVENTF_MOVE) then d.cursor
        else if HasFlag(flags, MOUSEEVENTF_ABSOLUTE) then Point(dx, dy)
        else Point(d.cursor.x + dx, d.cursor.y + dy);
      Desktop(at,
              d.presses + (if HasFlag(flags, MOUSEEVENTF_LEFTDOWN) then [at] else []),
              d.releases + (if HasFlag(flags, MOUSEEVENTF_LEFTUP) then [at] else []))
    case _ => d
  }

  function PerformAll(d: Desktop, log: seq<Action>): Desktop
    decreases |log|
  {
    if log == [] then d else PerformAll(Perform(d, log[0]), log[1..])
  }

  lemma {:induction false} PerformHookActions(d: Desktop, log: seq<Action>)
    requires NoMouseActions(log)
    ensures PerformAll(d, log) == d
    decreases |log|
  {
    if log != [] {
      PerformHookActions(d, log[1..]);
    }
  }
}
