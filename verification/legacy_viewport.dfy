/**
 * The global viewport of the single-file `main.cc`: `size_t` fields with a
 * signed `ssize_t` start line, a fixed 1024x768 window of 22-pixel lines,
 * and the key and scroll handlers that move the start line. The guard
 * sums mix `ssize_t`, `size_t` and `int`, so they are `size_t` arithmetic.
 */
module LegacyViewport {
  import opened Wrappers
  import opened MachineInt

  /** `kWindowHeight`. */
  const WINDOW_HEIGHT: nat := 768

  /** `kLineHeight`: 17 pixels times 1.35, truncated to `int`. */
  const LINE_HEIGHT: nat := 22

  datatype State = State(lines: nat, start: int, visible: nat)

  predicate WellTyped(s: State)
  {
    IsU64(s.lines) && IsI64(s.start) && IsU64(s.visible)
  }

  /** The drawn range `[start, start + visible)` lies inside the file. */
  predicate SafeState(s: State)
  {
    0 <= s.start && s.start + s.visible <= s.lines
  }

  /**
   * The state `main` sets up for a file of `lineCount` lines: start 0 and
   * `min(lines, 768 / 22)` visible lines. An empty file fails the
   * assertion on the line count.
   */
  function Init(lineCount: nat): (r: Option<State>)
    requires IsU64(lineCount)
    ensures r.Some? <==> lineCount > 0
    ensures r.Some? ==> WellTyped(r.value) && SafeState(r.value) && r.value.lines == lineCount
    ensures r.Some? ==> r.value.visible == if lineCount < 34 then lineCount else 34
  {
    if lineCount == 0 then None
    else
      var fit := WINDOW_HEIGHT / LINE_HEIGHT;
      Some(State(lineCount, 0, if lineCount <= fit then lineCount else fit))
  }

  datatype Key = DownKey | JKey | UpKey | KKey | OtherKey

  datatype Action = Press | Repeat | Release

  /**
   * `KeyCallback`: Down/J advance the start if the window still ends inside
   * the file; Up/K move it back if it stays non-negative.
   */
  function OnKey(s: State, key: Key, action: Action): (r: State)
    requires WellTyped(s)
    ensures r == s.(start := r.start)
    ensures (key == DownKey || key == JKey) && action != Release ==>
      r.start == if ToU64(s.start + s.visible + 1) <= s.lines then ToI64(s.start + 1) else s.start
    ensures (key == UpKey || key == KKey) && action != Release ==>
      r.start == if s.start - 1 >= 0 then ToI64(s.start - 1) else s.start
    ensures key == OtherKey || action == Release ==> r == s
  {
    var pressed := action == Press || action == Repeat;
    if (key == DownKey || key == JKey) && pressed then
      if ToU64(ToU64(s.start) + s.visible + 1) <= s.lines then s.(start := ToI64(s.start + 1)) else s
    else if (key == UpKey || key == KKey) && pressed then
      if s.start - 1 >= 0 then s.(start := ToI64(s.start - 1)) else s
    else s
  }

  /**
   * `ScrollCallback`, with `positive` for `yoffset > 0` and `amount` for
   * `yoffset` truncated to `int`.
   */
  function OnScroll(s: State, positive: bool, amount: int): (r: State)
    requires WellTyped(s) && IsI32(amount)
    requires positive ==> amount >= 0
    requires !positive ==> -TWO_31 < amount <= 0
    ensures r == s.(start := r.start)
    ensures positive ==> r.start == if s.start - amount >= 0 then ToI64(s.start - amount) else s.start
    ensures !positive ==>
      r.start == if ToU64(s.start + s.visible - amount) <= s.lines then ToI64(s.start - amount) else s.start
  {
    if positive then
      if s.start - amount >= 0 then s.(start := ToI64(s.start - amount)) else s
    else
      var down := -amount;
      if ToU64(ToU64(s.start) + s.visible + ToU64(down)) <= s.lines then s.(start := ToI64(s.start + down)) else s
  }

  /**
   * Nothing in this version changes the window or jumps to the end, so the
   * key and scroll guards keep the drawn range inside any file of fewer than
   * 2^62 lines.
   */
  lemma HandlersKeepSafe(s: State, key: Key, action: Action, positive: bool, amount: int)
    requires WellTyped(s) && SafeState(s) && s.lines < TWO_63 / 2
    requires IsI32(amount) && (positive ==> amount >= 0) && (!positive ==> -TWO_31 < amount <= 0)
    ensures WellTyped(OnKey(s, key, action)) && SafeState(OnKey(s, key, action))
    ensures WellTyped(OnScroll(s, positive, amount)) && SafeState(OnScroll(s, positive, amount))
  {
  }

  /**
   * The line indices `Render` visits, `size_t i` from `start_line` while
   * `i < visible_lines + start_line`; in a safe state they are the window's
   * lines, in order, and all exist.
   */
  function DrawnLines(s: State): (r: seq<int>)
    requires WellTyped(s)
    ensures SafeState(s) && s.lines < TWO_63 ==>
      && |r| == s.visible
      && forall k :: 0 <= k < |r| ==> r[k] == s.start + k && 0 <= r[k] < s.lines
  {
    var first := ToU64(s.start);
    var last := ToU64(s.visible + s.start);
    if first < last then seq(last - first, k requires 0 <= k < last - first => first + k) else []
  }
}
