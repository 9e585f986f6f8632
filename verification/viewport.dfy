/**
 * The viewport of `state.h` / `state.cc` and the input handlers of
 * `callbacks.h` that move it, with the line range `Render` draws.
 *
 * Every field is an `unsigned int` except `start_line`, a signed `int`;
 * the C++ conversions between them are written out with `MachineInt`.
 * The number of lines of the file is a `size_t`.
 */
module Viewport {
  import opened MachineInt

  datatype View = View(width: int, height: int, lineHeight: int, start: int, visible: int)

  /** The field types of `State`, and a non-zero line height (the divisor of `visible`). */
  predicate WellTyped(v: View)
  {
    && IsU32(v.width) && IsU32(v.height) && IsU32(v.lineHeight) && v.lineHeight > 0
    && IsI32(v.start) && IsU32(v.visible)
  }

  function Min(a: int, b: int): (r: int)
    ensures r <= a && r <= b && (r == a || r == b)
  {
    if a <= b then a else b
  }

  /**
   * The range `Render` draws is inside the file: the first line is not
   * negative and the last is at most the line count.
   */
  predicate SafeView(v: View, lineCount: nat)
  {
    0 <= v.start && v.start + Min(v.visible, lineCount) <= lineCount
  }

  /** `visible_lines_ = height_ / line_height_`: the number of whole lines that fit. */
  function VisibleLines(height: int, lineHeight: int): (r: int)
    requires IsU32(height) && IsU32(lineHeight) && lineHeight > 0
    ensures IsU32(r)
    ensures r * lineHeight <= height < (r + 1) * lineHeight
  {
    height / lineHeight
  }

  /** The constructor: stores the fields and computes the visible line count. */
  function NewView(width: int, height: int, lineHeight: int, start: int): (v: View)
    requires IsU32(width) && IsU32(height) && IsU32(lineHeight) && lineHeight > 0 && IsI32(start)
    ensures WellTyped(v)
    ensures v.width == width && v.height == height && v.lineHeight == lineHeight && v.start == start
    ensures v.visible * lineHeight <= height < (v.visible + 1) * lineHeight
  {
    View(width, height, lineHeight, start, VisibleLines(height, lineHeight))
  }

  /** `UpdateDimensions`: new width and height, visible lines recomputed, start line untouched. */
  function UpdateDimensions(v: View, width: int, height: int): (r: View)
    requires WellTyped(v) && IsU32(width) && IsU32(height)
    ensures WellTyped(r)
    ensures r.width == width && r.height == height && r.lineHeight == v.lineHeight
    ensures r.start == v.start
    ensures r.visible * r.lineHeight <= height < (r.visible + 1) * r.lineHeight
  {
    v.(width := width, height := height, visible := VisibleLines(height, v.lineHeight))
  }

  /** `GoUp(amount)`: `start_line_ += amount`, in unsigned arithmetic stored back into an `int`. */
  function GoUp(v: View, amount: int): (r: View)
    requires WellTyped(v) && IsU32(amount)
    ensures WellTyped(r) && r == v.(start := r.start)
    ensures (r.start - (v.start + amount)) % TWO_32 == 0
    ensures IsI32(v.start + amount) ==> r.start == v.start + amount
  {
    v.(start := ToI32(ToU32(v.start) + amount))
  }

  /** `GoDown(amount)`: `start_line_ -= amount`, in the same arithmetic. */
  function GoDown(v: View, amount: int): (r: View)
    requires WellTyped(v) && IsU32(amount)
    ensures WellTyped(r) && r == v.(start := r.start)
    ensures (r.start - (v.start - amount)) % TWO_32 == 0
    ensures IsI32(v.start - amount) ==> r.start == v.start - amount
  {
    v.(start := ToI32(ToU32(v.start) - amount))
  }

  /** `GoDown(n)` undoes `GoUp(n)`, wrap-around included: `u` is the view after `GoUp`. */
  lemma GoDownUndoesGoUp(v: View, amount: int, u: View)
    requires WellTyped(v) && IsU32(amount) && u == GoUp(v, amount)
    ensures GoDown(u, amount) == v
  {
    AddThenSub(v.start, amount, u.start);
  }

  /** `GoUp(n)` undoes `GoDown(n)`: `d` is the view after `GoDown`. */
  lemma GoUpUndoesGoDown(v: View, amount: int, d: View)
    requires WellTyped(v) && IsU32(amount) && d == GoDown(v, amount)
    ensures GoUp(d, amount) == v
  {
    SubThenAdd(v.start, amount, d.start);
  }

  /** `GotoBeginning`. */
  function GotoBeginning(v: View): (r: View)
    requires WellTyped(v)
    ensures WellTyped(r) && r.start == 0 && r == v.(start := 0)
  {
    v.(start := 0)
  }

  /**
   * `GotoEnd(lines_count)`: `lines_count - visible_lines_` is computed in
   * `unsigned int` and stored into the `int` start line. When the whole
   * file fits on screen the subtraction wraps and the start goes negative.
   */
  function GotoEnd(v: View, lineCount: int): (r: View)
    requires WellTyped(v) && IsU32(lineCount)
    ensures WellTyped(r) && r == v.(start := r.start)
    ensures (r.start - (lineCount - v.visible)) % TWO_32 == 0
    ensures lineCount < TWO_31 ==>
      if v.visible <= lineCount then r.start == lineCount - v.visible
      else lineCount - v.visible >= -TWO_31 ==> r.start == lineCount - v.visible
  {
    v.(start := ToI32(ToU32(lineCount - v.visible)))
  }

  /** The keys `KeyCallback` reacts to; every other key is `OtherKey`. */
  datatype Key = DownKey | JKey | UpKey | KKey | HomeKey | EndKey | OtherKey

  datatype Action = Press | Repeat | Release

  /**
   * `KeyCallback`, with `lineCount` the file's line count. Down/J scroll
   * down one line if the window would still end inside the file; Up/K
   * scroll up one line if the start stays non-negative; Home and End
   * (press only) jump. The guard sums are `unsigned int` arithmetic.
   */
  function OnKey(v: View, key: Key, action: Action, lineCount: nat): (r: View)
    requires WellTyped(v) && IsU64(lineCount)
    ensures WellTyped(r) && r == v.(start := r.start)
    ensures (key == DownKey || key == JKey) && action != Release ==>
      if ToU32(v.start + v.visible + 1) <= lineCount then r == GoUp(v, 1) else r == v
    ensures (key == UpKey || key == KKey) && action != Release ==>
      if v.start - 1 >= 0 then r == GoDown(v, 1) else r == v
    ensures key == HomeKey && action == Press ==> r.start == 0
    ensures key == EndKey && action == Press ==> r == GotoEnd(v, ToU32(lineCount))
    ensures key == OtherKey || action == Release ==> r == v
  {
    var pressed := action == Press || action == Repeat;
    if (key == DownKey || key == JKey) && pressed then
      WrapAdd(v.start, v.visible + 1);
      if ToU32(ToU32(v.start) + v.visible + 1) <= lineCount then GoUp(v, 1) else v
    else if (key == UpKey || key == KKey) && pressed then
      if v.start - 1 >= 0 then GoDown(v, 1) else v
    else if key == HomeKey && action == Press then GotoBeginning(v)
    else if key == EndKey && action == Press then GotoEnd(v, ToU32(lineCount))
    else v
  }

  /**
   * `ScrollCallback`. `positive` is `yoffset > 0` and `amount` is `yoffset`
   * truncated to `int`. Scrolling up moves the start back by `amount` if
   * it stays non-negative; otherwise the start moves forward by `-amount`
   * if the window still ends inside the file.
   */
  function OnScroll(v: View, positive: bool, amount: int, lineCount: nat): (r: View)
    requires WellTyped(v) && IsU64(lineCount) && IsI32(amount)
    requires positive ==> amount >= 0
    requires !positive ==> -TWO_31 < amount <= 0
    ensures WellTyped(r) && r == v.(start := r.start)
    ensures positive ==> if v.start - amount >= 0 then r == GoDown(v, amount) else r == v
    ensures !positive ==>
      if ToU32(v.start + v.visible - amount) <= lineCount then r == GoUp(v, -amount) else r == v
  {
    if positive then
      if v.start - amount >= 0 then GoDown(v, ToU32(amount)) else v
    else
      var down := -amount;
      WrapAdd(v.start, v.visible + down);
      if ToU32(ToU32(v.start) + v.visible + ToU32(down)) <= lineCount then GoUp(v, ToU32(down)) else v
  }

  /**
   * The key handlers other than End keep the drawn range inside a file of
   * fewer than 2^31 lines, in a window of fewer than 2^31 lines: the guards
   * are exact there, and the start moves by one line at most.
   */
  lemma OnKeyKeepsSafe(v: View, key: Key, action: Action, lineCount: nat)
    requires WellTyped(v) && lineCount < TWO_31 && v.visible < TWO_31 && SafeView(v, lineCount)
    requires !(key == EndKey && action == Press)
    ensures SafeView(OnKey(v, key, action, lineCount), lineCount)
    ensures var r := OnKey(v, key, action, lineCount);
      r.start == v.start || r.start == v.start + 1 || r.start == v.start - 1 || r.start == 0
  {
  }

  /** Both scroll directions keep the drawn range inside the file, under the same size bounds. */
  lemma OnScrollKeepsSafe(v: View, positive: bool, amount: int, lineCount: nat)
    requires WellTyped(v) && lineCount < TWO_31 && v.visible < TWO_31 && SafeView(v, lineCount)
    requires IsI32(amount) && (positive ==> amount >= 0) && (!positive ==> -TWO_31 < amount <= 0)
    ensures SafeView(OnScroll(v, positive, amount, lineCount), lineCount)
  {
    if !positive && ToU32(v.start + v.visible - amount) <= lineCount {
      assert 0 <= v.start + v.visible - amount < TWO_32;
    }
  }

  /**
   * End keeps the drawn range inside the file exactly when the window is no
   * taller than the file; otherwise the start line becomes negative.
   */
  lemma EndSafeIff(v: View, lineCount: nat)
    requires WellTyped(v) && lineCount < TWO_31 && v.visible < TWO_31
    ensures SafeView(OnKey(v, EndKey, Press, lineCount), lineCount) <==> v.visible <= lineCount
    ensures v.visible > lineCount ==> OnKey(v, EndKey, Press, lineCount).start < 0
  {
  }

  /**
   * Growing the window at the end of the file leaves the start where it
   * was, so the drawn range runs past the last line: 100 lines, 22-pixel
   * lines, the window grown from 748 to 880 pixels while the last 34 lines
   * are shown.
   */
  lemma UpdateDimensionsBreaksSafe()
    ensures var v := NewView(1024, 748, 22, 66);
      && SafeView(v, 100)
      && !SafeView(UpdateDimensions(v, 1024, 880), 100)
  {
    assert VisibleLines(748, 22) == 34;
    assert VisibleLines(880, 22) == 40;
  }

  /**
   * The range `Render` draws, as computed there in `unsigned int`:
   * `[start, start + min(visible, lines))`.
   */
  function RenderRange(v: View, lineCount: nat): (r: (int, int))
    requires WellTyped(v) && IsU64(lineCount)
    ensures IsU32(r.0) && IsU32(r.1)
    ensures SafeView(v, lineCount) && lineCount < TWO_31 ==>
      r.0 == v.start && r.1 == v.start + Min(v.visible, lineCount) && r.1 <= lineCount
  {
    var first := ToU32(v.start);
    var last := if v.visible > lineCount then ToU32(first + lineCount) else ToU32(first + v.visible);
    (first, last)
  }

  /** The line indices drawn, in order: `first, first+1, ..., last-1`. */
  function DrawnLines(first: int, last: int): (r: seq<int>)
    ensures |r| == if first < last then last - first else 0
    ensures forall k :: 0 <= k < |r| ==> r[k] == first + k
    decreases last - first
  {
    if first >= last then [] else [first] + DrawnLines(first + 1, last)
  }

  /** Every line a safe view draws exists in the file. */
  lemma SafeViewDrawsExistingLines(v: View, lineCount: nat)
    requires WellTyped(v) && SafeView(v, lineCount) && lineCount < TWO_31
    ensures var (first, last) := RenderRange(v, lineCount);
      forall k :: 0 <= k < |DrawnLines(first, last)| ==> 0 <= DrawnLines(first, last)[k] < lineCount
  {
  }

  /**
   * Pressing End on a five-line file in a 768-pixel window of 22-pixel
   * lines sets the start to -29; the next frame's range starts at
   * 2^32 - 29, far past the last line.
   */
  lemma EndOnShortFileDrawsPastEnd()
    ensures var v := NewView(1024, 768, 22, 0);
      var e := OnKey(v, EndKey, Press, 5);
      && SafeView(v, 5)
      && e.start == -29
      && RenderRange(e, 5) == (TWO_32 - 29, TWO_32 - 24)
  {
    assert VisibleLines(768, 22) == 34;
  }

  /** The evidently intended End: the last screenful, or the top when the file fits on screen. */
  function GotoEndClamped(v: View, lineCount: int): (r: View)
    requires WellTyped(v) && IsU32(lineCount)
    ensures WellTyped(r) && r == v.(start := r.start)
    ensures lineCount < TWO_31 ==> SafeView(r, lineCount)
    ensures v.visible <= lineCount < TWO_31 ==> r.start + r.visible == lineCount
  {
    if v.visible <= lineCount then GotoEnd(v, lineCount) else GotoBeginning(v)
  }

  /**
   * The evidently intended resize: after recomputing the visible lines, the
   * start is pulled back so that the window still ends inside the file.
   */
  function UpdateDimensionsClamped(v: View, width: int, height: int, lineCount: nat): (r: View)
    requires WellTyped(v) && IsU32(width) && IsU32(height) && lineCount < TWO_31
    requires 0 <= v.start
    ensures WellTyped(r)
    ensures r == UpdateDimensions(v, width, height).(start := r.start)
    ensures SafeView(r, lineCount)
    ensures SafeView(UpdateDimensions(v, width, height), lineCount) ==> r.start == v.start
  {
    var u := UpdateDimensions(v, width, height);
    if u.start + Min(u.visible, lineCount) <= lineCount then u
    else u.(start := lineCount - Min(u.visible, lineCount))
  }

  /** `KeyCallback` with End jumping through `GotoEndClamped`; every other key as written. */
  function OnKeyClamped(v: View, key: Key, action: Action, lineCount: nat): (r: View)
    requires WellTyped(v) && IsU64(lineCount)
    ensures WellTyped(r) && r == v.(start := r.start)
    ensures !(key == EndKey && action == Press) ==> r == OnKey(v, key, action, lineCount)
  {
    if key == EndKey && action == Press then GotoEndClamped(v, ToU32(lineCount))
    else OnKey(v, key, action, lineCount)
  }

  /** With the clamped End, every key keeps the drawn range inside the file. */
  lemma OnKeyClampedKeepsSafe(v: View, key: Key, action: Action, lineCount: nat)
    requires WellTyped(v) && lineCount < TWO_31 && v.visible < TWO_31 && SafeView(v, lineCount)
    ensures SafeView(OnKeyClamped(v, key, action, lineCount), lineCount)
  {
    if !(key == EndKey && action == Press) {
      OnKeyKeepsSafe(v, key, action, lineCount);
    }
  }

  /** The clamped End on the five-line file of `EndOnShortFileDrawsPastEnd` stays at the top. */
  lemma EndOnShortFileClamped()
    ensures var e := OnKeyClamped(NewView(1024, 768, 22, 0), EndKey, Press, 5);
      e.start == 0 && SafeView(e, 5) && RenderRange(e, 5) == (0, 5)
  {
    assert VisibleLines(768, 22) == 34;
  }
}
