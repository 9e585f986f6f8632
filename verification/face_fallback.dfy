/**
 * `AssignCodepointsFaces` of `face_collection.cc` (and its older copy in
 * `main.cc`): resolve, for each shaped position of a line, which face of
 * the fallback list renders it and with which glyph.
 *
 * The faces are tried in priority order. Each face shapes the whole line;
 * a position takes the first face whose glyph there is non-zero. The loop
 * stops as soon as a pass leaves no zero glyph at an unassigned position.
 * Positions no face could render become face 0's glyph for U+FFFD.
 *
 * HarfBuzz shaping is the parameter `shape(face, text)`; the glyph index of
 * U+FFFD in face 0 (`FT_Get_Char_Index`) is the parameter `repl`.
 */
module FaceFallback {
  import opened Wrappers
  import opened MachineInt

  /** `CODEPOINT_MISSING_FACE` and `CODEPOINT_MISSING`: both `UINT32_MAX`. */
  const MISSING: nat := UINT32_MAX

  /** `CodePointsFacePair`: per shaped position, a face index and a glyph index in that face. */
  datatype Pair = Pair(faces: seq<nat>, glyphs: seq<nat>)

  /** The pair the renderer passes in: both sequences empty. */
  const EmptyPair := Pair([], [])

  /** The shaper: the glyph run of `text` shaped with face `i`; glyph 0 means the face lacks it. */
  type Shaper = (nat, string) -> seq<nat>

  /** The resolved pair, and how many faces were shaped before the loop stopped. */
  datatype Resolution = Resolution(pair: Pair, shaped: nat)

  /** The assertion that every face's run has the first run's length failed at `face`. */
  datatype ResolveError = RunLengthMismatch(face: nat, runLength: nat, expected: nat)

  /** `std::vector::resize(n, fill)`: truncates, or pads with `fill`; kept entries are untouched. */
  function Resize(s: seq<nat>, n: nat, fill: nat): (r: seq<nat>)
    ensures |r| == n
    ensures forall k :: 0 <= k < n ==> r[k] == if k < |s| then s[k] else fill
  {
    if n <= |s| then s[..n] else s + seq(n - |s|, _ => fill)
  }

  /**
   * One pass of the inner loop from position `j` on, for face `i` with run
   * `run`: an unassigned position with a non-zero glyph takes face `i` and
   * that glyph; the flag is raised by a zero glyph at a position whose
   * glyph is still missing.
   */
  function PassFrom(i: nat, run: seq<nat>, p: Pair, j: nat, flag: bool): (r: (Pair, bool))
    requires |p.faces| == |run| && |p.glyphs| == |run| && j <= |run|
    decreases |run| - j
    ensures |r.0.faces| == |run| && |r.0.glyphs| == |run|
    ensures forall k :: 0 <= k < j ==> r.0.faces[k] == p.faces[k] && r.0.glyphs[k] == p.glyphs[k]
    ensures forall k :: j <= k < |run| ==>
      if run[k] != 0 && p.faces[k] == MISSING then r.0.faces[k] == i && r.0.glyphs[k] == run[k]
      else r.0.faces[k] == p.faces[k] && r.0.glyphs[k] == p.glyphs[k]
    ensures r.1 <==> flag || exists k :: j <= k < |run| && run[k] == 0 && r.0.glyphs[k] == MISSING
  {
    if j == |run| then (p, flag)
    else
      var take := run[j] != 0 && p.faces[j] == MISSING;
      var p' := if take then Pair(p.faces[j := i], p.glyphs[j := run[j]]) else p;
      PassFrom(i, run, p', j + 1, flag || (run[j] == 0 && p'.glyphs[j] == MISSING))
  }

  /**
   * The outer loop from face `i` on, while faces remain and the previous
   * pass raised the flag. The first pass sizes the pair to its run; every
   * later run must have that length.
   */
  function FaceLoop(shape: Shaper, text: string, faceCount: nat, i: nat, p: Pair, more: bool): (r: Result<Resolution, ResolveError>)
    requires i > 0 ==> |p.faces| == |p.glyphs|
    decreases faceCount - i
    ensures r.Success? ==> r.value.shaped == i || i < r.value.shaped <= faceCount
    ensures r.Success? && r.value.shaped == i ==> r.value.pair == p
    ensures r.Success? && r.value.shaped > 0 ==> |r.value.pair.faces| == |r.value.pair.glyphs|
    ensures r.Failure? ==> 0 < r.error.face && i <= r.error.face < faceCount
  {
    if !(i < faceCount && more) then Success(Resolution(p, i))
    else
      var run := shape(i, text);
      var p1 := if i == 0 then Pair(Resize(p.faces, |run|, MISSING), Resize(p.glyphs, |run|, MISSING)) else p;
      if |run| != |p1.faces| then Failure(RunLengthMismatch(i, |run|, |p1.faces|))
      else
        var (p2, flag) := PassFrom(i, run, p1, 0, false);
        FaceLoop(shape, text, faceCount, i + 1, p2, flag)
  }

  /** A position no consulted face could render: both entries still hold the sentinel. */
  predicate Unassigned(p: Pair, k: nat)
    requires k < |p.faces| && k < |p.glyphs|
  {
    p.faces[k] == MISSING && p.glyphs[k] == MISSING
  }

  /**
   * The final loop: every unassigned position becomes face 0 with the glyph
   * `repl`; every other entry is kept.
   */
  function ReplaceMissing(p: Pair, repl: nat): (r: Pair)
    requires |p.faces| <= |p.glyphs|
    ensures |r.faces| == |p.faces| && |r.glyphs| == |p.glyphs|
    ensures forall k :: 0 <= k < |p.faces| ==>
      if Unassigned(p, k) then r.faces[k] == 0 && r.glyphs[k] == repl
      else r.faces[k] == p.faces[k] && r.glyphs[k] == p.glyphs[k]
    ensures forall k :: |p.faces| <= k < |p.glyphs| ==> r.glyphs[k] == p.glyphs[k]
  {
    Pair(
      seq(|p.faces|, k requires 0 <= k < |p.faces| => if Unassigned(p, k) then 0 else p.faces[k]),
      seq(|p.glyphs|, k requires 0 <= k < |p.glyphs| => if k < |p.faces| && Unassigned(p, k) then repl else p.glyphs[k]))
  }

  /**
   * What the caller must provide: with no faces, the pair passed in must
   * not hold an unassigned position, because replacing it would read face 0.
   */
  predicate CanResolve(faceCount: nat, init: Pair)
  {
    faceCount > 0 ||
      (|init.faces| <= |init.glyphs| && forall k :: 0 <= k < |init.faces| ==> !Unassigned(init, k))
  }

  /** `AssignCodepointsFaces(text, faces, pair)`, with `faceCount` faces and `repl` the U+FFFD glyph of face 0. */
  function Resolve(shape: Shaper, text: string, faceCount: nat, repl: nat, init: Pair): (r: Result<Resolution, ResolveError>)
    requires CanResolve(faceCount, init)
    ensures r.Success? ==> r.value.shaped <= faceCount
    ensures r.Success? && faceCount > 0 ==> 0 < r.value.shaped && |r.value.pair.faces| == |r.value.pair.glyphs|
    ensures r.Failure? ==> 0 < r.error.face < faceCount
  {
    match FaceLoop(shape, text, faceCount, 0, init, true)
    case Failure(e) => Failure(e)
    case Success(res) => Success(Resolution(ReplaceMissing(res.pair, repl), res.shaped))
  }

  // ---------------------------------------------------------------------
  // The reference definition: first face with a glyph.
  // ---------------------------------------------------------------------

  /** Face `i` has a (non-zero) glyph at position `j`. */
  predicate Hit(shape: Shaper, text: string, i: nat, j: nat)
  {
    j < |shape(i, text)| && shape(i, text)[j] != 0
  }

  /** The first of faces 0 .. s-1 with a glyph at position `j`. */
  function FirstHit(shape: Shaper, text: string, s: nat, j: nat): (r: Option<nat>)
    ensures r.Some? ==> r.value < s && Hit(shape, text, r.value, j)
    ensures r.Some? ==> forall i :: 0 <= i < r.value ==> !Hit(shape, text, i, j)
    ensures r.None? ==> forall i :: 0 <= i < s ==> !Hit(shape, text, i, j)
    decreases s
  {
    if s == 0 then None
    else
      var earlier := FirstHit(shape, text, s - 1, j);
      if earlier.Some? then earlier
      else if Hit(shape, text, s - 1, j) then Some(s - 1)
      else None
  }

  /** Every position 0 .. n-1 has a glyph in one of faces 0 .. s-1. */
  predicate AllHit(shape: Shaper, text: string, s: nat, n: nat)
  {
    forall j :: 0 <= j < n ==> FirstHit(shape, text, s, j).Some?
  }

  /** The entries at position `j` after `s` passes, as the reference says. */
  predicate CellAfter(shape: Shaper, text: string, s: nat, j: nat, face: nat, glyph: nat)
  {
    var h := FirstHit(shape, text, s, j);
    if h.Some? then face == h.value && glyph == shape(h.value, text)[j]
    else face == MISSING && glyph == MISSING
  }

  /** The pair after `s` passes over `n` positions. */
  predicate PairAfter(shape: Shaper, text: string, s: nat, n: nat, p: Pair)
  {
    && |p.faces| == n && |p.glyphs| == n
    && forall j :: 0 <= j < n ==> CellAfter(shape, text, s, j, p.faces[j], p.glyphs[j])
  }

  /** HarfBuzz glyph ids of the first `s` faces never equal the sentinel. */
  predicate GlyphsBelowSentinel(shape: Shaper, text: string, s: nat)
  {
    forall i, j :: 0 <= i < s && 0 <= j < |shape(i, text)| ==> shape(i, text)[j] < MISSING
  }

  /** A first hit found among fewer faces stays the first hit among more. */
  lemma FirstHitStable(shape: Shaper, text: string, s: nat, t: nat, j: nat)
    requires s <= t && FirstHit(shape, text, s, j).Some?
    ensures FirstHit(shape, text, t, j) == FirstHit(shape, text, s, j)
  {
  }

  /**
   * One pass of face `s` takes the pair from "after s faces" to "after s+1
   * faces", and raises the flag exactly when some position is still without
   * a glyph.
   */
  lemma PassStep(shape: Shaper, text: string, s: nat, p: Pair)
    requires s < MISSING && GlyphsBelowSentinel(shape, text, s + 1)
    requires PairAfter(shape, text, s, |shape(s, text)|, p)
    ensures PairAfter(shape, text, s + 1, |shape(s, text)|, PassFrom(s, shape(s, text), p, 0, false).0)
    ensures PassFrom(s, shape(s, text), p, 0, false).1 <==> !AllHit(shape, text, s + 1, |shape(s, text)|)
  {
    var run := shape(s, text);
    var n := |run|;
    var q := PassFrom(s, run, p, 0, false);
    forall j | 0 <= j < n
      ensures CellAfter(shape, text, s + 1, j, q.0.faces[j], q.0.glyphs[j])
      ensures q.0.glyphs[j] == MISSING <==> FirstHit(shape, text, s + 1, j).None?
    {
      var h := FirstHit(shape, text, s, j);
      if h.Some? {
        assert p.faces[j] == h.value && h.value < MISSING;
        assert shape(h.value, text)[j] < MISSING;
      }
    }
    if q.1 {
      var k :| 0 <= k < n && run[k] == 0 && q.0.glyphs[k] == MISSING;
      assert FirstHit(shape, text, s + 1, k).None?;
    }
    if !AllHit(shape, text, s + 1, n) {
      var k :| 0 <= k < n && FirstHit(shape, text, s + 1, k).None?;
      assert !Hit(shape, text, s, k);
      assert run[k] == 0 && q.0.glyphs[k] == MISSING;
    }
  }

  /** The sentinel-filled pair of the first pass is the pair after no face. */
  lemma FirstResize(shape: Shaper, text: string, n: nat)
    ensures PairAfter(shape, text, 0, n, Pair(Resize([], n, MISSING), Resize([], n, MISSING)))
  {
  }

  /**
   * The loop invariant of the outer loop, for a fresh pair: after `i`
   * faces, the pair is as the reference says, every run so far had the
   * first run's length, the flag says whether a position is still without
   * a glyph, and the loop did not carry on past a pass that had assigned
   * everything.
   */
  predicate LoopInv(shape: Shaper, text: string, i: nat, p: Pair, more: bool)
  {
    var n := |shape(0, text)|;
    if i == 0 then p == EmptyPair && more
    else
      && PairAfter(shape, text, i, n, p)
      && (forall t :: 0 <= t < i ==> |shape(t, text)| == n)
      && (more <==> !AllHit(shape, text, i, n))
      && (forall s :: 0 < s < i ==> !AllHit(shape, text, s, n))
  }

  /** The first pass, over the sentinel-filled pair, establishes the invariant for one face. */
  lemma LoopInvFirst(shape: Shaper, text: string, faceCount: nat)
    requires 0 < faceCount < MISSING
    requires GlyphsBelowSentinel(shape, text, faceCount)
    ensures var run := shape(0, text);
      var p1 := Pair(Resize([], |run|, MISSING), Resize([], |run|, MISSING));
      var q := PassFrom(0, run, p1, 0, false);
      LoopInv(shape, text, 1, q.0, q.1)
  {
    var run := shape(0, text);
    FirstResize(shape, text, |run|);
    PassStep(shape, text, 0, Pair(Resize([], |run|, MISSING), Resize([], |run|, MISSING)));
  }

  /** A later pass whose run has the first run's length keeps the invariant. */
  lemma LoopInvNext(shape: Shaper, text: string, faceCount: nat, i: nat, p: Pair, more: bool)
    requires 0 < i < faceCount < MISSING && more
    requires GlyphsBelowSentinel(shape, text, faceCount)
    requires LoopInv(shape, text, i, p, more)
    ensures |p.faces| == |p.glyphs| == |shape(0, text)|
    ensures |shape(i, text)| == |p.faces| ==>
      var q := PassFrom(i, shape(i, text), p, 0, false);
      LoopInv(shape, text, i + 1, q.0, q.1)
  {
    if |shape(i, text)| == |p.faces| {
      PassStep(shape, text, i, p);
    }
  }

  /** What the outer loop delivers, whichever face it started from. */
  predicate LoopResult(shape: Shaper, text: string, faceCount: nat, r: Result<Resolution, ResolveError>)
  {
    var n := |shape(0, text)|;
    && (r.Success? ==>
      && 0 < r.value.shaped <= faceCount
      && PairAfter(shape, text, r.value.shaped, n, r.value.pair)
      && (forall t :: 0 <= t < r.value.shaped ==> |shape(t, text)| == n)
      && (r.value.shaped < faceCount ==> AllHit(shape, text, r.value.shaped, n))
      && (forall s :: 0 < s < r.value.shaped ==> !AllHit(shape, text, s, n)))
    && (r.Failure? ==>
      && r.error.face < faceCount
      && |shape(r.error.face, text)| != n
      && (forall t :: 0 <= t < r.error.face ==> |shape(t, text)| == n)
      && (forall s :: 0 < s <= r.error.face ==> !AllHit(shape, text, s, n)))
  }

  /** The loop stops when faces run out or a pass left every position with a glyph. */
  lemma LoopStops(shape: Shaper, text: string, faceCount: nat, i: nat, p: Pair, more: bool)
    requires 0 < faceCount && i <= faceCount && !(i < faceCount && more)
    requires LoopInv(shape, text, i, p, more)
    ensures LoopResult(shape, text, faceCount, Success(Resolution(p, i)))
  {
  }

  /** A later run of the wrong length fails the assertion at that face. */
  lemma LoopFails(shape: Shaper, text: string, faceCount: nat, i: nat, p: Pair, more: bool)
    requires 0 < i < faceCount && more
    requires LoopInv(shape, text, i, p, more) && |shape(i, text)| != |p.faces|
    ensures LoopResult(shape, text, faceCount, Failure(RunLengthMismatch(i, |shape(i, text)|, |p.faces|)))
  {
  }

  /** A pass whose run has the pair's length hands over to the next face. */
  lemma FaceLoopContinues(shape: Shaper, text: string, faceCount: nat, i: nat, p: Pair)
    requires i < faceCount && (i > 0 ==> |p.faces| == |p.glyphs|)
    ensures var run := shape(i, text);
      var p1 := if i == 0 then Pair(Resize(p.faces, |run|, MISSING), Resize(p.glyphs, |run|, MISSING)) else p;
      |run| == |p1.faces| ==>
        var q := PassFrom(i, run, p1, 0, false);
        FaceLoop(shape, text, faceCount, i, p, true) == FaceLoop(shape, text, faceCount, i + 1, q.0, q.1)
  {
  }

  /** What the outer loop delivers, `r`, from a state satisfying its invariant. */
  lemma {:induction false} LoopOutcome(shape: Shaper, text: string, faceCount: nat, i: nat, p: Pair, more: bool, r: Result<Resolution, ResolveError>)
    requires 0 < faceCount < MISSING && i <= faceCount
    requires GlyphsBelowSentinel(shape, text, faceCount)
    requires LoopInv(shape, text, i, p, more)
    requires r == FaceLoop(shape, text, faceCount, i, p, more)
    ensures LoopResult(shape, text, faceCount, r) == true
    ensures r.Failure? ==> i <= r.error.face
    decreases faceCount - i
  {
    if !(i < faceCount && more) {
      LoopStops(shape, text, faceCount, i, p, more);
    } else if i == 0 {
      var run := shape(0, text);
      LoopInvFirst(shape, text, faceCount);
      FaceLoopContinues(shape, text, faceCount, 0, p);
      var q := PassFrom(0, run, Pair(Resize([], |run|, MISSING), Resize([], |run|, MISSING)), 0, false);
      LoopOutcome(shape, text, faceCount, 1, q.0, q.1, r);
    } else {
      LoopInvNext(shape, text, faceCount, i, p, more);
      if |shape(i, text)| == |p.faces| {
        FaceLoopContinues(shape, text, faceCount, i, p);
        var q := PassFrom(i, shape(i, text), p, 0, false);
        LoopOutcome(shape, text, faceCount, i + 1, q.0, q.1, r);
      } else {
        LoopFails(shape, text, faceCount, i, p, more);
      }
    }
  }

  /**
   * `AssignCodepointsFaces` on the fresh pair the renderer passes, with at
   * least one face. Every position gets the first face, in priority order,
   * with a non-zero glyph there, and that glyph; a position no face has
   * becomes face 0 with the U+FFFD glyph. Both sequences have the first
   * run's length. Faces are shaped until a pass leaves every position with
   * a glyph, and no further. The call fails exactly at the first shaped face
   * whose run length differs from the first.
   */
  lemma ResolveFresh(shape: Shaper, text: string, faceCount: nat, repl: nat)
    requires 0 < faceCount < MISSING
    requires GlyphsBelowSentinel(shape, text, faceCount)
    ensures var r := Resolve(shape, text, faceCount, repl, EmptyPair);
      var n := |shape(0, text)|;
      && (r.Success? ==>
        && |r.value.pair.faces| == n && |r.value.pair.glyphs| == n
        && (forall j :: 0 <= j < n ==>
             var h := FirstHit(shape, text, faceCount, j);
             if h.Some? then r.value.pair.faces[j] == h.value && r.value.pair.glyphs[j] == shape(h.value, text)[j]
             else r.value.pair.faces[j] == 0 && r.value.pair.glyphs[j] == repl)
        && 0 < r.value.shaped <= faceCount
        && (forall t :: 0 <= t < r.value.shaped ==> |shape(t, text)| == n)
        && (r.value.shaped < faceCount ==> AllHit(shape, text, r.value.shaped, n))
        && (forall s :: 0 < s < r.value.shaped ==> !AllHit(shape, text, s, n)))
      && (r.Failure? ==>
        && 0 < r.error.face < faceCount
        && |shape(r.error.face, text)| != n
        && (forall t :: 0 <= t < r.error.face ==> |shape(t, text)| == n)
        && (forall s :: 0 < s <= r.error.face ==> !AllHit(shape, text, s, n)))
  {
    var r := FaceLoop(shape, text, faceCount, 0, EmptyPair, true);
    LoopOutcome(shape, text, faceCount, 0, EmptyPair, true, r);
    if r.Success? {
      var res := r.value;
      var n := |shape(0, text)|;
      forall j | 0 <= j < n
        ensures FirstHit(shape, text, res.shaped, j).Some? ==>
          FirstHit(shape, text, faceCount, j) == FirstHit(shape, text, res.shaped, j)
        ensures FirstHit(shape, text, res.shaped, j).None? ==> FirstHit(shape, text, faceCount, j).None?
      {
        if FirstHit(shape, text, res.shaped, j).Some? {
          FirstHitStable(shape, text, res.shaped, faceCount, j);
        }
      }
    }
  }

  /**
   * With glyph ids and `repl` below the sentinel, no sentinel survives a
   * fresh resolution and every face index names an existing face.
   */
  lemma NoSentinelSurvives(shape: Shaper, text: string, faceCount: nat, repl: nat)
    requires 0 < faceCount < MISSING && repl < MISSING
    requires GlyphsBelowSentinel(shape, text, faceCount)
    requires Resolve(shape, text, faceCount, repl, EmptyPair).Success?
    ensures var p := Resolve(shape, text, faceCount, repl, EmptyPair).value.pair;
      && (forall j :: 0 <= j < |p.faces| ==> p.faces[j] < faceCount)
      && (forall j :: 0 <= j < |p.glyphs| ==> p.glyphs[j] != MISSING)
  {
    ResolveFresh(shape, text, faceCount, repl);
    var p := Resolve(shape, text, faceCount, repl, EmptyPair).value.pair;
    forall j | 0 <= j < |p.glyphs| ensures p.glyphs[j] != MISSING {
      var h := FirstHit(shape, text, faceCount, j);
      if h.Some? {
        assert shape(h.value, text)[j] < MISSING;
      }
    }
  }

  /** With an empty face list nothing is shaped and the pair passed in comes back as it was. */
  lemma NoFacesLeavesPair(shape: Shaper, text: string, repl: nat, init: Pair)
    requires CanResolve(0, init)
    ensures Resolve(shape, text, 0, repl, init) == Success(Resolution(init, 0))
  {
    var r := ReplaceMissing(init, repl);
    assert r.faces == init.faces;
    assert r.glyphs == init.glyphs;
  }

  /**
   * The pair must start empty: a stale entry from an earlier line that has
   * the new run's length is never overwritten, because `resize` only fills
   * new slots, so a face index beyond the face list leaks into the result.
   */
  lemma StalePairLeaks()
    ensures
      var shape: Shaper := (i: nat, t: string) => [0];
      Resolve(shape, "x", 1, 3, Pair([5], [9])) == Success(Resolution(Pair([5], [9]), 1))
  {
    var shape: Shaper := (i: nat, t: string) => [0];
    var p1 := Pair(Resize([5], 1, MISSING), Resize([9], 1, MISSING));
    assert p1 == Pair([5], [9]);
    var q := PassFrom(0, [0], p1, 0, false);
    assert q == (Pair([5], [9]), false);
    var r := ReplaceMissing(Pair([5], [9]), 3);
    assert r.faces == [5] && r.glyphs == [9];
  }
}
