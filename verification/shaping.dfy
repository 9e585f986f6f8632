/**
 * The per-line shaping memo of the renderer (`ShapingCache`, an unordered
 * map from the exact line string to its face/glyph assignment) and its
 * older copy in `main.cc`. On a miss the line is resolved with
 * `AssignCodepointsFaces` into a fresh, empty pair and the result is
 * stored; on a hit the stored pair is used as it is. Nothing is ever
 * removed.
 */
module Shaping {
  import opened Wrappers
  import opened FaceFallback

  /** `ShapingCache`: line contents to the pair resolved for them. */
  type Memo = map<string, Pair>

  /** The memo answers like the resolver: every stored pair is what resolving its line gives. */
  predicate Coherent(memo: Memo, shape: Shaper, faceCount: nat, repl: nat)
  {
    forall line :: line in memo ==>
      Resolve(shape, line, faceCount, repl, EmptyPair).Success? &&
      memo[line] == Resolve(shape, line, faceCount, repl, EmptyPair).value.pair
  }

  /**
   * The lookup of one line: a hit returns the stored pair and leaves the
   * memo alone; a miss resolves the line into an empty pair and stores the
   * result under the line. A failed resolution (the run-length assertion)
   * is passed on.
   */
  function Lookup(memo: Memo, shape: Shaper, faceCount: nat, repl: nat, line: string): (r: Result<(Memo, Pair), ResolveError>)
    ensures line in memo ==> r == Success((memo, memo[line]))
    ensures line !in memo ==>
      && (r.Success? <==> Resolve(shape, line, faceCount, repl, EmptyPair).Success?)
      && (r.Success? ==>
           && r.value.1 == Resolve(shape, line, faceCount, repl, EmptyPair).value.pair
           && r.value.0 == memo[line := r.value.1])
    ensures r.Success? ==> line in r.value.0 && r.value.0[line] == r.value.1
    ensures r.Success? ==> forall l :: l in memo ==> l in r.value.0 && r.value.0[l] == memo[l]
  {
    if line in memo then Success((memo, memo[line]))
    else
      match Resolve(shape, line, faceCount, repl, EmptyPair)
      case Failure(e) => Failure(e)
      case Success(res) => Success((memo[line := res.pair], res.pair))
  }

  /** A pair resolved from an empty one has a face for every glyph. */
  lemma ResolvedLengths(shape: Shaper, line: string, faceCount: nat, repl: nat)
    requires Resolve(shape, line, faceCount, repl, EmptyPair).Success?
    ensures var p := Resolve(shape, line, faceCount, repl, EmptyPair).value.pair;
      |p.faces| == |p.glyphs|
  {
    if faceCount == 0 {
      NoFacesLeavesPair(shape, line, repl, EmptyPair);
    }
  }

  /**
   * Memoisation is transparent: from a coherent memo, a lookup returns
   * exactly what resolving the line afresh returns, fails exactly when that
   * fails, and leaves the memo coherent. Distinct lines never share an
   * answer, since the memo is keyed by the whole line.
   */
  lemma LookupCoherent(memo: Memo, shape: Shaper, faceCount: nat, repl: nat, line: string)
    requires Coherent(memo, shape, faceCount, repl)
    ensures var r := Lookup(memo, shape, faceCount, repl, line);
      && (r.Success? <==> Resolve(shape, line, faceCount, repl, EmptyPair).Success?)
      && (r.Success? ==>
           && r.value.1 == Resolve(shape, line, faceCount, repl, EmptyPair).value.pair
           && |r.value.1.faces| == |r.value.1.glyphs|
           && Coherent(r.value.0, shape, faceCount, repl))
  {
    var r := Lookup(memo, shape, faceCount, repl, line);
    if r.Success? {
      ResolvedLengths(shape, line, faceCount, repl);
    }
  }

  /** Every stored pair has a face for every glyph, as a fresh resolution gives. */
  predicate Balanced(memo: Memo)
  {
    forall line :: line in memo ==> |memo[line].faces| == |memo[line].glyphs|
  }

  /** A coherent memo is balanced. */
  lemma CoherentBalanced(memo: Memo, shape: Shaper, faceCount: nat, repl: nat)
    requires Coherent(memo, shape, faceCount, repl)
    ensures Balanced(memo)
  {
    forall line | line in memo ensures |memo[line].faces| == |memo[line].glyphs| {
      ResolvedLengths(shape, line, faceCount, repl);
    }
  }

  /** A lookup in a balanced memo returns a balanced pair and leaves the memo balanced. */
  lemma LookupBalanced(memo: Memo, shape: Shaper, faceCount: nat, repl: nat, line: string)
    requires Balanced(memo)
    ensures var r := Lookup(memo, shape, faceCount, repl, line);
      r.Success? ==> |r.value.1.faces| == |r.value.1.glyphs| && Balanced(r.value.0)
  {
    if line !in memo && Lookup(memo, shape, faceCount, repl, line).Success? {
      ResolvedLengths(shape, line, faceCount, repl);
    }
  }

  /** Looking the same line up twice gives the same pair, and the second lookup changes nothing. */
  lemma LookupTwice(memo: Memo, shape: Shaper, faceCount: nat, repl: nat, line: string)
    requires Lookup(memo, shape, faceCount, repl, line).Success?
    ensures var (m1, p1) := Lookup(memo, shape, faceCount, repl, line).value;
      Lookup(m1, shape, faceCount, repl, line) == Success((m1, p1))
  {
  }
}
