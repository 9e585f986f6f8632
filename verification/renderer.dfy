/**
 * The batch loop of `renderer::Render` (and of `RenderLine` in the older
 * `main.cc`): how the glyphs of one line are looked up in, and inserted
 * into, the two texture atlases, and cut into batches that are each drawn
 * with one draw call.
 *
 * The GL work is left out: building quads (floating point), filling the
 * vertex buffer and the draw call itself. What a batch hands to the GPU is
 * modelled by the characters it collected, in order, and by the texture ids
 * built from them. FreeType's `RenderGlyph(face, glyph)` is a parameter,
 * `raster`; the iteration order of each atlas's hash map is a parameter,
 * `order`.
 */
module Renderer {
  import opened Wrappers
  import opened MachineInt
  import opened GlyphAtlas
  import opened FaceFallback
  import Shaping
  import Viewport
  import LegacyViewport

  /** `texture_atlases[0]`, for monochrome glyphs, and `texture_atlases[1]`, for color glyphs. */
  datatype Atlases = Atlases(mono: Atlas, color: Atlas)

  /** The atlas key under which the glyph `g` of face `f` is cached. */
  type KeyFn = (nat, nat) -> nat

  /** The rendered glyph (character and packed bitmap) of glyph `g` of face `f`. */
  type Raster = (nat, nat) -> Glyph

  /**
   * The iteration order of an atlas's map. It is a function of the atlas
   * value, so two equal atlases enumerate alike; `std::unordered_map` does
   * not promise even that across rehashes. The lemmas hold for every order.
   */
  type Order = Atlas -> seq<nat>

  /** `order` lists the keys of every atlas. */
  ghost predicate Orders(order: Order)
  {
    forall a :: Enumerates(a, order(a))
  }

  /** `Contains_stale() || !IsFull()`: the atlas can take one more glyph. */
  predicate HasRoom(a: Atlas)
  {
    ContainsStale(a) || !IsFull(a)
  }

  /**
   * For a packed atlas, room means a counter slot still free or an entry
   * to replace; with room, inserting any codepoint succeeds, and without it
   * the atlas is full and every entry is fresh.
   */
  lemma HasRoomLetsInsert(a: Atlas, cp: nat, g: Glyph, order: seq<nat>)
    requires Packed(a) && Enumerates(a, order)
    ensures HasRoom(a) <==> a.index < a.depth || ContainsStale(a)
    ensures HasRoom(a) ==> Insert(a, cp, g, order).Success?
    ensures !HasRoom(a) ==> IsFull(a) && forall k :: k in a.cache ==> a.cache[k].isFresh
  {
  }

  /** What one batch produced: the atlases after it, the characters it collected, where it stopped. */
  datatype BatchOut = BatchOut(atlases: Atlases, chars: seq<Character>, next: nat)

  /** What became of one position of a line. */
  datatype StepOut =
    | Drawn(atlases: Atlases, ch: Character)
    | Full
    | Failed(error: InsertError)

  /**
   * One iteration of the inner `for` loop, for glyph `g` of face `f`: look
   * it up in atlas 0, then in atlas 1 (a hit refreshes the entry); on a
   * double miss, while both atlases have room, render it and insert it,
   * colored glyphs into atlas 1 and the others into atlas 0. `Full` is the
   * `break`; `Failed` is the slot assertion of the upload.
   */
  function Step(key: KeyFn, raster: Raster, order: Order, atl: Atlases, f: nat, g: nat): (r: StepOut)
    requires Orders(order)
    ensures r.Full? <==>
      key(f, g) !in atl.mono.cache && key(f, g) !in atl.color.cache && !(HasRoom(atl.mono) && HasRoom(atl.color))
    ensures r.Failed? ==> key(f, g) !in atl.mono.cache && key(f, g) !in atl.color.cache
    ensures r.Drawn? ==>
      && r.atlases.mono.depth == atl.mono.depth && r.atlases.color.depth == atl.color.depth
      && (key(f, g) in r.atlases.mono.cache || key(f, g) in r.atlases.color.cache)
  {
    var k := key(f, g);
    var (mono, hit0) := Get(atl.mono, k);
    if hit0.Some? then Drawn(atl.(mono := mono), hit0.value)
    else
      var (color, hit1) := Get(atl.color, k);
      if hit1.Some? then Drawn(atl.(color := color), hit1.value)
      else if !(HasRoom(atl.mono) && HasRoom(atl.color)) then Full
      else
        var glyph := raster(f, g);
        if glyph.character.colored then
          InsertEntries(atl.color, k, glyph, order(atl.color));
          match Insert(atl.color, k, glyph, order(atl.color))
          case Failure(e) => Failed(e)
          case Success((color', ch)) => Drawn(atl.(color := color'), ch)
        else
          InsertEntries(atl.mono, k, glyph, order(atl.mono));
          match Insert(atl.mono, k, glyph, order(atl.mono))
          case Failure(e) => Failed(e)
          case Success((mono', ch)) => Drawn(atl.(mono := mono'), ch)
  }

  /** Puts the character of the current position in front of the rest of the batch. */
  function Cons(ch: Character, rest: Result<BatchOut, InsertError>): (r: Result<BatchOut, InsertError>)
    ensures r.Success? <==> rest.Success?
    ensures r.Success? ==> r.value == rest.value.(chars := [ch] + rest.value.chars)
  {
    match rest
    case Failure(e) => Failure(e)
    case Success(b) => Success(b.(chars := [ch] + b.chars))
  }

  /**
   * The inner `for` loop from position `i`: step by step until the line
   * ends or a glyph finds no room, which ends the batch at that glyph.
   */
  function Batch(key: KeyFn, raster: Raster, order: Order, atl: Atlases, p: Pair, i: nat): (r: Result<BatchOut, InsertError>)
    requires Orders(order)
    requires |p.faces| <= |p.glyphs| && i <= |p.faces|
    ensures r.Success? ==> i <= r.value.next <= |p.faces| && |r.value.chars| == r.value.next - i
    ensures r.Success? ==>
      r.value.atlases.mono.depth == atl.mono.depth && r.value.atlases.color.depth == atl.color.depth
    ensures r.Success? && r.value.next < |p.faces| ==>
      var k := key(p.faces[r.value.next], p.glyphs[r.value.next]);
      && k !in r.value.atlases.mono.cache && k !in r.value.atlases.color.cache
      && !(HasRoom(r.value.atlases.mono) && HasRoom(r.value.atlases.color))
    ensures r.Success? && i < |p.faces| && HasRoom(atl.mono) && HasRoom(atl.color) ==> i < r.value.next
    decreases |p.faces| - i
  {
    if i == |p.faces| then Success(BatchOut(atl, [], i))
    else
      match Step(key, raster, order, atl, p.faces[i], p.glyphs[i])
      case Full => Success(BatchOut(atl, [], i))
      case Failed(e) => Failure(e)
      case Drawn(next, ch) => Cons(ch, Batch(key, raster, order, next, p, i + 1))
  }

  // ---------------------------------------------------------------------
  // The slot invariant across a batch.
  // ---------------------------------------------------------------------

  /** No key is cached in both atlases. */
  predicate KeysApart(atl: Atlases)
  {
    forall k :: k in atl.mono.cache ==> k !in atl.color.cache
  }

  /** Both atlases packed, keys apart. */
  predicate PackedPair(atl: Atlases)
  {
    Packed(atl.mono) && Packed(atl.color) && KeysApart(atl)
  }

  /** Inserting a key cached in neither atlas into the color atlas keeps the pair packed. */
  lemma InsertColorKeepsPacked(atl: Atlases, k: nat, g: Glyph, order: Order)
    requires Orders(order) && PackedPair(atl) && HasRoom(atl.color)
    requires k !in atl.mono.cache && k !in atl.color.cache
    ensures Insert(atl.color, k, g, order(atl.color)).Success?
    ensures PackedPair(atl.(color := Insert(atl.color, k, g, order(atl.color)).value.0))
  {
    InsertKeepsPacked(atl.color, k, g, order(atl.color));
    InsertEntries(atl.color, k, g, order(atl.color));
  }

  /** Inserting a key cached in neither atlas into the monochrome atlas keeps the pair packed. */
  lemma InsertMonoKeepsPacked(atl: Atlases, k: nat, g: Glyph, order: Order)
    requires Orders(order) && PackedPair(atl) && HasRoom(atl.mono)
    requires k !in atl.mono.cache && k !in atl.color.cache
    ensures Insert(atl.mono, k, g, order(atl.mono)).Success?
    ensures PackedPair(atl.(mono := Insert(atl.mono, k, g, order(atl.mono)).value.0))
  {
    InsertKeepsPacked(atl.mono, k, g, order(atl.mono));
    InsertEntries(atl.mono, k, g, order(atl.mono));
  }

  /** A step from packed atlases never fails, and leaves them packed with keys apart. */
  lemma StepKeepsPacked(key: KeyFn, raster: Raster, order: Order, atl: Atlases, f: nat, g: nat)
    requires Orders(order)
    ensures var s := Step(key, raster, order, atl, f, g);
      PackedPair(atl) ==> !s.Failed? && (s.Drawn? ==> PackedPair(s.atlases))
  {
    var k := key(f, g);
    if PackedPair(atl) && k !in atl.mono.cache && k !in atl.color.cache && HasRoom(atl.mono) && HasRoom(atl.color) {
      var glyph := raster(f, g);
      if glyph.character.colored {
        InsertColorKeepsPacked(atl, k, glyph, order);
      } else {
        InsertMonoKeepsPacked(atl, k, glyph, order);
      }
    }
  }

  /**
   * The renderer only inserts a glyph that both lookups missed, so from
   * packed atlases a batch never trips the slot assertion of the upload,
   * and both atlases stay packed, with no key in both.
   */
  lemma {:induction false} BatchKeepsPacked(key: KeyFn, raster: Raster, order: Order, atl: Atlases, p: Pair, i: nat,
                                            r: Result<BatchOut, InsertError>)
    requires Orders(order) && |p.faces| <= |p.glyphs| && i <= |p.faces|
    requires r == Batch(key, raster, order, atl, p, i)
    ensures PackedPair(atl) ==> r.Success? && PackedPair(r.value.atlases)
    decreases |p.faces| - i
  {
    if i < |p.faces| {
      var f, g := p.faces[i], p.glyphs[i];
      StepKeepsPacked(key, raster, order, atl, f, g);
      var s := Step(key, raster, order, atl, f, g);
      if s.Drawn? {
        var rest := Batch(key, raster, order, s.atlases, p, i + 1);
        BatchKeepsPacked(key, raster, order, s.atlases, p, i + 1, rest);
        assert r == Cons(s.ch, rest);
      }
    }
  }

  // ---------------------------------------------------------------------
  // What a batch draws is still in its slot when the batch is drawn.
  // ---------------------------------------------------------------------

  /** `k` is cached fresh in one of the atlases, holding `ch`. */
  predicate CachedFresh(atl: Atlases, k: nat, ch: Character)
  {
    || (k in atl.mono.cache && atl.mono.cache[k] == Item(ch, true))
    || (k in atl.color.cache && atl.color.cache[k] == Item(ch, true))
  }

  /** Every fresh entry of `a` is still in `b`, unchanged. */
  predicate KeepsFresh(a: Atlas, b: Atlas)
  {
    forall k :: k in a.cache && a.cache[k].isFresh ==> k in b.cache && b.cache[k] == a.cache[k]
  }

  /** From `a` to `b`: every fresh entry of both atlases kept. */
  predicate FreshKept(a: Atlases, b: Atlases)
  {
    KeepsFresh(a.mono, b.mono) && KeepsFresh(a.color, b.color)
  }

  /**
   * A step keeps every fresh entry, and leaves the character it draws
   * cached fresh under the position's key.
   */
  lemma StepKeepsFresh(key: KeyFn, raster: Raster, order: Order, atl: Atlases, f: nat, g: nat)
    requires Orders(order)
    ensures var s := Step(key, raster, order, atl, f, g);
      s.Drawn? ==> FreshKept(atl, s.atlases) && CachedFresh(s.atlases, key(f, g), s.ch)
  {
    var k := key(f, g);
    if k !in atl.mono.cache && k !in atl.color.cache && HasRoom(atl.mono) && HasRoom(atl.color) {
      var glyph := raster(f, g);
      if glyph.character.colored {
        InsertEntries(atl.color, k, glyph, order(atl.color));
      } else {
        InsertEntries(atl.mono, k, glyph, order(atl.mono));
      }
    }
  }

  /** Every character of `chars`, from position `i` of the line on, is cached fresh under its position's key. */
  predicate AllCachedFresh(key: KeyFn, atl: Atlases, p: Pair, i: nat, chars: seq<Character>)
  {
    forall j :: 0 <= j < |chars| && i + j < |p.faces| && i + j < |p.glyphs| ==>
      CachedFresh(atl, key(p.faces[i + j], p.glyphs[i + j]), chars[j])
  }

  /** One drawn position in front of the rest of the batch. */
  lemma FreshCons(key: KeyFn, a0: Atlases, a1: Atlases, a2: Atlases, p: Pair, i: nat, ch: Character, chars: seq<Character>)
    requires i < |p.faces| <= |p.glyphs|
    requires FreshKept(a0, a1) && FreshKept(a1, a2)
    requires CachedFresh(a1, key(p.faces[i], p.glyphs[i]), ch)
    requires AllCachedFresh(key, a2, p, i + 1, chars)
    ensures FreshKept(a0, a2)
    ensures AllCachedFresh(key, a2, p, i, [ch] + chars)
  {
    var all := [ch] + chars;
    forall j | 0 <= j < |all| && i + j < |p.faces| && i + j < |p.glyphs|
      ensures CachedFresh(a2, key(p.faces[i + j], p.glyphs[i + j]), all[j])
    {
      if j > 0 {
        assert all[j] == chars[j - 1];
        assert i + j == (i + 1) + (j - 1);
      }
    }
  }

  /**
   * Freshness protects a batch: a lookup refreshes the entry it hits and an
   * insert evicts only stale entries, so every character a batch collects
   * is, when the batch is drawn, still cached fresh under its position's
   * key, with the slot it was drawn from; and every entry that was fresh
   * before the batch is still there, unchanged.
   */
  lemma {:induction false} BatchKeepsFresh(key: KeyFn, raster: Raster, order: Order, atl: Atlases, p: Pair, i: nat)
    requires Orders(order) && |p.faces| <= |p.glyphs| && i <= |p.faces|
    ensures var r := Batch(key, raster, order, atl, p, i);
      r.Success? ==> FreshKept(atl, r.value.atlases) && AllCachedFresh(key, r.value.atlases, p, i, r.value.chars)
    decreases |p.faces| - i
  {
    if i < |p.faces| {
      var s := Step(key, raster, order, atl, p.faces[i], p.glyphs[i]);
      if s.Drawn? {
        StepKeepsFresh(key, raster, order, atl, p.faces[i], p.glyphs[i]);
        BatchKeepsFresh(key, raster, order, s.atlases, p, i + 1);
        var rest := Batch(key, raster, order, s.atlases, p, i + 1);
        if rest.Success? {
          FreshCons(key, atl, s.atlases, rest.value.atlases, p, i, s.ch, rest.value.chars);
        }
      }
    }
  }

  // ---------------------------------------------------------------------
  // Which glyph is drawn: the atlas key.
  // ---------------------------------------------------------------------

  /** Distinct (face, glyph) pairs, glyph indices being `uint32`, get distinct keys. */
  ghost predicate Injective(key: KeyFn)
  {
    forall f1: nat, g1: nat, f2: nat, g2: nat ::
      IsU32(g1) && IsU32(g2) && key(f1, g1) == key(f2, g2) ==> f1 == f2 && g1 == g2
  }

  /** `c` is `d` uploaded to some slot. */
  predicate SameGlyph(c: Character, d: Character)
  {
    c == d.(textureArrayIndex := c.textureArrayIndex)
  }

  /** Every entry of `a` holds the glyph its key was made from. */
  ghost predicate Faithful(key: KeyFn, raster: Raster, a: Atlas)
  {
    forall f: nat, g: nat :: IsU32(g) && key(f, g) in a.cache ==>
      SameGlyph(a.cache[key(f, g)].character, raster(f, g).character)
  }

  /** Every glyph index of the line fits `hb_codepoint_t`. */
  predicate U32Glyphs(p: Pair)
  {
    forall j :: 0 <= j < |p.glyphs| ==> IsU32(p.glyphs[j])
  }

  /** Under an injective key, an insert keeps the atlas faithful and uploads the glyph it was given. */
  lemma InsertKeepsFaithful(key: KeyFn, raster: Raster, a: Atlas, f: nat, g: nat, order: seq<nat>)
    requires Injective(key) && IsU32(g) && Faithful(key, raster, a)
    requires HasRoom(a) && Enumerates(a, order)
    ensures var r := Insert(a, key(f, g), raster(f, g), order);
      r.Success? ==> Faithful(key, raster, r.value.0) && SameGlyph(r.value.1, raster(f, g).character)
  {
    var r := Insert(a, key(f, g), raster(f, g), order);
    InsertEntries(a, key(f, g), raster(f, g), order);
    if r.Success? {
      var b := r.value.0;
      forall f': nat, g': nat | IsU32(g') && key(f', g') in b.cache
        ensures SameGlyph(b.cache[key(f', g')].character, raster(f', g').character)
      {
        if key(f', g') == key(f, g) {
          assert f' == f && g' == g;
        }
      }
    }
  }

  /** Under an injective key, a step keeps both atlases faithful and draws the glyph of its position. */
  lemma StepFaithful(key: KeyFn, raster: Raster, order: Order, atl: Atlases, f: nat, g: nat)
    requires Orders(order) && Injective(key) && IsU32(g)
    requires Faithful(key, raster, atl.mono) && Faithful(key, raster, atl.color)
    ensures var s := Step(key, raster, order, atl, f, g);
      s.Drawn? ==>
        && Faithful(key, raster, s.atlases.mono) && Faithful(key, raster, s.atlases.color)
        && SameGlyph(s.ch, raster(f, g).character)
  {
    var k := key(f, g);
    if k in atl.mono.cache {
      assert Get(atl.mono, k).0.cache == atl.mono.cache[k := Item(atl.mono.cache[k].character, true)];
    } else if k in atl.color.cache {
      assert Get(atl.color, k).0.cache == atl.color.cache[k := Item(atl.color.cache[k].character, true)];
    } else if HasRoom(atl.mono) && HasRoom(atl.color) {
      if raster(f, g).character.colored {
        InsertKeepsFaithful(key, raster, atl.color, f, g, order(atl.color));
      } else {
        InsertKeepsFaithful(key, raster, atl.mono, f, g, order(atl.mono));
      }
    }
  }

  /** Every character of `chars`, from position `i` of the line on, is the glyph of its position. */
  predicate AllSameGlyph(raster: Raster, p: Pair, i: nat, chars: seq<Character>)
  {
    forall j :: 0 <= j < |chars| && i + j < |p.faces| && i + j < |p.glyphs| ==>
      SameGlyph(chars[j], raster(p.faces[i + j], p.glyphs[i + j]).character)
  }

  lemma SameGlyphCons(raster: Raster, p: Pair, i: nat, ch: Character, chars: seq<Character>)
    requires i < |p.faces| <= |p.glyphs|
    requires SameGlyph(ch, raster(p.faces[i], p.glyphs[i]).character)
    requires AllSameGlyph(raster, p, i + 1, chars)
    ensures AllSameGlyph(raster, p, i, [ch] + chars)
  {
    var all := [ch] + chars;
    forall j | 0 <= j < |all| && i + j < |p.faces| && i + j < |p.glyphs|
      ensures SameGlyph(all[j], raster(p.faces[i + j], p.glyphs[i + j]).character)
    {
      if j > 0 {
        assert all[j] == chars[j - 1];
        assert i + j == (i + 1) + (j - 1);
      }
    }
  }

  /**
   * With a key that tells (face, glyph) pairs apart, every character a
   * batch draws is the glyph of its position, uploaded to some slot, and
   * the atlases stay faithful.
   */
  lemma {:induction false} BatchFaithful(key: KeyFn, raster: Raster, order: Order, atl: Atlases, p: Pair, i: nat)
    requires Orders(order) && |p.faces| <= |p.glyphs| && i <= |p.faces|
    requires Injective(key) && U32Glyphs(p)
    requires Faithful(key, raster, atl.mono) && Faithful(key, raster, atl.color)
    ensures var r := Batch(key, raster, order, atl, p, i);
      r.Success? ==>
        && Faithful(key, raster, r.value.atlases.mono) && Faithful(key, raster, r.value.atlases.color)
        && AllSameGlyph(raster, p, i, r.value.chars)
    decreases |p.faces| - i
  {
    if i < |p.faces| {
      var s := Step(key, raster, order, atl, p.faces[i], p.glyphs[i]);
      if s.Drawn? {
        StepFaithful(key, raster, order, atl, p.faces[i], p.glyphs[i]);
        BatchFaithful(key, raster, order, s.atlases, p, i + 1);
        var rest := Batch(key, raster, order, s.atlases, p, i + 1);
        if rest.Success? {
          SameGlyphCons(raster, p, i, s.ch, rest.value.chars);
        }
      }
    }
  }

  /** The key of the source: the glyph index alone, whatever its face. */
  const GlyphKey: KeyFn := (f: nat, g: nat) => g

  /** The key evidently intended: face and glyph index together, the glyph index in the low 32 bits. */
  const FaceGlyphKey: KeyFn := (f: nat, g: nat) => f * TWO_32 + g

  lemma FaceGlyphKeyInjective()
    ensures Injective(FaceGlyphKey)
    ensures !Injective(GlyphKey)
  {
    forall f1: nat, g1: nat, f2: nat, g2: nat | IsU32(g1) && IsU32(g2) && FaceGlyphKey(f1, g1) == FaceGlyphKey(f2, g2)
      ensures f1 == f2 && g1 == g2
    {
    }
    assert GlyphKey(0, 36) == GlyphKey(1, 36);
  }

  /** A rasterizer under which glyph 36 of face 1 looks different from glyph 36 of face 0. */
  const TwoFaces: Raster := (f: nat, g: nat) => Glyph(Character(Vec2(f, 0), Vec2(0, 0), 0, false, 0), [])

  /**
   * Keyed by glyph index alone, a glyph of one face shadows the glyph with
   * the same index in another face: in a line whose two positions are
   * glyph 36 of face 0 and glyph 36 of face 1, the second position hits the
   * entry of the first and face 0's glyph is drawn twice.
   */
  lemma AliasedGlyphDrawsOtherFace(order: Order)
    requires Orders(order)
    ensures var r := Batch(GlyphKey, TwoFaces, order, Atlases(NewAtlas(2), NewAtlas(2)), Pair([0, 1], [36, 36]), 0);
      && r.Success? && |r.value.chars| == 2
      && r.value.chars[1].size == Vec2(0, 0)
      && !SameGlyph(r.value.chars[1], TwoFaces(1, 36).character)
  {
    var p := Pair([0, 1], [36, 36]);
    var atl := Atlases(NewAtlas(2), NewAtlas(2));
    var s0 := Step(GlyphKey, TwoFaces, order, atl, 0, 36);
    assert GlyphKey(0, 36) == 36 && GlyphKey(1, 36) == 36;
    assert TwoFaces(0, 36).character.size == Vec2(0, 0);
    assert s0.Drawn? && s0.ch.size == Vec2(0, 0) && 36 in s0.atlases.mono.cache by {
      InsertEntries(atl.mono, 36, TwoFaces(0, 36), order(atl.mono));
    }
    var s1 := Step(GlyphKey, TwoFaces, order, s0.atlases, 1, 36);
    assert s1.Drawn? && s1.ch == s0.ch;
    assert Batch(GlyphKey, TwoFaces, order, s1.atlases, p, 2) == Success(BatchOut(s1.atlases, [], 2));
  }

  /**
   * Keyed by face and glyph index, the same line draws face 1's glyph at the
   * second position; in general every character drawn from faithful
   * atlases (new ones, say) is the glyph of its own position.
   */
  lemma FaceGlyphKeyDrawsOwnFace(order: Order, raster: Raster, atl: Atlases, p: Pair, i: nat)
    requires Orders(order) && |p.faces| <= |p.glyphs| && i <= |p.faces| && U32Glyphs(p)
    requires Faithful(FaceGlyphKey, raster, atl.mono) && Faithful(FaceGlyphKey, raster, atl.color)
    ensures var r := Batch(FaceGlyphKey, raster, order, atl, p, i);
      r.Success? ==> AllSameGlyph(raster, p, i, r.value.chars)
  {
    FaceGlyphKeyInjective();
    BatchFaithful(FaceGlyphKey, raster, order, atl, p, i);
  }

  // ---------------------------------------------------------------------
  // A line: batch after batch, invalidating both atlases after each.
  // ---------------------------------------------------------------------

  /** Invalidating an atlas with at least one slot gives it room. */
  lemma InvalidateMakesRoom(a: Atlas)
    requires a.depth > 0
    ensures HasRoom(Invalidate(a))
  {
    var r := Invalidate(a);
    if IsFull(r) {
      var k :| k in r.cache;
      assert !r.cache[k].isFresh;
    }
  }

  /** Both atlases invalidated, as after each draw call. */
  function InvalidateBoth(atl: Atlases): (r: Atlases)
    requires atl.mono.depth > 0 && atl.color.depth > 0
    ensures r.mono == Invalidate(atl.mono) && r.color == Invalidate(atl.color)
    ensures HasRoom(r.mono) && HasRoom(r.color)
  {
    InvalidateMakesRoom(atl.mono);
    InvalidateMakesRoom(atl.color);
    Atlases(Invalidate(atl.mono), Invalidate(atl.color))
  }

  /** The characters of a line's batches, in drawing order. */
  function Concat(batches: seq<seq<Character>>): seq<Character>
  {
    if |batches| == 0 then [] else batches[0] + Concat(batches[1..])
  }

  lemma ConcatCons(c: seq<Character>, rest: seq<seq<Character>>)
    ensures Concat([c] + rest) == c + Concat(rest)
  {
    assert ([c] + rest)[1..] == rest;
  }

  /** No entry of the atlas is fresh. */
  predicate AllStale(a: Atlas)
  {
    forall k :: k in a.cache ==> !a.cache[k].isFresh
  }

  /**
   * The `while` loop of a line from position `i`: draw a batch, invalidate
   * both atlases, go on from where the batch stopped. A batch that stops at
   * once (no room and a double miss) draws nothing, and the invalidation
   * makes room for the next one, so only the first batch can be empty and
   * the line always finishes.
   */
  function RenderLine(key: KeyFn, raster: Raster, order: Order, atl: Atlases, p: Pair, i: nat)
    : (r: Result<(Atlases, seq<seq<Character>>), InsertError>)
    requires Orders(order) && |p.faces| <= |p.glyphs| && i <= |p.faces|
    requires atl.mono.depth > 0 && atl.color.depth > 0
    ensures r.Success? ==> |Concat(r.value.1)| == |p.faces| - i
    ensures r.Success? ==> r.value.0.mono.depth == atl.mono.depth && r.value.0.color.depth == atl.color.depth
    ensures r.Success? && i < |p.faces| ==>
      && |r.value.1| > 0 && AllStale(r.value.0.mono) && AllStale(r.value.0.color)
      && HasRoom(r.value.0.mono) && HasRoom(r.value.0.color)
    ensures r.Success? && i == |p.faces| ==> r.value == (atl, [])
    decreases |p.faces| - i, if HasRoom(atl.mono) && HasRoom(atl.color) then 0 else 1
  {
    if i == |p.faces| then Success((atl, []))
    else
      match Batch(key, raster, order, atl, p, i)
      case Failure(e) => Failure(e)
      case Success(out) =>
        var next := InvalidateBoth(out.atlases);
        match RenderLine(key, raster, order, next, p, out.next)
        case Failure(e) => Failure(e)
        case Success((last, rest)) =>
          ConcatCons(out.chars, rest);
          Success((last, [out.chars] + rest))
  }

  /**
   * Only the first batch of a line can be empty, and only when the line
   * starts with an atlas out of room: after a draw call both atlases are
   * invalidated, and an invalidated atlas always has room.
   */
  lemma {:induction false} RenderLineProgress(key: KeyFn, raster: Raster, order: Order, atl: Atlases, p: Pair, i: nat)
    requires Orders(order) && |p.faces| <= |p.glyphs| && i <= |p.faces|
    requires atl.mono.depth > 0 && atl.color.depth > 0
    ensures var r := RenderLine(key, raster, order, atl, p, i);
      r.Success? ==>
        && (forall b :: 0 < b < |r.value.1| ==> |r.value.1[b]| > 0)
        && (HasRoom(atl.mono) && HasRoom(atl.color) ==> forall b :: 0 <= b < |r.value.1| ==> |r.value.1[b]| > 0)
    decreases |p.faces| - i, if HasRoom(atl.mono) && HasRoom(atl.color) then 0 else 1
  {
    if i < |p.faces| && RenderLine(key, raster, order, atl, p, i).Success? {
      RenderLineUnfold(key, raster, order, atl, p, i);
      var out := Batch(key, raster, order, atl, p, i).value;
      RenderLineProgress(key, raster, order, InvalidateBoth(out.atlases), p, out.next);
    }
  }

  /** From packed atlases with a slot each, every line renders, and the atlases stay packed. */
  lemma {:induction false} RenderLineSucceeds(key: KeyFn, raster: Raster, order: Order, atl: Atlases, p: Pair, i: nat)
    requires Orders(order) && |p.faces| <= |p.glyphs| && i <= |p.faces|
    requires atl.mono.depth > 0 && atl.color.depth > 0 && PackedPair(atl)
    ensures RenderLine(key, raster, order, atl, p, i).Success?
    ensures PackedPair(RenderLine(key, raster, order, atl, p, i).value.0)
    decreases |p.faces| - i, if HasRoom(atl.mono) && HasRoom(atl.color) then 0 else 1
  {
    if i < |p.faces| {
      BatchKeepsPacked(key, raster, order, atl, p, i, Batch(key, raster, order, atl, p, i));
      var out := Batch(key, raster, order, atl, p, i).value;
      RenderLineSucceeds(key, raster, order, InvalidateBoth(out.atlases), p, out.next);
    }
  }

  lemma InvalidateKeepsFaithful(key: KeyFn, raster: Raster, a: Atlas)
    requires Faithful(key, raster, a)
    ensures Faithful(key, raster, Invalidate(a))
  {
  }

  lemma SameGlyphAppend(raster: Raster, p: Pair, i: nat, chars: seq<Character>, rest: seq<Character>)
    requires AllSameGlyph(raster, p, i, chars) && AllSameGlyph(raster, p, i + |chars|, rest)
    ensures AllSameGlyph(raster, p, i, chars + rest)
  {
    var all := chars + rest;
    forall j | 0 <= j < |all| && i + j < |p.faces| && i + j < |p.glyphs|
      ensures SameGlyph(all[j], raster(p.faces[i + j], p.glyphs[i + j]).character)
    {
      if j >= |chars| {
        assert all[j] == rest[j - |chars|];
        assert i + j == (i + |chars|) + (j - |chars|);
      }
    }
  }

  /** A successful line from a position before its end is a successful batch followed by the rest of the line. */
  lemma RenderLineUnfold(key: KeyFn, raster: Raster, order: Order, atl: Atlases, p: Pair, i: nat)
    requires Orders(order) && |p.faces| <= |p.glyphs| && i < |p.faces|
    requires atl.mono.depth > 0 && atl.color.depth > 0
    requires RenderLine(key, raster, order, atl, p, i).Success?
    ensures Batch(key, raster, order, atl, p, i).Success?
    ensures var out := Batch(key, raster, order, atl, p, i).value;
      var rest := RenderLine(key, raster, order, InvalidateBoth(out.atlases), p, out.next);
      && rest.Success?
      && RenderLine(key, raster, order, atl, p, i).value == (rest.value.0, [out.chars] + rest.value.1)
      && Concat(RenderLine(key, raster, order, atl, p, i).value.1) == out.chars + Concat(rest.value.1)
  {
    var out := Batch(key, raster, order, atl, p, i).value;
    var rest := RenderLine(key, raster, order, InvalidateBoth(out.atlases), p, out.next);
    ConcatCons(out.chars, rest.value.1);
  }

  /**
   * With a key that tells (face, glyph) pairs apart, the characters a line
   * draws, batch after batch, are the glyphs of the line's positions, in
   * order.
   */
  lemma {:induction false} RenderLineFaithful(key: KeyFn, raster: Raster, order: Order, atl: Atlases, p: Pair, i: nat)
    requires Orders(order) && |p.faces| <= |p.glyphs| && i <= |p.faces|
    requires atl.mono.depth > 0 && atl.color.depth > 0
    requires Injective(key) && U32Glyphs(p)
    requires Faithful(key, raster, atl.mono) && Faithful(key, raster, atl.color)
    ensures var r := RenderLine(key, raster, order, atl, p, i);
      r.Success? ==>
        && Faithful(key, raster, r.value.0.mono) && Faithful(key, raster, r.value.0.color)
        && AllSameGlyph(raster, p, i, Concat(r.value.1))
    decreases |p.faces| - i, if HasRoom(atl.mono) && HasRoom(atl.color) then 0 else 1
  {
    if i < |p.faces| && RenderLine(key, raster, order, atl, p, i).Success? {
      RenderLineUnfold(key, raster, order, atl, p, i);
      BatchFaithful(key, raster, order, atl, p, i);
      var out := Batch(key, raster, order, atl, p, i).value;
      var next := InvalidateBoth(out.atlases);
      InvalidateKeepsFaithful(key, raster, out.atlases.mono);
      InvalidateKeepsFaithful(key, raster, out.atlases.color);
      RenderLineFaithful(key, raster, order, next, p, out.next);
      SameGlyphAppend(raster, p, i, out.chars, Concat(RenderLine(key, raster, order, next, p, out.next).value.1));
    }
  }

  // ---------------------------------------------------------------------
  // The texture ids of a batch.
  // ---------------------------------------------------------------------

  /** `texture_id` of a character: its slot and whether it is colored, both as `GLuint`. */
  function TextureId(ch: Character): (r: (int, int))
    ensures IsU32(r.0) && (r.1 == 1 <==> ch.colored) && (r.1 == 0 <==> !ch.colored)
    ensures ch.textureArrayIndex < TWO_32 ==> r.0 == ch.textureArrayIndex
  {
    (ToU32(ch.textureArrayIndex), if ch.colored then 1 else 0)
  }

  /**
   * The `texture_ids` vector of a batch: the id of each character, once for
   * each of the six vertices of its quad, so that there are six ids per
   * quad (the assertion after the loop).
   */
  method TextureIds(chars: seq<Character>) returns (ids: seq<(int, int)>)
    ensures |ids| == 6 * |chars|
    ensures forall j :: 0 <= j < |ids| ==> ids[j] == TextureId(chars[j / 6])
  {
    ids := [];
    var k := 0;
    while k < |chars|
      invariant 0 <= k <= |chars|
      invariant |ids| == 6 * k
      invariant forall j :: 0 <= j < |ids| ==> ids[j] == TextureId(chars[j / 6])
    {
      var id := TextureId(chars[k]);
      ids := ids + [id, id, id, id, id, id];
      k := k + 1;
    }
  }

  // ---------------------------------------------------------------------
  // A frame: the visible lines, each shaped through the memo and drawn.
  // ---------------------------------------------------------------------

  datatype FrameError =
    | LineOutOfRange(ix: int)
    | ShapeFailed(ix: int, shapeError: ResolveError)
    | Malformed(ix: int)
    | UploadFailed(ix: int, uploadError: InsertError)

  /** The memo and atlases after a frame, and the batches drawn for each line. */
  datatype Frame = Frame(memo: Shaping.Memo, atlases: Atlases, lines: seq<seq<seq<Character>>>)

  /**
   * The `for` loop over the line indices `ixs`: an index past the file is
   * `lines[ix]` out of bounds; each line's pair comes from the memo (a miss
   * shapes it and stores it) and is drawn batch by batch with `RenderLine`.
   * A pair with more faces than glyphs would be read past its glyphs.
   */
  function RenderLines(key: KeyFn, raster: Raster, order: Order, shape: Shaper, faceCount: nat, repl: nat,
                       text: seq<string>, ixs: seq<int>, memo: Shaping.Memo, atl: Atlases): (r: Result<Frame, FrameError>)
    requires Orders(order) && atl.mono.depth > 0 && atl.color.depth > 0
    ensures r.Success? ==>
      && |r.value.lines| == |ixs|
      && r.value.atlases.mono.depth == atl.mono.depth && r.value.atlases.color.depth == atl.color.depth
      && (forall n :: 0 <= n < |ixs| ==> 0 <= ixs[n] < |text| && text[ixs[n]] in r.value.memo)
      && (forall l :: l in memo ==> l in r.value.memo && r.value.memo[l] == memo[l])
    ensures r.Failure? && r.error.LineOutOfRange? ==>
      exists n :: 0 <= n < |ixs| && ixs[n] == r.error.ix && !(0 <= ixs[n] < |text|)
    decreases |ixs|
  {
    if |ixs| == 0 then Success(Frame(memo, atl, []))
    else
      var ix := ixs[0];
      if !(0 <= ix < |text|) then Failure(LineOutOfRange(ix))
      else
        match Shaping.Lookup(memo, shape, faceCount, repl, text[ix])
        case Failure(e) => Failure(ShapeFailed(ix, e))
        case Success((memo1, pair)) =>
          if |pair.faces| > |pair.glyphs| then Failure(Malformed(ix))
          else
            match RenderLine(key, raster, order, atl, pair, 0)
            case Failure(e) => Failure(UploadFailed(ix, e))
            case Success((atl1, batches)) =>
              match RenderLines(key, raster, order, shape, faceCount, repl, text, ixs[1..], memo1, atl1)
              case Failure(e) => Failure(e)
              case Success(f) =>
                LinesInMemoCons(text, ixs, memo, memo1, f.memo);
                Success(f.(lines := [batches] + f.lines))
  }

  /** Every line index of the frame exists and is memoised, and no earlier memo entry changed: the first line, then the rest. */
  lemma LinesInMemoCons(text: seq<string>, ixs: seq<int>, memo: Shaping.Memo, memo1: Shaping.Memo, fm: Shaping.Memo)
    requires |ixs| > 0 && 0 <= ixs[0] < |text| && text[ixs[0]] in memo1
    requires forall l :: l in memo ==> l in memo1 && memo1[l] == memo[l]
    requires forall n :: 0 <= n < |ixs| - 1 ==> 0 <= ixs[1..][n] < |text| && text[ixs[1..][n]] in fm
    requires forall l :: l in memo1 ==> l in fm && fm[l] == memo1[l]
    ensures forall n :: 0 <= n < |ixs| ==> 0 <= ixs[n] < |text| && text[ixs[n]] in fm
    ensures forall l :: l in memo ==> l in fm && fm[l] == memo[l]
  {
    forall n | 0 <= n < |ixs| ensures 0 <= ixs[n] < |text| && text[ixs[n]] in fm {
      if n > 0 {
        assert ixs[n] == ixs[1..][n - 1];
      }
    }
  }

  /** One step of the line loop: a line that exists, shapes and renders is followed by the rest of the frame. */
  lemma RenderLinesCons(key: KeyFn, raster: Raster, order: Order, shape: Shaper, faceCount: nat, repl: nat,
                        text: seq<string>, ixs: seq<int>, memo: Shaping.Memo, atl: Atlases,
                        memo1: Shaping.Memo, pair: Pair, atl1: Atlases, batches: seq<seq<Character>>,
                        r: Result<Frame, FrameError>, rest: Result<Frame, FrameError>)
    requires Orders(order) && atl.mono.depth > 0 && atl.color.depth > 0
    requires |ixs| > 0 && 0 <= ixs[0] < |text|
    requires Shaping.Lookup(memo, shape, faceCount, repl, text[ixs[0]]) == Success((memo1, pair))
    requires |pair.faces| <= |pair.glyphs|
    requires RenderLine(key, raster, order, atl, pair, 0) == Success((atl1, batches))
    requires r == RenderLines(key, raster, order, shape, faceCount, repl, text, ixs, memo, atl)
    requires rest == RenderLines(key, raster, order, shape, faceCount, repl, text, ixs[1..], memo1, atl1)
    ensures rest.Success? ==> r == Success(rest.value.(lines := [batches] + rest.value.lines))
    ensures rest.Failure? ==> r == rest
  {
  }

  /** Each line drew one character per glyph: the first line, then the rest. */
  lemma LineLengthsCons(text: seq<string>, ixs: seq<int>, batches: seq<seq<Character>>, lines: seq<seq<seq<Character>>>, m: Shaping.Memo)
    requires |ixs| == |lines| + 1
    requires forall n :: 0 <= n < |ixs| ==> 0 <= ixs[n] < |text| && text[ixs[n]] in m
    requires |Concat(batches)| == |m[text[ixs[0]]].glyphs|
    requires forall n :: 0 <= n < |lines| ==> |Concat(lines[n])| == |m[text[ixs[n + 1]]].glyphs|
    ensures forall n :: 0 <= n < |ixs| ==> |Concat(([batches] + lines)[n])| == |m[text[ixs[n]]].glyphs|
  {
    forall n | 0 <= n < |ixs| ensures |Concat(([batches] + lines)[n])| == |m[text[ixs[n]]].glyphs| {
      if n > 0 {
        assert ([batches] + lines)[n] == lines[n - 1];
      }
    }
  }

  /**
   * From a balanced memo and packed atlases, drawing lines that exist can
   * fail only where the resolver's own run-length assertion fires: no pair
   * is malformed and no upload trips the slot assertion. On success the memo
   * is still balanced, the atlases packed, and each line drew exactly one
   * character per glyph of its pair.
   */
  lemma {:induction false} RenderLinesSucceed(key: KeyFn, raster: Raster, order: Order, shape: Shaper, faceCount: nat, repl: nat,
                                              text: seq<string>, ixs: seq<int>, memo: Shaping.Memo, atl: Atlases,
                                              r: Result<Frame, FrameError>)
    requires Orders(order) && atl.mono.depth > 0 && atl.color.depth > 0
    requires Shaping.Balanced(memo) && PackedPair(atl)
    requires forall n :: 0 <= n < |ixs| ==> 0 <= ixs[n] < |text|
    requires r == RenderLines(key, raster, order, shape, faceCount, repl, text, ixs, memo, atl)
    ensures r.Success? || r.error.ShapeFailed?
    ensures r.Success? ==> Shaping.Balanced(r.value.memo) && PackedPair(r.value.atlases)
    decreases |ixs|
  {
    if |ixs| > 0 {
      var ix := ixs[0];
      Shaping.LookupBalanced(memo, shape, faceCount, repl, text[ix]);
      var lk := Shaping.Lookup(memo, shape, faceCount, repl, text[ix]);
      if lk.Success? {
        var (memo1, pair) := lk.value;
        RenderLineSucceeds(key, raster, order, atl, pair, 0);
        var (atl1, batches) := RenderLine(key, raster, order, atl, pair, 0).value;
        var tail := ixs[1..];
        assert forall n :: 0 <= n < |tail| ==> 0 <= tail[n] < |text| by {
          forall n | 0 <= n < |tail| ensures 0 <= tail[n] < |text| {
            assert tail[n] == ixs[n + 1];
          }
        }
        var rest := RenderLines(key, raster, order, shape, faceCount, repl, text, tail, memo1, atl1);
        RenderLinesSucceed(key, raster, order, shape, faceCount, repl, text, tail, memo1, atl1, rest);
        RenderLinesCons(key, raster, order, shape, faceCount, repl, text, ixs, memo, atl, memo1, pair, atl1, batches, r, rest);
      }
    }
  }

  /** From a memo of balanced pairs, each line of a successful frame draws exactly one character per glyph. */
  lemma {:induction false} RenderLinesLengths(key: KeyFn, raster: Raster, order: Order, shape: Shaper, faceCount: nat, repl: nat,
                                              text: seq<string>, ixs: seq<int>, memo: Shaping.Memo, atl: Atlases,
                                              r: Result<Frame, FrameError>)
    requires Orders(order) && atl.mono.depth > 0 && atl.color.depth > 0
    requires Shaping.Balanced(memo)
    requires r == RenderLines(key, raster, order, shape, faceCount, repl, text, ixs, memo, atl)
    ensures r.Success? ==> forall n :: 0 <= n < |ixs| ==> |Concat(r.value.lines[n])| == |r.value.memo[text[ixs[n]]].glyphs|
    decreases |ixs|
  {
    if |ixs| > 0 && r.Success? {
      var ix := ixs[0];
      Shaping.LookupBalanced(memo, shape, faceCount, repl, text[ix]);
      var (memo1, pair) := Shaping.Lookup(memo, shape, faceCount, repl, text[ix]).value;
      var (atl1, batches) := RenderLine(key, raster, order, atl, pair, 0).value;
      var rest := RenderLines(key, raster, order, shape, faceCount, repl, text, ixs[1..], memo1, atl1);
      RenderLinesLengths(key, raster, order, shape, faceCount, repl, text, ixs[1..], memo1, atl1, rest);
      RenderLinesCons(key, raster, order, shape, faceCount, repl, text, ixs, memo, atl, memo1, pair, atl1, batches, r, rest);
      LineLengthsCons(text, ixs, batches, rest.value.lines, rest.value.memo);
    }
  }

  /**
   * Memoisation stays transparent across a frame: from a coherent memo, a
   * frame that succeeds leaves the memo coherent.
   */
  lemma {:induction false} RenderLinesCoherent(key: KeyFn, raster: Raster, order: Order, shape: Shaper, faceCount: nat, repl: nat,
                                               text: seq<string>, ixs: seq<int>, memo: Shaping.Memo, atl: Atlases,
                                               r: Result<Frame, FrameError>)
    requires Orders(order) && atl.mono.depth > 0 && atl.color.depth > 0
    requires Shaping.Coherent(memo, shape, faceCount, repl)
    requires r == RenderLines(key, raster, order, shape, faceCount, repl, text, ixs, memo, atl)
    ensures r.Success? ==> Shaping.Coherent(r.value.memo, shape, faceCount, repl)
    decreases |ixs|
  {
    if |ixs| > 0 && 0 <= ixs[0] < |text| {
      var ix := ixs[0];
      Shaping.LookupCoherent(memo, shape, faceCount, repl, text[ix]);
      var lk := Shaping.Lookup(memo, shape, faceCount, repl, text[ix]);
      if lk.Success? && |lk.value.1.faces| <= |lk.value.1.glyphs| {
        var (memo1, pair) := lk.value;
        var line := RenderLine(key, raster, order, atl, pair, 0);
        if line.Success? {
          var rest := RenderLines(key, raster, order, shape, faceCount, repl, text, ixs[1..], memo1, line.value.0);
          RenderLinesCoherent(key, raster, order, shape, faceCount, repl, text, ixs[1..], memo1, line.value.0, rest);
          assert r.Success? ==> r.value.memo == rest.value.memo;
        }
      }
    }
  }

  /** `renderer::Render`: the lines of the view's range, computed in `unsigned int`. */
  function RenderFrame(key: KeyFn, raster: Raster, order: Order, shape: Shaper, faceCount: nat, repl: nat,
                       text: seq<string>, v: Viewport.View, memo: Shaping.Memo, atl: Atlases): (r: Result<Frame, FrameError>)
    requires Orders(order) && atl.mono.depth > 0 && atl.color.depth > 0
    requires Viewport.WellTyped(v) && IsU64(|text|)
    ensures Viewport.SafeView(v, |text|) && |text| < TWO_31 && r.Success? ==>
      |r.value.lines| == Viewport.Min(v.visible, |text|)
  {
    var (first, last) := Viewport.RenderRange(v, |text|);
    RenderLines(key, raster, order, shape, faceCount, repl, text, Viewport.DrawnLines(first, last), memo, atl)
  }

  /** A frame of a safe view, from a coherent memo and packed atlases, fails only on the resolver's assertion. */
  lemma SafeViewFrameSucceeds(key: KeyFn, raster: Raster, order: Order, shape: Shaper, faceCount: nat, repl: nat,
                              text: seq<string>, v: Viewport.View, memo: Shaping.Memo, atl: Atlases)
    requires Orders(order) && atl.mono.depth > 0 && atl.color.depth > 0
    requires Viewport.WellTyped(v) && Viewport.SafeView(v, |text|) && |text| < TWO_31
    requires Shaping.Coherent(memo, shape, faceCount, repl) && PackedPair(atl)
    ensures var r := RenderFrame(key, raster, order, shape, faceCount, repl, text, v, memo, atl);
      && (r.Success? || r.error.ShapeFailed?)
      && (r.Success? ==> Shaping.Coherent(r.value.memo, shape, faceCount, repl) && PackedPair(r.value.atlases))
  {
    var (first, last) := Viewport.RenderRange(v, |text|);
    Viewport.SafeViewDrawsExistingLines(v, |text|);
    var ixs := Viewport.DrawnLines(first, last);
    var r := RenderLines(key, raster, order, shape, faceCount, repl, text, ixs, memo, atl);
    Shaping.CoherentBalanced(memo, shape, faceCount, repl);
    RenderLinesSucceed(key, raster, order, shape, faceCount, repl, text, ixs, memo, atl, r);
    RenderLinesCoherent(key, raster, order, shape, faceCount, repl, text, ixs, memo, atl, r);
  }

  /**
   * After End on a five-line file in a 768-pixel window of 22-pixel lines,
   * the next frame reads line 2^32 - 29 of the file.
   */
  lemma EndOnShortFileFrameFails(key: KeyFn, raster: Raster, order: Order, shape: Shaper, faceCount: nat, repl: nat,
                                 text: seq<string>, memo: Shaping.Memo, atl: Atlases)
    requires Orders(order) && atl.mono.depth > 0 && atl.color.depth > 0
    requires |text| == 5
    ensures var e := Viewport.OnKey(Viewport.NewView(1024, 768, 22, 0), Viewport.EndKey, Viewport.Press, 5);
      RenderFrame(key, raster, order, shape, faceCount, repl, text, e, memo, atl) == Failure(LineOutOfRange(TWO_32 - 29))
  {
    Viewport.EndOnShortFileDrawsPastEnd();
    assert Viewport.DrawnLines(TWO_32 - 29, TWO_32 - 24)[0] == TWO_32 - 29;
  }

  /**
   * With the clamped End, the frame after any key from a safe view fails
   * only on the resolver's assertion, however far the key moved the view.
   */
  lemma ClampedKeyFrameSucceeds(key: KeyFn, raster: Raster, order: Order, shape: Shaper, faceCount: nat, repl: nat,
                                text: seq<string>, v: Viewport.View, k: Viewport.Key, action: Viewport.Action,
                                memo: Shaping.Memo, atl: Atlases)
    requires Orders(order) && atl.mono.depth > 0 && atl.color.depth > 0
    requires Viewport.WellTyped(v) && Viewport.SafeView(v, |text|) && |text| < TWO_31 && v.visible < TWO_31
    requires Shaping.Coherent(memo, shape, faceCount, repl) && PackedPair(atl)
    ensures var r := RenderFrame(key, raster, order, shape, faceCount, repl, text,
                                 Viewport.OnKeyClamped(v, k, action, |text|), memo, atl);
      && (r.Success? || r.error.ShapeFailed?)
      && (r.Success? ==> Shaping.Coherent(r.value.memo, shape, faceCount, repl) && PackedPair(r.value.atlases))
  {
    Viewport.OnKeyClampedKeepsSafe(v, k, action, |text|);
    SafeViewFrameSucceeds(key, raster, order, shape, faceCount, repl, text,
                          Viewport.OnKeyClamped(v, k, action, |text|), memo, atl);
  }

  /** With the clamped resize, the frame after any window size fails only on the resolver's assertion. */
  lemma ClampedResizeFrameSucceeds(key: KeyFn, raster: Raster, order: Order, shape: Shaper, faceCount: nat, repl: nat,
                                   text: seq<string>, v: Viewport.View, width: int, height: int,
                                   memo: Shaping.Memo, atl: Atlases)
    requires Orders(order) && atl.mono.depth > 0 && atl.color.depth > 0
    requires Viewport.WellTyped(v) && 0 <= v.start && IsU32(width) && IsU32(height) && |text| < TWO_31
    requires Shaping.Coherent(memo, shape, faceCount, repl) && PackedPair(atl)
    ensures var r := RenderFrame(key, raster, order, shape, faceCount, repl, text,
                                 Viewport.UpdateDimensionsClamped(v, width, height, |text|), memo, atl);
      && (r.Success? || r.error.ShapeFailed?)
      && (r.Success? ==> Shaping.Coherent(r.value.memo, shape, faceCount, repl) && PackedPair(r.value.atlases))
  {
    SafeViewFrameSucceeds(key, raster, order, shape, faceCount, repl, text,
                          Viewport.UpdateDimensionsClamped(v, width, height, |text|), memo, atl);
  }

  /** `Render` of `main.cc`: the lines `[start_line, start_line + visible_lines)` of the global state. */
  function LegacyRenderFrame(key: KeyFn, raster: Raster, order: Order, shape: Shaper, faceCount: nat, repl: nat,
                             text: seq<string>, s: LegacyViewport.State, memo: Shaping.Memo, atl: Atlases): (r: Result<Frame, FrameError>)
    requires Orders(order) && atl.mono.depth > 0 && atl.color.depth > 0
    requires LegacyViewport.WellTyped(s)
    ensures LegacyViewport.SafeState(s) && s.lines < TWO_63 && r.Success? ==> |r.value.lines| == s.visible
  {
    RenderLines(key, raster, order, shape, faceCount, repl, text, LegacyViewport.DrawnLines(s), memo, atl)
  }

  /** In `main.cc` too, a safe state over the file's lines fails only on the resolver's assertion. */
  lemma LegacyFrameSucceeds(key: KeyFn, raster: Raster, order: Order, shape: Shaper, faceCount: nat, repl: nat,
                            text: seq<string>, s: LegacyViewport.State, memo: Shaping.Memo, atl: Atlases)
    requires Orders(order) && atl.mono.depth > 0 && atl.color.depth > 0
    requires LegacyViewport.WellTyped(s) && LegacyViewport.SafeState(s) && s.lines == |text| && |text| < TWO_63
    requires Shaping.Coherent(memo, shape, faceCount, repl) && PackedPair(atl)
    ensures var r := LegacyRenderFrame(key, raster, order, shape, faceCount, repl, text, s, memo, atl);
      && (r.Success? || r.error.ShapeFailed?)
      && (r.Success? ==> Shaping.Coherent(r.value.memo, shape, faceCount, repl) && PackedPair(r.value.atlases))
  {
    var ixs := LegacyViewport.DrawnLines(s);
    var r := RenderLines(key, raster, order, shape, faceCount, repl, text, ixs, memo, atl);
    Shaping.CoherentBalanced(memo, shape, faceCount, repl);
    RenderLinesSucceed(key, raster, order, shape, faceCount, repl, text, ixs, memo, atl, r);
    RenderLinesCoherent(key, raster, order, shape, faceCount, repl, text, ixs, memo, atl, r);
  }
}
