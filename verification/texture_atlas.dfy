/**
 * The codepoint -> texture-slot cache of `texture_atlas.cc`.
 *
 * An atlas owns a GPU texture array of `depth` slots (the constant
 * `kTextureDepth`, whose value is not part of this model) and maps each
 * cached glyph codepoint to its `Character` (metrics plus the slot it was
 * uploaded to) and a freshness bit. New glyphs take the next slot from the
 * monotonic counter `index` while the atlas is not full; once full, a stale
 * entry is erased and the new glyph inherits its slot. The GPU upload itself
 * is abstracted to "the glyph now lives in slot s".
 */
module GlyphAtlas {
  import opened Wrappers
  import opened MachineInt

  datatype Vec2 = Vec2(x: int, y: int)

  /**
   * A rasterised glyph's metadata: pixel size, bearing, advance (26.6 fixed
   * point, as FreeType reports it), whether it is a color glyph, and the
   * texture-array slot it lives in. The normalised texture coordinates and
   * the GL texture name are floating-point / GL state and are not modelled.
   */
  datatype Character = Character(
    size: Vec2,
    bearing: Vec2,
    advance: nat,
    colored: bool,
    textureArrayIndex: nat)

  datatype Item = Item(character: Character, isFresh: bool)

  datatype Atlas = Atlas(depth: nat, cache: map<nat, Item>, index: nat)

  /** `pair<Character, vector<unsigned char>>`: a glyph ready for upload. */
  datatype Glyph = Glyph(character: Character, bitmap: seq<Byte>)

  /** The assertion `offset < kTextureDepth` of the upload failed. */
  datatype InsertError = SlotOutOfRange(slot: nat)

  /** The slot of a cached codepoint. */
  function SlotOf(a: Atlas, cp: nat): nat
    requires cp in a.cache
  {
    a.cache[cp].character.textureArrayIndex
  }

  /** The set of slots in use. */
  function Slots(a: Atlas): set<nat>
  {
    set cp | cp in a.cache :: SlotOf(a, cp)
  }

  /** The slots 0 .. n-1. */
  function SlotRange(n: nat): (r: set<nat>)
    ensures forall i: nat :: i in r <==> i < n
  {
    if n == 0 then {} else SlotRange(n - 1) + {n - 1}
  }

  /**
   * The invariant every atlas built by these operations keeps: at most
   * `depth` entries, every slot below the counter, the counter at most
   * `depth`, and no two entries sharing a slot.
   */
  predicate Valid(a: Atlas)
  {
    && |a.cache| <= a.depth
    && a.index <= a.depth
    && (forall cp :: cp in a.cache ==> SlotOf(a, cp) < a.index)
    && (forall cp1, cp2 :: cp1 in a.cache && cp2 in a.cache && cp1 != cp2 ==> SlotOf(a, cp1) != SlotOf(a, cp2))
  }

  /**
   * The stronger invariant of an atlas into which only absent codepoints were
   * ever inserted: the live slots are exactly 0 .. size-1 and the counter
   * equals the size.
   */
  predicate Packed(a: Atlas)
  {
    && Valid(a)
    && a.index == |a.cache|
    && Slots(a) == SlotRange(|a.cache|)
  }

  /** The constructor: an empty atlas over `depth` slots. */
  function NewAtlas(depth: nat): (a: Atlas)
    ensures Packed(a) && a.depth == depth && |a.cache| == 0
  {
    Atlas(depth, map[], 0)
  }

  /** Pure membership. */
  predicate Contains(a: Atlas, cp: nat)
  {
    cp in a.cache
  }

  predicate IsFull(a: Atlas)
  {
    |a.cache| == a.depth
  }

  predicate IsStale(a: Atlas, cp: nat)
  {
    cp in a.cache && !a.cache[cp].isFresh
  }

  /** A direct scan of the entries: no counter is kept. */
  predicate ContainsStale(a: Atlas)
  {
    exists cp | cp in a.cache :: !a.cache[cp].isFresh
  }

  /** `Get`: a hit marks the entry fresh and returns its character; a miss changes nothing. */
  function Get(a: Atlas, cp: nat): (r: (Atlas, Option<Character>))
    ensures r.1.Some? <==> Contains(a, cp)
    ensures r.1.None? ==> r.0 == a
    ensures r.1.Some? ==>
      && r.1.value == a.cache[cp].character
      && r.0 == a.(cache := a.cache[cp := Item(a.cache[cp].character, true)])
    ensures Valid(a) ==> Valid(r.0)
    ensures Packed(a) ==> Packed(r.0)
    ensures r.0.cache.Keys == a.cache.Keys && r.0.depth == a.depth
  {
    if cp in a.cache then
      var a' := a.(cache := a.cache[cp := Item(a.cache[cp].character, true)]);
      assert Slots(a') == Slots(a) by {
        assert forall k :: k in a.cache ==> SlotOf(a', k) == SlotOf(a, k);
      }
      (a', Some(a.cache[cp].character))
    else (a, None)
  }

  /** A cached glyph lies in a slot the counter has already handed out, inside the texture. */
  lemma CachedSlotIssued(a: Atlas, cp: nat)
    requires Valid(a) && Contains(a, cp)
    ensures SlotOf(a, cp) < a.index <= a.depth
  {
  }

  /**
   * In a packed atlas `IsFull` is exactly "the counter has reached the
   * depth", so a packed atlas that is not full can append. A merely valid
   * atlas can be not full with its counter spent (see ReinsertExhaustsCounter).
   */
  lemma FullPackedCounterSpent(a: Atlas)
    requires Packed(a)
    ensures IsFull(a) <==> a.index == a.depth
    ensures !IsFull(a) ==> a.index < a.depth
  {
  }

  /**
   * An entry is stale exactly when `Get` of it changes the atlas (it sets the
   * flag); a stale entry is cached and makes `Contains_stale` hold.
   */
  lemma StaleIffGetChanges(a: Atlas, cp: nat)
    ensures IsStale(a, cp) <==> Get(a, cp).0 != a
    ensures IsStale(a, cp) ==> Contains(a, cp) && ContainsStale(a)
  {
  }

  /** `Invalidate`: every entry becomes stale; nothing is removed, no slot or character changes. */
  function Invalidate(a: Atlas): (r: Atlas)
    ensures r.depth == a.depth && r.index == a.index
    ensures r.cache.Keys == a.cache.Keys
    ensures forall cp :: cp in r.cache ==> r.cache[cp] == Item(a.cache[cp].character, false)
    ensures Valid(a) ==> Valid(r)
    ensures Packed(a) ==> Packed(r)
  {
    var r := a.(cache := map cp | cp in a.cache :: Item(a.cache[cp].character, false));
    assert |r.cache| == |a.cache| by {
      assert r.cache.Keys == a.cache.Keys;
    }
    assert Slots(r) == Slots(a) by {
      assert forall k :: k in a.cache ==> SlotOf(r, k) == SlotOf(a, k);
    }
    r
  }

  /**
   * The upload `Insert(bitmap, width, height, ch, offset)`: the slot must be
   * below `depth` (an assertion in the source); the character records it.
   */
  function Upload(depth: nat, ch: Character, slot: nat): (r: Result<Character, InsertError>)
    ensures r.Success? <==> slot < depth
    ensures r.Success? ==> r.value == ch.(textureArrayIndex := slot)
  {
    if slot < depth then Success(ch.(textureArrayIndex := slot)) else Failure(SlotOutOfRange(slot))
  }

  /**
   * `Append`: upload into slot `index`, advance the counter, store the entry
   * fresh. Returns the atlas and the character as uploaded.
   */
  function Append(a: Atlas, cp: nat, g: Glyph): (r: Result<(Atlas, Character), InsertError>)
    ensures r.Failure? <==> a.index >= a.depth
    ensures r.Success? ==>
      && r.value.1 == g.character.(textureArrayIndex := a.index)
      && r.value.0 == Atlas(a.depth, a.cache[cp := Item(r.value.1, true)], a.index + 1)
  {
    match Upload(a.depth, g.character, a.index)
    case Failure(e) => Failure(e)
    case Success(ch) => Success((Atlas(a.depth, a.cache[cp := Item(ch, true)], a.index + 1), ch))
  }

  /**
   * `Replace`: upload into the slot of `stale`, erase `stale`, store the new
   * entry fresh. The counter does not move.
   */
  function Replace(a: Atlas, stale: nat, cp: nat, g: Glyph): (r: Result<(Atlas, Character), InsertError>)
    requires stale in a.cache
    ensures r.Failure? <==> SlotOf(a, stale) >= a.depth
    ensures r.Success? ==>
      && r.value.1 == g.character.(textureArrayIndex := SlotOf(a, stale))
      && r.value.0 == Atlas(a.depth, (a.cache - {stale})[cp := Item(r.value.1, true)], a.index)
  {
    match Upload(a.depth, g.character, SlotOf(a, stale))
    case Failure(e) => Failure(e)
    case Success(ch) => Success((Atlas(a.depth, (a.cache - {stale})[cp := Item(ch, true)], a.index), ch))
  }

  /** Appending to a valid atlas with a free counter value succeeds and keeps it valid. */
  lemma AppendKeepsValid(a: Atlas, cp: nat, g: Glyph)
    requires Valid(a) && !IsFull(a) && a.index < a.depth
    ensures Append(a, cp, g).Success?
    ensures Valid(Append(a, cp, g).value.0)
  {
    var r := Append(a, cp, g).value.0;
    assert SlotOf(r, cp) == a.index;
    assert forall k :: k in r.cache && k != cp ==> SlotOf(r, k) == SlotOf(a, k);
    assert |r.cache| <= |a.cache| + 1;
  }

  /** Appending an absent codepoint grows the atlas by exactly one entry. */
  lemma AppendGrows(a: Atlas, cp: nat, g: Glyph)
    requires a.index < a.depth && cp !in a.cache
    ensures Append(a, cp, g).Success?
    ensures |Append(a, cp, g).value.0.cache| == |a.cache| + 1
  {
    SlotsOfNewEntry(a, Append(a, cp, g).value.0, cp);
  }

  /** In a packed atlas, the appended entry takes the slot equal to the old size. */
  lemma AppendSlots(a: Atlas, cp: nat, g: Glyph)
    requires a.index == |a.cache| < a.depth && cp !in a.cache
    requires Slots(a) == SlotRange(|a.cache|)
    ensures Append(a, cp, g).Success?
    ensures Slots(Append(a, cp, g).value.0) == SlotRange(|a.cache| + 1)
  {
    var r := Append(a, cp, g).value.0;
    assert SlotOf(r, cp) == |a.cache|;
    SlotsOfNewEntry(a, r, cp);
    assert SlotRange(|a.cache| + 1) == SlotRange(|a.cache|) + {|a.cache|};
  }

  /**
   * Appending an absent codepoint to a packed atlas that is not full
   * succeeds, grows it by one, and keeps it packed: the new slot is the old
   * size.
   */
  lemma AppendKeepsPacked(a: Atlas, cp: nat, g: Glyph)
    requires Packed(a) && !IsFull(a) && cp !in a.cache
    ensures Append(a, cp, g).Success?
    ensures Packed(Append(a, cp, g).value.0)
    ensures |Append(a, cp, g).value.0.cache| == |a.cache| + 1
  {
    AppendKeepsValid(a, cp, g);
    AppendGrows(a, cp, g);
    AppendSlots(a, cp, g);
  }

  /** Adding an absent codepoint adds exactly its slot to the slots in use. */
  lemma SlotsOfNewEntry(a: Atlas, r: Atlas, cp: nat)
    requires cp !in a.cache && r.cache.Keys == a.cache.Keys + {cp}
    requires forall k :: k in a.cache ==> r.cache[k] == a.cache[k]
    ensures Slots(r) == Slots(a) + {SlotOf(r, cp)}
    ensures |r.cache| == |a.cache| + 1
  {
    forall s | s in Slots(r) ensures s in Slots(a) + {SlotOf(r, cp)} {
      var k :| k in r.cache && SlotOf(r, k) == s;
      if k != cp {
        assert SlotOf(a, k) == s;
      }
    }
    forall s | s in Slots(a) ensures s in Slots(r) {
      var k :| k in a.cache && SlotOf(a, k) == s;
      assert SlotOf(r, k) == s;
    }
    assert r.cache.Keys == a.cache.Keys + {cp};
  }

  /**
   * Replacing a stale entry keeps a valid atlas valid; replacing it by an
   * absent codepoint keeps the size, and keeps a packed atlas packed.
   */
  lemma ReplaceKeepsInvariants(a: Atlas, stale: nat, cp: nat, g: Glyph)
    requires Valid(a) && stale in a.cache
    ensures Replace(a, stale, cp, g).Success?
    ensures Valid(Replace(a, stale, cp, g).value.0)
    ensures cp !in a.cache ==> |Replace(a, stale, cp, g).value.0.cache| == |a.cache|
    ensures Packed(a) && cp !in a.cache ==> Packed(Replace(a, stale, cp, g).value.0)
  {
    var r := Replace(a, stale, cp, g).value.0;
    assert SlotOf(r, cp) == SlotOf(a, stale);
    assert forall k :: k in r.cache && k != cp ==> k in a.cache && k != stale && SlotOf(r, k) == SlotOf(a, k);
    var removed := a.cache - {stale};
    assert |removed| == |a.cache| - 1;
    if cp !in a.cache {
      assert |r.cache| == |removed| + 1;
      ReplaceSlots(a, stale, cp, r);
    } else {
      assert |r.cache| <= |a.cache|;
    }
  }

  /** Handing the slot of `stale` to an absent codepoint leaves the set of slots in use as it was. */
  lemma ReplaceSlots(a: Atlas, stale: nat, cp: nat, r: Atlas)
    requires stale in a.cache && cp !in a.cache
    requires cp in r.cache && r.cache == (a.cache - {stale})[cp := r.cache[cp]] && SlotOf(r, cp) == SlotOf(a, stale)
    ensures Slots(r) == Slots(a)
  {
    forall t | t in Slots(r) ensures t in Slots(a) {
      var k :| k in r.cache && SlotOf(r, k) == t;
      if k == cp {
        assert SlotOf(a, stale) == t;
      } else {
        assert SlotOf(a, k) == t;
      }
    }
    forall t | t in Slots(a) ensures t in Slots(r) {
      var k :| k in a.cache && SlotOf(a, k) == t;
      if k == stale {
        assert SlotOf(r, cp) == t;
      } else {
        assert k in r.cache && SlotOf(r, k) == t;
      }
    }
  }

  /** `order` lists the atlas's keys: the iteration order of the map, which the model leaves open. */
  predicate Enumerates(a: Atlas, order: seq<nat>)
  {
    && (forall k :: k in order ==> k in a.cache)
    && (forall k :: k in a.cache ==> k in order)
  }

  /**
   * `Contains_stale` as written: a scan of the entries in iteration order
   * that stops at the first stale one.
   */
  function ScanForStale(a: Atlas, order: seq<nat>): (r: bool)
    ensures r <==> exists i :: 0 <= i < |order| && IsStale(a, order[i])
  {
    if |order| == 0 then false
    else if IsStale(a, order[0]) then true
    else
      var rest := ScanForStale(a, order[1..]);
      assert forall i :: 0 < i < |order| ==> order[i] == order[1..][i - 1];
      rest
  }

  /** The scan answers the membership question `ContainsStale`, whatever the iteration order. */
  lemma ScanForStaleIsContainsStale(a: Atlas, order: seq<nat>)
    requires Enumerates(a, order)
    ensures ScanForStale(a, order) <==> ContainsStale(a)
  {
    if ContainsStale(a) {
      var k :| k in a.cache && !a.cache[k].isFresh;
      assert k in order;
      var i :| 0 <= i < |order| && order[i] == k;
      assert IsStale(a, order[i]);
    }
  }

  /**
   * The victim search of `Insert` as written: every stale entry met
   * overwrites `found`, because the loop has no `break`.
   */
  function VictimScan(a: Atlas, order: seq<nat>, found: Option<nat>): (r: Option<nat>)
    ensures r.Some? ==> r == found || IsStale(a, r.value)
    ensures found.Some? ==> r.Some?
  {
    if |order| == 0 then found
    else VictimScan(a, order[1..], if IsStale(a, order[0]) then Some(order[0]) else found)
  }

  /**
   * The reference definition of the victim: the last stale entry in
   * iteration order, found by looking from the back.
   */
  function LastStale(a: Atlas, order: seq<nat>): (r: Option<nat>)
    ensures r.Some? <==> exists i :: 0 <= i < |order| && IsStale(a, order[i])
    ensures r.Some? ==> exists i :: 0 <= i < |order| && order[i] == r.value && IsStale(a, order[i])
                                   && (forall j :: i < j < |order| ==> !IsStale(a, order[j]))
  {
    if |order| == 0 then None
    else
      var last := order[|order| - 1];
      var front := order[..|order| - 1];
      assert forall i :: 0 <= i < |front| ==> front[i] == order[i];
      if IsStale(a, last) then Some(last) else LastStale(a, front)
  }

  /** Looking from the back agrees with peeling one entry off the front. */
  lemma {:induction false} LastStaleCons(a: Atlas, order: seq<nat>)
    requires |order| > 0
    ensures LastStale(a, order) ==
      if LastStale(a, order[1..]).Some? then LastStale(a, order[1..])
      else if IsStale(a, order[0]) then Some(order[0])
      else None
    decreases |order|
  {
    if |order| > 1 {
      var front := order[..|order| - 1];
      assert front[1..] == order[1..][..|order[1..]| - 1];
      assert order[1..][|order[1..]| - 1] == order[|order| - 1];
      assert front[0] == order[0];
      LastStaleCons(a, front);
    }
  }

  /** The scan as written returns the last stale entry in iteration order, or what it started with. */
  lemma {:induction false} VictimScanIsLastStale(a: Atlas, order: seq<nat>, found: Option<nat>)
    ensures VictimScan(a, order, found) == if LastStale(a, order).Some? then LastStale(a, order) else found
    decreases |order|
  {
    if |order| > 0 {
      LastStaleCons(a, order);
      VictimScanIsLastStale(a, order[1..], if IsStale(a, order[0]) then Some(order[0]) else found);
    }
  }

  /**
   * `Insert(codepoint, glyph)`. The caller must guarantee the atlas is not
   * full or holds a stale entry. Not full: append at the counter. Full:
   * replace the last stale entry in iteration order, reusing its slot.
   */
  function Insert(a: Atlas, cp: nat, g: Glyph, order: seq<nat>): (r: Result<(Atlas, Character), InsertError>)
    requires !IsFull(a) || ContainsStale(a)
    requires Enumerates(a, order)
    ensures !IsFull(a) ==> r == Append(a, cp, g)
    ensures IsFull(a) ==> LastStale(a, order).Some? && r == Replace(a, LastStale(a, order).value, cp, g)
  {
    if !IsFull(a) then Append(a, cp, g)
    else
      ScanForStaleIsContainsStale(a, order);
      VictimScanIsLastStale(a, order, None);
      var victim := VictimScan(a, order, None);
      Replace(a, victim.value, cp, g)
  }

  /**
   * What an insert changes, on any atlas: the codepoint is cached fresh with
   * the uploaded character, every other entry is one the atlas already had,
   * unchanged, no other key appears, and no fresh entry is evicted.
   */
  lemma InsertEntries(a: Atlas, cp: nat, g: Glyph, order: seq<nat>)
    requires (!IsFull(a) || ContainsStale(a)) && Enumerates(a, order)
    ensures Insert(a, cp, g, order).Success? ==>
      var (r, ch) := Insert(a, cp, g, order).value;
      && r.depth == a.depth
      && cp in r.cache && r.cache[cp] == Item(ch, true)
      && ch == g.character.(textureArrayIndex := ch.textureArrayIndex)
      && r.cache.Keys <= a.cache.Keys + {cp}
      && (forall k :: k in r.cache && k != cp ==> r.cache[k] == a.cache[k])
      && (forall k :: k in a.cache && a.cache[k].isFresh ==> k in r.cache)
  {
  }

  /**
   * On a valid atlas, `Insert` fails (the slot assertion of the upload
   * fires) exactly when the atlas is not full but the counter has run out;
   * on success the codepoint is cached fresh with the uploaded character,
   * the atlas stays valid, and every other fresh entry survives unchanged.
   */
  lemma InsertOutcome(a: Atlas, cp: nat, g: Glyph, order: seq<nat>)
    requires Valid(a) && (!IsFull(a) || ContainsStale(a)) && Enumerates(a, order)
    ensures Insert(a, cp, g, order).Success? <==> IsFull(a) || a.index < a.depth
    ensures Insert(a, cp, g, order).Success? ==>
      var (r, ch) := Insert(a, cp, g, order).value;
      && Valid(r) && r.depth == a.depth
      && cp in r.cache && r.cache[cp] == Item(ch, true)
      && ch == g.character.(textureArrayIndex := ch.textureArrayIndex)
      && ch.textureArrayIndex < a.depth
      && (forall k :: k in a.cache && k != cp && a.cache[k].isFresh ==> k in r.cache && r.cache[k] == a.cache[k])
  {
    if !IsFull(a) {
      if a.index < a.depth {
        AppendKeepsValid(a, cp, g);
      }
    } else {
      var stale := LastStale(a, order).value;
      ReplaceKeepsInvariants(a, stale, cp, g);
    }
  }

  /**
   * If only absent codepoints are inserted, a packed atlas stays packed:
   * the insert always succeeds, so the slot assertion never fires; the atlas
   * grows by one until it is full and then keeps its size.
   */
  lemma InsertKeepsPacked(a: Atlas, cp: nat, g: Glyph, order: seq<nat>)
    requires Packed(a) && (!IsFull(a) || ContainsStale(a)) && Enumerates(a, order)
    requires cp !in a.cache
    ensures Insert(a, cp, g, order).Success?
    ensures Packed(Insert(a, cp, g, order).value.0)
    ensures |Insert(a, cp, g, order).value.0.cache| == if IsFull(a) then |a.cache| else |a.cache| + 1
  {
    if !IsFull(a) {
      AppendKeepsPacked(a, cp, g);
    } else {
      ReplaceKeepsInvariants(a, LastStale(a, order).value, cp, g);
    }
  }

  /** An atlas of two slots after inserting codepoint 7 twice: one entry, counter spent. */
  const ReinsertedTwice := Atlas(2, map[7 := Item(Character(Vec2(0, 0), Vec2(0, 0), 0, false, 1), true)], 2)

  /**
   * Re-inserting a codepoint that is already cached, while the atlas is not
   * full, still advances the counter: after inserting 7 twice into a
   * two-slot atlas, inserting 8 trips the slot assertion of the upload.
   * The renderer only inserts codepoints that both lookups missed, which is
   * what `InsertKeepsPacked` assumes.
   */
  lemma ReinsertExhaustsCounter()
    ensures
      var g := Glyph(Character(Vec2(0, 0), Vec2(0, 0), 0, false, 0), []);
      var a1 := Insert(NewAtlas(2), 7, g, []);
      && a1.Success?
      && Insert(a1.value.0, 7, g, [7]).Success?
      && Insert(a1.value.0, 7, g, [7]).value.0 == ReinsertedTwice
      && Insert(ReinsertedTwice, 8, g, [7]) == Failure(SlotOutOfRange(2))
  {
    var g := Glyph(Character(Vec2(0, 0), Vec2(0, 0), 0, false, 0), []);
    var a1 := Insert(NewAtlas(2), 7, g, []);
    assert a1.value.0 == Atlas(2, map[7 := Item(Character(Vec2(0, 0), Vec2(0, 0), 0, false, 0), true)], 1);
    assert |a1.value.0.cache| == 1;
    assert |ReinsertedTwice.cache| == 1;
  }
}
