# freetype-opengl-experiments: a Dafny model of the caching and assignment core

This project models the sequential logic of a small OpenGL text viewer. The viewer shapes each line of
a file with HarfBuzz, rasterises glyphs with FreeType, and draws them from GPU texture arrays. The
model covers:

- **`LRUFreshnessCache`** (`FreshnessCache`): a generic fixed-capacity LRU cache. Each key has a
  freshness flag, and a `fresh_count_` counter gates admission. The counter is modelled exactly as
  written, drift included. `FreshnessCacheTrace` replays the cache's unit test call by call.
- **The `TextureAtlas` slot cache** (`GlyphAtlas`): maps a codepoint to a `Character` and a
  freshness bit. A monotonic counter hands out slots. When the atlas is full, a stale entry is replaced
  and the new glyph reuses its slot.
- **`AssignCodepointsFaces`** (`FaceFallback`): per shaped position, the first face in priority order
  with a non-zero glyph. The pass stops early, and positions no face can render become U+FFFD in face 0.
  `main.cc` holds the same code, and the same model covers both copies.
- **The shaping memo** (`Shaping`): line contents mapped to the resolved pair. It is never evicted.
- **The renderer's batch loop** (`Renderer`): look the glyph up in atlas 0, then atlas 1. Insert it
  only when both atlases have room; otherwise cut the batch there. Both atlases are invalidated after
  every draw call. The module also covers the visible line range, the per-character texture ids, and
  the older `RenderLine`/`Render` of `main.cc`.
- **The byte repacking of `RenderGlyph`** (`GlyphRaster`): strips the row padding of an LCD bitmap,
  copies a BGRA bitmap, and computes the glyph size and `Character`.
- **The viewport** (`Viewport`) of `state.cc`/`state.h` and the key and scroll guards of
  `callbacks.h`. C++ `unsigned int`/`int` wrap-around is written out (`MachineInt`). `LegacyViewport`
  models the global `size_t`/`ssize_t` state of `main.cc`.
- **The older shelf allocator** of `texture_atlas.h` (`ShelfAtlas`).

FreeType and HarfBuzz enter as parameters:

- `shape(face, text)` is the glyph run of a line;
- `raster(face, glyph)` is a rendered glyph;
- `repl` is face 0's glyph for U+FFFD.

The unordered maps' iteration order is also a parameter, `order`.

## Model

| member | source | states |
|---|---|---|
| FreshnessCache.Empty | src/lru_freshness_cache.h:26 | A new cache is valid and empty, reports nothing stale, and is full only when its capacity is 0. |
| FreshnessCache.MoveToFront | src/lru_freshness_cache.h:34-42 | The pair goes to the front. The rest is the old queue without that key, in order. Keys stay distinct, and the size grows only for a new key. |
| FreshnessCache.PutNoEviction | src/lru_freshness_cache.h:34-47 | With room or a present key: the key goes in front with its new value and its flag set. The counter grows only if the flag was not already set. Validity is kept. |
| FreshnessCache.PutEvicting | src/lru_freshness_cache.h:49-57 | A new key into a full cache: the size stays at capacity and the old tail (never the new key) loses its entry and its flag. The counter goes up and back down, so it never underflows. |
| FreshnessCache.Put | src/lru_freshness_cache.h:28-60 | Refused, with the cache unchanged, exactly when it is full and the counter reports nothing stale, even for a present key. Otherwise: the key is in front, fresh, with the new value; the others keep their order; the size never exceeds capacity; an overflowing insert evicts exactly the tail, whatever its flag; the abstract map is updated at the key, minus the tail; other flags are untouched; the counter rises unless the flag was set and falls on eviction. |
| FreshnessCache.Get | src/lru_freshness_cache.h:62-75 | A miss happens exactly for an absent key and changes nothing. A hit returns the stored value, moves the key to the front and sets its flag. The counter is bumped even when the flag was already set. Values and size are unchanged. |
| FreshnessCache.Invalidate | src/lru_freshness_cache.h:84-89 | Every flag is cleared, the counter becomes 0, and keys, values and order are untouched. Afterwards `contains_stale()` holds exactly when the cache is non-empty. |
| FreshnessCache.IsFresh | src/lru_freshness_cache.h:83 | `fresh.at(key)`: the key's flag, or nothing exactly where `at` throws `std::out_of_range` because the key has no flag. |
| FreshnessCache.QueriesAgree | src/lru_freshness_cache.h:77-83 | On a valid cache, `size()` counts the keys of the position map and of the flag map alike and never exceeds the capacity. `exists(key)` holds exactly when some queue entry carries the key, which is exactly when `is_fresh(key)` does not throw. A cache that is not `full()` has room for one more key. |
| FreshnessCache.ContainsStaleCountsKeys | src/lru_freshness_cache.h:81 | `contains_stale()` holds exactly when the counter is below the number of keys. It is false on an empty cache whatever the counter says. |
| FreshnessCacheTrace.Run | src/lru_freshness_cache.h:28-89 | After any sequence of put/get/invalidate calls, the cache is valid and its size is within capacity. |
| FreshnessCacheTrace.StepPutA | test/all.cc:14-19 | `put("a", 17)` into the empty 3-entry cache gives the queue `[a]` with `a` fresh and the counter at 1. |
| FreshnessCacheTrace.StepPutB | test/all.cc:21-28 | `put("b", -12)` gives `[b, a]`, counter 2. |
| FreshnessCacheTrace.StepPutC | test/all.cc:30-39 | `put("c", 43)` gives `[c, b, a]`, counter 3, full. |
| FreshnessCacheTrace.StepGetA | test/all.cc:41 | `get("a")` returns 17 and gives `[a, c, b]`, counter 4. |
| FreshnessCacheTrace.StepGetAAgain | test/all.cc:42 | A second `get("a")` still bumps the counter, to 5. |
| FreshnessCacheTrace.StepGetC | test/all.cc:43-44 | `get("c")` gives the order `c a b`, counter 6. |
| FreshnessCacheTrace.StepRefuseD | test/all.cc:46-50 | `put("d")` is refused and changes nothing. `invalidate()` clears every flag and the counter. |
| FreshnessCacheTrace.ValidThree | src/lru_freshness_cache.h:21-23 | Three distinct keys, flagged exactly, make a valid full 3-entry cache. |
| FreshnessCacheTrace.PutEvictsThird | src/lru_freshness_cache.h:49-57 | A new key into a full 3-entry cache that reports staleness: the key goes in front, the tail and its flag go, and the counter is unchanged. |
| FreshnessCacheTrace.StepPutD | test/all.cc:52 | After invalidate, `put("d")` gives `[d, c, a]`: b evicted, d fresh, counter 0. |
| FreshnessCacheTrace.StepPutE | test/all.cc:63 | `put("e")` gives `[e, d, c]`: a evicted. |
| FreshnessCacheTrace.StepPutF | test/all.cc:74 | `put("f")` gives `[f, e, d]`: c evicted. |
| FreshnessCacheTrace.DoctestFillAndRefuse | test/all.cc:6-50 | The first half of the unit test: put a, b, c; get a, a, c. The cache is full, the counter says nothing is stale, put d is refused, and invalidate makes staleness visible. |
| FreshnessCacheTrace.DoctestPutDEvictsB | test/all.cc:52-61 | The tail b is evicted whatever its flag. d is fresh; c and a are stale; the cache is full and reports staleness. |
| FreshnessCacheTrace.DoctestPutEEvictsA | test/all.cc:63-72 | Next the tail a is evicted. e and d are fresh, c stale. |
| FreshnessCacheTrace.DoctestPutFEvictsC | test/all.cc:74-83 | c is evicted. d, e and f are all fresh, yet `contains_stale()` holds because the counter has drifted to 0. |
| GlyphAtlas.NewAtlas | src/texture_atlas.cc:6-14 | A new atlas is empty and packed: no slot in use, counter 0. |
| GlyphAtlas.Get | src/texture_atlas.cc:76-83 | A hit happens exactly for a cached codepoint. It returns that entry's character, marks it fresh and changes nothing else. A miss changes nothing. Validity and packing are kept. |
| GlyphAtlas.Invalidate | src/texture_atlas.cc:117-121 | Every entry becomes stale. No entry is removed and no character or slot changes. Validity and packing are kept. |
| GlyphAtlas.CachedSlotIssued | src/texture_atlas.cc:72-74 | A cached codepoint lies in a slot the counter has already handed out, inside the texture. |
| GlyphAtlas.FullPackedCounterSpent | src/texture_atlas.cc:106-108 | In a packed atlas, `IsFull` holds exactly when the counter has reached the depth, so a packed atlas that is not full can still append. |
| GlyphAtlas.StaleIffGetChanges | src/texture_atlas.cc:110-115 | An entry is stale exactly when `Get` of it changes the atlas. A stale entry is cached and makes `Contains_stale` hold. |
| GlyphAtlas.Upload | src/texture_atlas.cc:30-49 | The upload succeeds exactly when the slot is below the texture depth (the assertion). The character then records that slot. |
| GlyphAtlas.Append | src/texture_atlas.cc:51-58 | Fails exactly when the counter has reached the depth. Otherwise the entry is stored fresh in slot `index` and the counter is incremented. |
| GlyphAtlas.Replace | src/texture_atlas.cc:60-70 | The new entry takes the stale entry's slot and is stored fresh. The stale entry is erased and the counter does not move. |
| GlyphAtlas.AppendKeepsPacked | src/texture_atlas.cc:51-58 | Appending an absent codepoint to a packed, non-full atlas succeeds, grows it by one and keeps the live slots exactly 0..size-1. |
| GlyphAtlas.ReplaceKeepsInvariants | src/texture_atlas.cc:60-70 | Replacing a stale entry always succeeds and keeps slots distinct and below the counter. For an absent codepoint it keeps the size and the packing. |
| GlyphAtlas.ScanForStale | src/texture_atlas.cc:110-115 | The early-exit scan answers whether some listed entry is stale. |
| GlyphAtlas.ScanForStaleIsContainsStale | src/texture_atlas.cc:110-115 | Whatever the iteration order, the scan is true exactly when some entry is stale. |
| GlyphAtlas.VictimScan | src/texture_atlas.cc:93-100 | The scan without `break` returns what it started with or a stale entry, and finds something whenever it started with something. |
| GlyphAtlas.LastStale | src/texture_atlas.cc:95-100 | Reference definition: the last stale entry in iteration order; nothing when no entry is stale. |
| GlyphAtlas.VictimScanIsLastStale | src/texture_atlas.cc:91-101 | The scan as written picks the last stale entry in iteration order. |
| GlyphAtlas.Insert | src/texture_atlas.cc:85-104 | Under the asserted precondition (not full, or holding a stale entry): a non-full atlas appends, and a full one replaces the last stale entry, which exists. |
| GlyphAtlas.InsertEntries | src/texture_atlas.cc:85-104 | On any atlas, an insert caches the codepoint fresh with the uploaded character and adds no other key. Every other entry is unchanged and no fresh entry is evicted. |
| GlyphAtlas.InsertOutcome | src/texture_atlas.cc:33 | On a valid atlas that meets the asserted precondition, the slot assertion fires exactly when the atlas is not full and the counter has run out. On success the atlas stays valid, the slot is below the depth, and every other fresh entry survives. |
| GlyphAtlas.InsertKeepsPacked | src/texture_atlas.cc:87-103 | If only absent codepoints are inserted, the insert always succeeds and the live slots stay exactly 0..size-1. The size grows by one until the atlas is full, then stays. |
| GlyphAtlas.ReinsertExhaustsCounter | src/texture_atlas.cc:53 | Re-inserting a cached codepoint still spends a counter value. After inserting 7 twice into a two-slot atlas, inserting 8 trips the slot assertion. |
| FaceFallback.Resize | src/face_collection.cc:93-97 | `resize(n, fill)` keeps the first entries and pads with `fill` up to length n. |
| FaceFallback.PassFrom | src/face_collection.cc:102-123 | In one face's pass, an unassigned position with a non-zero glyph takes that face and glyph, and every other position is untouched. The flag is raised exactly when a zero glyph meets a still-missing position. |
| FaceFallback.FaceLoop | src/face_collection.cc:54-127 | The outer loop shapes faces from i on, stopping when faces run out or a pass leaves no gap. A failure names a face after the first. |
| FaceFallback.ReplaceMissing | src/face_collection.cc:129-139 | Positions still holding both sentinels become face 0 with the U+FFFD glyph. All other entries are kept. |
| FaceFallback.Resolve | src/face_collection.cc:46-140 | The whole resolver: never more faces shaped than exist, balanced output with at least one face, failure only at a later face's run-length assertion. |
| FaceFallback.FirstHit | src/face_collection.cc:110-114 | Reference definition: the first face in priority order whose glyph at the position is non-zero. |
| FaceFallback.PassStep | src/face_collection.cc:102-123 | One pass takes the pair from "first hit among s faces" to "first hit among s+1 faces". The flag reports exactly whether a position still lacks a glyph. |
| FaceFallback.LoopOutcome | src/face_collection.cc:53-55 | From the loop invariant, the loop yields the first-hit pair over the faces shaped, equal run lengths, and an early exit only once every position is covered. A run-length failure comes at the first mismatching face. |
| FaceFallback.ResolveFresh | src/main.cc:163-256 | From an empty pair, each position gets the first face with a glyph there and that glyph, or face 0 and U+FFFD when no face has one. Both sequences have the first run's length. Shaping stops exactly after the first pass that leaves no gap. Failure happens exactly at the first run of a different length. |
| FaceFallback.NoSentinelSurvives | src/face_collection.cc:49-50 | With at least one face and glyph ids below the sentinel, no sentinel survives and every face index names an existing face. |
| FaceFallback.NoFacesLeavesPair | src/face_collection.cc:54 | With no faces nothing is shaped, and the pair passed in comes back unchanged. |
| FaceFallback.StalePairLeaks | src/face_collection.cc:94-96 | A non-empty pair passed in is not reset: `resize` only fills new positions, so a face index beyond the face list survives. |
| Shaping.Lookup | src/renderer.cc:31-38 | A hit returns the stored pair and leaves the memo alone. A miss resolves the line from an empty pair, stores it under the exact line, and fails only when the resolver fails. No entry is ever removed or changed. |
| Shaping.LookupCoherent | src/main.cc:528-535 | From a memo that agrees with the resolver, a lookup returns exactly what resolving afresh returns and keeps the memo in agreement. |
| Shaping.CoherentBalanced | src/shaping_cache.h:17-18 | A memo that agrees with the resolver holds only pairs with a face per glyph. |
| Shaping.LookupBalanced | src/renderer.cc:33-35 | A lookup keeps every stored pair with a face per glyph and returns such a pair. |
| Shaping.ResolvedLengths | src/face_collection.cc:93-98 | A pair resolved from an empty pair has a face for every glyph. |
| Shaping.LookupTwice | src/renderer.cc:36-37 | Looking the same line up again returns the same pair and changes nothing. |
| Renderer.Step | src/renderer.cc:57-88 | One position: atlas 0, then atlas 1. It is `Full` (the `break`) exactly on a double miss without room in both atlases. It fails only on a double miss. A drawn glyph is then cached in one of them, and the depths are unchanged. |
| Renderer.Cons | src/renderer.cc:85 | The character joins the batch in front of the rest, and failures pass through. |
| Renderer.Batch | src/renderer.cc:53-89 | A batch draws one character per position it passes and stops either at the line's end or at a double miss with an atlas out of room. It passes at least one position when both atlases have room. |
| Renderer.StepKeepsPacked | src/renderer.cc:71-85 | The guard discharges `Insert`'s precondition and only a double miss is inserted. So from packed atlases a step never trips the slot assertion and keeps both packed, with no key in both. |
| Renderer.BatchKeepsPacked | src/renderer.cc:56-89 | From packed atlases a batch always succeeds and leaves both atlases packed. |
| Renderer.StepKeepsFresh | src/renderer.cc:59-85 | A step keeps every fresh entry and leaves the drawn character cached fresh under the position's key. |
| Renderer.BatchKeepsFresh | src/renderer.cc:53-89 | Every character a batch collects is still cached fresh, in the slot it was drawn from, when the batch is drawn. Entries fresh before the batch survive. |
| Renderer.InsertKeepsFaithful | src/texture_atlas.cc:85-104 | Under a key that tells glyphs apart, an insert uploads the glyph it was given and every entry holds the glyph of its key. |
| Renderer.StepFaithful | src/renderer.cc:57-85 | Under such a key, a step draws the glyph of its own position. |
| Renderer.BatchFaithful | src/renderer.cc:56-89 | Under such a key, every character of a batch is the glyph of its position. |
| Renderer.FaceGlyphKeyInjective | src/face_collection.cc:110-113 | Face and glyph index together tell glyphs apart. The glyph index alone does not. |
| Renderer.AliasedGlyphDrawsOtherFace | src/renderer.cc:57-69 | Keyed by glyph index alone, glyph 36 of face 1 hits face 0's glyph 36 and is drawn as that glyph. |
| Renderer.FaceGlyphKeyDrawsOwnFace | src/renderer.cc:76-79 | Keyed by face and glyph, each drawn character is the glyph of its own position. |
| Renderer.InvalidateMakesRoom | src/renderer.cc:211-213 | An invalidated atlas with at least one slot has room. |
| Renderer.HasRoomLetsInsert | src/renderer.cc:71-75 | For a packed atlas, the guard holds exactly when a counter slot is free or an entry can be replaced. With room, inserting any codepoint succeeds. Without room, the atlas is full and every entry is fresh. |
| Renderer.InvalidateBoth | src/renderer.cc:211-213 | Both atlases are invalidated after a draw call, and both then have room. |
| Renderer.ConcatCons | src/renderer.cc:53 | The characters of a line are the first batch's, then the rest's. |
| Renderer.RenderLine | src/renderer.cc:49-89 | Batch after batch, each followed by invalidation, until the line ends. It draws one character per position. After a non-empty line every entry of both atlases is stale and both have room. |
| Renderer.RenderLineProgress | src/main.cc:346-382 | Only the first batch of a line can be empty, and only when the line starts with an atlas out of room. Every later batch draws at least one glyph. |
| Renderer.RenderLineSucceeds | src/main.cc:349-382 | From packed atlases with a slot each, every line renders and the atlases stay packed. |
| Renderer.RenderLineUnfold | src/renderer.cc:53-56 | A rendered line is its first batch followed by the rest of the line from where that batch stopped. |
| Renderer.RenderLineFaithful | src/main.cc:501-503 | Under a key that tells glyphs apart, a line's characters across batches are the glyphs of its positions, in order. |
| Renderer.InvalidateKeepsFaithful | src/texture_atlas.cc:117-121 | Invalidation keeps every entry's glyph. |
| Renderer.SameGlyphCons | src/renderer.cc:85 | A drawn glyph in front of a faithful rest gives a faithful batch. |
| Renderer.SameGlyphAppend | src/renderer.cc:53 | Two faithful consecutive runs of batches give a faithful line. |
| Renderer.FreshCons | src/renderer.cc:59-85 | A fresh drawn character in front of a fresh rest gives a fresh batch. |
| Renderer.InsertColorKeepsPacked | src/renderer.cc:80-81 | A color glyph missed by both atlases goes into atlas 1 and keeps the pair packed. |
| Renderer.InsertMonoKeepsPacked | src/renderer.cc:82-83 | A monochrome glyph missed by both atlases goes into atlas 0 and keeps the pair packed. |
| Renderer.TextureId | src/renderer.cc:149-151 | A character's id is its slot as `GLuint` and 1 exactly for a color glyph. |
| Renderer.TextureIds | src/renderer.cc:93-159 | Six ids per character, each that character's id, so that six times the quad count is the id count (the assertion). |
| Renderer.RenderLines | src/renderer.cc:26-38 | The line loop, with each line's pair coming through the memo. An index past the file is the undefined out-of-bounds read `lines[i]`, which the model makes a `LineOutOfRange` failure. On success there is one entry per line, every drawn line is in the memo, and no memo entry changes. |
| Renderer.LineLengthsCons | src/renderer.cc:26 | The first line's length fact and the rest's combine for the whole frame. |
| Renderer.RenderLinesSucceed | src/renderer.cc:26-89 | From a memo of balanced pairs and packed atlases, lines that exist fail only at the resolver's own assertion, and the memo stays balanced and the atlases packed. |
| Renderer.RenderLinesLengths | src/renderer.cc:31-89 | From a memo of balanced pairs, each line of a successful frame draws exactly one character per glyph of its memoised pair. |
| Renderer.RenderLinesCoherent | src/renderer.cc:31-38 | A successful frame keeps the memo in agreement with the resolver. |
| Renderer.RenderFrame | src/renderer.cc:18-27 | The frame's lines are those of the range computed in `unsigned int`. From a safe view of a file under 2^31 lines, a frame draws `min(visible, lines)` lines. |
| Renderer.SafeViewFrameSucceeds | src/renderer.cc:6-222 | From a safe view, a coherent memo and packed atlases, a frame fails only at the resolver's assertion and keeps both invariants. |
| Renderer.EndOnShortFileFrameFails | src/callbacks.h:56-58 | After End on a five-line file the next frame indexes line 2^32 - 29. |
| Renderer.ClampedKeyFrameSucceeds | src/callbacks.h:29-59 | With the clamped End, the frame after any key from a safe view fails only at the resolver's assertion. |
| Renderer.ClampedResizeFrameSucceeds | src/callbacks.h:82-94 | With the clamped resize, the frame after any window size fails only at the resolver's assertion. |
| Renderer.LegacyRenderFrame | src/main.cc:509-549 | `main.cc`'s `Render` draws `visible` lines from a safe state. |
| Renderer.LegacyFrameSucceeds | src/main.cc:522-544 | In `main.cc` too, a safe state fails only at the resolver's assertion and keeps both invariants. |
| GlyphRaster.RowOffsetIsProduct | src/renderer.cc:255-256 | The offset of row r is `r * stride`, as the source indexes it. |
| GlyphRaster.StripPadding | src/renderer.cc:246-258 | The stripped rows have `rows * width` bytes. |
| GlyphRaster.StripPaddingIndex | src/renderer.cc:252-257 | Byte c of row r of the stripped rows is byte c of row r of the bitmap: `out[r*width+c] == in[r*pitch+c]`. |
| GlyphRaster.CopyRow | src/renderer.cc:253-257 | The inner loop copies the row into place and leaves every other byte alone. |
| GlyphRaster.RowCopied | src/renderer.cc:252-258 | Copying row i after the rows already stripped extends the loop invariant by one row. |
| GlyphRaster.CopyRows | src/renderer.cc:252-258 | The row loop leaves every row of the bitmap at its stripped place and zeros after them. |
| GlyphRaster.RepackMonochrome | src/renderer.cc:245-258 | The monochrome buffer has `rows * width * 3` bytes: the stripped rows, then zeros. |
| GlyphRaster.RepackedPixel | src/main.cc:298-302 | One byte of the repacked buffer is the corresponding bitmap byte. |
| GlyphRaster.RepackMonochromeBytes | src/main.cc:296-304 | For every `i < rows`, `j < width`: `out[i*width + j] == buffer[i*pitch + j]`. |
| GlyphRaster.RepackMonochromePadding | src/renderer.cc:250-251 | Every byte from `rows * width` on is zero. |
| GlyphRaster.RepackColored | src/renderer.cc:259-266 | The color buffer is the first `rows * width * 4` bytes of the bitmap, verbatim. |
| GlyphRaster.TextureSize | src/renderer.cc:268-278 | `(width, rows)` for a color glyph; for a monochrome one, `rows` and the largest x with `3x <= width`. Both are `GLsizei`. |
| GlyphRaster.MakeCharacter | src/renderer.cc:280-284 | The size as above, the bitmap's bearing, the advance as `GLuint` (congruent modulo 2^32), and the face's color flag. |
| GlyphRaster.RenderGlyph | src/main.cc:290-333 | The character plus the monochrome repack or the colored copy, according to the face. |
| Viewport.Min | src/renderer.cc:19-23 | The smaller of two values. |
| Viewport.VisibleLines | src/state.cc:16-18 | `visible = height / line_height`: the largest count whose lines fit in the height. |
| Viewport.NewView | src/state.cc:5-12 | The constructor stores its arguments and computes the visible lines. |
| Viewport.UpdateDimensions | src/state.h:11-15 | New width and height and recomputed visible lines. The start line is untouched. |
| Viewport.GoUp | src/state.cc:24 | `start_line_ += amount` in `unsigned int`, stored into an `int`: exact when it fits, otherwise congruent modulo 2^32. |
| Viewport.GoDown | src/state.cc:23 | `start_line_ -= amount` in the same arithmetic. |
| Viewport.GoDownUndoesGoUp | src/state.cc:23-24 | `GoDown(n)` after `GoUp(n)` restores the view, wrap-around included. |
| Viewport.GoUpUndoesGoDown | src/state.cc:24 | `GoUp(n)` after `GoDown(n)` restores the view. |
| Viewport.GotoBeginning | src/state.cc:25 | The start line becomes 0 and nothing else changes. |
| Viewport.GotoEnd | src/state.cc:26-28 | The start is always congruent to `lines - visible` modulo 2^32. For files under 2^31 lines it is exactly `lines - visible` when the window fits in the file. When the window is taller, it is that negative value, provided the window has fewer than 2^31 + `lines` lines. |
| Viewport.OnKey | src/callbacks.h:29-59 | Down/J go up one line only when the window still ends inside the file (guard in `unsigned int`). Up/K go down one only when the start stays non-negative. Home goes to 0 and End to `GotoEnd`. Other keys and releases change nothing. |
| Viewport.OnScroll | src/callbacks.h:61-80 | A positive offset moves the start back by the truncated amount if it stays non-negative. Otherwise the start moves forward by the negated amount if the window still ends inside the file. |
| Viewport.OnKeyKeepsSafe | src/callbacks.h:35-55 | Every key but End keeps the drawn range inside the file and moves the start by at most one line (or to 0). |
| Viewport.OnScrollKeepsSafe | src/callbacks.h:69-79 | Both scroll directions keep the drawn range inside the file. |
| Viewport.EndSafeIff | src/state.cc:26-28 | End keeps the range inside the file exactly when the window is no taller than the file. Otherwise the start goes negative. |
| Viewport.UpdateDimensionsBreaksSafe | src/state.h:11-15 | Growing the window at the end of a 100-line file leaves the range running past the last line. |
| Viewport.RenderRange | src/renderer.cc:18-23 | The range is `[start, start + min(visible, lines))` in `unsigned int`, and for a safe view it ends inside the file. |
| Viewport.DrawnLines | src/renderer.cc:26 | The indices first..last-1, ascending. |
| Viewport.SafeViewDrawsExistingLines | src/renderer.cc:27 | Every line a safe view draws exists. |
| Viewport.EndOnShortFileDrawsPastEnd | src/callbacks.h:56-58 | End on a five-line file in a 34-line window sets the start to -29, and the next range starts at 2^32 - 29. |
| Viewport.GotoEndClamped | src/state.cc:26 | Intended End: the last screenful, or the top when the file fits on screen. It is always safe. |
| Viewport.UpdateDimensionsClamped | src/state.h:14 | Intended resize: the start is pulled back so the window ends inside the file. It is unchanged when it already did. |
| Viewport.OnKeyClamped | src/callbacks.h:56 | The key handler with the clamped End. Every other key behaves as written. |
| Viewport.OnKeyClampedKeepsSafe | src/callbacks.h:35-58 | With the clamped End, every key keeps the drawn range inside the file. |
| Viewport.EndOnShortFileClamped | src/callbacks.h:57 | On the five-line file the clamped End stays at line 0 and draws lines 0..4. |
| LegacyViewport.Init | src/main.cc:627-633 | Visible lines are `min(lines, 768 / 22)`. The start is 0. An empty file fails the assertion. |
| LegacyViewport.OnKey | src/main.cc:85-102 | The same guards with `ssize_t`/`size_t` arithmetic. Other keys change nothing. |
| LegacyViewport.OnScroll | src/main.cc:104-118 | The same scroll guards on the global state. |
| LegacyViewport.HandlersKeepSafe | src/main.cc:87-117 | Key and scroll handlers keep the drawn range inside the file. |
| LegacyViewport.DrawnLines | src/main.cc:522-523 | `i` from `start_line` while `i < visible_lines + start_line`: in a safe state, the window's lines, all existing. |
| ShelfAtlas.Place | src/texture_atlas.h:36-53 | Succeeds exactly when the cursor is inside the texture. On crossing the right edge the glyph goes to column 0, twice its height lower. The cursor ends right after the glyph. |
| ShelfAtlas.AddColored | src/texture_atlas.h:34-58 | Places on the color cursor and leaves the monochrome cursor untouched. |
| ShelfAtlas.AddMonochromatic | src/texture_atlas.h:60-84 | Places on the monochrome cursor and leaves the color cursor untouched. |
| ShelfAtlas.AddsCommute | src/texture_atlas.h:34-84 | The color and monochrome cursors are independent. Adding a color glyph and a monochrome glyph gives the same rectangles and final cursors in either order. |
| ShelfAtlas.PlaceInsideHorizontally | src/texture_atlas.h:40-43 | A glyph no wider than the texture stays within its width. |
| ShelfAtlas.PlacementCanLeaveTexture | src/texture_atlas.h:36-43 | Nothing bounds a wrapped row or a too-wide glyph: both end outside the texture. |
| ShelfAtlas.PlaceRun | src/texture_atlas.h:66-79 | A run of placements has one rectangle per glyph, with its width and height. |
| ShelfAtlas.PlaceKeepsShelved | src/texture_atlas.h:40-53 | One placement of the shared height keeps the placed rectangles disjoint and behind the cursor. |
| ShelfAtlas.PlaceRunDisjoint | src/texture_atlas.h:45-53 | Glyphs of one height never overlap. |
| ShelfAtlas.MixedHeightsOverlap | src/texture_atlas.h:42 | Glyphs of different heights can overlap after a wrap. |
| MachineInt.WrapAdd | src/callbacks.h:37 | Wrapping one operand of an `unsigned int` sum first does not change the wrapped sum. |
| MachineInt.ToU32 | src/renderer.cc:18-23 | The conversion to `unsigned int`: the value in [0, 2^32) congruent modulo 2^32, equal to the input when it fits. |
| MachineInt.ToI32 | src/state.h:30 | The store into an `int`: the value in [-2^31, 2^31) congruent modulo 2^32, equal to the input when it fits. |
| MachineInt.ToU64 | src/main.cc:89 | The `size_t` arithmetic of the legacy guards: the value in [0, 2^64) congruent modulo 2^64, equal to the input when it fits. |
| MachineInt.ToI64 | src/main.cc:80 | The store into the `ssize_t` start line: the value in [-2^63, 2^63) congruent modulo 2^64, equal to the input when it fits. |
| MachineInt.AddThenSub | src/state.cc:23-24 | `x += n; x -= n` on an `int` with unsigned `n` restores `x`. |
| MachineInt.SubThenAdd | src/state.cc:23-24 | `x -= n; x += n` restores `x`. |

## Left out

- OpenGL: texture storage, sub-image upload, VAO/VBO, uniforms and draw calls. An upload is "slot s now holds this character".
- Floating-point geometry is not modelled: quads, emoji scaling, normalised texture coordinates, and the shelf atlas's returned `vec4`.
- The draw count `characters.size() * sizeof(characters[0])` is GL state, not modelled.
- FreeType and HarfBuzz are parameters: `shape`, `raster` and `repl`. Font loading, glyph loading and rendering failures (`exit`) are not modelled.
- `GlyphAtlas.Insert`: the victim is the last stale entry of an iteration order given as a parameter. The source's order is the hash map's, which is unspecified.
- `kTextureDepth` is not among the files; it is the atlas's `depth` field. The renderer's lemmas assume it is at least 1. With depth 0 the source's `while` loop would never end.
- `RenderGlyph` takes the bitmap with a non-negative pitch. A negative (bottom-up) pitch is not modelled.
- GlyphRaster.RepackMonochrome: the sizes `rows * width * 3` and `i * pitch + j` are computed in `unsigned int` in the source and can wrap. The model uses exact integers.
- Viewport.OnScroll: `yoffset` truncated to `int` is the parameter `amount`, with `INT_MIN` excluded. Negating it is undefined behaviour in C++.
- Viewport.OnKeyKeepsSafe: stated for files and windows under 2^31 lines. Beyond that the `unsigned int` guards wrap.
- LegacyViewport.HandlersKeepSafe: stated for fewer than 2^62 lines, where `ssize_t`/`size_t` sums cannot wrap.
- Signed overflow of `int` (undefined behaviour), such as `start_line - lines_to_scroll` near `INT_MIN`, is modelled as exact arithmetic.
- `size_t` overflow of the cache counter is not modelled: it is a `nat`.
- The Escape/Q close handling, file reading, timing, printing and `ResizeCallback`'s projection matrix are not modelled.
- Both atlases are keyed by the glyph index alone, though glyph indices are per face. The model follows the code (see Findings).
- FreshnessCache.PutEvicting: the source erases the evicted key's flag through the iterator `last` after `queue_.pop_back()` has destroyed its node. That read is undefined behaviour. The model reads it as intended, erasing the old tail's flag, as if the key had been captured before `pop_back`.
- Renderer.RenderLines: indexing `lines[i]` past the end of the file (src/renderer.cc:26-27, src/main.cc:522-524) is undefined behaviour in the source. The model turns it into a `LineOutOfRange` failure naming the index, and promises nothing about what the source would draw.
- FaceFallback.Resolve with no faces needs an input pair with no more faces than glyphs and no sentinel positions. The replacement loop reads `second[i]` for every `i < first.size()`, and replacing a sentinel would read `faces[0]` of an empty list.

## Findings

| source | as written | input that shows it | evidently intended | confidence | as-written member | corrected member |
|---|---|---|---|---|---|---|
| src/state.cc:26-28 | End sets `start_line = lines - visible` in `unsigned int`, stored into an `int` | 5-line file, 768-pixel window, 22-pixel lines: the start becomes -29 and the next frame reads line 2^32 - 29 | the last screenful, or line 0 when the file fits on screen | high; not executed | Viewport.EndOnShortFileDrawsPastEnd | Viewport.GotoEndClamped |
| src/state.h:11-15 | a resize recomputes the visible lines but keeps the start line | 100 lines, start 66, window grown from 748 to 880 pixels: lines 66..105 are drawn | pull the start back so the window ends inside the file | medium; not executed | Viewport.UpdateDimensionsBreaksSafe | Viewport.UpdateDimensionsClamped |
| src/renderer.cc:57-85 | both atlases are keyed by the glyph index alone, though glyph indices are per face | glyph 36 of face 0 then glyph 36 of face 1 in one line: the second draws face 0's glyph | key the atlases by face and glyph index | high; not executed | Renderer.AliasedGlyphDrawsOtherFace | Renderer.FaceGlyphKeyDrawsOwnFace |
