/**
 * The byte-level part of `RenderGlyph` (`renderer.cc`, and its copy in
 * `main.cc`): turning FreeType's rendered glyph slot into a tightly packed
 * texture buffer and a `Character`.
 *
 * Loading and rendering the glyph are FreeType calls and are not modelled:
 * the model starts from the glyph slot they fill in — the bitmap (rows,
 * width in bytes, pitch, buffer), the bearing and the advance — and from
 * whether the face has color glyphs. A monochrome glyph is rendered for an
 * LCD, so its bitmap holds three bytes per pixel.
 */
module GlyphRaster {
  import opened MachineInt
  import opened GlyphAtlas

  /** `FT_Bitmap`: `rows` rows of `width` bytes each, `pitch` bytes apart in `buffer`. */
  datatype Bitmap = Bitmap(rows: nat, width: nat, pitch: nat, buffer: seq<Byte>)

  /** The fields of `face->glyph` that `RenderGlyph` reads. */
  datatype GlyphSlot = GlyphSlot(bitmap: Bitmap, left: int, top: int, advanceX: int)

  /**
   * `r * stride`, the offset of row `r` in a buffer whose rows are `stride`
   * bytes apart, built up one row at a time.
   */
  function RowOffset(r: nat, stride: nat): nat
  {
    if r == 0 then 0 else RowOffset(r - 1, stride) + stride
  }

  /** The row offset is the product the source computes. */
  lemma {:induction false} RowOffsetIsProduct(r: nat, stride: nat)
    ensures RowOffset(r, stride) == r * stride
  {
    if r > 0 {
      RowOffsetIsProduct(r - 1, stride);
    }
  }

  /** Later rows start further on. */
  lemma {:induction false} RowOffsetMono(a: nat, b: nat, stride: nat)
    requires a <= b
    ensures RowOffset(a, stride) <= RowOffset(b, stride)
    decreases b
  {
    if a < b {
      RowOffsetMono(a, b - 1, stride);
    }
  }

  /** Every byte the monochrome repack reads exists: the last row's `width` bytes end inside the buffer. */
  predicate MonoReadable(b: Bitmap)
  {
    b.rows == 0 || RowOffset(b.rows - 1, b.pitch) + b.width <= |b.buffer|
  }

  /** The colored copy reads `rows * width * 4` bytes. */
  predicate ColorReadable(b: Bitmap)
  {
    b.rows * b.width * 4 <= |b.buffer|
  }

  /** Byte `c` of row `r` in a buffer whose rows are `stride` bytes apart. */
  function PixelAt(s: seq<Byte>, stride: nat, r: nat, c: nat): (b: Byte)
    requires RowOffset(r, stride) + c < |s|
    ensures b == s[RowOffset(r, stride) + c]
  {
    s[RowOffset(r, stride) + c]
  }

  function Zeros(n: nat): (r: seq<Byte>)
    ensures |r| == n && forall k :: 0 <= k < n ==> r[k] == 0
  {
    seq(n, _ => 0)
  }

  /** The first `i` rows of the bitmap, each cut to `width` bytes, back to back. */
  function StripPadding(b: Bitmap, i: nat): (r: seq<Byte>)
    requires MonoReadable(b) && i <= b.rows
    ensures |r| == RowOffset(i, b.width)
    decreases i
  {
    if i == 0 then []
    else
      RowOffsetMono(i - 1, b.rows - 1, b.pitch);
      var from := RowOffset(i - 1, b.pitch);
      StripPadding(b, i - 1) + b.buffer[from .. from + b.width]
  }

  /** Row `r < i` starts inside the first `i` stripped rows and inside the bitmap. */
  lemma RowBounds(b: Bitmap, i: nat, r: nat, c: nat)
    requires MonoReadable(b) && i <= b.rows && r < i && c < b.width
    ensures RowOffset(r, b.width) + c < RowOffset(i, b.width)
    ensures RowOffset(r, b.pitch) + c < |b.buffer|
  {
    RowOffsetMono(r + 1, i, b.width);
    RowOffsetMono(r, b.rows - 1, b.pitch);
  }

  /** The `i`-th stripped row is row `i - 1` of the bitmap, cut to `width` bytes. */
  lemma StripPaddingLast(b: Bitmap, i: nat)
    requires MonoReadable(b) && 0 < i <= b.rows
    ensures RowOffset(i - 1, b.pitch) + b.width <= |b.buffer|
    ensures var from := RowOffset(i - 1, b.pitch);
      StripPadding(b, i) == StripPadding(b, i - 1) + b.buffer[from .. from + b.width]
  {
    RowOffsetMono(i - 1, b.rows - 1, b.pitch);
  }

  /** Byte `c` of row `r` of the stripped rows is byte `c` of row `r` of the bitmap. */
  lemma {:induction false} StripPaddingIndex(b: Bitmap, i: nat, r: nat, c: nat, stripped: seq<Byte>)
    requires MonoReadable(b) && i <= b.rows && r < i && c < b.width
    requires stripped == StripPadding(b, i)
    ensures RowOffset(r, b.width) + c < |stripped|
    ensures RowOffset(r, b.pitch) + c < |b.buffer|
    ensures stripped[RowOffset(r, b.width) + c] == b.buffer[RowOffset(r, b.pitch) + c]
    decreases i
  {
    RowBounds(b, i, r, c);
    StripPaddingLast(b, i);
    var front := StripPadding(b, i - 1);
    var from := RowOffset(i - 1, b.pitch);
    var k := RowOffset(r, b.width) + c;
    assert stripped == front + b.buffer[from .. from + b.width];
    if r < i - 1 {
      StripPaddingIndex(b, i - 1, r, c, front);
      assert stripped[k] == front[k];
    } else {
      assert k == |front| + c;
    }
  }

  /**
   * One row of the repack loop: row `i` starts at `from` in the bitmap and
   * at the end of the rows stripped so far in the output.
   */
  lemma RowStep(b: Bitmap, i: nat, from: nat)
    requires MonoReadable(b) && i < b.rows && from == RowOffset(i, b.pitch)
    ensures from + b.width <= |b.buffer|
    ensures from + b.pitch == RowOffset(i + 1, b.pitch)
    ensures |StripPadding(b, i)| + b.width <= RowOffset(b.rows, b.width)
    ensures StripPadding(b, i + 1) == StripPadding(b, i) + b.buffer[from .. from + b.width]
  {
    StripPaddingLast(b, i + 1);
    RowOffsetMono(i + 1, b.rows, b.width);
  }

  /**
   * The reference definition of the monochrome repack: the rows cut to
   * `width` bytes, back to back, then zeros up to three times that length.
   */
  function Repacked(b: Bitmap): seq<Byte>
    requires MonoReadable(b)
  {
    StripPadding(b, b.rows) + Zeros(b.rows * b.width * 2)
  }

  /**
   * Copies `row` into `out` from position `at` on, one byte at a time: the
   * inner loop of the monochrome repack.
   */
  method CopyRow(out: seq<Byte>, at: nat, row: seq<Byte>) returns (r: seq<Byte>)
    requires at + |row| <= |out|
    ensures |r| == |out|
    ensures r[..at] == out[..at]
    ensures r[at..at + |row|] == row
    ensures r[at + |row|..] == out[at + |row|..]
  {
    r := out;
    var j := 0;
    while j < |row|
      invariant 0 <= j <= |row|
      invariant |r| == |out|
      invariant r[..at] == out[..at]
      invariant r[at..at + j] == row[..j]
      invariant r[at + |row|..] == out[at + |row|..]
      invariant forall k :: at + j <= k < at + |row| ==> r[k] == out[k]
    {
      r := r[at + j := row[j]];
      assert r[at..at + j + 1] == row[..j + 1] by {
        forall k | 0 <= k < j + 1 ensures r[at + k] == row[k] {
          if k < j {
            assert r[at..at + j][k] == row[..j][k];
          }
        }
      }
      j := j + 1;
    }
  }

  /** The loop invariant of the monochrome repack after `i` rows. */
  predicate RepackedRows(b: Bitmap, i: nat, out: seq<Byte>)
    requires MonoReadable(b) && i <= b.rows
  {
    var done := StripPadding(b, i);
    |done| <= |out| && out[..|done|] == done && out[|done|..] == Zeros(|out| - |done|)
  }

  /** Copying row `i` after the rows already stripped extends the invariant by one row. */
  lemma RowCopied(b: Bitmap, i: nat, from: nat, prev: seq<Byte>, out: seq<Byte>)
    requires MonoReadable(b) && i < b.rows && from == RowOffset(i, b.pitch)
    requires RowOffset(b.rows, b.width) <= |prev| && RepackedRows(b, i, prev)
    ensures from + b.width <= |b.buffer| && |StripPadding(b, i)| + b.width <= |prev|
    ensures
      var at := |StripPadding(b, i)|;
      |out| == |prev| && out[..at] == prev[..at] && out[at..at + b.width] == b.buffer[from .. from + b.width] &&
      out[at + b.width..] == prev[at + b.width..]
      ==> RepackedRows(b, i + 1, out)
  {
    RowStep(b, i, from);
    var done := StripPadding(b, i);
    var at, w := |done|, b.width;
    var row := b.buffer[from .. from + w];
    if |out| == |prev| && out[..at] == prev[..at] && out[at..at + w] == row && out[at + w..] == prev[at + w..] {
      assert out[..at + w] == out[..at] + out[at..at + w];
      assert prev[..at] == done;
      assert out[..at + w] == done + row;
      assert prev[at..] == Zeros(|prev| - at);
      assert prev[at + w..] == prev[at..][w..];
      assert Zeros(|prev| - at)[w..] == Zeros(|out| - (at + w));
    }
  }

  /** The row loop of the monochrome repack: copies every row of the bitmap to its stripped place. */
  method CopyRows(b: Bitmap, start: seq<Byte>) returns (out: seq<Byte>)
    requires MonoReadable(b) && RowOffset(b.rows, b.width) <= |start| && RepackedRows(b, 0, start)
    ensures |out| == |start| && RepackedRows(b, b.rows, out)
  {
    out := start;
    var i := 0;
    var from := 0;
    while i < b.rows
      invariant 0 <= i <= b.rows
      invariant from == RowOffset(i, b.pitch)
      invariant |out| == |start| && RepackedRows(b, i, out)
    {
      RowStep(b, i, from);
      var prev := out;
      out := CopyRow(out, |StripPadding(b, i)|, b.buffer[from .. from + b.width]);
      RowCopied(b, i, from, prev, out);
      i := i + 1;
      from := from + b.pitch;
    }
  }

  /**
   * The monochrome repack: a buffer of `rows * width * 3` zero bytes, into
   * which byte `j` of row `i` of the bitmap is copied at `i * width + j`.
   */
  method RepackMonochrome(b: Bitmap) returns (out: seq<Byte>)
    requires MonoReadable(b)
    ensures |out| == b.rows * b.width * 3
    ensures out == Repacked(b)
  {
    var n := b.rows * b.width;
    out := Zeros(n * 3);
    RepackStart(b, out);
    out := CopyRows(b, out);
    RepackEnd(b, out);
  }

  /** The zeroed buffer satisfies the loop invariant before the first row. */
  lemma RepackStart(b: Bitmap, out: seq<Byte>)
    requires MonoReadable(b) && out == Zeros(b.rows * b.width * 3)
    ensures |out| == b.rows * b.width * 3 && RowOffset(b.rows, b.width) <= |out| && RepackedRows(b, 0, out)
  {
    RowOffsetIsProduct(b.rows, b.width);
  }

  /** After the last row the buffer is the stripped rows followed by zeros. */
  lemma RepackEnd(b: Bitmap, out: seq<Byte>)
    requires MonoReadable(b) && |out| == b.rows * b.width * 3 && RepackedRows(b, b.rows, out)
    ensures out == Repacked(b)
  {
    RowOffsetIsProduct(b.rows, b.width);
    var n := |StripPadding(b, b.rows)|;
    assert out == out[..n] + out[n..];
  }

  /** Byte `c` of row `r` of `out`, rows `width` apart, is byte `c` of row `r` of the bitmap, rows `pitch` apart. */
  predicate SamePixel(b: Bitmap, out: seq<Byte>, r: nat, c: nat)
  {
    && RowOffset(r, b.width) + c < |out|
    && RowOffset(r, b.pitch) + c < |b.buffer|
    && PixelAt(out, b.width, r, c) == PixelAt(b.buffer, b.pitch, r, c)
  }

  /** Byte `c` of row `r` of the repacked buffer is byte `c` of row `r` of the bitmap. */
  lemma RepackedPixel(b: Bitmap, out: seq<Byte>, r: nat, c: nat)
    requires MonoReadable(b) && r < b.rows && c < b.width
    requires out == Repacked(b)
    ensures SamePixel(b, out, r, c)
  {
    StripPaddingIndex(b, b.rows, r, c, StripPadding(b, b.rows));
    assert out[RowOffset(r, b.width) + c] == StripPadding(b, b.rows)[RowOffset(r, b.width) + c];
  }

  /**
   * The monochrome repack byte by byte: byte `j` of row `i` of the bitmap
   * lands at `i * width + j`.
   */
  lemma RepackMonochromeBytes(b: Bitmap, out: seq<Byte>)
    requires MonoReadable(b)
    requires out == Repacked(b)
    ensures forall r: nat, c: nat :: r < b.rows && c < b.width ==> SamePixel(b, out, r, c)
  {
    forall r: nat, c: nat | r < b.rows && c < b.width
      ensures SamePixel(b, out, r, c)
    {
      RepackedPixel(b, out, r, c);
    }
  }

  /** Every byte of the repacked buffer from `rows * width` on is zero. */
  lemma RepackMonochromePadding(b: Bitmap, out: seq<Byte>)
    requires MonoReadable(b)
    requires out == Repacked(b)
    ensures forall k :: b.rows * b.width <= k < |out| ==> out[k] == 0
  {
    RowOffsetIsProduct(b.rows, b.width);
    var n := |StripPadding(b, b.rows)|;
    forall k | n <= k < |out| ensures out[k] == 0 {
      assert out[k] == Zeros(b.rows * b.width * 2)[k - n];
    }
  }

  /** The colored copy: the first `rows * width * 4` bytes (BGRA), verbatim. */
  function RepackColored(b: Bitmap): (out: seq<Byte>)
    requires ColorReadable(b)
    ensures |out| == b.rows * b.width * 4
    ensures forall k :: 0 <= k < |out| ==> out[k] == b.buffer[k]
  {
    b.buffer[..b.rows * b.width * 4]
  }

  /**
   * The texture size of the glyph, as `GLsizei`: the bitmap's width and
   * rows for a color glyph, and a third of the width (three bytes per LCD
   * pixel, integer division) for a monochrome one.
   */
  function TextureSize(b: Bitmap, colored: bool): (r: Vec2)
    ensures IsI32(r.x) && IsI32(r.y)
    ensures IsI32(b.width) && IsI32(b.rows) ==>
      && r.y == b.rows
      && (colored ==> r.x == b.width)
      && (!colored ==> 3 * r.x <= b.width < 3 * r.x + 3)
  {
    if colored then Vec2(ToI32(b.width), ToI32(b.rows))
    else Vec2(ToI32(b.width / 3), ToI32(b.rows))
  }

  /**
   * The `Character` of a rendered glyph: its texture size, the bitmap's
   * left and top bearing, the advance converted to `GLuint`, and whether
   * the face has color. The slot is set later, by the atlas upload.
   */
  function MakeCharacter(g: GlyphSlot, colored: bool): (ch: Character)
    ensures ch.size == TextureSize(g.bitmap, colored)
    ensures ch.bearing == Vec2(g.left, g.top)
    ensures IsU32(ch.advance) && (ch.advance - g.advanceX) % TWO_32 == 0
    ensures ch.colored == colored
  {
    Character(TextureSize(g.bitmap, colored), Vec2(g.left, g.top), ToU32(g.advanceX), colored, 0)
  }

  /**
   * `RenderGlyph` after FreeType has filled in the glyph slot: the
   * character and the packed texture bytes, monochrome or colored
   * according to the face.
   */
  method RenderGlyph(g: GlyphSlot, colored: bool) returns (r: Glyph)
    requires colored ==> ColorReadable(g.bitmap)
    requires !colored ==> MonoReadable(g.bitmap)
    ensures r.character == MakeCharacter(g, colored)
    ensures colored ==> r.bitmap == RepackColored(g.bitmap)
    ensures !colored ==>
      r.bitmap == Repacked(g.bitmap)
  {
    var bytes;
    if colored {
      bytes := RepackColored(g.bitmap);
    } else {
      bytes := RepackMonochrome(g.bitmap);
    }
    r := Glyph(MakeCharacter(g, colored), bytes);
  }
}
