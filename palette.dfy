/** The colour table `write_palette` stores after the DIB header and the masks: the
    R6G7B6 palette at 8 bits per pixel, the R2G3B2 palette at 4, the fixed two-colour
    and one-colour palettes at 1, and a grey "suggested" palette above 8. Each entry is
    four bytes, blue, green and red followed by a reserved byte the writer never
    touches. */
module Palette {
  import opened Bytes
  import opened Arith
  import opened Quantize
  import opened Layout
  import opened Pixels
  import opened Headers

  /** Where the palette begins: after the two headers and the masks. */
  function PaletteOffset(f: Format): nat
  {
    FILE_HEADER_SIZE + f.headerSize + f.bitfieldsSize
  }

  /** The blue, green and red bytes `bgr` of entry i. */
  function EntryField(f: Format, i: nat, bgr: seq<byte>): Field
  {
    Field(PaletteOffset(f) + 4 * i, bgr)
  }

  /** `scale_to_int(c / n, 255)`: code c of the scale 0..n as a byte. */
  function Level(c: int, n: int): byte
    requires 0 < n
  {
    ScaleToInt(c as real / n as real, 255)
  }

  /** Entry i of the 8-bit palette: its red code is i % 6, its green code (i % 42) / 6
      and its blue code i / 42. */
  function Entry8(i: nat): seq<byte>
  {
    [Level(i / 42, 5), Level((i % 42) / 6, 6), Level(i % 6, 5)]
  }

  /** Entry i of the 4-bit palette: red i % 2, green (i % 6) / 2, blue i / 6. */
  function Entry4(i: nat): seq<byte>
  {
    [Level(i / 6, 1), Level((i % 6) / 2, 2), Level(i % 2, 1)]
  }

  /** Entry i of the suggested palette: grey `(unsigned char)(i * 15)`. */
  function Suggested(i: nat): seq<byte>
  {
    var v := LowByte(i * 15);
    [v, v, v]
  }

  const WHITE: seq<byte> := [255, 255, 255]
  const BLUE: seq<byte> := [255, 64, 64]
  const GREEN: seq<byte> := [64, 255, 64]

  /** Entries 0 .. n - 1, entry i holding `entry(i)`. */
  function Entries(f: Format, n: nat, entry: nat -> seq<byte>): (fs: seq<Field>)
    ensures |fs| == n
    ensures forall i :: 0 <= i < n ==> fs[i] == EntryField(f, i, entry(i))
  {
    seq(n, (i: int) requires 0 <= i < n => EntryField(f, i, entry(i)))
  }

  /** The most entries the 8-bit palette writes. */
  const MAX_ENTRIES_8: nat := 256

  /** How many entries of the 8-bit palette `write_palette` writes: it skips every
      i >= 256 of a longer palette. */
  function Count8(n: nat): (c: nat)
    ensures c <= n && c <= MAX_ENTRIES_8 && (n <= MAX_ENTRIES_8 ==> c == n)
  {
    if n < MAX_ENTRIES_8 then n else MAX_ENTRIES_8
  }

  /** The 1-bit palettes: white first when `pal_wb`, blue and green when `pal_bg`, white
      second otherwise; with any number of entries but two, one blue entry. An entry
      not listed keeps the zeros of the cleared buffer, that is black. */
  function Bilevel(f: Format): seq<Field>
  {
    if f.palEntries == 2 then
      if f.palWb != 0 then [EntryField(f, 0, WHITE)]
      else if f.palBg != 0 then [EntryField(f, 0, BLUE), EntryField(f, 1, GREEN)]
      else [EntryField(f, 1, WHITE)]
    else [EntryField(f, 0, BLUE)]
  }

  /** What `write_palette` stores, in order. At a depth of 2, 3, 5, 6 or 7 bits it
      stores nothing. */
  function PaletteFields(f: Format): seq<Field>
  {
    if f.bpp == 8 then Entries(f, Count8(f.palEntries), Entry8)
    else if f.bpp == 4 then Entries(f, f.palEntries, Entry4)
    else if f.bpp == 1 then Bilevel(f)
    else if f.bpp > 8 then Entries(f, f.palEntries, Suggested)
    else []
  }

  /** The number of four-byte slots from the start of the palette to the last entry
      written. */
  function Slots(f: Format): (n: nat)
  {
    if f.bpp == 8 then Count8(f.palEntries)
    else if f.bpp == 4 || f.bpp > 8 then f.palEntries
    else if f.bpp == 1 then (if f.palEntries == 2 && f.palWb == 0 then 2 else 1)
    else 0
  }

  /** Just past the last byte `write_palette` writes. */
  function PaletteEnd(f: Format): nat
  {
    if Slots(f) == 0 then PaletteOffset(f) else PaletteOffset(f) + 4 * Slots(f) - 1
  }

  /** Entries i < n all lie in their own slot. */
  lemma {:induction false} EntriesLayout(f: Format, n: nat, entry: nat -> seq<byte>)
    requires forall i: nat :: |entry(i)| == 3
    ensures var fs := Entries(f, n, entry);
      Disjoint(fs) && Within(fs, PaletteOffset(f), if n == 0 then PaletteOffset(f) else PaletteOffset(f) + 4 * n - 1)
  {
    var fs := Entries(f, n, entry);
    forall i | 0 <= i < n ensures End(fs[i]) == PaletteOffset(f) + 4 * i + 3 {
      assert |entry(i)| == 3;
    }
  }

  /** The palette entries lie in their own slots, one after another, from
      `PaletteOffset` to `PaletteEnd`. */
  lemma {:induction false} PaletteLayout(f: Format)
    ensures Disjoint(PaletteFields(f))
    ensures Within(PaletteFields(f), PaletteOffset(f), PaletteEnd(f))
  {
    if f.bpp == 8 {
      EntriesLayout(f, Count8(f.palEntries), Entry8);
    } else if f.bpp == 4 {
      EntriesLayout(f, f.palEntries, Entry4);
    } else if f.bpp > 8 && f.bpp != 1 {
      EntriesLayout(f, f.palEntries, Suggested);
    }
  }

  /** An 8-bit palette of more than 256 entries is cut at 256: nothing from the
      reserved byte of entry 255 on is written. */
  lemma {:induction false} Palette8Capped(m: seq<byte>, f: Format, j: int)
    requires f.bpp == 8 && PaletteEnd(f) <= |m|
    requires PaletteOffset(f) + 4 * MAX_ENTRIES_8 - 1 <= j < |m|
    ensures FieldsFit(PaletteFields(f), |m|)
    ensures Apply(m, PaletteFields(f))[j] == m[j]
  {
    PaletteLayout(f);
    ApplyOutside(m, PaletteFields(f), PaletteOffset(f), PaletteEnd(f), j);
  }

  /** The bytes of palette entry i that is written. */
  lemma {:induction false} EntryReadBack(m: seq<byte>, f: Format, i: nat, n: nat, entry: nat -> seq<byte>)
    requires forall k: nat :: |entry(k)| == 3
    requires i < n && PaletteOffset(f) + 4 * n - 1 <= |m|
    ensures var fs := Entries(f, n, entry);
      FieldsFit(fs, |m|) && PaletteOffset(f) + 4 * i + 3 <= |m| &&
      Apply(m, fs)[PaletteOffset(f) + 4 * i .. PaletteOffset(f) + 4 * i + 3] == entry(i)
  {
    var fs := Entries(f, n, entry);
    EntriesLayout(f, n, entry);
    assert fs[i] == EntryField(f, i, entry(i));
    ApplyField(m, fs, i);
  }

  /** `write_palette` decodes exactly what `set_pixel` encodes at 8 bits per pixel: the
      entry a pixel with codes q points at has q's red, green and blue codes, scaled. */
  lemma {:induction false} Entry8Decodes(q: Codes)
    requires Codes8Ok(q)
    ensures Entry8(Index8(q)) == [Level(q.b, 5), Level(q.g, 6), Level(q.r, 5)]
  {
    Index8RoundTrip(q);
  }

  /** The same at 4 bits per pixel. */
  lemma {:induction false} Entry4Decodes(q: Codes)
    requires Codes4Ok(q)
    ensures Entry4(Index4(q)) == [Level(q.b, 1), Level(q.g, 2), Level(q.r, 1)]
  {
    Index4RoundTrip(q);
  }

  /** In an 8-bit file with enough entries, the palette entry of pixel codes q holds the
      colour of those codes. */
  lemma {:induction false} Palette8Colour(m: seq<byte>, f: Format, q: Codes)
    requires f.bpp == 8 && Codes8Ok(q) && Index8(q) < f.palEntries && PaletteEnd(f) <= |m|
    ensures var o := PaletteOffset(f) + 4 * Index8(q);
      FieldsFit(PaletteFields(f), |m|) && o + 3 <= |m| &&
      Apply(m, PaletteFields(f))[o .. o + 3] == [Level(q.b, 5), Level(q.g, 6), Level(q.r, 5)]
  {
    Index8RoundTrip(q);
    EntryReadBack(m, f, Index8(q), Count8(f.palEntries), Entry8);
    Entry8Decodes(q);
  }

  /** In a 4-bit file with enough entries, the palette entry of pixel codes q holds the
      colour of those codes. */
  lemma {:induction false} Palette4Colour(m: seq<byte>, f: Format, q: Codes)
    requires f.bpp == 4 && Codes4Ok(q) && Index4(q) < f.palEntries && PaletteEnd(f) <= |m|
    ensures var o := PaletteOffset(f) + 4 * Index4(q);
      FieldsFit(PaletteFields(f), |m|) && o + 3 <= |m| &&
      Apply(m, PaletteFields(f))[o .. o + 3] == [Level(q.b, 1), Level(q.g, 2), Level(q.r, 1)]
  {
    var i := Index4(q);
    Index4RoundTrip(q);
    assert PaletteFields(f) == Entries(f, f.palEntries, Entry4);
    EntryReadBack(m, f, i, f.palEntries, Entry4);
    Entry4Decodes(q);
    assert Apply(m, PaletteFields(f))[PaletteOffset(f) + 4 * i .. PaletteOffset(f) + 4 * i + 3] == Entry4(i);
  }

  /** The entry a 1-bit pixel of a two-colour black and white palette selects for white:
      entry 0 when the palette starts with white, entry 1 otherwise. */
  function WhiteIndex(f: Format): (i: nat)
    requires f.bpp == 1 && f.palEntries == 2 && f.palBg == 0
    ensures i < 2 && Bilevel(f) == [EntryField(f, i, WHITE)]
  {
    if f.palWb != 0 then 0 else 1
  }

  /** A 1-bit pixel selects the white entry of a black and white palette exactly when its
      dithered luma is 1, with either palette: `set_pixel`'s inversion for `pal_wb`
      matches `write_palette`'s swapped entries. */
  lemma {:induction false} BrightIsWhite(f: Format, x: nat, y: nat, c: Color, pow24: real -> real)
    requires f.bpp == 1 && f.palEntries == 2 && f.palBg == 0 && f.palP1 == 0
    ensures PixelCodes(f, x, y, c, pow24).r == WhiteIndex(f) <==>
      OrderedDitherLowLevel(Luma(c, pow24), x, y) == 1
  {
    Pixel1Bit(f, x, y, c, pow24);
  }

  /** The 1-bit palettes read back: with two entries, white in entry 0 (and entry 1 left
      as it was) when `pal_wb`, blue then green when `pal_bg`, otherwise entry 0 left as
      it was and white in entry 1; with any other number of entries, blue in entry 0. */
  lemma {:induction false} BilevelReadBack(m: seq<byte>, f: Format)
    requires f.bpp == 1 && PaletteOffset(f) + 7 <= |m|
    ensures FieldsFit(PaletteFields(f), |m|)
    ensures var o := PaletteOffset(f); var r := Apply(m, PaletteFields(f));
      (f.palEntries == 2 && f.palWb != 0 ==> r[o .. o + 3] == WHITE && r[o + 4 .. o + 7] == m[o + 4 .. o + 7]) &&
      (f.palEntries == 2 && f.palWb == 0 && f.palBg != 0 ==> r[o .. o + 3] == BLUE && r[o + 4 .. o + 7] == GREEN) &&
      (f.palEntries == 2 && f.palWb == 0 && f.palBg == 0 ==> r[o .. o + 3] == m[o .. o + 3] && r[o + 4 .. o + 7] == WHITE) &&
      (f.palEntries != 2 ==> r[o .. o + 3] == BLUE && r[o + 4 .. o + 7] == m[o + 4 .. o + 7])
  {
    PaletteLayout(f);
    if f.palEntries == 2 {
      BilevelPairReadBack(m, f);
    } else {
      BilevelSingleReadBack(m, f);
    }
  }

  /** The two-entry 1-bit palettes read back. */
  lemma {:induction false} BilevelPairReadBack(m: seq<byte>, f: Format)
    requires f.bpp == 1 && f.palEntries == 2 && PaletteOffset(f) + 7 <= |m|
    ensures FieldsFit(PaletteFields(f), |m|)
    ensures var o := PaletteOffset(f); var r := Apply(m, PaletteFields(f));
      (f.palWb != 0 ==> r[o .. o + 3] == WHITE && r[o + 4 .. o + 7] == m[o + 4 .. o + 7]) &&
      (f.palWb == 0 && f.palBg != 0 ==> r[o .. o + 3] == BLUE && r[o + 4 .. o + 7] == GREEN) &&
      (f.palWb == 0 && f.palBg == 0 ==> r[o .. o + 3] == m[o .. o + 3] && r[o + 4 .. o + 7] == WHITE)
  {
    var fs := PaletteFields(f);
    var o := PaletteOffset(f);
    PaletteLayout(f);
    ApplyField(m, fs, 0);
    if |fs| == 2 {
      ApplyField(m, fs, 1);
    } else {
      var lo, hi := fs[0].offset, End(fs[0]);
      forall j | o <= j < o + 7 && !(lo <= j < hi) ensures Apply(m, fs)[j] == m[j] {
        ApplyOutside(m, fs, lo, hi, j);
      }
    }
  }

  /** With any other number of entries the 1-bit palette is blue in entry 0 alone. */
  lemma {:induction false} BilevelSingleReadBack(m: seq<byte>, f: Format)
    requires f.bpp == 1 && f.palEntries != 2 && PaletteOffset(f) + 7 <= |m|
    ensures FieldsFit(PaletteFields(f), |m|)
    ensures var o := PaletteOffset(f); var r := Apply(m, PaletteFields(f));
      r[o .. o + 3] == BLUE && r[o + 4 .. o + 7] == m[o + 4 .. o + 7]
  {
    var fs := PaletteFields(f);
    var o := PaletteOffset(f);
    PaletteLayout(f);
    ApplyField(m, fs, 0);
    var lo, hi := fs[0].offset, End(fs[0]);
    forall j | o <= j < o + 7 && !(lo <= j < hi) ensures Apply(m, fs)[j] == m[j] {
      ApplyOutside(m, fs, lo, hi, j);
    }
  }

  /** The first 18 entries of the suggested palette are the grey ramp 0, 15 .. 255: no
      `i * 15` wraps there (`g/rgb24pal.bmp` lists 17 of them). */
  lemma {:induction false} SuggestedRamp(i: nat)
    requires i < 18
    ensures Suggested(i) == [i * 15, i * 15, i * 15]
  {
  }
}
