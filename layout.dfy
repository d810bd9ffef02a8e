/** The configuration of one BMP file (the fields of bmpsuite's `struct context`
    other than the buffer) and the sizes and offsets derived from it. */
module Layout {
  import opened Bytes
  import opened Arith

  /** `compression` values used by the writer. */
  const BI_RGB: int := 0
  const BI_BITFIELDS: int := 3

  /** Size of the buffer `main` allocates. */
  const BMP_MAX_SIZE: nat := 100000

  /** The size of the BITMAPFILEHEADER structure. */
  const FILE_HEADER_SIZE: nat := 14

  /** A snapshot of every field of `struct context` except `mem` and `filename`. The
      flags (`palWb`, `palBg`, `palP1`, `rgba`, `dither`, `topdown`) stay C `int`s that
      the writer tests for nonzero. */
  datatype Format = Format(
    memUsed: nat,
    bpp: nat,
    palEntries: nat,
    clrUsed: nat,
    bmpVersion: int,
    headerSize: nat,
    bitfieldsSize: nat,
    paletteSize: nat,
    bitsOffset: nat,
    bitsSize: nat,
    w: nat,
    h: nat,
    rowSize: nat,
    xPelsPerMeter: int,
    yPelsPerMeter: int,
    compression: int,
    palWb: int,
    palBg: int,
    palP1: int,
    rgba: int,
    bfR: u32, bfG: u32, bfB: u32, bfA: u32,
    nbitsR: nat, nbitsG: nat, nbitsB: nat, nbitsA: nat,
    dither: int,
    topdown: int)

  /** The DIB header size `set_calculated_fields` chooses: BITMAPV5HEADER for version 5,
      BITMAPINFOHEADER for every other version. */
  function HeaderSize(version: int): (n: nat)
    ensures n == 124 <==> version == 5
    ensures n == 40 <==> version != 5
  {
    if version == 5 then 124 else 40
  }

  /** The derived fields after `set_calculated_fields`. */
  function Calculated(f: Format): Format
  {
    var hs := HeaderSize(f.bmpVersion);
    f.(headerSize := hs, clrUsed := f.palEntries, paletteSize := 4 * f.palEntries,
       bitsOffset := FILE_HEADER_SIZE + hs + f.bitfieldsSize + 4 * f.palEntries)
  }

  /** `rowsize` as `write_bits` computes it: `((w * bpp + 31) / 32) * 4`. */
  function RowSize(w: nat, bpp: nat): nat
  {
    Mul(Div(Mul(w, bpp) + 31, 32), 4)
  }

  /** A row is the least multiple of four bytes that holds `w * bpp` bits. */
  lemma {:induction false} RowSizeIsPaddedRow(w: nat, bpp: nat)
    ensures RowSize(w, bpp) == ((w * bpp + 31) / 32) * 4
    ensures RowSize(w, bpp) % 4 == 0
    ensures w * bpp <= 8 * RowSize(w, bpp)
    ensures 8 * RowSize(w, bpp) < w * bpp + 32
    ensures (w * bpp + 7) / 8 <= RowSize(w, bpp)
  {
    MulIs(w, bpp);
    RowSizeHolds(w, bpp);
    var q := Div(Mul(w, bpp) + 31, 32);
    DivIs(Mul(w, bpp) + 31, 32);
    MulIs(q, 4);
  }

  /** `RowSizeIsPaddedRow` with the bit count as a `Mul`. */
  lemma {:induction false} RowSizeHolds(w: nat, bpp: nat)
    ensures Mul(w, bpp) <= 8 * RowSize(w, bpp) < Mul(w, bpp) + 32
  {
    var n := Mul(w, bpp) + 31;
    var q := Div(n, 32);
    DivMod(n, 32);
    assert n == Mul(q, 32) + Mod(n, 32);
    MulEight(q, 4);
    assert Mul(q, 32) == 8 * Mul(q, 4);
    assert RowSize(w, bpp) == Mul(q, 4);
  }

  /** The fields `write_bits` sets before it stores any pixel. */
  function WithBitsLayout(f: Format): Format
  {
    var rs := RowSize(f.w, f.bpp);
    f.(rowSize := rs, bitsSize := Mul(f.h, rs), memUsed := f.bitsOffset + Mul(f.h, rs))
  }

  /** The fields `write_bits` sets, in terms of `*` and `/`: the padded row size, the
      image size and the file size; nothing else changes. */
  lemma {:induction false} WithBitsLayoutIs(f: Format)
    ensures var g := WithBitsLayout(f);
      g.rowSize == ((f.w * f.bpp + 31) / 32) * 4 && g.bitsSize == f.h * g.rowSize &&
      g.memUsed == f.bitsOffset + g.bitsSize &&
      g == f.(rowSize := g.rowSize, bitsSize := g.bitsSize, memUsed := g.memUsed)
  {
    RowSizeIsPaddedRow(f.w, f.bpp);
    MulIs(f.h, RowSize(f.w, f.bpp));
  }

  /** Offset of image row `y` inside the pixel data: rows are stored from the top when
      `topdown`, otherwise the last image row comes first. */
  function RowOffset(f: Format, y: nat): (off: nat)
    requires y < f.h
    ensures off + f.rowSize <= Mul(f.h, f.rowSize)
    ensures off == Mul(StoredRow(f, y), f.rowSize)
  {
    var s := StoredRow(f, y);
    MulMono(s + 1, f.h, f.rowSize);
    Mul(s, f.rowSize)
  }

  /** Which stored row holds image row `y`; the same map sends a stored row back to the
      image row it holds. */
  function StoredRow(f: Format, y: nat): (s: nat)
    requires y < f.h
    ensures s < f.h
  {
    if f.topdown != 0 then y else f.h - 1 - y
  }

  /** Image rows and stored rows correspond one to one: the map is its own inverse, so
      no two image rows share a stored row. Bottom-up, the first image row is stored
      last; top-down, first. */
  lemma {:induction false} StoredRowBijective(f: Format, y: nat, z: nat)
    requires y < f.h && z < f.h
    ensures StoredRow(f, StoredRow(f, y)) == y
    ensures StoredRow(f, y) == StoredRow(f, z) <==> y == z
    ensures StoredRow(f, 0) == (if f.topdown != 0 then 0 else f.h - 1)
  {
  }

  /** A row of `rowSize` bytes holds the `w * bpp` bits of its pixels. */
  predicate RowFits(f: Format)
  {
    Mul(f.w, f.bpp) <= 8 * f.rowSize
  }

  /** The pixel data of `f` lies inside a buffer of `n` bytes and each row holds its
      pixels: what storing pixels needs of a format. */
  predicate BitsFit(f: Format, n: int)
  {
    RowFits(f) && f.bitsOffset + Mul(f.h, f.rowSize) <= n
  }

  /** The bits layout `write_bits` computes keeps every row inside the pixel data, and
      all rows end at `mem_used`. */
  lemma {:induction false} BitsLayoutFits(f: Format)
    ensures var g := WithBitsLayout(f); BitsFit(g, g.memUsed) && g.rowSize == RowSize(f.w, f.bpp)
  {
    RowSizeHolds(f.w, f.bpp);
  }

  /** A context whose every field is zero, as `main` declares it. */
  function ZeroFormat(): Format
  {
    Format(0, 0, 0, 0, 0, 0, 0, 0, 0, 0, 0, 0, 0, 0, 0, 0,
           0, 0, 0, 0, 0, 0, 0, 0, 0, 0, 0, 0, 0, 0)
  }

  /** The configuration `defaultbmp` sets before calling `set_calculated_fields`. */
  function DefaultFields(): Format
  {
    Format(
      memUsed := 0, bpp := 8, palEntries := 252, clrUsed := 0, bmpVersion := 3,
      headerSize := 40, bitfieldsSize := 0, paletteSize := 0, bitsOffset := 0, bitsSize := 0,
      w := 127, h := 64, rowSize := 0, xPelsPerMeter := 2835, yPelsPerMeter := 2835,
      compression := BI_RGB, palWb := 0, palBg := 0, palP1 := 0, rgba := 0,
      bfR := 0, bfG := 0, bfB := 0, bfA := 0, nbitsR := 0, nbitsG := 0, nbitsB := 0, nbitsA := 0,
      dither := 0, topdown := 0)
  }

  /** The configuration `defaultbmp` leaves behind. */
  function DefaultFormat(): Format
  {
    Calculated(DefaultFields())
  }
}
