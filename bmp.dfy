/** bmpsuite's `struct context` and the writers that fill its buffer with one BMP file:
    `set_int16`, `set_int32`, `set_uint32`, `set_pixel`, `write_bits`,
    `write_bitfields`, `write_palette`, `write_fileheader`, `write_bitmapinfoheader`,
    `make_bmp`, `set_calculated_fields` and `defaultbmp`. Each writer is proved to leave
    the buffer as the field list or raster of the modules it imports describes. */
module Bmp {
  import opened Bytes
  import opened Arith
  import opened Bits
  import opened Quantize
  import opened Layout
  import opened Pixels
  import opened Raster
  import opened Headers
  import opened Palette

  /** `m` with entry bytes stored as `write_palette` stores them: red, then green, then
      blue, at offsets o + 2, o + 1 and o. */
  lemma {:induction false} EntryStored(m: seq<byte>, o: nat, b: byte, g: byte, r: byte)
    requires o + 3 <= |m|
    ensures m[o + 2 := r][o + 1 := g][o := b] == Put(m, o, [b, g, r])
  {
  }

  /** One more palette entry is one more field. */
  lemma {:induction false} EntriesSnoc(f: Format, n: nat, entry: nat -> seq<byte>)
    ensures Entries(f, n + 1, entry) == Entries(f, n, entry) + [EntryField(f, n, entry(n))]
  {
  }

  /** The requirements of `make_bmp` on the buffer: every writer stays inside it. */
  predicate MakeBmpFits(f: Format, n: int)
  {
    ChannelWidthsOk(f) && FILE_HEADER_SIZE <= n && InfoHeaderEnd(f.bmpVersion) <= n &&
    (f.bitfieldsSize == 12 ==> FILE_HEADER_SIZE + f.headerSize + 12 <= n) &&
    PaletteEnd(f) <= n && WithBitsLayout(f).memUsed <= n
  }

  /** The encoding of the pixels `write_bits` stores for format `f`. */
  function Image(f: Format, sample: Sampler, pow24: real -> real): (e: Encoding)
    requires ChannelWidthsOk(f)
    ensures Sized(f, e)
  {
    Encode(f, CodesOf(f, sample, pow24))
  }

  /** The buffer after the masks and the palette, before any pixel. */
  function Tables(m: seq<byte>, f: Format): (r: seq<byte>)
    requires MakeBmpFits(f, |m|)
    ensures |r| == |m|
  {
    PaletteLayout(f);
    var m1 := Apply(m, BitfieldsFields(f));
    Apply(m1, PaletteFields(f))
  }

  /** The file `make_bmp` writes into `m` for the configuration `f`: the masks, the
      palette, the pixels, then the info header and the file header, each with the
      layout `write_bits` computes. */
  function BmpFile(m: seq<byte>, f: Format, sample: Sampler, pow24: real -> real): (r: seq<byte>)
    requires MakeBmpFits(f, |m|)
    ensures |r| == |m|
  {
    var g := WithBitsLayout(f);
    BitsLayoutFits(f);
    InfoFieldsFit(g, |m|);
    var m3 := Rows(Tables(m, f), g, Image(g, sample, pow24), g.h);
    Apply(Apply(m3, InfoHeaderFields(g)), FileHeaderFields(g))
  }

  /** The four parts of the file follow each other: the two headers end where the DIB
      header size says, the palette follows the masks and ends before the pixel data. */
  predicate Ordered(f: Format)
  {
    InfoHeaderEnd(f.bmpVersion) <= FILE_HEADER_SIZE + f.headerSize && PaletteEnd(f) <= f.bitsOffset
  }

  /** `set_calculated_fields` lays out every version but 4 in order, provided a 1-bit
      file lists at least one colour (`write_palette` writes its first entry whatever
      the count). */
  lemma {:induction false} CalculatedOrdered(f: Format)
    requires f.bmpVersion <= 3 || f.bmpVersion == 5
    requires f.bpp == 1 ==> 1 <= f.palEntries
    ensures Ordered(Calculated(f))
  {
    var c := Calculated(f);
    InfoHeaderInsideHeader(f.bmpVersion);
    assert PaletteOffset(c) + 4 * f.palEntries == c.bitsOffset;
  }

  /** In the finished file the file header reads back: "BM", the size `write_bits`
      computed and the offset of the pixel data. */
  lemma {:induction false} BmpFileHeader(m: seq<byte>, f: Format, sample: Sampler, pow24: real -> real)
    requires MakeBmpFits(f, |m|)
    ensures var r := BmpFile(m, f, sample, pow24);
      r[0] == MAGIC_B && r[1] == MAGIC_M &&
      LE32(r[2..6]) == WithBitsLayout(f).memUsed % TWO32 && LE32(r[10..14]) == f.bitsOffset % TWO32
  {
    var g := WithBitsLayout(f);
    BitsLayoutFits(f);
    InfoFieldsFit(g, |m|);
    var m3 := Rows(Tables(m, f), g, Image(g, sample, pow24), g.h);
    FileHeaderReadBack(Apply(m3, InfoHeaderFields(g)), g);
  }

  /** In the finished file the BITMAPINFOHEADER fields read back, with the image size
      `write_bits` computed. */
  lemma {:induction false} BmpInfoHeader(m: seq<byte>, f: Format, sample: Sampler, pow24: real -> real)
    requires MakeBmpFits(f, |m|)
    ensures var r := BmpFile(m, f, sample, pow24);
      LE32(r[14..18]) == f.headerSize % TWO32 && LE32(r[18..22]) == f.w % TWO32 &&
      LE32(r[22..26]) == HeightField(f) % TWO32 && LE16(r[26..28]) == 1 &&
      LE16(r[28..30]) == f.bpp % TWO16 && LE32(r[30..34]) == f.compression % TWO32 &&
      LE32(r[34..38]) == WithBitsLayout(f).bitsSize % TWO32 &&
      LE32(r[46..50]) == f.clrUsed % TWO32
  {
    var g := WithBitsLayout(f);
    BitsLayoutFits(f);
    InfoFieldsFit(g, |m|);
    var m3 := Rows(Tables(m, f), g, Image(g, sample, pow24), g.h);
    HeadersReadBack(m3, g);
  }

  /** A byte outside the headers of an ordered file is not touched by them. */
  lemma {:induction false} HeadersKeep(m3: seq<byte>, g: Format, j: int)
    requires Ordered(g) && InfoHeaderEnd(g.bmpVersion) <= |m3| && FILE_HEADER_SIZE + g.headerSize <= j < |m3|
    ensures FieldsFit(InfoHeaderFields(g), |m3|)
    ensures Apply(Apply(m3, InfoHeaderFields(g)), FileHeaderFields(g))[j] == m3[j]
  {
    InfoFieldsFit(g, |m3|);
    InfoHeaderLayout(g);
    var m4 := Apply(m3, InfoHeaderFields(g));
    ApplyOutside(m4, FileHeaderFields(g), 0, FILE_HEADER_SIZE, j);
    ApplyOutside(m3, InfoHeaderFields(g), FILE_HEADER_SIZE, InfoHeaderEnd(g.bmpVersion), j);
  }

  /** In an ordered file every byte of the pixel data is what `write_bits` stored: the
      headers written after it stay in front of it. */
  lemma {:induction false} BmpPixelData(m: seq<byte>, f: Format, sample: Sampler, pow24: real -> real, j: int)
    requires MakeBmpFits(f, |m|) && Ordered(f) && f.bitsOffset <= j < |m|
    ensures var g := WithBitsLayout(f);
      BitsFit(g, |m|) &&
      BmpFile(m, f, sample, pow24)[j] == Rows(Tables(m, f), g, Image(g, sample, pow24), g.h)[j]
  {
    var g := WithBitsLayout(f);
    BitsLayoutFits(f);
    var m3 := Rows(Tables(m, f), g, Image(g, sample, pow24), g.h);
    HeadersKeep(m3, g, j);
  }

  /** The masks and the palette lie in front of the pixel data. */
  lemma {:induction false} TablesKeep(m: seq<byte>, f: Format, j: int)
    requires MakeBmpFits(f, |m|) && Ordered(f) && f.bitsOffset <= j < |m|
    ensures Tables(m, f)[j] == m[j]
  {
    PaletteLayout(f);
    var m1 := Apply(m, BitfieldsFields(f));
    ApplyOutside(m1, PaletteFields(f), PaletteOffset(f), PaletteEnd(f), j);
    if f.bitfieldsSize == 12 {
      ApplyOutside(m, BitfieldsFields(f), FILE_HEADER_SIZE + f.headerSize, FILE_HEADER_SIZE + f.headerSize + 12, j);
    }
  }

  /** In an ordered file of a whole-byte depth, byte t of pixel (x, y) is byte t of what
      `set_pixel` stores for that pixel's colour. */
  lemma {:induction false} BmpPixelBytes(m: seq<byte>, f: Format, sample: Sampler, pow24: real -> real, x: nat, y: nat, t: nat)
    requires MakeBmpFits(f, |m|) && Ordered(f) && WholeBytes(f.bpp)
    requires x < f.w && y < f.h && t < BytesPerPixel(f.bpp)
    ensures var g := WithBitsLayout(f); var o := RowBase(g, y) + PixelByte(g, x) + t;
      o < |m| && BmpFile(m, f, sample, pow24)[o] == PixelBytes(g, PixelCodes(g, x, y, sample(x, y), pow24))[t]
  {
    var g := WithBitsLayout(f);
    BitsLayoutFits(f);
    var e := Image(g, sample, pow24);
    ImageWhole(Tables(m, f), g, e, x, y, t);
    BmpPixelData(m, f, sample, pow24, RowBase(g, y) + PixelByte(g, x) + t);
  }

  /** In an ordered 4-bit file written into a cleared buffer, with non-negative colours,
      byte k of row y holds the R2G3B2 indices of pixels 2k (high nibble) and 2k + 1 (low
      nibble, 0 past the end of the row). */
  lemma {:induction false} BmpNibbles(m: seq<byte>, f: Format, sample: Sampler, pow24: real -> real, y: nat, k: nat)
    requires MakeBmpFits(f, |m|) && Ordered(f) && f.bpp == 4 && NonNegativeSamples(sample)
    requires y < f.h && 2 * k < f.w
    requires forall j :: f.bitsOffset <= j < |m| ==> m[j] == 0
    ensures var g := WithBitsLayout(f); var o := RowBase(g, y) + k;
      var q := CodesOf(g, sample, pow24);
      o < |m| && BmpFile(m, f, sample, pow24)[o] / 16 == Index4(q(2 * k, y)) &&
      BmpFile(m, f, sample, pow24)[o] % 16 == (if 2 * k + 1 < f.w then Index4(q(2 * k + 1, y)) else 0)
  {
    var g := WithBitsLayout(f);
    BitsLayoutFits(f);
    var q := CodesOf(g, sample, pow24);
    var o := RowBase(g, y) + k;
    assert Mul(k, 2) < g.w by { MulIs(k, 2); }
    ByteSpotAt(g, k, y);
    TablesKeep(m, f, o);
    Sampled4(g, sample, pow24, 2 * k, y);
    Sampled4(g, sample, pow24, 2 * k + 1, y);
    Image4Byte(Tables(m, f), g, q, y, k);
    BmpPixelData(m, f, sample, pow24, o);
    var v := Rows(Tables(m, f), g, Encode(g, q), g.h)[o];
    assert BmpFile(m, f, sample, pow24)[o] == v;
    assert v / 16 == Index4Of(q)(2 * k, y) == Index4(q(2 * k, y));
  }

  /** In an ordered 1-bit file written into a cleared buffer, byte k of row y holds the
      bits of pixels 8k .. 8k + 7, the leftmost in the most significant bit. */
  lemma {:induction false} BmpBits(m: seq<byte>, f: Format, sample: Sampler, pow24: real -> real, y: nat, k: nat)
    requires MakeBmpFits(f, |m|) && Ordered(f) && f.bpp == 1
    requires y < f.h && 8 * k < f.w
    requires forall j :: f.bitsOffset <= j < |m| ==> m[j] == 0
    ensures var g := WithBitsLayout(f); var o := RowBase(g, y) + k;
      o < |m| && BmpFile(m, f, sample, pow24)[o] == MsbBits(g, Bit1Of(CodesOf(g, sample, pow24)), k, y, 8)
  {
    var g := WithBitsLayout(f);
    BitsLayoutFits(f);
    var q := CodesOf(g, sample, pow24);
    var o := RowBase(g, y) + k;
    assert Mul(k, 8) < g.w by { MulIs(k, 8); }
    ByteSpotAt(g, k, y);
    TablesKeep(m, f, o);
    Image1Byte(Tables(m, f), g, q, y, k);
    BmpPixelData(m, f, sample, pow24, o);
  }

  /** In an ordered file the palette survives the pixels and the headers written after
      it. */
  lemma {:induction false} BmpPalette(m: seq<byte>, f: Format, sample: Sampler, pow24: real -> real, j: int)
    requires MakeBmpFits(f, |m|) && Ordered(f) && PaletteOffset(f) <= j < PaletteEnd(f)
    ensures BmpFile(m, f, sample, pow24)[j] == Tables(m, f)[j]
  {
    var g := WithBitsLayout(f);
    BitsLayoutFits(f);
    var m2 := Tables(m, f);
    var m3 := Rows(m2, g, Image(g, sample, pow24), g.h);
    ImageKeepsOutside(m2, g, Image(g, sample, pow24), j);
    HeadersKeep(m3, g, j);
  }

  /** The buffer and the configuration of the file being written. */
  class Context {
    /** The file buffer. */
    const mem: array<byte>
    /** Every other field of `struct context` but the file name. */
    var fmt: Format

    /** `main`: every field zero and a fresh buffer of `BMP_MAX_SIZE` bytes. */
    constructor ()
      ensures fresh(mem) && mem.Length == BMP_MAX_SIZE
      ensures fmt == ZeroFormat()
    {
      mem := new byte[BMP_MAX_SIZE];
      fmt := ZeroFormat();
    }

    /** `set_int16`: the low two bytes of `v`, low byte first. */
    method SetInt16(offset: nat, v: int)
      requires offset + 2 <= mem.Length
      modifies mem
      ensures mem[..] == Put(old(mem[..]), offset, Int16Bytes(v))
    {
      mem[offset] := LowByte(v);
      mem[offset + 1] := LowByte(v / 0x100);
    }

    /** `set_int32`: the four bytes of `v` modulo 2^32, low byte first. */
    method SetInt32(offset: nat, v: int)
      requires offset + 4 <= mem.Length
      modifies mem
      ensures mem[..] == Put(old(mem[..]), offset, Int32Bytes(v))
    {
      mem[offset] := LowByte(v);
      mem[offset + 1] := LowByte(v / 0x100);
      mem[offset + 2] := LowByte(v / 0x1_0000);
      mem[offset + 3] := LowByte(v / 0x100_0000);
    }

    /** `set_uint32`: the four bytes of `v`, low byte first. */
    method SetUint32(offset: nat, v: u32)
      requires offset + 4 <= mem.Length
      modifies mem
      ensures mem[..] == Put(old(mem[..]), offset, Int32Bytes(v))
    {
      mem[offset] := LowByte(v);
      mem[offset + 1] := LowByte(v / 0x100);
      mem[offset + 2] := LowByte(v / 0x1_0000);
      mem[offset + 3] := LowByte(v / 0x100_0000);
    }

    /** `set_pixel`: the codes of colour (r, g, b, a) for pixel (x, y), stored into the
        byte or bytes of that pixel, or ORed into the byte it shares with its
        neighbours. */
    method SetPixel(x: nat, y: nat, r: real, g: real, b: real, a: real, pow24: real -> real)
      requires x < fmt.w && y < fmt.h && BitsFit(fmt, mem.Length) && ChannelWidthsOk(fmt)
      modifies mem
      ensures mem[..] == StorePixel(old(mem[..]), fmt, x, y, Color(r, g, b, a), pow24)
    {
      if WholeBytes(fmt.bpp) {
        SetWholePixel(x, y, Color(r, g, b, a), pow24);
      } else if SubByte(fmt.bpp) {
        SetSubPixel(x, y, Color(r, g, b, a), pow24);
      } else {
        PixelStoredNone(mem[..], fmt, x, y, Color(r, g, b, a), pow24);
      }
    }

    /** The branches of `set_pixel` for 32, 24, 16 and 8 bits per pixel: the bytes of
        the pixel, least significant first. */
    method SetWholePixel(x: nat, y: nat, c: Color, pow24: real -> real)
      requires x < fmt.w && y < fmt.h && BitsFit(fmt, mem.Length) && ChannelWidthsOk(fmt)
      requires WholeBytes(fmt.bpp)
      modifies mem
      ensures mem[..] == StorePixel(old(mem[..]), fmt, x, y, c, pow24)
    {
      var f := fmt;
      ghost var m := mem[..];
      var q := PixelCodes(f, x, y, c, pow24);
      var rowOffs := RowOffs(f, y);
      if f.bpp == 32 {
        var offs := f.bitsOffset + rowOffs + 4 * x;
        PixelStoredWhole(m, f, x, y, c, pow24, offs);
        if f.compression == BI_BITFIELDS && f.rgba == 0 {
          var u := PackRgb(q, f.nbitsG, f.nbitsB);
          mem[offs] := LowByte(u);
          mem[offs + 1] := LowByte(u / 0x100);
          mem[offs + 2] := LowByte(u / 0x1_0000);
          mem[offs + 3] := LowByte(u / 0x100_0000);
        } else {
          mem[offs] := LowByte(q.b);
          mem[offs + 1] := LowByte(q.g);
          mem[offs + 2] := LowByte(q.r);
          mem[offs + 3] := LowByte(q.a);
        }
        Put4(m, offs, PixelBytes(f, q));
      } else if f.bpp == 24 {
        var offs := f.bitsOffset + rowOffs + 3 * x;
        PixelStoredWhole(m, f, x, y, c, pow24, offs);
        mem[offs] := LowByte(q.b);
        mem[offs + 1] := LowByte(q.g);
        mem[offs + 2] := LowByte(q.r);
        Put3(m, offs, PixelBytes(f, q));
      } else if f.bpp == 16 {
        var offs := f.bitsOffset + rowOffs + 2 * x;
        PixelStoredWhole(m, f, x, y, c, pow24, offs);
        var u := Word16(f, q);
        mem[offs] := LowByte(u);
        mem[offs + 1] := LowByte(u / 0x100);
        Put2(m, offs, PixelBytes(f, q));
      } else {
        var offs := f.bitsOffset + rowOffs + x;
        PixelStoredWhole(m, f, x, y, c, pow24, offs);
        mem[offs] := LowByte(Index8(q));
        Put1(m, offs, PixelBytes(f, q));
      }
    }

    /** The branches of `set_pixel` for 4 and 1 bits per pixel: the pixel's bits ORed
        into the byte it shares with its neighbours. */
    method SetSubPixel(x: nat, y: nat, c: Color, pow24: real -> real)
      requires x < fmt.w && y < fmt.h && BitsFit(fmt, mem.Length) && ChannelWidthsOk(fmt)
      requires SubByte(fmt.bpp)
      modifies mem
      ensures mem[..] == StorePixel(old(mem[..]), fmt, x, y, c, pow24)
    {
      var f := fmt;
      ghost var m := mem[..];
      var q := PixelCodes(f, x, y, c, pow24);
      var rowOffs := RowOffs(f, y);
      if f.bpp == 4 {
        var offs := f.bitsOffset + rowOffs + x / 2;
        PixelStoredSub(m, f, x, y, c, pow24, offs);
        var p := Index4(q);
        if x % 2 == 1 {
          mem[offs] := OrByte(mem[offs], LowByte(p));
        } else {
          mem[offs] := OrByte(mem[offs], LowByte(16 * p));
        }
      } else {
        var offs := f.bitsOffset + rowOffs + x / 8;
        PixelStoredSub(m, f, x, y, c, pow24, offs);
        if q.r == 1 {
          mem[offs] := OrByte(mem[offs], BitMask(x));
        } else {
          assert m == m[offs := OrByte(m[offs], 0)];
        }
      }
    }

    /** `write_bits`: the row size, the image size and the file size, then every
        pixel stored in turn, row by row, with the colour `sample` gives it. */
    method WriteBits(sample: Sampler, pow24: real -> real)
      requires ChannelWidthsOk(fmt) && WithBitsLayout(fmt).memUsed <= mem.Length
      modifies this, mem
      ensures fmt == WithBitsLayout(old(fmt))
      ensures BitsFit(fmt, mem.Length)
      ensures mem[..] == Rows(old(mem[..]), fmt, Image(fmt, sample, pow24), fmt.h)
    {
      BitsLayoutFits(fmt);
      SetBitsLayout();
      WriteRows(sample, pow24);
    }

    /** The first three statements of `write_bits`: the row size rounded up to whole
        32-bit words, the image size and the file size. */
    method SetBitsLayout()
      modifies this
      ensures fmt == WithBitsLayout(old(fmt))
    {
      var rowSize := ((fmt.w * fmt.bpp + 31) / 32) * 4;
      BitsLayoutUpdate(fmt, rowSize);
      fmt := fmt.(rowSize := rowSize, bitsSize := rowSize * fmt.h, memUsed := fmt.bitsOffset + rowSize * fmt.h);
    }

    /** The loops of `write_bits`: every image row in turn, from row 0 up. */
    method WriteRows(sample: Sampler, pow24: real -> real)
      requires ChannelWidthsOk(fmt) && BitsFit(fmt, mem.Length)
      modifies mem
      ensures mem[..] == Rows(old(mem[..]), fmt, Image(fmt, sample, pow24), fmt.h)
    {
      ghost var m0 := mem[..];
      var j := 0;
      while j < fmt.h
        invariant 0 <= j <= fmt.h
        invariant mem[..] == Rows(m0, fmt, Image(fmt, sample, pow24), j)
      {
        WriteRow(j, sample, pow24);
        j := j + 1;
      }
    }

    /** One pass of the outer loop of `write_bits`: every pixel of image row y, left to
        right. */
    method WriteRow(y: nat, sample: Sampler, pow24: real -> real)
      requires y < fmt.h && ChannelWidthsOk(fmt) && BitsFit(fmt, mem.Length)
      modifies mem
      ensures mem[..] == Row(old(mem[..]), fmt, Image(fmt, sample, pow24), y, fmt.w)
    {
      ghost var e := Image(fmt, sample, pow24);
      ghost var m0 := mem[..];
      var i := 0;
      while i < fmt.w
        invariant 0 <= i <= fmt.w
        invariant mem[..] == Row(m0, fmt, e, y, i)
      {
        var c := sample(i, y);
        StorePixelStep(mem[..], fmt, i, y, sample, pow24);
        SetPixel(i, y, c.r, c.g, c.b, c.a, pow24);
        i := i + 1;
      }
    }

    /** `write_bitfields`: the three masks after the DIB header, when the format has
        room for them. */
    method WriteBitfields()
      requires fmt.bitfieldsSize == 12 ==> FILE_HEADER_SIZE + fmt.headerSize + 12 <= mem.Length
      modifies mem
      ensures FieldsFit(BitfieldsFields(fmt), mem.Length)
      ensures mem[..] == Apply(old(mem[..]), BitfieldsFields(fmt))
    {
      if fmt.bitfieldsSize != 12 {
        return;
      }
      var offs := FILE_HEADER_SIZE + fmt.headerSize;
      ghost var m0 := mem[..];
      ghost var fs: seq<Field> := [];
      SetUint32(offs, fmt.bfR);
      fs := Stored(m0, fs, F32(offs, fmt.bfR), mem[..]);
      SetUint32(offs + 4, fmt.bfG);
      fs := Stored(m0, fs, F32(offs + 4, fmt.bfG), mem[..]);
      SetUint32(offs + 8, fmt.bfB);
      fs := Stored(m0, fs, F32(offs + 8, fmt.bfB), mem[..]);
      assert fs == BitfieldsFields(fmt);
    }

    /** `write_palette`: the palette of the depth and flags of the format, each entry
        written blue, green, red at four bytes per entry after the masks. */
    method WritePalette()
      requires PaletteEnd(fmt) <= mem.Length
      modifies mem
      ensures FieldsFit(PaletteFields(fmt), mem.Length)
      ensures mem[..] == Apply(old(mem[..]), PaletteFields(fmt))
    {
      PaletteLayout(fmt);
      if fmt.bpp == 8 {
        WritePalette8();
      } else if fmt.bpp == 4 {
        WritePalette4();
      } else if fmt.bpp == 1 {
        WritePalette1();
      } else if fmt.bpp > 8 {
        WriteSuggested();
      }
    }

    /** The 8-bit branch of `write_palette`: entries 0 .. 255 of the R6G7B6 cube; an
        entry past 255 is skipped. */
    method WritePalette8()
      requires PaletteOffset(fmt) + 4 * Count8(fmt.palEntries) - 1 <= mem.Length
      modifies mem
      ensures FieldsFit(Entries(fmt, Count8(fmt.palEntries), Entry8), mem.Length)
      ensures mem[..] == Apply(old(mem[..]), Entries(fmt, Count8(fmt.palEntries), Entry8))
    {
      var f := fmt;
      ghost var m0 := mem[..];
      var offs := FILE_HEADER_SIZE + f.headerSize + f.bitfieldsSize;
      var i := 0;
      while i < f.palEntries
        invariant 0 <= i <= f.palEntries
        invariant FieldsFit(Entries(f, Count8(i), Entry8), mem.Length)
        invariant mem[..] == Apply(m0, Entries(f, Count8(i), Entry8))
      {
        if i >= MAX_ENTRIES_8 {
          assert Count8(i + 1) == Count8(i);
          i := i + 1;
          continue;
        }
        assert Count8(i) == i && Count8(i + 1) == i + 1;
        var r, g, b := i % 6, (i % 42) / 6, i / 42;
        ghost var before := mem[..];
        mem[offs + 4 * i + 2] := Level(r, 5);
        mem[offs + 4 * i + 1] := Level(g, 6);
        mem[offs + 4 * i + 0] := Level(b, 5);
        EntryWritten(f, m0, before, mem[..], i, Count8(f.palEntries), Entry8,
          Level(b, 5), Level(g, 6), Level(r, 5));
        i := i + 1;
      }
    }

    /** The 4-bit branch of `write_palette`: the R2G3B2 cube. */
    method WritePalette4()
      requires PaletteOffset(fmt) + 4 * fmt.palEntries - 1 <= mem.Length
      modifies mem
      ensures FieldsFit(Entries(fmt, fmt.palEntries, Entry4), mem.Length)
      ensures mem[..] == Apply(old(mem[..]), Entries(fmt, fmt.palEntries, Entry4))
    {
      var f := fmt;
      ghost var m0 := mem[..];
      var offs := FILE_HEADER_SIZE + f.headerSize + f.bitfieldsSize;
      var i := 0;
      while i < f.palEntries
        invariant 0 <= i <= f.palEntries
        invariant FieldsFit(Entries(f, i, Entry4), mem.Length)
        invariant mem[..] == Apply(m0, Entries(f, i, Entry4))
      {
        var r, g, b := i % 2, (i % 6) / 2, i / 6;
        ghost var before := mem[..];
        mem[offs + 4 * i + 2] := Level(r, 1);
        mem[offs + 4 * i + 1] := Level(g, 2);
        mem[offs + 4 * i + 0] := Level(b, 1);
        EntryWritten(f, m0, before, mem[..], i, f.palEntries, Entry4,
          Level(b, 1), Level(g, 2), Level(r, 1));
        i := i + 1;
      }
    }

    /** The 1-bit branch of `write_palette`. */
    method WritePalette1()
      requires fmt.bpp == 1 && PaletteEnd(fmt) <= mem.Length
      modifies mem
      ensures FieldsFit(Bilevel(fmt), mem.Length)
      ensures mem[..] == Apply(old(mem[..]), Bilevel(fmt))
    {
      var f := fmt;
      ghost var m := mem[..];
      var offs := FILE_HEADER_SIZE + f.headerSize + f.bitfieldsSize;
      assert offs == PaletteOffset(f);
      if f.palEntries == 2 {
        if f.palWb != 0 {
          SetEntry(offs + 4 * 0, 255, 255, 255);
          EntryApplied(m, f, 0, WHITE);
          assert Bilevel(f) == [EntryField(f, 0, WHITE)];
          assert mem[..] == Apply(m, Bilevel(f));
        } else if f.palBg != 0 {
          SetEntry(offs + 4 * 0, 255, 64, 64);
          ghost var m1 := mem[..];
          SetEntry(offs + 4 * 1, 64, 255, 64);
          PairApplied(m, m1, f);
          assert Bilevel(f) == [EntryField(f, 0, BLUE), EntryField(f, 1, GREEN)];
          assert mem[..] == Apply(m, Bilevel(f));
        } else {
          SetEntry(offs + 4 * 1, 255, 255, 255);
          EntryApplied(m, f, 1, WHITE);
          assert Bilevel(f) == [EntryField(f, 1, WHITE)];
          assert mem[..] == Apply(m, Bilevel(f));
        }
      } else {
        SetEntry(offs + 4 * 0, 255, 64, 64);
        EntryApplied(m, f, 0, BLUE);
        assert Bilevel(f) == [EntryField(f, 0, BLUE)];
        assert mem[..] == Apply(m, Bilevel(f));
      }
    }

    /** One palette entry of the 1-bit branch of `write_palette`: red, green, then blue
        at offsets o + 2, o + 1 and o. */
    method SetEntry(o: nat, b: byte, g: byte, r: byte)
      requires o + 3 <= mem.Length
      modifies mem
      ensures mem[..] == old(mem[..])[o + 2 := r][o + 1 := g][o := b]
    {
      mem[o + 2] := r;
      mem[o + 1] := g;
      mem[o] := b;
    }

    /** The branch of `write_palette` for depths above 8: the suggested grey ramp. */
    method WriteSuggested()
      requires PaletteOffset(fmt) + 4 * fmt.palEntries - 1 <= mem.Length
      modifies mem
      ensures FieldsFit(Entries(fmt, fmt.palEntries, Suggested), mem.Length)
      ensures mem[..] == Apply(old(mem[..]), Entries(fmt, fmt.palEntries, Suggested))
    {
      var f := fmt;
      ghost var m0 := mem[..];
      var offs := FILE_HEADER_SIZE + f.headerSize + f.bitfieldsSize;
      var i := 0;
      while i < f.palEntries
        invariant 0 <= i <= f.palEntries
        invariant FieldsFit(Entries(f, i, Suggested), mem.Length)
        invariant mem[..] == Apply(m0, Entries(f, i, Suggested))
      {
        ghost var before := mem[..];
        mem[offs + 4 * i + 2] := LowByte(i * 15);
        mem[offs + 4 * i + 1] := LowByte(i * 15);
        mem[offs + 4 * i + 0] := LowByte(i * 15);
        EntryWritten(f, m0, before, mem[..], i, f.palEntries, Suggested, LowByte(i * 15), LowByte(i * 15), LowByte(i * 15));
        i := i + 1;
      }
    }

    /** `write_fileheader`: the signature, the file size and the offset of the pixel
        data. */
    method WriteFileHeader()
      requires FILE_HEADER_SIZE <= mem.Length
      modifies mem
      ensures FieldsFit(FileHeaderFields(fmt), mem.Length)
      ensures mem[..] == Apply(old(mem[..]), FileHeaderFields(fmt))
    {
      ghost var m0 := mem[..];
      ghost var fs: seq<Field> := [];
      mem[0] := MAGIC_B;
      mem[1] := MAGIC_M;
      fs := Stored(m0, fs, Field(0, [MAGIC_B, MAGIC_M]), mem[..]);
      SetInt32(2, fmt.memUsed);
      fs := Stored(m0, fs, F32(2, fmt.memUsed), mem[..]);
      SetInt32(10, fmt.bitsOffset);
      fs := Stored(m0, fs, F32(10, fmt.bitsOffset), mem[..]);
      assert fs == FileHeaderFields(fmt);
    }

    /** `write_bitmapinfoheader`: the BITMAPINFOHEADER fields, then the version 4 and
        version 5 extensions the format's version asks for. */
    method WriteBitmapInfoHeader()
      requires InfoHeaderEnd(fmt.bmpVersion) <= mem.Length
      modifies mem
      ensures FieldsFit(InfoHeaderFields(fmt), mem.Length)
      ensures mem[..] == Apply(old(mem[..]), InfoHeaderFields(fmt))
    {
      ghost var m0 := mem[..];
      InfoHeaderParts(m0, fmt);
      WriteInfoBase();
      if fmt.bmpVersion >= 4 {
        WriteV4();
      }
      ghost var m2 := mem[..];
      if fmt.bmpVersion >= 5 {
        SetUint32(14 + 108, LCS_GM_IMAGES);
        ghost var v5 := Stored(m2, [], F32(122, LCS_GM_IMAGES), mem[..]);
      }
    }

    /** The BITMAPINFOHEADER part of `write_bitmapinfoheader`. */
    method WriteInfoBase()
      requires 54 <= mem.Length
      modifies mem
      ensures FieldsFit(InfoBaseFields(fmt), mem.Length)
      ensures mem[..] == Apply(old(mem[..]), InfoBaseFields(fmt))
    {
      ghost var m0 := mem[..];
      ghost var fs := InfoBaseFields(fmt);
      WriteInfoDims();
      WriteInfoCounts();
      ApplyConcat(m0, fs[..5], fs[5..]);
      assert fs == fs[..5] + fs[5..];
    }

    /** The first fields of the BITMAPINFOHEADER: its size, the width, the height (negated
        for a top-down image), one plane and the depth. */
    method WriteInfoDims()
      requires 54 <= mem.Length
      modifies mem
      ensures FieldsFit(InfoBaseFields(fmt)[..5], mem.Length)
      ensures mem[..] == Apply(old(mem[..]), InfoBaseFields(fmt)[..5])
    {
      var f := fmt;
      ghost var m0 := mem[..];
      ghost var fs: seq<Field> := [];
      SetInt32(14 + 0, f.headerSize);
      fs := Stored(m0, fs, F32(14, f.headerSize), mem[..]);
      SetInt32(14 + 4, f.w);
      fs := Stored(m0, fs, F32(18, f.w), mem[..]);
      SetInt32(14 + 8, if f.topdown != 0 then -(f.h as int) else f.h);
      fs := Stored(m0, fs, F32(22, HeightField(f)), mem[..]);
      SetInt16(14 + 12, 1);
      fs := Stored(m0, fs, F16(26, 1), mem[..]);
      SetInt16(14 + 14, f.bpp);
      fs := Stored(m0, fs, F16(28, f.bpp), mem[..]);
      assert fs == InfoBaseFields(f)[..5];
    }

    /** The remaining fields of the BITMAPINFOHEADER: the compression, the image size,
        the resolution, the number of colours used and 0 important colours. */
    method WriteInfoCounts()
      requires 54 <= mem.Length
      modifies mem
      ensures FieldsFit(InfoBaseFields(fmt)[5..], mem.Length)
      ensures mem[..] == Apply(old(mem[..]), InfoBaseFields(fmt)[5..])
    {
      var f := fmt;
      ghost var m0 := mem[..];
      ghost var fs: seq<Field> := [];
      SetInt32(14 + 16, f.compression);
      fs := Stored(m0, fs, F32(30, f.compression), mem[..]);
      SetInt32(14 + 20, f.bitsSize);
      fs := Stored(m0, fs, F32(34, f.bitsSize), mem[..]);
      SetInt32(14 + 24, f.xPelsPerMeter);
      fs := Stored(m0, fs, F32(38, f.xPelsPerMeter), mem[..]);
      SetInt32(14 + 28, f.yPelsPerMeter);
      fs := Stored(m0, fs, F32(42, f.yPelsPerMeter), mem[..]);
      SetInt32(14 + 32, f.clrUsed);
      fs := Stored(m0, fs, F32(46, f.clrUsed), mem[..]);
      SetInt32(14 + 36, 0);
      fs := Stored(m0, fs, F32(50, 0), mem[..]);
      assert fs == InfoBaseFields(f)[5..];
    }

    /** The version 4 part of `write_bitmapinfoheader`: the masks when they are in the
        header, then the colour space type. */
    method WriteV4()
      requires 74 <= mem.Length
      modifies mem
      ensures FieldsFit(V4Fields(fmt), mem.Length)
      ensures mem[..] == Apply(old(mem[..]), V4Fields(fmt))
    {
      var f := fmt;
      ghost var m0 := mem[..];
      V4Stored(m0, f);
      if f.compression == BI_BITFIELDS && f.rgba != 0 {
        SetUint32(14 + 40, f.bfR);
        SetUint32(14 + 44, f.bfG);
        SetUint32(14 + 48, f.bfB);
        SetUint32(14 + 52, f.bfA);
      }
      SetUint32(14 + 56, LCS_SRGB);
    }

    /** `make_bmp`: the masks, the palette, the pixels, the info header and the file
        header, in that order. */
    method MakeBmp(sample: Sampler, pow24: real -> real)
      requires MakeBmpFits(fmt, mem.Length)
      modifies this, mem
      ensures fmt == WithBitsLayout(old(fmt))
      ensures mem[..] == BmpFile(old(mem[..]), old(fmt), sample, pow24)
    {
      ghost var f := fmt;
      ghost var m0 := mem[..];
      WriteBitfields();
      WritePalette();
      assert mem[..] == Tables(m0, f);
      WriteBits(sample, pow24);
      InfoFieldsFit(fmt, mem.Length);
      WriteBitmapInfoHeader();
      WriteFileHeader();
    }

    /** `set_calculated_fields`: the DIB header size for the version, the colour count,
        the palette size and the offset of the pixel data. */
    method SetCalculatedFields()
      modifies this
      ensures fmt == Calculated(old(fmt))
    {
      if fmt.bmpVersion == 5 {
        fmt := fmt.(headerSize := 124);
      } else {
        fmt := fmt.(headerSize := 40);
      }
      if fmt.bpp == 8 && fmt.palEntries != 256 {
        fmt := fmt.(clrUsed := fmt.palEntries);
      } else if fmt.bpp == 4 && fmt.palEntries != 16 {
        fmt := fmt.(clrUsed := fmt.palEntries);
      } else if fmt.bpp == 1 && fmt.palEntries != 2 {
        fmt := fmt.(clrUsed := fmt.palEntries);
      } else {
        fmt := fmt.(clrUsed := fmt.palEntries);
      }
      fmt := fmt.(paletteSize := fmt.palEntries * 4);
      fmt := fmt.(bitsOffset := FILE_HEADER_SIZE + fmt.headerSize + fmt.bitfieldsSize + fmt.paletteSize);
    }

    /** `defaultbmp`: a cleared buffer and the 127 x 64, 8-bit configuration with a
        252-colour palette, laid out. */
    method DefaultBmp()
      requires BMP_MAX_SIZE <= mem.Length
      modifies this, mem
      ensures fmt == DefaultFormat()
      ensures forall i :: 0 <= i < BMP_MAX_SIZE ==> mem[i] == 0
      ensures mem[BMP_MAX_SIZE..] == old(mem[BMP_MAX_SIZE..])
    {
      var i := 0;
      while i < BMP_MAX_SIZE
        invariant 0 <= i <= BMP_MAX_SIZE
        invariant forall k :: 0 <= k < i ==> mem[k] == 0
        invariant mem[BMP_MAX_SIZE..] == old(mem[BMP_MAX_SIZE..])
      {
        mem[i] := 0;
        i := i + 1;
      }
      fmt := DefaultUpdate(fmt);
      SetCalculatedFields();
    }
  }

  /** The assignments of `defaultbmp` before it calls `set_calculated_fields`: every
      field of `DefaultFields` but the palette size and the pixel data offset, which that
      call sets and which keep their values from `f` until then. */
  function DefaultUpdate(f: Format): (g: Format)
    ensures g.paletteSize == f.paletteSize && g.bitsOffset == f.bitsOffset
    ensures Calculated(g) == DefaultFormat()
  {
    DefaultFields().(paletteSize := f.paletteSize, bitsOffset := f.bitsOffset)
  }

  /** The assignments `write_bits` makes before its loops give the bits layout. */
  lemma {:induction false} BitsLayoutUpdate(f: Format, rowSize: nat)
    requires rowSize == ((f.w * f.bpp + 31) / 32) * 4
    ensures f.(rowSize := rowSize, bitsSize := rowSize * f.h, memUsed := f.bitsOffset + rowSize * f.h) ==
      WithBitsLayout(f)
  {
    RowSizeIsPaddedRow(f.w, f.bpp);
    MulIs(f.h, rowSize);
  }

  /** The version 4 fields stored one after the other. */
  lemma {:induction false} V4Stored(m: seq<byte>, f: Format)
    requires 74 <= |m|
    ensures FieldsFit(V4Fields(f), |m|)
    ensures var m4 := if f.compression == BI_BITFIELDS && f.rgba != 0 then
        Put(Put(Put(Put(m, 54, Int32Bytes(f.bfR)), 58, Int32Bytes(f.bfG)), 62, Int32Bytes(f.bfB)), 66, Int32Bytes(f.bfA))
      else m;
      Apply(m, V4Fields(f)) == Put(m4, 70, Int32Bytes(LCS_SRGB))
  {
    var cs := [F32(70, LCS_SRGB)];
    if f.compression == BI_BITFIELDS && f.rgba != 0 {
      var ms := MaskFields(f);
      assert V4Fields(f) == ms + cs;
      Apply4(m, ms[0], ms[1], ms[2], ms[3]);
      assert ms == [ms[0], ms[1], ms[2], ms[3]];
      ApplyConcat(m, ms, cs);
      Apply1(Apply(m, ms), cs[0]);
    } else {
      assert V4Fields(f) == cs;
      Apply1(m, cs[0]);
    }
  }

  /** Storing palette entry i, blue, green, red, is three byte updates, red first. */
  lemma {:induction false} EntryApplied(m: seq<byte>, f: Format, i: nat, bgr: seq<byte>)
    requires |bgr| == 3 && PaletteOffset(f) + 4 * i + 3 <= |m|
    ensures var o := PaletteOffset(f) + 4 * i;
      FieldsFit([EntryField(f, i, bgr)], |m|) &&
      Apply(m, [EntryField(f, i, bgr)]) == m[o + 2 := bgr[2]][o + 1 := bgr[1]][o := bgr[0]]
  {
    var o := PaletteOffset(f) + 4 * i;
    Apply1(m, EntryField(f, i, bgr));
    EntryStored(m, o, bgr[0], bgr[1], bgr[2]);
    assert bgr == [bgr[0], bgr[1], bgr[2]];
  }

  /** Storing the blue and green entries of a two-colour palette one after the other. */
  lemma {:induction false} PairApplied(m: seq<byte>, m1: seq<byte>, f: Format)
    requires PaletteOffset(f) + 7 <= |m|
    requires var o := PaletteOffset(f); m1 == m[o + 2 := 64][o + 1 := 64][o := 255]
    ensures var o := PaletteOffset(f); var fs := [EntryField(f, 0, BLUE), EntryField(f, 1, GREEN)];
      FieldsFit(fs, |m|) && Apply(m, fs) == m1[o + 6 := 64][o + 5 := 255][o + 4 := 64]
  {
    var o := PaletteOffset(f);
    EntryStored(m, o, 255, 64, 64);
    EntryStored(m1, o + 4, 64, 255, 64);
    Apply2(m, EntryField(f, 0, BLUE), EntryField(f, 1, GREEN));
  }

  /** Storing one field is a `Put`. */
  lemma {:induction false} Apply1(m: seq<byte>, a: Field)
    requires End(a) <= |m|
    ensures FieldsFit([a], |m|) && Apply(m, [a]) == Put(m, a.offset, a.bytes)
  {
    ApplySnoc(m, [], a);
    assert [] + [a] == [a];
  }

  /** Storing two fields is two `Put`s. */
  lemma {:induction false} Apply2(m: seq<byte>, a: Field, b: Field)
    requires End(a) <= |m| && End(b) <= |m|
    ensures FieldsFit([a, b], |m|)
    ensures Apply(m, [a, b]) == Put(Put(m, a.offset, a.bytes), b.offset, b.bytes)
  {
    Apply1(m, a);
    ApplySnoc(m, [a], b);
    assert [a] + [b] == [a, b];
  }

  /** Storing four fields is four `Put`s. */
  lemma {:induction false} Apply4(m: seq<byte>, a: Field, b: Field, c: Field, d: Field)
    requires End(a) <= |m| && End(b) <= |m| && End(c) <= |m| && End(d) <= |m|
    ensures FieldsFit([a, b, c, d], |m|)
    ensures Apply(m, [a, b, c, d]) ==
      Put(Put(Put(Put(m, a.offset, a.bytes), b.offset, b.bytes), c.offset, c.bytes), d.offset, d.bytes)
  {
    Apply1(m, a);
    ApplySnoc(m, [a], b);
    assert [a] + [b] == [a, b];
    ApplySnoc(m, [a, b], c);
    assert [a, b] + [c] == [a, b, c];
    ApplySnoc(m, [a, b, c], d);
    assert [a, b, c] + [d] == [a, b, c, d];
  }

  /** Storing field `fd` into the buffer that holds fields `fs` gives the buffer that
      holds `fs + [fd]`. */
  lemma {:induction false} Stored(m0: seq<byte>, fs: seq<Field>, fd: Field, now: seq<byte>) returns (fs': seq<Field>)
    requires FieldsFit(fs, |m0|) && End(fd) <= |m0|
    requires now == Put(Apply(m0, fs), fd.offset, fd.bytes)
    ensures fs' == fs + [fd] && FieldsFit(fs', |m0|) && now == Apply(m0, fs')
  {
    ApplySnoc(m0, fs, fd);
    fs' := fs + [fd];
  }

  /** Writing entry i of a palette of `total` entries, blue `b`, green `g` and red `r`. */
  lemma {:induction false} EntryWritten(f: Format, m0: seq<byte>, before: seq<byte>, now: seq<byte>, i: nat, total: nat,
                                        entry: nat -> seq<byte>, b: byte, g: byte, r: byte)
    requires forall k: nat :: |entry(k)| == 3
    requires entry(i) == [b, g, r]
    requires i < total && PaletteOffset(f) + 4 * total - 1 <= |m0| && |before| == |m0|
    requires FieldsFit(Entries(f, i, entry), |m0|) && before == Apply(m0, Entries(f, i, entry))
    requires var o := PaletteOffset(f) + 4 * i; now == before[o + 2 := r][o + 1 := g][o := b]
    ensures FieldsFit(Entries(f, i + 1, entry), |m0|) && now == Apply(m0, Entries(f, i + 1, entry))
  {
    var o := PaletteOffset(f) + 4 * i;
    EntryStored(before, o, b, g, r);
    EntriesSnoc(f, i, entry);
    ApplySnoc(m0, Entries(f, i, entry), EntryField(f, i, [b, g, r]));
  }

  /** The offset of the stored row holding image row y, as `set_pixel` computes it. */
  function RowOffs(f: Format, y: nat): (o: nat)
    requires y < f.h
    ensures o == RowOffset(f, y)
  {
    MulIs(StoredRow(f, y), f.rowSize);
    if f.topdown != 0 then y * f.rowSize else (f.h - y - 1) * f.rowSize
  }

  /** At a whole-byte depth the offset `set_pixel` computes for pixel (x, y) is where
      `StorePixel` puts its bytes. */
  lemma {:induction false} PixelStoredWhole(m: seq<byte>, f: Format, x: nat, y: nat, c: Color, pow24: real -> real, offs: int)
    requires x < f.w && y < f.h && BitsFit(f, |m|) && ChannelWidthsOk(f) && WholeBytes(f.bpp)
    requires offs == f.bitsOffset + RowOffs(f, y) + BytesPerPixel(f.bpp) * x
    ensures 0 <= offs && offs + BytesPerPixel(f.bpp) <= |m|
    ensures StorePixel(m, f, x, y, c, pow24) == Put(m, offs, PixelBytes(f, PixelCodes(f, x, y, c, pow24)))
  {
    var q := PixelCodes(f, x, y, c, pow24);
    StoredWholeAt(m, f, x, y, PixelBytes(f, q), PixelBits(f, x, q), offs);
  }

  lemma {:induction false} StoredWholeAt(m: seq<byte>, f: Format, x: nat, y: nat, bs: seq<byte>, bits: byte, offs: int)
    requires x < f.w && y < f.h && BitsFit(f, |m|) && WholeBytes(f.bpp) && |bs| == BytesPerPixel(f.bpp)
    requires offs == f.bitsOffset + RowOffs(f, y) + BytesPerPixel(f.bpp) * x
    ensures 0 <= offs && offs + BytesPerPixel(f.bpp) <= |m|
    ensures StoreAt(m, f, x, y, bs, bits) == Put(m, offs, bs)
  {
    MulIs(x, BytesPerPixel(f.bpp));
    PixelInRow(f, x);
    assert RowBase(f, y) + PixelByte(f, x) == offs;
  }

  /** At a sub-byte depth the offset `set_pixel` computes for pixel (x, y) is the byte
      `StorePixel` ORs its bits into. */
  lemma {:induction false} PixelStoredSub(m: seq<byte>, f: Format, x: nat, y: nat, c: Color, pow24: real -> real, offs: int)
    requires x < f.w && y < f.h && BitsFit(f, |m|) && ChannelWidthsOk(f) && SubByte(f.bpp)
    requires offs == f.bitsOffset + RowOffs(f, y) + x / PixelsPerByte(f.bpp)
    ensures 0 <= offs < |m|
    ensures StorePixel(m, f, x, y, c, pow24) == m[offs := OrByte(m[offs], PixelBits(f, x, PixelCodes(f, x, y, c, pow24)))]
  {
    var v := PixelBits(f, x, PixelCodes(f, x, y, c, pow24));
    DivIs(x, PixelsPerByte(f.bpp));
    assert offs == RowBase(f, y) + Div(x, PixelsPerByte(f.bpp));
    StoreSubByte(m, f, x, y, v);
    StorePixelSub(m, f, x, y, c, pow24);
  }

  lemma {:induction false} StorePixelSub(m: seq<byte>, f: Format, x: nat, y: nat, c: Color, pow24: real -> real)
    requires x < f.w && y < f.h && BitsFit(f, |m|) && ChannelWidthsOk(f) && SubByte(f.bpp)
    ensures StorePixel(m, f, x, y, c, pow24) == StoreAt(m, f, x, y, [], PixelBits(f, x, PixelCodes(f, x, y, c, pow24)))
  {
  }

  /** At any other depth `StorePixel` changes nothing. */
  lemma {:induction false} PixelStoredNone(m: seq<byte>, f: Format, x: nat, y: nat, c: Color, pow24: real -> real)
    requires x < f.w && y < f.h && BitsFit(f, |m|) && ChannelWidthsOk(f) && !WholeBytes(f.bpp) && !SubByte(f.bpp)
    ensures StorePixel(m, f, x, y, c, pow24) == m
  {
  }

  lemma {:induction false} Put1(m: seq<byte>, o: nat, bs: seq<byte>)
    requires |bs| == 1 && o + 1 <= |m|
    ensures Put(m, o, bs) == m[o := bs[0]]
  {
  }

  lemma {:induction false} Put2(m: seq<byte>, o: nat, bs: seq<byte>)
    requires |bs| == 2 && o + 2 <= |m|
    ensures Put(m, o, bs) == m[o := bs[0]][o + 1 := bs[1]]
  {
  }

  lemma {:induction false} Put3(m: seq<byte>, o: nat, bs: seq<byte>)
    requires |bs| == 3 && o + 3 <= |m|
    ensures Put(m, o, bs) == m[o := bs[0]][o + 1 := bs[1]][o + 2 := bs[2]]
  {
  }

  lemma {:induction false} Put4(m: seq<byte>, o: nat, bs: seq<byte>)
    requires |bs| == 4 && o + 4 <= |m|
    ensures Put(m, o, bs) == m[o := bs[0]][o + 1 := bs[1]][o + 2 := bs[2]][o + 3 := bs[3]]
  {
  }

  /** The configuration `defaultbmp` leaves: a 40-byte header, 252 colours and the
      pixel data at 1062, in order, and every part of the file fits the buffer. */
  lemma {:induction false} DefaultLayout(f: Format)
    requires f == DefaultFormat()
    ensures f.headerSize == 40 && f.clrUsed == 252 && f.paletteSize == 1008 && f.bitsOffset == 1062
    ensures var g := WithBitsLayout(f); g.rowSize == 128 && g.bitsSize == 8192 && g.memUsed == 9254
  {
    DefaultBitsLayout(f);
  }

  /** The default file is laid out in order and `make_bmp` stays inside the buffer. */
  lemma {:induction false} DefaultFits(f: Format)
    requires f == DefaultFormat()
    ensures Ordered(f) && MakeBmpFits(f, BMP_MAX_SIZE)
  {
    CalculatedOrdered(DefaultFields());
    DefaultEnds(f);
  }

  /** The palette of the default file ends at byte 1061 and its pixel data at 9254. */
  lemma {:induction false} DefaultEnds(f: Format)
    requires f == DefaultFormat()
    ensures PaletteEnd(f) == 1061 && WithBitsLayout(f).memUsed == 9254
  {
    DefaultLayout(f);
    assert Slots(f) == 252;
  }

  /** For the default 127 x 64, 8-bit image with its pixel data at 1062, `write_bits`
      makes rows of 128 bytes, 8192 bytes of pixel data and a file of 9254 bytes. */
  lemma {:induction false} DefaultBitsLayout(f: Format)
    requires f.w == 127 && f.h == 64 && f.bpp == 8 && f.bitsOffset == 1062
    ensures var g := WithBitsLayout(f); g.rowSize == 128 && g.bitsSize == 8192 && g.memUsed == 9254
  {
    WithBitsLayoutIs(f);
    assert f.w * f.bpp + 31 == 1047;
    assert 1047 / 32 == 32;
  }

  /** The oversized palette of `q/pal8oversizepal.bmp`: 300 entries are declared and
      1200 bytes reserved, but only the first 256 are written. */
  lemma {:induction false} OversizePalette(f: Format)
    requires f == Calculated(DefaultUpdate(DefaultFormat()).(palEntries := 300))
    ensures f.clrUsed == 300 && f.bitsOffset == 1254 && |PaletteFields(f)| == 256
    ensures PaletteEnd(f) == 1077 && Ordered(f)
  {
  }

  /** The configuration of the largest file of the catalogue, `q/rgba32.bmp`: version 5,
      32 bits per pixel, BI_BITFIELDS with an alpha mask and no palette. */
  function Rgba32(): Format
  {
    Calculated(DefaultUpdate(DefaultFormat()).(bmpVersion := 5, bpp := 32, compression := BI_BITFIELDS,
      bfR := 0x00ff_0000, bfG := 0x0000_ff00, bfB := 0x0000_00ff, bfA := 0xff00_0000, rgba := 1,
      palEntries := 0))
  }

  /** `q/rgba32.bmp` has a 124-byte header, its pixel data at 138, rows of 508 bytes and
      a file of 32650 bytes. */
  lemma {:induction false} Rgba32Layout(f: Format)
    requires f == Rgba32()
    ensures f.headerSize == 124 && f.bitsOffset == 138
    ensures WithBitsLayout(f).rowSize == 508 && WithBitsLayout(f).memUsed == 32650
  {
    WithBitsLayoutIs(f);
    assert f.w * f.bpp + 31 == 4095;
    assert 4095 / 32 == 127;
  }

  /** `q/rgba32.bmp` is laid out in order and fits the buffer. */
  lemma {:induction false} Rgba32Fits(f: Format)
    requires f == Rgba32()
    ensures Ordered(f) && MakeBmpFits(f, BMP_MAX_SIZE)
  {
    Rgba32Layout(f);
    Rgba32Settings(f);
    PlainV5Fits(f);
  }

  /** The settings of `q/rgba32.bmp` that decide its layout. */
  lemma {:induction false} Rgba32Settings(f: Format)
    requires f == Rgba32()
    ensures f.bmpVersion == 5 && f.bpp == 32 && f.compression == BI_BITFIELDS && f.rgba == 1
    ensures f.palEntries == 0 && f.bitfieldsSize == 0
  {
  }

  /** A version 5 file with its masks in the header and no palette is laid out in order
      and fits the buffer once its pixel data does. */
  lemma {:induction false} PlainV5Fits(f: Format)
    requires f.bmpVersion == 5 && f.bpp == 32 && f.compression == BI_BITFIELDS && f.rgba == 1
    requires f.palEntries == 0 && f.bitfieldsSize == 0 && f.headerSize == 124 && f.bitsOffset == 138
    requires WithBitsLayout(f).memUsed <= BMP_MAX_SIZE
    ensures Ordered(f) && MakeBmpFits(f, BMP_MAX_SIZE)
  {
    assert PaletteEnd(f) == 138;
  }
}
