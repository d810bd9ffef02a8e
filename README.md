# bmpsuite BMP writer, modelled in Dafny

bmpsuite generates a catalogue of BMP test images. One `struct context`
(`bmpsuite.c:58-84`) holds a configuration (depth, palette, header version,
compression, channel masks, dithering, row order) and a byte buffer `mem` of
`BMP_MAX_SIZE` bytes. `make_bmp` fills the buffer with one complete file. It
writes, in this order:

- the optional BI_BITFIELDS masks, just after the DIB header;
- the colour palette;
- the pixel rows, padded to multiples of four bytes and bottom-up unless
  `topdown` is set;
- the BITMAPINFOHEADER and, from version 4 on, its BITMAPV4/V5 extension;
- the 14-byte BITMAPFILEHEADER.

`defaultbmp` and `set_calculated_fields` prepare the configuration:
`set_calculated_fields` derives the header size, colour count, palette size
and pixel-data offset from the other fields.

The model has one module per concern:

| module | file | what it holds |
|---|---|---|
| `Bytes` | `bytes.dfy` | byte values, `Put`, little-endian encoders `Int16Bytes`/`Int32Bytes` and their readers `LE16`/`LE32` |
| `Arith`, `Bits` | `arith.dfy`, `bits.dfy` | multiplication, division, powers of two, shifts and bitwise OR on naturals, tied to `*`, `/` and `%` |
| `Quantize` | `quantize.dfy` | `scale_to_int`, `srgb_to_linear`, the 8×8 ordered-dither matrix, `ordered_dither_lowlevel` and `ordered_dither` |
| `Layout` | `layout.dfy` | the configuration `Format` (every field of `struct context` but `mem` and `filename`), `set_calculated_fields`, the row size and the pixel-data layout |
| `Pixels` | `pixels.dfy` | the colour codes and bytes `set_pixel` computes for every depth, and where each pixel goes |
| `Raster` | `raster.dfy` | the pixel data `write_bits` produces, row by row and pixel by pixel |
| `Headers` | `headers.dfy` | the file header, info header and mask fields as lists of byte fields at fixed offsets |
| `Palette` | `palette.dfy` | the palettes `write_palette` stores for 8, 4 and 1 bits per pixel and the "suggested" palette of true-colour files |
| `Bmp` | `bmp.dfy` | class `Context`, which owns the buffer (`mem: array<byte>`) and the configuration (`fmt: Format`), with one method per C function |

Each `Context` method changes `mem` and `fmt` in place, as the C code does.
Its `ensures` ties the new buffer to a specification function of the old
buffer and configuration:

- `Put` for one field;
- `Apply` of a field list for a header or a palette;
- `Row` and `Rows` for the pixel data;
- `BmpFile` for `make_bmp`.

Lemmas then prove what those functions mean: every header field reads back,
each index decodes to its colour codes, each pixel's bytes sit where the
row layout says, and each part of the file stays in front of the next one.

## Model

| member | source | states |
|---|---|---|
| Bmp.Context.constructor | bmpsuite.c:729-737 | `main` allocates a fresh buffer of `BMP_MAX_SIZE` bytes, and every configuration field starts at zero |
| Bmp.Context.SetInt16 | bmpsuite.c:86-90 | only bytes `offset` and `offset+1` change; they hold `v` modulo 2^16, low byte first (`Bytes.Int16Bytes` reads back through `LE16`) |
| Bmp.Context.SetInt32 | bmpsuite.c:92-98 | only the four bytes at `offset` change; they hold `v` modulo 2^32, low byte first, negative values in two's complement |
| Bmp.Context.SetUint32 | bmpsuite.c:100-106 | only the four bytes at `offset` change; they hold the unsigned `v`, low byte first |
| Bytes.Int16Bytes | bmpsuite.c:86-90 | the two bytes `set_int16` stores read back as `v mod 2^16` |
| Bytes.Int32Bytes | bmpsuite.c:92-106 | the four bytes `set_int32`/`set_uint32` store read back as `v mod 2^32` |
| Bytes.Int32RoundTrip | bmpsuite.c:92-98 | for every 32-bit signed `v`, reading the four bytes back and reinterpreting them as signed gives `v` again |
| Bytes.ToSigned32 | bmpsuite.c:92-98 | the signed 32-bit reading of an unsigned value is in range and congruent to it modulo 2^32 |
| Quantize.Trunc | bmpsuite.c:112 | the C `(int)` cast of a double rounds toward zero: for non-negative `t`, `n <= t < n+1`; for negative `t`, `n-1 < t <= n` |
| Quantize.SrgbToLinear | bmpsuite.c:118-126 | on the linear segment (up to 0.04045) the result has the sign of the input and, for a non-negative input, never exceeds it |
| Quantize.SrgbToLinearMonotone | bmpsuite.c:118-126 | when `pow(., 2.4)` is non-decreasing, `srgb_to_linear` is non-decreasing on each side of the 0.04045 break point |
| Quantize.Luma | bmpsuite.c:331-333 | the three weights sum to one: a grey colour has the luma of its linear value, and linear channels in [0,1] give a luma in [0,1] |
| Quantize.ScaleToInt | bmpsuite.c:108-116 | the result is always in `0..m`; for `x` in [0,1] it is the code nearest to `x*m` (within one half); below 0 it clamps to 0 and above 1 to `m` |
| Quantize.PatternIndex | bmpsuite.c:200 | the threshold cell of pixel (x, y) lies in the 64-entry matrix, at column `x mod 8` and row `y mod 8` |
| Quantize.Threshold | bmpsuite.c:188-200 | every dither threshold lies in [1/128, 127/128] |
| Quantize.PatternIsPermutation | bmpsuite.c:188-198 | the dither matrix is a permutation of the 64 ranks: `DitherRank` inverts it in both directions, so each threshold (k+0.5)/64 occurs exactly once |
| Quantize.OrderedDitherLowLevel | bmpsuite.c:186-202 | the result is a bit; a fraction of at least 127/128 always gives 1, and one below 1/128 always gives 0 |
| Quantize.DitherRoundsUp | bmpsuite.c:212-239 | a value that already sits exactly on a code is never rounded up |
| Quantize.OrderedDither | bmpsuite.c:207-240 | for a non-negative value the code is in `0..maxcc`; for a value in [0,1] it is strictly within one code of `v*maxcc` (the floor or the ceiling) |
| Layout.HeaderSize | bmpsuite.c:509-514 | the DIB header is 124 bytes exactly for version 5 and 40 bytes for every other version |
| Bmp.Context.SetCalculatedFields | bmpsuite.c:507-532 | sets the header size for the version, `clr_used = pal_entries`, a palette of 4 bytes per entry and the pixel offset `14 + headersize + bitfieldssize + palettesize`; no other field changes |
| Layout.RowSizeIsPaddedRow | bmpsuite.c:348 | `rowsize` is the smallest multiple of four bytes that holds `w*bpp` bits: a multiple of 4, at least `w*bpp/8` bytes, less than 32 bits of padding |
| Layout.WithBitsLayoutIs | bmpsuite.c:348-351 | `write_bits` sets `rowsize`, `bitssize = rowsize*h` and `mem_used = bitsoffset + bitssize`, and changes no other field |
| Layout.BitsLayoutFits | bmpsuite.c:348-358 | with the layout `write_bits` computes, every row holds its `w*bpp` bits and all rows end at `mem_used` |
| Layout.RowOffset | bmpsuite.c:252-255 | image row `y` starts at its stored row times `rowsize`, and its `rowsize` bytes end inside the `h*rowsize` bytes of pixel data |
| Layout.StoredRowBijective | bmpsuite.c:252-255 | image rows and stored rows correspond one to one (the map is its own inverse); bottom-up, the first image row is the last one stored, top-down the first |
| Bmp.Context.DefaultBmp | bmpsuite.c:534-561 | the first `BMP_MAX_SIZE` bytes are cleared, the rest of the buffer is unchanged, and the configuration becomes the default 127×64, 8-bit, 252-colour version 3 file after `set_calculated_fields` |
| Bmp.DefaultUpdate | bmpsuite.c:534-560 | the fields `defaultbmp` assigns, followed by `set_calculated_fields`, give exactly `DefaultFormat` |
| Bmp.DefaultLayout | bmpsuite.c:534-561 | the default file has a 40-byte header, 252 colours, a 1008-byte palette, pixel data at 1062, 128-byte rows, 8192 bytes of pixels and 9254 bytes in all |
| Bmp.DefaultFits | bmpsuite.c:534-561 | the default file is laid out in order and every writer of `make_bmp` stays inside the buffer |
| Bmp.DefaultEnds | bmpsuite.c:534-561 | the default palette ends at byte 1061, just before the pixel data; the file ends at 9254 |
| Bmp.DefaultBitsLayout | bmpsuite.c:348-351 | a 127-pixel, 8-bit row is padded to 128 bytes, and 64 rows from offset 1062 end at 9254 |
| Bmp.OversizePalette | bmpsuite.c:576-580 | `q/pal8oversizepal.bmp` declares 300 colours with pixel data at 1254, but `write_palette` stores only 256 entries (ending at 1077); the file is still in order |
| Bmp.Rgba32Layout | bmpsuite.c:712-722 | `q/rgba32.bmp` has a 124-byte header, pixel data at 138, 508-byte rows and 32650 bytes in all |
| Bmp.Rgba32Fits | bmpsuite.c:712-722 | `q/rgba32.bmp`, the largest file of the catalogue, is in order and fits the buffer |
| Bmp.PlainV5Fits | bmpsuite.c:712-722 | any 32-bit version 5 file with masks inside the header, no palette and pixel data at 138 is in order and fits when its size does |
| Bmp.CalculatedOrdered | bmpsuite.c:507-532 | after `set_calculated_fields`, every version except 4 is laid out in order (headers, then masks and palette, then pixels), provided a 1-bit file lists at least one colour |
| Pixels.Index8RoundTrip | bmpsuite.c:310-316 | the 8-bit index `r + 6g + 42b` of valid R6G7B6 codes is in 0..251, and `write_palette`'s decoding `i%6`, `(i%42)/6`, `i/42` recovers each code |
| Pixels.Index8Decode | bmpsuite.c:379-391 | every palette index below 252 decodes to valid codes whose index is that same index |
| Pixels.Index4RoundTrip | bmpsuite.c:317-326 | the 4-bit index `r + 2g + 6b` of valid R2G3B2 codes is in 0..11, and `i%2`, `(i%6)/2`, `i/6` recovers each code |
| Pixels.Index4Decode | bmpsuite.c:392-401 | every palette index below 12 decodes to valid codes whose index is that same index |
| Pixels.Codes8 | bmpsuite.c:312-314 | for a non-negative colour, the dithered codes are valid R6G7B6 codes |
| Pixels.Codes4 | bmpsuite.c:319-321 | for a non-negative colour, the dithered codes are valid R2G3B2 codes |
| Pixels.Codes16 | bmpsuite.c:291-305 | each 16-bit channel code lies within its channel's `2^nbits - 1`, whether dithered (for non-negative colours) or scaled; the alpha code is zero unless `rgba` |
| Pixels.CodesMasked | bmpsuite.c:259-262 | the 32-bit BI_BITFIELDS codes lie within each channel's width, and carry no alpha |
| Pixels.CodesTrue | bmpsuite.c:270-274 | 24- and 32-bit codes are bytes; the alpha byte is zero unless `rgba` |
| Pixels.PixelCodes | bmpsuite.c:257-340 | the codes `set_pixel` computes for each depth keep the ranges above |
| Pixels.Pixel16RoundTrip | bmpsuite.c:291-309 | when the channels fit in 16 bits, the two stored bytes unpack into the original red, green, blue (and alpha) codes |
| Pixels.PixelMaskedRoundTrip | bmpsuite.c:259-268 | the four bytes of a BI_BITFIELDS 32-bit pixel unpack into the original red, green and blue codes |
| Pixels.Pixel8Index | bmpsuite.c:310-316 | an 8-bit pixel's one byte is its palette index, at most 251 |
| Pixels.PixelTrueColor | bmpsuite.c:270-290 | 24- and 32-bit pixels are stored blue, green, red, then alpha for 32 bits |
| Pixels.Pixel4Nibble | bmpsuite.c:317-326 | a 4-bit pixel contributes its index, in 0..11, to the low nibble for odd `x` and to the high nibble for even `x` |
| Pixels.Pixel1Mask | bmpsuite.c:337-339 | a 1-bit pixel whose bit is 0 sets nothing; one whose bit is 1 sets a mask `m` with `m * 2^(x%8) == 128`, so pixel `8k` takes the most significant bit (128) and pixel `8k+7` the least (1) |
| Pixels.Pixel1Distinct | bmpsuite.c:338 | two different pixels of the same byte whose bits are both 1 OR different bits into it |
| Pixels.Pixel1Bit | bmpsuite.c:331-336 | the 1-bit code is set exactly when `pal_p1` is off and the dither bit of its luminance is 1 (or 0 when `pal_wb` inverts the palette) |
| Pixels.Bit1 | bmpsuite.c:334-336 | the 1-bit code is a bit and is always 0 when `pal_p1` is set |
| Pixels.BitMask | bmpsuite.c:338 | the mask of pixel `x` times `2^(x%8)` is 128: a single bit counted from the most significant end of the byte |
| Pixels.PixelInRow | bmpsuite.c:252-340 | each pixel's bytes, or the byte it shares with its neighbours, lie inside its row |
| Pixels.StoreWholeBytes | bmpsuite.c:257-316 | storing a whole-byte pixel replaces exactly the bytes of that pixel in its row and leaves every other byte as it was |
| Pixels.StoreSubByte | bmpsuite.c:317-340 | storing a 4- or 1-bit pixel ORs its bits into byte `x/ppb` of its row and changes nothing else |
| Bmp.Context.SetPixel | bmpsuite.c:242-341 | the buffer becomes `StorePixel` of the old buffer: the pixel's bytes are stored at `bitsoffset + row_offs + x*bpp/8`, or its bits are ORed into its shared byte; other depths leave the buffer unchanged |
| Bmp.Context.SetWholePixel | bmpsuite.c:257-316 | the 32-, 24-, 16- and 8-bit branches: the pixel's bytes replace its slot in its row |
| Bmp.Context.SetSubPixel | bmpsuite.c:317-340 | the 4- and 1-bit branches: the pixel's nibble or bit is ORed into the byte it shares |
| Raster.StorePixelStep | bmpsuite.c:353-358 | storing the colour the sampler gives for (x, y) is storing that pixel's encoded bytes |
| Raster.ImageWhole | bmpsuite.c:353-358 | after `write_bits` at a whole-byte depth, byte `t` of pixel (x, y) is byte `t` of that pixel's encoding |
| Raster.ImageKeepsOutside | bmpsuite.c:343-359 | `write_bits` changes no byte outside the pixel data |
| Raster.ImageKeepsPadding | bmpsuite.c:343-359 | `write_bits` leaves the padding bytes at the end of each row as they were |
| Raster.ImageSub | bmpsuite.c:317-340 | at 4 and 1 bits, each byte of a row is its old value ORed with the bits of the pixels it holds, in order |
| Raster.Image4Byte | bmpsuite.c:317-326 | in a cleared 4-bit row, byte `k` holds pixel `2k`'s index in its high nibble and pixel `2k+1`'s (or 0 past the row end) in its low nibble |
| Raster.OrRunByte | bmpsuite.c:329-340 | ORing the eight 1-bit pixels of byte `k` into zero gives the number whose binary digits are those bits, leftmost first |
| Bmp.Context.WriteBits | bmpsuite.c:343-359 | sets the row size, image size and file size as `write_bits` computes them, and then fills every row of the pixel data with the sampled image, with nothing else in the file changed |
| Bmp.Context.SetBitsLayout | bmpsuite.c:348-351 | the three layout assignments of `write_bits` |
| Bmp.Context.WriteRows | bmpsuite.c:353-358 | the outer loop stores rows `0..h-1` in turn |
| Bmp.Context.WriteRow | bmpsuite.c:354-357 | the inner loop stores pixels `0..w-1` of row `y` in turn |
| Headers.BitfieldsFields | bmpsuite.c:361-369 | nothing is written unless `bitfieldssize` is 12; otherwise three disjoint 4-byte fields fill the 12 bytes after the DIB header |
| Bmp.Context.WriteBitfields | bmpsuite.c:361-369 | the buffer becomes the old one with the mask fields applied |
| Headers.BitfieldsReadBack | bmpsuite.c:361-369 | the red, green and blue masks read back at `14 + headersize`, `+4` and `+8` |
| Bmp.Context.WritePalette | bmpsuite.c:371-438 | the buffer becomes the old one with the palette fields for the depth applied |
| Bmp.Context.WritePalette8 | bmpsuite.c:379-391 | the first `min(pal_entries, 256)` R6G7B6 entries are written |
| Bmp.Context.WritePalette4 | bmpsuite.c:392-401 | all `pal_entries` R2G3B2 entries are written |
| Bmp.Context.WritePalette1 | bmpsuite.c:402-428 | the two-colour palettes: white first (`pal_wb`), blue and green (`pal_bg`), white second; one blue entry otherwise |
| Bmp.Context.WriteSuggested | bmpsuite.c:429-437 | `pal_entries` grey entries `i*15` (truncated to a byte) are written |
| Bmp.Context.SetEntry | bmpsuite.c:405-426 | red at offset+2, green at +1 and blue at +0, in the C order, and nothing else |
| Palette.Count8 | bmpsuite.c:382-383 | the 8-bit palette stores `min(n, 256)` entries: never more than declared, never more than 256, and all of them when at most 256 |
| Palette.EntriesLayout | bmpsuite.c:377-437 | the entries of a palette are disjoint and lie inside the palette area |
| Palette.PaletteLayout | bmpsuite.c:371-438 | every palette `write_palette` stores is disjoint and lies between its offset and `PaletteEnd` |
| Palette.Palette8Capped | bmpsuite.c:383 | in an 8-bit file no palette byte is written at or past entry 256, however many entries are declared |
| Palette.EntryReadBack | bmpsuite.c:377-437 | entry `i` of a stored palette reads back as its blue, green and red bytes |
| Palette.Entry8Decodes | bmpsuite.c:384-389 | the palette entry of an 8-bit index is the colour of its codes, each scaled to 0..255 |
| Palette.Entry4Decodes | bmpsuite.c:394-399 | the palette entry of a 4-bit index is the colour of its codes, each scaled to 0..255 |
| Palette.Palette8Colour | bmpsuite.c:379-391 | looking up the index `set_pixel` stores for codes (r, g, b) in the written 8-bit palette gives back the colour of those codes |
| Palette.Palette4Colour | bmpsuite.c:392-401 | the same round trip for 4-bit indices and the 4-bit palette |
| Palette.WhiteIndex | bmpsuite.c:403-421 | in a two-colour palette without `pal_bg` only the white entry is written: entry 0 with `pal_wb`, entry 1 without |
| Palette.BrightIsWhite | bmpsuite.c:329-340 | in a two-colour palette without `pal_bg` or `pal_p1`, a pixel takes the white entry exactly when the dither bit of its luminance is 1, whether or not `pal_wb` puts white first |
| Palette.BilevelReadBack | bmpsuite.c:402-428 | the 1-bit palette: white at entry 0 (`pal_wb`, entry 1 untouched); blue then green (`pal_bg`); entry 0 untouched and white at entry 1 (neither); blue at entry 0 and entry 1 untouched (not two colours) |
| Palette.BilevelPairReadBack | bmpsuite.c:403-422 | the two-colour cases of `BilevelReadBack` |
| Palette.BilevelSingleReadBack | bmpsuite.c:423-427 | the one-colour case of `BilevelReadBack` |
| Palette.SuggestedRamp | bmpsuite.c:431-434 | the first 18 suggested entries are the grey ramp 0, 15, …, 255, with no wrap-around |
| Headers.FileHeaderFields | bmpsuite.c:440-446 | the file header is three disjoint fields inside bytes 0..13 |
| Bmp.Context.WriteFileHeader | bmpsuite.c:440-446 | the buffer becomes the old one with the file header fields applied |
| Headers.FileHeaderReadBack | bmpsuite.c:440-446 | bytes 0-1 are "BM", bytes 2-5 read back as `mem_used` and 10-13 as `bitsoffset` (both modulo 2^32); the reserved bytes 6-9 and every byte from 14 on are untouched |
| Headers.InfoBaseFields | bmpsuite.c:450-460 | the BITMAPINFOHEADER is eleven disjoint fields inside bytes 14..53 |
| Headers.MaskFields | bmpsuite.c:464-467 | the four V4 masks are disjoint fields inside bytes 54..69 |
| Headers.InfoHeaderLayout | bmpsuite.c:448-474 | the info header fields are disjoint and end at 54, 74 or 126 bytes for versions up to 3, 4 and 5; there are 11 fields up to version 3, 12 or 16 at version 4 and 13 or 17 at version 5 |
| Headers.InfoHeaderInsideHeader | bmpsuite.c:448-474 | up to version 3 and at version 5, the info header ends inside the header size that `set_calculated_fields` chose |
| Headers.Version4Overrun | bmpsuite.c:462-470 | at version 4 the header size stays 40, but the colour-space field is still written at byte 70, past the 54 bytes of the two headers |
| Headers.InfoBaseReadBack | bmpsuite.c:450-460 | every BITMAPINFOHEADER field reads back: size, width, height (negated when top-down), 1 plane, depth, compression, image size, resolution, colour count, no important colours |
| Headers.InfoDimsReadBack | bmpsuite.c:450-454 | the first five fields read back |
| Headers.InfoCountsReadBack | bmpsuite.c:455-460 | the last six fields read back |
| Headers.InfoHeaderParts | bmpsuite.c:448-474 | the info header is its base fields, then the V4 part, then the V5 part, stored in that order |
| Headers.V4ReadBack | bmpsuite.c:462-470 | from version 4 on, the sRGB colour-space tag is at byte 70; the four masks are at 54..69 exactly when BI_BITFIELDS with alpha, and otherwise those bytes are untouched |
| Headers.V5ReadBack | bmpsuite.c:471-473 | from version 5 on, the rendering intent at 122 reads back as "perceptual" (4) |
| Headers.HeadersReadBack | bmpsuite.c:440-474 | after the info header and then the file header, the info fields still read back |
| Bmp.Context.WriteBitmapInfoHeader | bmpsuite.c:448-474 | the buffer becomes the old one with the info header fields for the version applied |
| Bmp.Context.WriteInfoBase | bmpsuite.c:450-460 | the eleven BITMAPINFOHEADER fields are stored |
| Bmp.Context.WriteInfoDims | bmpsuite.c:450-454 | the first five fields are stored |
| Bmp.Context.WriteInfoCounts | bmpsuite.c:455-460 | the last six fields are stored |
| Bmp.Context.WriteV4 | bmpsuite.c:462-470 | the masks (only when BI_BITFIELDS with alpha) and the sRGB tag are stored |
| Bmp.Context.MakeBmp | bmpsuite.c:476-483 | the configuration gains the layout `write_bits` computes, and the buffer becomes `BmpFile`: masks, palette, pixels, info header, file header, as `make_bmp` calls them |
| Bmp.BmpFileHeader | bmpsuite.c:440-446 | in the finished file, "BM", the file size `write_bits` computed and the pixel offset read back |
| Bmp.BmpInfoHeader | bmpsuite.c:448-460 | in the finished file the BITMAPINFOHEADER fields read back, with the image size `write_bits` computed |
| Bmp.HeadersKeep | bmpsuite.c:476-483 | in an ordered file the two headers touch no byte past the DIB header |
| Bmp.BmpPixelData | bmpsuite.c:476-483 | in an ordered file every pixel-data byte is the byte `write_bits` stored; the headers written later do not overwrite it |
| Bmp.TablesKeep | bmpsuite.c:361-438 | the masks and the palette lie in front of the pixel data |
| Bmp.BmpPixelBytes | bmpsuite.c:257-316 | in an ordered whole-byte file, byte `t` of pixel (x, y) is byte `t` of what `set_pixel` stores for the sampled colour |
| Bmp.BmpNibbles | bmpsuite.c:317-326 | in an ordered 4-bit file written into a cleared buffer, byte `k` of row `y` holds pixel `2k`'s index in its high nibble and pixel `2k+1`'s (0 past the row end) in its low nibble |
| Bmp.BmpBits | bmpsuite.c:329-340 | in an ordered 1-bit file written into a cleared buffer, byte `k` of row `y` holds the bits of pixels `8k..8k+7`, leftmost most significant |
| Bmp.BmpPalette | bmpsuite.c:476-483 | in an ordered file the palette survives the pixels and headers written after it |

## Left out

- File output is left out: `write_image_file`, `make_bmp_file`, the `mkdir` calls and the error returns (`bmpsuite.c:485-505`). These are I/O.
- The catalogue `run` (`bmpsuite.c:563-727`) is not modelled as a whole. Only three of its configurations are checked, by `DefaultLayout`, `OversizePalette` and `Rgba32Layout`.
- `get_pixel_color` and the `bmpovl` overlay (`bmpsuite.c:29-56`, `128-184`) become a parameter, `sample: Sampler`. They compute the test picture, not the file format.
- `pow` is replaced by a parameter `pow24` in `srgb_to_linear`. It is a libm call.
- `double` and `float` arithmetic is modelled on exact reals, without rounding. The dither thresholds `(2k+1)/128` can each be represented exactly in `float`.
- `filename` is left out. It only names the output file.
- The configuration integers `w`, `h`, `bpp` and `pal_entries` are naturals. The C `int` overflow of `w*bpp`, `rowsize*h` or `i*15` is not modelled, except where a value is stored as bytes, which keeps its low bits.
- `Pixels.ChannelWidthsOk` is a precondition of `set_pixel`, `write_bits` and `make_bmp`. It keeps every channel width and shift width below 32, because larger shifts are undefined behaviour in C.
- Bmp.Context.DefaultBmp: `memset` becomes a loop that clears the first `BMP_MAX_SIZE` bytes.
- A buffer overrun is not modelled. Every writer requires that the bytes it writes lie inside `mem`. The default configuration and `q/rgba32.bmp` (the largest file) are proved to meet that; the other catalogue configurations are not checked.
- Version 4 writes its header fields past the 40-byte header size that `set_calculated_fields` gives it. The model keeps this as-written behaviour (`Headers.Version4Overrun`), and `Bmp.CalculatedOrdered` excludes version 4.
- Bmp.BmpNibbles: states the packed bytes only for a buffer whose pixel data was cleared beforehand, as `defaultbmp` leaves it, and for non-negative sampled colours. On other content `set_pixel` ORs into the old bytes, which `Raster.ImageSub` states.
- Bmp.BmpBits: states the packed bytes only for a cleared buffer, for the same reason.
- Bmp.BmpInfoHeader: states eight of the eleven BITMAPINFOHEADER fields of the finished file. The resolution and important-colour fields are stated for the info header alone, by `Headers.InfoBaseReadBack`.
- Pixels.Pixel16RoundTrip: proved only when all channel widths together fit in 16 bits, which holds for every 16-bit file of the catalogue. Wider sums lose high bits in the two stored bytes.
