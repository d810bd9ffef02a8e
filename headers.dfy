/** The fixed-offset fields of a BMP file: the BITMAPFILEHEADER that
    `write_fileheader` fills, the BITMAPINFOHEADER / BITMAPV5HEADER that
    `write_bitmapinfoheader` fills and the three masks of `write_bitfields`. Each writer
    is described by the list of fields it stores, in order; `Apply` stores them. */
module Headers {
  import opened Bytes
  import opened Layout

  /** Bytes `bytes` stored from offset `offset` on. */
  datatype Field = Field(offset: nat, bytes: seq<byte>)

  /** The end of a field. */
  function End(fd: Field): nat
  {
    fd.offset + |fd.bytes|
  }

  /** Every field lies inside a buffer of `n` bytes. */
  predicate FieldsFit(fs: seq<Field>, n: int)
  {
    forall i :: 0 <= i < |fs| ==> End(fs[i]) <= n
  }

  /** No two fields share a byte. */
  predicate Disjoint(fs: seq<Field>)
  {
    forall i, j :: 0 <= i < j < |fs| ==> End(fs[i]) <= fs[j].offset || End(fs[j]) <= fs[i].offset
  }

  /** Every field lies inside [lo, hi). */
  predicate Within(fs: seq<Field>, lo: int, hi: int)
  {
    forall i :: 0 <= i < |fs| ==> lo <= fs[i].offset && End(fs[i]) <= hi
  }

  /** Each field ends where or before the next one begins. */
  predicate Ascending(fs: seq<Field>)
  {
    forall i :: 0 <= i < |fs| - 1 ==> End(fs[i]) <= fs[i + 1].offset
  }

  /** Fields in ascending order lie wholly below every later field. */
  lemma {:induction false} AscendingGap(fs: seq<Field>, i: int, j: int)
    requires Ascending(fs) && 0 <= i < j < |fs|
    ensures End(fs[i]) <= fs[j].offset
    decreases j - i
  {
    if i + 1 < j {
      AscendingGap(fs, i, j - 1);
    }
  }

  /** Fields in ascending order are disjoint. */
  lemma {:induction false} AscendingDisjoint(fs: seq<Field>)
    requires Ascending(fs)
    ensures Disjoint(fs)
  {
    forall i, j | 0 <= i < j < |fs| ensures End(fs[i]) <= fs[j].offset {
      AscendingGap(fs, i, j);
    }
  }

  /** `m` with the fields `fs` stored into it, first to last. */
  function Apply(m: seq<byte>, fs: seq<Field>): (r: seq<byte>)
    requires FieldsFit(fs, |m|)
    ensures |r| == |m|
    decreases |fs|
  {
    if fs == [] then m
    else
      var last := fs[|fs| - 1];
      Put(Apply(m, fs[..|fs| - 1]), last.offset, last.bytes)
  }

  /** The byte the last field covering offset `j` stores there, if any field does. */
  function Written(fs: seq<Field>, j: int): (b: Option<byte>)
    decreases |fs|
  {
    if fs == [] then None
    else
      var last := fs[|fs| - 1];
      if last.offset <= j < End(last) then Some(last.bytes[j - last.offset])
      else Written(fs[..|fs| - 1], j)
  }

  /** Storing one more field is a `Put` of it. */
  lemma {:induction false} ApplySnoc(m: seq<byte>, fs: seq<Field>, fd: Field)
    requires FieldsFit(fs, |m|) && End(fd) <= |m|
    ensures FieldsFit(fs + [fd], |m|)
    ensures Apply(m, fs + [fd]) == Put(Apply(m, fs), fd.offset, fd.bytes)
  {
    assert (fs + [fd])[..|fs|] == fs;
  }

  /** Storing `a + b` is storing `a`, then `b`. */
  lemma {:induction false} ApplyConcat(m: seq<byte>, a: seq<Field>, b: seq<Field>)
    requires FieldsFit(a, |m|) && FieldsFit(b, |m|)
    ensures FieldsFit(a + b, |m|)
    ensures Apply(m, a + b) == Apply(Apply(m, a), b)
    decreases |b|
  {
    assert FieldsFit(a + b, |m|) by {
      forall i | 0 <= i < |a + b| ensures End((a + b)[i]) <= |m| {
        if i >= |a| {
          assert (a + b)[i] == b[i - |a|];
        }
      }
    }
    if b == [] {
      assert a + b == a;
    } else {
      var init := b[..|b| - 1];
      var last := b[|b| - 1];
      assert b == init + [last];
      assert FieldsFit(init, |m|) by {
        forall i | 0 <= i < |init| ensures End(init[i]) <= |m| {
          assert init[i] == b[i];
        }
      }
      ApplyConcat(m, a, init);
      assert a + b == (a + init) + [last];
      ApplySnoc(m, a + init, last);
      ApplySnoc(Apply(m, a), init, last);
    }
  }

  /** The fields before the last fit wherever all of them do. */
  lemma {:induction false} InitFits(fs: seq<Field>, n: int)
    requires FieldsFit(fs, n) && fs != []
    ensures FieldsFit(fs[..|fs| - 1], n)
  {
    var init := fs[..|fs| - 1];
    forall i | 0 <= i < |init| ensures End(init[i]) <= n {
      assert init[i] == fs[i];
    }
  }

  /** Each byte after storing the fields is what the last field covering it stores, or
      what `m` had there when no field covers it. */
  lemma {:induction false} ApplyByte(m: seq<byte>, fs: seq<Field>, j: int)
    requires FieldsFit(fs, |m|) && 0 <= j < |m|
    ensures Apply(m, fs)[j] == match Written(fs, j) case Some(b) => b case None => m[j]
    decreases |fs|
  {
    if fs != [] {
      var init := fs[..|fs| - 1];
      var last := fs[|fs| - 1];
      InitFits(fs, |m|);
      assert End(last) <= |m|;
      ApplyByte(m, init, j);
      assert Apply(m, fs) == Put(Apply(m, init), last.offset, last.bytes);
      assert Written(fs, j) == if last.offset <= j < End(last) then Some(last.bytes[j - last.offset]) else Written(init, j);
    }
  }

  /** Among disjoint fields, the bytes of field i are what field i stores. */
  lemma {:induction false} WrittenDisjoint(fs: seq<Field>, i: int, t: int)
    requires Disjoint(fs) && 0 <= i < |fs| && 0 <= t < |fs[i].bytes|
    ensures Written(fs, fs[i].offset + t) == Some(fs[i].bytes[t])
    decreases |fs|
  {
    if i < |fs| - 1 {
      var init := fs[..|fs| - 1];
      assert Disjoint(init) by {
        forall a, b | 0 <= a < b < |init|
          ensures End(init[a]) <= init[b].offset || End(init[b]) <= init[a].offset
        {
          assert init[a] == fs[a] && init[b] == fs[b];
        }
      }
      assert init[i] == fs[i];
      WrittenDisjoint(init, i, t);
    }
  }

  /** No field writes below `lo` or from `hi` on. */
  lemma {:induction false} WrittenWithin(fs: seq<Field>, lo: int, hi: int, j: int)
    requires Within(fs, lo, hi) && (j < lo || hi <= j)
    ensures Written(fs, j) == None
    decreases |fs|
  {
    if fs != [] {
      var init := fs[..|fs| - 1];
      assert Within(init, lo, hi) by {
        forall i | 0 <= i < |init| ensures lo <= init[i].offset && End(init[i]) <= hi {
          assert init[i] == fs[i];
        }
      }
      assert lo <= fs[|fs| - 1].offset && End(fs[|fs| - 1]) <= hi;
      WrittenWithin(init, lo, hi, j);
    }
  }

  /** Storing fields that lie inside [lo, hi) leaves every byte outside it as it was. */
  lemma {:induction false} ApplyOutside(m: seq<byte>, fs: seq<Field>, lo: int, hi: int, j: int)
    requires FieldsFit(fs, |m|) && Within(fs, lo, hi) && 0 <= j < |m| && (j < lo || hi <= j)
    ensures Apply(m, fs)[j] == m[j]
  {
    ApplyByte(m, fs, j);
    WrittenWithin(fs, lo, hi, j);
  }

  /** Storing disjoint fields leaves field i's bytes in place. */
  lemma {:induction false} ApplyField(m: seq<byte>, fs: seq<Field>, i: int)
    requires FieldsFit(fs, |m|) && Disjoint(fs) && 0 <= i < |fs|
    ensures End(fs[i]) <= |m|
    ensures Apply(m, fs)[fs[i].offset .. End(fs[i])] == fs[i].bytes
  {
    var fd := fs[i];
    forall t | 0 <= t < |fd.bytes|
      ensures Apply(m, fs)[fd.offset + t] == fd.bytes[t]
    {
      ApplyByte(m, fs, fd.offset + t);
      WrittenDisjoint(fs, i, t);
    }
  }

  /** One 32-bit field. */
  function F32(offset: nat, v: int): (fd: Field)
    ensures |fd.bytes| == 4 && LE32(fd.bytes) == v % TWO32
  {
    Field(offset, Int32Bytes(v))
  }

  /** One 16-bit field. */
  function F16(offset: nat, v: int): (fd: Field)
    ensures |fd.bytes| == 2 && LE16(fd.bytes) == v % TWO16
  {
    Field(offset, Int16Bytes(v))
  }

  /** The ASCII codes of 'B' and 'M'. */
  const MAGIC_B: byte := 0x42
  const MAGIC_M: byte := 0x4D

  /** The value `write_bitmapinfoheader` gives bV4CSType: 'sRGB'. */
  const LCS_SRGB: u32 := 0x73524742

  /** The value it gives bV5Intent: LCS_GM_IMAGES, "perceptual". */
  const LCS_GM_IMAGES: u32 := 4

  /** What `write_fileheader` stores: the signature "BM", the file size at 2 and the
      offset of the pixel data at 10. The reserved bytes 6..9 are left alone. */
  function FileHeaderFields(f: Format): (fs: seq<Field>)
    ensures |fs| == 3 && Disjoint(fs) && Within(fs, 0, FILE_HEADER_SIZE)
  {
    [Field(0, [MAGIC_B, MAGIC_M]), F32(2, f.memUsed), F32(10, f.bitsOffset)]
  }

  /** The height field: negative for a top-down image. */
  function HeightField(f: Format): int
  {
    if f.topdown != 0 then -(f.h as int) else f.h
  }

  /** The BITMAPINFOHEADER fields at 14 .. 53. */
  function InfoBaseFields(f: Format): (fs: seq<Field>)
    ensures |fs| == 11 && Disjoint(fs) && Within(fs, 14, 54)
  {
    var fs := [F32(14, f.headerSize), F32(18, f.w), F32(22, HeightField(f)), F16(26, 1), F16(28, f.bpp),
      F32(30, f.compression), F32(34, f.bitsSize), F32(38, f.xPelsPerMeter),
      F32(42, f.yPelsPerMeter), F32(46, f.clrUsed), F32(50, 0)];
    AscendingDisjoint(fs);
    fs
  }

  /** The four channel masks of a BITMAPV4HEADER at 54 .. 69. */
  function MaskFields(f: Format): (fs: seq<Field>)
    ensures |fs| == 4 && Disjoint(fs) && Within(fs, 54, 70)
  {
    [F32(54, f.bfR), F32(58, f.bfG), F32(62, f.bfB), F32(66, f.bfA)]
  }

  /** The version 4 fields: the masks when the masks are in the header (BI_BITFIELDS with
      an alpha channel), then the colour space type at 70. */
  function V4Fields(f: Format): (fs: seq<Field>)
  {
    (if f.compression == BI_BITFIELDS && f.rgba != 0 then MaskFields(f) else []) + [F32(70, LCS_SRGB)]
  }

  /** What `write_bitmapinfoheader` stores, in order. */
  function InfoHeaderFields(f: Format): seq<Field>
  {
    InfoBaseFields(f)
    + (if f.bmpVersion >= 4 then V4Fields(f) else [])
    + (if f.bmpVersion >= 5 then [F32(122, LCS_GM_IMAGES)] else [])
  }

  /** What `write_bitfields` stores: the red, green and blue masks just after the DIB
      header, and only when the format has room for them. */
  function BitfieldsFields(f: Format): (fs: seq<Field>)
    ensures f.bitfieldsSize != 12 ==> fs == []
    ensures f.bitfieldsSize == 12 ==>
      |fs| == 3 && Disjoint(fs) && Within(fs, FILE_HEADER_SIZE + f.headerSize, FILE_HEADER_SIZE + f.headerSize + 12)
  {
    var o := FILE_HEADER_SIZE + f.headerSize;
    if f.bitfieldsSize != 12 then [] else [F32(o, f.bfR), F32(o + 4, f.bfG), F32(o + 8, f.bfB)]
  }

  /** The last byte any info header field reaches: 54 for versions up to 3, 74 for
      version 4 and 126 from version 5 on. */
  function InfoHeaderEnd(version: int): nat
  {
    if version >= 5 then 126 else if version >= 4 then 74 else 54
  }

  /** The info header fields are disjoint and lie in [14, InfoHeaderEnd). */
  lemma {:induction false} InfoHeaderLayout(f: Format)
    ensures Disjoint(InfoHeaderFields(f))
    ensures Within(InfoHeaderFields(f), FILE_HEADER_SIZE, InfoHeaderEnd(f.bmpVersion))
    ensures |InfoHeaderFields(f)| ==
      11 + (if f.bmpVersion >= 4 then (if f.compression == BI_BITFIELDS && f.rgba != 0 then 5 else 1) else 0)
         + (if f.bmpVersion >= 5 then 1 else 0)
  {
    var fs := InfoHeaderFields(f);
    var b := InfoBaseFields(f);
    var v4 := if f.bmpVersion >= 4 then V4Fields(f) else [];
    var v5 := if f.bmpVersion >= 5 then [F32(122, LCS_GM_IMAGES)] else [];
    assert fs == b + v4 + v5;
    var e := InfoHeaderEnd(f.bmpVersion);
    // Every field after the base lies above 53 and below e; the tail fields are ordered.
    forall i | 11 <= i < |fs| ensures 54 <= fs[i].offset && End(fs[i]) <= e
    {
      InfoTailWithin(f, fs, v4, v5, i);
    }
    forall i, j | 11 <= i < j < |fs| ensures End(fs[i]) <= fs[j].offset
    {
      InfoTailOrdered(f, fs, v4, v5, i, j);
    }
    forall i | 0 <= i < 11 ensures fs[i] == b[i] && 14 <= fs[i].offset && End(fs[i]) <= 54 {
    }
  }

  /** A field after the base lies above the BITMAPINFOHEADER and inside the header of
      the version. */
  lemma {:induction false} InfoTailWithin(f: Format, fs: seq<Field>, v4: seq<Field>, v5: seq<Field>, i: int)
    requires v4 == (if f.bmpVersion >= 4 then V4Fields(f) else [])
    requires v5 == (if f.bmpVersion >= 5 then [F32(122, LCS_GM_IMAGES)] else [])
    requires fs == InfoBaseFields(f) + v4 + v5
    requires 11 <= i < |fs|
    ensures 54 <= fs[i].offset && End(fs[i]) <= InfoHeaderEnd(f.bmpVersion)
  {
    if i < 11 + |v4| {
      assert fs[i] == v4[i - 11];
    } else {
      assert fs[i] == v5[i - 11 - |v4|];
    }
  }

  lemma {:induction false} InfoTailOrdered(f: Format, fs: seq<Field>, v4: seq<Field>, v5: seq<Field>, i: int, j: int)
    requires v4 == (if f.bmpVersion >= 4 then V4Fields(f) else [])
    requires v5 == (if f.bmpVersion >= 5 then [F32(122, LCS_GM_IMAGES)] else [])
    requires fs == InfoBaseFields(f) + v4 + v5
    requires 11 <= i < j < |fs|
    ensures End(fs[i]) <= fs[j].offset
  {
    if j < 11 + |v4| {
      assert fs[i] == v4[i - 11] && fs[j] == v4[j - 11];
      if f.compression == BI_BITFIELDS && f.rgba != 0 {
        assert v4 == MaskFields(f) + [F32(70, LCS_SRGB)];
        var ms := MaskFields(f);
        if j - 11 < 4 {
          assert v4[i - 11] == ms[i - 11] && v4[j - 11] == ms[j - 11];
        } else {
          assert v4[i - 11] == ms[i - 11];
        }
      }
    } else {
      assert fs[j] == v5[0];
      if i < 11 + |v4| {
        assert fs[i] == v4[i - 11];
      }
    }
  }

  /** Up to version 3 and at version 5, the info header stays inside the DIB header
      whose size `set_calculated_fields` chooses, so it cannot reach the masks or the
      palette that follow it. */
  lemma {:induction false} InfoHeaderInsideHeader(version: int)
    requires version <= 3 || version == 5
    ensures InfoHeaderEnd(version) <= FILE_HEADER_SIZE + HeaderSize(version)
  {
  }

  /** Version 4 is the exception: `set_calculated_fields` gives it a 40-byte header, yet
      the colour space type is written at 70, past the 54 bytes of the two headers. */
  lemma {:induction false} Version4Overrun(f: Format)
    requires f.bmpVersion == 4
    ensures var fs := InfoHeaderFields(f);
      fs[|fs| - 1] == F32(70, LCS_SRGB) && FILE_HEADER_SIZE + HeaderSize(f.bmpVersion) < 70
  {
  }

  /** The file header reads back: "BM", the file size and the pixel data offset (modulo
      2^32, as `set_int32` keeps only the low 32 bits). Nothing past byte 13 changes. */
  lemma {:induction false} FileHeaderReadBack(m: seq<byte>, f: Format)
    requires FILE_HEADER_SIZE <= |m|
    ensures FieldsFit(FileHeaderFields(f), |m|)
    ensures var r := Apply(m, FileHeaderFields(f));
      r[0] == MAGIC_B && r[1] == MAGIC_M &&
      LE32(r[2..6]) == f.memUsed % TWO32 && r[6..10] == m[6..10] &&
      LE32(r[10..14]) == f.bitsOffset % TWO32 && r[14..] == m[14..]
  {
    var fs := FileHeaderFields(f);
    var r := Apply(m, fs);
    ApplyField(m, fs, 0);
    ApplyField(m, fs, 1);
    ApplyField(m, fs, 2);
    assert r[0..2] == [MAGIC_B, MAGIC_M];
    forall j | 6 <= j < 10 ensures r[j] == m[j] {
      ApplyByte(m, fs, j);
      assert Written(fs, j) == Written(fs[..2], j);
      assert Written(fs[..2], j) == Written(fs[..1], j);
      assert Written(fs[..1], j) == Written([], j);
    }
    forall j | 14 <= j < |m| ensures r[j] == m[j] {
      ApplyOutside(m, fs, 0, FILE_HEADER_SIZE, j);
    }
  }

  /** A 32-bit field of disjoint fields reads back. */
  lemma {:induction false} Read32(m: seq<byte>, fs: seq<Field>, i: int, o: nat, v: int)
    requires FieldsFit(fs, |m|) && Disjoint(fs) && 0 <= i < |fs| && fs[i] == F32(o, v)
    ensures o + 4 <= |m| && LE32(Apply(m, fs)[o .. o + 4]) == v % TWO32
    ensures 0 <= v < TWO32 ==> LE32(Apply(m, fs)[o .. o + 4]) == v
  {
    ApplyField(m, fs, i);
  }

  /** A 16-bit field of disjoint fields reads back. */
  lemma {:induction false} Read16(m: seq<byte>, fs: seq<Field>, i: int, o: nat, v: int)
    requires FieldsFit(fs, |m|) && Disjoint(fs) && 0 <= i < |fs| && fs[i] == F16(o, v)
    ensures o + 2 <= |m| && LE16(Apply(m, fs)[o .. o + 2]) == v % TWO16
  {
    ApplyField(m, fs, i);
  }

  /** Every BITMAPINFOHEADER field reads back at its offset: header size, width,
      height (negated for a top-down image), one plane, the depth, the compression, the
      image size, the resolution, the colour count and zero important colours. */
  lemma {:induction false} InfoBaseReadBack(m: seq<byte>, f: Format)
    requires InfoHeaderEnd(f.bmpVersion) <= |m|
    ensures FieldsFit(InfoHeaderFields(f), |m|)
    ensures var r := Apply(m, InfoHeaderFields(f));
      LE32(r[14..18]) == f.headerSize % TWO32 && LE32(r[18..22]) == f.w % TWO32 &&
      LE32(r[22..26]) == HeightField(f) % TWO32 && LE16(r[26..28]) == 1 &&
      LE16(r[28..30]) == f.bpp % TWO16 && LE32(r[30..34]) == f.compression % TWO32 &&
      LE32(r[34..38]) == f.bitsSize % TWO32 && LE32(r[38..42]) == f.xPelsPerMeter % TWO32 &&
      LE32(r[42..46]) == f.yPelsPerMeter % TWO32 && LE32(r[46..50]) == f.clrUsed % TWO32 &&
      LE32(r[50..54]) == 0
  {
    InfoDimsReadBack(m, f);
    InfoCountsReadBack(m, f);
  }

  /** The first five BITMAPINFOHEADER fields read back: header size, width, height, one
      plane and the depth. */
  lemma {:induction false} InfoDimsReadBack(m: seq<byte>, f: Format)
    requires InfoHeaderEnd(f.bmpVersion) <= |m|
    ensures FieldsFit(InfoHeaderFields(f), |m|)
    ensures var r := Apply(m, InfoHeaderFields(f));
      LE32(r[14..18]) == f.headerSize % TWO32 && LE32(r[18..22]) == f.w % TWO32 &&
      LE32(r[22..26]) == HeightField(f) % TWO32 && LE16(r[26..28]) == 1 &&
      LE16(r[28..30]) == f.bpp % TWO16
  {
    var fs := InfoHeaderFields(f);
    InfoFieldsFit(f, |m|);
    InfoHeaderLayout(f);
    var b := InfoBaseFields(f);
    assert forall i | 0 <= i < 5 :: fs[i] == b[i];
    Read32(m, fs, 0, 14, f.headerSize);
    Read32(m, fs, 1, 18, f.w);
    Read32(m, fs, 2, 22, HeightField(f));
    Read16(m, fs, 3, 26, 1);
    Read16(m, fs, 4, 28, f.bpp);
  }

  /** The other six BITMAPINFOHEADER fields read back: the compression, the image size,
      the resolution, the colour count and zero important colours. */
  lemma {:induction false} InfoCountsReadBack(m: seq<byte>, f: Format)
    requires InfoHeaderEnd(f.bmpVersion) <= |m|
    ensures FieldsFit(InfoHeaderFields(f), |m|)
    ensures var r := Apply(m, InfoHeaderFields(f));
      LE32(r[30..34]) == f.compression % TWO32 &&
      LE32(r[34..38]) == f.bitsSize % TWO32 && LE32(r[38..42]) == f.xPelsPerMeter % TWO32 &&
      LE32(r[42..46]) == f.yPelsPerMeter % TWO32 && LE32(r[46..50]) == f.clrUsed % TWO32 &&
      LE32(r[50..54]) == 0
  {
    var fs := InfoHeaderFields(f);
    InfoFieldsFit(f, |m|);
    InfoHeaderLayout(f);
    var b := InfoBaseFields(f);
    assert forall i | 5 <= i < 11 :: fs[i] == b[i];
    Read32(m, fs, 5, 30, f.compression);
    Read32(m, fs, 6, 34, f.bitsSize);
    Read32(m, fs, 7, 38, f.xPelsPerMeter);
    Read32(m, fs, 8, 42, f.yPelsPerMeter);
    Read32(m, fs, 9, 46, f.clrUsed);
    Read32(m, fs, 10, 50, 0);
  }

  /** The BITMAPINFOHEADER fields still read back once the file header is written
      after them. */
  lemma {:induction false} HeadersReadBack(m: seq<byte>, f: Format)
    requires InfoHeaderEnd(f.bmpVersion) <= |m|
    ensures FieldsFit(InfoHeaderFields(f), |m|)
    ensures var r := Apply(Apply(m, InfoHeaderFields(f)), FileHeaderFields(f));
      LE32(r[14..18]) == f.headerSize % TWO32 && LE32(r[18..22]) == f.w % TWO32 &&
      LE32(r[22..26]) == HeightField(f) % TWO32 && LE16(r[26..28]) == 1 &&
      LE16(r[28..30]) == f.bpp % TWO16 && LE32(r[30..34]) == f.compression % TWO32 &&
      LE32(r[34..38]) == f.bitsSize % TWO32 && LE32(r[46..50]) == f.clrUsed % TWO32
  {
    InfoBaseReadBack(m, f);
    var m4 := Apply(m, InfoHeaderFields(f));
    FileHeaderKeeps(m4, f, 14, 18);
    FileHeaderKeeps(m4, f, 18, 22);
    FileHeaderKeeps(m4, f, 22, 26);
    FileHeaderKeeps(m4, f, 26, 28);
    FileHeaderKeeps(m4, f, 28, 30);
    FileHeaderKeeps(m4, f, 30, 34);
    FileHeaderKeeps(m4, f, 34, 38);
    FileHeaderKeeps(m4, f, 46, 50);
  }

  /** The file header leaves every byte from 14 on as it was. */
  lemma {:induction false} FileHeaderKeeps(m: seq<byte>, f: Format, lo: int, hi: int)
    requires FILE_HEADER_SIZE <= lo <= hi <= |m|
    ensures FieldsFit(FileHeaderFields(f), |m|)
    ensures Apply(m, FileHeaderFields(f))[lo..hi] == m[lo..hi]
  {
    var r := Apply(m, FileHeaderFields(f));
    forall j | lo <= j < hi ensures r[j] == m[j] {
      ApplyOutside(m, FileHeaderFields(f), 0, FILE_HEADER_SIZE, j);
    }
  }

  lemma {:induction false} InfoFieldsFit(f: Format, n: int)
    requires InfoHeaderEnd(f.bmpVersion) <= n
    ensures FieldsFit(InfoHeaderFields(f), n)
  {
    InfoHeaderLayout(f);
  }

  /** The version 4 part of the info header, as `write_bitmapinfoheader` stores it. */
  function V4Part(f: Format): seq<Field>
  {
    if f.bmpVersion >= 4 then V4Fields(f) else []
  }

  /** The version 5 part of the info header. */
  function V5Part(f: Format): seq<Field>
  {
    if f.bmpVersion >= 5 then [F32(122, LCS_GM_IMAGES)] else []
  }

  /** Storing the info header is storing its base fields, then its version 4 part, then
      its version 5 part. */
  lemma {:induction false} InfoHeaderParts(m: seq<byte>, f: Format)
    requires InfoHeaderEnd(f.bmpVersion) <= |m|
    ensures FieldsFit(InfoBaseFields(f), |m|) && FieldsFit(V4Part(f), |m|) && FieldsFit(V5Part(f), |m|)
    ensures FieldsFit(InfoHeaderFields(f), |m|)
    ensures Apply(m, InfoHeaderFields(f)) == Apply(Apply(Apply(m, InfoBaseFields(f)), V4Part(f)), V5Part(f))
  {
    var b, v4, v5 := InfoBaseFields(f), V4Part(f), V5Part(f);
    InfoFieldsFit(f, |m|);
    assert InfoHeaderFields(f) == b + v4 + v5;
    forall i | 0 <= i < |b| ensures End(b[i]) <= |m| {
      assert InfoHeaderFields(f)[i] == b[i];
    }
    forall i | 0 <= i < |v4| ensures End(v4[i]) <= |m| {
      assert InfoHeaderFields(f)[|b| + i] == v4[i];
    }
    forall i | 0 <= i < |v5| ensures End(v5[i]) <= |m| {
      assert InfoHeaderFields(f)[|b| + |v4| + i] == v5[i];
    }
    ApplyConcat(m, b, v4);
    ApplyConcat(m, b + v4, v5);
  }

  /** From version 4 on: the four masks are at 54 .. 69 exactly when the format is
      BI_BITFIELDS with an alpha channel (otherwise those bytes keep what `m` had), and
      the colour space type is sRGB. */
  lemma {:induction false} V4ReadBack(m: seq<byte>, f: Format)
    requires f.bmpVersion >= 4 && InfoHeaderEnd(f.bmpVersion) <= |m|
    ensures FieldsFit(InfoHeaderFields(f), |m|)
    ensures var r := Apply(m, InfoHeaderFields(f));
      LE32(r[70..74]) == LCS_SRGB &&
      (f.compression == BI_BITFIELDS && f.rgba != 0 ==>
        LE32(r[54..58]) == f.bfR && LE32(r[58..62]) == f.bfG &&
        LE32(r[62..66]) == f.bfB && LE32(r[66..70]) == f.bfA) &&
      (!(f.compression == BI_BITFIELDS && f.rgba != 0) ==> r[54..70] == m[54..70])
  {
    var fs := InfoHeaderFields(f);
    InfoFieldsFit(f, |m|);
    InfoHeaderLayout(f);
    var v4 := V4Fields(f);
    if f.compression == BI_BITFIELDS && f.rgba != 0 {
      assert fs[11] == F32(54, f.bfR) && fs[12] == F32(58, f.bfG);
      assert fs[13] == F32(62, f.bfB) && fs[14] == F32(66, f.bfA) && fs[15] == F32(70, LCS_SRGB);
      Read32(m, fs, 11, 54, f.bfR);
      Read32(m, fs, 12, 58, f.bfG);
      Read32(m, fs, 13, 62, f.bfB);
      Read32(m, fs, 14, 66, f.bfA);
      Read32(m, fs, 15, 70, LCS_SRGB);
    } else {
      assert fs[11] == F32(70, LCS_SRGB);
      Read32(m, fs, 11, 70, LCS_SRGB);
      forall j | 54 <= j < 70 ensures Apply(m, fs)[j] == m[j] {
        NoMaskWritten(f, fs, j);
        ApplyByte(m, fs, j);
      }
    }
  }

  lemma {:induction false} NoMaskWritten(f: Format, fs: seq<Field>, j: int)
    requires fs == InfoHeaderFields(f) && !(f.compression == BI_BITFIELDS && f.rgba != 0) && 54 <= j < 70
    ensures Written(fs, j) == None
  {
    var front := InfoBaseFields(f);
    var tail := fs[11..];
    assert fs == front + tail;
    assert forall i | 0 <= i < |tail| :: tail[i].offset >= 70 by {
      if f.bmpVersion >= 4 {
        assert tail[0] == F32(70, LCS_SRGB);
      }
    }
    WrittenSplit(front, tail, j);
    WrittenWithin(front, 14, 54, j);
  }

  /** A byte that no field of `tail` covers is written by `front` if at all. */
  lemma {:induction false} WrittenSplit(front: seq<Field>, tail: seq<Field>, j: int)
    requires forall i | 0 <= i < |tail| :: !(tail[i].offset <= j < End(tail[i]))
    ensures Written(front + tail, j) == Written(front, j)
    decreases |tail|
  {
    if tail != [] {
      var init := tail[..|tail| - 1];
      assert (front + tail)[..|front + tail| - 1] == front + init;
      var last := tail[|tail| - 1];
      assert (front + tail)[|front + tail| - 1] == last;
      assert !(last.offset <= j < End(last));
      assert Written(front + tail, j) == Written(front + init, j);
      assert forall i | 0 <= i < |init| :: init[i] == tail[i];
      WrittenSplit(front, init, j);
    } else {
      assert front + tail == front;
    }
  }

  /** From version 5 on the rendering intent at 122 is "perceptual". */
  lemma {:induction false} V5ReadBack(m: seq<byte>, f: Format)
    requires f.bmpVersion >= 5 && InfoHeaderEnd(f.bmpVersion) <= |m|
    ensures FieldsFit(InfoHeaderFields(f), |m|)
    ensures LE32(Apply(m, InfoHeaderFields(f))[122..126]) == LCS_GM_IMAGES
  {
    var fs := InfoHeaderFields(f);
    InfoFieldsFit(f, |m|);
    InfoHeaderLayout(f);
    Read32(m, fs, |fs| - 1, 122, LCS_GM_IMAGES);
  }

  /** The masks `write_bitfields` stores read back just after the DIB header. */
  lemma {:induction false} BitfieldsReadBack(m: seq<byte>, f: Format)
    requires f.bitfieldsSize == 12 && FILE_HEADER_SIZE + f.headerSize + 12 <= |m|
    ensures FieldsFit(BitfieldsFields(f), |m|)
    ensures var o := FILE_HEADER_SIZE + f.headerSize; var r := Apply(m, BitfieldsFields(f));
      LE32(r[o .. o + 4]) == f.bfR && LE32(r[o + 4 .. o + 8]) == f.bfG && LE32(r[o + 8 .. o + 12]) == f.bfB
  {
    var o := FILE_HEADER_SIZE + f.headerSize;
    var fs := BitfieldsFields(f);
    Read32(m, fs, 0, o, f.bfR);
    Read32(m, fs, 1, o + 4, f.bfG);
    Read32(m, fs, 2, o + 8, f.bfB);
  }
}
