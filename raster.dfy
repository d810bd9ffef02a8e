/** The pixel data `write_bits` leaves in the buffer: every pixel stored in turn, row
    by row and left to right, and where each pixel's bytes or bits end up. The
    properties here hold for any per-pixel encoding, so they are stated over an
    `Encoding` and then applied to the one `set_pixel` uses. */
module Raster {
  import opened Bytes
  import opened Arith
  import opened Bits
  import opened Quantize
  import opened Layout
  import opened Pixels

  /** What one pixel contributes: its bytes at a whole-byte depth, the bits it ORs into
      its byte at a sub-byte depth. */
  datatype Encoding = Encoding(whole: (nat, nat) -> seq<byte>, sub: (nat, nat) -> byte)

  /** At a whole-byte depth every pixel has `bpp / 8` bytes. */
  ghost predicate Sized(f: Format, e: Encoding)
  {
    WholeBytes(f.bpp) ==> forall x: nat, y: nat :: |e.whole(x, y)| == BytesPerPixel(f.bpp)
  }

  lemma {:induction false} SizedAt(f: Format, e: Encoding, x: nat, y: nat)
    requires Sized(f, e)
    ensures WholeBytes(f.bpp) ==> |e.whole(x, y)| == BytesPerPixel(f.bpp)
  {
  }

  /** Pixels 0 .. i - 1 of image row y stored into `m`, left to right, as the inner
      loop of `write_bits` stores them. */
  function Row(m: seq<byte>, f: Format, e: Encoding, y: nat, i: nat): (r: seq<byte>)
    requires BitsFit(f, |m|) && Sized(f, e) && y < f.h && i <= f.w
    ensures |r| == |m|
    decreases i
  {
    if i == 0 then m
    else
      SizedAt(f, e, i - 1, y);
      StoreAt(Row(m, f, e, y, i - 1), f, i - 1, y, e.whole(i - 1, y), e.sub(i - 1, y))
  }

  /** Image rows 0 .. j - 1 stored into `m`, top to bottom, as the outer loop of
      `write_bits` stores them. */
  function Rows(m: seq<byte>, f: Format, e: Encoding, j: nat): (r: seq<byte>)
    requires BitsFit(f, |m|) && Sized(f, e) && j <= f.h
    ensures |r| == |m|
    decreases j
  {
    if j == 0 then m else Row(Rows(m, f, e, j - 1), f, e, j - 1, f.w)
  }

  /** The image row and the byte inside that row at buffer offset `j`, when `j` lies
      in the pixel data. */
  function RowSpot(f: Format, j: int): (r: Option<(nat, nat)>)
    ensures r.Some? ==>
      (r.value.0 < f.h && r.value.1 < f.rowSize && j == RowBase(f, r.value.0) + r.value.1)
  {
    if f.rowSize == 0 || j < f.bitsOffset || j >= f.bitsOffset + Mul(f.h, f.rowSize) then None
    else
      var d := j - f.bitsOffset;
      var s, c := Div(d, f.rowSize), Mod(d, f.rowSize);
      DivMod(d, f.rowSize);
      DivBound(d, f.rowSize, f.h);
      var y := if f.topdown != 0 then s else f.h - 1 - s;
      assert StoredRow(f, y) == s;
      Some((y, c))
  }

  lemma {:induction false} RowSpotOf(f: Format, y: nat, c: nat)
    requires y < f.h && c < f.rowSize
    ensures RowSpot(f, RowBase(f, y) + c) == Some((y, c))
  {
    var s := StoredRow(f, y);
    DivModOf(s, c, f.rowSize);
    assert f.topdown != 0 || y == f.h - 1 - s;
  }

  /** At a whole-byte depth: the pixel (x, y) and the byte t of it stored at offset `j`. */
  function PixelSpot(f: Format, j: int): (r: Option<(nat, nat, nat)>)
    requires WholeBytes(f.bpp)
    ensures r.Some? ==>
      (r.value.0 < f.w && r.value.1 < f.h && r.value.2 < BytesPerPixel(f.bpp) &&
       j == RowBase(f, r.value.1) + PixelByte(f, r.value.0) + r.value.2)
  {
    match RowSpot(f, j)
    case None => None
    case Some((y, c)) =>
      var b := BytesPerPixel(f.bpp);
      DivMod(c, b);
      if Div(c, b) < f.w then Some((Div(c, b), y, Mod(c, b))) else None
  }

  lemma {:induction false} PixelSpotOf(f: Format, x: nat, y: nat, t: nat)
    requires WholeBytes(f.bpp) && RowFits(f)
    requires x < f.w && y < f.h && t < BytesPerPixel(f.bpp)
    ensures PixelSpot(f, RowBase(f, y) + PixelByte(f, x) + t) == Some((x, y, t))
  {
    PixelInRow(f, x);
    var b := BytesPerPixel(f.bpp);
    RowSpotOf(f, y, Mul(x, b) + t);
    DivModOf(x, t, b);
  }

  /** Storing pixel (x, y) at a whole-byte depth replaces exactly the bytes that
      `PixelSpot` attributes to it. */
  lemma {:induction false} StoreWholeSpot(prev: seq<byte>, f: Format, x: nat, y: nat, bs: seq<byte>, bits: byte, j: int)
    requires x < f.w && y < f.h && BitsFit(f, |prev|) && WholeBytes(f.bpp) && |bs| == BytesPerPixel(f.bpp)
    requires 0 <= j < |prev|
    ensures StoreAt(prev, f, x, y, bs, bits)[j] ==
      match PixelSpot(f, j)
      case Some((x2, y2, t)) => if x2 == x && y2 == y then bs[t] else prev[j]
      case None => prev[j]
  {
    var o := RowBase(f, y) + PixelByte(f, x);
    StoreWholeBytes(prev, f, x, y, bs);
    assert StoreAt(prev, f, x, y, bs, bits) == StoreAt(prev, f, x, y, bs, 0);
    if o <= j < o + |bs| {
      PixelSpotOf(f, x, y, j - o);
    }
  }

  /** The byte at `j` once pixels 0 .. i - 1 of row y (of a whole-byte depth) are
      stored into `m`. */
  function RowWholeValue(m: seq<byte>, f: Format, e: Encoding, y: nat, i: nat, j: int): byte
    requires Sized(f, e) && WholeBytes(f.bpp) && 0 <= j < |m|
  {
    match PixelSpot(f, j)
    case Some((x, y2, t)) =>
      SizedAt(f, e, x, y);
      if y2 == y && x < i then e.whole(x, y)[t] else m[j]
    case None => m[j]
  }

  lemma {:induction false} RowWholeStep(m: seq<byte>, prev: seq<byte>, f: Format, e: Encoding, y: nat, i: nat, j: int)
    requires BitsFit(f, |m|) && Sized(f, e) && y < f.h && 0 < i <= f.w && WholeBytes(f.bpp)
    requires |prev| == |m| && 0 <= j < |m| && prev[j] == RowWholeValue(m, f, e, y, i - 1, j)
    requires |e.whole(i - 1, y)| == BytesPerPixel(f.bpp)
    ensures StoreAt(prev, f, i - 1, y, e.whole(i - 1, y), e.sub(i - 1, y))[j] == RowWholeValue(m, f, e, y, i, j)
  {
    StoreWholeSpot(prev, f, i - 1, y, e.whole(i - 1, y), e.sub(i - 1, y), j);
  }

  /** Within one row a pixel of a whole-byte depth lands in its own bytes: after pixels
      0 .. i - 1 of row y, the byte at `j` is byte t of pixel (x, y) when that pixel is
      one of them, and the byte `m` had there otherwise. */
  lemma {:induction false} RowWhole(m: seq<byte>, f: Format, e: Encoding, y: nat, i: nat, j: int)
    requires BitsFit(f, |m|) && Sized(f, e) && y < f.h && i <= f.w && WholeBytes(f.bpp)
    requires 0 <= j < |m|
    ensures Row(m, f, e, y, i)[j] == RowWholeValue(m, f, e, y, i, j)
    decreases i
  {
    if i > 0 {
      RowWhole(m, f, e, y, i - 1, j);
      SizedAt(f, e, i - 1, y);
      RowWholeStep(m, Row(m, f, e, y, i - 1), f, e, y, i, j);
    }
  }

  /** The byte at `j` once rows 0 .. r - 1 (of a whole-byte depth) are stored into `m`. */
  function WholeAfter(m: seq<byte>, f: Format, e: Encoding, r: nat, j: int): byte
    requires Sized(f, e) && WholeBytes(f.bpp) && 0 <= j < |m|
  {
    match PixelSpot(f, j)
    case Some((x, y, t)) => SizedAt(f, e, x, y); if y < r then e.whole(x, y)[t] else m[j]
    case None => m[j]
  }

  /** After rows 0 .. r - 1, every byte of a pixel in those rows holds that pixel's
      byte and every other byte is what `m` had there. */
  lemma {:induction false} RowsWhole(m: seq<byte>, f: Format, e: Encoding, r: nat, j: int)
    requires BitsFit(f, |m|) && Sized(f, e) && r <= f.h && WholeBytes(f.bpp)
    requires 0 <= j < |m|
    ensures Rows(m, f, e, r)[j] == WholeAfter(m, f, e, r, j)
    decreases r
  {
    if r > 0 {
      RowsWhole(m, f, e, r - 1, j);
      RowsWholeStep(m, f, e, r, j);
    }
  }

  /** Row r - 1 takes `WholeAfter` from r - 1 rows to r. */
  lemma {:induction false} RowsWholeStep(m: seq<byte>, f: Format, e: Encoding, r: nat, j: int)
    requires BitsFit(f, |m|) && Sized(f, e) && 0 < r <= f.h && WholeBytes(f.bpp)
    requires 0 <= j < |m|
    requires Rows(m, f, e, r - 1)[j] == WholeAfter(m, f, e, r - 1, j)
    ensures Rows(m, f, e, r)[j] == WholeAfter(m, f, e, r, j)
  {
    var prev := Rows(m, f, e, r - 1);
    RowWhole(prev, f, e, r - 1, f.w, j);
    RowsWholeValue(m, prev, f, e, r, j);
  }

  lemma {:induction false} RowsWholeValue(m: seq<byte>, prev: seq<byte>, f: Format, e: Encoding, r: nat, j: int)
    requires Sized(f, e) && WholeBytes(f.bpp) && 0 < r && |prev| == |m| && 0 <= j < |m|
    requires prev[j] == WholeAfter(m, f, e, r - 1, j)
    ensures RowWholeValue(prev, f, e, r - 1, f.w, j) == WholeAfter(m, f, e, r, j)
  {
  }

  /** At a sub-byte depth: the byte k of image row y stored at offset `j`, when it
      holds at least one pixel. */
  function ByteSpot(f: Format, j: int): (r: Option<(nat, nat)>)
    requires SubByte(f.bpp)
    ensures r.Some? ==>
      (Mul(r.value.0, PixelsPerByte(f.bpp)) < f.w && r.value.1 < f.h && j == RowBase(f, r.value.1) + r.value.0)
  {
    match RowSpot(f, j)
    case None => None
    case Some((y, c)) => if Mul(c, PixelsPerByte(f.bpp)) < f.w then Some((c, y)) else None
  }

  lemma {:induction false} ByteSpotOf(f: Format, x: nat, y: nat)
    requires SubByte(f.bpp) && RowFits(f)
    requires x < f.w && y < f.h
    ensures ByteSpot(f, RowBase(f, y) + Div(x, PixelsPerByte(f.bpp))) == Some((Div(x, PixelsPerByte(f.bpp)), y))
  {
    PixelInRow(f, x);
    RowSpotOf(f, y, Div(x, PixelsPerByte(f.bpp)));
    DivMod(x, PixelsPerByte(f.bpp));
  }

  /** Byte k of row y is where `ByteSpot` finds it, when it holds a pixel. */
  lemma {:induction false} ByteSpotAt(f: Format, k: nat, y: nat)
    requires SubByte(f.bpp) && RowFits(f)
    requires Mul(k, PixelsPerByte(f.bpp)) < f.w && y < f.h
    ensures RowBase(f, y) + k < RowBase(f, y) + f.rowSize
    ensures ByteSpot(f, RowBase(f, y) + k) == Some((k, y))
  {
    var x := Mul(k, PixelsPerByte(f.bpp));
    PixelInRow(f, x);
    DivIn(x, PixelsPerByte(f.bpp), k);
    assert PixelByte(f, x) == k;
    RowSpotOf(f, y, k);
  }

  /** Byte k of row y, starting from `base`, with the bits of the first `t` pixels it
      holds ORed in, left to right, counting only pixels left of column `lim`. */
  function OrRun(base: byte, f: Format, e: Encoding, k: nat, y: nat, lim: nat, t: nat): byte
    requires SubByte(f.bpp)
  {
    if t == 0 then base
    else
      var x := Mul(k, PixelsPerByte(f.bpp)) + t - 1;
      OrByte(OrRun(base, f, e, k, y, lim, t - 1), if x < lim then e.sub(x, y) else 0)
  }

  /** One step of `OrRun`: pixel x, the t-th of byte k, ORed in. */
  lemma {:induction false} OrRunUnfold(base: byte, f: Format, e: Encoding, k: nat, y: nat, lim: nat, t: nat, x: nat)
    requires SubByte(f.bpp) && 0 < t && x == Mul(k, PixelsPerByte(f.bpp)) + t - 1
    ensures OrRun(base, f, e, k, y, lim, t) == Or(OrRun(base, f, e, k, y, lim, t - 1), if x < lim then e.sub(x, y) else 0)
  {
  }

  /** Column lim - 1 is not among the first `t` pixels of byte k: moving the limit past
      it changes nothing. */
  lemma {:induction false} OrRunFrame(base: byte, f: Format, e: Encoding, k: nat, y: nat, lim: nat, t: nat)
    requires SubByte(f.bpp) && 0 < lim
    requires lim - 1 < Mul(k, PixelsPerByte(f.bpp)) || lim - 1 >= Mul(k, PixelsPerByte(f.bpp)) + t
    ensures OrRun(base, f, e, k, y, lim, t) == OrRun(base, f, e, k, y, lim - 1, t)
    decreases t
  {
    if t > 0 {
      OrRunFrame(base, f, e, k, y, lim, t - 1);
    }
  }

  /** Column lim - 1 is among the first `t` pixels of byte k: moving the limit past it
      ORs its bits in. */
  lemma {:induction false} OrRunStep(base: byte, f: Format, e: Encoding, k: nat, y: nat, lim: nat, t: nat)
    requires SubByte(f.bpp) && 0 < lim
    requires Mul(k, PixelsPerByte(f.bpp)) <= lim - 1 < Mul(k, PixelsPerByte(f.bpp)) + t
    ensures OrRun(base, f, e, k, y, lim, t) == OrByte(OrRun(base, f, e, k, y, lim - 1, t), e.sub(lim - 1, y))
    decreases t
  {
    var x := Mul(k, PixelsPerByte(f.bpp)) + t - 1;
    if x == lim - 1 {
      OrRunFrame(base, f, e, k, y, lim, t - 1);
    } else {
      OrRunStep(base, f, e, k, y, lim, t - 1);
    }
  }

  /** Storing pixel (x, y) at a sub-byte depth ORs its bits into the byte `ByteSpot`
      attributes to it. */
  lemma {:induction false} StoreSubSpot(prev: seq<byte>, f: Format, x: nat, y: nat, bits: byte, j: int)
    requires x < f.w && y < f.h && BitsFit(f, |prev|) && SubByte(f.bpp)
    requires 0 <= j < |prev|
    ensures StoreAt(prev, f, x, y, [], bits)[j] ==
      match ByteSpot(f, j)
      case Some((k, y2)) =>
        if k == Div(x, PixelsPerByte(f.bpp)) && y2 == y then OrByte(prev[j], bits) else prev[j]
      case None => prev[j]
  {
    StoreSubByte(prev, f, x, y, bits);
    ByteSpotOf(f, x, y);
  }

  /** No pixel of byte k lies left of column `lim`: the byte is still `base`. */
  lemma {:induction false} OrRunEmpty(base: byte, f: Format, e: Encoding, k: nat, y: nat, lim: nat, t: nat)
    requires SubByte(f.bpp) && lim <= Mul(k, PixelsPerByte(f.bpp))
    ensures OrRun(base, f, e, k, y, lim, t) == base
    decreases t
  {
    if t > 0 {
      OrRunEmpty(base, f, e, k, y, lim, t - 1);
    }
  }

  /** The byte at `j` once pixels 0 .. i - 1 of row y (of a sub-byte depth) are stored
      into `m`. */
  function RowSubValue(m: seq<byte>, f: Format, e: Encoding, y: nat, i: nat, j: int): byte
    requires SubByte(f.bpp) && 0 <= j < |m|
  {
    match ByteSpot(f, j)
    case Some((k, y2)) => if y2 == y then OrRun(m[j], f, e, k, y, i, PixelsPerByte(f.bpp)) else m[j]
    case None => m[j]
  }

  lemma {:induction false} RowSubStep(m: seq<byte>, prev: seq<byte>, f: Format, e: Encoding, y: nat, i: nat, j: int)
    requires BitsFit(f, |m|) && y < f.h && 0 < i <= f.w && SubByte(f.bpp)
    requires |prev| == |m| && 0 <= j < |m| && prev[j] == RowSubValue(m, f, e, y, i - 1, j)
    ensures StoreAt(prev, f, i - 1, y, e.whole(i - 1, y), e.sub(i - 1, y))[j] == RowSubValue(m, f, e, y, i, j)
  {
    var ppb := PixelsPerByte(f.bpp);
    assert StoreAt(prev, f, i - 1, y, e.whole(i - 1, y), e.sub(i - 1, y)) ==
      StoreAt(prev, f, i - 1, y, [], e.sub(i - 1, y));
    StoreSubSpot(prev, f, i - 1, y, e.sub(i - 1, y), j);
    match ByteSpot(f, j)
    case Some((k, y2)) =>
      DivIn(i - 1, ppb, k);
      DivMod(i - 1, ppb);
      if y2 == y && k == Div(i - 1, ppb) {
        OrRunStep(m[j], f, e, k, y, i, ppb);
      } else if y2 == y {
        OrRunFrame(m[j], f, e, k, y, i, ppb);
      }
    case None =>
  }

  /** Within one row pixels of a sub-byte depth OR their bits into their own byte: after
      pixels 0 .. i - 1 of row y, byte k of that row holds the bits of those of its
      pixels ORed into what `m` had there; every other byte is what `m` had there. */
  lemma {:induction false} RowSub(m: seq<byte>, f: Format, e: Encoding, y: nat, i: nat, j: int)
    requires BitsFit(f, |m|) && Sized(f, e) && y < f.h && i <= f.w && SubByte(f.bpp)
    requires 0 <= j < |m|
    ensures Row(m, f, e, y, i)[j] == RowSubValue(m, f, e, y, i, j)
    decreases i
  {
    if i > 0 {
      RowSub(m, f, e, y, i - 1, j);
      RowSubStep(m, Row(m, f, e, y, i - 1), f, e, y, i, j);
    } else {
      match ByteSpot(f, j)
      case Some((k, y2)) => OrRunEmpty(m[j], f, e, k, y, 0, PixelsPerByte(f.bpp));
      case None =>
    }
  }

  /** The byte at `j` once rows 0 .. r - 1 (of a sub-byte depth) are stored into `m`. */
  function SubAfter(m: seq<byte>, f: Format, e: Encoding, r: nat, j: int): byte
    requires SubByte(f.bpp) && 0 <= j < |m|
  {
    match ByteSpot(f, j)
    case Some((k, y)) => if y < r then OrRun(m[j], f, e, k, y, f.w, PixelsPerByte(f.bpp)) else m[j]
    case None => m[j]
  }

  /** After rows 0 .. r - 1, byte k of a row among them holds the bits of all its pixels
      ORed into what `m` had there; every other byte is what `m` had there. */
  lemma {:induction false} RowsSub(m: seq<byte>, f: Format, e: Encoding, r: nat, j: int)
    requires BitsFit(f, |m|) && Sized(f, e) && r <= f.h && SubByte(f.bpp)
    requires 0 <= j < |m|
    ensures Rows(m, f, e, r)[j] == SubAfter(m, f, e, r, j)
    decreases r
  {
    if r > 0 {
      RowsSub(m, f, e, r - 1, j);
      RowsSubStep(m, f, e, r, j);
    }
  }

  /** Row r - 1 takes `SubAfter` from r - 1 rows to r. */
  lemma {:induction false} RowsSubStep(m: seq<byte>, f: Format, e: Encoding, r: nat, j: int)
    requires BitsFit(f, |m|) && Sized(f, e) && 0 < r <= f.h && SubByte(f.bpp)
    requires 0 <= j < |m|
    requires Rows(m, f, e, r - 1)[j] == SubAfter(m, f, e, r - 1, j)
    ensures Rows(m, f, e, r)[j] == SubAfter(m, f, e, r, j)
  {
    var prev := Rows(m, f, e, r - 1);
    RowSub(prev, f, e, r - 1, f.w, j);
    RowsSubValue(m, prev, f, e, r, j);
  }

  lemma {:induction false} RowsSubValue(m: seq<byte>, prev: seq<byte>, f: Format, e: Encoding, r: nat, j: int)
    requires SubByte(f.bpp) && 0 < r && |prev| == |m| && 0 <= j < |m|
    requires prev[j] == SubAfter(m, f, e, r - 1, j)
    ensures RowSubValue(prev, f, e, r - 1, f.w, j) == SubAfter(m, f, e, r, j)
  {
  }

  /** After the whole image, byte t of every pixel (x, y) of a whole-byte depth is in
      place at `RowBase(f, y) + PixelByte(f, x) + t`, `(bpp / 8) * x + t` bytes into its row. */
  lemma {:induction false} ImageWhole(m: seq<byte>, f: Format, e: Encoding, x: nat, y: nat, t: nat)
    requires BitsFit(f, |m|) && Sized(f, e) && WholeBytes(f.bpp)
    requires x < f.w && y < f.h && t < BytesPerPixel(f.bpp)
    ensures RowBase(f, y) + PixelByte(f, x) + t < |m|
    ensures t < |e.whole(x, y)| &&
      Rows(m, f, e, f.h)[RowBase(f, y) + PixelByte(f, x) + t] == e.whole(x, y)[t]
  {
    SizedAt(f, e, x, y);
    PixelSpotOf(f, x, y, t);
    PixelInRow(f, x);
    RowsWhole(m, f, e, f.h, RowBase(f, y) + PixelByte(f, x) + t);
  }

  /** At a depth other than 1, 4, 8, 16, 24 and 32 no pixel stores anything. */
  lemma {:induction false} RowsOther(m: seq<byte>, f: Format, e: Encoding, r: nat)
    requires BitsFit(f, |m|) && Sized(f, e) && r <= f.h && !WholeBytes(f.bpp) && !SubByte(f.bpp)
    ensures Rows(m, f, e, r) == m
    decreases r
  {
    if r > 0 {
      RowsOther(m, f, e, r - 1);
      RowOther(m, f, e, r - 1, f.w);
    }
  }

  lemma {:induction false} RowOther(m: seq<byte>, f: Format, e: Encoding, y: nat, i: nat)
    requires BitsFit(f, |m|) && Sized(f, e) && y < f.h && i <= f.w && !WholeBytes(f.bpp) && !SubByte(f.bpp)
    ensures Row(m, f, e, y, i) == m
    decreases i
  {
    if i > 0 {
      RowOther(m, f, e, y, i - 1);
    }
  }

  /** The bytes of row y from column byte `c` on that hold no pixel. */
  predicate Padding(f: Format, c: nat)
  {
    if WholeBytes(f.bpp) then Mul(f.w, BytesPerPixel(f.bpp)) <= c
    else if SubByte(f.bpp) then f.w <= Mul(c, PixelsPerByte(f.bpp))
    else true
  }

  /** Storing the image changes no byte outside the pixel data: neither the headers
      and palette before `bitsOffset`, nor what lies after the last row. */
  lemma {:induction false} ImageKeepsOutside(m: seq<byte>, f: Format, e: Encoding, j: int)
    requires BitsFit(f, |m|) && Sized(f, e) && 0 <= j < |m|
    requires j < f.bitsOffset || j >= f.bitsOffset + Mul(f.h, f.rowSize)
    ensures Rows(m, f, e, f.h)[j] == m[j]
  {
    if WholeBytes(f.bpp) {
      RowsWhole(m, f, e, f.h, j);
    } else if SubByte(f.bpp) {
      RowsSub(m, f, e, f.h, j);
    } else {
      RowsOther(m, f, e, f.h);
    }
  }

  /** Storing the image leaves the padding at the end of every row as it was. */
  lemma {:induction false} ImageKeepsPadding(m: seq<byte>, f: Format, e: Encoding, y: nat, c: nat)
    requires BitsFit(f, |m|) && Sized(f, e) && y < f.h && c < f.rowSize && Padding(f, c)
    ensures RowBase(f, y) + c < |m|
    ensures Rows(m, f, e, f.h)[RowBase(f, y) + c] == m[RowBase(f, y) + c]
  {
    var j := RowBase(f, y) + c;
    RowSpotOf(f, y, c);
    if WholeBytes(f.bpp) {
      RowsWhole(m, f, e, f.h, j);
      DivBound(c, BytesPerPixel(f.bpp), f.w);
    } else if SubByte(f.bpp) {
      RowsSub(m, f, e, f.h, j);
    } else {
      RowsOther(m, f, e, f.h);
    }
  }

  /** After the whole image, byte k of row y of a sub-byte depth (one that holds at
      least one pixel) holds the bits of all its pixels ORed into what `m` had there. */
  lemma {:induction false} ImageSub(m: seq<byte>, f: Format, e: Encoding, y: nat, k: nat)
    requires BitsFit(f, |m|) && Sized(f, e) && SubByte(f.bpp)
    requires y < f.h && Mul(k, PixelsPerByte(f.bpp)) < f.w
    ensures RowBase(f, y) + k < |m|
    ensures var o := RowBase(f, y) + k;
      Rows(m, f, e, f.h)[o] == OrRun(m[o], f, e, k, y, f.w, PixelsPerByte(f.bpp))
  {
    ByteSpotAt(f, k, y);
    RowsSub(m, f, e, f.h, RowBase(f, y) + k);
  }

  /** The codes `set_pixel` computes for the colours `sample` gives. */
  function CodesOf(f: Format, sample: Sampler, pow24: real -> real): (nat, nat) -> Codes
  {
    (x: nat, y: nat) => PixelCodes(f, x, y, sample(x, y), pow24)
  }

  /** The encoding of pixels with the codes `q`, as `set_pixel` stores them. */
  function Encode(f: Format, q: (nat, nat) -> Codes): (e: Encoding)
    requires ChannelWidthsOk(f)
    ensures Sized(f, e)
  {
    var e := Encoding(
      (x: nat, y: nat) => if WholeBytes(f.bpp) then PixelBytes(f, q(x, y)) else [],
      (x: nat, y: nat) => PixelBits(f, x, q(x, y)));
    assert Sized(f, e) by {
      if WholeBytes(f.bpp) {
        forall x: nat, y: nat
          ensures |e.whole(x, y)| == BytesPerPixel(f.bpp)
        {
          assert e.whole(x, y) == PixelBytes(f, q(x, y));
        }
      }
    }
    e
  }

  /** `set_pixel` is one step of the raster for the encoding of the codes it computes. */
  lemma {:induction false} StorePixelStep(m: seq<byte>, f: Format, x: nat, y: nat, sample: Sampler, pow24: real -> real)
    requires x < f.w && y < f.h && BitsFit(f, |m|) && ChannelWidthsOk(f)
    ensures var e := Encode(f, CodesOf(f, sample, pow24));
      StorePixel(m, f, x, y, sample(x, y), pow24) == StoreAt(m, f, x, y, e.whole(x, y), e.sub(x, y))
  {
  }

  /** With non-negative colours every 4-bit pixel's codes are on the R2G3B2 scales. */
  lemma {:induction false} Sampled4(f: Format, sample: Sampler, pow24: real -> real, x: nat, y: nat)
    requires f.bpp == 4 && NonNegativeSamples(sample)
    ensures Codes4Ok(CodesOf(f, sample, pow24)(x, y))
  {
    assert NonNegative(sample(x, y));
  }

  /** With non-negative colours every 8-bit pixel's codes are on the R6G7B6 scales. */
  lemma {:induction false} Sampled8(f: Format, sample: Sampler, pow24: real -> real, x: nat, y: nat)
    requires f.bpp == 8 && NonNegativeSamples(sample)
    ensures Codes8Ok(CodesOf(f, sample, pow24)(x, y))
  {
    assert NonNegative(sample(x, y));
  }

  /** The R2G3B2 index of each pixel with the codes `q`. */
  function Index4Of(q: (nat, nat) -> Codes): (nat, nat) -> int
  {
    (x: nat, y: nat) => Index4(q(x, y))
  }

  /** Pixel x of row y of a 4-bit image contributes the index `idx(x, y)` to the high
      nibble of its byte when `high` and to the low nibble otherwise. */
  predicate NibblePlaced(f: Format, e: Encoding, idx: (nat, nat) -> int, x: nat, y: nat, high: bool)
  {
    x < f.w ==> 0 <= idx(x, y) < 16 && e.sub(x, y) == if high then 16 * idx(x, y) else idx(x, y)
  }

  /** Starting from 0, the two pixels of byte k of a 4-bit row make up its nibbles. */
  lemma {:induction false} OrRunNibbles(f: Format, e: Encoding, idx: (nat, nat) -> int, y: nat, k: nat)
    requires f.bpp == 4 && 2 * k < f.w
    requires NibblePlaced(f, e, idx, 2 * k, y, true) && NibblePlaced(f, e, idx, 2 * k + 1, y, false)
    ensures var v := OrRun(0, f, e, k, y, f.w, 2);
      var lo := if 2 * k + 1 < f.w then idx(2 * k + 1, y) else 0;
      v == 16 * idx(2 * k, y) + lo && v / 16 == idx(2 * k, y) && v % 16 == lo
  {
    var hi := idx(2 * k, y);
    var lo := if 2 * k + 1 < f.w then idx(2 * k + 1, y) else 0;
    assert e.sub(2 * k, y) == 16 * hi;
    assert (if 2 * k + 1 < f.w then e.sub(2 * k + 1, y) else 0) == lo;
    MulIs(k, 2);
    assert Mul(k, PixelsPerByte(f.bpp)) == 2 * k;
    OrRunUnfold(0, f, e, k, y, f.w, 1, 2 * k);
    assert OrRun(0, f, e, k, y, f.w, 1) == 16 * hi;
    OrRunUnfold(0, f, e, k, y, f.w, 2, 2 * k + 1);
    assert OrRun(0, f, e, k, y, f.w, 2) == Or(16 * hi, lo);
    NibbleOr(hi, lo);
  }

  /** A high nibble ORed with a low one is their sum, and they come back out of it. */
  lemma {:induction false} NibbleOr(hi: nat, lo: nat)
    requires lo < 16
    ensures Or(16 * hi, lo) == 16 * hi + lo && (16 * hi + lo) / 16 == hi && (16 * hi + lo) % 16 == lo
  {
    assert Pow2(4) == 16;
    OrDisjoint(hi, lo, 4);
    DivModUnique(16 * hi + lo, 16, hi, lo);
  }

  /** In a zeroed buffer, byte k of a 4-bit row ends up holding the index of pixel 2k in
      its high nibble and that of pixel 2k + 1 (when the row has one) in its low nibble. */
  lemma {:induction false} NibblesOfByte(m: seq<byte>, f: Format, e: Encoding, idx: (nat, nat) -> int, y: nat, k: nat)
    requires BitsFit(f, |m|) && Sized(f, e) && f.bpp == 4
    requires NibblePlaced(f, e, idx, 2 * k, y, true) && NibblePlaced(f, e, idx, 2 * k + 1, y, false)
    requires y < f.h && 2 * k < f.w && RowBase(f, y) + k < |m| && m[RowBase(f, y) + k] == 0
    ensures var v := Rows(m, f, e, f.h)[RowBase(f, y) + k];
      var lo := if 2 * k + 1 < f.w then idx(2 * k + 1, y) else 0;
      v == 16 * idx(2 * k, y) + lo && v / 16 == idx(2 * k, y) && v % 16 == lo
  {
    MulIs(k, 2);
    ImageSub(m, f, e, y, k);
    OrRunNibbles(f, e, idx, y, k);
  }

  /** Pixels whose codes are on the R2G3B2 scales are placed as `NibblePlaced` says. */
  lemma {:induction false} Nibble4Placed(f: Format, q: (nat, nat) -> Codes, x: nat, y: nat, high: bool)
    requires ChannelWidthsOk(f) && f.bpp == 4 && high == (x % 2 == 0)
    requires x < f.w ==> Codes4Ok(q(x, y))
    ensures NibblePlaced(f, Encode(f, q), Index4Of(q), x, y, high)
  {
    if x < f.w {
      Pixel4Nibble(f, x, q(x, y));
    }
  }

  /** Both pixels of byte k of a 4-bit row are placed as `NibblePlaced` says. */
  lemma {:induction false} Nibbles4Placed(f: Format, q: (nat, nat) -> Codes, y: nat, k: nat)
    requires ChannelWidthsOk(f) && f.bpp == 4
    requires Codes4Ok(q(2 * k, y)) && (2 * k + 1 < f.w ==> Codes4Ok(q(2 * k + 1, y)))
    ensures NibblePlaced(f, Encode(f, q), Index4Of(q), 2 * k, y, true)
    ensures NibblePlaced(f, Encode(f, q), Index4Of(q), 2 * k + 1, y, false)
  {
    Nibble4Placed(f, q, 2 * k, y, true);
    Nibble4Placed(f, q, 2 * k + 1, y, false);
  }

  /** `write_bits` at 4 bits per pixel, into a zeroed buffer: byte k of row y holds the
      R2G3B2 index of pixel 2k in its high nibble and that of pixel 2k + 1 in its low one. */
  lemma {:induction false} Image4Byte(m: seq<byte>, f: Format, q: (nat, nat) -> Codes, y: nat, k: nat)
    requires BitsFit(f, |m|) && ChannelWidthsOk(f) && f.bpp == 4
    requires y < f.h && 2 * k < f.w && RowBase(f, y) + k < |m| && m[RowBase(f, y) + k] == 0
    requires Codes4Ok(q(2 * k, y)) && (2 * k + 1 < f.w ==> Codes4Ok(q(2 * k + 1, y)))
    ensures var v := Rows(m, f, Encode(f, q), f.h)[RowBase(f, y) + k];
      var lo := if 2 * k + 1 < f.w then Index4Of(q)(2 * k + 1, y) else 0;
      v / 16 == Index4Of(q)(2 * k, y) && v % 16 == lo
  {
    Nibbles4Placed(f, q, y, k);
    NibblesOfByte(m, f, Encode(f, q), Index4Of(q), y, k);
  }

  /** The 1-bit values of pixels 8k .. 8k + t - 1 of row y read as a binary number, the
      first pixel most significant; a column past the row's end counts as 0. */
  function MsbBits(f: Format, bit: (nat, nat) -> int, k: nat, y: nat, t: nat): int
  {
    if t == 0 then 0
    else
      var x := 8 * k + t - 1;
      2 * MsbBits(f, bit, k, y, t - 1) + (if x < f.w && bit(x, y) == 1 then 1 else 0)
  }

  /** Pixel x of row y contributes the bit `bit(x, y)` at bit position `s` of its byte. */
  predicate BitPlaced(f: Format, e: Encoding, bit: (nat, nat) -> int, x: nat, y: nat, s: nat)
  {
    x < f.w ==> (bit(x, y) == 0 || bit(x, y) == 1) && e.sub(x, y) == if bit(x, y) == 1 then Pow2(s) else 0
  }

  /** The first `t` pixels of byte k of row y contribute their bits, the first one at
      bit 7, the next at bit 6, and so on. */
  predicate BitsPlaced(f: Format, e: Encoding, bit: (nat, nat) -> int, k: nat, y: nat, t: nat)
  {
    t == 0 || (t <= 8 && BitsPlaced(f, e, bit, k, y, t - 1) && BitPlaced(f, e, bit, 8 * k + t - 1, y, 8 - t))
  }

  /** The bits of pixels 8k .. 8k + t - 1 of row y in their places inside the byte, the
      first at bit 7. */
  function BitsAt(f: Format, bit: (nat, nat) -> int, k: nat, y: nat, t: nat): nat
    requires t <= 8
  {
    if t == 0 then 0
    else
      var x := 8 * k + t - 1;
      BitsAt(f, bit, k, y, t - 1) + (if x < f.w && bit(x, y) == 1 then Pow2(8 - t) else 0)
  }

  /** Bits placed as `BitsPlaced` says, ORed one after another, are `BitsAt`. */
  lemma {:induction false} OrRunBits(f: Format, e: Encoding, bit: (nat, nat) -> int, k: nat, y: nat, t: nat)
    requires f.bpp == 1 && t <= 8 && BitsPlaced(f, e, bit, k, y, t)
    ensures OrRun(0, f, e, k, y, f.w, t) == BitsAt(f, bit, k, y, t)
    decreases t
  {
    if t > 0 {
      OrRunBits(f, e, bit, k, y, t - 1);
      OrRunBitsStep(f, e, bit, k, y, t);
    }
  }

  /** ORing in pixel 8k + t - 1 takes `BitsAt` from t - 1 pixels to t. */
  lemma {:induction false} OrRunBitsStep(f: Format, e: Encoding, bit: (nat, nat) -> int, k: nat, y: nat, t: nat)
    requires f.bpp == 1 && 0 < t <= 8 && BitPlaced(f, e, bit, 8 * k + t - 1, y, 8 - t)
    requires OrRun(0, f, e, k, y, f.w, t - 1) == BitsAt(f, bit, k, y, t - 1)
    ensures OrRun(0, f, e, k, y, f.w, t) == BitsAt(f, bit, k, y, t)
  {
    var x := 8 * k + t - 1;
    var v := if x < f.w && bit(x, y) == 1 then Pow2(8 - t) else 0;
    MulIs(k, 8);
    assert (if x < f.w then e.sub(x, y) else 0) == v;
    OrRunUnfold(0, f, e, k, y, f.w, t, x);
    assert OrRun(0, f, e, k, y, f.w, t) == Or(BitsAt(f, bit, k, y, t - 1), v);
    OrBitsAt(f, bit, k, y, t);
  }

  /** ORing in pixel 8k + t - 1's bit adds it: no lower bit is set yet. */
  lemma {:induction false} OrBitsAt(f: Format, bit: (nat, nat) -> int, k: nat, y: nat, t: nat)
    requires 0 < t <= 8
    ensures var x := 8 * k + t - 1;
      Or(BitsAt(f, bit, k, y, t - 1), if x < f.w && bit(x, y) == 1 then Pow2(8 - t) else 0) ==
      BitsAt(f, bit, k, y, t)
  {
    var x := 8 * k + t - 1;
    BitsAtMsb(f, bit, k, y, t - 1);
    OrBitStep(BitsAt(f, bit, k, y, t - 1), if x < f.w && bit(x, y) == 1 then Pow2(8 - t) else 0,
              MsbBits(f, bit, k, y, t - 1), if x < f.w && bit(x, y) == 1 then 1 else 0, 8 - t);
  }

  /** `BitsAt` is `MsbBits` shifted up past the pixels still to come. */
  lemma {:induction false} BitsAtMsb(f: Format, bit: (nat, nat) -> int, k: nat, y: nat, t: nat)
    requires t <= 8
    ensures 0 <= MsbBits(f, bit, k, y, t)
    ensures BitsAt(f, bit, k, y, t) == MsbBits(f, bit, k, y, t) * Pow2(8 - t)
    decreases t
  {
    if t > 0 {
      BitsAtMsb(f, bit, k, y, t - 1);
      var x := 8 * k + t - 1;
      ShiftStep(BitsAt(f, bit, k, y, t - 1), MsbBits(f, bit, k, y, t - 1),
                if x < f.w && bit(x, y) == 1 then 1 else 0, Pow2(8 - t), Pow2(9 - t), MsbBits(f, bit, k, y, t));
    }
  }

  lemma {:induction false} ShiftStep(acc: int, hi: int, b: int, p: int, q: int, r: int)
    requires acc == hi * q && q == 2 * p && (b == 0 || b == 1) && r == 2 * hi + b
    ensures acc + (if b == 1 then p else 0) == r * p
  {
    assert hi * q == (2 * hi) * p by { MulAssoc(hi, 2, p); }
    assert r * p == (2 * hi) * p + b * p;
  }

  /** All eight bits of a byte placed: the byte is `MsbBits` itself. */
  lemma {:induction false} OrRunByte(f: Format, e: Encoding, bit: (nat, nat) -> int, k: nat, y: nat)
    requires f.bpp == 1 && BitsPlaced(f, e, bit, k, y, 8)
    ensures OrRun(0, f, e, k, y, f.w, 8) == MsbBits(f, bit, k, y, 8)
  {
    OrRunBits(f, e, bit, k, y, 8);
    BitsAtMsb(f, bit, k, y, 8);
  }

  /** Appending bit `b` below the bits `hi` already shifted one place further up. */
  lemma {:induction false} OrBitStep(prev: nat, v: nat, hi: nat, b: int, n: nat)
    requires (b == 0 || b == 1) && v == (if b == 1 then Pow2(n) else 0) && prev == hi * Pow2(n + 1)
    ensures Or(prev, v) == prev + v
  {
    var p := Pow2(n);
    assert Pow2(n + 1) == 2 * p;
    assert prev == (2 * hi) * p by { MulAssoc(hi, 2, p); }
    assert v == b * p;
    OrLowBit(hi, b, n);
    assert (2 * hi + b) * p == (2 * hi) * p + b * p;
  }

  /** Bit `b` ORed in just below an even number, both shifted up by n, is added. */
  lemma {:induction false} OrLowBit(hi: nat, b: nat, n: nat)
    requires b <= 1
    ensures Or((2 * hi) * Pow2(n), b * Pow2(n)) == (2 * hi + b) * Pow2(n)
  {
    assert Pow2(1) == 2;
    assert hi * Pow2(1) == 2 * hi;
    OrDisjoint(hi, b, 1);
    OrShift(2 * hi, b, n);
  }

  /** The bit of each 1-bit pixel with the codes `q`: 1 exactly when its red code is. */
  function Bit1Of(q: (nat, nat) -> Codes): (nat, nat) -> int
  {
    (x: nat, y: nat) => if q(x, y).r == 1 then 1 else 0
  }

  lemma {:induction false} Bit1Placed(f: Format, q: (nat, nat) -> Codes, x: nat, y: nat)
    requires ChannelWidthsOk(f) && f.bpp == 1
    ensures BitPlaced(f, Encode(f, q), Bit1Of(q), x, y, 7 - x % 8)
  {
    assert PixelBits(f, x, q(x, y)) == if q(x, y).r == 1 then Pow2(7 - x % 8) else 0;
  }

  /** `set_pixel` places each 1-bit pixel's bit as `BitPlaced` describes. */
  lemma {:induction false} Bits1Placed(f: Format, q: (nat, nat) -> Codes, k: nat, y: nat, t: nat)
    requires ChannelWidthsOk(f) && f.bpp == 1 && t <= 8
    ensures BitsPlaced(f, Encode(f, q), Bit1Of(q), k, y, t)
    decreases t
  {
    if t > 0 {
      Bits1Placed(f, q, k, y, t - 1);
      Bit1Placed(f, q, 8 * k + t - 1, y);
      DivModUnique(8 * k + t - 1, 8, k, t - 1);
    }
  }

  /** In a zeroed buffer, byte k of a 1-bit row ends up holding the bits of pixels
      8k .. 8k + 7, the leftmost pixel in the most significant bit. */
  lemma {:induction false} BitsOfByte(m: seq<byte>, f: Format, e: Encoding, bit: (nat, nat) -> int, y: nat, k: nat)
    requires BitsFit(f, |m|) && Sized(f, e) && f.bpp == 1 && BitsPlaced(f, e, bit, k, y, 8)
    requires y < f.h && 8 * k < f.w && RowBase(f, y) + k < |m| && m[RowBase(f, y) + k] == 0
    ensures Rows(m, f, e, f.h)[RowBase(f, y) + k] == MsbBits(f, bit, k, y, 8)
  {
    MulIs(k, 8);
    ImageSub(m, f, e, y, k);
    OrRunByte(f, e, bit, k, y);
  }

  /** `write_bits` at 1 bit per pixel, into a zeroed buffer: byte k of row y holds the
      bits of pixels 8k .. 8k + 7, the leftmost pixel in the most significant bit. */
  lemma {:induction false} Image1Byte(m: seq<byte>, f: Format, q: (nat, nat) -> Codes, y: nat, k: nat)
    requires BitsFit(f, |m|) && ChannelWidthsOk(f) && f.bpp == 1
    requires y < f.h && 8 * k < f.w && RowBase(f, y) + k < |m| && m[RowBase(f, y) + k] == 0
    ensures Rows(m, f, Encode(f, q), f.h)[RowBase(f, y) + k] == MsbBits(f, Bit1Of(q), k, y, 8)
  {
    Bits1Placed(f, q, k, y, 8);
    BitsOfByte(m, f, Encode(f, q), Bit1Of(q), y, k);
  }

  /** The bit `set_pixel` computes for a 1-bit pixel is its dithered luma, inverted when
      the palette starts with white, and 0 with a one-colour palette. */
  lemma {:induction false} Sampled1(f: Format, sample: Sampler, pow24: real -> real, x: nat, y: nat)
    requires f.bpp == 1
    ensures var t := OrderedDitherLowLevel(Luma(sample(x, y), pow24), x, y);
      Bit1Of(CodesOf(f, sample, pow24))(x, y) == 1 <==>
        f.palP1 == 0 && (if f.palWb != 0 then t == 0 else t == 1)
  {
    Pixel1Bit(f, x, y, sample(x, y), pow24);
  }
}
