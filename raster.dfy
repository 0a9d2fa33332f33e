/**
 * The rasterizer of the QR generator: `generateQRCode` allocates a 512 x 512
 * ARGB bitmap, asks the barcode library for a module matrix of that size, and
 * paints every pixel black or white from the matrix. Any exception raised on
 * the way is caught, and the buffer is returned as it stands.
 */
module Raster {
  import opened Options

  /** Size of the bitmap `generateQRCode` allocates and requests from the encoder. */
  const Width: nat := 512
  const Height: nat := 512

  /** A pixel of an ARGB_8888 bitmap: an unsigned 32-bit colour word. */
  newtype Argb = c: int | 0 <= c < 0x1_0000_0000

  /** Color.BLACK and Color.WHITE (opaque), and the fully transparent zero word
      every pixel of a freshly created ARGB_8888 bitmap holds. */
  const Black: Argb := 0xFF00_0000
  const White: Argb := 0xFFFF_FFFF
  const Blank: Argb := 0

  /** The module grid the barcode library returns; `m[x][y]` is the module at
      column x, row y (the library's `bitMatrix[x, y]`). */
  type BitMatrix = seq<seq<bool>>

  /** The barcode library, as far as this program sees it: for a text, either a
      matrix (encoding succeeded) or None (encoding threw). */
  type Encoder = string -> Option<BitMatrix>

  /** Does reading module (x, y) succeed, rather than raise? */
  predicate InRange(m: BitMatrix, x: int, y: int)
  {
    0 <= x < |m| && 0 <= y < |m[x]|
  }

  /** The matrix provides every module the 512 x 512 fill reads. */
  predicate Covers(m: BitMatrix)
  {
    |m| >= Width && forall x | 0 <= x < Width :: |m[x]| >= Height
  }

  /** The colour the fill paints for one module. */
  function ColourOf(dark: bool): Argb
  {
    if dark then Black else White
  }

  /** The fill visits the pixels column by column (x outer, y inner) and stops
      at the first read that raises. Pixel (x, y) has been painted exactly when
      every module read up to and including (x, y) in that order succeeded. */
  ghost predicate Painted(m: BitMatrix, x: int, y: int)
  {
    InRange(m, x, y) &&
    forall i, j | 0 <= i < Width && 0 <= j < Height && (i < x || (i == x && j <= y)) :: InRange(m, i, j)
  }

  /** The value pixel (x, y) holds when `generateQRCode` returns, given the
      encoder's outcome: the module's colour if it was painted, otherwise the
      freshly allocated transparent pixel. */
  ghost function Pixel(encoded: Option<BitMatrix>, x: int, y: int): Argb
  {
    match encoded
    case None => Blank
    case Some(m) => if Painted(m, x, y) then ColourOf(m[x][y]) else Blank
  }

  /**
   * generateQRCode: allocates a fresh 512 x 512 buffer and fills it from the
   * encoder's matrix. On encoder failure the buffer is returned untouched; on
   * success every pixel is BLACK where the module is set and WHITE elsewhere.
   */
  method GenerateQRCode(encode: Encoder, text: string) returns (bmp: array2<Argb>)
    ensures fresh(bmp)
    ensures bmp.Length0 == Width && bmp.Length1 == Height
    ensures forall x, y | 0 <= x < Width && 0 <= y < Height :: bmp[x, y] == Pixel(encode(text), x, y)
    ensures encode(text).None? ==>
              forall x, y | 0 <= x < Width && 0 <= y < Height :: bmp[x, y] == Blank
    ensures encode(text).Some? && Covers(encode(text).value) ==>
              forall x, y | 0 <= x < Width && 0 <= y < Height ::
                bmp[x, y] == ColourOf(encode(text).value[x][y])
  {
    bmp := new Argb[Width, Height]((_, _) => Blank);
    var encoded := encode(text);
    if encoded.None? {
      // the library threw: the exception is caught and the blank buffer returned
      return;
    }
    var m := encoded.value;
    for x := 0 to Width
      invariant forall i, j | 0 <= i < x && 0 <= j < Height :: Painted(m, i, j) && bmp[i, j] == ColourOf(m[i][j])
      invariant forall i, j | x <= i < Width && 0 <= j < Height :: bmp[i, j] == Blank
    {
      for y := 0 to Height
        invariant forall i, j | 0 <= i < x && 0 <= j < Height :: Painted(m, i, j) && bmp[i, j] == ColourOf(m[i][j])
        invariant forall j | 0 <= j < y :: Painted(m, x, j) && bmp[x, j] == ColourOf(m[x][j])
        invariant forall j | y <= j < Height :: bmp[x, j] == Blank
        invariant forall i, j | x < i < Width && 0 <= j < Height :: bmp[i, j] == Blank
      {
        if !InRange(m, x, y) {
          // reading the module raised: caught, the partly painted buffer is returned
          UnpaintedFrom(m, x, y);
          return;
        }
        PaintedNext(m, x, y);
        bmp[x, y] := ColourOf(m[x][y]);
      }
    }
  }

  /** Once the module read at (x, y) raises, no pixel at or after (x, y) in
      scan order is painted. */
  lemma UnpaintedFrom(m: BitMatrix, x: int, y: int)
    requires 0 <= x < Width && 0 <= y < Height && !InRange(m, x, y)
    ensures forall i, j | 0 <= i < Width && 0 <= j < Height && (x < i || (x == i && y <= j)) :: !Painted(m, i, j)
  {
  }

  /** The scan advances from (x, y - 1), or from the end of column x - 1 when
      y is 0, to (x, y) exactly when the read at (x, y) succeeds. */
  lemma PaintedNext(m: BitMatrix, x: int, y: int)
    requires 0 <= x < Width && 0 <= y < Height && InRange(m, x, y)
    requires forall i, j | 0 <= i < x && 0 <= j < Height :: Painted(m, i, j)
    requires forall j | 0 <= j < y :: Painted(m, x, j)
    ensures Painted(m, x, y)
  {
    forall i, j | 0 <= i < Width && 0 <= j < Height && (i < x || (i == x && j <= y))
      ensures InRange(m, i, j)
    {
      if i < x {
        assert Painted(m, i, j);
      } else if j < y {
        assert Painted(m, x, j);
      }
    }
  }
}
