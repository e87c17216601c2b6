/** TGA images: pixels, run-length packets, the four image orientations, and what reading a file
    writes into the image. */
module Targa {
  import opened ByteStream
  import opened Wrappers
  import opened Arithmetic

  datatype Color = Color(r: Byte, g: Byte, b: Byte, a: Byte)

  datatype Kind = Indexed | Rgb | Gray

  datatype Header = Header(kind: Kind, bitsPerPixel: nat, width: nat, height: nat,
                           leftToRight: bool, topToBottom: bool, colormap: seq<Color>) {
    predicate Valid() {
      && width > 0 && height > 0
      && (kind == Rgb ==> bitsPerPixel in {15, 16, 24, 32})
      && (kind != Rgb ==> bitsPerPixel == 8)
    }

    predicate HasAlpha() {
      bitsPerPixel == 32 || bitsPerPixel == 16
    }

    function PixelBytes(): (n: nat)
      requires Valid()
      ensures 1 <= n <= 4
    {
      if kind != Rgb then 1 else if bitsPerPixel <= 16 then 2 else if bitsPerPixel == 24 then 3 else 4
    }
  }

  /** A file, and the bytes that failed reads leave behind: read8 returns what its variable happens to
      hold, another value each time. The read position counts failed reads too. */
  datatype Source = Source(data: seq<Byte>, stray: nat -> Byte) {
    function At(pos: nat): Byte {
      if pos < |data| then data[pos] else stray(pos)
    }

    predicate Eof(pos: nat) {
      pos > |data|
    }
  }

  function Scale5To8(v: nat): Byte
    requires v < 32
  {
    (v * 8 + v / 4) as Byte
  }

  /** Five bits each for red, green and blue, and a bit that tells opaque from transparent. */
  function Color16(low: Byte, high: Byte, hasAlpha: bool): Color {
    var v := high as nat * 256 + low as nat;
    Color(Scale5To8(v / 1024 % 32), Scale5To8(v / 32 % 32), Scale5To8(v % 32),
          if hasAlpha && v / 32768 % 2 == 0 then 0 else 255)
  }

  /** The color of the pixel whose bytes begin at pos. An index outside the colormap gives no
      particular color. */
  function ColorAt(h: Header, s: Source, pos: nat): Color
    requires h.Valid()
  {
    match h.kind
    case Indexed =>
      var i := s.At(pos) as nat;
      if i < |h.colormap| then h.colormap[i] else Color(0, 0, 0, 0)
    case Gray =>
      var v := s.At(pos);
      Color(v, v, v, 255)
    case Rgb =>
      if h.bitsPerPixel <= 16 then Color16(s.At(pos), s.At(pos + 1), h.HasAlpha())
      else
        Color(s.At(pos + 2), s.At(pos + 1), s.At(pos), if h.HasAlpha() then s.At(pos + 3) else 255)
  }

  /** The colors of n pixels in a row from pos on. */
  function Colors(h: Header, s: Source, pos: nat, n: nat): (cs: seq<Color>)
    requires h.Valid()
    ensures |cs| == n
    decreases n
  {
    if n == 0 then [] else [ColorAt(h, s, pos)] + Colors(h, s, pos + h.PixelBytes(), n - 1)
  }

  function Repeated(c: Color, n: nat): seq<Color> {
    seq(n, _ => c)
  }

  /** What one call of readRunLengthDataIntoImage reads: packets until the line is full or the file
      has failed. Returns the pixels in order and the position behind the last packet. */
  function LinePackets(h: Header, s: Source, pos: nat, j: nat): (seq<Color>, nat)
    requires h.Valid()
    decreases h.width - j
  {
    if j >= h.width || s.Eof(pos) then ([], pos)
    else
      var c := s.At(pos) as nat;
      if c >= 128 then
        var n := c - 127;
        var (rest, end) := LinePackets(h, s, pos + 1 + h.PixelBytes(), j + n);
        (Repeated(ColorAt(h, s, pos + 1), n) + rest, end)
      else
        var n := c + 1;
        var (rest, end) := LinePackets(h, s, pos + 1 + n * h.PixelBytes(), j + n);
        (Colors(h, s, pos + 1, n) + rest, end)
  }

  /** The 4-byte cell of the image that holds pixel (x, y). */
  function Cell(h: Header, x: nat, y: nat): nat
    requires x < h.width && y < h.height
  {
    var row := if h.topToBottom then y else h.height - y - 1;
    var col := if h.leftToRight then x else h.width - x - 1;
    row * h.width + col
  }

  lemma CellInImage(h: Header, x: nat, y: nat)
    requires x < h.width && y < h.height
    ensures Cell(h, x, y) < h.width * h.height
  {
    var row := if h.topToBottom then y else h.height - y - 1;
    Between(row + 1, h.height, h.width);
    assert (row + 1) * h.width == row * h.width + h.width;
  }

  /** Different pixels have different cells, in every orientation. */
  lemma CellsDiffer(h: Header, x: nat, y: nat, x': nat, y': nat)
    requires x < h.width && y < h.height && x' < h.width && y' < h.height
    ensures Cell(h, x, y) == Cell(h, x', y') <==> x == x' && y == y'
  {
    var row := if h.topToBottom then y else h.height - y - 1;
    var col := if h.leftToRight then x else h.width - x - 1;
    var row' := if h.topToBottom then y' else h.height - y' - 1;
    var col' := if h.leftToRight then x' else h.width - x' - 1;
    DivModOf(row, col, h.width);
    DivModOf(row', col', h.width);
  }

  /** Every cell belongs to a pixel: with CellsDiffer, the map is a bijection. */
  lemma CellIsTaken(h: Header, k: nat)
    requires h.width > 0 && k < h.width * h.height
    ensures k % h.width < h.width && k / h.width < h.height
    ensures var x := if h.leftToRight then k % h.width else h.width - k % h.width - 1;
      var y := if h.topToBottom then k / h.width else h.height - k / h.width - 1;
      Cell(h, x, y) == k
  {
    assert k / h.width < h.height by {
      if k / h.width >= h.height {
        Between(h.height, k / h.width, h.width);
      }
    }
  }

  type Image = seq<Byte>

  predicate IsImage(h: Header, img: Image) {
    |img| == 4 * (h.width * h.height)
  }

  /** setColorInImage; fails, by an exception, below the last line. */
  function SetColor(h: Header, img: Image, c: Color, x: nat, y: nat): (r: Option<Image>)
    requires IsImage(h, img) && x < h.width
    ensures r.Some? <==> y < h.height
    ensures r.Some? ==> IsImage(h, r.value)
  {
    if y >= h.height then None
    else
      CellInImage(h, x, y);
      var k := 4 * Cell(h, x, y);
      Some(img[k := c.r][k + 1 := c.g][k + 2 := c.b][k + 3 := c.a])
  }

  function PixelAt(h: Header, img: Image, x: nat, y: nat): Color
    requires IsImage(h, img) && x < h.width && y < h.height
  {
    CellInImage(h, x, y);
    var k := 4 * Cell(h, x, y);
    Color(img[k], img[k + 1], img[k + 2], img[k + 3])
  }

  /** Writing a pixel changes that pixel and no other. */
  lemma SetColorSets(h: Header, img: Image, c: Color, x: nat, y: nat, x': nat, y': nat)
    requires IsImage(h, img) && x < h.width && y < h.height && x' < h.width && y' < h.height
    ensures PixelAt(h, SetColor(h, img, c, x, y).value, x', y')
         == if x == x' && y == y' then c else PixelAt(h, img, x', y')
  {
    CellInImage(h, x, y);
    CellInImage(h, x', y');
    CellsDiffer(h, x, y, x', y');
  }
}
