/** A writer for TGA files, and that reading what it writes gives the picture back. */
module TargaFile {
  import opened ByteStream
  import opened Wrappers
  import opened Arithmetic
  import opened Targa
  import opened TargaHeader
  import opened TargaLines
  import opened TargaWrites
  import opened TargaReader

  /** Five bits can hold the value: its upper five bits, and the first three of these again. */
  predicate InFiveBits(v: Byte) {
    var n := v as nat;
    n == n / 8 * 8 + n / 32
  }

  /** A true color in so many bits per pixel; `flag` says whether the top bit of 16 tells opaque from
      transparent. */
  predicate CanHoldRgb(bits: nat, flag: bool, c: Color) {
    match bits
    case 15 => InFiveBits(c.r) && InFiveBits(c.g) && InFiveBits(c.b) && c.a == 255
    case 16 => InFiveBits(c.r) && InFiveBits(c.g) && InFiveBits(c.b) && (c.a == 255 || (flag && c.a == 0))
    case 24 => c.a == 255
    case _ => true
  }

  /** Blue first, then green, red and alpha; or five bits each, red in the upper ones, and the flag of
      opaque pixels on top, low byte first. */
  function RgbBytes(bits: nat, c: Color): (bytes: seq<Byte>)
  {
    match bits
    case 24 => [c.b, c.g, c.r]
    case 32 => [c.b, c.g, c.r, c.a]
    case _ =>
      var v := (if c.a == 255 then 0x8000 else 0) + c.r as nat / 8 * 1024 + c.g as nat / 8 * 32 + c.b as nat / 8;
      [(v % 256) as Byte, (v / 256) as Byte]
  }

  /** The place of a color in a colormap. */
  function IndexOf(colormap: seq<Color>, c: Color): (i: nat)
    ensures i <= |colormap|
    ensures i < |colormap| ==> colormap[i] == c
    decreases |colormap|
  {
    if colormap == [] || colormap[0] == c then 0 else 1 + IndexOf(colormap[1..], c)
  }

  /** The pixel format can hold the color. */
  predicate CanHold(h: Header, c: Color) {
    match h.kind
    case Indexed => IndexOf(h.colormap, c) < |h.colormap| && IndexOf(h.colormap, c) < 256
    case Gray => c.r == c.g == c.b && c.a == 255
    case Rgb => CanHoldRgb(h.bitsPerPixel, true, c)
  }

  function PixelBytes(h: Header, c: Color): seq<Byte>
    requires CanHold(h, c)
  {
    match h.kind
    case Indexed => [IndexOf(h.colormap, c) as Byte]
    case Gray => [c.r]
    case Rgb => RgbBytes(h.bitsPerPixel, c)
  }

  lemma ScaledBack(v: Byte)
    requires InFiveBits(v)
    ensures v as nat / 8 < 32 && Scale5To8(v as nat / 8) == v
  {
  }

  /** Three digits of five bits, and one on top. */
  lemma Digits(flag: nat, r: nat, g: nat, b: nat)
    requires flag <= 1 && r < 32 && g < 32 && b < 32
    ensures var v := flag * 0x8000 + r * 1024 + g * 32 + b;
      && v < 0x1_0000 && v / 1024 % 32 == r && v / 32 % 32 == g && v % 32 == b && v / 32768 % 2 == flag
  {
    var v := flag * 0x8000 + r * 1024 + g * 32 + b;
    assert v / 32 == flag * 1024 + r * 32 + g;
    assert v / 1024 == flag * 32 + r;
    assert v / 32768 == flag;
  }

  /** Reading a color that was written gives that color. */
  lemma RgbRoundTrip(bits: nat, flag: bool, c: Color)
    requires bits in {15, 16} && CanHoldRgb(bits, flag, c)
    ensures var bytes := RgbBytes(bits, c);
      |bytes| == 2 && Color16(bytes[0], bytes[1], bits == 16 && flag) == c
  {
    hide Scale5To8, InFiveBits;
    ScaledBack(c.r);
    ScaledBack(c.g);
    ScaledBack(c.b);
    Digits(if c.a == 255 then 1 else 0, c.r as nat / 8, c.g as nat / 8, c.b as nat / 8);
  }

  /** For every pixel format and every color it can hold: reading the written pixel gives the color. */
  lemma PixelRoundTrip(h: Header, c: Color)
    requires h.Valid() && CanHold(h, c)
    ensures |PixelBytes(h, c)| == h.PixelBytes() && ColorOf(h, PixelBytes(h, c)) == c
  {
    hide Color16, InFiveBits, Scale5To8;
    if h.kind == Rgb && h.bitsPerPixel <= 16 {
      RgbRoundTrip(h.bitsPerPixel, true, c);
    }
  }

  /** A picture, line by line from the upper left. */
  type Picture = seq<Color>

  predicate IsPicture(h: Header, pic: Picture) {
    |pic| == h.width * h.height && forall c :: c in pic ==> CanHold(h, c)
  }

  /** The four bytes of each pixel. */
  function ImageOf(pic: Picture): (img: Image)
    ensures |img| == 4 * |pic|
  {
    seq(4 * |pic|, j requires 0 <= j < 4 * |pic| =>
      var c := pic[j / 4];
      if j % 4 == 0 then c.r else if j % 4 == 1 then c.g else if j % 4 == 2 then c.b else c.a)
  }

  /** Column and line of the k-th pixel of the file. */
  function ColumnOf(h: Header, k: nat): (x: nat)
    requires h.Valid()
    ensures x < h.width
  {
    k % h.width
  }

  function LineOf(h: Header, k: nat): (y: nat)
    requires h.Valid() && k < h.width * h.height
    ensures y < h.height
  {
    LineIsInside(h, k);
    k / h.width
  }

  lemma LineIsInside(h: Header, k: nat)
    requires h.Valid() && k < h.width * h.height
    ensures 0 <= k / h.width < h.height
  {
    CellIsTaken(h, k);
    DivisionIs(k, h.width);
  }

  /** The k-th pixel of the file is the one that the orientation puts there. */
  function FileColor(h: Header, pic: Picture, k: nat): (c: Color)
    requires h.Valid() && |pic| == h.width * h.height && k < |pic|
    ensures c in pic
  {
    CellInImage(h, ColumnOf(h, k), LineOf(h, k));
    pic[Cell(h, ColumnOf(h, k), LineOf(h, k))]
  }

  function FilePixel(h: Header, pic: Picture, k: nat): seq<Byte>
    requires h.Valid() && IsPicture(h, pic) && k < |pic|
  {
    PixelBytes(h, FileColor(h, pic, k))
  }

  function FilePixels(h: Header, pic: Picture): (px: seq<seq<Byte>>)
    requires h.Valid() && IsPicture(h, pic)
    ensures |px| == |pic|
  {
    seq(|pic|, k requires 0 <= k < |pic| => FilePixel(h, pic, k))
  }

  lemma PixelsAreOfSize(h: Header, pic: Picture)
    requires h.Valid() && IsPicture(h, pic)
    ensures AllOfSize(FilePixels(h, pic), h.PixelBytes())
  {
    hide CanHold, PixelBytes, FileColor;
    var px := FilePixels(h, pic);
    forall k | 0 <= k < |px|
      ensures |px[k]| == h.PixelBytes()
    {
      PixelRoundTrip(h, FileColor(h, pic, k));
    }
  }

  lemma PictureSize(h: Header, pic: Picture)
    requires IsPicture(h, pic)
    ensures |pic| == h.width * h.height == h.height * h.width == (h.height - 0) * h.width
  {
  }

  lemma IndexAndCell(h: Header, pic: Picture, x: nat, y: nat)
    requires h.Valid() && |pic| == h.width * h.height && x < h.width && y < h.height
    ensures Index(h, x, y) < |pic| && Cell(h, x, y) < |pic|
    ensures FileColor(h, pic, Index(h, x, y)) == pic[Cell(h, x, y)]
  {
    hide Cell;
    CellInImage(h, x, y);
    IndexInImage(h, x, y);
    DivModOf(y, x, h.width);
  }

  lemma FilePixelsAt(h: Header, pic: Picture, k: nat)
    requires h.Valid() && IsPicture(h, pic) && k < |pic|
    ensures ColorOf(h, FilePixels(h, pic)[k]) == FileColor(h, pic, k)
  {
    hide CanHold, PixelBytes, FileColor, ColorOf;
    PixelRoundTrip(h, FileColor(h, pic, k));
  }

  /** An uncompressed image written pixel by pixel is read back as itself, in all formats and
      orientations. */
  lemma UncompressedRoundTrip(h: Header, pic: Picture, u: Source, pos: nat, img: Image)
    requires h.Valid() && IsImage(h, img) && IsPicture(h, pic) && Holds(u, pos, Concat(FilePixels(h, pic)))
    ensures Lines(h, false, u, pos, 0, img) == Some(ImageOf(pic))
  {
    hide CanHold, PixelBytes, ColorOf, FilePixels, Lines, Holds, Concat, Cell, Shown, PixelAt;
    var px := FilePixels(h, pic);
    PixelsAreOfSize(h, pic);
    PictureSize(h, pic);
    UncompressedPixels(h, u, pos, px, 0, img);
    var r := Lines(h, false, u, pos, 0, img).value;
    forall k | 0 <= k < |pic|
      ensures Color(r[4 * k], r[4 * k + 1], r[4 * k + 2], r[4 * k + 3]) == pic[k]
    {
      var x, y := PixelOfCell(h, k);
      ShownIs(h, px, img, x, y);
      PixelAtIs(h, r, x, y);
      IndexAndCell(h, pic, x, y);
      FilePixelsAt(h, pic, Index(h, x, y));
    }
    SameBytes(r, pic);
  }

  /** The pixel whose cell is the k-th. */
  lemma PixelOfCell(h: Header, k: nat) returns (x: nat, y: nat)
    requires h.Valid() && k < h.width * h.height
    ensures x < h.width && y < h.height && Cell(h, x, y) == k
  {
    hide Cell;
    CellIsTaken(h, k);
    x := if h.leftToRight then k % h.width else h.width - k % h.width - 1;
    y := if h.topToBottom then k / h.width else h.height - k / h.width - 1;
  }

  lemma ShownIs(h: Header, px: seq<seq<Byte>>, img: Image, x: nat, y: nat)
    requires h.Valid() && IsImage(h, img) && |px| == (h.height - 0) * h.width && x < h.width && y < h.height
    ensures Index(h, x, y) < |px| && Shown(h, px, 0, img, x, y) == ColorOf(h, px[Index(h, x, y)])
  {
    hide ColorOf, IsImage;
    PixelIndex(h, 0, x, y);
  }

  lemma PixelAtIs(h: Header, r: Image, x: nat, y: nat)
    requires IsImage(h, r) && x < h.width && y < h.height
    ensures var k := Cell(h, x, y);
      4 * k + 4 <= |r| && PixelAt(h, r, x, y) == Color(r[4 * k], r[4 * k + 1], r[4 * k + 2], r[4 * k + 3])
  {
    hide Cell;
    CellInImage(h, x, y);
  }

  lemma SameBytes(r: Image, pic: Picture)
    requires |r| == 4 * |pic|
    requires forall k :: 0 <= k < |pic| ==> Color(r[4 * k], r[4 * k + 1], r[4 * k + 2], r[4 * k + 3]) == pic[k]
    ensures r == ImageOf(pic)
  {
    hide ImageOf;
    var img := ImageOf(pic);
    ImageSize(pic);
    forall j | 0 <= j < |r|
      ensures r[j] == img[j]
    {
      PixelOfImage(pic, j / 4);
      OneOfFour(r, img, j / 4, j);
    }
  }

  lemma ImageSize(pic: Picture)
    ensures |ImageOf(pic)| == 4 * |pic|
  {
  }

  lemma OneOfFour(a: Image, b: Image, k: nat, j: nat)
    requires |a| == |b| && 4 * k + 4 <= |a| && 4 * k <= j < 4 * k + 4
    requires Color(a[4 * k], a[4 * k + 1], a[4 * k + 2], a[4 * k + 3])
          == Color(b[4 * k], b[4 * k + 1], b[4 * k + 2], b[4 * k + 3])
    ensures a[j] == b[j]
  {
  }

  /** And so is any run-length coding of it whose packets break at the lines. */
  lemma RleRoundTrip(h: Header, pic: Picture, s: Source, pos: nat, ps: seq<Packet>, img: Image)
    requires h.Valid() && IsImage(h, img) && IsPicture(h, pic) && AllValid(h, ps)
    requires AllPixels(ps) == FilePixels(h, pic) && BreaksAtLines(ps, h.width, h.height)
    requires Holds(s, pos, Encoded(h, ps))
    ensures Lines(h, true, s, pos, 0, img) == Some(ImageOf(pic))
  {
    hide CanHold, FilePixels, Lines, BreaksAtLines, Encoded, AllValid, Concat;
    var data := Concat(FilePixels(h, pic));
    var u := Source(data, s.stray);
    assert u.data[0..0 + |data|] == data;
    UncompressedRoundTrip(h, pic, u, 0, img);
    RleIsUncompressed(h, s, pos, u, 0, ps, 0, img);
  }

  function ColormapBytes(depth: Byte, colormap: seq<Color>): seq<Byte>
    decreases |colormap|
  {
    if colormap == [] then [] else RgbBytes(depth as nat, colormap[0]) + ColormapBytes(depth, colormap[1..])
  }

  /** The fields fit their bytes; an indexed image has a colormap, whose depth can hold its colors. */
  predicate CanWrite(h: Header, id: seq<Byte>, depth: Byte) {
    && h.Valid() && h.width < 0x1_0000 && h.height < 0x1_0000 && |id| < 0x100
    && if h.kind == Indexed then
         |h.colormap| < 0x1_0000 && depth in {15, 16, 24, 32}
         && forall c :: c in h.colormap ==> CanHoldRgb(depth as nat, false, c)
       else h.colormap == []
  }

  function TypeByte(kind: Kind, rle: bool): Byte {
    match kind
    case Indexed => if rle then 9 else 1
    case Rgb => if rle then 10 else 2
    case Gray => if rle then 11 else 3
  }

  /** The right-to-left flag and the top-to-bottom flag, above four bits that are not read. */
  function Descriptor(h: Header, low: nat): Byte
    requires low < 16
  {
    ((if h.topToBottom then 32 else 0) + (if h.leftToRight then 0 else 16) + low) as Byte
  }

  /** The 18 bytes of the header; colormap and image begin at their origins. */
  function HeaderBytes(h: Header, rle: bool, id: seq<Byte>, depth: Byte, low: nat): (bytes: seq<Byte>)
    requires CanWrite(h, id, depth) && low < 16
    ensures |bytes| == 18
  {
    var n := |h.colormap|;
    [|id| as Byte, if h.kind == Indexed then 1 else 0, TypeByte(h.kind, rle),
     0, 0, (n % 256) as Byte, (n / 256) as Byte, depth,
     0, 0, 0, 0, (h.width % 256) as Byte, (h.width / 256) as Byte, (h.height % 256) as Byte, (h.height / 256) as Byte,
     h.bitsPerPixel as Byte, Descriptor(h, low)]
  }

  function FrontBytes(h: Header, rle: bool, id: seq<Byte>, depth: Byte, low: nat): seq<Byte>
    requires CanWrite(h, id, depth) && low < 16
  {
    HeaderBytes(h, rle, id, depth, low) + id + ColormapBytes(depth, h.colormap)
  }

  lemma EntryRoundTrip(s: Source, pos: nat, depth: Byte, c: Color)
    requires depth in {15, 16, 24, 32} && CanHoldRgb(depth as nat, false, c) && Holds(s, pos, RgbBytes(depth as nat, c))
    ensures |RgbBytes(depth as nat, c)| == EntryBytes(depth) && EntryAt(s, pos, depth) == c
  {
    hide Color16;
    var bytes := RgbBytes(depth as nat, c);
    HeldByte(s, pos, bytes, 0);
    HeldByte(s, pos, bytes, 1);
    if depth == 24 || depth == 32 {
      HeldByte(s, pos, bytes, 2);
      HeldByte(s, pos, bytes, |bytes| - 1);
    }
    if depth == 15 || depth == 16 {
      RgbRoundTrip(depth as nat, false, c);
      FlagPlaysNoPart(bytes[0], bytes[1]);
    }
  }

  lemma FlagPlaysNoPart(low: Byte, high: Byte)
    ensures Color16(low, high, false).a == 255
  {
  }

  lemma HeldByte(s: Source, pos: nat, bytes: seq<Byte>, k: nat)
    requires Holds(s, pos, bytes) && k < |bytes|
    ensures s.At(pos + k) == bytes[k]
  {
    assert s.data[pos + k] == s.data[pos..pos + |bytes|][k];
  }

  lemma {:induction false} ColormapRoundTrip(s: Source, pos: nat, depth: Byte, cm: seq<Color>)
    requires depth in {15, 16, 24, 32} && forall c :: c in cm ==> CanHoldRgb(depth as nat, false, c)
    requires Holds(s, pos, ColormapBytes(depth, cm))
    ensures Entries(s, pos, depth, |cm|) == cm && |ColormapBytes(depth, cm)| == |cm| * EntryBytes(depth)
    decreases |cm|
  {
    hide Holds, EntryAt, EntryBytes, CanHoldRgb, RgbBytes, Entries, ColormapBytes;
    EntriesStep(s, pos, depth, cm);
    if cm != [] {
      assert cm[0] in cm && forall c :: c in cm[1..] ==> c in cm;
      HoldsParts(s, pos, RgbBytes(depth as nat, cm[0]), ColormapBytes(depth, cm[1..]));
      EntryRoundTrip(s, pos, depth, cm[0]);
      ColormapRoundTrip(s, pos + EntryBytes(depth), depth, cm[1..]);
      assert |cm| * EntryBytes(depth) == EntryBytes(depth) + (|cm| - 1) * EntryBytes(depth);
    }
  }

  lemma EntriesStep(s: Source, pos: nat, depth: Byte, cm: seq<Color>)
    ensures cm == [] ==> Entries(s, pos, depth, 0) == [] && ColormapBytes(depth, cm) == []
    ensures cm != [] ==>
      && Entries(s, pos, depth, |cm|) == [EntryAt(s, pos, depth)] + Entries(s, pos + EntryBytes(depth), depth, |cm| - 1)
      && ColormapBytes(depth, cm) == RgbBytes(depth as nat, cm[0]) + ColormapBytes(depth, cm[1..])
  {
    hide EntryAt, EntryBytes, RgbBytes;
  }

  lemma FieldsAreRead(h: Header, rle: bool, id: seq<Byte>, depth: Byte, low: nat, s: Source)
    requires CanWrite(h, id, depth) && low < 16 && Holds(s, 0, HeaderBytes(h, rle, id, depth, low))
    ensures s.At(0) as nat == |id| && s.At(1) == (if h.kind == Indexed then 1 else 0)
    ensures TypeOf(s.At(2)) == Some((h.kind, rle)) && Word(s, 5) == |h.colormap| && s.At(7) == depth
    ensures Word(s, 12) == h.width && Word(s, 14) == h.height && s.At(16) as nat == h.bitsPerPixel
    ensures (s.At(17) as nat / 16 % 2 == 0 <==> h.leftToRight) && (s.At(17) as nat / 32 % 2 == 1 <==> h.topToBottom)
  {
    hide Source.At, Holds, HeaderBytes;
    ByteIs(h, rle, id, depth, low, s, 0);
    ByteIs(h, rle, id, depth, low, s, 1);
    ByteIs(h, rle, id, depth, low, s, 2);
    ByteIs(h, rle, id, depth, low, s, 7);
    ByteIs(h, rle, id, depth, low, s, 16);
    ByteIs(h, rle, id, depth, low, s, 17);
    WordIs(h, rle, id, depth, low, s, 5, |h.colormap|);
    WordIs(h, rle, id, depth, low, s, 12, h.width);
    WordIs(h, rle, id, depth, low, s, 14, h.height);
    FieldsAre(h, rle, id, depth, low);
    FlagsAre(h, low);
  }

  lemma ByteIs(h: Header, rle: bool, id: seq<Byte>, depth: Byte, low: nat, s: Source, k: nat)
    requires CanWrite(h, id, depth) && low < 16 && Holds(s, 0, HeaderBytes(h, rle, id, depth, low)) && k < 18
    ensures s.At(k) == HeaderBytes(h, rle, id, depth, low)[k]
  {
    HeldByte(s, 0, HeaderBytes(h, rle, id, depth, low), k);
  }

  lemma WordIs(h: Header, rle: bool, id: seq<Byte>, depth: Byte, low: nat, s: Source, k: nat, n: nat)
    requires CanWrite(h, id, depth) && low < 16 && Holds(s, 0, HeaderBytes(h, rle, id, depth, low))
    requires k < 17 && n < 0x1_0000
    ensures var bytes := HeaderBytes(h, rle, id, depth, low);
      bytes[k] == (n % 256) as Byte && bytes[k + 1] == (n / 256) as Byte ==> Word(s, k) == n
  {
    hide HeaderBytes, Holds, Source.At;
    ByteIs(h, rle, id, depth, low, s, k);
    ByteIs(h, rle, id, depth, low, s, k + 1);
  }

  lemma FieldsAre(h: Header, rle: bool, id: seq<Byte>, depth: Byte, low: nat)
    requires CanWrite(h, id, depth) && low < 16
    ensures var bytes, n := HeaderBytes(h, rle, id, depth, low), |h.colormap|;
      && bytes[0] as nat == |id| && bytes[1] == (if h.kind == Indexed then 1 else 0)
      && TypeOf(bytes[2]) == Some((h.kind, rle)) && bytes[7] == depth
      && bytes[5] == (n % 256) as Byte && bytes[6] == (n / 256) as Byte
      && bytes[12] == (h.width % 256) as Byte && bytes[13] == (h.width / 256) as Byte
      && bytes[14] == (h.height % 256) as Byte && bytes[15] == (h.height / 256) as Byte
      && bytes[16] as nat == h.bitsPerPixel && bytes[17] == Descriptor(h, low)
  {
  }

  lemma FlagsAre(h: Header, low: nat)
    requires low < 16
    ensures (Descriptor(h, low) as nat / 16 % 2 == 0 <==> h.leftToRight)
    ensures (Descriptor(h, low) as nat / 32 % 2 == 1 <==> h.topToBottom)
  {
  }

  /** For every header a file can have: what was written is read, and the pixels begin behind it. */
  lemma HeaderRoundTrip(h: Header, rle: bool, id: seq<Byte>, depth: Byte, low: nat, s: Source)
    requires CanWrite(h, id, depth) && low < 16 && Holds(s, 0, FrontBytes(h, rle, id, depth, low))
    ensures HeaderOf(s) == Some(FileInfo(h, rle, |FrontBytes(h, rle, id, depth, low)|))
  {
    hide Holds, HeaderBytes, ColormapBytes, Entries, Source.At, TypeOf, Word;
    var bytes, cm := HeaderBytes(h, rle, id, depth, low), ColormapBytes(depth, h.colormap);
    HoldsParts(s, 0, bytes + id, cm);
    HoldsParts(s, 0, bytes, id);
    FieldsAreRead(h, rle, id, depth, low, s);
    if h.kind == Indexed {
      ColormapRoundTrip(s, 18 + |id|, depth, h.colormap);
    } else {
      NoEntries(s, 18 + |id|, depth);
      NoColormap(depth);
    }
  }

  lemma NoColormap(depth: Byte)
    ensures ColormapBytes(depth, []) == []
  {
  }

  /** For every picture in every format and orientation: the file with its pixels one by one, whatever
      follows them, is loaded as the picture, up to the repair of alpha. */
  lemma FileRoundTrip(h: Header, id: seq<Byte>, depth: Byte, low: nat, pic: Picture,
                      tail: seq<Byte>, stray: nat -> Byte)
    requires CanWrite(h, id, depth) && low < 16 && IsPicture(h, pic)
    ensures Loaded(Source(FrontBytes(h, false, id, depth, low) + Concat(FilePixels(h, pic)) + tail, stray))
         == Some(Repaired(h, ImageOf(pic)))
  {
    hide CanWrite, CanHold, FrontBytes, FilePixels, Concat, Lines, HeaderOf, Repaired, Holds;
    ValidToWrite(h, id, depth);
    var front, body := FrontBytes(h, false, id, depth, low), Concat(FilePixels(h, pic));
    HoldsInside(front, body, tail, stray);
    var s := Source(front + body + tail, stray);
    HeaderRoundTrip(h, false, id, depth, low, s);
    UncompressedRoundTrip(h, pic, s, |front|, Blank(h));
  }

  /** And so is every run-length coding whose packets break at the lines. */
  lemma RleFileRoundTrip(h: Header, id: seq<Byte>, depth: Byte, low: nat, pic: Picture, ps: seq<Packet>,
                         tail: seq<Byte>, stray: nat -> Byte)
    requires CanWrite(h, id, depth) && low < 16 && IsPicture(h, pic) && AllValid(h, ps)
    requires AllPixels(ps) == FilePixels(h, pic) && BreaksAtLines(ps, h.width, h.height)
    ensures Loaded(Source(FrontBytes(h, true, id, depth, low) + Encoded(h, ps) + tail, stray))
         == Some(Repaired(h, ImageOf(pic)))
  {
    hide CanWrite, CanHold, FrontBytes, FilePixels, Encoded, Lines, HeaderOf, Repaired, Holds, BreaksAtLines, AllPixels;
    hide AllValid;
    ValidToWrite(h, id, depth);
    var front, body := FrontBytes(h, true, id, depth, low), Encoded(h, ps);
    HoldsInside(front, body, tail, stray);
    var s := Source(front + body + tail, stray);
    HeaderRoundTrip(h, true, id, depth, low, s);
    RleRoundTrip(h, pic, s, |front|, ps, Blank(h));
  }

  lemma ValidToWrite(h: Header, id: seq<Byte>, depth: Byte)
    requires CanWrite(h, id, depth)
    ensures h.Valid()
  {
  }

  lemma HoldsInside(front: seq<Byte>, body: seq<Byte>, tail: seq<Byte>, stray: nat -> Byte)
    ensures var s := Source(front + body + tail, stray);
      Holds(s, 0, front) && Holds(s, |front|, body)
  {
    var s := Source(front + body + tail, stray);
    assert s.data[0..0 + |front|] == front;
    assert s.data[|front|..|front| + |body|] == body;
  }

  /** What the repair changes: exactly the RGB pictures with an alpha channel that is transparent in
      every pixel, while some pixel is not black, come out opaque; all others stay as they are. */
  lemma RepairedPicture(h: Header, pic: Picture)
    ensures Repaired(h, ImageOf(pic)) ==
      if h.kind == Rgb && h.bitsPerPixel in {16, 32} && (forall k :: 0 <= k < |pic| ==> pic[k].a == 0)
         && (exists k :: 0 <= k < |pic| && !IsBlack(pic[k]))
      then ImageOf(MadeOpaque(pic)) else ImageOf(pic)
  {
    hide NeedsRepair, ImageOf, Opaque, AlphaIsZero, ColorIsZero, MadeOpaque;
    Repairs(ImageOf(pic), |pic|);
    ZeroInPicture(pic);
    OpaqueImage(pic);
  }

  lemma ZeroInPicture(pic: Picture)
    ensures AlphaIsZero(ImageOf(pic), |pic|) <==> forall k :: 0 <= k < |pic| ==> pic[k].a == 0
    ensures ColorIsZero(ImageOf(pic), |pic|) <==> forall k :: 0 <= k < |pic| ==> IsBlack(pic[k])
  {
    hide AlphaIsZero, ColorIsZero, ImageOf;
    ZeroAt(pic, |pic|);
  }

  predicate IsBlack(c: Color) {
    c.r == 0 && c.g == 0 && c.b == 0
  }

  lemma {:induction false} ZeroAt(pic: Picture, n: nat)
    requires n <= |pic|
    ensures AlphaIsZero(ImageOf(pic), n) <==> forall k :: 0 <= k < n ==> pic[k].a == 0
    ensures ColorIsZero(ImageOf(pic), n) <==> forall k :: 0 <= k < n ==> IsBlack(pic[k])
    decreases n
  {
    var img := ImageOf(pic);
    hide AlphaIsZero, ColorIsZero, ImageOf;
    if n == 0 {
      ZeroNone(img);
    } else {
      ZeroAt(pic, n - 1);
      ZeroStep(img, n - 1);
      PixelOfImage(pic, n - 1);
    }
  }

  function MadeOpaque(pic: Picture): (r: Picture)
    ensures |r| == |pic|
  {
    seq(|pic|, k requires 0 <= k < |pic| => pic[k].(a := 255))
  }

  lemma PixelOfImage(pic: Picture, k: nat)
    requires k < |pic|
    ensures var img := ImageOf(pic);
      Color(img[4 * k], img[4 * k + 1], img[4 * k + 2], img[4 * k + 3]) == pic[k]
  {
  }

  lemma OpaqueImage(pic: Picture)
    ensures Opaque(ImageOf(pic)) == ImageOf(MadeOpaque(pic))
  {
    forall j | 0 <= j < 4 * |pic|
      ensures Opaque(ImageOf(pic))[j] == ImageOf(MadeOpaque(pic))[j]
    {
    }
  }
}
