/** The TGA decoder: reads a file byte by byte and writes the image in place. */
module TargaReader {
  import opened ByteStream
  import opened Wrappers
  import opened Arithmetic
  import opened Targa
  import opened TargaHeader
  import opened TargaLines

  /** The image is fully transparent although some pixel has a color. */
  ghost predicate NeedsRepair(img: Image) {
    && (forall k :: 0 <= k < |img| && k % 4 == 3 ==> img[k] == 0)
    && (exists k :: 0 <= k < |img| && k % 4 != 3 && img[k] != 0)
  }

  /** All pixels made opaque. */
  function Opaque(img: Image): (r: Image)
    ensures |r| == |img|
    ensures forall k :: 0 <= k < |img| ==> r[k] == if k % 4 == 3 then 255 else img[k]
  {
    seq(|img|, k requires 0 <= k < |img| => if k % 4 == 3 then 255 else img[k])
  }

  ghost function Repaired(h: Header, img: Image): Image {
    if h.kind == Rgb && h.HasAlpha() && NeedsRepair(img) then Opaque(img) else img
  }

  /** The repair touches alpha only, of all pixels or of none, and doing it again changes nothing. */
  lemma RepairIsIdempotent(h: Header, img: Image)
    requires IsImage(h, img) && h.Valid()
    ensures |Repaired(h, img)| == |img|
    ensures forall k :: 0 <= k < |img| && k % 4 != 3 ==> Repaired(h, img)[k] == img[k]
    ensures || (forall k :: 0 <= k < |img| && k % 4 == 3 ==> Repaired(h, img)[k] == img[k])
            || (forall k :: 0 <= k < |img| && k % 4 == 3 ==> Repaired(h, img)[k] == 255 && img[k] == 0)
    ensures Repaired(h, Repaired(h, img)) == Repaired(h, img)
  {
    assert h.width * h.height >= 1;
    var r := Repaired(h, img);
    if h.kind == Rgb && h.HasAlpha() && NeedsRepair(img) {
      assert r[3] == 255;
      assert !NeedsRepair(r);
    }
  }

  /** loadTgaFromFile: no header, an exception in the image, or the repaired image. */
  ghost function Loaded(s: Source): Option<Image> {
    var info := HeaderOf(s);
    if info.None? then None
    else
      var h := info.value.header;
      var r := Lines(h, info.value.rle, s, info.value.pos, 0, Blank(h));
      if r.None? then None else Some(Repaired(h, r.value))
  }

  class TgaReader {
    const src: Source
    var pos: nat

    constructor (src: Source)
      ensures this.src == src && pos == 0
    {
      this.src := src;
      pos := 0;
    }

    method Read8() returns (b: Byte)
      modifies this
      ensures b == src.At(old(pos)) && pos == old(pos) + 1
    {
      b := src.At(pos);
      pos := pos + 1;
    }

    method Read16() returns (w: nat)
      modifies this
      ensures w == Word(src, old(pos)) && pos == old(pos) + 2
    {
      var b1 := Read8();
      var b2 := Read8();
      w := b2 as nat * 256 + b1 as nat;
    }

    /** The id string is skipped. */
    method SkipId(n: nat)
      modifies this
      ensures pos == old(pos) + n
    {
      for i := 0 to n
        invariant pos == old(pos) + i
      {
        var chr := Read8();
      }
    }

    method ReadColormap(depth: Byte, n: nat) returns (colormap: seq<Color>)
      modifies this
      ensures colormap == Entries(src, old(pos), depth, n) && pos == old(pos) + n * EntryBytes(depth)
    {
      hide EntryAt, Entries;
      colormap := [];
      NoEntries(src, pos, depth);
      for i := 0 to n
        invariant pos == old(pos) + i * EntryBytes(depth)
        invariant colormap == Entries(src, old(pos), depth, i)
      {
        NextEntry(src, old(pos), depth, i);
        var c := ReadEntry(depth);
        colormap := colormap + [c];
      }
    }

    method ReadEntry(depth: Byte) returns (c: Color)
      modifies this
      ensures c == EntryAt(src, old(pos), depth) && pos == old(pos) + EntryBytes(depth)
    {
      hide Color16;
      if depth == 15 || depth == 16 {
        var low := Read8();
        var high := Read8();
        c := Color16(low, high, false);
      } else if depth == 24 || depth == 32 {
        var b := Read8();
        var g := Read8();
        var r := Read8();
        var a: Byte := 255;
        if depth == 32 {
          a := Read8();
        }
        c := Color(r, g, b, a);
      } else {
        c := Color(0, 0, 0, 0);
      }
    }

    /** The fields at the beginning; origins are read and not used. */
    method ReadFields() returns (f: Fields)
      requires pos == 0
      modifies this
      ensures f == FieldsOf(src) && pos == 18
    {
      hide Word, Source.At;
      var idLength := Read8();
      var colormapType := Read8();
      var imageType := Read8();
      var colormapOrigin := Read16();
      var colormapLength := Read16();
      var colormapDepth := Read8();
      var xOrigin := Read16();
      var yOrigin := Read16();
      var width := Read16();
      var height := Read16();
      var bitsPerPixel := Read8();
      var imageDescriptor := Read8();
      f := Fields(idLength, colormapType, imageType, colormapLength, colormapDepth, width, height, bitsPerPixel,
                  imageDescriptor);
    }

    /** The fields of the header, the id string and the colormap. */
    method ReadHeader() returns (info: Option<FileInfo>)
      requires pos == 0
      modifies this
      ensures info == HeaderOf(src) && (info.Some? ==> pos == info.value.pos)
    {
      hide Entries, TypeOf, FieldsOf;
      var f := ReadFields();
      if f.width == 0 || f.height == 0 {
        return None;
      }
      SkipId(f.idLength as nat);
      var colormap := [];
      if f.colormapType == 1 {
        colormap := ReadColormap(f.colormapDepth, f.colormapLength);
      } else {
        NoEntries(src, pos, f.colormapDepth);
      }
      info := HeaderWith(f, colormap, pos);
    }

    /** Reads the file from its beginning. */
    method LoadTga() returns (ok: bool, image: array<Byte>)
      requires pos == 0
      modifies this
      ensures ok <==> Loaded(src).Some?
      ensures ok ==> fresh(image) && image[..] == Loaded(src).value
    {
      hide HeaderOf, Lines, Repaired, Blank;
      var info := ReadHeader();
      if info.None? {
        image := new Byte[0](_ => 0);
        return false, image;
      }
      var h := info.value.header;
      ok, image := ReadImage(h, info.value.rle);
      if ok {
        PostProcessImage(h, image);
      }
    }

    /** The pixel at the read position, in any of the pixel formats. */
    method ReadColor(h: Header) returns (c: Color)
      requires h.Valid()
      modifies this
      ensures c == ColorAt(h, src, old(pos)) && pos == old(pos) + h.PixelBytes()
    {
      hide Color16;
      var b0 := Read8();
      match h.kind {
        case Indexed =>
          c := if b0 as nat < |h.colormap| then h.colormap[b0 as nat] else Color(0, 0, 0, 0);
        case Gray =>
          c := Color(b0, b0, b0, 255);
        case Rgb =>
          var b1 := Read8();
          if h.bitsPerPixel <= 16 {
            c := Color16(b0, b1, h.HasAlpha());
          } else {
            var b2 := Read8();
            var a: Byte := 255;
            if h.bitsPerPixel == 32 {
              a := Read8();
            }
            c := Color(b2, b1, b0, a);
          }
      }
    }

    /** Writes one pixel; an exception in the code is the answer false here. */
    method SetColorInImage(image: array<Byte>, c: Color, x: nat, y: nat, h: Header) returns (ok: bool)
      requires IsImage(h, image[..]) && x < h.width
      modifies image
      ensures ok == (y < h.height)
      ensures if ok then Some(image[..]) == SetColor(h, old(image[..]), c, x, y) else image[..] == old(image[..])
    {
      if y >= h.height {
        return false;
      }
      var idx := (if h.topToBottom then y else h.height - y - 1) * h.width * 4;
      idx := idx + (if h.leftToRight then x else h.width - x - 1) * 4;
      assert idx == 4 * Cell(h, x, y);
      CellInImage(h, x, y);
      image[idx] := c.r;
      image[idx + 1] := c.g;
      image[idx + 2] := c.b;
      image[idx + 3] := c.a;
      return true;
    }

    /** Sets the pixel and moves to the next one, which may be on the next line. */
    method Put(image: array<Byte>, c: Color, x: nat, y: nat, h: Header, ghost cs: seq<Color>)
      returns (ok: bool, x': nat, y': nat)
      requires IsImage(h, image[..]) && x < h.width && cs != [] && cs[0] == c
      modifies image
      ensures IsImage(h, image[..]) && x' < h.width
      ensures WriteFrom(h, old(image[..]), cs, x, y) == if ok then WriteFrom(h, image[..], cs[1..], x', y') else None
    {
      hide SetColor, IsImage;
      ok := SetColorInImage(image, c, x, y, h);
      x', y' := x + 1, y;
      if x' >= h.width {
        x', y' := 0, y + 1;
      }
    }

    /** The inner loop of a run packet; the pixels behind it, rest, are still to be written. */
    method PutRun(image: array<Byte>, color: Color, n: nat, x0: nat, y0: nat, h: Header, ghost rest: seq<Color>)
      returns (ok: bool, x: nat, y: nat)
      requires IsImage(h, image[..]) && x0 < h.width
      modifies image
      ensures IsImage(h, image[..]) && x < h.width
      ensures WriteFrom(h, old(image[..]), Repeated(color, n) + rest, x0, y0)
           == if ok then WriteFrom(h, image[..], rest, x, y) else None
    {
      hide WriteFrom, IsImage;
      ghost var all := WriteFrom(h, image[..], Repeated(color, n) + rest, x0, y0);
      x, y, ok := x0, y0, true;
      var c: nat := n;
      while c > 0
        invariant ok && x < h.width && IsImage(h, image[..])
        invariant WriteFrom(h, image[..], Repeated(color, c) + rest, x, y) == all
      {
        FirstOfRun(color, c, rest);
        ok, x, y := Put(image, color, x, y, h, Repeated(color, c) + rest);
        if !ok {
          return;
        }
        c := c - 1;
      }
      assert Repeated(color, 0) + rest == rest;
    }

    /** The inner loop of a packet of single pixels. */
    method PutRaw(image: array<Byte>, n: nat, x0: nat, y0: nat, h: Header, ghost rest: seq<Color>)
      returns (ok: bool, x: nat, y: nat)
      requires h.Valid() && IsImage(h, image[..]) && x0 < h.width
      modifies this, image
      ensures IsImage(h, image[..]) && x < h.width
      ensures ok ==> pos == old(pos) + n * h.PixelBytes()
      ensures WriteFrom(h, old(image[..]), Colors(h, src, old(pos), n) + rest, x0, y0)
           == if ok then WriteFrom(h, image[..], rest, x, y) else None
    {
      hide WriteFrom, IsImage, ColorAt, Colors;
      ghost var all := WriteFrom(h, image[..], Colors(h, src, pos, n) + rest, x0, y0);
      x, y, ok := x0, y0, true;
      var c: nat := n;
      while c > 0
        invariant ok && x < h.width && IsImage(h, image[..]) && c <= n
        invariant pos + c * h.PixelBytes() == old(pos) + n * h.PixelBytes()
        invariant WriteFrom(h, image[..], Colors(h, src, pos, c) + rest, x, y) == all
      {
        FirstOfRaw(h, src, pos, c, rest);
        ghost var cs := Colors(h, src, pos, c) + rest;
        var color := ReadColor(h);
        ok, x, y := Put(image, color, x, y, h, cs);
        if !ok {
          return;
        }
        c := c - 1;
      }
      NoColors(h, src, pos, rest);
    }

    /** Packets until the line is full; one that is longer goes on in the next lines. */
    method ReadRunLengthDataIntoImage(h: Header, image: array<Byte>, yStart: nat) returns (ok: bool)
      requires h.Valid() && IsImage(h, image[..])
      modifies this, image
      ensures var r := WriteFrom(h, old(image[..]), LinePackets(h, src, old(pos), 0).0, 0, yStart);
        && ok == r.Some?
        && (ok ==> Some(image[..]) == r && pos == LinePackets(h, src, old(pos), 0).1)
      ensures IsImage(h, image[..])
    {
      hide SetColor, ColorAt, IsImage, Colors, LinePackets, Repeated;
      ghost var all := WriteFrom(h, image[..], LinePackets(h, src, pos, 0).0, 0, yStart);
      ghost var end := LinePackets(h, src, pos, 0).1;
      var x: nat, y: nat, j: nat := 0, yStart, 0;
      while j < h.width && !src.Eof(pos)
        invariant x < h.width && IsImage(h, image[..])
        invariant LinePackets(h, src, pos, j).1 == end
        invariant WriteFrom(h, image[..], LinePackets(h, src, pos, j).0, x, y) == all
        decreases h.width - j
      {
        hide WriteFrom;
        PacketStep(h, src, pos, j);
        var first := Read8();
        var c: nat := first as nat;
        if c >= 128 {
          c := c - 127;
          j := j + c;
          var color := ReadColor(h);
          ok, x, y := PutRun(image, color, c, x, y, h, LinePackets(h, src, pos, j).0);
        } else {
          c := c + 1;
          j := j + c;
          ok, x, y := PutRaw(image, c, x, y, h, LinePackets(h, src, pos + c * h.PixelBytes(), j).0);
        }
        if !ok {
          return;
        }
      }
      NoPackets(h, src, pos, j);
      ok := true;
    }

    /** Reads the lines of the image into a fresh buffer. */
    method ReadImage(h: Header, rle: bool) returns (ok: bool, image: array<Byte>)
      requires h.Valid()
      modifies this
      ensures fresh(image) && IsImage(h, image[..])
      ensures var r := Lines(h, rle, src, old(pos), 0, Blank(h));
        ok == r.Some? && (ok ==> Some(image[..]) == r)
    {
      hide SetColor, ColorAt, WriteFrom, LinePackets, Colors, IsImage;
      hide Line;
      image := new Byte[4 * (h.width * h.height)](_ => 0);
      assert image[..] == Blank(h);
      ghost var all := Lines(h, rle, src, pos, 0, Blank(h));
      var y := 0;
      while y < h.height
        invariant y <= h.height && IsImage(h, image[..])
        invariant Lines(h, rle, src, pos, y, image[..]) == all
      {
        ghost var line := Line(h, rle, src, pos);
        LineIs(h, rle, src, pos);
        LinesStep(h, rle, src, pos, y, image[..]);
        if rle {
          ok := ReadRunLengthDataIntoImage(h, image, y);
        } else {
          ok := ReadLine(h, image, y);
        }
        if !ok {
          return;
        }
        y := y + 1;
      }
      ok := true;
    }

    /** One line of an uncompressed image. */
    method ReadLine(h: Header, image: array<Byte>, y: nat) returns (ok: bool)
      requires h.Valid() && IsImage(h, image[..]) && y < h.height
      modifies this, image
      ensures ok && Some(image[..]) == WriteFrom(h, old(image[..]), Colors(h, src, old(pos), h.width), 0, y)
      ensures pos == old(pos) + h.width * h.PixelBytes() && IsImage(h, image[..])
    {
      hide SetColor, ColorAt;
      ghost var all := WriteFrom(h, image[..], Colors(h, src, pos, h.width), 0, y);
      var x := 0;
      while x < h.width
        invariant x <= h.width && IsImage(h, image[..])
        invariant pos == old(pos) + x * h.PixelBytes()
        invariant x < h.width ==> WriteFrom(h, image[..], Colors(h, src, pos, h.width - x), x, y) == all
        invariant x == h.width ==> Some(image[..]) == all
      {
        FirstOfRaw(h, src, pos, h.width - x, []);
        var color := ReadColor(h);
        ok := SetColorInImage(image, color, x, y, h);
        x := x + 1;
      }
      ok := true;
    }

    /** What the first pass finds out: no alpha anywhere, and no color anywhere. */
    method Histogram(h: Header, image: array<Byte>) returns (transparent: bool, black: bool)
      requires IsImage(h, image[..])
      ensures transparent == AlphaIsZero(image[..], h.width * h.height)
      ensures black == ColorIsZero(image[..], h.width * h.height)
    {
      hide AlphaIsZero, ColorIsZero, IsImage;
      transparent, black := true, true;
      ZeroNone(image[..]);
      for y := 0 to h.height
        invariant transparent == AlphaIsZero(image[..], y * h.width)
        invariant black == ColorIsZero(image[..], y * h.width)
      {
        transparent, black := HistogramOfLine(h, image, y, transparent, black);
      }
    }

    /** One line of the first pass, given what the lines above it show. */
    method HistogramOfLine(h: Header, image: array<Byte>, y: nat, transparent0: bool, black0: bool)
      returns (transparent: bool, black: bool)
      requires IsImage(h, image[..]) && y < h.height
      requires transparent0 == AlphaIsZero(image[..], y * h.width) && black0 == ColorIsZero(image[..], y * h.width)
      ensures transparent == AlphaIsZero(image[..], (y + 1) * h.width)
      ensures black == ColorIsZero(image[..], (y + 1) * h.width)
    {
      hide AlphaIsZero, ColorIsZero;
      transparent, black := transparent0, black0;
      ghost var n := y * h.width;
      for x := 0 to h.width
        invariant n == y * h.width + x
        invariant transparent == AlphaIsZero(image[..], n)
        invariant black == ColorIsZero(image[..], n)
      {
        var idx := OffsetOf(h, x, y);
        ZeroStep(image[..], n);
        if transparent && image[idx + 3] != 0 {
          transparent := false;
        }
        if black && (image[idx] != 0 || image[idx + 1] != 0 || image[idx + 2] != 0) {
          black := false;
        }
        n := n + 1;
      }
    }

    method MakeOpaque(h: Header, image: array<Byte>)
      requires IsImage(h, image[..])
      modifies image
      ensures image[..] == Opaque(old(image[..]))
    {
      hide OpaqueUpTo, Opaque, IsImage;
      OpaqueNone(image[..]);
      for y := 0 to h.height
        invariant IsImage(h, image[..]) && OpaqueUpTo(old(image[..]), image[..], y * h.width)
      {
        MakeLineOpaque(h, image, y, old(image[..]));
      }
      OpaqueIsAll(h, old(image[..]), image[..]);
    }

    /** One line of the second pass. */
    method MakeLineOpaque(h: Header, image: array<Byte>, y: nat, ghost before: Image)
      requires IsImage(h, image[..]) && y < h.height && OpaqueUpTo(before, image[..], y * h.width)
      modifies image
      ensures IsImage(h, image[..]) && OpaqueUpTo(before, image[..], (y + 1) * h.width)
    {
      hide OpaqueUpTo;
      ghost var n := y * h.width;
      for x := 0 to h.width
        invariant n == y * h.width + x && IsImage(h, image[..])
        invariant OpaqueUpTo(before, image[..], n)
      {
        var idx := OffsetOf(h, x, y);
        OpaqueStep(before, image[..], n);
        image[idx + 3] := 255;
        n := n + 1;
      }
    }

    /** Repairs the alpha of an image whose alpha carries no information. */
    method PostProcessImage(h: Header, image: array<Byte>)
      requires IsImage(h, image[..])
      modifies image
      ensures image[..] == Repaired(h, old(image[..]))
    {
      hide AlphaIsZero, ColorIsZero, NeedsRepair;
      if h.kind != Rgb || !h.HasAlpha() {
        return;
      }
      var transparent, black := Histogram(h, image);
      Repairs(image[..], h.width * h.height);
      if transparent && !black {
        MakeOpaque(h, image);
      }
    }
  }

  /** Where a loop over the image, line by line, finds its pixel. */
  function OffsetOf(h: Header, x: nat, y: nat): (idx: nat)
    requires x < h.width && y < h.height
    ensures idx == 4 * (y * h.width + x) && idx + 4 <= 4 * (h.width * h.height)
    ensures y * h.width + h.width == (y + 1) * h.width
  {
    Between(y + 1, h.height, h.width);
    assert (y + 1) * h.width == y * h.width + h.width;
    y * h.width * 4 + x * 4
  }

  function Blank(h: Header): (r: Image)
    ensures IsImage(h, r)
  {
    seq(4 * (h.width * h.height), _ => 0)
  }

  ghost predicate AlphaIsZero(img: Image, n: nat) {
    4 * n <= |img| && forall k :: 0 <= k < n ==> img[4 * k + 3] == 0
  }

  ghost predicate ColorIsZero(img: Image, n: nat) {
    4 * n <= |img| && forall k :: 0 <= k < n ==> img[4 * k] == 0 && img[4 * k + 1] == 0 && img[4 * k + 2] == 0
  }

  ghost predicate OpaqueUpTo(before: Image, img: Image, n: nat) {
    && |img| == |before| && 4 * n <= |img|
    && forall k :: 0 <= k < |img| ==> img[k] == if k < 4 * n && k % 4 == 3 then 255 else before[k]
  }

  lemma ZeroNone(img: Image)
    ensures AlphaIsZero(img, 0) && ColorIsZero(img, 0)
  {
  }

  lemma ZeroStep(img: Image, n: nat)
    requires 4 * n + 4 <= |img|
    ensures AlphaIsZero(img, n + 1) <==> AlphaIsZero(img, n) && img[4 * n + 3] == 0
    ensures ColorIsZero(img, n + 1)
       <==> ColorIsZero(img, n) && img[4 * n] == 0 && img[4 * n + 1] == 0 && img[4 * n + 2] == 0
  {
  }

  lemma OpaqueNone(img: Image)
    ensures OpaqueUpTo(img, img, 0)
  {
  }

  lemma OpaqueStep(before: Image, img: Image, n: nat)
    requires OpaqueUpTo(before, img, n) && 4 * n + 4 <= |img|
    ensures OpaqueUpTo(before, img[4 * n + 3 := 255], n + 1)
  {
  }

  lemma OpaqueIsAll(h: Header, before: Image, img: Image)
    requires OpaqueUpTo(before, img, h.height * h.width) && IsImage(h, img)
    ensures img == Opaque(before)
  {
  }

  /** What the loops over the pixels find out. */
  lemma Repairs(img: Image, n: nat)
    requires |img| == 4 * n
    ensures NeedsRepair(img) <==> AlphaIsZero(img, n) && !ColorIsZero(img, n)
  {
    if AlphaIsZero(img, n) {
      forall k | 0 <= k < |img| && k % 4 == 3
        ensures img[k] == 0
      {
        assert k == 4 * (k / 4) + 3;
      }
      if ColorIsZero(img, n) {
        forall k | 0 <= k < |img| && k % 4 != 3
          ensures img[k] == 0
        {
          assert k == 4 * (k / 4) + k % 4;
        }
      }
    }
  }

  lemma NoEntries(s: Source, pos: nat, depth: Byte)
    ensures Entries(s, pos, depth, 0) == []
  {
  }

  lemma {:induction false} NextEntry(s: Source, pos: nat, depth: Byte, n: nat)
    ensures Entries(s, pos, depth, n + 1)
         == Entries(s, pos, depth, n) + [EntryAt(s, pos + n * EntryBytes(depth), depth)]
    ensures (n + 1) * EntryBytes(depth) == n * EntryBytes(depth) + EntryBytes(depth)
    decreases n
  {
    hide EntryAt, EntryBytes;
    if n > 0 {
      NextEntry(s, pos + EntryBytes(depth), depth, n - 1);
      assert pos + EntryBytes(depth) + (n - 1) * EntryBytes(depth) == pos + n * EntryBytes(depth);
    }
  }

  /** One packet of a line. */
  lemma PacketStep(h: Header, s: Source, pos: nat, j: nat)
    requires h.Valid() && j < h.width && !s.Eof(pos)
    ensures var c := s.At(pos) as nat;
      c >= 128 ==>
        var rest := LinePackets(h, s, pos + 1 + h.PixelBytes(), j + c - 127);
        LinePackets(h, s, pos, j) == (Repeated(ColorAt(h, s, pos + 1), c - 127) + rest.0, rest.1)
    ensures var c := s.At(pos) as nat;
      c < 128 ==>
        var rest := LinePackets(h, s, pos + 1 + (c + 1) * h.PixelBytes(), j + c + 1);
        LinePackets(h, s, pos, j) == (Colors(h, s, pos + 1, c + 1) + rest.0, rest.1)
  {
    hide ColorAt, Colors, Repeated;
  }

  lemma NoPackets(h: Header, s: Source, pos: nat, j: nat)
    requires h.Valid() && (j >= h.width || s.Eof(pos))
    ensures LinePackets(h, s, pos, j) == ([], pos)
  {
  }

  lemma NoColors(h: Header, s: Source, pos: nat, rest: seq<Color>)
    requires h.Valid()
    ensures Colors(h, s, pos, 0) + rest == rest
  {
  }

  lemma LineIs(h: Header, rle: bool, s: Source, pos: nat)
    requires h.Valid()
    ensures Line(h, rle, s, pos)
         == if rle then LinePackets(h, s, pos, 0) else (Colors(h, s, pos, h.width), pos + h.width * h.PixelBytes())
  {
    hide LinePackets, Colors;
  }

  lemma LinesStep(h: Header, rle: bool, s: Source, pos: nat, y: nat, img: Image)
    requires h.Valid() && IsImage(h, img) && y < h.height
    ensures var r := WriteFrom(h, img, Line(h, rle, s, pos).0, 0, y);
      Lines(h, rle, s, pos, y, img)
      == if r.Some? then Lines(h, rle, s, Line(h, rle, s, pos).1, y + 1, r.value) else None
  {
    hide Line, WriteFrom;
  }

  lemma FirstOfRun(color: Color, c: nat, rest: seq<Color>)
    requires c > 0
    ensures (Repeated(color, c) + rest) != [] && (Repeated(color, c) + rest)[0] == color
    ensures (Repeated(color, c) + rest)[1..] == Repeated(color, c - 1) + rest
  {
  }

  lemma FirstOfRaw(h: Header, s: Source, pos: nat, c: nat, rest: seq<Color>)
    requires h.Valid() && c > 0
    ensures var cs := Colors(h, s, pos, c) + rest;
      && cs != [] && cs[0] == ColorAt(h, s, pos)
      && cs[1..] == Colors(h, s, pos + h.PixelBytes(), c - 1) + rest
    ensures pos + c * h.PixelBytes() == pos + h.PixelBytes() + (c - 1) * h.PixelBytes()
  {
    hide ColorAt;
  }
}
