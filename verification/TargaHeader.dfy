/** The header and the colormap of a TGA file. */
module TargaHeader {
  import opened ByteStream
  import opened Wrappers
  import opened Targa

  /** What readHeader finds out, and where the pixels begin. */
  datatype FileInfo = FileInfo(header: Header, rle: bool, pos: nat)

  /** Two bytes, the low one first. */
  function Word(s: Source, pos: nat): (w: nat)
    ensures w < 0x1_0000
  {
    s.At(pos + 1) as nat * 256 + s.At(pos) as nat
  }

  /** The image type: the kind of pixels, and whether they are run-length coded. */
  function TypeOf(t: Byte): Option<(Kind, bool)> {
    if t == 1 then Some((Indexed, false))
    else if t == 2 then Some((Rgb, false))
    else if t == 3 then Some((Gray, false))
    else if t == 9 then Some((Indexed, true))
    else if t == 10 then Some((Rgb, true))
    else if t == 11 then Some((Gray, true))
    else None
  }

  /** The bytes of a colormap entry; none are read for a depth that is not known. */
  function EntryBytes(depth: Byte): nat {
    if depth == 15 || depth == 16 then 2 else if depth == 24 then 3 else if depth == 32 then 4 else 0
  }

  function EntriesBytes(depth: Byte, n: nat): nat {
    n * EntryBytes(depth)
  }

  function EntryAt(s: Source, pos: nat, depth: Byte): Color {
    if depth == 15 || depth == 16 then Color16(s.At(pos), s.At(pos + 1), false)
    else if depth == 24 then Color(s.At(pos + 2), s.At(pos + 1), s.At(pos), 255)
    else if depth == 32 then Color(s.At(pos + 2), s.At(pos + 1), s.At(pos), s.At(pos + 3))
    else Color(0, 0, 0, 0)
  }

  function Entries(s: Source, pos: nat, depth: Byte, n: nat): (cs: seq<Color>)
    ensures |cs| == n
    decreases n
  {
    if n == 0 then [] else [EntryAt(s, pos, depth)] + Entries(s, pos + EntryBytes(depth), depth, n - 1)
  }

  /** Indexed images have a colormap, gray ones none, and both have 8 bits per pixel. */
  predicate ValidType(kind: Kind, bitsPerPixel: nat, colormapType: Byte) {
    match kind
    case Indexed => bitsPerPixel == 8 && colormapType == 1
    case Gray => bitsPerPixel == 8 && colormapType == 0
    case Rgb => bitsPerPixel in {15, 16, 24, 32} && colormapType == 0
  }

  /** The fields at the beginning of the file that are used. */
  datatype Fields = Fields(idLength: Byte, colormapType: Byte, imageType: Byte,
                           colormapLength: nat, colormapDepth: Byte,
                           width: nat, height: nat, bitsPerPixel: Byte, imageDescriptor: Byte)

  function FieldsOf(s: Source): Fields {
    Fields(s.At(0), s.At(1), s.At(2), Word(s, 5), s.At(7), Word(s, 12), Word(s, 14), s.At(16), s.At(17))
  }

  /** The header with these fields and this colormap, if it is valid. */
  function HeaderWith(f: Fields, colormap: seq<Color>, pos: nat): (r: Option<FileInfo>)
    ensures r.Some? ==> r.value.header.Valid() && r.value.pos == pos
  {
    var bits := f.bitsPerPixel as nat;
    if f.width == 0 || f.height == 0 || TypeOf(f.imageType).None? then None
    else
      var (kind, rle) := TypeOf(f.imageType).value;
      if !ValidType(kind, bits, f.colormapType) then None
      else
        Some(FileInfo(Header(kind, bits, f.width, f.height, f.imageDescriptor as nat / 16 % 2 == 0,
                             f.imageDescriptor as nat / 32 % 2 == 1, colormap), rle, pos))
  }

  /** readHeader. Behind the fields are the id string and, if there is one, the colormap. */
  function HeaderOf(s: Source): (r: Option<FileInfo>)
    ensures r.Some? ==> r.value.header.Valid()
  {
    var f := FieldsOf(s);
    var start := 18 + f.idLength as nat;
    var n := if f.colormapType == 1 then f.colormapLength else 0;
    HeaderWith(f, Entries(s, start, f.colormapDepth, n), start + EntriesBytes(f.colormapDepth, n))
  }
}
