/** Whole TGA images: lines of pixels, run-length coded or not, written one after another. */
module TargaLines {
  import opened ByteStream
  import opened Wrappers
  import opened Arithmetic
  import opened Targa

  /** Writes pixels from (x, y) on, going to the next line at the end of one. */
  function WriteFrom(h: Header, img: Image, cs: seq<Color>, x: nat, y: nat): (r: Option<Image>)
    requires IsImage(h, img) && x < h.width
    ensures r.Some? ==> IsImage(h, r.value)
    decreases |cs|
  {
    if cs == [] then Some(img)
    else
      match SetColor(h, img, cs[0], x, y)
      case None => None
      case Some(i) => if x + 1 < h.width then WriteFrom(h, i, cs[1..], x + 1, y)
                      else WriteFrom(h, i, cs[1..], 0, y + 1)
  }

  /** The pixels of the line at pos, and where the next line begins. */
  function Line(h: Header, rle: bool, s: Source, pos: nat): (seq<Color>, nat)
    requires h.Valid()
  {
    if rle then LinePackets(h, s, pos, 0) else (Colors(h, s, pos, h.width), pos + h.width * h.PixelBytes())
  }

  /** readImage from line y on; None if an exception ends it. */
  function Lines(h: Header, rle: bool, s: Source, pos: nat, y: nat, img: Image): (r: Option<Image>)
    requires h.Valid() && IsImage(h, img) && y <= h.height
    ensures r.Some? ==> IsImage(h, r.value)
    decreases h.height - y
  {
    if y == h.height then Some(img)
    else
      match WriteFrom(h, img, Line(h, rle, s, pos).0, 0, y)
      case None => None
      case Some(i) => Lines(h, rle, s, Line(h, rle, s, pos).1, y + 1, i)
  }

  /** Pixels that fit behind x fill their part of the line and change nothing else. */
  lemma {:induction false} WriteInLine(h: Header, img: Image, cs: seq<Color>, x: nat, y: nat)
    requires IsImage(h, img) && x < h.width && x + |cs| <= h.width && y < h.height
    ensures WriteFrom(h, img, cs, x, y).Some?
    ensures forall x', y' :: 0 <= x' < h.width && 0 <= y' < h.height ==>
      PixelAt(h, WriteFrom(h, img, cs, x, y).value, x', y')
      == if y' == y && x <= x' < x + |cs| then cs[x' - x] else PixelAt(h, img, x', y')
    decreases |cs|
  {
    hide PixelAt, SetColor;
    if cs != [] {
      var i := SetColor(h, img, cs[0], x, y).value;
      forall x', y' | 0 <= x' < h.width && 0 <= y' < h.height
        ensures PixelAt(h, i, x', y') == if x == x' && y == y' then cs[0] else PixelAt(h, img, x', y')
      {
        SetColorSets(h, img, cs[0], x, y, x', y');
      }
      if x + 1 < h.width {
        WriteInLine(h, i, cs[1..], x + 1, y);
      } else {
        assert cs[1..] == [];
      }
    }
  }

  /** In the last line more pixels than fit end in an exception. */
  lemma {:induction false} LastLineOverflows(h: Header, img: Image, cs: seq<Color>, x: nat)
    requires IsImage(h, img) && x < h.width && h.height > 0
    ensures WriteFrom(h, img, cs, x, h.height - 1).Some? <==> x + |cs| <= h.width
    decreases |cs|
  {
    hide SetColor;
    if cs != [] {
      var i := SetColor(h, img, cs[0], x, h.height - 1).value;
      if x + 1 < h.width {
        LastLineOverflows(h, i, cs[1..], x + 1);
      }
    }
  }

  /** A run-length packet: one pixel repeated, or pixels one by one. */
  datatype Packet = Run(n: nat, pixel: seq<Byte>) | Raw(pixels: seq<seq<Byte>>)

  predicate ValidPacket(h: Header, p: Packet)
    requires h.Valid()
  {
    match p
    case Run(n, pixel) => 1 <= n <= 128 && |pixel| == h.PixelBytes()
    case Raw(pixels) => 1 <= |pixels| <= 128 && AllOfSize(pixels, h.PixelBytes())
  }

  function Pixels(p: Packet): seq<seq<Byte>> {
    match p
    case Run(n, pixel) => seq(n, _ => pixel)
    case Raw(pixels) => pixels
  }

  function Bytes(h: Header, p: Packet): seq<Byte>
    requires h.Valid() && ValidPacket(h, p)
  {
    match p
    case Run(n, pixel) => [(n + 127) as Byte] + pixel
    case Raw(pixels) => [(|pixels| - 1) as Byte] + Concat(pixels)
  }

  predicate AllValid(h: Header, ps: seq<Packet>)
    requires h.Valid()
  {
    forall k :: 0 <= k < |ps| ==> ValidPacket(h, ps[k])
  }

  function Encoded(h: Header, ps: seq<Packet>): seq<Byte>
    requires h.Valid() && AllValid(h, ps)
    decreases |ps|
  {
    if ps == [] then [] else Bytes(h, ps[0]) + Encoded(h, ps[1..])
  }

  function AllPixels(ps: seq<Packet>): seq<seq<Byte>>
    decreases |ps|
  {
    if ps == [] then [] else Pixels(ps[0]) + AllPixels(ps[1..])
  }

  function ColorOf(h: Header, pixel: seq<Byte>): Color
    requires h.Valid()
  {
    ColorAt(h, Source(pixel, _ => 0), 0)
  }

  function PixelColors(h: Header, pixels: seq<seq<Byte>>): (cs: seq<Color>)
    requires h.Valid()
    ensures |cs| == |pixels|
    decreases |pixels|
  {
    if pixels == [] then [] else [ColorOf(h, pixels[0])] + PixelColors(h, pixels[1..])
  }

  /** The file holds these bytes at pos. */
  predicate Holds(s: Source, pos: nat, bytes: seq<Byte>) {
    pos + |bytes| <= |s.data| && s.data[pos..pos + |bytes|] == bytes
  }

  lemma HoldsParts(s: Source, pos: nat, a: seq<Byte>, b: seq<Byte>)
    requires Holds(s, pos, a + b)
    ensures Holds(s, pos, a) && Holds(s, pos + |a|, b)
  {
    var d := s.data[pos..pos + |a + b|];
    assert d[..|a|] == a && d[|a|..] == b;
  }

  lemma ColorIsLocal(h: Header, s: Source, pos: nat, pixel: seq<Byte>)
    requires h.Valid() && |pixel| == h.PixelBytes() && Holds(s, pos, pixel)
    ensures ColorAt(h, s, pos) == ColorOf(h, pixel)
  {
    hide Color16;
    assert forall k :: 0 <= k < |pixel| ==> s.data[pos + k] == s.data[pos..pos + |pixel|][k] == pixel[k];
  }

  predicate AllOfSize(pixels: seq<seq<Byte>>, n: nat) {
    forall k :: 0 <= k < |pixels| ==> |pixels[k]| == n
  }

  lemma {:induction false} ConcatLength(pixels: seq<seq<Byte>>, n: nat)
    requires AllOfSize(pixels, n)
    ensures |Concat(pixels)| == |pixels| * n
    decreases |pixels|
  {
    if pixels != [] {
      ConcatLength(pixels[1..], n);
      assert |pixels| * n == n + (|pixels| - 1) * n;
    }
  }

  lemma {:induction false} ColorsOfPixels(h: Header, s: Source, pos: nat, pixels: seq<seq<Byte>>)
    requires h.Valid() && Holds(s, pos, Concat(pixels)) && AllOfSize(pixels, h.PixelBytes())
    ensures Colors(h, s, pos, |pixels|) == PixelColors(h, pixels)
    decreases |pixels|
  {
    hide ColorAt, ColorOf, Holds;
    if pixels != [] {
      HoldsParts(s, pos, pixels[0], Concat(pixels[1..]));
      ColorIsLocal(h, s, pos, pixels[0]);
      ColorsOfPixels(h, s, pos + h.PixelBytes(), pixels[1..]);
    }
  }

  lemma {:induction false} ColorsOfSum(h: Header, a: seq<seq<Byte>>, b: seq<seq<Byte>>)
    requires h.Valid()
    ensures PixelColors(h, a + b) == PixelColors(h, a) + PixelColors(h, b)
    decreases |a|
  {
    hide ColorOf;
    if a == [] {
      assert a + b == b;
    } else {
      assert (a + b)[1..] == a[1..] + b;
      ColorsOfSum(h, a[1..], b);
    }
  }

  lemma {:induction false} ColorsOfRun(h: Header, pixel: seq<Byte>, n: nat)
    requires h.Valid()
    ensures PixelColors(h, seq(n, _ => pixel)) == Repeated(ColorOf(h, pixel), n)
    decreases n
  {
    hide ColorOf;
    if n > 0 {
      assert seq(n, _ => pixel)[1..] == seq(n - 1, _ => pixel);
      ColorsOfRun(h, pixel, n - 1);
    }
  }

  /** The packets one call takes to get m more pixels. */
  function Taken(ps: seq<Packet>, m: int): (t: seq<Packet>)
    ensures |t| <= |ps| && t == ps[..|t|]
    decreases |ps|
  {
    if m <= 0 || ps == [] then [] else [ps[0]] + Taken(ps[1..], m - |Pixels(ps[0])|)
  }

  lemma AllPixelsOfSum(a: seq<Packet>, b: seq<Packet>)
    ensures AllPixels(a + b) == AllPixels(a) + AllPixels(b)
    decreases |a|
  {
    if a == [] {
      assert a + b == b;
    } else {
      assert (a + b)[1..] == a[1..] + b;
      AllPixelsOfSum(a[1..], b);
    }
  }

  lemma EncodedOfSum(h: Header, a: seq<Packet>, b: seq<Packet>)
    requires h.Valid() && AllValid(h, a) && AllValid(h, b)
    ensures AllValid(h, a + b) && Encoded(h, a + b) == Encoded(h, a) + Encoded(h, b)
    decreases |a|
  {
    hide Bytes, ValidPacket;
    if a == [] {
      assert a + b == b;
    } else {
      assert (a + b)[1..] == a[1..] + b;
      EncodedOfSum(h, a[1..], b);
    }
  }

  lemma ConcatOfSum(a: seq<seq<Byte>>, b: seq<seq<Byte>>)
    ensures Concat(a + b) == Concat(a) + Concat(b)
    decreases |a|
  {
    if a == [] {
      assert a + b == b;
    } else {
      assert (a + b)[1..] == a[1..] + b;
      ConcatOfSum(a[1..], b);
    }
  }

  /** The first byte of a packet tells its kind and length, the rest its pixels. */
  lemma PacketReads(h: Header, s: Source, pos: nat, p: Packet)
    requires h.Valid() && ValidPacket(h, p) && Holds(s, pos, Bytes(h, p))
    ensures var c, n := s.At(pos) as nat, |Pixels(p)|;
      && pos < |s.data|
      && (p.Run? <==> c >= 128)
      && n == (if c >= 128 then c - 127 else c + 1)
      && PixelColors(h, Pixels(p))
         == (if c >= 128 then Repeated(ColorAt(h, s, pos + 1), n) else Colors(h, s, pos + 1, n))
      && pos + |Bytes(h, p)| == (if c >= 128 then pos + 1 + h.PixelBytes() else pos + 1 + n * h.PixelBytes())
  {
    hide ColorAt, ColorOf, PixelColors, Colors, Repeated, Holds;
    match p {
      case Run(n, pixel) =>
        FirstByte(s, pos, (n + 127) as Byte, pixel);
        ColorIsLocal(h, s, pos + 1, pixel);
        ColorsOfRun(h, pixel, n);
      case Raw(pixels) =>
        FirstByte(s, pos, (|pixels| - 1) as Byte, Concat(pixels));
        ColorsOfPixels(h, s, pos + 1, pixels);
        ConcatLength(pixels, h.PixelBytes());
    }
  }

  lemma FirstByte(s: Source, pos: nat, b: Byte, rest: seq<Byte>)
    requires Holds(s, pos, [b] + rest)
    ensures pos < |s.data| && s.At(pos) == b && Holds(s, pos + 1, rest)
  {
    HoldsParts(s, pos, [b], rest);
    assert s.data[pos..pos + 1][0] == b;
  }

  lemma LinePacketsStep(h: Header, s: Source, pos: nat, p: Packet, j: nat)
    requires h.Valid() && ValidPacket(h, p) && Holds(s, pos, Bytes(h, p)) && j < h.width
    ensures var (rest, end) := LinePackets(h, s, pos + |Bytes(h, p)|, j + |Pixels(p)|);
      LinePackets(h, s, pos, j) == (PixelColors(h, Pixels(p)) + rest, end)
  {
    hide ColorAt, PixelColors, Colors, Repeated, Bytes, ValidPacket, Holds, Pixels;
    PacketReads(h, s, pos, p);
  }

  /** A line call takes exactly the packets it needs and gives their pixels. */
  lemma {:induction false} LineReads(h: Header, s: Source, pos: nat, ps: seq<Packet>, j: nat)
    requires h.Valid() && AllValid(h, ps) && Holds(s, pos, Encoded(h, ps))
    requires |AllPixels(ps)| >= h.width - j
    ensures AllValid(h, Taken(ps, h.width - j))
    ensures LinePackets(h, s, pos, j)
         == (PixelColors(h, AllPixels(Taken(ps, h.width - j))), pos + |Encoded(h, Taken(ps, h.width - j))|)
    decreases |ps|
  {
    hide PixelColors, Bytes, ValidPacket, Holds, Pixels, LinePackets, Encoded, AllPixels;
    if j < h.width {
      Unpack(h, ps);
      var p, rest := ps[0], ps[1..];
      HoldsParts(s, pos, Bytes(h, p), Encoded(h, rest));
      LinePacketsStep(h, s, pos, p, j);
      LineReads(h, s, pos + |Bytes(h, p)|, rest, j + |Pixels(p)|);
      var m := h.width - j - |Pixels(p)|;
      assert h.width - (j + |Pixels(p)|) == m;
      FirstTaken(h, p, Taken(rest, m));
      assert Taken(ps, h.width - j) == [p] + Taken(rest, m);
    } else {
      NothingTaken(h, s, pos, ps, j);
    }
  }

  lemma Unpack(h: Header, ps: seq<Packet>)
    requires h.Valid() && AllValid(h, ps)
    ensures |AllPixels(ps)| > 0 ==> ps != []
    ensures ps != [] ==> ValidPacket(h, ps[0]) && AllValid(h, ps[1..])
    ensures ps != [] ==> Encoded(h, ps) == Bytes(h, ps[0]) + Encoded(h, ps[1..])
    ensures ps != [] ==> AllPixels(ps) == Pixels(ps[0]) + AllPixels(ps[1..])
  {
    hide Bytes, ValidPacket, Pixels;
  }

  lemma NothingTaken(h: Header, s: Source, pos: nat, ps: seq<Packet>, j: nat)
    requires h.Valid() && j >= h.width
    ensures Taken(ps, h.width - j) == [] && PixelColors(h, AllPixels([])) == [] && Encoded(h, []) == []
    ensures LinePackets(h, s, pos, j) == ([], pos)
  {
  }

  lemma FirstTaken(h: Header, p: Packet, t: seq<Packet>)
    requires h.Valid() && ValidPacket(h, p) && AllValid(h, t)
    ensures AllValid(h, [p] + t)
    ensures Encoded(h, [p] + t) == Bytes(h, p) + Encoded(h, t)
    ensures PixelColors(h, AllPixels([p] + t)) == PixelColors(h, Pixels(p)) + PixelColors(h, AllPixels(t))
  {
    hide PixelColors, Bytes, ValidPacket, Pixels;
    assert ([p] + t)[1..] == t;
    ColorsOfSum(h, Pixels(p), AllPixels(t));
  }

  /** For n lines the packets break exactly where the lines do. */
  predicate BreaksAtLines(ps: seq<Packet>, width: nat, n: nat)
    decreases n
  {
    n == 0 || (|AllPixels(Taken(ps, width))| == width && BreaksAtLines(ps[|Taken(ps, width)|..], width, n - 1))
  }

  lemma TakenAndRest(h: Header, ps: seq<Packet>, m: int)
    requires h.Valid() && AllValid(h, ps)
    ensures var t := Taken(ps, m);
      var rest := ps[|t|..];
      && AllValid(h, t) && AllValid(h, rest)
      && Encoded(h, ps) == Encoded(h, t) + Encoded(h, rest)
      && AllPixels(ps) == AllPixels(t) + AllPixels(rest)
      && Concat(AllPixels(ps)) == Concat(AllPixels(t)) + Concat(AllPixels(rest))
  {
    hide ValidPacket;
    var t := Taken(ps, m);
    var rest := ps[|t|..];
    assert ps == t + rest;
    EncodedOfSum(h, t, rest);
    AllPixelsOfSum(t, rest);
    ConcatOfSum(AllPixels(t), AllPixels(rest));
  }

  lemma {:induction false} PixelsHaveSize(h: Header, ps: seq<Packet>)
    requires h.Valid() && AllValid(h, ps)
    ensures AllOfSize(AllPixels(ps), h.PixelBytes())
    decreases |ps|
  {
    if ps != [] {
      PixelsHaveSize(h, ps[1..]);
    }
  }

  /** One line of run-length data and the same line uncompressed give the same pixels. */
  lemma LinesAgree(h: Header, s: Source, pos: nat, u: Source, upos: nat, ps: seq<Packet>)
    requires h.Valid() && AllValid(h, ps) && Holds(s, pos, Encoded(h, ps)) && Holds(u, upos, Concat(AllPixels(ps)))
    requires |AllPixels(Taken(ps, h.width))| == h.width
    ensures var t := Taken(ps, h.width);
      var rest := ps[|t|..];
      && AllValid(h, t) && AllValid(h, rest)
      && Line(h, true, s, pos) == (PixelColors(h, AllPixels(t)), pos + |Encoded(h, t)|)
      && Line(h, false, u, upos) == (PixelColors(h, AllPixels(t)), upos + |Concat(AllPixels(t))|)
      && Holds(s, pos + |Encoded(h, t)|, Encoded(h, rest))
      && Holds(u, upos + |Concat(AllPixels(t))|, Concat(AllPixels(rest)))
  {
    hide PixelColors, Colors, ValidPacket, Holds, AllPixels, Encoded, LinePackets;
    var t := Taken(ps, h.width);
    var rest := ps[|t|..];
    TakenAndRest(h, ps, h.width);
    LineReads(h, s, pos, ps, 0);
    HoldsParts(s, pos, Encoded(h, t), Encoded(h, rest));
    HoldsParts(u, upos, Concat(AllPixels(t)), Concat(AllPixels(rest)));
    PixelsHaveSize(h, t);
    ColorsOfPixels(h, u, upos, AllPixels(t));
    ConcatLength(AllPixels(t), h.PixelBytes());
  }

  /** Run-length coded and uncompressed images are the same image, for every way to cut the pixels into
      packets that break at the lines, for all sizes and orientations. */
  lemma {:induction false} RleIsUncompressed(h: Header, s: Source, pos: nat, u: Source, upos: nat,
                                             ps: seq<Packet>, y: nat, img: Image)
    requires h.Valid() && IsImage(h, img) && y <= h.height && AllValid(h, ps)
    requires Holds(s, pos, Encoded(h, ps)) && Holds(u, upos, Concat(AllPixels(ps)))
    requires BreaksAtLines(ps, h.width, h.height - y)
    ensures Lines(h, true, s, pos, y, img) == Lines(h, false, u, upos, y, img)
    ensures Lines(h, true, s, pos, y, img).Some?
    decreases h.height - y
  {
    hide PixelColors, ValidPacket, Holds, Line, WriteFrom, Encoded, AllPixels, IsImage;
    if y < h.height {
      LinesAgree(h, s, pos, u, upos, ps);
      var t := Taken(ps, h.width);
      var cs := PixelColors(h, AllPixels(t));
      WriteInLine(h, img, cs, 0, y);
      var i := WriteFrom(h, img, cs, 0, y).value;
      RleIsUncompressed(h, s, pos + |Encoded(h, t)|, u, upos + |Concat(AllPixels(t))|, ps[|t|..], y + 1, i);
    }
  }

  /** What an uncompressed image shows: pixel (x, y) has the color of the file's pixel y * width + x,
      wherever the orientation puts it. */
  lemma {:induction false} UncompressedPixels(h: Header, u: Source, pos: nat, px: seq<seq<Byte>>, y: nat, img: Image)
    requires h.Valid() && IsImage(h, img) && y <= h.height && |px| == (h.height - y) * h.width
    requires Holds(u, pos, Concat(px)) && AllOfSize(px, h.PixelBytes())
    ensures Lines(h, false, u, pos, y, img).Some?
    ensures forall x', y' :: 0 <= x' < h.width && 0 <= y' < h.height ==>
      PixelAt(h, Lines(h, false, u, pos, y, img).value, x', y') == Shown(h, px, y, img, x', y')
    decreases h.height - y
  {
    hide PixelColors, Colors, Holds, WriteFrom, IsImage, PixelAt, ColorOf, Concat;
    if y < h.height {
      var w := h.width;
      NextLine(h.height - y, w);
      var line, rest := px[..w], px[w..];
      assert px == line + rest;
      ConcatOfSum(line, rest);
      HoldsParts(u, pos, Concat(line), Concat(rest));
      ColorsOfPixels(h, u, pos, line);
      ConcatLength(line, h.PixelBytes());
      var cs := PixelColors(h, line);
      WriteInLine(h, img, cs, 0, y);
      var i := WriteFrom(h, img, cs, 0, y).value;
      UncompressedPixels(h, u, pos + |Concat(line)|, rest, y + 1, i);
      forall x', y' | 0 <= x' < w && 0 <= y' < h.height
        ensures Shown(h, rest, y + 1, i, x', y') == Shown(h, px, y, img, x', y')
      {
        ShownStep(h, px, y, img, i, x', y');
      }
    }
  }

  lemma NextLine(n: nat, w: nat)
    requires n > 0
    ensures n * w == w + (n - 1) * w && w <= n * w
  {
  }

  /** The color of pixel (x, y) when the lines from y0 on come from px and the others from img. */
  function Shown(h: Header, px: seq<seq<Byte>>, y0: nat, img: Image, x: nat, y: nat): Color
    requires h.Valid() && IsImage(h, img) && y0 <= h.height && |px| == (h.height - y0) * h.width
    requires x < h.width && y < h.height
  {
    if y < y0 then PixelAt(h, img, x, y)
    else
      PixelIndex(h, y0, x, y);
      ColorOf(h, px[(y - y0) * h.width + x])
  }

  lemma PixelIndex(h: Header, y0: nat, x: nat, y: nat)
    requires y0 <= y < h.height && x < h.width
    ensures 0 <= (y - y0) * h.width + x < (h.height - y0) * h.width
  {
    Between(y - y0 + 1, h.height - y0, h.width);
    assert (y - y0 + 1) * h.width == (y - y0) * h.width + h.width;
  }

  lemma {:induction false} ColorAtIndex(h: Header, px: seq<seq<Byte>>, k: nat)
    requires h.Valid() && k < |px|
    ensures PixelColors(h, px)[k] == ColorOf(h, px[k])
    decreases |px|
  {
    hide ColorOf;
    if k > 0 {
      ColorAtIndex(h, px[1..], k - 1);
    }
  }

  lemma ShownStep(h: Header, px: seq<seq<Byte>>, y: nat, img: Image, i: Image, x': nat, y': nat)
    requires h.Valid() && IsImage(h, img) && IsImage(h, i) && y < h.height && |px| == (h.height - y) * h.width
    requires h.width <= |px| && |px[h.width..]| == (h.height - (y + 1)) * h.width
    requires x' < h.width && y' < h.height
    requires y' <= y ==>
      PixelAt(h, i, x', y') == if y' == y then PixelColors(h, px[..h.width])[x'] else PixelAt(h, img, x', y')
    ensures Shown(h, px[h.width..], y + 1, i, x', y') == Shown(h, px, y, img, x', y')
  {
    hide ColorOf, PixelAt, PixelColors, IsImage;
    if y' == y {
      ColorAtIndex(h, px[..h.width], x');
      assert (y' - y) * h.width + x' == x';
    } else if y' > y {
      PixelIndex(h, y, x', y');
      PixelIndex(h, y + 1, x', y');
      NextLine(y' - y, h.width);
      assert px[h.width..][(y' - (y + 1)) * h.width + x'] == px[(y' - y) * h.width + x'];
    }
  }

  /** Exactly then: where the packets of the last line do not end with it, reading fails. */
  lemma LastLineFits(h: Header, s: Source, pos: nat, ps: seq<Packet>, img: Image)
    requires h.Valid() && IsImage(h, img) && AllValid(h, ps) && Holds(s, pos, Encoded(h, ps))
    requires |AllPixels(ps)| >= h.width
    ensures Lines(h, true, s, pos, h.height - 1, img).Some? <==> |AllPixels(Taken(ps, h.width))| == h.width
  {
    hide PixelColors, ValidPacket, Holds, LinePackets, WriteFrom, Encoded, AllPixels, IsImage, Taken;
    LineReads(h, s, pos, ps, 0);
    LastLineOverflows(h, img, PixelColors(h, AllPixels(Taken(ps, h.width))), 0);
    TakenReaches(ps, h.width);
    var r := WriteFrom(h, img, Line(h, true, s, pos).0, 0, h.height - 1);
    assert r.Some? ==> Lines(h, true, s, Line(h, true, s, pos).1, h.height, r.value) == r;
  }

  lemma {:induction false} TakenReaches(ps: seq<Packet>, m: int)
    requires |AllPixels(ps)| >= m
    ensures |AllPixels(Taken(ps, m))| >= m
    decreases |ps|
  {
    if m > 0 && ps != [] {
      TakenReaches(ps[1..], m - |Pixels(ps[0])|);
      var t := Taken(ps[1..], m - |Pixels(ps[0])|);
      assert ([ps[0]] + t)[1..] == t;
    }
  }
}
