/** What the line calls of an image leave in it, for any file at all: a call may deliver more pixels
    than its line has, or fewer, and the last call that writes a pixel decides it. */
module TargaWrites {
  import opened ByteStream
  import opened Wrappers
  import opened Arithmetic
  import opened Targa
  import opened TargaLines

  /** The number of a pixel, line by line. */
  function Index(h: Header, x: nat, y: nat): nat {
    y * h.width + x
  }

  lemma IndexDiffers(h: Header, x: nat, y: nat, x': nat, y': nat)
    requires x < h.width && x' < h.width
    ensures Index(h, x, y) == Index(h, x', y') <==> x == x' && y == y'
  {
    DivModOf(y, x, h.width);
    DivModOf(y', x', h.width);
  }

  lemma IndexInImage(h: Header, x: nat, y: nat)
    requires x < h.width && y < h.height
    ensures Index(h, x, y) < h.height * h.width
  {
    PixelIndex(h, 0, x, y);
  }

  /** The next pixel has the next number, also across the end of a line. */
  lemma IndexStep(h: Header, x: nat, y: nat)
    requires x < h.width
    ensures x + 1 < h.width ==> Index(h, x + 1, y) == Index(h, x, y) + 1
    ensures x + 1 == h.width ==> Index(h, 0, y + 1) == Index(h, x, y) + 1
    ensures Index(h, 0, h.height) == h.height * h.width
  {
    assert (y + 1) * h.width == y * h.width + h.width;
  }

  /** The image after these pixels were written from number a on. */
  ghost predicate Written(h: Header, img: Image, cs: seq<Color>, a: nat, r: Image) {
    IsImage(h, img) && IsImage(h, r) &&
    forall x: nat, y: nat :: x < h.width && y < h.height ==>
      PixelAt(h, r, x, y)
      == if a <= Index(h, x, y) < a + |cs| then cs[Index(h, x, y) - a] else PixelAt(h, img, x, y)
  }

  /** Writing across lines succeeds exactly if the pixels fit into the image, and changes the pixels
      with the next numbers and no others. */
  lemma {:induction false} WriteAcross(h: Header, img: Image, cs: seq<Color>, x: nat, y: nat)
    requires IsImage(h, img) && x < h.width && y < h.height
    ensures WriteFrom(h, img, cs, x, y).Some? <==> Index(h, x, y) + |cs| <= h.height * h.width
    ensures WriteFrom(h, img, cs, x, y).Some? ==> Written(h, img, cs, Index(h, x, y), WriteFrom(h, img, cs, x, y).value)
    decreases |cs|
  {
    hide PixelAt, SetColor, Index, Written, IsImage;
    IndexInImage(h, x, y);
    IndexStep(h, x, y);
    if cs == [] {
      NothingWritten(h, img, Index(h, x, y));
    } else {
      var i := SetColor(h, img, cs[0], x, y).value;
      OneWritten(h, img, cs[0], x, y);
      if x + 1 < h.width {
        WriteAcross(h, i, cs[1..], x + 1, y);
        ThenWritten(h, img, cs, x, y, i);
      } else if y + 1 < h.height {
        WriteAcross(h, i, cs[1..], 0, y + 1);
        ThenWritten(h, img, cs, x, y, i);
      } else {
        BelowImage(h, i, cs[1..]);
        NothingWritten(h, i, Index(h, x, y) + 1);
        ThenWritten(h, img, cs, x, y, i);
        AtLastPixel(h, x, y);
      }
    }
  }

  lemma AtLastPixel(h: Header, x: nat, y: nat)
    requires x + 1 == h.width && y + 1 == h.height
    ensures Index(h, x, y) + 1 == h.height * h.width
  {
    IndexStep(h, x, y);
  }

  lemma NothingWritten(h: Header, img: Image, a: nat)
    requires IsImage(h, img)
    ensures Written(h, img, [], a, img)
  {
    hide PixelAt, Index;
  }

  lemma OneWritten(h: Header, img: Image, c: Color, x: nat, y: nat)
    requires IsImage(h, img) && x < h.width && y < h.height
    ensures SetColor(h, img, c, x, y).Some? && Written(h, img, [c], Index(h, x, y), SetColor(h, img, c, x, y).value)
  {
    hide PixelAt, SetColor, Index;
    var i := SetColor(h, img, c, x, y).value;
    forall x': nat, y': nat | x' < h.width && y' < h.height
      ensures PixelAt(h, i, x', y')
           == if Index(h, x', y') == Index(h, x, y) then c else PixelAt(h, img, x', y')
    {
      SetColorSets(h, img, c, x, y, x', y');
      IndexDiffers(h, x, y, x', y');
    }
  }

  /** One pixel and then the others is all of them. */
  lemma ThenWritten(h: Header, img: Image, cs: seq<Color>, x: nat, y: nat, i: Image)
    requires cs != [] && Written(h, img, [cs[0]], Index(h, x, y), i)
    ensures forall r: Image :: Written(h, i, cs[1..], Index(h, x, y) + 1, r) ==> Written(h, img, cs, Index(h, x, y), r)
  {
    hide PixelAt, Index, IsImage;
  }

  lemma BelowImage(h: Header, img: Image, cs: seq<Color>)
    requires IsImage(h, img) && h.width > 0
    ensures WriteFrom(h, img, cs, 0, h.height) == if cs == [] then Some(img) else None
  {
  }

  /** The read position before line call k. */
  function CallPos(h: Header, rle: bool, s: Source, pos: nat, k: nat): nat
    requires h.Valid()
    decreases k
  {
    if k == 0 then pos else Line(h, rle, s, CallPos(h, rle, s, pos, k - 1)).1
  }

  /** The pixels that line call k delivers. */
  function Call(h: Header, rle: bool, s: Source, pos: nat, k: nat): seq<Color>
    requires h.Valid()
  {
    Line(h, rle, s, CallPos(h, rle, s, pos, k)).0
  }

  function Calls(h: Header, rle: bool, s: Source, pos: nat, n: nat): (ls: seq<seq<Color>>)
    requires h.Valid()
    ensures |ls| == n
    ensures forall k :: 0 <= k < n ==> ls[k] == Call(h, rle, s, pos, k)
  {
    seq(n, k requires 0 <= k < n => Call(h, rle, s, pos, k))
  }

  /** Call k writes the pixel with number i. */
  predicate Reaches(ls: seq<seq<Color>>, width: nat, k: nat, i: nat)
    requires k < |ls|
  {
    k * width <= i < k * width + |ls[k]|
  }

  /** The last of the first n calls that writes the pixel, or -1 if none does. */
  function LastWriter(ls: seq<seq<Color>>, width: nat, i: nat, n: nat): (r: int)
    requires n <= |ls|
    ensures -1 <= r < n
    ensures r >= 0 ==> Reaches(ls, width, r, i)
    ensures forall k :: r < k < n ==> !Reaches(ls, width, k, i)
    decreases n
  {
    if n == 0 then -1 else if Reaches(ls, width, n - 1, i) then n - 1 else LastWriter(ls, width, i, n - 1)
  }

  /** The color the first n calls leave at (x, y). */
  function Painted(h: Header, ls: seq<seq<Color>>, n: nat, img: Image, x: nat, y: nat): Color
    requires IsImage(h, img) && n <= |ls| && x < h.width && y < h.height
  {
    var i := Index(h, x, y);
    var k := LastWriter(ls, h.width, i, n);
    if k < 0 then PixelAt(h, img, x, y) else ls[k][i - k * h.width]
  }

  ghost predicate ShowsCalls(h: Header, ls: seq<seq<Color>>, n: nat, img: Image, r: Image) {
    IsImage(h, img) && IsImage(h, r) && n <= |ls| &&
    forall x: nat, y: nat :: x < h.width && y < h.height ==> PixelAt(h, r, x, y) == Painted(h, ls, n, img, x, y)
  }

  /** No call from the k0-th on reaches behind the end of the image. */
  predicate CallsFit(h: Header, ls: seq<seq<Color>>, k0: nat) {
    forall k :: k0 <= k < |ls| ==> k * h.width + |ls[k]| <= h.height * h.width
  }

  /** From line n on, with the lines in front done. */
  lemma {:induction false} LinesFrom(h: Header, rle: bool, s: Source, pos: nat, n: nat, img0: Image, img: Image)
    requires h.Valid() && n <= h.height && IsImage(h, img)
    requires ShowsCalls(h, Calls(h, rle, s, pos, h.height), n, img0, img)
    ensures var ls, r := Calls(h, rle, s, pos, h.height), Lines(h, rle, s, CallPos(h, rle, s, pos, n), n, img);
      && (r.Some? <==> CallsFit(h, ls, n))
      && (r.Some? ==> ShowsCalls(h, ls, h.height, img0, r.value))
    decreases h.height - n
  {
    hide Calls, ShowsCalls, CallsFit, Lines, Line, WriteFrom, IsImage, Index;
    var ls, p := Calls(h, rle, s, pos, h.height), CallPos(h, rle, s, pos, n);
    LinesAre(h, rle, s, p, n, img);
    FitsStep(h, ls, n);
    if n < h.height {
      var w := WriteFrom(h, img, ls[n], 0, n);
      WriteAcross(h, img, ls[n], 0, n);
      IndexOfLine(h, n);
      if w.Some? {
        CallShows(h, ls, n, img0, img, w.value);
        LinesFrom(h, rle, s, pos, n + 1, img0, w.value);
      }
    }
  }

  lemma IndexOfLine(h: Header, y: nat)
    ensures Index(h, 0, y) == y * h.width
  {
  }

  lemma LinesAre(h: Header, rle: bool, s: Source, pos: nat, y: nat, img: Image)
    requires h.Valid() && IsImage(h, img) && y <= h.height
    ensures y == h.height ==> Lines(h, rle, s, pos, y, img) == Some(img)
    ensures y < h.height ==> var r := WriteFrom(h, img, Line(h, rle, s, pos).0, 0, y);
      Lines(h, rle, s, pos, y, img)
      == if r.Some? then Lines(h, rle, s, Line(h, rle, s, pos).1, y + 1, r.value) else None
  {
    hide Line, WriteFrom;
  }

  lemma FitsStep(h: Header, ls: seq<seq<Color>>, n: nat)
    requires n <= |ls|
    ensures n == |ls| ==> CallsFit(h, ls, n)
    ensures n < |ls| ==>
      (CallsFit(h, ls, n) <==> n * h.width + |ls[n]| <= h.height * h.width && CallsFit(h, ls, n + 1))
  {
  }

  lemma CallShows(h: Header, ls: seq<seq<Color>>, n: nat, img0: Image, img: Image, r: Image)
    requires n < |ls| && ShowsCalls(h, ls, n, img0, img) && Written(h, img, ls[n], n * h.width, r)
    ensures ShowsCalls(h, ls, n + 1, img0, r)
  {
    hide PixelAt, Index, IsImage;
  }

  /** For every file, run-length coded or not: reading succeeds exactly if no line call reaches behind
      the image, and then each pixel shows what the last call that reaches it delivers there. */
  lemma LastWriteWins(h: Header, rle: bool, s: Source, pos: nat, img: Image)
    requires h.Valid() && IsImage(h, img)
    ensures var ls, r := Calls(h, rle, s, pos, h.height), Lines(h, rle, s, pos, 0, img);
      && (r.Some? <==> CallsFit(h, ls, 0))
      && (r.Some? ==> ShowsCalls(h, ls, h.height, img, r.value))
  {
    hide Lines, Line, PixelAt, Index;
    LinesFrom(h, rle, s, pos, 0, img, img);
  }

  /** So a pixel that its own line's call reaches shows that call's pixel, whatever was spilled there. */
  lemma OwnLineStays(h: Header, ls: seq<seq<Color>>, img: Image, x: nat, y: nat)
    requires IsImage(h, img) && |ls| == h.height && x < h.width && y < h.height && x < |ls[y]|
    ensures Painted(h, ls, h.height, img, x, y) == ls[y][x]
  {
    var i := Index(h, x, y);
    assert Reaches(ls, h.width, y, i);
    forall k | y < k < h.height
      ensures !Reaches(ls, h.width, k, i)
    {
      Between(y + 1, k, h.width);
      assert (y + 1) * h.width == y * h.width + h.width;
    }
    assert LastWriter(ls, h.width, i, h.height) == y;
  }
}
