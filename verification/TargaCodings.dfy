/** When a run-length coding of an image is read as that image: exactly when its packets break at the
    lines. */
module TargaCodings {
  import opened ByteStream
  import opened Wrappers
  import opened Arithmetic
  import opened Targa
  import opened TargaLines
  import opened TargaWrites
  import opened TargaCrossing

  /** The coding, with these bytes in front of it and behind it, is read as the uncompressed image. */
  predicate RightWith(h: Header, pre: seq<Byte>, ps: seq<Packet>, tail: seq<Byte>, stray: nat -> Byte,
                      u: Source, upos: nat, img: Image)
    requires h.Valid() && IsImage(h, img) && AllValid(h, ps)
  {
    Lines(h, true, Source(pre + Encoded(h, ps) + tail, stray), |pre|, 0, img) == Lines(h, false, u, upos, 0, img)
  }

  lemma HoldsCoding(pre: seq<Byte>, code: seq<Byte>, tail: seq<Byte>, stray: nat -> Byte)
    ensures Holds(Source(pre + code + tail, stray), |pre|, code)
    ensures tail == [] ==> |pre| + |code| == |pre + code + tail|
  {
    assert (pre + code + tail)[|pre|..|pre| + |code|] == code;
  }

  lemma {:induction false} TakenOfMore(ps: seq<Packet>, qs: seq<Packet>, m: int)
    requires |AllPixels(ps)| >= m
    ensures Taken(ps + qs, m) == Taken(ps, m)
    decreases |ps|
  {
    if m > 0 {
      assert ps != [] && (ps + qs)[0] == ps[0] && (ps + qs)[1..] == ps[1..] + qs;
      TakenOfMore(ps[1..], qs, m - |Pixels(ps[0])|);
    }
  }

  lemma {:induction false} TakenThrough(a: seq<Packet>, b: seq<Packet>, m: int)
    requires |AllPixels(a)| < m
    ensures Taken(a + b, m) == a + Taken(b, m - |AllPixels(a)|)
    decreases |a|
  {
    hide Pixels, AllPixels, Taken;
    if a == [] {
      NoColors();
      assert a + b == b && a + Taken(b, m) == Taken(b, m);
    } else {
      TakenStep(a + b, m);
      PixelsStep(a);
      assert (a + b)[0] == a[0] && (a + b)[1..] == a[1..] + b;
      TakenThrough(a[1..], b, m - |Pixels(a[0])|);
      var more := Taken(b, m - |AllPixels(a)|);
      assert m - |Pixels(a[0])| - |AllPixels(a[1..])| == m - |AllPixels(a)|;
      assert [a[0]] + (a[1..] + more) == a + more;
    }
  }

  lemma NoColors()
    ensures AllPixels([]) == []
  {
  }

  lemma TakenStep(ps: seq<Packet>, m: int)
    requires m > 0 && ps != []
    ensures Taken(ps, m) == [ps[0]] + Taken(ps[1..], m - |Pixels(ps[0])|)
  {
  }

  lemma PixelsStep(ps: seq<Packet>)
    requires ps != []
    ensures |AllPixels(ps)| == |Pixels(ps[0])| + |AllPixels(ps[1..])|
  {
  }

  /** A run of n black pixels. */
  function Filler(h: Header, n: nat): (p: Packet)
    requires h.Valid() && 1 <= n <= 128
    ensures ValidPacket(h, p) && |Pixels(p)| == n
  {
    Run(n, seq(h.PixelBytes(), _ => 0))
  }

  /** n runs of one pixel each. */
  function Singles(h: Header, n: nat): (ps: seq<Packet>)
    requires h.Valid()
    ensures |ps| == n && AllValid(h, ps)
  {
    seq(n, _ => Filler(h, 1))
  }

  lemma {:induction false} SinglesCount(h: Header, n: nat)
    requires h.Valid()
    ensures |AllPixels(Singles(h, n))| == n
    decreases n
  {
    hide ValidPacket;
    if n > 0 {
      assert Singles(h, n)[1..] == Singles(h, n - 1);
      SinglesCount(h, n - 1);
    }
  }

  /** Single pixels up to one short of the line, then a packet of n pixels, then more packets. */
  function Filling(h: Header, ps: seq<Packet>, n: nat, more: seq<Packet>): (qs: seq<Packet>)
    requires h.Valid() && |AllPixels(ps)| < h.width && 1 <= n <= 128 && AllValid(h, more)
    ensures AllValid(h, qs)
  {
    Singles(h, h.width - 1 - |AllPixels(ps)|) + [Filler(h, n)] + more
  }

  lemma FillLine(h: Header, ps: seq<Packet>, n: nat, more: seq<Packet>)
    requires h.Valid() && |AllPixels(ps)| < h.width && 1 <= n <= 128 && AllValid(h, more)
    ensures var all := ps + Filling(h, ps, n, more);
      var t := Taken(all, h.width);
      |AllPixels(t)| == h.width - 1 + n && all[|t|..] == more
  {
    hide AllPixels, Taken, Singles, Filler, AllValid;
    var left := h.width - 1 - |AllPixels(ps)|;
    var a, f := ps + Singles(h, left), Filler(h, n);
    SinglesCount(h, left);
    AllPixelsOfSum(ps, Singles(h, left));
    assert ps + Filling(h, ps, n, more) == a + ([f] + more);
    TakenThrough(a, [f] + more, h.width);
    OneTaken(f, more);
    AllPixelsOfSum(a, [f]);
    assert (a + ([f] + more))[|a| + 1..] == more;
  }

  lemma OneTaken(f: Packet, more: seq<Packet>)
    requires |Pixels(f)| >= 1
    ensures Taken([f] + more, 1) == [f] && |AllPixels([f])| == |Pixels(f)|
  {
    assert ([f] + more)[1..] == more;
    assert Taken(more, 1 - |Pixels(f)|) == [];
    assert [f][1..] == [] && AllPixels([]) == [];
  }

  /** The packets last for n calls, and the last of them gets more than a line. */
  predicate Overflows(ps: seq<Packet>, width: nat, n: nat) {
    n > 0 && Full(ps, width, n) && |AllPixels(Taken(Remaining(ps, width, n - 1), width))| > width
  }

  lemma OverflowsNow(ps: seq<Packet>, width: nat)
    requires |AllPixels(Taken(ps, width))| > width
    ensures Overflows(ps, width, 1)
  {
    hide AllPixels, Taken;
  }

  lemma OverflowsLater(ps: seq<Packet>, width: nat, n: nat)
    requires n > 0 && |AllPixels(Taken(ps, width))| >= width
    requires Overflows(ps[|Taken(ps, width)|..], width, n - 1)
    ensures Overflows(ps, width, n)
  {
    hide AllPixels, Taken;
    RemainingOfRest(ps, width, n - 1);
  }

  /** Behind a coding that runs out there can be packets with which the last line overflows. */
  lemma {:induction false} OverflowTail(h: Header, ps: seq<Packet>, n: nat) returns (qs: seq<Packet>)
    requires h.Valid() && AllValid(h, ps) && !Full(ps, h.width, n)
    ensures AllValid(h, qs) && Overflows(ps + qs, h.width, n)
    decreases n
  {
    hide AllPixels, Taken, Singles, Filler, AllValid, Overflows;
    TakenIsEnough(ps, h.width);
    if |AllPixels(ps)| >= h.width {
      var t := Taken(ps, h.width);
      RestOfTaken(h, ps, n);
      qs := OverflowTail(h, ps[|t|..], n - 1);
      TakenOfMore(ps, qs, h.width);
      assert (ps + qs)[|t|..] == ps[|t|..] + qs;
      OverflowsLater(ps + qs, h.width, n);
    } else if n == 1 {
      EmptyIsNotFull(h, n);
      FillLine(h, ps, 2, []);
      qs := Filling(h, ps, 2, []);
      OverflowsNow(ps + qs, h.width);
    } else {
      EmptyIsNotFull(h, n - 1);
      var rest := OverflowTail(h, [], n - 1);
      assert [] + rest == rest;
      FillLine(h, ps, 1, rest);
      qs := Filling(h, ps, 1, rest);
      OverflowsLater(ps + qs, h.width, n);
    }
  }

  lemma RestOfTaken(h: Header, ps: seq<Packet>, n: nat)
    requires h.Valid() && AllValid(h, ps) && !Full(ps, h.width, n) && |AllPixels(Taken(ps, h.width))| >= h.width
    ensures n > 0 && AllValid(h, ps[|Taken(ps, h.width)|..]) && !Full(ps[|Taken(ps, h.width)|..], h.width, n - 1)
  {
    hide AllPixels, Taken, ValidPacket;
  }

  lemma EmptyIsNotFull(h: Header, n: nat)
    requires h.Valid() && n > 0
    ensures !Full([], h.width, n) && AllValid(h, [])
  {
  }

  /** With such packets behind it reading fails. */
  lemma OverflowFails(h: Header, s: Source, pos: nat, ps: seq<Packet>, img: Image)
    requires h.Valid() && IsImage(h, img) && AllValid(h, ps) && Holds(s, pos, Encoded(h, ps))
    requires Overflows(ps, h.width, h.height)
    ensures Lines(h, true, s, pos, 0, img).None?
  {
    hide AllPixels, Taken, Encoded, Holds, Full, Remaining, Lines, Call, CallPos, PixelColors, AllValid;
    CallsOnCoding(h, s, pos, ps, h.height);
    LastWriteWins(h, true, s, pos, img);
    var ls := Calls(h, true, s, pos, h.height);
    NextLine(h.height, h.width);
    assert (h.height - 1) * h.width + |ls[h.height - 1]| > h.height * h.width;
  }

  lemma UncompressedIsRead(h: Header, u: Source, upos: nat, ps: seq<Packet>, img: Image)
    requires h.Valid() && IsImage(h, img) && AllValid(h, ps) && |AllPixels(ps)| == h.height * h.width
    requires Holds(u, upos, Concat(AllPixels(ps)))
    ensures Lines(h, false, u, upos, 0, img).Some?
  {
    PixelsHaveSize(h, ps);
    UncompressedPixels(h, u, upos, AllPixels(ps), 0, img);
  }

  /** A coding of exactly the image's pixels is read as the image, whatever stands behind it, if and
      only if its packets break at the lines. The pixels' values play no part. */
  lemma CrossingIsRight(h: Header, pre: seq<Byte>, ps: seq<Packet>, u: Source, upos: nat, img: Image)
    requires h.Valid() && IsImage(h, img) && AllValid(h, ps) && |AllPixels(ps)| == h.height * h.width
    requires Holds(u, upos, Concat(AllPixels(ps)))
    ensures (forall tail: seq<Byte>, stray: nat -> Byte :: RightWith(h, pre, ps, tail, stray, u, upos, img))
       <==> BreaksAtLines(ps, h.width, h.height)
  {
    hide AllPixels, Taken, Encoded, Holds, Full, Lines, AllValid, BreaksAtLines, Remaining, Concat;
    LastsIffBreaks(ps, h.width, h.height);
    if BreaksAtLines(ps, h.width, h.height) {
      forall tail: seq<Byte>, stray: nat -> Byte
        ensures RightWith(h, pre, ps, tail, stray, u, upos, img)
      {
        BreakingIsRight(h, pre, ps, tail, stray, u, upos, img);
      }
    } else {
      var qs := OverflowTail(h, ps, h.height);
      var tail, stray := Encoded(h, qs), (k: nat) => 0 as Byte;
      EncodedOfSum(h, ps, qs);
      HoldsCoding(pre, Encoded(h, ps + qs), [], stray);
      assert pre + Encoded(h, ps) + tail == pre + Encoded(h, ps + qs) + [];
      OverflowFails(h, Source(pre + Encoded(h, ps) + tail, stray), |pre|, ps + qs, img);
      UncompressedIsRead(h, u, upos, ps, img);
      assert !RightWith(h, pre, ps, tail, stray, u, upos, img);
    }
  }

  lemma BreakingIsRight(h: Header, pre: seq<Byte>, ps: seq<Packet>, tail: seq<Byte>, stray: nat -> Byte,
                        u: Source, upos: nat, img: Image)
    requires h.Valid() && IsImage(h, img) && AllValid(h, ps) && BreaksAtLines(ps, h.width, h.height)
    requires Holds(u, upos, Concat(AllPixels(ps)))
    ensures RightWith(h, pre, ps, tail, stray, u, upos, img)
  {
    hide AllPixels, Encoded, Holds, Lines, AllValid, BreaksAtLines, Concat;
    HoldsCoding(pre, Encoded(h, ps), tail, stray);
    RleIsUncompressed(h, Source(pre + Encoded(h, ps) + tail, stray), |pre|, u, upos, ps, 0, img);
  }

  /** The color of a pixel read behind the end of the file, if each read finds the same byte. */
  function StrayColor(h: Header, b: Byte): Color
    requires h.Valid()
  {
    ColorAt(h, Source([], _ => b), 0)
  }

  /** Two bytes have different colors. */
  ghost predicate TellsColors(h: Header)
    requires h.Valid()
  {
    exists a, b :: StrayColor(h, a) != StrayColor(h, b)
  }

  /** They always have, except in an indexed image whose colormap has but one color. */
  lemma GrayAndRgbTell(h: Header)
    requires h.Valid() && h.kind != Indexed
    ensures TellsColors(h)
  {
    if h.kind == Rgb && h.bitsPerPixel <= 16 {
      SixteenBitsTell(h);
    } else {
      OtherBitsTell(h);
    }
  }

  lemma SixteenBitsTell(h: Header)
    requires h.Valid() && h.kind == Rgb && h.bitsPerPixel <= 16
    ensures StrayColor(h, 0) != StrayColor(h, 255)
  {
    hide Color16;
    assert StrayColor(h, 0) == Color16(0, 0, h.HasAlpha()) && StrayColor(h, 255) == Color16(255, 255, h.HasAlpha());
    RedOf16(h.HasAlpha());
  }

  lemma RedOf16(hasAlpha: bool)
    ensures Color16(0, 0, hasAlpha).r == 0 && Color16(255, 255, hasAlpha).r == 255
  {
    assert 65535 / 1024 % 32 == 31;
  }

  lemma OtherBitsTell(h: Header)
    requires h.Valid() && (h.kind == Gray || (h.kind == Rgb && h.bitsPerPixel > 16))
    ensures StrayColor(h, 0) != StrayColor(h, 255)
  {
    hide Color16;
    assert StrayColor(h, 0).r == 0 && StrayColor(h, 255).r == 255;
  }

  /** The same on files that end behind the coding: what failed reads leave behind cannot be right
      every time. */
  lemma CrossingAtEnd(h: Header, pre: seq<Byte>, ps: seq<Packet>, u: Source, upos: nat, img: Image)
    requires h.Valid() && IsImage(h, img) && AllValid(h, ps) && |AllPixels(ps)| == h.height * h.width
    requires Holds(u, upos, Concat(AllPixels(ps))) && TellsColors(h)
    ensures (forall stray: nat -> Byte :: RightWith(h, pre, ps, [], stray, u, upos, img))
       <==> BreaksAtLines(ps, h.width, h.height)
  {
    hide AllPixels, Taken, Encoded, Holds, Full, Lines, AllValid, BreaksAtLines, Concat, StrayColor, RightWith;
    LastsIffBreaks(ps, h.width, h.height);
    if BreaksAtLines(ps, h.width, h.height) {
      forall stray: nat -> Byte
        ensures RightWith(h, pre, ps, [], stray, u, upos, img)
      {
        BreakingIsRight(h, pre, ps, [], stray, u, upos, img);
      }
    } else {
      var a, b :| StrayColor(h, a) != StrayColor(h, b);
      var straya: nat -> Byte, strayb: nat -> Byte := _ => a, _ => b;
      ShowsStray(h, pre, ps, a, straya, u, upos, img);
      ShowsStray(h, pre, ps, b, strayb, u, upos, img);
      assert !RightWith(h, pre, ps, [], straya, u, upos, img) || !RightWith(h, pre, ps, [], strayb, u, upos, img);
    }
  }

  /** If the image is right nevertheless, one of its pixels has the stray color by chance. */
  lemma ShowsStray(h: Header, pre: seq<Byte>, ps: seq<Packet>, b: Byte, stray: nat -> Byte,
                   u: Source, upos: nat, img: Image)
    requires h.Valid() && IsImage(h, img) && AllValid(h, ps) && |AllPixels(ps)| == h.height * h.width
    requires Holds(u, upos, Concat(AllPixels(ps))) && !Full(ps, h.width, h.height) && forall k :: stray(k) == b
    ensures var y := DryLine(ps, h.width, h.height);
      var x, r := |AllPixels(Remaining(ps, h.width, y))|, Lines(h, false, u, upos, 0, img);
      && r.Some? && x < h.width && y < h.height
      && (RightWith(h, pre, ps, [], stray, u, upos, img) ==> PixelAt(h, r.value, x, y) == StrayColor(h, b))
  {
    hide AllPixels, Taken, Encoded, Holds, Full, Lines, AllValid, Concat, PixelAt, ColorAt, Remaining;
    var s := Source(pre + Encoded(h, ps) + [], stray);
    HoldsCoding(pre, Encoded(h, ps), [], stray);
    ShowsBehind(h, s, |pre|, ps, img);
    UncompressedIsRead(h, u, upos, ps, img);
    SameColor(h, s, b);
  }

  lemma SameColor(h: Header, s: Source, b: Byte)
    requires h.Valid() && forall k :: s.stray(k) == b
    ensures ColorAt(h, s, |s.data| + 1) == StrayColor(h, b)
  {
    hide Color16;
  }

  /** Two gray lines of two pixels, coded as a packet of three and one of one: the second line gets the
      fourth pixel first and then whatever failed reads leave behind. Unless these happen to make a
      packet of one pixel reading fails, and the image is wrong in any case. */
  lemma CrossingExample(h: Header, stray: nat -> Byte, img: Image)
    requires h.Valid() && h.kind == Gray && h.width == h.height == 2 && IsImage(h, img)
    ensures var r := Lines(h, true, Source([2, 10, 20, 30, 0, 40], stray), 0, 0, img);
      && (r.Some? <==> stray(6) == 0 || stray(6) == 128)
      && (r.Some? ==> PixelAt(h, r.value, 0, 1) == Color(40, 40, 40, 255))
      && r != Lines(h, false, Source([10, 20, 30, 40], stray), 0, 0, img)
  {
    hide Lines, PixelAt, Call, Painted, Index;
    var s := Source([2, 10, 20, 30, 0, 40], stray);
    LastWriteWins(h, true, s, 0, img);
    ExampleCalls(h, s);
    var ls := Calls(h, true, s, 0, 2);
    OwnLineStays(h, ls, img, 0, 1);
    ExampleUncompressed(h, Source([10, 20, 30, 40], stray), img);
  }

  lemma ExampleCalls(h: Header, s: Source)
    requires h.Valid() && h.kind == Gray && h.width == 2 && s.data == [2, 10, 20, 30, 0, 40]
    ensures |Call(h, true, s, 0, 0)| == 3
    ensures var c := Call(h, true, s, 0, 1);
      c != [] && c[0] == Color(40, 40, 40, 255) && (|c| <= 2 <==> s.stray(6) == 0 || s.stray(6) == 128)
  {
    var a := Colors(h, s, 1, 3);
    assert LinePackets(h, s, 4, 3) == ([], 4);
    assert LinePackets(h, s, 0, 0) == (a + [], 4);
    assert CallPos(h, true, s, 0, 1) == 4;
    PacketBehind(h, s, 6, 1);
    assert Colors(h, s, 5, 1) == [Color(40, 40, 40, 255)];
    var more := LinePackets(h, s, 6, 1);
    assert LinePackets(h, s, 4, 0) == (Colors(h, s, 5, 1) + more.0, more.1);
  }

  lemma ExampleUncompressed(h: Header, u: Source, img: Image)
    requires h.Valid() && h.kind == Gray && h.width == h.height == 2 && IsImage(h, img)
    requires u.data == [10, 20, 30, 40]
    ensures var r := Lines(h, false, u, 0, 0, img);
      r.Some? && PixelAt(h, r.value, 0, 1) == Color(30, 30, 30, 255)
  {
    hide Lines, PixelAt;
    LastWriteWins(h, false, u, 0, img);
    var ls := Calls(h, false, u, 0, 2);
    assert CallPos(h, false, u, 0, 1) == 2;
    assert Colors(h, u, 2, 2)[0] == Color(30, 30, 30, 255);
    OwnLineStays(h, ls, img, 0, 1);
  }
}
