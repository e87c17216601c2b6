/** Run-length packets that cross the end of a line, as old files have them. Each line call begins with
    a new packet, so a crossing packet uses up pixels of the next line, and a coding of just the
    image's pixels runs out: the calls go on behind it. */
module TargaCrossing {
  import opened ByteStream
  import opened Wrappers
  import opened Arithmetic
  import opened Targa
  import opened TargaLines
  import opened TargaWrites

  /** The packets left for line call k. */
  function Remaining(ps: seq<Packet>, width: nat, k: nat): (r: seq<Packet>)
    ensures |r| <= |ps| && r == ps[|ps| - |r|..]
    decreases k
  {
    if k == 0 then ps
    else
      var r := Remaining(ps, width, k - 1);
      r[|Taken(r, width)|..]
  }

  /** The first n line calls each find the pixels of a line. */
  predicate Full(ps: seq<Packet>, width: nat, n: nat)
    decreases n
  {
    n == 0 || (|AllPixels(Taken(ps, width))| >= width && Full(ps[|Taken(ps, width)|..], width, n - 1))
  }

  lemma TakenPixels(ps: seq<Packet>, m: int)
    ensures var t := Taken(ps, m);
      AllPixels(ps) == AllPixels(t) + AllPixels(ps[|t|..])
  {
    var t := Taken(ps, m);
    assert ps == t + ps[|t|..];
    AllPixelsOfSum(t, ps[|t|..]);
  }

  /** A call finds the pixels of a line exactly if there are as many left. */
  lemma {:induction false} TakenIsEnough(ps: seq<Packet>, m: int)
    ensures |AllPixels(Taken(ps, m))| >= m <==> |AllPixels(ps)| >= m
    ensures |AllPixels(ps)| < m ==> Taken(ps, m) == ps
    decreases |ps|
  {
    if m > 0 && ps != [] {
      TakenIsEnough(ps[1..], m - |Pixels(ps[0])|);
      var t := Taken(ps[1..], m - |Pixels(ps[0])|);
      assert ([ps[0]] + t)[1..] == t;
    }
  }

  lemma {:induction false} FullIsEnough(ps: seq<Packet>, width: nat, n: nat)
    requires Full(ps, width, n)
    ensures |AllPixels(ps)| >= n * width
    decreases n
  {
    if n > 0 {
      TakenPixels(ps, width);
      FullIsEnough(ps[|Taken(ps, width)|..], width, n - 1);
      NextLine(n, width);
    }
  }

  /** A coding of exactly n lines lasts for n calls if and only if its packets break at the lines. */
  lemma {:induction false} LastsIffBreaks(ps: seq<Packet>, width: nat, n: nat)
    requires |AllPixels(ps)| == n * width
    ensures Full(ps, width, n) <==> BreaksAtLines(ps, width, n)
    decreases n
  {
    hide AllPixels, Taken;
    if n > 0 {
      var t := Taken(ps, width);
      var rest := ps[|t|..];
      TakenPixels(ps, width);
      NextLine(n, width);
      if |AllPixels(t)| == width {
        LastsIffBreaks(rest, width, n - 1);
      } else if Full(ps, width, n) {
        FullIsEnough(rest, width, n - 1);
      }
    }
  }

  /** Line calls on the packets of a coding, while they last. */
  lemma {:induction false} CallsOnCoding(h: Header, s: Source, pos: nat, ps: seq<Packet>, k: nat)
    requires h.Valid() && AllValid(h, ps) && Holds(s, pos, Encoded(h, ps)) && Full(ps, h.width, k)
    ensures var rest := Remaining(ps, h.width, k);
      && AllValid(h, rest) && Holds(s, CallPos(h, true, s, pos, k), Encoded(h, rest))
      && CallPos(h, true, s, pos, k) + |Encoded(h, rest)| == pos + |Encoded(h, ps)|
    ensures k > 0 ==>
      Call(h, true, s, pos, k - 1) == PixelColors(h, AllPixels(Taken(Remaining(ps, h.width, k - 1), h.width)))
    decreases k
  {
    hide Encoded, Holds, AllPixels, PixelColors, Line, Taken, AllValid, CallPos, Call, Remaining, Full;
    CallStep(h, s, pos, ps, k);
    if k > 0 {
      FullShorter(ps, h.width, k - 1);
      CallsOnCoding(h, s, pos, ps, k - 1);
      var r := Remaining(ps, h.width, k - 1);
      CallOnPackets(h, s, CallPos(h, true, s, pos, k - 1), r);
    }
  }

  lemma CallStep(h: Header, s: Source, pos: nat, ps: seq<Packet>, k: nat)
    requires h.Valid()
    ensures k == 0 ==> CallPos(h, true, s, pos, k) == pos && Remaining(ps, h.width, k) == ps
    ensures k > 0 ==>
      var r, p := Remaining(ps, h.width, k - 1), CallPos(h, true, s, pos, k - 1);
      && Remaining(ps, h.width, k) == r[|Taken(r, h.width)|..]
      && (Call(h, true, s, pos, k - 1), CallPos(h, true, s, pos, k)) == Line(h, true, s, p)
  {
    hide Taken, Line;
  }

  /** One line call on packets that may cross the line. */
  lemma CallOnPackets(h: Header, s: Source, pos: nat, ps: seq<Packet>)
    requires h.Valid() && AllValid(h, ps) && Holds(s, pos, Encoded(h, ps))
    requires |AllPixels(Taken(ps, h.width))| >= h.width
    ensures var t := Taken(ps, h.width);
      var rest := ps[|t|..];
      && AllValid(h, t) && AllValid(h, rest)
      && Line(h, true, s, pos) == (PixelColors(h, AllPixels(t)), pos + |Encoded(h, t)|)
      && Holds(s, pos + |Encoded(h, t)|, Encoded(h, rest))
      && |Encoded(h, t)| + |Encoded(h, rest)| == |Encoded(h, ps)|
  {
    hide PixelColors, Colors, ValidPacket, Holds, AllPixels, Encoded, LinePackets;
    var t := Taken(ps, h.width);
    TakenAndRest(h, ps, h.width);
    LineReads(h, s, pos, ps, 0);
    HoldsParts(s, pos, Encoded(h, t), Encoded(h, ps[|t|..]));
  }

  /** The calls before call k were full, and so is call k exactly if as many pixels remain. */
  lemma {:induction false} FullShorter(ps: seq<Packet>, width: nat, k: nat)
    requires Full(ps, width, k + 1)
    ensures Full(ps, width, k) && |AllPixels(Taken(Remaining(ps, width, k), width))| >= width
    decreases k
  {
    hide AllPixels, Taken;
    if k > 0 {
      var rest := ps[|Taken(ps, width)|..];
      FullShorter(rest, width, k - 1);
      RemainingOfRest(ps, width, k);
    }
  }

  lemma {:induction false} RemainingOfRest(ps: seq<Packet>, width: nat, k: nat)
    requires k > 0
    ensures Remaining(ps, width, k) == Remaining(ps[|Taken(ps, width)|..], width, k - 1)
    decreases k
  {
    hide Taken;
    if k > 1 {
      RemainingOfRest(ps, width, k - 1);
    }
  }

  lemma {:induction false} FullLonger(ps: seq<Packet>, width: nat, k: nat)
    requires Full(ps, width, k) && |AllPixels(Taken(Remaining(ps, width, k), width))| >= width
    ensures Full(ps, width, k + 1)
    decreases k
  {
    hide AllPixels, Taken;
    if k > 0 {
      RemainingOfRest(ps, width, k);
      FullLonger(ps[|Taken(ps, width)|..], width, k - 1);
    }
  }

  /** The first line call that runs out of packets. */
  function DryLine(ps: seq<Packet>, width: nat, n: nat): (k: nat)
    requires !Full(ps, width, n)
    ensures k < n && Full(ps, width, k) && !Full(ps, width, k + 1)
    decreases n
  {
    if Full(ps, width, n - 1) then n - 1 else DryLine(ps, width, n - 1)
  }

  /** A line call that runs out of packets takes the bytes behind them for the next packet. */
  lemma {:induction false} RunsOut(h: Header, s: Source, pos: nat, ps: seq<Packet>, j: nat)
    requires h.Valid() && AllValid(h, ps) && Holds(s, pos, Encoded(h, ps)) && j + |AllPixels(ps)| < h.width
    ensures var (more, end) := LinePackets(h, s, pos + |Encoded(h, ps)|, j + |AllPixels(ps)|);
      LinePackets(h, s, pos, j) == (PixelColors(h, AllPixels(ps)) + more, end)
    decreases |ps|
  {
    hide PixelColors, Bytes, ValidPacket, Holds, Pixels, LinePackets, AllPixels, Encoded;
    if ps == [] {
      NoColorsOfNone(h);
      PrependNothing(LinePackets(h, s, pos, j).0);
    } else {
      Unpack(h, ps);
      var p, rest := ps[0], ps[1..];
      HoldsParts(s, pos, Bytes(h, p), Encoded(h, rest));
      LinePacketsStep(h, s, pos, p, j);
      RunsOut(h, s, pos + |Bytes(h, p)|, rest, j + |Pixels(p)|);
      ColorsOfSum(h, Pixels(p), AllPixels(rest));
      assert pos + |Bytes(h, p)| + |Encoded(h, rest)| == pos + |Encoded(h, ps)|;
      assert j + |Pixels(p)| + |AllPixels(rest)| == j + |AllPixels(ps)|;
      var more := LinePackets(h, s, pos + |Encoded(h, ps)|, j + |AllPixels(ps)|).0;
      assert PixelColors(h, Pixels(p)) + (PixelColors(h, AllPixels(rest)) + more)
          == PixelColors(h, Pixels(p)) + PixelColors(h, AllPixels(rest)) + more;
    }
  }

  lemma NoColorsOfNone(h: Header)
    requires h.Valid()
    ensures PixelColors(h, AllPixels([])) == [] && AllPixels([]) == [] && Encoded(h, []) == []
  {
  }

  lemma PrependNothing(cs: seq<Color>)
    ensures [] + cs == cs
  {
  }

  /** The packet that begins at a position, whatever the bytes there are. */
  function PacketAt(h: Header, s: Source, pos: nat): (cs: seq<Color>)
    requires h.Valid()
    ensures 1 <= |cs| <= 128 && cs[0] == ColorAt(h, s, pos + 1)
  {
    var c := s.At(pos) as nat;
    if c >= 128 then Repeated(ColorAt(h, s, pos + 1), c - 127) else Colors(h, s, pos + 1, c + 1)
  }

  function PacketEnd(h: Header, s: Source, pos: nat): (end: nat)
    requires h.Valid()
    ensures end > pos
  {
    if s.At(pos) >= 128 then pos + 1 + h.PixelBytes() else pos + 1 + (s.At(pos) as nat + 1) * h.PixelBytes()
  }

  lemma PacketStep(h: Header, s: Source, pos: nat, j: nat)
    requires h.Valid() && j < h.width && !s.Eof(pos)
    ensures var cs := PacketAt(h, s, pos);
      var (more, end) := LinePackets(h, s, PacketEnd(h, s, pos), j + |cs|);
      LinePackets(h, s, pos, j) == (cs + more, end)
  {
    hide ColorAt, Colors;
    var c := s.At(pos) as nat;
    assert |PacketAt(h, s, pos)| == if c >= 128 then c - 127 else c + 1;
  }

  /** Behind the coding a packet is always read, from whatever follows there; at the end of the file
      it is made of failed reads and the last one. */
  lemma PacketBehind(h: Header, s: Source, end: nat, j: nat)
    requires h.Valid() && j < h.width && end <= |s.data|
    ensures var cs := LinePackets(h, s, end, j).0;
      PacketAt(h, s, end) <= cs && (end == |s.data| ==> cs == PacketAt(h, s, end))
    ensures end == |s.data| ==> LinePackets(h, s, end, j).1 > |s.data|
  {
    hide PacketAt, PacketEnd, LinePackets;
    PacketStep(h, s, end, j);
    EofPackets(h, s, PacketEnd(h, s, end), j + |PacketAt(h, s, end)|);
  }

  lemma EofPackets(h: Header, s: Source, pos: nat, j: nat)
    requires h.Valid()
    ensures pos > |s.data| ==> LinePackets(h, s, pos, j) == ([], pos)
  {
  }

  /** What line call k delivers on a file that ends behind the coding: the first packets that make up
      a line while they last, then the packets left and one packet of failed reads, then nothing. */
  function CodedCall(h: Header, ps: seq<Packet>, s: Source, k: nat): seq<Color>
    requires h.Valid()
  {
    var rest := Remaining(ps, h.width, k);
    if Full(ps, h.width, k + 1) then PixelColors(h, AllPixels(Taken(rest, h.width)))
    else if Full(ps, h.width, k) then PixelColors(h, AllPixels(rest)) + PacketAt(h, s, |s.data|)
    else []
  }

  /** The call that runs out: the packets left, and then what stands behind them. */
  lemma DryCall(h: Header, s: Source, pos: nat, ps: seq<Packet>, k: nat)
    requires h.Valid() && AllValid(h, ps) && Holds(s, pos, Encoded(h, ps))
    requires Full(ps, h.width, k) && !Full(ps, h.width, k + 1)
    ensures var rest, end := Remaining(ps, h.width, k), pos + |Encoded(h, ps)|;
      && |AllPixels(rest)| < h.width && end <= |s.data|
      && PixelColors(h, AllPixels(rest)) + PacketAt(h, s, end) <= Call(h, true, s, pos, k)
      && (end == |s.data| ==>
            && Call(h, true, s, pos, k) == PixelColors(h, AllPixels(rest)) + PacketAt(h, s, end)
            && CallPos(h, true, s, pos, k + 1) > |s.data|)
  {
    hide Encoded, Holds, AllPixels, PixelColors, Taken, AllValid, LinePackets, PacketAt, Remaining;
    var rest, end := Remaining(ps, h.width, k), pos + |Encoded(h, ps)|;
    CallsOnCoding(h, s, pos, ps, k);
    TakenIsEnough(rest, h.width);
    if |AllPixels(rest)| >= h.width {
      FullLonger(ps, h.width, k);
    }
    var p := CallPos(h, true, s, pos, k);
    HoldsInFile(s, p, Encoded(h, rest));
    RunsOut(h, s, p, rest, 0);
    PacketBehind(h, s, end, |AllPixels(rest)|);
    SamePrefix(PixelColors(h, AllPixels(rest)), PacketAt(h, s, end), LinePackets(h, s, end, |AllPixels(rest)|).0);
  }

  lemma HoldsInFile(s: Source, pos: nat, bytes: seq<Byte>)
    requires Holds(s, pos, bytes)
    ensures pos + |bytes| <= |s.data|
  {
  }

  lemma SamePrefix(a: seq<Color>, b: seq<Color>, c: seq<Color>)
    requires b <= c
    ensures a + b <= a + c
  {
  }

  /** Once a read has failed, line calls read nothing. */
  lemma {:induction false} NothingBehindEof(h: Header, s: Source, pos: nat, k: nat, n: nat)
    requires h.Valid() && k <= n && CallPos(h, true, s, pos, k) > |s.data|
    ensures CallPos(h, true, s, pos, n) > |s.data| && Call(h, true, s, pos, n) == []
    decreases n - k
  {
    hide CallPos, Call, Line;
    if k < n {
      NothingBehindEof(h, s, pos, k, n - 1);
      EofStep(h, s, pos, n - 1);
    }
    EofStep(h, s, pos, n);
  }

  lemma EofStep(h: Header, s: Source, pos: nat, n: nat)
    requires h.Valid() && CallPos(h, true, s, pos, n) > |s.data|
    ensures Call(h, true, s, pos, n) == [] && CallPos(h, true, s, pos, n + 1) == CallPos(h, true, s, pos, n)
  {
    hide Line;
    EofLine(h, s, CallPos(h, true, s, pos, n));
  }

  lemma EofLine(h: Header, s: Source, pos: nat)
    requires h.Valid()
    ensures pos > |s.data| ==> Line(h, true, s, pos) == ([], pos)
  {
    hide LinePackets;
    EofPackets(h, s, pos, 0);
  }

  /** Every line call on a file that ends behind the coding, however the packets are cut. */
  lemma CodingIsRead(h: Header, s: Source, pos: nat, ps: seq<Packet>, k: nat)
    requires h.Valid() && AllValid(h, ps) && Holds(s, pos, Encoded(h, ps)) && pos + |Encoded(h, ps)| == |s.data|
    ensures Call(h, true, s, pos, k) == CodedCall(h, ps, s, k)
  {
    hide Encoded, Holds, AllPixels, PixelColors, Taken, AllValid, Line, PacketAt, Call, CallPos, Full, Remaining;
    if Full(ps, h.width, k + 1) {
      CallsOnCoding(h, s, pos, ps, k + 1);
    } else if Full(ps, h.width, k) {
      DryCall(h, s, pos, ps, k);
    } else {
      var d := DryLine(ps, h.width, k);
      DryCall(h, s, pos, ps, d);
      NothingBehindEof(h, s, pos, d + 1, k);
    }
  }

  /** The read position tells afterwards: no read has failed if and only if the packets lasted for all
      lines; for a coding of exactly the image, if and only if they break at the lines. */
  lemma PositionTells(h: Header, s: Source, pos: nat, ps: seq<Packet>)
    requires h.Valid() && AllValid(h, ps) && Holds(s, pos, Encoded(h, ps)) && pos + |Encoded(h, ps)| == |s.data|
    ensures !s.Eof(CallPos(h, true, s, pos, h.height)) <==> Full(ps, h.width, h.height)
    ensures |AllPixels(ps)| == h.height * h.width ==>
      (!s.Eof(CallPos(h, true, s, pos, h.height)) <==> BreaksAtLines(ps, h.width, h.height))
  {
    hide Encoded, Holds, AllPixels, Taken, AllValid, Line, CallPos, Full, Remaining, BreaksAtLines;
    if Full(ps, h.width, h.height) {
      CallsOnCoding(h, s, pos, ps, h.height);
    } else {
      var d := DryLine(ps, h.width, h.height);
      DryCall(h, s, pos, ps, d);
      NothingBehindEof(h, s, pos, d + 1, h.height);
    }
    if |AllPixels(ps)| == h.height * h.width {
      LastsIffBreaks(ps, h.width, h.height);
    }
  }

  /** A coding that runs out shows bytes from behind it, wherever reading does not fail. */
  lemma ShowsBehind(h: Header, s: Source, pos: nat, ps: seq<Packet>, img: Image)
    requires h.Valid() && IsImage(h, img) && AllValid(h, ps) && Holds(s, pos, Encoded(h, ps))
    requires !Full(ps, h.width, h.height)
    ensures var y := DryLine(ps, h.width, h.height);
      var x, r := |AllPixels(Remaining(ps, h.width, y))|, Lines(h, true, s, pos, 0, img);
      && x < h.width && y < h.height
      && (r.Some? ==> PixelAt(h, r.value, x, y) == ColorAt(h, s, pos + |Encoded(h, ps)| + 1))
  {
    hide Encoded, Holds, AllPixels, Taken, AllValid, Line, CallPos, Full, Remaining, Lines, PixelAt, PacketAt;
    hide CallsFit, Painted, Call, ColorAt, PixelColors;
    var y, end := DryLine(ps, h.width, h.height), pos + |Encoded(h, ps)|;
    var rest := Remaining(ps, h.width, y);
    DryCall(h, s, pos, ps, y);
    LastWriteWins(h, true, s, pos, img);
    var ls := Calls(h, true, s, pos, h.height);
    var own := PixelColors(h, AllPixels(rest));
    assert ls[y][|own|] == PacketAt(h, s, end)[0];
    OwnLineStays(h, ls, img, |own|, y);
  }
}
