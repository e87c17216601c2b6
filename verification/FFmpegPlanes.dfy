/** Copying a decoded picture, plane by plane and line by line, into one buffer. */
module FFmpegPlanes {
  import opened ByteStream
  import opened Arithmetic

  /** The lines of a plane may be longer in the library's memory than in the picture. */
  datatype Plane = Plane(data: seq<Byte>, lineSize: nat)

  datatype Layout = Layout(width: nat, height: nat, subHor: nat, subVer: nat, sampleBytes: nat, nrPlanes: nat) {
    ghost predicate Valid() {
      subHor > 0 && subVer > 0 && sampleBytes > 0
    }

    function LineBytes(plane: nat): nat
      requires Valid()
    {
      (if plane == 0 then width else width / subHor) * sampleBytes
    }

    function Lines(plane: nat): nat
      requires Valid()
    {
      if plane == 0 then height else height / subVer
    }

    function PlaneBytes(plane: nat): nat
      requires Valid()
    {
      LineBytes(plane) * Lines(plane)
    }

    /** What the code reserves for the first plane, and for each of the others. */
    function LumaBytes(): nat {
      width * height * sampleBytes
    }

    function ChromaBytes(): nat
      requires Valid()
    {
      width / subHor * height / subVer * sampleBytes
    }

    function Offset(plane: nat): nat
      requires Valid()
    {
      if plane == 0 then 0
      else
        var before: nat := plane - 1;
        LumaBytes() + before * ChromaBytes()
    }

    function TotalBytes(): nat
      requires Valid()
    {
      LumaBytes() + 2 * ChromaBytes()
    }
  }

  lemma RoundsDown(a: nat, h: nat, v: nat)
    requires v > 0
    ensures a * (h / v) <= a * h / v
    ensures a * h / v == a * (h / v) <==> a * (h % v) < v
  {
    Quotient(a, h / v, h % v, h, v);
    SmallQuotient(a * (h % v), v);
  }

  lemma Quotient(a: nat, q: nat, r: nat, h: nat, v: nat)
    requires v > 0 && h == q * v + r
    ensures a * h / v == a * q + a * r / v
  {
    TimesSplit(a, q, r, v);
    MovesOut(a * q, a * r, v);
  }

  lemma TimesSplit(a: nat, q: nat, r: nat, v: nat)
    ensures a * (q * v + r) == a * q * v + a * r
  {
    assert a * (q * v + r) == a * (q * v) + a * r;
    Associates(a, q, v);
  }

  lemma Associates(a: nat, q: nat, v: nat)
    ensures a * (q * v) == a * q * v
  {
  }

  lemma MovesOut(q: nat, d: nat, v: nat)
    requires v > 0
    ensures (q * v + d) / v == q + d / v
  {
    assert d == d / v * v + d % v;
    DivModOf(q + d / v, d % v, v);
    assert (q + d / v) * v == q * v + d / v * v;
  }

  lemma SmallQuotient(d: nat, v: nat)
    requires v > 0
    ensures d / v == 0 <==> d < v
  {
  }

  /** A plane fits into what is reserved for it. It fills it, so that the planes lie back to back,
      exactly if the lines that the subsampling drops are short enough. */
  lemma PlaneFits(l: Layout, plane: nat)
    requires l.Valid()
    ensures plane == 0 ==> l.PlaneBytes(plane) == l.LumaBytes()
    ensures plane > 0 ==> l.PlaneBytes(plane) <= l.ChromaBytes()
    ensures plane > 0 ==>
      (l.PlaneBytes(plane) == l.ChromaBytes() <==> l.width / l.subHor * (l.height % l.subVer) < l.subVer)
  {
    if plane == 0 {
      Swap(l.width, l.sampleBytes, l.height);
    } else {
      var a, b := l.width / l.subHor, l.height / l.subVer;
      RoundsDown(a, l.height, l.subVer);
      Swap(a, l.sampleBytes, b);
      Scaled(a * b, a * l.height / l.subVer, l.sampleBytes);
    }
  }

  lemma Swap(a: nat, b: nat, c: nat)
    ensures a * b * c == a * c * b
  {
  }

  lemma Scaled(x: nat, y: nat, n: nat)
    requires n > 0 && x <= y
    ensures x * n <= y * n && (x * n == y * n <==> x == y)
  {
    assert y * n - x * n == (y - x) * n;
    MulGrows(y - x, n);
  }

  /** Up to three planes lie in the buffer, one behind the other without overlap. */
  lemma PlanesLieApart(l: Layout, p: nat, q: nat)
    requires l.Valid() && p < q
    ensures l.Offset(p) + l.PlaneBytes(p) <= l.Offset(q)
    ensures q < 3 ==> l.Offset(q) + l.PlaneBytes(q) <= l.TotalBytes()
  {
    hide Layout.PlaneBytes, Layout.LumaBytes, Layout.ChromaBytes;
    PlaneFits(l, p);
    PlaneFits(l, q);
    OffsetsGrow(l.ChromaBytes(), p, q);
  }

  /** The buffer is made for three planes. A fourth one, as formats with alpha have, fits if it is empty. */
  predicate FitsBuffer(l: Layout)
    requires l.Valid()
  {
    l.nrPlanes <= 3 || (l.nrPlanes == 4 && l.PlaneBytes(3) == 0)
  }

  /** The fourth plane begins where the buffer ends. */
  lemma FourthPlane(l: Layout)
    requires l.Valid()
    ensures l.Offset(3) == l.TotalBytes()
  {
    hide Layout.ChromaBytes, Layout.LumaBytes;
  }

  /** So the copy stays inside the buffer if and only if there are three planes or the fourth is empty. */
  lemma CopyStaysInside(l: Layout)
    requires l.Valid() && l.nrPlanes <= 4
    ensures (forall p :: 0 <= p < l.nrPlanes ==> l.Offset(p) + l.PlaneBytes(p) <= l.TotalBytes()) <==> FitsBuffer(l)
  {
    hide Layout.PlaneBytes, Layout.Offset, Layout.TotalBytes;
    FourthPlane(l);
    if FitsBuffer(l) {
      forall p | 0 <= p < l.nrPlanes
        ensures l.Offset(p) + l.PlaneBytes(p) <= l.TotalBytes()
      {
        PlaneEnds(l, p);
      }
    } else {
      assert l.Offset(3) + l.PlaneBytes(3) > l.TotalBytes();
    }
  }

  lemma PlaneEnds(l: Layout, p: nat)
    requires l.Valid() && p < l.nrPlanes && FitsBuffer(l)
    ensures l.Offset(p) + l.PlaneBytes(p) <= l.TotalBytes()
  {
    hide Layout.PlaneBytes, Layout.Offset, Layout.TotalBytes;
    if p == 3 {
      FourthPlane(l);
    } else if p > 0 {
      PlanesLieApart(l, 0, p);
    } else {
      PlanesLieApart(l, 0, 3);
      FourthPlane(l);
    }
  }

  lemma OffsetsGrow(size: nat, p: nat, q: nat)
    requires p < q
    ensures p > 0 ==> (p - 1) * size + size <= (q - 1) * size
    ensures q == 2 ==> (q - 1) * size == size
    ensures 0 <= (q - 1) * size
  {
    if p > 0 {
      Between(p, q - 1, size);
      assert p * size == (p - 1) * size + size;
    }
  }

  /** The plane's lines, without what lies between them in memory. */
  function Picture(p: Plane, lineBytes: nat, lines: nat): (r: seq<Byte>)
    requires Holds(p, lineBytes, lines)
    ensures |r| == lineBytes * lines
    decreases lines
  {
    if lines == 0 then []
    else
      LastLine(p, lineBytes, lines);
      var n: nat := lines - 1;
      var at: nat := n * p.lineSize;
      Picture(p, lineBytes, n) + p.data[at..at + lineBytes]
  }

  /** The library's memory holds so many lines. */
  predicate Holds(p: Plane, lineBytes: nat, lines: nat) {
    lines > 0 ==> (lines - 1) * p.lineSize + lineBytes <= |p.data|
  }

  lemma LastLine(p: Plane, lineBytes: nat, lines: nat)
    requires Holds(p, lineBytes, lines) && lines > 0
    ensures Holds(p, lineBytes, lines - 1)
    ensures lineBytes * lines == lineBytes * (lines - 1) + lineBytes
  {
    if lines > 1 {
      assert (lines - 1) * p.lineSize == (lines - 2) * p.lineSize + p.lineSize;
    }
  }

  /** Each byte of the picture is the matching byte of the library's memory. */
  lemma {:induction false} PictureAt(p: Plane, lineBytes: nat, lines: nat, x: nat, y: nat)
    requires Holds(p, lineBytes, lines) && x < lineBytes && y < lines
    ensures y * lineBytes + x < lineBytes * lines && y * p.lineSize + x < |p.data|
    ensures Picture(p, lineBytes, lines)[y * lineBytes + x] == p.data[y * p.lineSize + x]
    decreases lines
  {
    hide Holds, Picture;
    LastLine(p, lineBytes, lines);
    PictureStep(p, lineBytes, lines);
    if y < lines - 1 {
      PictureAt(p, lineBytes, lines - 1, x, y);
    } else {
      Commutes(lineBytes, y);
    }
  }

  lemma Commutes(a: nat, b: nat)
    ensures a * b == b * a
  {
  }

  lemma NoPicture(p: Plane, lineBytes: nat)
    ensures Holds(p, lineBytes, 0) && Picture(p, lineBytes, 0) == []
  {
  }

  lemma PictureStep(p: Plane, lineBytes: nat, lines: nat)
    requires Holds(p, lineBytes, lines) && lines > 0
    ensures Holds(p, lineBytes, lines - 1) && (lines - 1) * p.lineSize + lineBytes <= |p.data|
    ensures var line := p.data[(lines - 1) * p.lineSize..(lines - 1) * p.lineSize + lineBytes];
      Picture(p, lineBytes, lines) == Picture(p, lineBytes, lines - 1) + line
  {
    LastLine(p, lineBytes, lines);
  }

  /** The loop over the lines of one plane. */
  method CopyPlane(buffer: array<Byte>, offset: nat, p: Plane, lineBytes: nat, lines: nat)
    requires Holds(p, lineBytes, lines) && offset + lineBytes * lines <= buffer.Length
    modifies buffer
    ensures buffer[offset..offset + lineBytes * lines] == Picture(p, lineBytes, lines)
    ensures buffer[..offset] == old(buffer[..offset])
    ensures buffer[offset + lineBytes * lines..] == old(buffer[offset + lineBytes * lines..])
  {
    hide Picture, Holds, CopiedTo;
    ghost var before := buffer[..];
    var dst, src := offset, 0;
    NoPicture(p, lineBytes);
    NothingCopied(before, offset);
    var y := 0;
    while y < lines
      invariant y <= lines && dst == offset + lineBytes * y && src == y * p.lineSize
      invariant Holds(p, lineBytes, y) && CopiedTo(before, buffer[..], offset, dst, Picture(p, lineBytes, y))
    {
      LinesLeft(p, lineBytes, lines, y);
      CopyNextLine(buffer, dst, p, src, lineBytes, y, before, offset);
      dst := dst + lineBytes;
      src := src + p.lineSize;
      y := y + 1;
    }
    AllCopied(before, buffer[..], offset, dst, Picture(p, lineBytes, lines));
  }

  /** The line that the source pointer is at. */
  method CopyNextLine(buffer: array<Byte>, dst: nat, p: Plane, src: nat, lineBytes: nat,
                      ghost y: nat, ghost before: seq<Byte>, ghost offset: nat)
    requires Holds(p, lineBytes, y) && Holds(p, lineBytes, y + 1) && src == y * p.lineSize
    requires dst + lineBytes <= buffer.Length
    requires CopiedTo(before, buffer[..], offset, dst, Picture(p, lineBytes, y))
    modifies buffer
    ensures CopiedTo(before, buffer[..], offset, dst + lineBytes, Picture(p, lineBytes, y + 1))
  {
    hide Picture, Holds, CopiedTo;
    PictureStep(p, lineBytes, y + 1);
    ghost var was := buffer[..];
    CopyLine(buffer, dst, p.data[src..src + lineBytes]);
    LineIsCopied(before, was, buffer[..], offset, dst, Picture(p, lineBytes, y), p.data[src..src + lineBytes]);
  }

  /** The bytes from offset to dst are these, all others what they were before. */
  ghost predicate CopiedTo(before: seq<Byte>, now: seq<Byte>, offset: nat, dst: nat, done: seq<Byte>) {
    && offset <= dst <= |now| == |before| && now[offset..dst] == done
    && now[..offset] == before[..offset] && now[dst..] == before[dst..]
  }

  lemma NothingCopied(before: seq<Byte>, offset: nat)
    requires offset <= |before|
    ensures CopiedTo(before, before, offset, offset, [])
  {
  }

  lemma AllCopied(before: seq<Byte>, now: seq<Byte>, offset: nat, dst: nat, done: seq<Byte>)
    requires CopiedTo(before, now, offset, dst, done)
    ensures offset <= dst <= |now| == |before| && now[offset..dst] == done
    ensures now[..offset] == before[..offset] && now[dst..] == before[dst..]
  {
  }

  lemma LinesLeft(p: Plane, lineBytes: nat, lines: nat, y: nat)
    requires Holds(p, lineBytes, lines) && y < lines
    ensures Holds(p, lineBytes, y + 1)
    ensures lineBytes * (y + 1) == lineBytes * y + lineBytes <= lineBytes * lines
    ensures (y + 1) * p.lineSize == y * p.lineSize + p.lineSize
  {
    Between(y, lines - 1, p.lineSize);
    Between(y + 1, lines, lineBytes);
    assert (y + 1) * lineBytes == y * lineBytes + lineBytes;
  }

  lemma LineIsCopied(before: seq<Byte>, was: seq<Byte>, now: seq<Byte>, offset: nat, dst: nat,
                     done: seq<Byte>, line: seq<Byte>)
    requires CopiedTo(before, was, offset, dst, done) && dst + |line| <= |was|
    requires now == was[..dst] + line + was[dst + |line|..]
    ensures CopiedTo(before, now, offset, dst + |line|, done + line)
  {
    assert now[offset..dst + |line|] == was[offset..dst] + line;
    assert now[..offset] == was[..dst][..offset] == was[..offset];
    assert now[dst + |line|..] == was[dst + |line|..] == was[dst..][|line|..];
  }

  /** memcpy */
  method CopyLine(buffer: array<Byte>, at: nat, line: seq<Byte>)
    requires at + |line| <= buffer.Length
    modifies buffer
    ensures buffer[..] == old(buffer[..at]) + line + old(buffer[at + |line|..])
  {
    forall k | 0 <= k < |line| {
      buffer[at + k] := line[k];
    }
  }

  /** The frame as the library hands it over. */
  ghost predicate ValidFrame(l: Layout, frame: seq<Plane>) {
    && l.Valid() && |frame| == l.nrPlanes && FitsBuffer(l)
    && forall p :: 0 <= p < l.nrPlanes ==> Holds(frame[p], l.LineBytes(p), l.Lines(p))
  }

  /** All planes, into the given buffer or, if that is too small, a new one. */
  method CopyCurImageToBuffer(l: Layout, frame: seq<Plane>, given: array<Byte>) returns (buffer: array<Byte>)
    requires ValidFrame(l, frame)
    modifies given
    ensures buffer == given || fresh(buffer)
    ensures buffer.Length >= l.TotalBytes()
    ensures PlacedUpTo(l, buffer[..], frame, l.nrPlanes)
    ensures buffer == given ==> buffer[l.TotalBytes()..] == old(given[l.TotalBytes()..])
  {
    buffer := given;
    if buffer.Length < l.TotalBytes() {
      buffer := new Byte[l.TotalBytes()];
    }
    ghost var before := buffer[..];
    var plane := 0;
    while plane < l.nrPlanes
      invariant plane <= l.nrPlanes
      invariant PlacedUpTo(l, buffer[..], frame, plane)
      invariant buffer[l.TotalBytes()..] == before[l.TotalBytes()..]
    {
      hide PlacedUpTo, Holds, Picture;
      ghost var was := buffer[..];
      PlanesLieApart(l, plane, plane + 1);
      PlaneEnds(l, plane);
      CopyPlane(buffer, l.Offset(plane), frame[plane], l.LineBytes(plane), l.Lines(plane));
      PlacedStep(l, was, buffer[..], frame, plane);
      plane := plane + 1;
    }
  }

  ghost predicate PlacedUpTo(l: Layout, buffer: seq<Byte>, frame: seq<Plane>, n: nat)
    requires ValidFrame(l, frame) && n <= l.nrPlanes
  {
    forall p :: 0 <= p < n ==> Placed(l, buffer, frame, p)
  }

  /** Copying a plane leaves the planes before it alone. */
  lemma PlacedStep(l: Layout, was: seq<Byte>, now: seq<Byte>, frame: seq<Plane>, n: nat)
    requires ValidFrame(l, frame) && n < l.nrPlanes && PlacedUpTo(l, was, frame, n)
    requires |was| == |now| && l.Offset(n) + l.PlaneBytes(n) <= l.TotalBytes() <= |now|
    requires now[..l.Offset(n)] == was[..l.Offset(n)]
    requires now[l.Offset(n)..l.Offset(n) + l.PlaneBytes(n)] == Picture(frame[n], l.LineBytes(n), l.Lines(n))
    ensures PlacedUpTo(l, now, frame, n + 1)
  {
    hide Picture, Holds;
    forall p | 0 <= p < n
      ensures Placed(l, now, frame, p)
    {
      assert Placed(l, was, frame, p);
      PlanesLieApart(l, p, n);
      SliceOfPrefix(was, now, l.Offset(p), l.Offset(p) + l.PlaneBytes(p), l.Offset(n));
    }
  }

  lemma SliceOfPrefix(a: seq<Byte>, b: seq<Byte>, i: nat, j: nat, n: nat)
    requires i <= j <= n <= |a| && n <= |b| && a[..n] == b[..n]
    ensures a[i..j] == b[i..j]
  {
    assert a[i..j] == a[..n][i..j] && b[i..j] == b[..n][i..j];
  }

  ghost predicate Placed(l: Layout, buffer: seq<Byte>, frame: seq<Plane>, p: nat)
    requires ValidFrame(l, frame) && p < l.nrPlanes
  {
    && l.Offset(p) + l.PlaneBytes(p) <= l.TotalBytes() <= |buffer|
    && buffer[l.Offset(p)..l.Offset(p) + l.PlaneBytes(p)] == Picture(frame[p], l.LineBytes(p), l.Lines(p))
  }

  /** Byte i of sample (x, y) of a plane that is w samples wide, and in the library's memory. */
  function InPlane(x: nat, y: nat, w: nat, sampleBytes: nat, i: nat): nat {
    (y * w + x) * sampleBytes + i
  }

  function InMemory(x: nat, y: nat, lineSize: nat, sampleBytes: nat, i: nat): nat {
    y * lineSize + (x * sampleBytes + i)
  }

  /** Every sample of the picture is where a viewer looks for it: behind the planes before, line by line
      without gaps, with the bytes that the library has for that column and line. */
  lemma SampleAt(l: Layout, buffer: seq<Byte>, frame: seq<Plane>, p: nat, w: nat, h: nat, x: nat, y: nat, i: nat)
    requires ValidFrame(l, frame) && p < l.nrPlanes && Placed(l, buffer, frame, p)
    requires w == if p == 0 then l.width else l.width / l.subHor
    requires h == if p == 0 then l.height else l.height / l.subVer
    requires x < w && y < h && i < l.sampleBytes
    ensures var at := l.Offset(p) + InPlane(x, y, w, l.sampleBytes, i);
      var from := InMemory(x, y, frame[p].lineSize, l.sampleBytes, i);
      at < |buffer| && from < |frame[p].data| && buffer[at] == frame[p].data[from]
  {
    hide Picture, FitsBuffer, Holds, Layout.PlaneBytes, Layout.LineBytes, Layout.Lines, Layout.Offset;
    hide InPlane, InMemory;
    var n := l.sampleBytes;
    PlaneIs(l, p, w, h);
    ByteInLine(w, x, n, i);
    InLine(x, y, w, n, i, frame[p].lineSize);
    ByteAt(buffer, l.Offset(p), frame[p], l.LineBytes(p), l.Lines(p), x * n + i, y);
  }

  lemma ByteAt(buffer: seq<Byte>, offset: nat, p: Plane, lineBytes: nat, lines: nat, x: nat, y: nat)
    requires Holds(p, lineBytes, lines) && x < lineBytes && y < lines
    requires offset + lineBytes * lines <= |buffer|
    requires buffer[offset..offset + lineBytes * lines] == Picture(p, lineBytes, lines)
    ensures var at, from := offset + (y * lineBytes + x), y * p.lineSize + x;
      at < |buffer| && from < |p.data| && buffer[at] == p.data[from]
  {
    hide Picture, Holds;
    PictureAt(p, lineBytes, lines, x, y);
    SliceAt(buffer, offset, lineBytes * lines, y * lineBytes + x);
  }

  lemma PlaneIs(l: Layout, p: nat, w: nat, h: nat)
    requires l.Valid() && w == (if p == 0 then l.width else l.width / l.subHor)
    requires h == if p == 0 then l.height else l.height / l.subVer
    ensures l.LineBytes(p) == w * l.sampleBytes && l.Lines(p) == h && l.PlaneBytes(p) == l.LineBytes(p) * l.Lines(p)
  {
  }

  lemma SliceAt(buffer: seq<Byte>, from: nat, n: nat, k: nat)
    requires from + n <= |buffer| && k < n
    ensures buffer[from..from + n][k] == buffer[from + k]
  {
  }

  lemma ByteInLine(w: nat, x: nat, n: nat, i: nat)
    requires x < w && i < n
    ensures x * n + i < w * n
  {
    Between(x + 1, w, n);
    assert (x + 1) * n == x * n + n;
  }

  lemma InLine(x: nat, y: nat, w: nat, n: nat, i: nat, lineSize: nat)
    ensures InPlane(x, y, w, n, i) == y * (w * n) + (x * n + i)
    ensures InMemory(x, y, lineSize, n, i) == y * lineSize + (x * n + i)
  {
    assert (y * w + x) * n == y * w * n + x * n;
    Associates(y, w, n);
  }

  lemma OffsetsAre(l: Layout)
    requires l.Valid()
    ensures l.Offset(0) == 0 && l.Offset(1) == l.width * l.height * l.sampleBytes
    ensures l.Offset(2) == l.Offset(1) + l.ChromaBytes()
  {
    hide Layout.ChromaBytes;
  }
}
