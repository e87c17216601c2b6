/** One call of getNextNALUnit, described over the whole file instead of over the read buffer. */
module AnnexBScan {
  import opened ByteStream
  import opened Arithmetic

  /** What stays fixed while a file is open: its bytes, the size of the read buffer, and the byte in
      memory in front of the buffer (the code may read it; C++ says nothing about its value). */
  datatype Setup = Setup(file: seq<Byte>, bufferSize: nat, before: Byte)

  /** The read window: its offset in the file, how many bytes of the buffer are valid, the position
      in the buffer (negative when a start code began in the previous window), and all bytes of
      the buffer, stale ones included. */
  datatype Window = Window(start: nat, size: nat, pos: int, buf: seq<Byte>)

  datatype Cut = Cut(unit: seq<Byte>, next: Window)

  /** The window that follows a read at offset `start` into a buffer that held `stale`. */
  function Load(s: Setup, start: nat, stale: seq<Byte>): Window
    requires start <= |s.file| && |stale| == s.bufferSize
  {
    var n := Min(s.bufferSize, |s.file| - start);
    Window(start, n, 0, s.file[start..start + n] + stale[n..])
  }

  predicate Loaded(s: Setup, w: Window) {
    && s.bufferSize >= 5
    && w.start <= |s.file|
    && w.size == Min(s.bufferSize, |s.file| - w.start)
    && |w.buf| == s.bufferSize
    && w.buf[..w.size] == s.file[w.start..w.start + w.size]
  }

  /** What holds of every window between two calls. */
  predicate Valid(s: Setup, w: Window) {
    && Loaded(s, w)
    && -3 <= w.pos <= s.bufferSize
    && 0 <= w.start + w.pos
    && (w.pos == -3 ==> w.start < |s.file| && s.file[w.start] == 1)
    && (w.size == s.bufferSize && w.pos > w.size - 5 ==>
          var q := w.start + w.pos;
          || CodeAt(s.file[..w.start + w.size], q)
          || (CodeAt(s.file[..w.start + w.size], q + 1) && s.file[q] == 0))
  }

  predicate AtEnd(s: Setup, w: Window) {
    w.size < s.bufferSize && w.pos >= w.size
  }

  /** The start of the window that holds file offset x when windows are read from `base` on. */
  function WindowAt(base: nat, size: nat, x: nat): (v: nat)
    requires base <= x && size > 0
    ensures base <= v <= x < v + size
    ensures v == base || base + size <= v
    decreases x - base
  {
    if x < base + size then base else WindowAt(base + size, size, x)
  }

  /** The buffer when the window at v is loaded, going on from w: beyond the end of the file it
      still holds the bytes of the window before. */
  function BufferAt(s: Setup, w: Window, v: nat): (b: seq<Byte>)
    requires Loaded(s, w) && v <= |s.file|
    requires v == w.start || w.start + s.bufferSize <= v
    ensures |b| == s.bufferSize
  {
    if v == w.start then w.buf else Load(s, v, s.file[v - s.bufferSize..v]).buf
  }

  /** A start code that straddles into a last window of one or two bytes goes unnoticed. */
  predicate Seen(s: Setup, base: nat, i: nat)
    requires s.bufferSize > 0 && base <= i + 2
  {
    var v := WindowAt(base, s.bufferSize, i + 2);
    i >= v || |s.file| - v > 2
  }

  /** A four-byte start code cut in the middle by a window boundary: 00 00 | 00 01. */
  predicate Halved(s: Setup, base: nat, i: nat)
    requires s.bufferSize > 0 && base <= i + 2
  {
    i + 1 == WindowAt(base, s.bufferSize, i + 2) && 0 < i <= |s.file| && s.file[i - 1] == 0
  }

  function IndexOf(b: seq<Byte>, from: nat): int {
    var j := NextCode(b, from);
    if j == |b| then -1 else j
  }

  function ByteBefore(s: Setup, b: seq<Byte>, j: nat): Byte
    requires j <= |b|
  {
    if j == 0 then s.before else b[j - 1]
  }

  function At(w: Window, p: int): Window {
    w.(pos := p)
  }

  function Zero(b: bool): seq<Byte> {
    if b then [0] else []
  }

  /** The zeros of a start code that began in the previous window. */
  function Head(w: Window): (h: seq<Byte>)
    ensures |h| == Max(-w.pos, 0)
  {
    seq(Max(-w.pos, 0), _ => 0)
  }

  /** The first byte that a call takes from the file. */
  function Low(s: Setup, w: Window): nat {
    Min(w.start + Max(w.pos, 0), |s.file|)
  }

  /** The offset the last window of the file has. */
  function LastWindow(s: Setup, w: Window): (v: nat)
    requires Loaded(s, w)
    ensures w.start <= v <= |s.file| < v + s.bufferSize
    ensures v == w.start || w.start + s.bufferSize <= v
  {
    WindowAt(w.start, s.bufferSize, |s.file|)
  }

  /** Where the position ends up in the last window when no start code is seen any more: behind the
      buffer, or at bytes that only look like a start code because stale bytes follow the file. */
  function TailPos(s: Setup, w: Window): (p: int)
    requires Valid(s, w) && w.pos <= w.size
    ensures p == s.bufferSize || -1 <= p <= |s.file| - LastWindow(s, w)
    ensures LastWindow(s, w) == w.start ==> p >= w.pos + 2 || p == s.bufferSize
  {
    var v := LastWindow(s, w);
    var b := BufferAt(s, w, v);
    var j := IndexOf(b, if v == w.start then w.pos + 3 else 0);
    if j < 0 || v + j > |s.file| then s.bufferSize
    else if ByteBefore(s, b, j) == 0 then j - 1
    else j
  }

  /** One call: the bytes it returns and the window it leaves. With the position already behind the
      valid bytes, what comes back is the rest of the buffer, and nothing once the position is at
      its end. */
  function NextCut(s: Setup, w: Window): Cut
    requires Valid(s, w)
  {
    var i := NextCode(s.file, w.start + w.pos + 3);
    if w.pos > w.size then
      Cut(w.buf[w.pos..], At(w, s.bufferSize))
    else if i < |s.file| && Seen(s, w.start, i) then
      SeenCut(s, w, i)
    else
      TailCut(s, w)
  }

  function SeenCut(s: Setup, w: Window, i: nat): Cut
    requires Valid(s, w) && w.pos <= w.size && CodeAt(s.file, i) && i >= w.start + w.pos + 3
  {
    var v := WindowAt(w.start, s.bufferSize, i + 2);
    var e := UnitStart(s.file, i);
    Cut(Head(w) + s.file[Low(s, w)..e] + Zero(Halved(s, w.start, i)),
        Window(v, Min(s.bufferSize, |s.file| - v), e - v, BufferAt(s, w, v)))
  }

  function TailCut(s: Setup, w: Window): Cut
    requires Valid(s, w) && w.pos <= w.size
  {
    var v := LastWindow(s, w);
    var p := TailPos(s, w);
    var end := if p == s.bufferSize then |s.file| else v + Max(p, 0);
    assert Low(s, w) <= end;
    Cut(Head(w) + s.file[Low(s, w)..end], Window(v, |s.file| - v, p, BufferAt(s, w, v)))
  }

  lemma SeenDecides(s: Setup, w: Window, i: nat)
    requires Valid(s, w) && w.pos <= w.size && i < |s.file|
    requires i == NextCode(s.file, w.start + w.pos + 3) && Seen(s, w.start, i)
    ensures NextCut(s, w) == SeenCut(s, w, i)
  {
    hide TailCut, SeenCut, Seen, Valid;
  }

  lemma UnseenDecides(s: Setup, w: Window, i: nat)
    requires Valid(s, w) && w.pos <= w.size
    requires i == NextCode(s.file, w.start + w.pos + 3) && i < |s.file| && !Seen(s, w.start, i)
    ensures NextCut(s, w) == TailCut(s, w)
  {
    hide TailCut, SeenCut, Seen, CodeAt, Valid;
  }

  lemma LowIsBelow(s: Setup, w: Window, i: nat)
    requires Valid(s, w) && CodeAt(s.file, i) && w.start + w.pos + 3 <= i
    ensures Low(s, w) <= UnitStart(s.file, i)
  {
  }

  lemma BufferAtIsLoaded(s: Setup, w: Window, v: nat, p: int)
    requires Loaded(s, w) && v <= |s.file|
    requires v == w.start || w.start + s.bufferSize <= v
    ensures Loaded(s, Window(v, Min(s.bufferSize, |s.file| - v), p, BufferAt(s, w, v)))
  {
  }

  lemma PosIsValid(s: Setup, w: Window, i: nat)
    requires Loaded(s, w) && CodeAt(s.file, i) && w.start <= i + 2
    requires w.pos == UnitStart(s.file, i) - w.start
    requires i + 2 < w.start + s.bufferSize
    ensures Valid(s, w)
  {
    if w.size == s.bufferSize {
      assert CodeAt(s.file[..w.start + w.size], i);
    }
  }

  /** Calls keep windows valid and make progress. */
  lemma SeenCutIsValid(s: Setup, w: Window, i: nat)
    requires Valid(s, w) && w.pos <= w.size && CodeAt(s.file, i) && i >= w.start + w.pos + 3
    ensures Valid(s, SeenCut(s, w, i).next)
    ensures w.start + w.pos < SeenCut(s, w, i).next.start + SeenCut(s, w, i).next.pos
  {
    var c := SeenCut(s, w, i).next;
    BufferAtIsLoaded(s, w, c.start, c.pos);
    PosIsValid(s, SeenCut(s, w, i).next, i);
  }

  lemma TailCutIsValid(s: Setup, w: Window)
    requires Valid(s, w) && w.pos <= w.size
    ensures Valid(s, TailCut(s, w).next)
    ensures !AtEnd(s, w) ==> w.start + w.pos < TailCut(s, w).next.start + TailCut(s, w).next.pos
  {
    hide TailPos, BufferAt, LastWindow, CodeAt, Head;
    var v, p := LastWindow(s, w), TailPos(s, w);
    BufferAtIsLoaded(s, w, v, p);
    if w.size == s.bufferSize {
      PosIsInside(s, w);
    }
  }

  lemma PosIsInside(s: Setup, w: Window)
    requires Valid(s, w) && w.size == s.bufferSize && w.pos <= w.size
    ensures w.pos <= w.size - 3
  {
  }

  lemma CutIsValid(s: Setup, w: Window)
    requires Valid(s, w)
    ensures Valid(s, NextCut(s, w).next)
    ensures !AtEnd(s, w) ==> w.start + w.pos < NextCut(s, w).next.start + NextCut(s, w).next.pos
  {
    hide TailCut, SeenCut, CodeAt, UnitStart, Seen;
    var i := NextCode(s.file, w.start + w.pos + 3);
    if w.pos > w.size {
      assert NextCut(s, w).next == At(w, s.bufferSize);
    } else if i < |s.file| && Seen(s, w.start, i) {
      SeenCutIsValid(s, w, i);
    } else {
      TailCutIsValid(s, w);
    }
  }

  /** Where the search for the first unit leaves the position. */
  function FirstCut(s: Setup, w: Window): Window
    requires Valid(s, w)
  {
    var j := IndexOf(w.buf, 0);
    if j < 0 then NextCut(s, w).next
    else if j > 0 && w.buf[j - 1] == 0 then At(w, j - 1)
    else At(w, j)
  }

  lemma FirstCutIsValid(s: Setup, w: Window)
    requires Valid(s, w)
    ensures Valid(s, FirstCut(s, w))
  {
    hide NextCut;
    CutIsValid(s, w);
    var j := IndexOf(w.buf, 0);
    if 0 <= j {
      FirstHitIsValid(s, w, j);
    }
  }

  lemma FirstHitIsValid(s: Setup, w: Window, j: nat)
    requires Valid(s, w) && j == IndexOf(w.buf, 0)
    ensures Valid(s, At(w, if j > 0 && w.buf[j - 1] == 0 then j - 1 else j))
  {
    hide NextCode;
    assert CodeAt(w.buf, j);
    if w.size == s.bufferSize {
      CodeIsInFile(s, w, j);
    }
  }

  lemma CodeIsInFile(s: Setup, w: Window, j: nat)
    requires Loaded(s, w) && w.size == s.bufferSize && CodeAt(w.buf, j)
    ensures CodeAt(s.file[..w.start + w.size], w.start + j)
    ensures j > 0 ==> s.file[w.start + j - 1] == w.buf[j - 1]
  {
    var f := s.file[..w.start + w.size];
    assert w.buf == w.buf[..w.size] == f[w.start..];
  }

  /** All units that repeated calls return while the position is in front of `end`. */
  function RunTo(s: Setup, w: Window, end: nat): seq<seq<Byte>>
    requires Valid(s, w) && end <= |s.file|
    decreases |s.file| - (w.start + w.pos)
  {
    if w.start + w.pos >= end then []
    else
      CutIsValid(s, w);
      [NextCut(s, w).unit] + RunTo(s, NextCut(s, w).next, end)
  }

  /** Reading on until the end of the file is reading up to its last byte. */
  lemma AtEndIsBehindFile(s: Setup, w: Window)
    requires Valid(s, w)
    ensures AtEnd(s, w) <==> w.start + w.pos >= |s.file|
  {
  }
}
