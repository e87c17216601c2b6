/** The last piece of a run, in terms of the file and the alignment of the windows alone: where it
    ends, and where it leaves the reader. */
module AnnexBTail {
  import opened ByteStream
  import opened Arithmetic
  import opened AnnexBScan
  import opened AnnexBRuns

  /** Where bytes behind the n valid ones of the last buffer complete a start code; -1 if nowhere. */
  function StaleIndex(b: seq<Byte>, n: nat): int {
    if CodeAt(b, n - 2) then n - 2
    else if CodeAt(b, n - 1) then n - 1
    else if CodeAt(b, n) then n
    else -1
  }

  function LastOffset(s: Setup, base: nat): nat
    requires s.bufferSize > 0 && base <= |s.file|
  {
    WindowAt(base, s.bufferSize, |s.file|)
  }

  /** The file position the reader is left at when no start code is seen any more; the end of the
      file also stands for any position behind it. */
  function TailStop(s: Setup, base: nat, g: seq<Byte>): int
    requires |g| == s.bufferSize > 0 && base <= |s.file|
  {
    var v := LastOffset(s, base);
    StopOf(s, BufferFrom(s, base, g, v), v)
  }

  function StopOf(s: Setup, b: seq<Byte>, v: nat): int
    requires v <= |s.file| && |s.file| - v <= |b|
  {
    var k := StaleIndex(b, |s.file| - v);
    if k < 0 then |s.file| else v + (if ByteBefore(s, b, k) == 0 then k - 1 else k)
  }

  /** The end of the last piece. */
  function LastEnd(s: Setup, base: nat, g: seq<Byte>): int
    requires |g| == s.bufferSize > 0 && base <= |s.file|
  {
    Max(TailStop(s, base, g), LastOffset(s, base))
  }

  lemma StopIsClean(s: Setup, base: nat, g: seq<Byte>)
    requires |g| == s.bufferSize > 0 && base <= |s.file|
    ensures TailIsClean(s, base, g) <==> TailStop(s, base, g) == |s.file|
    ensures TailStop(s, base, g) <= LastEnd(s, base, g) <= |s.file|
    ensures LastEnd(s, base, g) == |s.file| <==> TailIsClean(s, base, g) || LastOffset(s, base) == |s.file|
  {
    hide BufferFrom, ByteBefore, WindowAt;
  }

  /** The stale start code is the one the search finds. */
  lemma StaleIndexIs(b: seq<Byte>, n: nat, j: int)
    requires 0 <= j <= n ==> StaleCode(b, n, j)
    requires forall k :: StaleCode(b, n, k) ==> j == k
    ensures StaleIndex(b, n) == if 0 <= j <= n then j else -1
  {
    assert CodeAt(b, n - 2) ==> StaleCode(b, n, n - 2);
    assert CodeAt(b, n - 1) ==> StaleCode(b, n, n - 1);
    assert CodeAt(b, n) ==> StaleCode(b, n, n);
  }

  lemma TailPosIsStop(s: Setup, base: nat, g: seq<Byte>, w: Window, q: nat)
    requires Stands(s, base, g, w, q) && NoMore(s, base, q)
    requires |g| == s.bufferSize > 0 && base <= |s.file|
    ensures Valid(s, w) && w.pos <= w.size && LastWindow(s, w) == LastOffset(s, base)
    ensures TailStop(s, base, g)
         == if TailPos(s, w) == s.bufferSize then |s.file| else LastOffset(s, base) + TailPos(s, w)
  {
    hide Stands, Aligned, NoMore, BufferFrom, BufferAt, Valid, CodeAt, IndexOf, StaleIndex, WindowAt, ByteBefore;
    StandsFacts(s, base, g, w, q);
    LastFromBase(s, base, g, w, q);
    var v := LastWindow(s, w);
    var b, n := BufferAt(s, w, v), |s.file| - v;
    var j := IndexOf(b, if v == w.start then w.pos + 3 else 0);
    TailIndex(s, base, g, w, q, b, n, j);
    StaleIndexIs(b, n, j);
  }

  /** A call that sees no start code ends its piece at LastEnd and leaves the reader at TailStop, or
      behind the end of the file. */
  lemma LastPiece(s: Setup, base: nat, g: seq<Byte>, w: Window, q: nat)
    requires Stands(s, base, g, w, q) && NoMore(s, base, q)
    requires |g| == s.bufferSize > 0 && base <= |s.file|
    ensures Valid(s, w) && q <= LastEnd(s, base, g) <= |s.file|
    ensures NextCut(s, w).unit == s.file[q..LastEnd(s, base, g)]
    ensures var w1 := NextCut(s, w).next;
      if TailStop(s, base, g) == |s.file| then w1.start + w1.pos >= |s.file|
      else w1.start + w1.pos == TailStop(s, base, g) < |s.file|
  {
    hide Stands, NoMore, Valid, TailPos, LastWindow, TailStop, LastOffset, NextCut, TailCut;
    TailStep(s, base, g, w, q);
    TailPosIsStop(s, base, g, w, q);
    TailNext(s, w);
    TailCutStarts(s, w);
  }

  lemma TailCutStarts(s: Setup, w: Window)
    requires Valid(s, w) && w.pos <= w.size
    ensures TailCut(s, w).next.start == LastWindow(s, w) && TailCut(s, w).next.pos == TailPos(s, w)
    ensures TailPos(s, w) == s.bufferSize || TailPos(s, w) <= |s.file| - LastWindow(s, w) < s.bufferSize
  {
    hide Valid, TailPos, LastWindow;
  }

  /** What is left in front of a stale start code does not begin with one. */
  lemma SecondPiece(s: Setup, base: nat, g: seq<Byte>, w: Window, q: nat)
    requires Stands(s, base, g, w, q) && NoMore(s, base, q)
    requires |g| == s.bufferSize > 0 && base <= |s.file| && TailStop(s, base, g) < |s.file|
    ensures Valid(s, w) && Valid(s, NextCut(s, w).next) && !Begins(NextCut(s, NextCut(s, w).next).unit)
  {
    hide Stands, NoMore, Valid, TailPos, LastWindow, NextCut, TailCut, StopOf, Begins;
    TailStep(s, base, g, w, q);
    TailPosIsStop(s, base, g, w, q);
    TailCutStarts(s, w);
    TailNext(s, w);
    CutIsValid(s, w);
    SecondTail(s, base, g, w, q);
    RestIsShort(s, base, g);
  }

  lemma RestIsShort(s: Setup, base: nat, g: seq<Byte>)
    requires |g| == s.bufferSize > 0 && base <= |s.file| && TailStop(s, base, g) < |s.file|
    ensures 0 <= LastEnd(s, base, g) <= |s.file|
    ensures !Begins(Zero(TailStop(s, base, g) < LastOffset(s, base)) + s.file[LastEnd(s, base, g)..])
  {
    hide WindowAt, BufferFrom, Begins, Zero;
    var v := LastOffset(s, base);
    var b, n := BufferFrom(s, base, g, v), |s.file| - v;
    LastBytes(s, base, g, v, b);
    ShortRest(s, b, v, n);
  }

  lemma LastBytes(s: Setup, base: nat, g: seq<Byte>, v: nat, b: seq<Byte>)
    requires |g| == s.bufferSize > 0 && base <= |s.file| && v == LastOffset(s, base)
    requires b == BufferFrom(s, base, g, v)
    ensures |b| == s.bufferSize && b[..|s.file| - v] == s.file[v..]
  {
    forall j: nat | v + j < |s.file|
      ensures b[j] == s.file[v + j]
    {
      LastBufferHoldsFile(s, base, g, v, j);
    }
  }

  lemma ShortRest(s: Setup, b: seq<Byte>, v: nat, n: nat)
    requires v + n == |s.file| && n < |b| && b[..n] == s.file[v..] && StopOf(s, b, v) < |s.file|
    ensures var p := StopOf(s, b, v);
      0 <= Max(p, v) <= |s.file| && !Begins(Zero(p < v) + s.file[Max(p, v)..])
  {
    var k, p := StaleIndex(b, n), StopOf(s, b, v);
    var rest := Zero(p < v) + s.file[Max(p, v)..];
    assert s.file[Max(p, v)..] == b[..n][Max(p, v) - v..];
    assert |rest| <= 3;
    if |rest| == 3 {
      assert rest[2] == 0;
    }
  }

  lemma CodesAhead(f: seq<Byte>, q: nat)
    requires NextCode(f, q + 3) < |f|
    ensures var i, e := NextCode(f, q + 3), NextStart(f, q);
      CodeAt(f, i) && q + 3 <= i && q + 2 <= e <= i <= e + 1 && UnitStart(f, i) == e < |f|
  {
  }

  /** A piece that runs over a hidden start code takes at least the code's first byte in the last
      window, and reaches behind the zeros in front of it. */
  lemma HiddenIsLonger(s: Setup, base: nat, g: seq<Byte>, w: Window, q: nat)
    requires Stands(s, base, g, w, q) && NoMore(s, base, q) && NextCode(s.file, q + 3) < |s.file|
    requires |g| == s.bufferSize > 0 && base <= |s.file|
    ensures NextCode(s.file, q + 3) < LastEnd(s, base, g)
    ensures q + 2 <= NextStart(s.file, q) < LastEnd(s, base, g)
  {
    hide Stands, BufferFrom, TailStop, WindowAt;
    StandsFacts(s, base, g, w, q);
    BaseFacts(s, base, g, w, q);
    UnseenIsInLast(s, base, NextCode(s.file, q + 3));
    CodesAhead(s.file, q);
  }
}
