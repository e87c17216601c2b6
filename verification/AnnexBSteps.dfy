/** The search loop of getNextNALUnit, window by window: what has been ruled out when a window is
    reached, and what a hit in a window or on a window boundary means for the whole file. */
module AnnexBSteps {
  import opened ByteStream
  import opened Arithmetic
  import opened AnnexBScan
  import opened ByteArrays

  /** No start code ends before v, and the codes that touch v are ones the code cannot see. */
  ghost predicate Passed(s: Setup, w0: Window, v: nat)
    requires s.bufferSize > 0
  {
    && w0.start + s.bufferSize <= v
    && (forall i :: w0.start + w0.pos + 3 <= i && i + 2 < v ==> !CodeAt(s.file, i))
    && (forall i :: v - 2 <= i <= v && CodeAt(s.file, i) ==> |s.file| - v <= 2)
    && (forall x :: v <= x ==> WindowAt(w0.start, s.bufferSize, x) == WindowAt(v, s.bufferSize, x))
  }

  /** The search that began at w0 goes on in w. */
  ghost predicate Reached(s: Setup, w0: Window, w: Window) {
    && Valid(s, w0)
    && w0.pos <= w0.size
    && Loaded(s, w)
    && (w == w0 ||
        (Passed(s, w0, w.start) && w.pos == 0 && w.buf == BufferAt(s, w0, w.start)))
  }

  ghost function From(w0: Window, w: Window): int {
    if w == w0 then w0.pos + 3 else 0
  }

  ghost predicate NoHit(s: Setup, w0: Window, w: Window) {
    forall j :: From(w0, w) <= j && j + 3 <= w.size ==> !CodeAt(w.buf, j)
  }

  lemma CodeInBuffer(s: Setup, w: Window, i: nat)
    requires Loaded(s, w) && w.start <= i && i + 3 <= w.start + w.size
    ensures CodeAt(s.file, i) <==> CodeAt(w.buf, i - w.start)
  {
    var f, b := s.file[w.start..w.start + w.size], w.buf[..w.size];
    var j := i - w.start;
    assert b[j] == f[j] && b[j + 1] == f[j + 1] && b[j + 2] == f[j + 2];
  }

  /** Nothing found in a full window: no start code ends in it. */
  lemma NothingEndsHere(s: Setup, w0: Window, w: Window)
    requires Reached(s, w0, w) && NoHit(s, w0, w)
    requires w != w0 ==> |s.file| - w.start > 2
    ensures forall i :: w0.start + w0.pos + 3 <= i && i + 2 < w.start + w.size ==> !CodeAt(s.file, i)
  {
    forall i | w0.start + w0.pos + 3 <= i && i + 2 < w.start + w.size
      ensures !CodeAt(s.file, i)
    {
      if i >= w.start {
        CodeInBuffer(s, w, i);
      }
    }
  }

  lemma BufferOfNext(s: Setup, w0: Window, w: Window)
    requires Reached(s, w0, w) && w.size == s.bufferSize
    ensures w.start + s.bufferSize <= |s.file|
    ensures BufferAt(s, w0, w.start + s.bufferSize) == Load(s, w.start + s.bufferSize, w.buf).buf
  {
    assert w.buf == w.buf[..w.size] == s.file[w.start..w.start + s.bufferSize];
  }

  lemma WindowsOfNext(s: Setup, w0: Window, w: Window, x: nat)
    requires Reached(s, w0, w) && w.start + s.bufferSize <= x
    ensures WindowAt(w0.start, s.bufferSize, x) == WindowAt(w.start + s.bufferSize, s.bufferSize, x)
  {
    assert WindowAt(w0.start, s.bufferSize, x) == WindowAt(w.start, s.bufferSize, x);
  }

  /** The search moves to the next window when the boundary shows no start code either. */
  lemma GoesOn(s: Setup, w0: Window, w: Window)
    requires Reached(s, w0, w) && NoHit(s, w0, w) && w.size == s.bufferSize
    requires var v := w.start + s.bufferSize;
      forall i :: v - 2 <= i <= v && CodeAt(s.file, i) ==> |s.file| - v <= 2
    ensures w.start + s.bufferSize <= |s.file|
    ensures Reached(s, w0, Load(s, w.start + s.bufferSize, w.buf))
  {
    hide Passed, NoHit, BufferAt, Reached, Loaded, Valid, CodeAt;
    var v := w.start + s.bufferSize;
    ReachedFacts(s, w0, w);
    BufferOfNext(s, w0, w);
    PassesOn(s, w0, w);
    LoadIsLoaded(s, v, w.buf);
    ReachedNext(s, w0, Load(s, v, w.buf));
  }

  lemma PassesOn(s: Setup, w0: Window, w: Window)
    requires Reached(s, w0, w) && NoHit(s, w0, w) && w.size == s.bufferSize > 0
    requires var v := w.start + s.bufferSize;
      forall i :: v - 2 <= i <= v && CodeAt(s.file, i) ==> |s.file| - v <= 2
    ensures Passed(s, w0, w.start + s.bufferSize)
  {
    hide NoHit, BufferAt, Reached, Loaded, Valid, CodeAt, WindowAt;
    var v := w.start + s.bufferSize;
    ReachedFacts(s, w0, w);
    NothingEndsHere(s, w0, w);
    forall x | v <= x
      ensures WindowAt(w0.start, s.bufferSize, x) == WindowAt(v, s.bufferSize, x)
    {
      WindowsOfNext(s, w0, w, x);
    }
  }

  lemma LoadIsLoaded(s: Setup, v: nat, stale: seq<Byte>)
    requires s.bufferSize >= 5 && v <= |s.file| && |stale| == s.bufferSize
    ensures Loaded(s, Load(s, v, stale))
  {
  }

  lemma ReachedNext(s: Setup, w0: Window, c: Window)
    requires Valid(s, w0) && w0.pos <= w0.size && Loaded(s, c) && w0.start + s.bufferSize <= c.start
    requires Passed(s, w0, c.start) && c.pos == 0 && c.buf == BufferAt(s, w0, c.start)
    ensures Reached(s, w0, c)
  {
    hide Valid, Loaded, Passed, BufferAt;
  }

  /** The next start code of the file, once known, decides the call. */
  lemma CutAt(s: Setup, w0: Window, w: Window, i: nat)
    requires Valid(s, w0) && w0.pos <= w0.size && CodeAt(s.file, i)
    requires w.size == Min(s.bufferSize, |s.file| - w.start)
    requires w0.start + w0.pos + 3 <= i && NextCode(s.file, w0.start + w0.pos + 3) == i
    requires WindowAt(w0.start, s.bufferSize, i + 2) == w.start && (i >= w.start || |s.file| - w.start > 2)
    requires w.buf == BufferAt(s, w0, w.start)
    ensures var e := UnitStart(s.file, i);
      && Low(s, w0) <= e
      && NextCut(s, w0) == Cut(
           Head(w0) + s.file[Low(s, w0)..e] + Zero(i == w.start - 1 && i > 0 && s.file[i - 1] == 0),
           At(w, e - w.start))
  {
    hide TailCut, Head, Low, Valid, BufferAt, Load, NextCode;
    LowIsBelow(s, w0, i);
    assert NextCut(s, w0) == SeenCut(s, w0, i);
  }

  /** A hit inside the valid bytes of a window is the next start code of the file. */
  lemma HitIsNextCode(s: Setup, w0: Window, w: Window, j: nat)
    requires Reached(s, w0, w)
    requires From(w0, w) <= j && j + 3 <= w.size && CodeAt(w.buf, j)
    requires forall k :: From(w0, w) <= k < j ==> !CodeAt(w.buf, k)
    ensures CodeAt(s.file, w.start + j)
    ensures NextCode(s.file, w0.start + w0.pos + 3) == w.start + j
  {
    hide Reached, Loaded, CodeAt, Valid;
    ReachedFacts(s, w0, w);
    NothingBefore(s, w0, w);
    if w != w0 {
      UnitIsBefore(s, w0, w);
    }
    var i := w.start + j;
    CodeInBuffer(s, w, i);
    forall k | w0.start + w0.pos + 3 <= k < i
      ensures !CodeAt(s.file, k)
    {
      if k >= w.start {
        CodeInBuffer(s, w, k);
      }
    }
    NextCodeIs(s.file, w0.start + w0.pos + 3, i);
  }

  lemma ReachedFacts(s: Setup, w0: Window, w: Window)
    requires Reached(s, w0, w)
    ensures Valid(s, w0) && w0.pos <= w0.size && Loaded(s, w) && w0.start + w0.pos >= 0 && |w.buf| == s.bufferSize >= 5
    ensures w.start <= |s.file| && w.size == Min(s.bufferSize, |s.file| - w.start)
    ensures w == w0 || (w0.start + s.bufferSize <= w.start && w.pos == 0)
    ensures w0.start <= w.start && w.buf == BufferAt(s, w0, w.start)
  {
    hide CodeAt, WindowAt;
  }

  /** The code the current unit began with lies in front of the window that was reached. */
  lemma UnitIsBefore(s: Setup, w0: Window, w: Window)
    requires Reached(s, w0, w) && w != w0
    ensures w0.start + w0.pos + 3 <= w.start
  {
    hide WindowAt, BufferAt;
  }

  /** No start code lies in front of the window that was reached, if it holds three bytes. */
  lemma NothingBefore(s: Setup, w0: Window, w: Window)
    requires Reached(s, w0, w) && w.size > 2
    ensures w0.start + w0.pos >= 0
    ensures forall i :: w0.start + w0.pos + 3 <= i < w.start ==> !CodeAt(s.file, i)
  {
    hide CodeAt, BufferAt;
  }

  lemma ByteInBuffer(s: Setup, w: Window, j: nat)
    requires Loaded(s, w) && j < w.size
    ensures w.start + j < |s.file| && w.buf[j] == s.file[w.start + j]
  {
    assert w.buf[..w.size][j] == s.file[w.start..w.start + w.size][j];
  }

  lemma HitInWindow(s: Setup, w0: Window, w: Window, j: nat)
    requires Reached(s, w0, w)
    requires From(w0, w) <= j && j + 3 <= w.size && CodeAt(w.buf, j)
    requires forall k :: From(w0, w) <= k < j ==> !CodeAt(w.buf, k)
    ensures j > 0
    ensures var e := w.start + (if w.buf[j - 1] == 0 then j - 1 else j);
      && Low(s, w0) <= e <= |s.file|
      && NextCut(s, w0) == Cut(Head(w0) + s.file[Low(s, w0)..e], At(w, e - w.start))
  {
    hide Reached, Head, Loaded, CodeAt, NextCut, BufferAt, Valid;
    var i := w.start + j;
    HitIsNextCode(s, w0, w, j);
    HitIsInside(s, w0, w, j);
    CutAt(s, w0, w, i);
    assert UnitStart(s.file, i) == w.start + (if w.buf[j - 1] == 0 then j - 1 else j);
  }

  lemma HitIsInside(s: Setup, w0: Window, w: Window, j: nat)
    requires Reached(s, w0, w) && From(w0, w) <= j && j + 3 <= w.size && CodeAt(s.file, w.start + j)
    ensures j > 0 && s.file[w.start + j - 1] == w.buf[j - 1]
    ensures WindowAt(w0.start, s.bufferSize, w.start + j + 2) == w.start
    ensures w.size == Min(s.bufferSize, |s.file| - w.start) && Valid(s, w0) && w0.pos <= w0.size
    ensures w.buf == BufferAt(s, w0, w.start)
    ensures w0.start + w0.pos + 3 <= w.start + j
  {
    assert j > 0;
    ByteInBuffer(s, w, j - 1);
  }

  /** No hit inside the valid bytes of the last window: the call ends as TailCut says. */
  lemma EndsHere(s: Setup, w0: Window, w: Window)
    requires Reached(s, w0, w) && NoHit(s, w0, w) && w.size < s.bufferSize
    ensures NextCut(s, w0) == TailCut(s, w0)
    ensures LastWindow(s, w0) == w.start && BufferAt(s, w0, w.start) == w.buf
    ensures From(w0, w) == if w.start == w0.start then w0.pos + 3 else 0
  {
    hide TailCut, SeenCut, BufferAt, Loaded, CodeAt, UnitStart;
    ReachedFacts(s, w0, w);
    assert WindowAt(w0.start, s.bufferSize, |s.file|) == w.start;
    var i := NextCode(s.file, w0.start + w0.pos + 3);
    if w.start <= i < |s.file| {
      EndsInFile(s.file, i);
      CodeInBuffer(s, w, i);
    }
  }

  /** A start code whose last byte is among the first three of the next window. */
  lemma HitOnBoundary(s: Setup, w0: Window, w: Window, i: nat)
    requires Reached(s, w0, w) && NoHit(s, w0, w) && w.size == s.bufferSize
    requires w.start + s.bufferSize - 2 <= i <= w.start + s.bufferSize
    requires CodeAt(s.file, i) && |s.file| - (w.start + s.bufferSize) > 2
    ensures var v := w.start + s.bufferSize;
      var e := UnitStart(s.file, i);
      && Low(s, w0) <= e
      && NextCut(s, w0) == Cut(
           Head(w0) + s.file[Low(s, w0)..e] + Zero(i == v - 1 && s.file[i - 1] == 0),
           At(Load(s, v, w.buf), e - v))
  {
    hide Reached, NoHit, Head, Loaded, NextCut, BufferAt, Valid;
    BoundaryIsNextCode(s, w0, w, i);
    CutAt(s, w0, Load(s, w.start + s.bufferSize, w.buf), i);
  }

  lemma BoundaryIsNextCode(s: Setup, w0: Window, w: Window, i: nat)
    requires Reached(s, w0, w) && NoHit(s, w0, w) && w.size == s.bufferSize
    requires w.start + s.bufferSize - 2 <= i <= w.start + s.bufferSize
    requires CodeAt(s.file, i) && |s.file| - (w.start + s.bufferSize) > 2
    ensures Valid(s, w0) && w0.pos <= w0.size && |w.buf| == s.bufferSize
    ensures w0.start + w0.pos + 3 <= i && NextCode(s.file, w0.start + w0.pos + 3) == i
    ensures WindowAt(w0.start, s.bufferSize, i + 2) == w.start + s.bufferSize
    ensures BufferAt(s, w0, w.start + s.bufferSize) == Load(s, w.start + s.bufferSize, w.buf).buf
  {
    hide Passed, NoHit, BufferAt, Reached, Loaded, Valid, Load, WindowAt;
    ReachedFacts(s, w0, w);
    StartsLater(s, w0, w, i);
    NothingEndsHere(s, w0, w);
    NextCodeIs(s.file, w0.start + w0.pos + 3, i);
    WindowsOfNext(s, w0, w, i + 2);
    BufferOfNext(s, w0, w);
  }

  /** It is not the start code the current unit began with. */
  lemma StartsLater(s: Setup, w0: Window, w: Window, i: nat)
    requires Reached(s, w0, w) && w.size == s.bufferSize
    requires w.start + s.bufferSize - 2 <= i && CodeAt(s.file, i)
    ensures w0.start + w0.pos + 3 <= i
  {
    var q := w0.start + w0.pos;
    if w == w0 && w0.pos > w0.size - 5 {
      if CodeAt(s.file[..w0.start + w0.size], q) {
        assert s.file[q + 2] == 1;
      } else {
        assert s.file[q + 3] == 1;
      }
    }
  }

  /** What has been collected while the search is in window w: nothing yet in the first one, all
      bytes up to the window later. */
  ghost predicate Searching(s: Setup, w0: Window, w: Window, offset: int, ret: seq<Byte>) {
    && Valid(s, w0)
    && (w0.pos > w0.size ==> w == w0)
    && (w0.pos <= w0.size ==> Reached(s, w0, w))
    && offset == (if w == w0 then 3 else 0)
    && ret == (if w == w0 then [] else Head(w0) + s.file[Low(s, w0)..Min(w.start, |s.file|)])
  }

  /** The search has ended with the position `next` in w, and `ret` lacks only the bytes up to it. */
  ghost predicate Found(s: Setup, w0: Window, w: Window, next: int, ret: seq<Byte>) {
    && Valid(s, w0)
    && next != s.bufferSize
    && NextCut(s, w0) == Cut(UpTo(w, next, ret), At(w, next))
  }

  lemma FoundCut(s: Setup, w0: Window, w: Window, next: int, ret: seq<Byte>)
    requires Found(s, w0, w, next, ret)
    ensures Valid(s, w0) && next != s.bufferSize
    ensures NextCut(s, w0) == Cut(UpTo(w, next, ret), At(w, next))
  {
  }

  function UpTo(w: Window, next: int, ret: seq<Byte>): seq<Byte> {
    if next > w.pos then ret + Mid(w.buf, w.pos, next - w.pos) else ret
  }

  function WithHead(w: Window, ret: seq<Byte>): seq<Byte> {
    if w.pos < 0 then ret + seq(-w.pos, _ => 0) else ret
  }

  ghost predicate Missed(w: Window, offset: int)
    requires w.pos + offset >= 0
  {
    var j := IndexOf(w.buf, w.pos + offset);
    j < 0 || j > w.size
  }

  lemma MidIsFile(s: Setup, w: Window, p: int)
    requires Loaded(s, w) && w.pos <= p <= w.size && w.pos <= w.size
    ensures w.start + Max(p, 0) <= |s.file|
    ensures Mid(w.buf, w.pos, p - w.pos) == s.file[w.start + Max(w.pos, 0)..w.start + Max(p, 0)]
  {
    hide Loaded;
    LoadedFacts(s, w);
    var a, b := Max(w.pos, 0), Max(p, 0);
    assert Mid(w.buf, w.pos, p - w.pos) == w.buf[a..b];
    PrefixSlice(w.buf, w.size, a, b);
    SliceOfSlice(s.file, w.start, w.size, a, b);
  }

  lemma LoadedFacts(s: Setup, w: Window)
    requires Loaded(s, w)
    ensures w.size <= |w.buf| == s.bufferSize && w.start + w.size <= |s.file| && s.bufferSize >= 5
    ensures w.buf[..w.size] == s.file[w.start..w.start + w.size]
  {
  }

  lemma PrefixSlice(f: seq<Byte>, n: nat, a: nat, b: nat)
    requires a <= b <= n <= |f|
    ensures f[..n][a..b] == f[a..b]
  {
  }

  lemma SliceOfSlice(f: seq<Byte>, i: nat, n: nat, a: nat, b: nat)
    requires i + n <= |f| && a <= b <= n
    ensures f[i..i + n][a..b] == f[i + a..i + b]
  {
    var l, r := f[i..i + n][a..b], f[i + a..i + b];
    assert forall k :: 0 <= k < b - a ==> l[k] == r[k];
  }

  lemma SearchBegins(s: Setup, w0: Window)
    requires Valid(s, w0)
    ensures Searching(s, w0, w0, 3, [])
  {
  }

  /** What a step needs to know of the search, without what it has ruled out so far. */
  lemma SearchFacts(s: Setup, w0: Window, w: Window, offset: int, ret: seq<Byte>)
    requires Searching(s, w0, w, offset, ret)
    ensures Valid(s, w0) && Loaded(s, w) && w.size <= s.bufferSize == |w.buf| && -3 <= w.pos && offset >= 0
    ensures w.start + w.size <= |s.file| && (w.size < s.bufferSize ==> w.start + w.size == |s.file|)
    ensures w == w0 || (w0.start + s.bufferSize <= w.start && w.pos == 0 && w0.pos <= w0.size)
    ensures w0.pos <= w0.size ==> Reached(s, w0, w)
    ensures w.pos > w.size ==> w == w0 && w.size < s.bufferSize
    ensures w.size == s.bufferSize ==> w.pos < w.size && w0.pos <= w0.size
    ensures w.pos + offset == From(w0, w) >= 0
  {
  }

  /** Together with the bytes up to p of its window, a search holds all bytes from where it began. */
  lemma {:induction false} Collected(s: Setup, w0: Window, w: Window, offset: int, ret: seq<Byte>, p: int)
    requires Searching(s, w0, w, offset, ret) && w0.pos <= w0.size
    requires -1 <= p <= w.size && (w == w0 ==> p >= w.pos)
    ensures Low(s, w0) <= w.start + Max(p, 0) <= |s.file|
    ensures UpTo(w, p, WithHead(w, ret)) == Head(w0) + s.file[Low(s, w0)..w.start + Max(p, 0)]
  {
    hide Mid, Reached, Loaded, Valid, Head, WithHead, UpTo;
    SearchFacts(s, w0, w, offset, ret);
    LoadedFacts(s, w);
    if w == w0 {
      CollectedFirst(s, w, p);
    } else {
      CollectedLater(s, w, ret, p, Head(w0), Low(s, w0));
    }
  }

  /** In its first window a search has collected nothing yet. */
  lemma CollectedFirst(s: Setup, w: Window, p: int)
    requires Loaded(s, w) && w.pos <= w.size && -1 <= p <= w.size && p >= w.pos
    ensures Low(s, w) <= w.start + Max(p, 0) <= |s.file|
    ensures UpTo(w, p, WithHead(w, [])) == Head(w) + s.file[Low(s, w)..w.start + Max(p, 0)]
  {
    hide Mid, Loaded;
    LoadedFacts(s, w);
    if p > w.pos {
      MidIsFile(s, w, p);
    }
    assert WithHead(w, []) == Head(w);
  }

  lemma CollectedLater(s: Setup, w: Window, ret: seq<Byte>, p: int, head: seq<Byte>, low: nat)
    requires Loaded(s, w) && w.pos == 0 && -1 <= p <= w.size
    requires low <= w.start <= |s.file| && ret == head + s.file[low..w.start]
    ensures low <= w.start + Max(p, 0) <= |s.file|
    ensures UpTo(w, p, WithHead(w, ret)) == head + s.file[low..w.start + Max(p, 0)]
  {
    hide Mid, Loaded;
    LoadedFacts(s, w);
    if p > 0 {
      MidIsFile(s, w, p);
      assert s.file[low..w.start] + s.file[w.start..w.start + p] == s.file[low..w.start + p];
    }
  }

  lemma CollectedAll(s: Setup, w0: Window, w: Window, offset: int, ret: seq<Byte>)
    requires Searching(s, w0, w, offset, ret) && w0.pos <= w0.size
    ensures w.start + w.size <= |s.file| && Low(s, w0) <= w.start + w.size
    ensures WithHead(w, ret) + Mid(w.buf, w.pos, w.size - w.pos)
         == Head(w0) + s.file[Low(s, w0)..w.start + w.size]
  {
    hide Head, WithHead, Mid, Reached, Low;
    SearchFacts(s, w0, w, offset, ret);
    Collected(s, w0, w, offset, ret, w.size);
    assert Max(w.size, 0) == w.size;
    if w.pos == w.size {
      MidIsFile(s, w, w.size);
    }
  }

  ghost predicate Hit(w: Window, offset: int, j: int) {
    && w.pos + offset >= 0
    && IndexOf(w.buf, w.pos + offset) == j
    && 0 <= j <= w.size
  }

  lemma HitFacts(s: Setup, w0: Window, w: Window, offset: int, ret: seq<Byte>, j: nat)
    requires Searching(s, w0, w, offset, ret) && Hit(w, offset, j)
    ensures w0.pos <= w0.size && From(w0, w) <= j && CodeAt(w.buf, j)
    ensures forall k :: From(w0, w) <= k < j ==> !CodeAt(w.buf, k)
    ensures j + 3 > w.size ==> NoHit(s, w0, w) && w.size < s.bufferSize
  {
    hide Reached;
    SearchFacts(s, w0, w, offset, ret);
  }

  lemma MissFacts(s: Setup, w0: Window, w: Window, offset: int, ret: seq<Byte>)
    requires Searching(s, w0, w, offset, ret) && Missed(w, offset)
    ensures NoHit(s, w0, w)
  {
    hide Reached;
    SearchFacts(s, w0, w, offset, ret);
  }

  /** A hit beyond the valid bytes counts as one, and ends the unit in front of stale bytes. */
  lemma StaleHit(s: Setup, w0: Window, w: Window, offset: int, ret: seq<Byte>, j: nat)
    requires Searching(s, w0, w, offset, ret) && Hit(w, offset, j) && j + 3 > w.size
    ensures var p := if ByteBefore(s, w.buf, j) == 0 then j - 1 else j;
      && w0.pos <= w0.size && -1 <= p <= w.size && p != s.bufferSize
      && Low(s, w0) <= w.start + Max(p, 0) <= |s.file|
      && NextCut(s, w0) == Cut(Head(w0) + s.file[Low(s, w0)..w.start + Max(p, 0)], At(w, p))
  {
    hide Head, Searching, Loaded, CodeAt, Reached, NoHit, WithHead, UpTo, Low, Valid, BufferAt;
    hide TailCut, TailPos, LastWindow;
    SearchFacts(s, w0, w, offset, ret);
    HitFacts(s, w0, w, offset, ret, j);
    Collected(s, w0, w, offset, ret, if ByteBefore(s, w.buf, j) == 0 then j - 1 else j);
    EndsHere(s, w0, w);
    StaleCut(s, w0, w, j);
  }

  lemma StaleCut(s: Setup, w0: Window, w: Window, j: nat)
    requires Valid(s, w0) && w0.pos <= w0.size && LastWindow(s, w0) == w.start && BufferAt(s, w0, w.start) == w.buf
    requires IndexOf(w.buf, if w.start == w0.start then w0.pos + 3 else 0) == j && w.start + j <= |s.file|
    requires w.size == |s.file| - w.start < s.bufferSize
    requires Low(s, w0) <= w.start + Max(if ByteBefore(s, w.buf, j) == 0 then j - 1 else j, 0)
    ensures var p := if ByteBefore(s, w.buf, j) == 0 then j - 1 else j;
      TailCut(s, w0) == Cut(Head(w0) + s.file[Low(s, w0)..w.start + Max(p, 0)], At(w, p))
  {
    hide Head, Low, Valid, BufferAt, IndexOf, LastWindow;
    var p := if ByteBefore(s, w.buf, j) == 0 then j - 1 else j;
    assert TailPos(s, w0) == p;
  }

  lemma SearchHits(s: Setup, w0: Window, w: Window, offset: int, ret: seq<Byte>, j: nat)
    requires Searching(s, w0, w, offset, ret) && Hit(w, offset, j)
    ensures Found(s, w0, w, if ByteBefore(s, w.buf, j) == 0 then j - 1 else j, WithHead(w, ret))
  {
    hide Reached, Searching, Head, WithHead, Mid, Loaded, NextCut, UpTo, Low, CodeAt;
    HitFacts(s, w0, w, offset, ret, j);
    SearchFacts(s, w0, w, offset, ret);
    var p := if ByteBefore(s, w.buf, j) == 0 then j - 1 else j;
    Collected(s, w0, w, offset, ret, p);
    if j + 3 <= w.size {
      HitInWindow(s, w0, w, j);
      assert Max(p, 0) == p;
    } else {
      StaleHit(s, w0, w, offset, ret, j);
    }
  }

  lemma SearchEnds(s: Setup, w0: Window, w: Window, offset: int, ret: seq<Byte>)
    requires Searching(s, w0, w, offset, ret) && Missed(w, offset) && w.size < s.bufferSize
    ensures NextCut(s, w0) ==
      Cut(WithHead(w, ret) + Mid(w.buf, w.pos, w.size - w.pos), At(w, s.bufferSize))
  {
    hide Head, Loaded, BufferAt, IndexOf, Low, LastWindow, Reached, NoHit, Valid, TailCut, WithHead, Mid, Searching;
    SearchFacts(s, w0, w, offset, ret);
    LoadedFacts(s, w);
    if w0.pos <= w0.size {
      MissFacts(s, w0, w, offset, ret);
      EndsHere(s, w0, w);
      CollectedAll(s, w0, w, offset, ret);
      EndCut(s, w0, w);
    } else {
      EndsBehind(s, w0, w, offset, ret);
    }
  }

  /** With no hit in the last window the tail takes the rest of the file. */
  lemma EndCut(s: Setup, w0: Window, w: Window)
    requires Valid(s, w0) && w0.pos <= w0.size && LastWindow(s, w0) == w.start && BufferAt(s, w0, w.start) == w.buf
    requires w.size == |s.file| - w.start < s.bufferSize && |w.buf| == s.bufferSize
    requires var j := IndexOf(w.buf, if w.start == w0.start then w0.pos + 3 else 0); j < 0 || j > w.size
    ensures Low(s, w0) <= |s.file|
    ensures TailCut(s, w0) == Cut(Head(w0) + s.file[Low(s, w0)..|s.file|], At(w, s.bufferSize))
  {
    hide Valid, BufferAt, IndexOf, Head, LastWindow;
  }

  /** The position is already behind the valid bytes: what is left of the buffer is returned. */
  lemma EndsBehind(s: Setup, w0: Window, w: Window, offset: int, ret: seq<Byte>)
    requires Searching(s, w0, w, offset, ret) && w0.pos > w0.size
    ensures NextCut(s, w0) ==
      Cut(WithHead(w, ret) + Mid(w.buf, w.pos, w.size - w.pos), At(w, s.bufferSize))
  {
    hide CodeAt, Reached, TailCut, SeenCut;
    assert Mid(w.buf, w.pos, w.size - w.pos) == w.buf[w.pos..];
  }

  lemma BoundaryBytes(s: Setup, w: Window)
    requires Loaded(s, w) && w.size == s.bufferSize
    ensures var v := w.start + s.bufferSize;
      && s.file[v - 3] == w.buf[w.size - 3] && s.file[v - 2] == w.buf[w.size - 2] && s.file[v - 1] == w.buf[w.size - 1]
      && var b := Load(s, v, w.buf).buf;
         |s.file| - v > 2 ==> s.file[v] == b[0] && s.file[v + 1] == b[1] && s.file[v + 2] == b[2]
  {
    ByteInBuffer(s, w, w.size - 3);
    ByteInBuffer(s, w, w.size - 2);
    ByteInBuffer(s, w, w.size - 1);
  }

  /** No start code on the boundary: the search goes on with all bytes of the full window. */
  lemma BoundaryMiss(s: Setup, w0: Window, w: Window, offset: int, ret: seq<Byte>)
    requires Searching(s, w0, w, offset, ret) && Missed(w, offset) && w.size == s.bufferSize
    requires var v := w.start + s.bufferSize;
      forall i :: v - 2 <= i <= v && CodeAt(s.file, i) ==> |s.file| - v <= 2
    ensures Searching(s, w0, Load(s, w.start + s.bufferSize, w.buf), 0,
                      WithHead(w, ret) + Mid(w.buf, w.pos, w.size - w.pos))
  {
    hide Passed, Head, WithHead, Mid, Loaded, Reached, Searching, Missed, NoHit, Low, Valid, CodeAt;
    SearchFacts(s, w0, w, offset, ret);
    MissFacts(s, w0, w, offset, ret);
    GoesOn(s, w0, w);
    CollectedAll(s, w0, w, offset, ret);
    var v, all := w.start + s.bufferSize, WithHead(w, ret) + Mid(w.buf, w.pos, w.size - w.pos);
    SearchGoesOn(s, w0, Load(s, v, w.buf), v, all);
  }

  lemma SearchGoesOn(s: Setup, w0: Window, c: Window, v: nat, all: seq<Byte>)
    requires Valid(s, w0) && w0.pos <= w0.size && Reached(s, w0, c) && c.start == v > w0.start && v <= |s.file|
    requires Low(s, w0) <= v && all == Head(w0) + s.file[Low(s, w0)..v]
    ensures Searching(s, w0, c, 0, all)
  {
    hide Valid, Reached, Low, Head;
  }

  lemma ChopBack(h: seq<Byte>, f: seq<Byte>, low: nat, e: nat, v: nat, k: nat, z: seq<Byte>)
    requires low <= e <= v <= |f|
    requires || (k == v - e && z == [])
             || (k == 1 && e + 2 == v && f[e] == 0 && z == [0])
    ensures Chop(h + f[low..v], k) == h + f[low..e] + z
  {
  }

  /** A start code on the boundary: chopping off its first bytes leaves the unit, and one zero more
      when the boundary cuts it in halves. */
  lemma BoundaryHit(s: Setup, w0: Window, w: Window, offset: int, ret: seq<Byte>, i: nat, next: int, k: nat)
    requires Searching(s, w0, w, offset, ret) && Missed(w, offset) && w.size == s.bufferSize
    requires w.start + s.bufferSize - 2 <= i <= w.start + s.bufferSize
    requires CodeAt(s.file, i) && |s.file| - (w.start + s.bufferSize) > 2
    requires next == UnitStart(s.file, i) - w.start - s.bufferSize
    requires k == if i == w.start + s.bufferSize - 1 then 1 else -next
    ensures Found(s, w0, Load(s, w.start + s.bufferSize, w.buf), next,
                  Chop(WithHead(w, ret) + Mid(w.buf, w.pos, w.size - w.pos), k))
  {
    hide Chop, Mid, WithHead, Head, Low, Reached, Searching, Missed, NoHit, Loaded, NextCut, Valid;
    var v, e := w.start + s.bufferSize, UnitStart(s.file, i);
    var z := Zero(i == v - 1 && i > 0 && s.file[i - 1] == 0);
    SearchFacts(s, w0, w, offset, ret);
    MissFacts(s, w0, w, offset, ret);
    HitOnBoundary(s, w0, w, i);
    CollectedAll(s, w0, w, offset, ret);
    ChopBack(Head(w0), s.file, Low(s, w0), e, v, k, z);
    assert next == e - v;
  }

  /** What the code makes of the last three bytes of a full window and the first three of the next:
      whether a start code lies there, the new position, and how many bytes to chop off. */
  datatype Choice = Choice(found: bool, next: int, chop: nat)

  function BoundaryChoice(b: seq<Byte>, c: Window): Choice
    requires |b| >= 3 && |c.buf| == |b|
  {
    var z0, z1, z2 := b[|b| - 3] == 0, b[|b| - 2] == 0, b[|b| - 1] == 0;
    if c.size <= 2 then Choice(false, 0, 0)
    else if c.buf[0] == 1 && z2 && z1 then
      (if z0 then Choice(true, -3, 3) else Choice(true, -2, 2))
    else if c.buf[0] == 0 && c.buf[1] == 1 && z2 then
      Choice(true, if z1 then -2 else -1, 1)
    else if c.buf[0] == 0 && c.buf[1] == 0 && c.buf[2] == 1 then
      (if z2 then Choice(true, -1, 1) else Choice(true, 0, 0))
    else Choice(false, 0, 0)
  }

  predicate Explains(s: Setup, v: nat, h: Choice, i: nat) {
    && v - 2 <= i <= v
    && CodeAt(s.file, i)
    && h.next == UnitStart(s.file, i) - v
    && h.chop == if i == v - 1 then 1 else -h.next
  }

  /** It finds the start code that touches the boundary, if there is one and it can be seen. */
  lemma ChoiceIsRight(s: Setup, w: Window)
    requires Loaded(s, w) && w.size == s.bufferSize
    ensures var v := w.start + s.bufferSize;
      var h := BoundaryChoice(w.buf, Load(s, v, w.buf));
      && (!h.found ==> forall i :: v - 2 <= i <= v && CodeAt(s.file, i) ==> |s.file| - v <= 2)
      && (h.found ==> |s.file| - v > 2 && exists i: nat :: Explains(s, v, h, i))
  {
    hide Loaded;
    BoundaryBytes(s, w);
    LoadedFacts(s, w);
    ChoiceOnFile(s, w.start + s.bufferSize, w.buf);
  }

  lemma ChoiceOnFile(s: Setup, v: nat, b: seq<Byte>)
    requires |b| == s.bufferSize >= 5 && 3 <= v <= |s.file|
    requires s.file[v - 3] == b[|b| - 3] && s.file[v - 2] == b[|b| - 2] && s.file[v - 1] == b[|b| - 1]
    ensures var h := BoundaryChoice(b, Load(s, v, b));
      && (!h.found ==> forall i :: v - 2 <= i <= v && CodeAt(s.file, i) ==> |s.file| - v <= 2)
      && (h.found ==> |s.file| - v > 2 && exists i: nat :: Explains(s, v, h, i))
  {
    hide Explains, Load;
    var c := Load(s, v, b);
    LoadHoldsFile(s, v, b);
    var h := BoundaryChoice(b, c);
    if h.found {
      ChosenExplains(s, v, b, c);
    }
  }

  lemma LoadHoldsFile(s: Setup, v: nat, b: seq<Byte>)
    requires |b| == s.bufferSize >= 5 && v <= |s.file|
    ensures var c := Load(s, v, b);
      && |c.buf| == |b| && (c.size > 2 <==> |s.file| - v > 2)
      && (c.size > 2 ==> c.buf[0] == s.file[v] && c.buf[1] == s.file[v + 1] && c.buf[2] == s.file[v + 2])
  {
  }

  function ChosenCode(b: seq<Byte>, c: Window, v: nat): int
    requires |b| >= 3 && |c.buf| == |b|
  {
    if c.buf[0] == 1 && b[|b| - 1] == 0 && b[|b| - 2] == 0 then v - 2
    else if c.buf[0] == 0 && c.buf[1] == 1 && b[|b| - 1] == 0 then v - 1
    else v
  }

  lemma ChosenExplains(s: Setup, v: nat, b: seq<Byte>, c: Window)
    requires |b| >= 3 && |c.buf| == |b| && 3 <= v && v + 2 < |s.file|
    requires s.file[v - 3] == b[|b| - 3] && s.file[v - 2] == b[|b| - 2] && s.file[v - 1] == b[|b| - 1]
    requires c.buf[0] == s.file[v] && c.buf[1] == s.file[v + 1] && c.buf[2] == s.file[v + 2]
    requires BoundaryChoice(b, c).found
    ensures ChosenCode(b, c, v) >= 0 && Explains(s, v, BoundaryChoice(b, c), ChosenCode(b, c, v))
  {
  }

  lemma BoundaryStep(s: Setup, w0: Window, w: Window, offset: int, ret: seq<Byte>)
    requires Searching(s, w0, w, offset, ret) && Missed(w, offset) && w.size == s.bufferSize
    requires |w.buf| == s.bufferSize >= 5 && w.start + s.bufferSize <= |s.file|
    ensures var c := Load(s, w.start + s.bufferSize, w.buf);
      var h := BoundaryChoice(w.buf, c);
      var all := WithHead(w, ret) + Mid(w.buf, w.pos, w.size - w.pos);
      && (h.found ==> Found(s, w0, c, h.next, Chop(all, h.chop)))
      && (!h.found ==> Searching(s, w0, c, 0, all) && h.chop == 0)
      && Chop(all, 0) == all
  {
    hide Searching, Found, Reached, Loaded, WithHead, Mid, CodeAt, Missed, UnitStart;
    SearchFacts(s, w0, w, offset, ret);
    ChoiceIsRight(s, w);
    var v := w.start + s.bufferSize;
    var h := BoundaryChoice(w.buf, Load(s, v, w.buf));
    if h.found {
      var i: nat :| Explains(s, v, h, i);
      BoundaryHit(s, w0, w, offset, ret, i, h.next, h.chop);
    } else {
      BoundaryMiss(s, w0, w, offset, ret);
    }
  }
}
