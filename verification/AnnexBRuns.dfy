/** Whole runs of the reader against the whole-file split: exactly when they agree. */
module AnnexBRuns {
  import opened ByteStream
  import opened Arithmetic
  import opened AnnexBScan

  /** The buffer of the window at v when windows are read from `base` on into a buffer holding g. */
  function BufferFrom(s: Setup, base: nat, g: seq<Byte>, v: nat): (b: seq<Byte>)
    requires |g| == s.bufferSize && v <= |s.file| && (v == base || base + s.bufferSize <= v)
    ensures |b| == s.bufferSize
  {
    if v == base then Load(s, base, g).buf else Load(s, v, s.file[v - s.bufferSize..v]).buf
  }

  /** The window w belongs to a run whose first window began at `base`. */
  ghost predicate Aligned(s: Setup, base: nat, g: seq<Byte>, w: Window) {
    && Valid(s, w)
    && w.pos <= w.size
    && |g| == s.bufferSize
    && base <= w.start
    && WindowAt(base, s.bufferSize, w.start) == w.start
    && w.buf == BufferFrom(s, base, g, w.start)
  }

  /** It stands at the unit start q. */
  ghost predicate Stands(s: Setup, base: nat, g: seq<Byte>, w: Window, q: nat) {
    && Aligned(s, base, g, w)
    && w.start + w.pos == q
    && IsStart(s.file, q)
    && (CodeAt(s.file, q) ==> w.start <= q + 2)
  }

  /** Whether the bytes that follow the end of the file in the last buffer are taken for a start
      code: one that begins in the last two bytes of the file, or right behind a zero. */
  predicate TailIsClean(s: Setup, base: nat, g: seq<Byte>)
    requires |g| == s.bufferSize > 0 && base <= |s.file|
  {
    var v := WindowAt(base, s.bufferSize, |s.file|);
    var n := |s.file| - v;
    CleanTailOf(s, BufferFrom(s, base, g, v), n)
  }

  predicate CleanTailOf(s: Setup, b: seq<Byte>, n: nat)
    requires n <= |b|
  {
    !CodeAt(b, n - 2) && !CodeAt(b, n - 1) && (CodeAt(b, n) ==> ByteBefore(s, b, n) != 0)
  }

  /** No start code behind the unit at q is cut in halves or hidden in a short last window, and the
      tail of the last buffer is clean. */
  ghost predicate Clean(s: Setup, base: nat, g: seq<Byte>, q: nat)
    requires |g| == s.bufferSize > 0 && base <= |s.file| && base <= q + 3
  {
    && (forall i :: q + 3 <= i && CodeAt(s.file, i) ==> Seen(s, base, i) && !Halved(s, base, i))
    && TailIsClean(s, base, g)
  }

  lemma {:induction false} SameWindows(base: nat, size: nat, a: nat, x: nat)
    requires size > 0 && base <= a <= x && WindowAt(base, size, a) == a
    ensures WindowAt(base, size, x) == WindowAt(a, size, x)
    decreases a - base
  {
    if a != base {
      assert base + size <= a;
      SameWindows(base + size, size, a, x);
    }
  }

  lemma WindowIsItsOwn(base: nat, size: nat, x: nat)
    requires size > 0 && base <= x
    ensures WindowAt(base, size, WindowAt(base, size, x)) == WindowAt(base, size, x)
    decreases x - base
  {
  }

  /** The zeros of a split start code stand for the bytes of the previous window. */
  lemma HeadIsFile(s: Setup, base: nat, g: seq<Byte>, w: Window, q: nat, e: nat)
    requires Stands(s, base, g, w, q) && Low(s, w) <= e <= |s.file|
    ensures q <= e && Head(w) + s.file[Low(s, w)..e] == s.file[q..e]
  {
    hide WindowAt, BufferFrom, Load, Head;
    HeadIsZeros(w);
    assert forall k :: q <= k < w.start ==> s.file[k] == 0;
    assert Low(s, w) == q + |Head(w)|;
  }

  lemma HeadIsZeros(w: Window)
    ensures |Head(w)| == Max(-w.pos, 0) && forall k :: 0 <= k < |Head(w)| ==> Head(w)[k] == 0
  {
  }

  lemma SeenFromBase(s: Setup, base: nat, g: seq<Byte>, w: Window, i: nat)
    requires Aligned(s, base, g, w) && w.start + w.pos + 3 <= i
    ensures WindowAt(base, s.bufferSize, i + 2) == WindowAt(w.start, s.bufferSize, i + 2)
    ensures Seen(s, base, i) == Seen(s, w.start, i) && Halved(s, base, i) == Halved(s, w.start, i)
  {
    hide IsStart, CodeAt, BufferFrom;
    SameWindows(base, s.bufferSize, w.start, i + 2);
  }

  /** A call that sees the next start code returns the unit, with one zero more if the code is cut
      in halves, and stands at the next unit. */
  lemma SeenStep(s: Setup, base: nat, g: seq<Byte>, w: Window, q: nat)
    requires Stands(s, base, g, w, q)
    requires var i := NextCode(s.file, q + 3); i < |s.file| && Seen(s, base, i)
    ensures q < NextStart(s.file, q) < |s.file|
    ensures NextCut(s, w).unit
         == s.file[q..NextStart(s.file, q)] + Zero(Halved(s, base, NextCode(s.file, q + 3)))
    ensures Stands(s, base, g, NextCut(s, w).next, NextStart(s.file, q))
  {
    hide Stands, Aligned, Head, Valid, NextCut, CodeAt, Low, Seen, Halved, IsStart;
    var i, e := NextCode(s.file, q + 3), NextStart(s.file, q);
    StandsFacts(s, base, g, w, q);
    StartOfNext(s.file, q);
    SeenFromBase(s, base, g, w, i);
    SeenDecides(s, w, i);
    CutIsValid(s, w);
    SeenNextStands(s, base, g, w, i);
    HeadIsFile(s, base, g, w, q, e);
  }

  lemma StartOfNext(f: seq<Byte>, q: nat)
    requires NextCode(f, q + 3) < |f|
    ensures var i := NextCode(f, q + 3);
      CodeAt(f, i) && q + 3 <= i && NextStart(f, q) == UnitStart(f, i) && q < NextStart(f, q) < |f|
  {
  }

  lemma StandsFacts(s: Setup, base: nat, g: seq<Byte>, w: Window, q: nat)
    requires Stands(s, base, g, w, q)
    ensures Aligned(s, base, g, w) && Valid(s, w) && w.pos <= w.size && w.start + w.pos == q && q + 3 <= |s.file|
  {
  }

  lemma SeenNextStands(s: Setup, base: nat, g: seq<Byte>, w: Window, i: nat)
    requires Aligned(s, base, g, w) && CodeAt(s.file, i) && w.start + w.pos + 3 <= i
    requires Valid(s, SeenCut(s, w, i).next)
    ensures Stands(s, base, g, SeenCut(s, w, i).next, UnitStart(s.file, i))
    ensures Low(s, w) <= UnitStart(s.file, i)
  {
    hide Valid, WindowAt, BufferFrom, BufferAt, IsStart, CodeAt, Low, Head, Halved;
    var v := WindowAt(w.start, s.bufferSize, i + 2);
    SameWindows(base, s.bufferSize, w.start, i + 2);
    WindowIsItsOwn(base, s.bufferSize, i + 2);
    UnitStartIsStart(s.file, i);
    EndsInFile(s.file, i);
    LowIsBelow(s, w, i);
    NextBuffer(s, base, g, w, v);
  }

  lemma NextBuffer(s: Setup, base: nat, g: seq<Byte>, w: Window, v: nat)
    requires Aligned(s, base, g, w) && v <= |s.file| && (v == w.start || w.start + s.bufferSize <= v)
    ensures Loaded(s, w) && BufferAt(s, w, v) == BufferFrom(s, base, g, v)
  {
  }

  lemma UnitStartIsStart(f: seq<Byte>, i: nat)
    requires CodeAt(f, i)
    ensures IsStart(f, UnitStart(f, i)) && i <= UnitStart(f, i) + 1
    ensures CodeAt(f, UnitStart(f, i)) ==> UnitStart(f, i) == i
  {
  }

  /** No start code that the code would see follows the unit at q. */
  predicate NoMore(s: Setup, base: nat, q: nat)
    requires s.bufferSize > 0 && base <= q + 3
  {
    var i := NextCode(s.file, q + 3);
    i == |s.file| || !Seen(s, base, i)
  }

  /** The last window, its offset and its buffer, as seen from any window of the run. */
  lemma LastFromBase(s: Setup, base: nat, g: seq<Byte>, w: Window, q: nat)
    requires Stands(s, base, g, w, q)
    ensures LastWindow(s, w) == WindowAt(base, s.bufferSize, |s.file|)
    ensures BufferAt(s, w, LastWindow(s, w)) == BufferFrom(s, base, g, LastWindow(s, w))
    ensures w.start == LastWindow(s, w) || q + 3 <= LastWindow(s, w)
  {
    SameWindows(base, s.bufferSize, w.start, |s.file|);
  }

  lemma LastBufferHoldsFile(s: Setup, base: nat, g: seq<Byte>, v: nat, j: nat)
    requires |g| == s.bufferSize && v <= |s.file| < v + s.bufferSize
    requires v == base || base + s.bufferSize <= v
    requires v + j < |s.file|
    ensures BufferFrom(s, base, g, v)[j] == s.file[v + j]
  {
    hide Load;
    LoadHolds(s, v, if v == base then g else s.file[v - s.bufferSize..v], j);
  }

  lemma LoadHolds(s: Setup, v: nat, stale: seq<Byte>, j: nat)
    requires v <= |s.file| < v + s.bufferSize && |stale| == s.bufferSize && v + j < |s.file|
    ensures |Load(s, v, stale).buf| == s.bufferSize && Load(s, v, stale).buf[j] == s.file[v + j]
  {
  }

  /** A code that goes unseen straddles into the last window, which is at most two bytes long. */
  lemma UnseenIsInLast(s: Setup, base: nat, i: nat)
    requires s.bufferSize >= 5 && base <= i + 2 && CodeAt(s.file, i) && !Seen(s, base, i)
    ensures var v := WindowAt(base, s.bufferSize, |s.file|);
      v == WindowAt(base, s.bufferSize, i + 2) && i < v && |s.file| - v <= 2
  {
    WindowIsItsOwn(base, s.bufferSize, i + 2);
    SameWindows(base, s.bufferSize, WindowAt(base, s.bufferSize, i + 2), |s.file|);
  }

  lemma NothingValid(s: Setup, base: nat, g: seq<Byte>, q: nat, j: nat)
    requires s.bufferSize == |g| >= 5 && base <= q + 3 && base <= |s.file| && NoMore(s, base, q)
    requires var v := WindowAt(base, s.bufferSize, |s.file|);
      q + 3 <= v + j && v + j + 3 <= |s.file|
    ensures !CodeAt(BufferFrom(s, base, g, WindowAt(base, s.bufferSize, |s.file|)), j)
  {
    var v := WindowAt(base, s.bufferSize, |s.file|);
    LastBufferHoldsFile(s, base, g, v, j);
    LastBufferHoldsFile(s, base, g, v, j + 1);
    LastBufferHoldsFile(s, base, g, v, j + 2);
    var i := NextCode(s.file, q + 3);
    if i < |s.file| {
      UnseenIsInLast(s, base, i);
    } else {
      assert !CodeAt(s.file, v + j);
    }
  }

  /** Stale bytes cannot complete the start code the unit itself began with. */
  lemma StaleIsLater(s: Setup, base: nat, g: seq<Byte>, w: Window, q: nat, j: nat)
    requires Stands(s, base, g, w, q) && w.start == WindowAt(base, s.bufferSize, |s.file|)
    requires |s.file| - w.start - 2 <= j && CodeAt(w.buf, j)
    ensures w.pos + 3 <= j
  {
    hide Valid, BufferFrom, WindowAt;
    if j < w.pos + 3 {
      BaseFacts(s, base, g, w, q);
      if CodeAt(s.file, q) {
        LastBufferHoldsFile(s, base, g, w.start, w.pos + 2);
      } else {
        LastBufferHoldsFile(s, base, g, w.start, w.pos + 3);
      }
    }
  }

  /** A start code in b that at least one stale byte belongs to. */
  predicate StaleCode(b: seq<Byte>, n: nat, k: int) {
    n - 2 <= k <= n && CodeAt(b, k)
  }

  /** The search in the last window finds the stale start code, or none. */
  lemma TailIndex(s: Setup, base: nat, g: seq<Byte>, w: Window, q: nat, b: seq<Byte>, n: nat, j: int)
    requires Stands(s, base, g, w, q) && NoMore(s, base, q)
    requires var v := LastWindow(s, w);
      && n == |s.file| - v && b == BufferAt(s, w, v)
      && j == IndexOf(b, if v == w.start then w.pos + 3 else 0)
    ensures 0 <= j <= n ==> StaleCode(b, n, j)
    ensures forall k :: StaleCode(b, n, k) ==> j == k
  {
    hide Valid, Stands, BufferFrom, BufferAt, NoMore, IsStart;
    StandsFacts(s, base, g, w, q);
    LastFromBase(s, base, g, w, q);
    var v := LastWindow(s, w);
    var from := if v == w.start then w.pos + 3 else 0;
    if 0 <= j && j + 3 <= n {
      BaseFacts(s, base, g, w, q);
      NothingValid(s, base, g, q, j);
    }
    forall k | StaleCode(b, n, k)
      ensures j == k
    {
      if v == w.start {
        BufferOfWindow(s, w);
        StaleIsLater(s, base, g, w, q, k);
      }
      assert from <= k;
      assert 0 <= j <= k;
    }
  }

  lemma BaseFacts(s: Setup, base: nat, g: seq<Byte>, w: Window, q: nat)
    requires Stands(s, base, g, w, q)
    ensures |g| == s.bufferSize >= 5 && base <= q + 3 && base <= |s.file|
  {
  }

  lemma BufferOfWindow(s: Setup, w: Window)
    requires Valid(s, w)
    ensures BufferAt(s, w, w.start) == w.buf
  {
  }

  /** The position a call leaves in the last window: at the end exactly when the tail is clean,
      else in front of the stale start code with nothing to find behind it. */
  lemma TailPosIs(s: Setup, base: nat, g: seq<Byte>, w: Window, q: nat)
    requires Stands(s, base, g, w, q) && NoMore(s, base, q)
    requires base <= |s.file| && |g| == s.bufferSize > 0
    ensures var v, p := LastWindow(s, w), TailPos(s, w);
      var n := |s.file| - v;
      && (TailIsClean(s, base, g) <==> p == s.bufferSize || p == n)
      && (p != s.bufferSize && p != n ==>
            -1 <= p < n && forall k :: p + 3 <= k <= n ==> !StaleCode(BufferAt(s, w, v), n, k))
      && (p == -1 <==> StaleCode(BufferAt(s, w, v), n, 0) && s.before == 0)
  {
    hide Stands, Aligned, NoMore, BufferFrom, BufferAt, Valid, CodeAt, IndexOf, CleanTailOf;
    StandsFacts(s, base, g, w, q);
    LastFromBase(s, base, g, w, q);
    var v := LastWindow(s, w);
    var b, n := BufferAt(s, w, v), |s.file| - v;
    var j := IndexOf(b, if v == w.start then w.pos + 3 else 0);
    TailIndex(s, base, g, w, q, b, n, j);
    CleanIsNoStale(s, b, n, j);
  }

  lemma CleanIsNoStale(s: Setup, b: seq<Byte>, n: nat, j: int)
    requires n < |b|
    requires 0 <= j <= n ==> StaleCode(b, n, j)
    requires forall k :: StaleCode(b, n, k) ==> j == k
    ensures CleanTailOf(s, b, n) <==> !(0 <= j <= n) || (j == n && ByteBefore(s, b, n) != 0)
    ensures 0 <= j <= n ==> forall k :: j + 2 <= k <= n ==> !StaleCode(b, n, k)
  {
    assert n >= 2 && CodeAt(b, n - 2) ==> StaleCode(b, n, n - 2);
    assert n >= 1 && CodeAt(b, n - 1) ==> StaleCode(b, n, n - 1);
    assert CodeAt(b, n) ==> StaleCode(b, n, n);
  }

  /** The end of the first piece that is left when no start code is seen any more. */
  function TailEnd(s: Setup, w: Window): nat
    requires Valid(s, w) && w.pos <= w.size
  {
    var p := TailPos(s, w);
    if p == s.bufferSize then |s.file| else LastWindow(s, w) + Max(p, 0)
  }

  lemma TailStep(s: Setup, base: nat, g: seq<Byte>, w: Window, q: nat)
    requires Stands(s, base, g, w, q) && NoMore(s, base, q)
    ensures NextCut(s, w) == TailCut(s, w)
    ensures q <= TailEnd(s, w) <= |s.file| && NextCut(s, w).unit == s.file[q..TailEnd(s, w)]
  {
    hide Stands, Aligned, BufferFrom, BufferAt, Valid, TailPos, SeenCut, CodeAt, Head, Low, Load;
    StandsFacts(s, base, g, w, q);
    assert NextCut(s, w) == TailCut(s, w) by {
      var i := NextCode(s.file, q + 3);
      if i < |s.file| {
        SeenFromBase(s, base, g, w, i);
      }
    }
    assert Low(s, w) <= TailEnd(s, w) by {
      TailLow(s, w);
    }
    HeadIsFile(s, base, g, w, q, TailEnd(s, w));
  }

  lemma TailLow(s: Setup, w: Window)
    requires Valid(s, w) && w.pos <= w.size
    ensures Low(s, w) <= TailEnd(s, w) <= |s.file|
  {
  }

  lemma NoSecondHit(s: Setup, base: nat, g: seq<Byte>, w: Window, q: nat, w1: Window)
    requires Stands(s, base, g, w, q) && NoMore(s, base, q)
    requires TailPos(s, w) != s.bufferSize && TailPos(s, w) < |s.file| - LastWindow(s, w)
    requires Valid(s, w1) && w1 == TailCut(s, w).next
    ensures -1 <= w1.pos <= w1.size && LastWindow(s, w1) == w1.start
    ensures NextCode(s.file, w1.start + w1.pos + 3) == |s.file| && TailPos(s, w1) == s.bufferSize
  {
    hide Stands, BufferFrom, BufferAt, Valid, NoMore, TailCut, TailPos, LastWindow, IndexOf, NextCode, StaleCode;
    StandsFacts(s, base, g, w, q);
    BaseFacts(s, base, g, w, q);
    TailPosIs(s, base, g, w, q);
    LastFromBase(s, base, g, w, q);
    TailCutParts(s, w);
    TailPosIsFar(s, w);
    NothingInTail(s, base, g, q, w1);
    StaleOrValid(s, base, g, q, w1, IndexOf(w1.buf, w1.pos + 3));
    NoHitNoStop(s, w1);
  }

  lemma TailCutParts(s: Setup, w: Window)
    requires Valid(s, w) && w.pos <= w.size
    ensures var v, w1 := LastWindow(s, w), TailCut(s, w).next;
      w1 == Window(v, |s.file| - v, TailPos(s, w), BufferAt(s, w, v))
    ensures TailPos(s, w) == s.bufferSize || TailPos(s, w) <= |s.file| - LastWindow(s, w) < s.bufferSize
  {
    hide Valid, TailPos, LastWindow, BufferAt;
  }

  /** The position never falls behind the start code the unit began with. */
  lemma TailPosIsFar(s: Setup, w: Window)
    requires Valid(s, w) && w.pos <= w.size && TailPos(s, w) >= -1
    requires w.start == LastWindow(s, w) || w.start + w.pos + 3 <= LastWindow(s, w)
    ensures w.start + w.pos <= LastWindow(s, w) + TailPos(s, w)
  {
    hide CodeAt, LastWindow, BufferAt, TailPos;
  }

  lemma NoHitNoStop(s: Setup, w1: Window)
    requires Valid(s, w1) && -1 <= w1.pos <= w1.size == |s.file| - w1.start < s.bufferSize
    requires IndexOf(w1.buf, w1.pos + 3) < 0 || w1.start + IndexOf(w1.buf, w1.pos + 3) > |s.file|
    ensures LastWindow(s, w1) == w1.start && TailPos(s, w1) == s.bufferSize
  {
    hide Valid, IndexOf;
    BufferOfWindow(s, w1);
  }

  lemma RestOfFile(s: Setup, w1: Window)
    requires Valid(s, w1) && -1 <= w1.pos <= w1.size && LastWindow(s, w1) == w1.start
    requires NextCode(s.file, w1.start + w1.pos + 3) == |s.file| && TailPos(s, w1) == s.bufferSize
    ensures var c := NextCut(s, w1);
      && c.unit == Zero(w1.pos < 0) + s.file[w1.start + Max(w1.pos, 0)..]
      && c.next.start + c.next.pos >= |s.file|
  {
    hide TailPos, LastWindow;
    assert NextCut(s, w1) == TailCut(s, w1);
    assert Head(w1) == Zero(w1.pos < 0);
    var low := w1.start + Max(w1.pos, 0);
    assert s.file[low..|s.file|] == s.file[low..];
    assert NextCut(s, w1).unit == Head(w1) + s.file[low..|s.file|];
  }

  /** In front of a stale start code one more call takes the rest of the file. */
  lemma SecondTail(s: Setup, base: nat, g: seq<Byte>, w: Window, q: nat)
    requires Stands(s, base, g, w, q) && NoMore(s, base, q)
    requires TailPos(s, w) != s.bufferSize && TailPos(s, w) < |s.file| - LastWindow(s, w)
    ensures Valid(s, TailCut(s, w).next) && TailEnd(s, w) <= |s.file|
    ensures var c := NextCut(s, TailCut(s, w).next);
      && c.unit == Zero(TailPos(s, w) < 0) + s.file[TailEnd(s, w)..]
      && c.next.start + c.next.pos >= |s.file|
  {
    hide Stands, Aligned, NoMore, Valid, NextCut, TailCut, TailPos, LastWindow;
    StandsFacts(s, base, g, w, q);
    TailCutIsValid(s, w);
    TailCutParts(s, w);
    TailLow(s, w);
    var w1 := TailCut(s, w).next;
    NoSecondHit(s, base, g, w, q, w1);
    RestOfFile(s, w1);
    assert TailEnd(s, w) == w1.start + Max(w1.pos, 0);
  }

  lemma NothingInTail(s: Setup, base: nat, g: seq<Byte>, q: nat, w1: Window)
    requires s.bufferSize == |g| >= 5 && base <= q + 3 && base <= |s.file| && NoMore(s, base, q)
    requires w1.start == WindowAt(base, s.bufferSize, |s.file|) && -1 <= w1.pos && q + 3 <= w1.start + w1.pos + 3
    requires w1.start + w1.pos >= 0
    ensures NextCode(s.file, w1.start + w1.pos + 3) == |s.file|
  {
    hide WindowAt, BufferFrom, NoMore;
    var i := NextCode(s.file, w1.start + w1.pos + 3);
    if i < |s.file| {
      EndsInFile(s.file, i);
      NothingValid(s, base, g, q, i - w1.start);
      LastBufferHoldsFile(s, base, g, w1.start, i - w1.start);
      LastBufferHoldsFile(s, base, g, w1.start, i - w1.start + 1);
      LastBufferHoldsFile(s, base, g, w1.start, i - w1.start + 2);
    }
  }

  lemma StaleOrValid(s: Setup, base: nat, g: seq<Byte>, q: nat, w1: Window, j: int)
    requires s.bufferSize == |g| >= 5 && base <= q + 3 && base <= |s.file| && NoMore(s, base, q)
    requires w1.start == WindowAt(base, s.bufferSize, |s.file|) && -1 <= w1.pos && q <= w1.start + w1.pos
    requires w1.buf == BufferFrom(s, base, g, w1.start)
    requires var n := |s.file| - w1.start;
      forall k :: w1.pos + 3 <= k <= n ==> !StaleCode(w1.buf, n, k)
    requires j == IndexOf(w1.buf, w1.pos + 3)
    ensures j < 0 || w1.start + j > |s.file|
  {
    if 0 <= j && w1.start + j <= |s.file| {
      if w1.start + j + 3 <= |s.file| {
        NothingValid(s, base, g, q, j);
      } else {
        assert StaleCode(w1.buf, |s.file| - w1.start, j);
      }
    }
  }

  /** A run that sees no start code any more returns the rest of the file, in one piece or cut once
      in front of stale bytes. */
  lemma RunOfTail(s: Setup, base: nat, g: seq<Byte>, w: Window, q: nat)
    requires Stands(s, base, g, w, q) && NoMore(s, base, q)
    ensures Valid(s, w) && w.pos <= w.size && q <= TailEnd(s, w) <= |s.file|
    ensures var p := TailPos(s, w);
      RunTo(s, w, |s.file|) ==
      if p == s.bufferSize || p == |s.file| - LastWindow(s, w) then [s.file[q..]]
      else [s.file[q..TailEnd(s, w)], Zero(p < 0) + s.file[TailEnd(s, w)..]]
  {
    hide Stands, Aligned, NoMore, NextCut, Valid, RunTo, TailPos, TailEnd, LastWindow, TailCut;
    StandsFacts(s, base, g, w, q);
    BaseFacts(s, base, g, w, q);
    TailStep(s, base, g, w, q);
    TailNext(s, w);
    RunStep(s, w);
    var p := TailPos(s, w);
    if p == s.bufferSize || p == |s.file| - LastWindow(s, w) {
      assert s.file[q..|s.file|] == s.file[q..];
    } else {
      SecondTail(s, base, g, w, q);
      RunStep(s, TailCut(s, w).next);
    }
  }

  /** Whether the file is finished after a call that sees no start code. */
  lemma TailNext(s: Setup, w: Window)
    requires Valid(s, w) && w.pos <= w.size
    ensures var p, w1 := TailPos(s, w), TailCut(s, w).next;
      if p == s.bufferSize || p == |s.file| - LastWindow(s, w)
      then TailEnd(s, w) == |s.file| <= w1.start + w1.pos
      else p < |s.file| - LastWindow(s, w) && w1.start + w1.pos < |s.file|
  {
    hide TailPos, Valid, BufferAt;
  }

  /** The run after one call; nothing comes behind the end of the file. */
  lemma RunStep(s: Setup, w: Window)
    requires Valid(s, w)
    ensures w.start + w.pos >= |s.file| ==> RunTo(s, w, |s.file|) == []
    ensures w.start + w.pos < |s.file| ==>
      && Valid(s, NextCut(s, w).next)
      && RunTo(s, w, |s.file|) == [NextCut(s, w).unit] + RunTo(s, NextCut(s, w).next, |s.file|)
    ensures w.start + w.pos < |s.file| && NextCut(s, w).next.start + NextCut(s, w).next.pos >= |s.file| ==>
      RunTo(s, w, |s.file|) == [NextCut(s, w).unit]
  {
    hide NextCut, Valid;
    if w.start + w.pos < |s.file| {
      CutIsValid(s, w);
    }
  }

  lemma CleanStep(s: Setup, base: nat, g: seq<Byte>, q: nat)
    requires |g| == s.bufferSize > 0 && base <= |s.file| && base <= q + 3
    requires NextCode(s.file, q + 3) < |s.file|
    ensures var i, e := NextCode(s.file, q + 3), NextStart(s.file, q);
      Clean(s, base, g, q) <==> Seen(s, base, i) && !Halved(s, base, i) && Clean(s, base, g, e)
  {
    hide TailIsClean, Seen, Halved;
    var i, e := NextCode(s.file, q + 3), NextStart(s.file, q);
    assert e <= i <= e + 1 && q + 2 <= e;
    assert forall k :: q + 3 <= k && k != i && CodeAt(s.file, k) ==> e + 3 <= k;
  }

  lemma CleanTail(s: Setup, base: nat, g: seq<Byte>, q: nat)
    requires |g| == s.bufferSize > 0 && base <= |s.file| && base <= q + 3 && NoMore(s, base, q)
    ensures Clean(s, base, g, q) <==> NextCode(s.file, q + 3) == |s.file| && TailIsClean(s, base, g)
  {
    hide TailIsClean, Seen, Halved;
  }

  /** A start code that goes unseen leaves the first piece longer than the unit. */
  lemma {:induction false} UnseenIsLonger(s: Setup, base: nat, g: seq<Byte>, w: Window, q: nat)
    requires Stands(s, base, g, w, q) && NoMore(s, base, q) && NextCode(s.file, q + 3) < |s.file|
    ensures Valid(s, w) && w.pos <= w.size && NextStart(s.file, q) < TailEnd(s, w)
  {
    hide Stands, Aligned, NextCut, BufferFrom, TailPos, Valid;
    StandsFacts(s, base, g, w, q);
    BaseFacts(s, base, g, w, q);
    UnseenIsInLast(s, base, NextCode(s.file, q + 3));
    LastFromBase(s, base, g, w, q);
  }

  lemma {:induction false} RunOfTailIsSplit(s: Setup, base: nat, g: seq<Byte>, w: Window, q: nat)
    requires Stands(s, base, g, w, q) && NoMore(s, base, q)
    requires |g| == s.bufferSize > 0 && base <= |s.file| && base <= q + 3 && q < |s.file|
    ensures Valid(s, w)
    ensures RunTo(s, w, |s.file|) == Units(s.file, q) <==> Clean(s, base, g, q)
  {
    hide Stands, Aligned, NoMore, NextCut, Valid, Clean, TailIsClean, TailPos;
    RunOfTail(s, base, g, w, q);
    CleanTail(s, base, g, q);
    TailPosIs(s, base, g, w, q);
    var e := NextStart(s.file, q);
    assert Units(s.file, q) == [s.file[q..e]] + Units(s.file, e);
    if NextCode(s.file, q + 3) < |s.file| {
      UnseenIsLonger(s, base, g, w, q);
      assert |RunTo(s, w, |s.file|)[0]| > |Units(s.file, q)[0]|;
    } else {
      assert e == |s.file| && s.file[q..e] == s.file[q..];
    }
  }

  /** The main theorem: from a unit start on, the units that repeated calls return are the split of
      the file, exactly when nothing behind the start is cut in halves, hidden or stale. The right
      side speaks of the file, the window size and the windows' alignment only. */
  lemma {:induction false} RunIsSplit(s: Setup, base: nat, g: seq<Byte>, w: Window, q: nat)
    requires Stands(s, base, g, w, q)
    ensures |g| == s.bufferSize > 0 && base <= |s.file| && base <= q + 3 && q <= |s.file| && Valid(s, w)
    ensures RunTo(s, w, |s.file|) == Units(s.file, q) <==> Clean(s, base, g, q)
    decreases |s.file| - q
  {
    hide Stands, Aligned, NextCut, Valid, Clean, BufferFrom;
    StandsFacts(s, base, g, w, q);
    BaseFacts(s, base, g, w, q);
    if NoMore(s, base, q) {
      RunOfTailIsSplit(s, base, g, w, q);
    } else {
      var i, e := NextCode(s.file, q + 3), NextStart(s.file, q);
      SeenStep(s, base, g, w, q);
      CleanStep(s, base, g, q);
      CutIsValid(s, w);
      var c := NextCut(s, w);
      RunIsSplit(s, base, g, c.next, e);
      assert RunTo(s, w, |s.file|) == [c.unit] + RunTo(s, c.next, |s.file|);
      assert Units(s.file, q) == [s.file[q..e]] + Units(s.file, e);
      SameHead(c.unit, RunTo(s, c.next, |s.file|), s.file[q..e], Units(s.file, e));
      assert c.unit == s.file[q..e] <==> !Halved(s, base, i);
    }
  }

  lemma SameHead(a: seq<Byte>, as': seq<seq<Byte>>, b: seq<Byte>, bs: seq<seq<Byte>>)
    ensures [a] + as' == [b] + bs <==> a == b && as' == bs
  {
    if [a] + as' == [b] + bs {
      assert ([a] + as')[0] == ([b] + bs)[0];
      assert ([a] + as')[1..] == as' && ([b] + bs)[1..] == bs;
    }
  }

  /** What makes bytes appear twice: a code cut in halves that is seen, or stale bytes that form a
      start code at the very beginning of a last window of at most two bytes while the byte in front
      of the buffer is zero. */
  ghost predicate Intact(s: Setup, base: nat, g: seq<Byte>, q: nat)
    requires |g| == s.bufferSize > 0 && base <= |s.file| && base <= q + 3
  {
    var v := WindowAt(base, s.bufferSize, |s.file|);
    && (forall i :: q + 3 <= i && CodeAt(s.file, i) && Seen(s, base, i) ==> !Halved(s, base, i))
    && !(StaleCode(BufferFrom(s, base, g, v), |s.file| - v, 0) && s.before == 0)
  }

  lemma IntactStep(s: Setup, base: nat, g: seq<Byte>, q: nat)
    requires |g| == s.bufferSize > 0 && base <= |s.file| && base <= q + 3
    requires NextCode(s.file, q + 3) < |s.file| && Seen(s, base, NextCode(s.file, q + 3))
    ensures Intact(s, base, g, q) <==>
      !Halved(s, base, NextCode(s.file, q + 3)) && Intact(s, base, g, NextStart(s.file, q))
  {
    hide Seen, Halved, StaleCode, BufferFrom;
    var i, e := NextCode(s.file, q + 3), NextStart(s.file, q);
    assert e <= i <= e + 1 && q + 2 <= e;
    assert forall k :: q + 3 <= k && k != i && CodeAt(s.file, k) ==> e + 3 <= k;
  }

  lemma UnseenIsLast(s: Setup, base: nat, q: nat, k: nat)
    requires s.bufferSize >= 5 && base <= q + 3 && NoMore(s, base, q) && q + 3 <= k && CodeAt(s.file, k)
    ensures !Seen(s, base, k)
  {
    var i := NextCode(s.file, q + 3);
    UnseenIsInLast(s, base, i);
    assert i <= k;
  }

  lemma IntactTail(s: Setup, base: nat, g: seq<Byte>, w: Window, q: nat)
    requires Stands(s, base, g, w, q) && NoMore(s, base, q)
    ensures |g| == s.bufferSize > 0 && base <= |s.file| && base <= q + 3 && Valid(s, w) && w.pos <= w.size
    ensures Intact(s, base, g, q) <==> TailPos(s, w) != -1
  {
    hide Stands, Aligned, NoMore, BufferFrom, BufferAt, Valid, Seen, Halved, StaleCode, TailPos;
    StandsFacts(s, base, g, w, q);
    BaseFacts(s, base, g, w, q);
    TailPosIs(s, base, g, w, q);
    LastFromBase(s, base, g, w, q);
    forall k | q + 3 <= k && CodeAt(s.file, k)
      ensures !Seen(s, base, k)
    {
      UnseenIsLast(s, base, q, k);
    }
  }

  /** Conservation: the returned units add up to the file from the first one on, with no byte lost
      or doubled, exactly when the run is intact; otherwise bytes are doubled, never lost. */
  lemma {:induction false} RunKeepsBytes(s: Setup, base: nat, g: seq<Byte>, w: Window, q: nat)
    requires Stands(s, base, g, w, q)
    ensures |g| == s.bufferSize > 0 && base <= |s.file| && base <= q + 3 && q <= |s.file| && Valid(s, w)
    ensures Intact(s, base, g, q) <==> Concat(RunTo(s, w, |s.file|)) == s.file[q..]
    ensures |Concat(RunTo(s, w, |s.file|))| >= |s.file| - q
    ensures !Intact(s, base, g, q) ==> |Concat(RunTo(s, w, |s.file|))| > |s.file| - q
    decreases |s.file| - q
  {
    hide Stands, Aligned, NextCut, Valid, Intact, BufferFrom, RunTo, Concat, Seen, Halved;
    StandsFacts(s, base, g, w, q);
    BaseFacts(s, base, g, w, q);
    if NoMore(s, base, q) {
      RunOfTailKeepsBytes(s, base, g, w, q);
    } else {
      var i, e := NextCode(s.file, q + 3), NextStart(s.file, q);
      SeenStep(s, base, g, w, q);
      IntactStep(s, base, g, q);
      CutIsValid(s, w);
      var c := NextCut(s, w);
      RunKeepsBytes(s, base, g, c.next, e);
      RunStep(s, w);
      BytesOfStep(s.file, q, e, c.unit, Halved(s, base, i), RunTo(s, c.next, |s.file|));
    }
  }

  /** Bytes are kept by a run exactly if its first piece is the unit and the rest keeps them. */
  lemma BytesOfStep(f: seq<Byte>, q: nat, e: nat, unit: seq<Byte>, halved: bool, rest: seq<seq<Byte>>)
    requires q <= e <= |f| && unit == f[q..e] + Zero(halved) && |Concat(rest)| >= |f| - e
    ensures Concat([unit] + rest) == f[q..] <==> !halved && Concat(rest) == f[e..]
    ensures |Concat([unit] + rest)| >= |f| - q
    ensures halved || |Concat(rest)| > |f| - e ==> |Concat([unit] + rest)| > |f| - q
  {
    assert ([unit] + rest)[1..] == rest;
    assert f[q..e] + f[e..] == f[q..];
    if !halved {
      assert unit == f[q..e];
      CancelPrefix(f[q..e], Concat(rest), f[e..]);
    }
  }

  lemma CancelPrefix(a: seq<Byte>, x: seq<Byte>, y: seq<Byte>)
    ensures a + x == a + y <==> x == y
  {
    assert x == (a + x)[|a|..] && y == (a + y)[|a|..];
  }

  lemma RunOfTailKeepsBytes(s: Setup, base: nat, g: seq<Byte>, w: Window, q: nat)
    requires Stands(s, base, g, w, q) && NoMore(s, base, q)
    requires |g| == s.bufferSize > 0 && base <= |s.file| && base <= q + 3 && q <= |s.file|
    ensures Valid(s, w)
    ensures Intact(s, base, g, q) ==> Concat(RunTo(s, w, |s.file|)) == s.file[q..]
    ensures !Intact(s, base, g, q) ==> |Concat(RunTo(s, w, |s.file|))| > |s.file| - q
  {
    hide Stands, Aligned, NoMore, Valid, Intact, TailPos, TailEnd, RunTo;
    RunOfTail(s, base, g, w, q);
    IntactTail(s, base, g, w, q);
    var run, m := RunTo(s, w, |s.file|), TailEnd(s, w);
    if |run| == 1 {
      assert Concat(run) == run[0] + Concat([]) == s.file[q..];
    } else {
      assert run[1..] == [run[1]] && run[1..][1..] == [];
      assert Concat(run[1..]) == run[1] + [] == run[1];
      assert Concat(run) == run[0] + run[1];
      assert s.file[q..m] + s.file[m..] == s.file[q..];
    }
  }
}
