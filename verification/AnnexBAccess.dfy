/** Opening a file, seeking to a unit and reading a frame, against the whole-file split. */
module AnnexBAccess {
  import opened ByteStream
  import opened Arithmetic
  import opened AnnexBScan
  import opened AnnexBRuns
  import opened AnnexBTail

  /** The first start code lies inside the first buffer: the position goes straight to its unit. */
  lemma FirstInBuffer(s: Setup, g: seq<Byte>, i: nat)
    requires s.bufferSize >= 5 && |g| == s.bufferSize
    requires i == NextCode(s.file, 0) && i + 3 <= Min(s.bufferSize, |s.file|)
    ensures CodeAt(s.file, i) && Valid(s, Load(s, 0, g))
    ensures FirstCut(s, Load(s, 0, g)) == At(Load(s, 0, g), UnitStart(s.file, i))
  {
    var w := Load(s, 0, g);
    assert forall k :: 0 <= k < w.size ==> w.buf[k] == s.file[k];
    assert CodeAt(w.buf, i);
    forall k | 0 <= k < i
      ensures !CodeAt(w.buf, k)
    {
      assert !CodeAt(s.file, k);
    }
    NextCodeIs(w.buf, 0, i);
  }

  /** It lies behind: the first buffer holds none, and a call of getNextNALUnit looks for it. */
  lemma FirstBehindBuffer(s: Setup, g: seq<Byte>, i: nat)
    requires s.bufferSize >= 5 && |g| == s.bufferSize
    requires i == NextCode(s.file, 0) && i < |s.file| && i + 3 > Min(s.bufferSize, |s.file|)
    ensures Valid(s, Load(s, 0, g)) && Load(s, 0, g).size == s.bufferSize
    ensures FirstCut(s, Load(s, 0, g)) == NextCut(s, Load(s, 0, g)).next
    ensures NextCode(s.file, 3) == i && CodeAt(s.file, i)
  {
    hide NextCut;
    var w := Load(s, 0, g);
    assert forall k :: 0 <= k < w.size ==> w.buf[k] == s.file[k];
    forall k | 0 <= k && k + 3 <= |w.buf|
      ensures !CodeAt(w.buf, k)
    {
      assert !CodeAt(s.file, k);
    }
    NextCodeIsNone(w.buf, 0);
    NextCodeIs(s.file, 3, i);
  }

  /** Opening a file ends at its first unit if the first start code can be seen. */
  lemma OpenStands(s: Setup, g: seq<Byte>)
    requires s.bufferSize >= 5 && |g| == s.bufferSize
    requires var i := NextCode(s.file, 0); i < |s.file| && Seen(s, 0, i)
    ensures Valid(s, Load(s, 0, g))
    ensures Stands(s, 0, g, FirstCut(s, Load(s, 0, g)), UnitStart(s.file, NextCode(s.file, 0)))
  {
    hide Valid, NextCut, CodeAt;
    var i, w := NextCode(s.file, 0), Load(s, 0, g);
    UnitStartIsStart(s.file, i);
    if i + 3 <= Min(s.bufferSize, |s.file|) {
      FirstInBuffer(s, g, i);
      FirstCutIsValid(s, w);
    } else {
      FirstBehindBuffer(s, g, i);
      CutIsValid(s, w);
      assert NextCut(s, w) == SeenCut(s, w, i) by {
        SeenDecides(s, w, i);
      }
      SeenNextStands(s, 0, g, w, i);
    }
  }

  /** The position after opening is not negative exactly if the first unit begins in the window that
      its start code ends in. */
  lemma FirstPosition(s: Setup, g: seq<Byte>)
    requires s.bufferSize >= 5 && |g| == s.bufferSize
    requires var i := NextCode(s.file, 0); i < |s.file| && Seen(s, 0, i)
    ensures Valid(s, Load(s, 0, g))
    ensures var i := NextCode(s.file, 0);
      FirstCut(s, Load(s, 0, g)).pos >= 0 <==> WindowAt(0, s.bufferSize, i + 2) <= UnitStart(s.file, i)
  {
    hide Valid, NextCut, CodeAt, FirstCut;
    var i, w := NextCode(s.file, 0), Load(s, 0, g);
    if i + 3 <= Min(s.bufferSize, |s.file|) {
      FirstInBuffer(s, g, i);
    } else {
      FirstBehindBuffer(s, g, i);
      SeenDecides(s, w, i);
    }
  }

  /** A first start code hidden in a short last window: at most two bytes are returned at all. */
  lemma OpenMisses(s: Setup, g: seq<Byte>)
    requires s.bufferSize >= 5 && |g| == s.bufferSize
    requires var i := NextCode(s.file, 0); i < |s.file| && !Seen(s, 0, i)
    ensures Valid(s, Load(s, 0, g)) && Valid(s, FirstCut(s, Load(s, 0, g)))
    ensures var run := RunTo(s, FirstCut(s, Load(s, 0, g)), |s.file|);
      run == [] || |run[0]| <= 2
  {
    hide NextCut, Valid;
    var i, w := NextCode(s.file, 0), Load(s, 0, g);
    UnseenIsInLast(s, 0, i);
    FirstBehindBuffer(s, g, i);
    assert NextCut(s, w) == TailCut(s, w) by {
      UnseenDecides(s, w, i);
    }
    FirstCutIsValid(s, w);
    var w1 := TailCut(s, w).next;
    if w1.start + w1.pos < |s.file| {
      MissedCodeInTail(s, w, i);
      NextCodeIsNone(s.file, w1.start + w1.pos + 3);
      ShortWindowRest(s, w1);
    }
  }

  /** The one that ends the missed code keeps a stale code from starting at the buffer's first byte. */
  lemma MissedCodeInTail(s: Setup, w: Window, i: nat)
    requires Valid(s, w) && w.pos <= w.size && CodeAt(s.file, i) && i < LastWindow(s, w) <= i + 2
    requires |s.file| - LastWindow(s, w) <= 2 && w.size == s.bufferSize
    ensures TailPos(s, w) >= 0
  {
    var v := LastWindow(s, w);
    assert v != w.start;
    assert BufferAt(s, w, v)[i + 2 - v] == s.file[i + 2];
  }

  lemma ShortWindowRest(s: Setup, w: Window)
    requires Valid(s, w) && 0 <= w.pos <= w.size <= 2
    requires NextCode(s.file, w.start + w.pos + 3) == |s.file|
    ensures |NextCut(s, w).unit| <= 2
  {
    assert NextCut(s, w) == TailCut(s, w);
    assert |Head(w)| == 0;
  }

  /** Opening a file and reading it to its end gives the split from the first unit on, exactly when
      the first start code is seen and nothing behind it is cut in halves, hidden or stale. */
  lemma FileIsSplit(s: Setup, g: seq<Byte>)
    requires s.bufferSize >= 5 && |g| == s.bufferSize && NextCode(s.file, 0) < |s.file|
    ensures Valid(s, Load(s, 0, g)) && Valid(s, FirstCut(s, Load(s, 0, g)))
    ensures var i := NextCode(s.file, 0);
      var q := UnitStart(s.file, i);
      RunTo(s, FirstCut(s, Load(s, 0, g)), |s.file|) == Units(s.file, q)
      <==> Seen(s, 0, i) && Clean(s, 0, g, q)
  {
    hide Clean, RunTo, FirstCut, Valid, CodeAt, Units;
    var i := NextCode(s.file, 0);
    var q := UnitStart(s.file, i);
    UnitStartIsStart(s.file, i);
    if Seen(s, 0, i) {
      OpenStands(s, g);
      RunIsSplit(s, 0, g, FirstCut(s, Load(s, 0, g)), q);
    } else {
      OpenMisses(s, g);
      FirstUnitIsLong(s.file, q);
    }
  }

  lemma FirstUnitIsLong(f: seq<Byte>, q: nat)
    requires IsStart(f, q)
    ensures Units(f, q) != [] && |Units(f, q)[0]| >= 3
  {
    hide CodeAt;
    NextStartFarther(f, q);
    UnitsAreSplit(f, q);
  }

  /** The window after a seek into the file: at the very beginning the first unit is looked for. */
  function Sought(s: Setup, pos: nat, g: seq<Byte>): (w: Window)
    requires s.bufferSize >= 5 && |g| == s.bufferSize && pos < |s.file|
    ensures Valid(s, w)
  {
    if pos > 0 then Load(s, pos, g)
    else
      FirstCutIsValid(s, Load(s, 0, g));
      FirstCut(s, Load(s, 0, g))
  }

  /** After seeking to a unit start the reader stands there, with windows aligned to that start. */
  lemma SeekStands(s: Setup, g: seq<Byte>, q: nat)
    requires s.bufferSize >= 5 && |g| == s.bufferSize && IsStart(s.file, q)
    ensures Stands(s, q, g, Load(s, q, g), q)
  {
  }

  /** The same at the very beginning of the file, when that is a unit start. */
  lemma SoughtStands(s: Setup, g: seq<Byte>, q: nat)
    requires s.bufferSize >= 5 && |g| == s.bufferSize && IsStart(s.file, q)
    ensures q < |s.file| && Stands(s, q, g, Sought(s, q, g), q)
  {
    if q == 0 {
      assert NextCode(s.file, 0) <= 1 && UnitStart(s.file, NextCode(s.file, 0)) == 0;
      OpenStands(s, g);
    } else {
      SeekStands(s, g, q);
    }
  }

  /** What a single call must not meet: the code that ends the unit, or the tail of the last buffer. */
  predicate StepClean(s: Setup, base: nat, g: seq<Byte>, q: nat)
    requires |g| == s.bufferSize > 0 && base <= |s.file| && base <= q + 3
  {
    var i := NextCode(s.file, q + 3);
    if i < |s.file| then Seen(s, base, i) && !Halved(s, base, i) else TailIsClean(s, base, g)
  }

  /** One call returns the unit and ends behind it exactly when its step is clean. */
  lemma CallIsExact(s: Setup, base: nat, g: seq<Byte>, w: Window, q: nat)
    requires Stands(s, base, g, w, q)
    ensures |g| == s.bufferSize > 0 && base <= |s.file| && base <= q + 3 && q < NextStart(s.file, q) <= |s.file|
    ensures Valid(s, w)
    ensures var c, e := NextCut(s, w), NextStart(s.file, q);
      c.unit == s.file[q..e] && (c.next.start + c.next.pos == e || (e == |s.file| && AtEnd(s, c.next)))
      <==> StepClean(s, base, g, q)
  {
    hide Stands, NextCut, Valid, TailIsClean, TailStop, LastEnd, LastOffset, Seen, Halved, AtEnd;
    StandsFacts(s, base, g, w, q);
    BaseFacts(s, base, g, w, q);
    var i := NextCode(s.file, q + 3);
    CutIsValid(s, w);
    AtEndIsBehindFile(s, NextCut(s, w).next);
    if i < |s.file| && Seen(s, base, i) {
      SeenStep(s, base, g, w, q);
      StandsFacts(s, base, g, NextCut(s, w).next, NextStart(s.file, q));
    } else {
      LastPiece(s, base, g, w, q);
      StopIsClean(s, base, g);
      if i < |s.file| {
        HiddenIsLonger(s, base, g, w, q);
      }
    }
  }

  /** Two readers at the same unit, their windows aligned to base and to base', read the same: the
      next start code is seen by both and halved for both or neither, or it is hidden from both and
      their last pieces end alike. */
  predicate SameReading(s: Setup, base: nat, g: seq<Byte>, base': nat, g': seq<Byte>, q: nat)
    requires |g| == |g'| == s.bufferSize > 0 && base <= |s.file| && base' <= |s.file|
    requires base <= q + 3 && base' <= q + 3
  {
    var i := NextCode(s.file, q + 3);
    if i < |s.file| && (Seen(s, base, i) || Seen(s, base', i)) then
      Seen(s, base, i) && Seen(s, base', i) && (Halved(s, base, i) <==> Halved(s, base', i))
    else LastEnd(s, base, g) == LastEnd(s, base', g')
  }

  lemma CallReads(s: Setup, base: nat, g: seq<Byte>, w: Window, q: nat)
    requires Stands(s, base, g, w, q)
    ensures |g| == s.bufferSize >= 5 && base <= |s.file| && base <= q + 3 && q + 3 <= |s.file| && Valid(s, w)
    ensures NoMore(s, base, q) ==> q <= LastEnd(s, base, g) <= |s.file|
    ensures q <= NextStart(s.file, q) <= |s.file|
    ensures var i := NextCode(s.file, q + 3);
      if NoMore(s, base, q) then
        && NextCut(s, w).unit == s.file[q..LastEnd(s, base, g)]
        && (i < |s.file| ==> i < LastEnd(s, base, g) && NextStart(s.file, q) < LastEnd(s, base, g))
      else
        && i < |s.file| && Seen(s, base, i)
        && NextCut(s, w).unit == s.file[q..NextStart(s.file, q)] + Zero(Halved(s, base, i))
        && (Halved(s, base, i) ==> NextStart(s.file, q) + 1 == i)
  {
    hide Stands, NextCut, Valid, LastEnd, Seen;
    StandsFacts(s, base, g, w, q);
    BaseFacts(s, base, g, w, q);
    if NoMore(s, base, q) {
      LastPiece(s, base, g, w, q);
      if NextCode(s.file, q + 3) < |s.file| {
        HiddenIsLonger(s, base, g, w, q);
      }
    } else {
      SeenStep(s, base, g, w, q);
    }
  }

  /** Seeking to a start that a run reported and reading again returns the same unit, although the
      windows now lie differently, exactly if both readings meet the same faults; and the unit of the
      file if both are clean. */
  lemma SeekRereads(s: Setup, base: nat, g: seq<Byte>, w: Window, q: nat, g': seq<Byte>)
    requires Stands(s, base, g, w, q) && |g'| == s.bufferSize
    ensures |g| == s.bufferSize >= 5 && base <= |s.file| && base <= q + 3 && q <= |s.file|
    ensures Valid(s, w) && Valid(s, Load(s, q, g'))
    ensures NextCut(s, Load(s, q, g')).unit == NextCut(s, w).unit <==> SameReading(s, base, g, q, g', q)
    ensures StepClean(s, base, g, q) && StepClean(s, q, g', q) ==>
      NextCut(s, Load(s, q, g')).unit == NextCut(s, w).unit == s.file[q..NextStart(s.file, q)]
  {
    hide Stands, NextCut, Valid, StepClean, Load, IsStart, LastEnd, NextCode, NextStart, Seen, Halved;
    StandsFacts(s, base, g, w, q);
    BaseFacts(s, base, g, w, q);
    CallIsExact(s, base, g, w, q);
    StandsAtStart(s, base, g, w, q);
    SeekStands(s, g', q);
    CallIsExact(s, q, g', Load(s, q, g'), q);
    CallReads(s, base, g, w, q);
    CallReads(s, q, g', Load(s, q, g'), q);
  }

  lemma StandsAtStart(s: Setup, base: nat, g: seq<Byte>, w: Window, q: nat)
    requires Stands(s, base, g, w, q)
    ensures IsStart(s.file, q)
  {
  }
}
