/** Reading the units of a range of file positions, as getFrameData does: exactly when they are the
    units of the file, and when what is made of them is the data of the frame. */
module AnnexBFrames {
  import opened ByteStream
  import opened AnnexBScan
  import opened AnnexBRuns
  import opened AnnexBTail

  /** The units up to a later position. */
  function UnitsTo(f: seq<Byte>, q: nat, end: nat): seq<seq<Byte>>
    requires q <= |f| && end <= |f|
    decreases |f| - q
  {
    if q >= end then [] else [f[q..NextStart(f, q)]] + UnitsTo(f, NextStart(f, q), end)
  }

  /** Where the last of these units ends. */
  function RangeEnd(f: seq<Byte>, q: nat, end: nat): (r: nat)
    requires q <= |f| && end <= |f|
    ensures q <= r <= |f| && end <= r
    decreases |f| - q
  {
    if q >= end then q else RangeEnd(f, NextStart(f, q), end)
  }

  /** The tail of the last buffer does not spoil a range up to `end`: no stale start code, or one that
      only moves the reader back by a byte, behind a range that ends before. */
  predicate TailFits(s: Setup, base: nat, g: seq<Byte>, end: nat)
    requires |g| == s.bufferSize > 0 && base <= |s.file|
  {
    TailIsClean(s, base, g) || (LastOffset(s, base) == |s.file| && end < |s.file|)
  }

  /** No start code up to the end of the range is cut in halves or hidden, and if the range takes the
      last unit of the file, the tail fits. Nothing behind the range matters. */
  ghost predicate CleanTo(s: Setup, base: nat, g: seq<Byte>, q: nat, end: nat)
    requires |g| == s.bufferSize > 0 && base <= |s.file| && base <= q + 3 && q <= |s.file| && end <= |s.file|
  {
    q < end ==>
      && (forall i :: q + 3 <= i && CodeAt(s.file, i) && UnitStart(s.file, i) <= RangeEnd(s.file, q, end) ==>
            Seen(s, base, i) && !Halved(s, base, i))
      && (RangeEnd(s.file, q, end) == |s.file| ==> TailFits(s, base, g, end))
  }

  lemma UnitsToStep(f: seq<Byte>, q: nat, end: nat)
    requires q <= |f| && end <= |f|
    ensures q >= end ==> UnitsTo(f, q, end) == [] && RangeEnd(f, q, end) == q
    ensures q < end ==>
      && q < NextStart(f, q) <= |f|
      && UnitsTo(f, q, end) == [f[q..NextStart(f, q)]] + UnitsTo(f, NextStart(f, q), end)
      && RangeEnd(f, q, end) == RangeEnd(f, NextStart(f, q), end)
  {
  }

  lemma RunToStep(s: Setup, w: Window, end: nat)
    requires Valid(s, w) && end <= |s.file|
    ensures w.start + w.pos >= end ==> RunTo(s, w, end) == []
    ensures w.start + w.pos < end ==>
      && Valid(s, NextCut(s, w).next)
      && RunTo(s, w, end) == [NextCut(s, w).unit] + RunTo(s, NextCut(s, w).next, end)
  {
    hide NextCut, Valid;
    CutIsValid(s, w);
  }

  /** The codes behind a unit are the one that ends it and those behind the next unit. */
  lemma CodesBehind(f: seq<Byte>, q: nat, k: nat)
    requires q < |f| && q + 3 <= k && CodeAt(f, k)
    ensures var i, e := NextCode(f, q + 3), NextStart(f, q);
      && i < |f| && q + 2 <= e <= i <= e + 1 && UnitStart(f, i) == e
      && (k == i || (e + 3 <= k && e + 2 <= UnitStart(f, k)))
  {
  }

  lemma CleanToStep(s: Setup, base: nat, g: seq<Byte>, q: nat, end: nat)
    requires |g| == s.bufferSize > 0 && base <= |s.file| && base <= q + 3 && q < end <= |s.file|
    requires NextCode(s.file, q + 3) < |s.file|
    ensures var i, e := NextCode(s.file, q + 3), NextStart(s.file, q);
      && base <= i + 2 && base <= e + 3 && e <= |s.file|
      && (CleanTo(s, base, g, q, end)
          <==> Seen(s, base, i) && !Halved(s, base, i) && CleanTo(s, base, g, e, end))
  {
    hide Seen, Halved, TailFits, CodeAt, UnitStart, NextCode, NextStart, RangeEnd;
    var i, e, r := NextCode(s.file, q + 3), NextStart(s.file, q), RangeEnd(s.file, q, end);
    CodesAhead(s.file, q);
    UnitsToStep(s.file, q, end);
    UnitsToStep(s.file, e, end);
    forall k | q + 3 <= k && CodeAt(s.file, k)
      ensures k == i || (e + 3 <= k && e < UnitStart(s.file, k))
    {
      CodesBehind(s.file, q, k);
    }
  }

  lemma CleanToLast(s: Setup, base: nat, g: seq<Byte>, q: nat, end: nat)
    requires |g| == s.bufferSize > 0 && base <= |s.file| && base <= q + 3 && q < end <= |s.file|
    requires NextCode(s.file, q + 3) == |s.file|
    ensures CleanTo(s, base, g, q, end) <==> TailFits(s, base, g, end)
  {
    hide Seen, Halved, TailFits, UnitStart;
    UnitsToStep(s.file, q, end);
    UnitsToStep(s.file, |s.file|, end);
  }

  /** Reading from a unit start up to any later position returns the units that begin in the range,
      exactly if the range is clean. */
  lemma {:induction false} FrameIsUnits(s: Setup, base: nat, g: seq<Byte>, w: Window, q: nat, end: nat)
    requires Stands(s, base, g, w, q) && end <= |s.file|
    ensures |g| == s.bufferSize > 0 && base <= |s.file| && base <= q + 3 && q <= |s.file| && Valid(s, w)
    ensures RunTo(s, w, end) == UnitsTo(s.file, q, end) <==> CleanTo(s, base, g, q, end)
    decreases |s.file| - q
  {
    hide Stands, NextCut, Valid, NextStart, NextCode, Seen, Halved, RunTo, UnitsTo, CleanTo, NoMore;
    StandsFacts(s, base, g, w, q);
    BaseFacts(s, base, g, w, q);
    RunToStep(s, w, end);
    UnitsToStep(s.file, q, end);
    if q >= end {
      NothingToRead(s, base, g, q, end);
    } else if NoMore(s, base, q) {
      LastOfRange(s, base, g, w, q, end);
    } else {
      MoreMeansSeen(s, base, q);
      var e := NextStart(s.file, q);
      SeenStep(s, base, g, w, q);
      CleanToStep(s, base, g, q, end);
      var c := NextCut(s, w);
      FrameIsUnits(s, base, g, c.next, e, end);
      SameHead(c.unit, RunTo(s, c.next, end), s.file[q..e], UnitsTo(s.file, e, end));
      assert c.unit == s.file[q..e] <==> !Halved(s, base, NextCode(s.file, q + 3));
    }
  }

  lemma NothingToRead(s: Setup, base: nat, g: seq<Byte>, q: nat, end: nat)
    requires |g| == s.bufferSize > 0 && base <= |s.file| && base <= q + 3 && q <= |s.file| && end <= |s.file|
    requires q >= end
    ensures CleanTo(s, base, g, q, end)
  {
  }

  lemma MoreMeansSeen(s: Setup, base: nat, q: nat)
    requires s.bufferSize > 0 && base <= q + 3 && !NoMore(s, base, q)
    ensures var i := NextCode(s.file, q + 3); i < |s.file| && base <= i + 2 && Seen(s, base, i)
  {
  }

  /** The call that sees no start code any more: its piece is too long if a code is hidden, too short
      in front of a stale one. */
  lemma LastOfRange(s: Setup, base: nat, g: seq<Byte>, w: Window, q: nat, end: nat)
    requires Stands(s, base, g, w, q) && NoMore(s, base, q) && q < end <= |s.file|
    requires |g| == s.bufferSize > 0 && base <= |s.file| && base <= q + 3
    ensures Valid(s, w)
    ensures RunTo(s, w, end) == UnitsTo(s.file, q, end) <==> CleanTo(s, base, g, q, end)
  {
    hide Stands, NextCut, Valid, NextStart, NextCode, Seen, Halved, RunTo, UnitsTo, CleanTo, NoMore;
    hide LastEnd, TailStop, LastOffset, TailIsClean;
    StandsFacts(s, base, g, w, q);
    RunToStep(s, w, end);
    UnitsToStep(s.file, q, end);
    LastPiece(s, base, g, w, q);
    StopIsClean(s, base, g);
    var e, c := NextStart(s.file, q), NextCut(s, w);
    SameHead(c.unit, RunTo(s, c.next, end), s.file[q..e], UnitsTo(s.file, e, end));
    if NextCode(s.file, q + 3) < |s.file| {
      HiddenIsLonger(s, base, g, w, q);
      CleanToStep(s, base, g, q, end);
      HiddenIsUnseen(s, base, q);
    } else {
      NextCodeFacts(s.file, q);
      CleanToLast(s, base, g, q, end);
      UnitsToStep(s.file, e, end);
      RunToStep(s, c.next, end);
      StopIsLast(s, base, g);
    }
  }

  lemma NextCodeFacts(f: seq<Byte>, q: nat)
    requires NextCode(f, q + 3) >= |f|
    ensures NextCode(f, q + 3) == |f| == NextStart(f, q)
  {
  }

  lemma HiddenIsUnseen(s: Setup, base: nat, q: nat)
    requires s.bufferSize > 0 && base <= q + 3 && NoMore(s, base, q) && NextCode(s.file, q + 3) < |s.file|
    ensures base <= NextCode(s.file, q + 3) + 2 && !Seen(s, base, NextCode(s.file, q + 3))
  {
  }

  /** A stale start code in front of an empty last window moves the reader back by one byte. */
  lemma StopIsLast(s: Setup, base: nat, g: seq<Byte>)
    requires |g| == s.bufferSize > 0 && base <= |s.file|
    ensures LastOffset(s, base) == |s.file| && !TailIsClean(s, base, g) ==> TailStop(s, base, g) == |s.file| - 1
  {
    hide WindowAt, BufferFrom;
  }

  /** The units that a clean range returns each begin with a start code and hold no other. */
  lemma {:induction false} UnitsToAreUnits(f: seq<Byte>, q: nat, end: nat)
    requires IsStart(f, q) && end <= |f|
    ensures forall u :: u in UnitsTo(f, q, end) ==> OneUnit(u)
    decreases |f| - q
  {
    hide OneUnit, NextStart;
    UnitsToStep(f, q, end);
    if q < end {
      UnitIsOne(f, q);
      NextIsStart(f, q);
      if NextStart(f, q) < |f| {
        UnitsToAreUnits(f, NextStart(f, q), end);
      } else {
        UnitsToStep(f, |f|, end);
      }
    }
  }

  lemma NextIsStart(f: seq<Byte>, q: nat)
    requires q < |f|
    ensures q < NextStart(f, q) <= |f| && (NextStart(f, q) < |f| ==> IsStart(f, NextStart(f, q)))
  {
  }
}
