/** The data getFrameData builds from the units it reads, and exactly when it is right. */
module AnnexBFrameData {
  import opened ByteStream
  import opened AnnexBScan
  import opened AnnexBRuns
  import opened AnnexBTail
  import opened AnnexBAccess
  import opened AnnexBFrames

  /** A unit with a three-byte start code gets a leading zero, any other stays as it is. */
  function FourByte(u: seq<Byte>): seq<Byte> {
    if CodeAt(u, 0) then [0] + u else u
  }

  /** What getFrameData makes of the units it reads. */
  function Repackaged(us: seq<seq<Byte>>): seq<Byte>
    decreases |us|
  {
    if us == [] then [] else FourByte(us[0]) + Repackaged(us[1..])
  }

  lemma {:induction false} RepackagedSnoc(us: seq<seq<Byte>>, u: seq<Byte>)
    ensures Repackaged(us + [u]) == Repackaged(us) + FourByte(u)
    decreases |us|
  {
    hide FourByte;
    if us == [] {
      assert us + [u] == [u] && [u][1..] == [];
    } else {
      RepackagedSnoc(us[1..], u);
      assert (us + [u])[1..] == us[1..] + [u];
    }
  }

  /** What follows the start code of a unit. */
  function Payload(u: seq<Byte>): seq<Byte>
    requires Begins(u)
  {
    if CodeAt(u, 0) then u[3..] else u[4..]
  }

  predicate AllBegin(us: seq<seq<Byte>>) {
    forall k :: 0 <= k < |us| ==> Begins(us[k])
  }

  /** The data of a frame: each payload behind a four-byte start code, in order. */
  function Framed(us: seq<seq<Byte>>): seq<Byte>
    requires AllBegin(us)
    decreases |us|
  {
    if us == [] then [] else [0, 0, 0, 1] + Payload(us[0]) + Framed(us[1..])
  }

  /** Every unit leaves with the four-byte start code, its payload unchanged. */
  lemma FourByteForm(u: seq<Byte>)
    requires Begins(u)
    ensures FourByte(u) == [0, 0, 0, 1] + Payload(u)
  {
    if CodeAt(u, 0) {
      assert [0] + u == [0] + u[..3] + u[3..] == [0, 0, 0, 1] + u[3..];
    } else {
      assert u == u[..4] + u[4..];
    }
  }

  lemma {:induction false} RepackagedIsFramed(us: seq<seq<Byte>>)
    requires AllBegin(us)
    ensures Repackaged(us) == Framed(us)
    decreases |us|
  {
    hide Begins, FourByte, Payload;
    if us != [] {
      FourByteForm(us[0]);
      RepackagedIsFramed(us[1..]);
    }
  }

  lemma RepackagedStep(u: seq<Byte>, us: seq<seq<Byte>>)
    ensures Repackaged([u] + us) == FourByte(u) + Repackaged(us)
    ensures AllBegin([u] + us) <==> Begins(u) && AllBegin(us)
  {
    hide FourByte, Begins;
    var all := [u] + us;
    assert all[1..] == us;
    assert forall k :: 0 <= k < |us| ==> us[k] == all[k + 1];
  }

  /** A hidden start code of four bytes does no harm to the data if its unit is to be read too: the
      code comes out where it belongs, inside a piece. */
  predicate Absorbed(s: Setup, base: nat, i: nat, end: nat)
    requires s.bufferSize > 0 && base <= i + 2 && CodeAt(s.file, i)
  {
    !Seen(s, base, i) && UnitStart(s.file, i) + 1 == i && i <= end
  }

  /** Like a clean range, but such hidden codes are let through. */
  ghost predicate FrameClean(s: Setup, base: nat, g: seq<Byte>, q: nat, end: nat)
    requires |g| == s.bufferSize > 0 && base <= |s.file| && base <= q + 3 && q <= |s.file| && end <= |s.file|
  {
    q < end ==>
      && (forall i :: q + 3 <= i && CodeAt(s.file, i) && UnitStart(s.file, i) <= RangeEnd(s.file, q, end) ==>
            (Seen(s, base, i) && !Halved(s, base, i)) || Absorbed(s, base, i, end))
      && (RangeEnd(s.file, q, end) == |s.file| ==> TailFits(s, base, g, end))
  }

  /** The pieces all begin with a start code, as the code asserts, and the data is that of the units. */
  predicate DataIsRight(run: seq<seq<Byte>>, units: seq<seq<Byte>>) {
    AllBegin(run) && Repackaged(run) == Repackaged(units)
  }

  lemma FrameCleanSeen(s: Setup, base: nat, g: seq<Byte>, q: nat, end: nat)
    requires |g| == s.bufferSize > 0 && base <= |s.file| && base <= q + 3 && q < end <= |s.file|
    requires NextCode(s.file, q + 3) < |s.file| && Seen(s, base, NextCode(s.file, q + 3))
    ensures var i, e := NextCode(s.file, q + 3), NextStart(s.file, q);
      && base <= i + 2 && base <= e + 3 && e <= |s.file|
      && (FrameClean(s, base, g, q, end) <==> !Halved(s, base, i) && FrameClean(s, base, g, e, end))
  {
    hide Seen, Halved, TailFits, CodeAt, UnitStart, NextCode, NextStart, RangeEnd;
    var i, e, r := NextCode(s.file, q + 3), NextStart(s.file, q), RangeEnd(s.file, q, end);
    CodesAhead(s.file, q);
    UnitsToStep(s.file, q, end);
    UnitsToStep(s.file, e, end);
    forall k | q + 3 <= k && CodeAt(s.file, k)
      ensures k == i || (e + 3 <= k && e < UnitStart(s.file, k))
    {
      CodesBehind(s.file, q, k);
    }
  }

  /** A hidden code is the last one of the file, at most one byte in front of its end. */
  lemma HiddenIsLast(s: Setup, base: nat, q: nat)
    requires s.bufferSize >= 5 && base <= q + 3 && q <= |s.file| && NoMore(s, base, q)
    requires NextCode(s.file, q + 3) < |s.file|
    ensures var e := NextStart(s.file, q); e < |s.file| && NextStart(s.file, e) == |s.file|
    ensures forall k :: q + 3 <= k && CodeAt(s.file, k) ==> k == NextCode(s.file, q + 3)
    ensures LastOffset(s, base) < |s.file|
  {
    hide WindowAt;
    var i, e := NextCode(s.file, q + 3), NextStart(s.file, q);
    CodesAhead(s.file, q);
    UnseenIsInLast(s, base, i);
    NextCodeIsNone(s.file, e + 3);
  }

  lemma FrameCleanHidden(s: Setup, base: nat, g: seq<Byte>, q: nat, end: nat)
    requires |g| == s.bufferSize >= 5 && base <= |s.file| && base <= q + 3 && q < end <= |s.file|
    requires NoMore(s, base, q) && NextCode(s.file, q + 3) < |s.file|
    ensures var i, e := NextCode(s.file, q + 3), NextStart(s.file, q);
      FrameClean(s, base, g, q, end) <==> e + 1 == i && e < end && TailIsClean(s, base, g)
  {
    hide Seen, Halved, TailIsClean, CodeAt, NextCode, NextStart, RangeEnd, NoMore, LastOffset;
    var i, e := NextCode(s.file, q + 3), NextStart(s.file, q);
    HiddenIsLast(s, base, q);
    HiddenIsUnseen(s, base, q);
    CodesAhead(s.file, q);
    UnitsToStep(s.file, q, end);
    UnitsToStep(s.file, e, end);
    UnitsToStep(s.file, |s.file|, end);
    if e < end {
      assert RangeEnd(s.file, q, end) == |s.file|;
    }
    StartOf(s.file, i);
  }

  lemma StartOf(f: seq<Byte>, i: nat)
    requires CodeAt(f, i)
    ensures UnitStart(f, i) == i || UnitStart(f, i) + 1 == i
  {
  }

  lemma FrameCleanLast(s: Setup, base: nat, g: seq<Byte>, q: nat, end: nat)
    requires |g| == s.bufferSize > 0 && base <= |s.file| && base <= q + 3 && q < end <= |s.file|
    requires NextCode(s.file, q + 3) == |s.file|
    ensures FrameClean(s, base, g, q, end) <==> TailFits(s, base, g, end)
  {
    hide Seen, Halved, TailFits, UnitStart, Absorbed;
    UnitsToStep(s.file, q, end);
    UnitsToStep(s.file, |s.file|, end);
  }

  /** A zero too many shows in the data, whatever follows. */
  lemma DoubledZeroShows(a: seq<Byte>, run: seq<seq<Byte>>, units: seq<seq<Byte>>)
    requires Begins(a) && AllBegin(units)
    ensures !DataIsRight([a + [0]] + run, [a] + units)
  {
    hide Payload, FourByte;
    RepackagedStep(a + [0], run);
    RepackagedStep(a, units);
    FourByteSnoc(a, 0);
    var x, y := Repackaged(run), Repackaged(units);
    assert FourByte(a) + [0] + x == FourByte(a) + ([0] + x);
    CancelPrefix(FourByte(a), [0] + x, y);
    if AllBegin(run) {
      RepackagedStarts(run);
      RepackagedStarts(units);
      ShiftShows(x, y);
    }
  }

  lemma ShiftShows(x: seq<Byte>, y: seq<Byte>)
    requires x == [] || (|x| >= 4 && x[2] == 0)
    requires y == [] || (|y| >= 4 && y[3] == 1)
    ensures [0] + x != y
  {
    if |x| >= 4 {
      assert ([0] + x)[3] == x[2];
    }
  }

  lemma FourByteSnoc(a: seq<Byte>, b: Byte)
    requires |a| >= 3
    ensures FourByte(a + [b]) == FourByte(a) + [b]
  {
  }

  lemma RepackagedStarts(us: seq<seq<Byte>>)
    requires AllBegin(us)
    ensures us == [] ==> Repackaged(us) == []
    ensures us != [] ==> |Repackaged(us)| >= 4 && Repackaged(us)[2] == 0 && Repackaged(us)[3] == 1
  {
    hide Payload;
    if us != [] {
      FourByteForm(us[0]);
    }
  }

  /** The same first piece leaves the question to the rest. */
  lemma RightStep(u: seq<Byte>, run: seq<seq<Byte>>, units: seq<seq<Byte>>)
    requires Begins(u)
    ensures DataIsRight([u] + run, [u] + units) <==> DataIsRight(run, units)
  {
    hide FourByte, Begins, AllBegin;
    RepackagedStep(u, run);
    RepackagedStep(u, units);
    CancelPrefix(FourByte(u), Repackaged(run), Repackaged(units));
  }

  lemma FourByteLength(a: seq<Byte>, b: seq<Byte>)
    requires a < b
    ensures |FourByte(a)| < |FourByte(b)|
  {
    assert CodeAt(a, 0) ==> CodeAt(b, 0);
  }

  /** The last call of a range with nothing hidden: right exactly if the tail fits. */
  lemma LastUnitIsRight(s: Setup, base: nat, g: seq<Byte>, w: Window, q: nat, end: nat)
    requires Stands(s, base, g, w, q) && q < end <= |s.file| && NextCode(s.file, q + 3) == |s.file|
    requires |g| == s.bufferSize > 0 && base <= |s.file| && base <= q + 3
    ensures Valid(s, w)
    ensures DataIsRight(RunTo(s, w, end), UnitsTo(s.file, q, end)) <==> TailFits(s, base, g, end)
  {
    hide Stands, NextCut, Valid, NextStart, NextCode, RunTo, UnitsTo, Begins, AllBegin, FourByte, Repackaged;
    hide LastEnd, TailStop, LastOffset, TailIsClean, IsStart;
    NoMoreAtEnd(s, base, q);
    LastPieceIsRead(s, base, g, w, q, end);
    NextCodeFacts(s.file, q);
    UnitsToStep(s.file, q, end);
    UnitsToStep(s.file, |s.file|, end);
    StandsAtStart(s, base, g, w, q);
    UnitIsOne(s.file, q);
    StopIsClean(s, base, g);
    StopIsLast(s, base, g);
    var t := LastEnd(s, base, g);
    OnePiece(s.file[q..t], s.file[q..|s.file|]);
    assert UnitsTo(s.file, q, end) == [s.file[q..|s.file|]];
    if t < |s.file| {
      assert s.file[q..t] < s.file[q..|s.file|] by {
        PrefixOf(s.file, q, t, |s.file|);
      }
      FourByteLength(s.file[q..t], s.file[q..|s.file|]);
    }
  }

  lemma NoMoreAtEnd(s: Setup, base: nat, q: nat)
    requires s.bufferSize > 0 && base <= q + 3 && NextCode(s.file, q + 3) == |s.file|
    ensures NoMore(s, base, q)
  {
  }

  lemma PrefixOf(f: seq<Byte>, q: nat, a: nat, b: nat)
    requires q <= a < b <= |f|
    ensures f[q..a] < f[q..b]
  {
    assert f[q..a] == f[q..b][..a - q];
  }

  lemma OnePiece(a: seq<Byte>, b: seq<Byte>)
    ensures DataIsRight([a], [b]) <==> Begins(a) && FourByte(a) == FourByte(b)
    ensures Repackaged([a]) == FourByte(a)
  {
    hide FourByte, Begins, Repackaged, AllBegin;
    NoPieces();
    RepackagedStep(a, []);
    RepackagedStep(b, []);
    assert [a] + [] == [a] && [b] + [] == [b];
    assert FourByte(a) + [] == FourByte(a) && FourByte(b) + [] == FourByte(b);
  }

  lemma NoPieces()
    ensures Repackaged([]) == [] && AllBegin([])
  {
  }

  /** What a run returns from its last call on: one piece, or a second one that does not begin with a
      start code. */
  lemma LastPieceIsRead(s: Setup, base: nat, g: seq<Byte>, w: Window, q: nat, end: nat)
    requires Stands(s, base, g, w, q) && NoMore(s, base, q) && q < end <= |s.file|
    requires |g| == s.bufferSize > 0 && base <= |s.file|
    ensures Valid(s, w) && q <= LastEnd(s, base, g) <= |s.file|
    ensures TailStop(s, base, g) >= end ==> RunTo(s, w, end) == [s.file[q..LastEnd(s, base, g)]]
    ensures TailStop(s, base, g) < end ==> !AllBegin(RunTo(s, w, end))
  {
    hide Stands, NextCut, Valid, RunTo, NoMore, Begins, LastEnd, TailStop;
    StandsFacts(s, base, g, w, q);
    RunToStep(s, w, end);
    LastPiece(s, base, g, w, q);
    StopIsClean(s, base, g);
    var c := NextCut(s, w);
    RunToStep(s, c.next, end);
    if TailStop(s, base, g) < end {
      SecondPiece(s, base, g, w, q);
      var run := RunTo(s, w, end);
      assert run[1] == NextCut(s, c.next).unit;
    }
  }

  /** The last call of a range that runs over a hidden code. */
  lemma HiddenUnitIsRight(s: Setup, base: nat, g: seq<Byte>, w: Window, q: nat, end: nat)
    requires Stands(s, base, g, w, q) && NoMore(s, base, q) && q < end <= |s.file|
    requires |g| == s.bufferSize >= 5 && base <= |s.file| && base <= q + 3 && NextCode(s.file, q + 3) < |s.file|
    ensures Valid(s, w)
    ensures DataIsRight(RunTo(s, w, end), UnitsTo(s.file, q, end))
       <==> NextStart(s.file, q) + 1 == NextCode(s.file, q + 3) && NextStart(s.file, q) < end && TailIsClean(s, base, g)
  {
    hide Stands, NextCut, Valid, NextStart, NextCode, RunTo, UnitsTo, Begins, AllBegin, FourByte, Repackaged, NoMore;
    hide LastEnd, TailStop, LastOffset, TailIsClean, IsStart, CodeAt;
    var e, t, n := NextStart(s.file, q), LastEnd(s, base, g), |s.file|;
    LastPieceIsRead(s, base, g, w, q, end);
    HiddenIsLast(s, base, q);
    HiddenIsLonger(s, base, g, w, q);
    StopIsClean(s, base, g);
    UnitsToStep(s.file, q, end);
    UnitsToStep(s.file, e, end);
    UnitsToStep(s.file, n, end);
    StandsAtStart(s, base, g, w, q);
    UnitIsOne(s.file, q);
    NextStartFarther(s.file, q);
    CodesAhead(s.file, q);
    EndsInFile(s.file, NextCode(s.file, q + 3));
    if e >= end {
      assert UnitsTo(s.file, q, end) == [s.file[q..e]];
      OnePiece(s.file[q..t], s.file[q..e]);
      PrefixOf(s.file, q, e, t);
      FourByteLength(s.file[q..e], s.file[q..t]);
    } else {
      assert UnitsTo(s.file, q, end) == [s.file[q..e]] + [s.file[e..n]];
      MergedPiece(s.file, q, e, t);
      FormOf(s.file, q);
    }
  }

  /** Where the code stands tells the form of the unit behind it. */
  lemma FormOf(f: seq<Byte>, q: nat)
    requires NextCode(f, q + 3) < |f|
    ensures CodeAt(f, NextStart(f, q)) <==> NextStart(f, q) == NextCode(f, q + 3)
  {
  }

  /** A piece over two units is as good as both exactly if it is whole and the second has four bytes. */
  lemma MergedPiece(f: seq<Byte>, q: nat, e: nat, t: nat)
    requires q + 3 <= e < t <= |f| && e + 3 <= |f| && Begins(f[q..e])
    ensures DataIsRight([f[q..t]], [f[q..e]] + [f[e..|f|]]) <==> t == |f| && !CodeAt(f, e)
  {
    hide Repackaged, AllBegin, FourByte;
    var a, b, c := f[q..e], f[e..|f|], f[q..t];
    OnePiece(c, c);
    OnePiece(b, b);
    RepackagedStep(a, [b]);
    assert CodeAt(c, 0) <==> CodeAt(a, 0);
    assert Begins(c);
    FourByteSize(a);
    FourByteSize(b);
    FourByteSize(c);
    assert CodeAt(b, 0) <==> CodeAt(f, e);
    if t == |f| && !CodeAt(f, e) {
      assert c == a + b;
      FourByteSum(a, b);
    }
  }

  lemma FourByteSize(u: seq<Byte>)
    ensures |FourByte(u)| == |u| + (if CodeAt(u, 0) then 1 else 0)
  {
  }

  lemma FourByteSum(a: seq<Byte>, b: seq<Byte>)
    requires |a| >= 3 && !CodeAt(b, 0)
    ensures FourByte(a + b) == FourByte(a) + FourByte(b)
  {
    assert CodeAt(a + b, 0) <==> CodeAt(a, 0);
  }

  /** From a unit start up to any later position: all pieces read begin with a start code and the data
      made of them is that of the units of the range, exactly if the range is clean for frames. */
  lemma {:induction false} RangeData(s: Setup, base: nat, g: seq<Byte>, w: Window, q: nat, end: nat)
    requires Stands(s, base, g, w, q) && end <= |s.file|
    ensures |g| == s.bufferSize > 0 && base <= |s.file| && base <= q + 3 && q <= |s.file| && Valid(s, w)
    ensures DataIsRight(RunTo(s, w, end), UnitsTo(s.file, q, end)) <==> FrameClean(s, base, g, q, end)
    decreases |s.file| - q
  {
    hide Stands, NextCut, Valid, NextStart, NextCode, Seen, Halved, RunTo, UnitsTo, FrameClean, NoMore;
    hide DataIsRight, IsStart, Begins;
    StandsFacts(s, base, g, w, q);
    BaseFacts(s, base, g, w, q);
    RunToStep(s, w, end);
    UnitsToStep(s.file, q, end);
    if q >= end {
      NothingIsRight(s, base, g, q, end);
    } else if !NoMore(s, base, q) {
      MoreMeansSeen(s, base, q);
      var e := NextStart(s.file, q);
      SeenStep(s, base, g, w, q);
      FrameCleanSeen(s, base, g, q, end);
      var c := NextCut(s, w);
      RangeData(s, base, g, c.next, e, end);
      StandsAtStart(s, base, g, w, q);
      UnitIsOne(s.file, q);
      SeenUnitIsRight(s, base, g, c, q, end);
    } else if NextCode(s.file, q + 3) < |s.file| {
      HiddenUnitIsRight(s, base, g, w, q, end);
      FrameCleanHidden(s, base, g, q, end);
    } else {
      NextCodeFacts(s.file, q);
      LastUnitIsRight(s, base, g, w, q, end);
      FrameCleanLast(s, base, g, q, end);
    }
  }

  lemma NothingIsRight(s: Setup, base: nat, g: seq<Byte>, q: nat, end: nat)
    requires |g| == s.bufferSize > 0 && base <= |s.file| && base <= q + 3 && q <= |s.file| && end <= |s.file|
    requires q >= end
    ensures FrameClean(s, base, g, q, end) && DataIsRight([], [])
  {
  }

  lemma SeenUnitIsRight(s: Setup, base: nat, g: seq<Byte>, c: Cut, q: nat, end: nat)
    requires |g| == s.bufferSize > 0 && base <= q + 3 && q < NextStart(s.file, q) < |s.file| && end <= |s.file|
    requires IsStart(s.file, q) && IsStart(s.file, NextStart(s.file, q)) && Valid(s, c.next)
    requires base <= NextCode(s.file, q + 3) + 2
    requires OneUnit(s.file[q..NextStart(s.file, q)])
    requires c.unit == s.file[q..NextStart(s.file, q)] + Zero(Halved(s, base, NextCode(s.file, q + 3)))
    ensures var e := NextStart(s.file, q);
      var run, units := RunTo(s, c.next, end), UnitsTo(s.file, e, end);
      DataIsRight([c.unit] + run, [s.file[q..e]] + units)
      <==> !Halved(s, base, NextCode(s.file, q + 3)) && DataIsRight(run, units)
  {
    hide Valid, NextStart, NextCode, Halved, RunTo, UnitsTo, DataIsRight, IsStart, Begins;
    var e := NextStart(s.file, q);
    var u, run, units := s.file[q..e], RunTo(s, c.next, end), UnitsTo(s.file, e, end);
    if Halved(s, base, NextCode(s.file, q + 3)) {
      UnitsToAreUnits(s.file, e, end);
      UnitsBegin(units);
      DoubledZeroShows(u, run, units);
    } else {
      assert c.unit == u;
      RightStep(u, run, units);
    }
  }

  lemma UnitsBegin(us: seq<seq<Byte>>)
    requires forall u :: u in us ==> OneUnit(u)
    ensures AllBegin(us)
  {
    hide Begins;
    assert forall k :: 0 <= k < |us| ==> us[k] in us;
  }

  /** What getFrameData returns for a range that begins at a unit start: the code's assertion holds
      and the data is the payloads of the range's units, each behind a four-byte start code, exactly
      if the range is clean for frames when windows are read from its start on. */
  lemma FrameDataIsExact(s: Setup, g: seq<Byte>, start: nat, end: nat)
    requires s.bufferSize >= 5 && |g| == s.bufferSize && IsStart(s.file, start) && end <= |s.file|
    ensures start < |s.file| && AllBegin(UnitsTo(s.file, start, end))
    ensures var run := RunTo(s, Sought(s, start, g), end);
      AllBegin(run) && Repackaged(run) == Framed(UnitsTo(s.file, start, end)) <==> FrameClean(s, start, g, start, end)
  {
    hide Stands, Sought, Begins, RunTo, UnitsTo, FrameClean, IsStart, Repackaged, AllBegin;
    SoughtStands(s, g, start);
    UnitsToAreUnits(s.file, start, end);
    UnitsBegin(UnitsTo(s.file, start, end));
    RepackagedIsFramed(UnitsTo(s.file, start, end));
    RangeData(s, start, g, Sought(s, start, g), start, end);
  }

  /** The data is that of the frame if and only if the range is clean; a range that does not begin at
      a unit start has no frame. */
  ghost predicate RightIfClean(s: Setup, g: seq<Byte>, start: nat, end: nat, data: seq<Byte>)
    requires s.bufferSize >= 5 && |g| == s.bufferSize && start < |s.file| && end <= |s.file|
  {
    IsStart(s.file, start) && AllBegin(UnitsTo(s.file, start, end)) ==>
      (data == Framed(UnitsTo(s.file, start, end)) <==> FrameClean(s, start, g, start, end))
  }

  lemma RunIsRightIfClean(s: Setup, g: seq<Byte>, start: nat, end: nat)
    requires s.bufferSize >= 5 && |g| == s.bufferSize && start < |s.file| && end <= |s.file|
    requires AllBegin(RunTo(s, Sought(s, start, g), end))
    ensures RightIfClean(s, g, start, end, Repackaged(RunTo(s, Sought(s, start, g), end)))
  {
    hide Sought, RunTo, UnitsTo, FrameClean, IsStart, Repackaged, AllBegin;
    if IsStart(s.file, start) {
      FrameDataIsExact(s, g, start, end);
    }
  }

  /** A range whose units are read right is one of them. */
  lemma CleanIsFrameClean(s: Setup, base: nat, g: seq<Byte>, q: nat, end: nat)
    requires |g| == s.bufferSize > 0 && base <= |s.file| && base <= q + 3 && q <= |s.file| && end <= |s.file|
    requires CleanTo(s, base, g, q, end)
    ensures FrameClean(s, base, g, q, end)
  {
    hide Seen, Halved, TailFits, RangeEnd;
  }
}
