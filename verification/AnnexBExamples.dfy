/** Files, for every size of the read buffer, on which the reader departs from the split. */
module AnnexBExamples {
  import opened ByteStream
  import opened AnnexBScan
  import opened AnnexBRuns
  import opened AnnexBAccess

  function Filler(n: nat): seq<Byte> {
    seq(n, _ => 9)
  }

  /** A start code cut in halves by the end of the first window. */
  function HalvedFile(size: nat): (f: seq<Byte>)
    requires size >= 5
    ensures |f| == size + 3
  {
    [0, 0, 1] + Filler(size - 5) + [0, 0, 0, 1, 9]
  }

  /** The unit in front of it comes back with a zero too many. */
  lemma HalvedExample(size: nat, g: seq<Byte>, before: Byte)
    requires size >= 5 && |g| == size
    ensures var s := Setup(HalvedFile(size), size, before);
      var w := Load(s, 0, g);
      && Stands(s, 0, g, w, 0)
      && NextStart(s.file, 0) == size - 2
      && NextCut(s, w).unit == s.file[..size - 2] + [0]
      && !Clean(s, 0, g, 0)
  {
    var f := HalvedFile(size);
    var s := Setup(f, size, before);
    assert CodeAt(f, size - 1) && f[size - 2] == 0;
    NextCodeIs(f, 3, size - 1);
    SeekStands(s, g, 0);
    SecondWindow(size, size + 1);
    SeenStep(s, 0, g, Load(s, 0, g), 0);
    assert f[0..size - 2] == f[..size - 2];
    assert Halved(s, 0, size - 1);
  }

  lemma SecondWindow(size: nat, x: nat)
    requires 0 < size <= x < size + size
    ensures WindowAt(0, size, x) == WindowAt(size, size, x) == size
  {
  }

  /** A start code that ends in a last window of one byte. */
  function HiddenFile(size: nat): (f: seq<Byte>)
    requires size >= 5
    ensures |f| == size + 1
  {
    [0, 0, 1] + Filler(size - 5) + [0, 0, 1]
  }

  /** The two units come back as one. */
  lemma HiddenExample(size: nat, g: seq<Byte>, before: Byte)
    requires size >= 5 && |g| == size
    ensures var s := Setup(HiddenFile(size), size, before);
      var w := Load(s, 0, g);
      && Stands(s, 0, g, w, 0)
      && NextStart(s.file, 0) == size - 2
      && |NextCut(s, w).unit| > size - 2
      && !Clean(s, 0, g, 0)
  {
    var f := HiddenFile(size);
    var s := Setup(f, size, before);
    assert CodeAt(f, size - 2) && f[size - 3] != 0;
    NextCodeIs(f, 3, size - 2);
    SeekStands(s, g, 0);
    SecondWindow(size, size);
    assert !Seen(s, 0, size - 2);
    TailStep(s, 0, g, Load(s, 0, g), 0);
    UnseenIsLonger(s, 0, g, Load(s, 0, g), 0);
  }

  /** Two zeros at the end of the file, and a one of the first window behind them in the buffer. */
  function StaleFile(size: nat): (f: seq<Byte>)
    requires size >= 5
    ensures |f| == size + 3
  {
    [0, 0, 1, 1] + Filler(size - 3) + [0, 0]
  }

  /** The only unit is cut where the stale bytes read as a start code. */
  lemma {:induction false} StaleExample(size: nat, g: seq<Byte>, before: Byte)
    requires size >= 5 && |g| == size
    ensures var s := Setup(StaleFile(size), size, before);
      var w := Load(s, 0, g);
      && Stands(s, 0, g, w, 0) && Valid(s, w)
      && NextStart(s.file, 0) == size + 3
      && RunTo(s, w, size + 3) != Units(s.file, 0)
  {
    var f := StaleFile(size);
    var s := Setup(f, size, before);
    assert forall k :: 3 <= k < size + 1 ==> f[k] != 0;
    NextCodeIsNone(f, 3);
    SeekStands(s, g, 0);
    StaleTail(s, g);
    hide Stands, TailIsClean, Clean, RunTo, Units, Load, Valid;
    NotClean(s, 0, g, 0);
    RunIsSplit(s, 0, g, Load(s, 0, g), 0);
  }

  lemma NotClean(s: Setup, base: nat, g: seq<Byte>, q: nat)
    requires |g| == s.bufferSize > 0 && base <= |s.file| && base <= q + 3 && !TailIsClean(s, base, g)
    ensures !Clean(s, base, g, q)
  {
  }

  lemma StaleTail(s: Setup, g: seq<Byte>)
    requires |g| == s.bufferSize >= 5 && s.file == StaleFile(s.bufferSize)
    ensures !TailIsClean(s, 0, g)
  {
    var size := s.bufferSize;
    SecondWindow(size, size + 3);
    var b := BufferFrom(s, 0, g, size);
    assert b == s.file[size..size + 3] + s.file[0..size][3..];
    assert b[1] == 0 && b[2] == 0 && b[3] == 1;
    assert CodeAt(b, 1);
  }
}
