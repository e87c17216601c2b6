/** The reader of raw Annex B files: a fixed read buffer that is refilled window by window. */
module FileSourceAnnexBFile {
  import opened ByteStream
  import opened Arithmetic
  import opened AnnexBScan
  import opened ByteArrays
  import opened AnnexBSteps
  import opened AnnexBAccess
  import opened AnnexBFrames
  import opened AnnexBFrameData

  class FileSourceAnnexBFile {
    const file: seq<Byte>
    const bufferSize: nat
    const before: Byte
    const fileBuffer: array<Byte>
    var filePos: nat
    var fileBufferSize: nat
    var bufferStartPosInFile: nat
    var posInBuffer: int
    var lastReturnArray: seq<Byte>
    var nrBytesBeforeFirstNAL: int

    ghost function Fixed(): Setup {
      Setup(file, bufferSize, before)
    }

    ghost function View(): Window
      reads this, fileBuffer
    {
      Window(bufferStartPosInFile, fileBufferSize, posInBuffer, fileBuffer[..])
    }

    ghost predicate Synced()
      reads this
    {
      fileBuffer.Length == bufferSize && filePos == bufferStartPosInFile + fileBufferSize <= |file|
    }

    ghost predicate IsValid()
      reads this, fileBuffer
    {
      Synced() && Valid(Fixed(), View())
    }

    /** A new reader: the buffer has its size, its bytes are whatever the memory held. */
    constructor (file: seq<Byte>, bufferSize: nat, before: Byte)
      requires bufferSize >= 5
      ensures this.file == file && this.bufferSize == bufferSize && this.before == before
      ensures Synced() && filePos == bufferStartPosInFile == 0 && fresh(fileBuffer)
    {
      this.file, this.bufferSize, this.before := file, bufferSize, before;
      fileBuffer := new Byte[bufferSize];
      filePos, fileBufferSize, bufferStartPosInFile, posInBuffer := 0, 0, 0, 0;
      lastReturnArray, nrBytesBeforeFirstNAL := [], 0;
    }

    /** srcFile.read into the buffer: bytes behind the ones that were read keep their value. */
    method ReadFile() returns (n: nat)
      requires fileBuffer.Length == bufferSize && filePos <= |file|
      modifies this`filePos, fileBuffer
      ensures n == Min(bufferSize, |file| - old(filePos)) && filePos == old(filePos) + n
      ensures fileBuffer[..] == file[old(filePos)..old(filePos) + n] + old(fileBuffer[..])[n..]
    {
      n := Min(bufferSize, |file| - filePos);
      forall k | 0 <= k < n {
        fileBuffer[k] := file[filePos + k];
      }
      filePos := filePos + n;
    }

    method UpdateBuffer() returns (more: bool)
      requires Synced()
      modifies this, fileBuffer
      ensures Synced() && View() == Load(Fixed(), old(bufferStartPosInFile + fileBufferSize), old(fileBuffer[..]))
      ensures lastReturnArray == old(lastReturnArray) && nrBytesBeforeFirstNAL == old(nrBytesBeforeFirstNAL)
      ensures more == (fileBufferSize > 0)
    {
      hide Load;
      ghost var pos, stale := filePos, fileBuffer[..];
      bufferStartPosInFile := bufferStartPosInFile + fileBufferSize;
      fileBufferSize := ReadFile();
      posInBuffer := 0;
      LoadIs(Fixed(), pos, stale, View());
      more := fileBufferSize > 0;
    }

    /** The query the parsing loop stops on. */
    method IsAtEnd() returns (r: bool)
      requires IsValid()
      ensures r <==> AtEnd(Fixed(), View())
    {
      r := fileBufferSize < bufferSize && posInBuffer >= fileBufferSize;
    }

    /** The special boundary case of getNextNALUnit: the next window is loaded, and the last three
        bytes of the old one decide together with its first three. */
    method CrossBoundary() returns (startCodeFound: bool, nextStartCodePos: int)
      requires Synced() && fileBufferSize == bufferSize >= 5
      modifies this, fileBuffer
      ensures Synced() && nrBytesBeforeFirstNAL == old(nrBytesBeforeFirstNAL)
      ensures View() == Load(Fixed(), old(bufferStartPosInFile) + bufferSize, old(fileBuffer[..]))
      ensures var h := BoundaryChoice(old(fileBuffer[..]), View());
        && startCodeFound == h.found
        && (h.found ==> nextStartCodePos == h.next)
        && lastReturnArray == Chop(old(lastReturnArray), h.chop)
    {
      hide Chop, Load;
      ChopNothing(lastReturnArray);
      var lastByteZero0 := fileBuffer[fileBufferSize - 3] == 0;
      var lastByteZero1 := fileBuffer[fileBufferSize - 2] == 0;
      var lastByteZero2 := fileBuffer[fileBufferSize - 1] == 0;
      startCodeFound, nextStartCodePos := false, -1;
      var _ := UpdateBuffer();

      if fileBufferSize > 2 {
        if fileBuffer[0] == 1 && lastByteZero2 && lastByteZero1 {
          startCodeFound := true;
          nextStartCodePos := if lastByteZero0 then -3 else -2;
          lastReturnArray := Chop(lastReturnArray, if lastByteZero0 then 3 else 2);
        } else if fileBuffer[0] == 0 && fileBuffer[1] == 1 && lastByteZero2 {
          startCodeFound := true;
          nextStartCodePos := if lastByteZero1 then -2 else -1;
          lastReturnArray := Chop(lastReturnArray, 1);
        } else if fileBuffer[0] == 0 && fileBuffer[1] == 0 && fileBuffer[2] == 1 {
          startCodeFound := true;
          nextStartCodePos := if lastByteZero2 then -1 else 0;
          if lastByteZero2 {
            lastReturnArray := Chop(lastReturnArray, 1);
          }
        }
      }
    }

    /** One round of the search loop: the valid bytes from the position on are searched; without a
        hit they are collected, and the search crosses into the next window or is out of file. */
    method SearchWindow(searchOffset: int, ghost w0: Window)
      returns (startCodeFound: bool, outOfFile: bool, nextStartCodePos: int)
      requires Synced() && Searching(Fixed(), w0, View(), searchOffset, lastReturnArray)
      modifies this, fileBuffer
      ensures Synced() && nrBytesBeforeFirstNAL == old(nrBytesBeforeFirstNAL)
      ensures outOfFile ==> Cut(lastReturnArray, View()) == NextCut(Fixed(), w0)
      ensures outOfFile ==> posInBuffer == bufferSize && bufferStartPosInFile + fileBufferSize == |file|
      ensures !outOfFile && startCodeFound ==> Found(Fixed(), w0, View(), nextStartCodePos, lastReturnArray)
      ensures !outOfFile && !startCodeFound ==>
        Searching(Fixed(), w0, View(), 0, lastReturnArray) && bufferStartPosInFile > old(bufferStartPosInFile)
    {
      hide Searching, Found, NextCut, Mid, Chop, IndexOf, Reached, Valid, BoundaryChoice, From;
      ghost var s, w, ret := Fixed(), View(), lastReturnArray;
      SearchFacts(s, w0, w, searchOffset, ret);
      outOfFile := false;
      if posInBuffer < 0 {
        lastReturnArray := lastReturnArray + seq(-posInBuffer, _ => 0);
      }
      nextStartCodePos := IndexOf(fileBuffer[..], posInBuffer + searchOffset);

      if nextStartCodePos < 0 || nextStartCodePos > fileBufferSize {
        startCodeFound, outOfFile, nextStartCodePos := LeaveWindow(searchOffset, w0, ret);
      } else {
        SearchHits(s, w0, w, searchOffset, ret, nextStartCodePos);
        startCodeFound := true;
        if (if nextStartCodePos == 0 then before else fileBuffer[nextStartCodePos - 1]) == 0 {
          nextStartCodePos := nextStartCodePos - 1;
        }
      }
    }

    /** The branch without a hit: all valid bytes are collected; `ret` is what was before. */
    method LeaveWindow(ghost searchOffset: int, ghost w0: Window, ghost ret: seq<Byte>)
      returns (startCodeFound: bool, outOfFile: bool, nextStartCodePos: int)
      requires Synced() && Searching(Fixed(), w0, View(), searchOffset, ret)
      requires View().pos + searchOffset >= 0 && Missed(View(), searchOffset)
      requires lastReturnArray == WithHead(View(), ret)
      modifies this, fileBuffer
      ensures Synced() && nrBytesBeforeFirstNAL == old(nrBytesBeforeFirstNAL)
      ensures outOfFile ==> Cut(lastReturnArray, View()) == NextCut(Fixed(), w0)
      ensures outOfFile ==> posInBuffer == bufferSize && bufferStartPosInFile + fileBufferSize == |file|
      ensures !outOfFile && startCodeFound ==> Found(Fixed(), w0, View(), nextStartCodePos, lastReturnArray)
      ensures !outOfFile && !startCodeFound ==>
        Searching(Fixed(), w0, View(), 0, lastReturnArray) && bufferStartPosInFile > old(bufferStartPosInFile)
    {
      hide Searching, Found, NextCut, Mid, Chop, IndexOf, Reached, Valid, BoundaryChoice, From, WithHead, Missed, Load;
      ghost var s, w := Fixed(), View();
      SearchFacts(s, w0, w, searchOffset, ret);
      lastReturnArray := lastReturnArray + Mid(fileBuffer[..], posInBuffer, fileBufferSize - posInBuffer);
      nextStartCodePos := -1;
      if fileBufferSize < bufferSize {
        SearchEnds(s, w0, w, searchOffset, ret);
        posInBuffer := bufferSize;
        startCodeFound, outOfFile := false, true;
      } else {
        BoundaryStep(s, w0, w, searchOffset, ret);
        LoadStarts(s, w.start + bufferSize, w.buf);
        startCodeFound, nextStartCodePos := CrossBoundary();
        outOfFile := false;
      }
    }

    method GetNextNALUnit(getLastDataAgain: bool) returns (unit: seq<Byte>, startPos: int, endPos: int)
      requires IsValid()
      modifies this, fileBuffer
      ensures IsValid() && nrBytesBeforeFirstNAL == old(nrBytesBeforeFirstNAL)
      ensures getLastDataAgain ==> View() == old(View()) && unit == lastReturnArray == old(lastReturnArray)
      ensures !getLastDataAgain ==> Cut(unit, View()) == NextCut(Fixed(), old(View())) && lastReturnArray == unit
      ensures !getLastDataAgain ==> startPos == old(bufferStartPosInFile + posInBuffer)
      ensures !getLastDataAgain ==>
        endPos == if posInBuffer == bufferSize then |file| - 1 else bufferStartPosInFile + posInBuffer
    {
      hide Searching, Found, NextCut, Mid, Valid;
      if getLastDataAgain {
        return lastReturnArray, 0, 0;
      }
      ghost var s, w0 := Fixed(), View();
      SearchBegins(s, w0);
      CutIsValid(s, w0);
      lastReturnArray := [];
      startPos := bufferStartPosInFile + posInBuffer;
      var nextStartCodePos, searchOffset, startCodeFound, outOfFile := -1, 3, false, false;
      while !startCodeFound
        invariant Synced() && nrBytesBeforeFirstNAL == old(nrBytesBeforeFirstNAL)
        invariant !startCodeFound ==> Searching(s, w0, View(), searchOffset, lastReturnArray)
        invariant startCodeFound ==> Found(s, w0, View(), nextStartCodePos, lastReturnArray)
        decreases !startCodeFound, |file| - bufferStartPosInFile
      {
        startCodeFound, outOfFile, nextStartCodePos := SearchWindow(searchOffset, w0);
        if outOfFile {
          return lastReturnArray, startPos, bufferStartPosInFile + fileBufferSize - 1;
        }
        searchOffset := 0;
      }

      FoundCut(s, w0, View(), nextStartCodePos, lastReturnArray);
      endPos := bufferStartPosInFile + nextStartCodePos;
      if nextStartCodePos > posInBuffer {
        lastReturnArray := lastReturnArray + Mid(fileBuffer[..], posInBuffer, nextStartCodePos - posInBuffer);
      }
      posInBuffer := nextStartCodePos;
      unit := lastReturnArray;
    }

    /** Puts the position on the first unit: straight from the buffer, or with getNextNALUnit when
        the first buffer holds no start code. */
    method SeekToFirstNAL()
      requires IsValid()
      modifies this, fileBuffer
      ensures IsValid() && View() == FirstCut(Fixed(), old(View()))
      ensures nrBytesBeforeFirstNAL == bufferStartPosInFile + posInBuffer
    {
      hide Valid, NextCut;
      FirstCutIsValid(Fixed(), View());
      ghost var w := View();
      var nextStartCodePos := IndexOf(fileBuffer[..], 0);
      if nextStartCodePos < 0 {
        var _, _, _ := GetNextNALUnit(false);
      } else if nextStartCodePos > 0 && fileBuffer[nextStartCodePos - 1] == 0 {
        posInBuffer := nextStartCodePos - 1;
      } else {
        posInBuffer := nextStartCodePos;
      }
      nrBytesBeforeFirstNAL := bufferStartPosInFile + posInBuffer;
    }

    method OpenFile() returns (ok: bool)
      requires Synced() && filePos == bufferStartPosInFile == posInBuffer == 0 && bufferSize >= 5
      modifies this, fileBuffer
      ensures ok == (file != [])
      ensures ok ==> IsValid() && View() == Sought(Fixed(), 0, old(fileBuffer[..]))
      ensures ok ==> nrBytesBeforeFirstNAL == bufferStartPosInFile + posInBuffer
    {
      fileBufferSize := ReadFile();
      if fileBufferSize == 0 {
        return false;
      }
      assert View() == Load(Fixed(), 0, old(fileBuffer[..]));
      SeekToFirstNAL();
      ok := true;
    }

    /** Reads from `pos` on. A position at or behind the end of the file empties the buffer and
        fails; otherwise the reader stands there, whether or not a start code is found. */
    method Seek(pos: nat) returns (ok: bool)
      requires fileBuffer.Length == bufferSize >= 5
      modifies this, fileBuffer
      ensures pos >= |file| ==> !ok && fileBufferSize == 0 && filePos == pos
      ensures pos < |file| ==> IsValid() && View() == Sought(Fixed(), pos, old(fileBuffer[..]))
      ensures pos < |file| ==>
        (ok <==> pos == 0 || CodeAt(View().buf, 0) || (View().buf[0] == 0 && CodeAt(View().buf, 1)))
    {
      hide Load, Sought, Valid, CodeAt, FirstCut;
      filePos := pos;
      if pos >= |file| {
        fileBufferSize := 0;
        return false;
      }
      fileBufferSize := ReadFile();
      bufferStartPosInFile := pos;
      posInBuffer := 0;
      LoadOf(Fixed(), pos, old(fileBuffer[..]), View());
      if pos == 0 {
        SeekToFirstNAL();
        return true;
      }
      ok := AtStartCode();
    }

    /** Whether the buffer begins with a start code of three or of four bytes. */
    method AtStartCode() returns (ok: bool)
      requires fileBuffer.Length >= 5
      ensures ok <==> CodeAt(fileBuffer[..], 0) || (fileBuffer[0] == 0 && CodeAt(fileBuffer[..], 1))
    {
      if fileBuffer[0] == 0 && fileBuffer[1] == 0 && fileBuffer[2] == 0 && fileBuffer[3] == 1 {
        return true;
      }
      if fileBuffer[0] == 0 && fileBuffer[1] == 0 && fileBuffer[2] == 1 {
        return true;
      }
      return false;
    }

    /** The loop of the parser: units are taken until the reader is at its end. */
    method ReadAll() returns (units: seq<seq<Byte>>)
      requires IsValid()
      modifies this, fileBuffer
      ensures IsValid() && AtEnd(Fixed(), View())
      ensures units == RunTo(Fixed(), old(View()), |file|)
    {
      hide Valid, NextCut, Load, RunTo, AtEnd;
      ghost var s, w0 := Fixed(), View();
      units := [];
      AtEndIsBehindFile(s, View());
      var done := IsAtEnd();
      while !done
        invariant IsValid() && (done <==> AtEnd(s, View()))
        invariant AtEnd(s, View()) <==> View().start + View().pos >= |file|
        invariant units + RunTo(s, View(), |file|) == RunTo(s, w0, |file|)
        decreases |file| - (bufferStartPosInFile + posInBuffer), !done
      {
        ghost var w, so := View(), units;
        CutIsValid(s, w);
        RunToStep(s, w, |file|);
        var unit, _, _ := GetNextNALUnit(false);
        units := units + [unit];
        assert so + ([unit] + RunTo(s, View(), |file|)) == units + RunTo(s, View(), |file|);
        AtEndIsBehindFile(s, View());
        done := IsAtEnd();
      }
      RunToStep(s, View(), |file|);
    }

    /** All units between two file positions, each with a four-byte start code. Every unit must begin
        with a start code: the code asserts it. */
    method GetFrameData(start: nat, end: nat) returns (data: seq<Byte>)
      requires fileBuffer.Length == bufferSize >= 5 && start < |file| && end <= |file|
      requires AllBegin(RunTo(Fixed(), Sought(Fixed(), start, fileBuffer[..]), end))
      modifies this, fileBuffer
      ensures data == Repackaged(RunTo(Fixed(), Sought(Fixed(), start, old(fileBuffer[..])), end))
      ensures RightIfClean(Fixed(), old(fileBuffer[..]), start, end, data)
    {
      hide Valid, NextCut, Sought, RunTo, RightIfClean, Begins, Repackaged, FourByte, CodeAt, Load, AllBegin;
      ghost var s, g := Fixed(), fileBuffer[..];
      RunIsRightIfClean(s, g, start, end);
      ghost var all := RunTo(s, Sought(s, start, g), end);
      NoPieces();
      data := [];
      var _ := Seek(start);
      ghost var done: seq<seq<Byte>> := [];
      while end > bufferStartPosInFile + posInBuffer
        invariant IsValid()
        invariant done + RunTo(s, View(), end) == all
        invariant data == Repackaged(done)
        decreases |file| - (bufferStartPosInFile + posInBuffer)
      {
        ghost var w := View();
        CutIsValid(s, w);
        AtEndIsBehindFile(s, w);
        RunToStep(s, w, end);
        var nalData, _, _ := GetNextNALUnit(false);
        NextOfAll(all, done, nalData, RunTo(s, View(), end));
        data := AppendUnit(data, nalData);
        RepackagedSnoc(done, nalData);
        done := done + [nalData];
      }
      RunToStep(s, View(), end);
      assert done == all;
    }

    /** One round of the loop of getFrameData. */
    method AppendUnit(data: seq<Byte>, nalData: seq<Byte>) returns (r: seq<Byte>)
      requires Begins(nalData)
      ensures r == data + FourByte(nalData)
    {
      var headerOffset := 0;
      if nalData[0] == 0 && nalData[1] == 0 {
        if nalData[2] == 0 && nalData[3] == 1 {
          headerOffset := 4;
        } else if nalData[2] == 1 {
          headerOffset := 3;
        }
      }
      assert headerOffset > 0;
      r := data;
      if headerOffset == 3 {
        r := r + [0];
      }
      r := r + nalData;
      assert headerOffset == 3 ==> data + [0] + nalData == data + ([0] + nalData);
    }
  }

  lemma LoadIs(s: Setup, pos: nat, stale: seq<Byte>, w: Window)
    requires |stale| == s.bufferSize && pos <= |s.file|
    requires var n := Min(s.bufferSize, |s.file| - pos);
      w == Window(pos, n, 0, s.file[pos..pos + n] + stale[n..])
    ensures w == Load(s, pos, stale)
  {
  }

  lemma LoadStarts(s: Setup, v: nat, stale: seq<Byte>)
    requires v <= |s.file| && |stale| == s.bufferSize
    ensures Load(s, v, stale).start == v
  {
  }

  /** What a read at a position leaves is the window there, and what a seek is described by. */
  lemma LoadOf(s: Setup, pos: nat, stale: seq<Byte>, w: Window)
    requires s.bufferSize >= 5 && |stale| == s.bufferSize && pos < |s.file| && w.start == pos && w.pos == 0
    requires w.size == Min(s.bufferSize, |s.file| - pos) && w.buf == s.file[pos..pos + w.size] + stale[w.size..]
    ensures w == Load(s, pos, stale) && Valid(s, w)
    ensures Sought(s, pos, stale) == if pos == 0 then FirstCut(s, w) else w
  {
    hide FirstCut;
  }

  lemma NextOfAll(all: seq<seq<Byte>>, done: seq<seq<Byte>>, next: seq<Byte>, rest: seq<seq<Byte>>)
    requires all == done + ([next] + rest) && AllBegin(all)
    ensures Begins(next) && all == done + [next] + rest
  {
    assert all[|done|] == next;
  }
}
