/** Reading units and key frames from a container file. */
module FileSourceFFmpegFile {
  import opened ByteStream
  import opened ByteArrays
  import opened Mp4Packets
  import opened Keyframes

  /** Walks over the units of the packet and checks that every length fits. */
  method CheckForMp4Format(data: seq<Byte>) returns (ok: bool)
    ensures ok == IsMp4(data)
  {
    hide SizeAt, Size, IsMp4;
    var pos := 0;
    assert data[pos..] == data;
    while pos + 4 <= |data|
      invariant pos <= |data|
      invariant IsMp4(data) == IsMp4(data[pos..])
      decreases |data| - pos
    {
      var size := SizeAt(0, data, pos);
      SizeOfRest(0, data, pos);
      PartsStep(data[pos..]);
      pos := pos + 4;
      if size > MAX_UNIT {
        return false;
      }
      if pos + size > |data| {
        return false;
      }
      assert data[pos - 4..][4 + size..] == data[pos + size..];
      pos := pos + size;
    }
    NoParts(data[pos..]);
    return true;
  }

  lemma SizeOfRest(beyond: Byte, data: seq<Byte>, pos: nat)
    requires pos + 4 <= |data|
    ensures SizeAt(beyond, data, pos) == Size(data[pos..])
  {
  }

  /** The packet the library fills again and again. */
  class AVPacketWrapper {
    var packet: Packet
    var packetFormat: Format

    constructor ()
      ensures packetFormat == Unknown
    {
      packet := Packet([], false, false, 0);
      packetFormat := Unknown;
    }

    /** The format is found once and kept. */
    method GuessDataFormatFromData() returns (format: Format)
      modifies this`packetFormat
      ensures format == packetFormat
      ensures packetFormat
           == if old(packetFormat) != Unknown then old(packetFormat) else Guess(packet.data, packet.isObu)
    {
      if packetFormat != Unknown {
        return packetFormat;
      }
      var data := packet.data;
      if |data| < 4 {
        return packetFormat;
      }
      if RawNal4(data) {
        packetFormat := RawNal;
      } else {
        var mp4 := CheckForMp4Format(data);
        if mp4 {
          packetFormat := Mp4;
        } else if packet.isObu {
          packetFormat := Obu;
        } else if RawNal3(data) {
          packetFormat := RawNal;
        }
      }
      return packetFormat;
    }
  }

  class FileSourceFFmpegFile {
    // The video packets the library has not handed over yet.
    var packets: seq<Packet>
    const currentPacket: AVPacketWrapper
    var currentPacketData: seq<Byte>
    var posInData: nat
    var lastReturnArray: seq<Byte>
    var packetDataFormat: Format
    var endOfFile: bool
    var keyFrameList: seq<PictureIdx>
    var nrFrames: nat
    // What a read behind the end of the data finds.
    const beyond: Byte

    constructor (packets: seq<Packet>, beyond: Byte)
      ensures Valid() && fresh(currentPacket)
      ensures AsReader() == Reader(Datas(packets), [], 0, []) && packetDataFormat == Unknown
      ensures this.packets == packets && keyFrameList == [] && this.beyond == beyond
    {
      this.packets, this.beyond := packets, beyond;
      currentPacketData, posInData, lastReturnArray := [], 0, [];
      packetDataFormat, endOfFile, keyFrameList, nrFrames := Unknown, false, [], 0;
      currentPacket := new AVPacketWrapper();
    }

    /** The packet has been asked for its format whenever the file has one. */
    ghost predicate Valid()
      reads this, currentPacket
    {
      currentPacket.packetFormat == packetDataFormat
    }

    function AsReader(): Reader
      reads this
    {
      Reader(Datas(packets), currentPacketData, posInData, lastReturnArray)
    }

    /** The format of the file is that of the first packet that has a known one. */
    method GoToNextPacket() returns (ok: bool)
      requires Valid()
      modifies this`packets, this`packetDataFormat, this`endOfFile, currentPacket
      ensures Valid()
      ensures ok == (old(packets) != []) && endOfFile == (old(endOfFile) || !ok)
      ensures !ok ==> packets == old(packets) && packetDataFormat == old(packetDataFormat)
      ensures ok ==>
        && currentPacket.packet == old(packets)[0] && packets == old(packets)[1..]
        && packetDataFormat == if old(packetDataFormat) != Unknown then old(packetDataFormat)
                               else Guess(old(packets)[0].data, old(packets)[0].isObu)
    {
      if packets == [] {
        endOfFile := true;
        return false;
      }
      currentPacket.packet := packets[0];
      packets := packets[1..];
      if packetDataFormat == Unknown {
        packetDataFormat := currentPacket.GuessDataFormatFromData();
      }
      return true;
    }

    /** The format the next call of getNextUnit reads with: an unknown one is guessed when the call has
        to fetch a packet. */
    function NextFormat(): Format
      reads this
    {
      if packetDataFormat == Unknown && currentPacketData == [] && packets != [] then
        Guess(packets[0].data, packets[0].isObu)
      else packetDataFormat
    }

    /** The next unit of a file in the format with lengths, be it known before or guessed by the call.
        While no format is known the call fetches a packet but returns the unit before. */
    method GetNextUnit(getLastDataAgain: bool) returns (unit: seq<Byte>)
      requires Valid() && (getLastDataAgain || NextFormat() == Mp4 || NextFormat() == Unknown)
      modifies this`packets, this`packetDataFormat, this`endOfFile, this`currentPacketData, this`posInData,
        this`lastReturnArray, currentPacket
      ensures Valid() && packetDataFormat == if getLastDataAgain then old(packetDataFormat) else old(NextFormat())
      ensures getLastDataAgain ==> AsReader() == old(AsReader()) && unit == lastReturnArray
      ensures !getLastDataAgain && old(NextFormat()) == Mp4 ==>
        (AsReader(), unit) == Next(beyond, old(AsReader()))
      ensures !getLastDataAgain && old(NextFormat()) == Unknown ==>
        && AsReader() == Loaded(old(AsReader()))
        && unit == if old(currentPacketData == [] && packets == []) then [] else old(lastReturnArray)
    {
      hide TakeUnit, Guess;
      if getLastDataAgain {
        return lastReturnArray;
      }
      ghost var start := AsReader();
      if currentPacketData == [] {
        var ok := GoToNextPacket();
        if !ok {
          return [];
        }
        currentPacketData := currentPacket.packet.data;
        posInData := 0;
        assert Datas(packets) == start.packets[1..];
      }
      assert AsReader() == Loaded(start);
      if packetDataFormat != Mp4 {
        return lastReturnArray;
      }
      unit := TakeUnitOfPacket();
    }

    /** The branch of getNextUnit that reads a length and the unit behind it. */
    method TakeUnitOfPacket() returns (unit: seq<Byte>)
      modifies this`currentPacketData, this`posInData, this`lastReturnArray
      ensures (AsReader(), unit) == TakeUnit(beyond, old(AsReader()))
    {
      hide SizeAt, Mid;
      var size := SizeAt(beyond, currentPacketData, posInData);
      if size >= 0x8000_0000 {
        currentPacketData := [];
        return [];
      }
      if size > |currentPacketData| - posInData {
        currentPacketData := [];
        return [];
      }
      lastReturnArray := Mid(currentPacketData, posInData + 4, size);
      posInData := posInData + 4 + size;
      if posInData >= |currentPacketData| {
        currentPacketData := [];
      }
      return lastReturnArray;
    }

    /** Counts the frames and appends the key frames to the index. */
    method ScanBitstream()
      requires Valid()
      modifies this`packets, this`packetDataFormat, this`endOfFile, this`nrFrames, this`keyFrameList, currentPacket
      ensures Valid() && packets == [] && nrFrames == |old(packets)|
      ensures keyFrameList == old(keyFrameList) + KeyFrames(old(packets), 0)
    {
      hide KeyFrames, Own, Guess;
      ghost var all := keyFrameList + KeyFrames(packets, 0);
      nrFrames := 0;
      var ok := GoToNextPacket();
      assert ok ==> Ahead(ok) == old(packets);
      while ok
        invariant Valid() && nrFrames + |Ahead(ok)| == |old(packets)|
        invariant !ok ==> packets == []
        invariant keyFrameList + KeyFrames(Ahead(ok), nrFrames) == all
        decreases |packets|, ok
      {
        ghost var ahead, found := Ahead(ok), keyFrameList;
        assert ahead[1..] == packets;
        ScanStep(found, ahead, nrFrames);
        AddFrame();
        nrFrames := nrFrames + 1;
        ok := GoToNextPacket();
        assert Ahead(ok) == ahead[1..];
      }
      NoKeyFrames(keyFrameList, nrFrames);
    }

    /** The round of the scan for one packet. */
    method AddFrame()
      modifies this`keyFrameList
      ensures keyFrameList == old(keyFrameList) + Own(currentPacket.packet, nrFrames)
    {
      if currentPacket.packet.key {
        keyFrameList := keyFrameList + [PictureIdx(nrFrames, currentPacket.packet.dts)];
      }
    }

    /** The packets not yet looked at, with the one just fetched. */
    ghost function Ahead(fetched: bool): seq<Packet>
      reads this, currentPacket
    {
      if fetched then [currentPacket.packet] + packets else packets
    }

    method GetClosestSeekableFrameBefore(frameIdx: int) returns (dts: int, frame: nat)
      requires keyFrameList != []
      ensures PictureIdx(frame, dts) == Closest(keyFrameList, frameIdx)
    {
      dts := keyFrameList[0].dts;
      frame := keyFrameList[0].frame;
      var n := 0;
      while n < |keyFrameList|
        invariant n <= Passed(keyFrameList, frameIdx)
        invariant PictureIdx(frame, dts) == keyFrameList[if n == 0 then 0 else n - 1]
      {
        var pic := keyFrameList[n];
        if frameIdx > 0 && pic.frame <= frameIdx {
          dts := pic.dts;
          frame := pic.frame;
        } else {
          break;
        }
        n := n + 1;
      }
    }
  }

  lemma ScanStep(found: seq<PictureIdx>, ahead: seq<Packet>, n: nat)
    requires ahead != []
    ensures found + KeyFrames(ahead, n) == (found + Own(ahead[0], n)) + KeyFrames(ahead[1..], n + 1)
  {
  }

  lemma NoKeyFrames(found: seq<PictureIdx>, n: nat)
    ensures found + KeyFrames([], n) == found
  {
  }

  function Datas(packets: seq<Packet>): seq<seq<Byte>> {
    seq(|packets|, k requires 0 <= k < |packets| => packets[k].data)
  }
}
