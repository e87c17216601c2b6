/** Packets that hold units behind 4-byte lengths (the sample format of ISO/IEC 14496-15): telling
    them from other packets, and taking the units out again. */
module Mp4Packets {
  import opened ByteStream
  import opened ByteArrays

  const MAX_UNIT: nat := 1_000_000_000

  type Units = seq<seq<Byte>>

  function Lengths(n: nat): (r: seq<Byte>)
    requires n < 0x1_0000_0000
    ensures |r| == 4
  {
    [(n / 0x100_0000) as Byte, (n / 0x1_0000 % 0x100) as Byte, (n / 0x100 % 0x100) as Byte, (n % 0x100) as Byte]
  }

  predicate Fits(us: Units) {
    forall k :: 0 <= k < |us| ==> |us[k]| <= MAX_UNIT
  }

  /** The packet with these units. */
  function Pack(us: Units): seq<Byte>
    requires Fits(us)
    decreases |us|
  {
    if us == [] then [] else Lengths(|us[0]|) + us[0] + Pack(us[1..])
  }

  /** Four bytes read as a number; beyond is what a read behind the end would find. */
  function SizeAt(beyond: Byte, data: seq<Byte>, pos: nat): (r: nat)
    ensures r < 0x1_0000_0000
  {
    ByteAt(beyond, data, pos) as nat * 0x100_0000 + ByteAt(beyond, data, pos + 1) as nat * 0x1_0000
    + ByteAt(beyond, data, pos + 2) as nat * 0x100 + ByteAt(beyond, data, pos + 3) as nat
  }

  function ByteAt(beyond: Byte, data: seq<Byte>, pos: nat): Byte {
    if pos < |data| then data[pos] else beyond
  }

  /** The size of the unit data begins with. */
  function Size(data: seq<Byte>): nat
    requires |data| >= 4
  {
    SizeAt(0, data, 0)
  }

  /** The verdict of checkForMp4Format. Up to three bytes may be left over at the end. */
  predicate IsMp4(data: seq<Byte>)
    decreases |data|
  {
    |data| < 4 || (Size(data) <= MAX_UNIT && 4 + Size(data) <= |data| && IsMp4(data[4 + Size(data)..]))
  }

  /** The units of a packet, and what is left over behind them. */
  function Parts(data: seq<Byte>): (r: (Units, seq<Byte>))
    requires IsMp4(data)
    decreases |data|
  {
    if |data| < 4 then ([], data)
    else
      var (us, tail) := Parts(data[4 + Size(data)..]);
      ([data[4..4 + Size(data)]] + us, tail)
  }

  lemma SizeOfLengths(beyond: Byte, n: nat, data: seq<Byte>, pos: nat)
    requires n < 0x1_0000_0000
    requires pos + 4 <= |data| && data[pos..pos + 4] == Lengths(n)
    ensures SizeAt(beyond, data, pos) == n
  {
    var d := data[pos..pos + 4];
    assert data[pos] == d[0] && data[pos + 1] == d[1] && data[pos + 2] == d[2] && data[pos + 3] == d[3];
    assert n / 0x100 == n / 0x1_0000 * 0x100 + n / 0x100 % 0x100;
    assert n / 0x1_0000 == n / 0x100_0000 * 0x100 + n / 0x1_0000 % 0x100;
  }

  lemma FirstSize(n: nat, data: seq<Byte>)
    requires n < 0x1_0000_0000 && 4 <= |data| && data[0..0 + 4] == Lengths(n)
    ensures Size(data) == n
  {
    SizeOfLengths(0, n, data, 0);
  }

  lemma LengthsOfSize(data: seq<Byte>)
    requires |data| >= 4
    ensures Size(data) < 0x1_0000_0000 && Lengths(Size(data)) == data[..4]
  {
    BaseDigits(data[0] as nat, data[1] as nat, data[2] as nat, data[3] as nat);
  }

  lemma BaseDigits(a: nat, b: nat, c: nat, d: nat)
    requires a < 0x100 && b < 0x100 && c < 0x100 && d < 0x100
    ensures var n := a * 0x100_0000 + b * 0x1_0000 + c * 0x100 + d;
      && n < 0x1_0000_0000 && n / 0x100_0000 == a && n / 0x1_0000 % 0x100 == b
      && n / 0x100 % 0x100 == c && n % 0x100 == d
  {
    var n := a * 0x100_0000 + b * 0x1_0000 + c * 0x100 + d;
    assert n / 0x100 == a * 0x1_0000 + b * 0x100 + c;
    assert n / 0x1_0000 == a * 0x100 + b;
  }

  lemma PackStep(us: Units)
    requires Fits(us) && us != []
    ensures Pack(us) == Lengths(|us[0]|) + us[0] + Pack(us[1..])
  {
  }

  lemma ThreeParts(a: seq<Byte>, b: seq<Byte>, c: seq<Byte>, tail: seq<Byte>)
    ensures var d := a + b + c + tail;
      |d| >= |a| + |b| && d[0..0 + |a|] == a && d[|a|..|a| + |b|] == b && d[|a| + |b|..] == c + tail
  {
    assert a + b + c + tail == a + b + (c + tail);
  }

  lemma PartsStep(data: seq<Byte>)
    requires |data| >= 4
    ensures IsMp4(data) <==> Size(data) <= MAX_UNIT && 4 + Size(data) <= |data| && IsMp4(data[4 + Size(data)..])
    ensures IsMp4(data) ==>
      && Parts(data).0 == [data[4..4 + Size(data)]] + Parts(data[4 + Size(data)..]).0
      && Parts(data).1 == Parts(data[4 + Size(data)..]).1
  {
    hide Size;
  }

  /** What follows the first unit of a packed sequence. */
  lemma FirstOfPack(us: Units, tail: seq<Byte>)
    requires Fits(us) && us != []
    ensures var data := Pack(us) + tail; var n := |us[0]|;
      && |data| >= 4 + n && Size(data) == n
      && data[4..4 + n] == us[0] && data[4 + n..] == Pack(us[1..]) + tail
  {
    hide SizeAt, Lengths, Pack, Size;
    var n := |us[0]|;
    var rest := Pack(us[1..]);
    PackStep(us);
    ThreeParts(Lengths(n), us[0], rest, tail);
    FirstSize(n, Pack(us) + tail);
  }

  /** Packing and taking apart are inverse: every list of units comes back. */
  lemma {:induction false} PackedIsMp4(us: Units, tail: seq<Byte>)
    requires Fits(us) && |tail| < 4
    ensures IsMp4(Pack(us) + tail) && Parts(Pack(us) + tail) == (us, tail)
    decreases |us|
  {
    hide Size, IsMp4, Parts, Pack, Fits;
    if us == [] {
      NoParts(tail);
    } else {
      FirstFits(us);
      FirstOfPack(us, tail);
      PartsStep(Pack(us) + tail);
      PackedIsMp4(us[1..], tail);
      assert us == [us[0]] + us[1..];
    }
  }

  lemma NoParts(data: seq<Byte>)
    requires |data| < 4
    ensures IsMp4(data) && Parts(data) == ([], data) && Pack([]) + data == data
  {
  }

  /** And every packet the check accepts is a packed list of units and a short rest. */
  lemma {:induction false} Mp4IsPacked(data: seq<Byte>)
    requires IsMp4(data)
    ensures var (us, tail) := Parts(data); Fits(us) && |tail| < 4 && data == Pack(us) + tail
    decreases |data|
  {
    hide Size, Lengths, IsMp4, Parts;
    if |data| < 4 {
      NoParts(data);
    } else {
      var n := Size(data);
      PartsStep(data);
      Mp4IsPacked(data[4 + n..]);
      var (us, tail) := Parts(data[4 + n..]);
      LengthsOfSize(data);
      var unit := data[4..4 + n];
      assert ([unit] + us)[1..] == us && Fits([unit] + us);
      PackStep([unit] + us);
      assert data == data[..4] + unit + data[4 + n..];
      assert data[..4] + unit + (Pack(us) + tail) == data[..4] + unit + Pack(us) + tail;
    }
  }

  datatype Format = Unknown | RawNal | Mp4 | Obu

  predicate RawNal4(data: seq<Byte>) {
    |data| > 4 && data[0] == 0 && data[1] == 0 && data[2] == 0 && data[3] == 1
  }

  predicate RawNal3(data: seq<Byte>) {
    |data| > 3 && data[0] == 0 && data[1] == 0 && data[2] == 1
  }

  /** The format guessDataFormatFromData finds; isObu is the answer of checkForObuFormat. */
  function Guess(data: seq<Byte>, isObu: bool): Format {
    if |data| < 4 then Unknown
    else if RawNal4(data) then RawNal
    else if IsMp4(data) then Mp4
    else if isObu then Obu
    else if RawNal3(data) then RawNal
    else Unknown
  }

  /** A packed list of units is recognised exactly if its first unit is not one byte long: that length
      looks like a start code. */
  lemma PackedIsGuessed(us: Units, isObu: bool)
    requires Fits(us) && us != []
    ensures Guess(Pack(us), isObu) == Mp4 <==> |us[0]| != 1
    ensures |us[0]| == 1 ==> Guess(Pack(us), isObu) == RawNal
  {
    hide Size, IsMp4, Parts, Pack, Fits;
    var data := Pack(us);
    assert data + [] == data;
    FirstOfPack(us, []);
    PackedIsMp4(us, []);
    StartCodeIsOne(data);
  }

  lemma StartCodeIsOne(data: seq<Byte>)
    requires |data| >= 4
    ensures RawNal4(data) <==> Size(data) == 1 && |data| > 4
  {
  }

  /** Data behind a four-byte start code is taken for raw units. Behind a three-byte one it is only if it
      is neither cut like a packed list nor answers to the check for OBUs, which comes first; and it is
      cut like one if it is as long as the start code says when it is read as a length. */
  lemma RawIsGuessed(data: seq<Byte>, isObu: bool)
    requires |data| > 4
    ensures data[..4] == [0, 0, 0, 1] ==> Guess(data, isObu) == RawNal
    ensures data[..3] == [0, 0, 1] ==> (Guess(data, isObu) == RawNal <==> !isObu && !IsMp4(data))
    ensures data[..3] == [0, 0, 1] && isObu && !IsMp4(data) ==> Guess(data, isObu) == Obu
    ensures data[..3] == [0, 0, 1] && |data| < 260 + data[3] as nat ==> !IsMp4(data)
    ensures data[..3] == [0, 0, 1] && |data| == 260 + data[3] as nat ==> Guess(data, isObu) == Mp4
  {
    if data[..3] == [0, 0, 1] {
      assert data[0] == 0 && data[1] == 0 && data[2] == 1;
      assert Size(data) == 256 + data[3] as nat;
    }
    if data[..4] == [0, 0, 0, 1] {
      assert data[0] == 0 && data[1] == 0 && data[2] == 0 && data[3] == 1;
    }
  }

  /** The reader: packets still to come, and the unread part of the current one. */
  datatype Reader = Reader(packets: seq<seq<Byte>>, data: seq<Byte>, pos: nat, last: seq<Byte>)

  function Loaded(r: Reader): Reader {
    if r.data == [] && r.packets != [] then r.(packets := r.packets[1..], data := r.packets[0], pos := 0) else r
  }

  /** getNextUnit for this format. A length that is negative as a 32-bit int, or longer than what the
      packet still holds, gives nothing and drops the packet. The bytes of the length itself are not
      counted, so a unit up to four bytes too long passes and is cut off. */
  function Next(beyond: Byte, r: Reader): (Reader, seq<Byte>) {
    if r.data == [] && r.packets == [] then (r, []) else TakeUnit(beyond, Loaded(r))
  }

  function TakeUnit(beyond: Byte, q: Reader): (Reader, seq<Byte>) {
    var size := SizeAt(beyond, q.data, q.pos);
    if size >= 0x8000_0000 || size > |q.data| - q.pos then (q.(data := []), [])
    else
      var unit := Mid(q.data, q.pos + 4, size);
      var pos := q.pos + 4 + size;
      (Reader(q.packets, if pos >= |q.data| then [] else q.data, pos, unit), unit)
  }

  /** The reader and the units after n calls. */
  function Calls(beyond: Byte, r: Reader, n: nat): (Reader, Units)
    decreases n
  {
    if n == 0 then (r, [])
    else
      var (q, unit) := Next(beyond, r);
      var (end, rest) := Calls(beyond, q, n - 1);
      (end, [unit] + rest)
  }

  lemma {:induction false} CallsOfSum(beyond: Byte, r: Reader, m: nat, n: nat)
    ensures Calls(beyond, r, m + n).0 == Calls(beyond, Calls(beyond, r, m).0, n).0
    ensures Calls(beyond, r, m + n).1 == Calls(beyond, r, m).1 + Calls(beyond, Calls(beyond, r, m).0, n).1
    decreases m
  {
    hide Next;
    if m > 0 {
      CallsOfSum(beyond, Next(beyond, r).0, m - 1, n);
    }
  }

  /** At a unit boundary, one call returns the next unit whole. */
  lemma NextIsUnit(beyond: Byte, r: Reader, us: Units, tail: seq<Byte>)
    requires r.pos <= |r.data| && r.data != []
    requires Fits(us) && us != [] && r.data[r.pos..] == Pack(us) + tail
    ensures var (q, unit) := Next(beyond, r);
      && unit == us[0] && q.packets == r.packets
      && (if |us| == 1 && tail == [] then q.data == []
          else q.data == r.data && q.pos <= |q.data| && q.data[q.pos..] == Pack(us[1..]) + tail)
  {
    hide SizeAt, Pack, Mid, Size, Next, Fits;
    FirstFits(us);
    FirstOfPack(us, tail);
    RestReads(beyond, r.data, r.pos, |us[0]|);
    NextWhole(beyond, r, |us[0]|);
    NothingLeft(us, tail);
  }

  lemma FirstFits(us: Units)
    requires Fits(us) && us != []
    ensures |us[0]| <= MAX_UNIT && Fits(us[1..])
  {
  }

  lemma NothingLeft(us: Units, tail: seq<Byte>)
    requires Fits(us) && us != []
    ensures |Pack(us[1..]) + tail| == 0 <==> |us| == 1 && tail == []
  {
    PackIsEmpty(us[1..]);
    EmptySum(Pack(us[1..]), tail);
  }

  lemma NextWhole(beyond: Byte, r: Reader, n: nat)
    requires r.data != [] && r.pos + 4 + n <= |r.data| && n <= MAX_UNIT && SizeAt(beyond, r.data, r.pos) == n
    ensures Next(beyond, r) ==
      (Reader(r.packets, if r.pos + 4 + n == |r.data| then [] else r.data, r.pos + 4 + n, Mid(r.data, r.pos + 4, n)),
       Mid(r.data, r.pos + 4, n))
  {
    hide SizeAt, Mid;
  }

  /** Reading at pos is reading at the start of what lies behind pos. */
  lemma RestReads(beyond: Byte, data: seq<Byte>, pos: nat, n: nat)
    requires pos <= |data| && 4 + n <= |data[pos..]|
    ensures SizeAt(beyond, data, pos) == Size(data[pos..])
    ensures Mid(data, pos + 4, n) == data[pos..][4..4 + n]
    ensures pos + 4 + n <= |data| && data[pos..][4 + n..] == data[pos + 4 + n..]
  {
  }

  lemma EmptySum(a: seq<Byte>, b: seq<Byte>)
    ensures a + b == [] <==> a == [] && b == []
  {
  }

  lemma PackIsEmpty(us: Units)
    requires Fits(us)
    ensures Pack(us) == [] <==> us == []
  {
  }

  /** From a unit boundary on, the calls return the units in order; behind the last one the packet is
      finished, unless bytes are left over. */
  lemma {:induction false} UnitsOfRest(beyond: Byte, r: Reader, us: Units, tail: seq<Byte>)
    requires r.pos <= |r.data| && r.data != []
    requires Fits(us) && r.data[r.pos..] == Pack(us) + tail && (us != [] || tail != [])
    ensures var (q, units) := Calls(beyond, r, |us|);
      && units == us && q.packets == r.packets && (q.data == [] <==> tail == [])
      && (q.data != [] ==> q.pos <= |q.data| && q.data[q.pos..] == tail)
    decreases |us|
  {
    hide Next, Pack, Fits, Calls;
    if us == [] {
      PackIsEmpty(us);
      NoCall(beyond, r);
      assert [] + tail == tail;
    } else {
      FirstFits(us);
      NextIsUnit(beyond, r, us, tail);
      CallFirst(beyond, r, |us|);
      var q := Next(beyond, r).0;
      assert us == [us[0]] + us[1..];
      if |us| == 1 && tail == [] {
        NoCall(beyond, q);
      } else {
        UnitsOfRest(beyond, q, us[1..], tail);
      }
    }
  }

  lemma NoCall(beyond: Byte, r: Reader)
    ensures Calls(beyond, r, 0) == (r, [])
  {
  }

  lemma CallFirst(beyond: Byte, r: Reader, n: nat)
    requires n > 0
    ensures var (q, unit) := Next(beyond, r);
      Calls(beyond, r, n) == (Calls(beyond, q, n - 1).0, [unit] + Calls(beyond, q, n - 1).1)
  {
    hide Next;
  }

  /** Every packet that is taken for this format is read as the units it is packed from, each once and
      in order, and is then done with, exactly if no bytes are left over. */
  lemma GuessedIsRead(beyond: Byte, r: Reader, isObu: bool)
    requires r.data == [] && r.packets != [] && Guess(r.packets[0], isObu) == Mp4
    ensures IsMp4(r.packets[0])
    ensures var (us, tail) := Parts(r.packets[0]);
      && Fits(us) && us != [] && |tail| < 4 && r.packets[0] == Pack(us) + tail
      && var (q, units) := Calls(beyond, r, |us|);
        units == us && q.packets == r.packets[1..] && (q.data == [] <==> tail == [])
  {
    hide Size, Pack, Parts, IsMp4, Next;
    var data := r.packets[0];
    Mp4IsPacked(data);
    PartsStep(data);
    var (us, tail) := Parts(data);
    LoadIsFree(beyond, r, |us|);
    var q := Loaded(r);
    assert q.data[q.pos..] == data;
    UnitsOfRest(beyond, q, us, tail);
  }

  /** A call loads the next packet by itself. */
  lemma LoadIsFree(beyond: Byte, r: Reader, n: nat)
    requires n > 0 && (r.packets != [] ==> r.packets[0] != [])
    ensures Calls(beyond, r, n) == Calls(beyond, Loaded(r), n)
  {
    hide SizeAt, Mid;
    assert Loaded(Loaded(r)) == Loaded(r);
    assert Next(beyond, r) == Next(beyond, Loaded(r));
  }

  function AllUnits(uss: seq<Units>): Units
    decreases |uss|
  {
    if uss == [] then [] else uss[0] + AllUnits(uss[1..])
  }

  function Packets(uss: seq<Units>): seq<seq<Byte>>
    requires forall k :: 0 <= k < |uss| ==> Fits(uss[k])
  {
    seq(|uss|, k requires 0 <= k < |uss| => Pack(uss[k]))
  }

  /** A whole file: the units of all its packets come out, whatever packet they are in. */
  lemma {:induction false} FileIsRead(beyond: Byte, r: Reader, uss: seq<Units>)
    requires forall k :: 0 <= k < |uss| ==> uss[k] != [] && Fits(uss[k])
    requires r.data == [] && r.packets == Packets(uss)
    ensures var (q, units) := Calls(beyond, r, |AllUnits(uss)|);
      units == AllUnits(uss) && q.data == [] && q.packets == []
    decreases |uss|
  {
    hide Next, Pack, Fits;
    if uss != [] {
      PacketIsRead(beyond, r, uss[0]);
      var (q, units) := Calls(beyond, r, |uss[0]|);
      assert q.packets == Packets(uss[1..]);
      FileIsRead(beyond, q, uss[1..]);
      CallsOfSum(beyond, r, |uss[0]|, |AllUnits(uss[1..])|);
    }
  }

  lemma PacketIsRead(beyond: Byte, r: Reader, us: Units)
    requires Fits(us) && us != []
    requires r.data == [] && r.packets != [] && r.packets[0] == Pack(us)
    ensures var (q, units) := Calls(beyond, r, |us|);
      units == us && q.packets == r.packets[1..] && q.data == []
  {
    hide Pack, Next, Size;
    var q := Loaded(r);
    FirstOfPack(us, []);
    assert Pack(us) + [] == Pack(us);
    assert q.data[q.pos..] == Pack(us) + [];
    UnitsOfRest(beyond, q, us, []);
    LoadIsFree(beyond, r, |us|);
  }

  /** A packet cut off within a unit: the units in front of it come out whole. The cut one is returned
      without a sign of it if at most four bytes are missing, since the bytes of the length count as
      bytes of the unit; else nothing is. Either way the packet is done with. */
  lemma CutOffUnits(beyond: Byte, r: Reader, us: Units, n: nat, part: seq<Byte>)
    requires Fits(us) && |part| < n < 0x8000_0000
    requires r.data == [] && r.packets != [] && r.packets[0] == Pack(us) + (Lengths(n) + part)
    ensures var (q, units) := Calls(beyond, r, |us| + 1);
      && units == us + [if n <= |part| + 4 then part else []]
      && q.data == [] && q.packets == r.packets[1..]
  {
    hide Next, Pack, Fits, Lengths;
    var q := Loaded(r);
    LoadIsFree(beyond, r, |us| + 1);
    assert q.data[q.pos..] == Pack(us) + (Lengths(n) + part);
    UnitsOfRest(beyond, q, us, Lengths(n) + part);
    var end := Calls(beyond, q, |us|).0;
    CutUnit(beyond, end, n, part);
    CallsOfSum(beyond, q, |us|, 1);
    OneCall(beyond, end);
  }

  lemma OneCall(beyond: Byte, r: Reader)
    ensures Calls(beyond, r, 1) == (Next(beyond, r).0, [Next(beyond, r).1])
  {
    hide Next, Calls;
    var (q, unit) := Next(beyond, r);
    CallFirst(beyond, r, 1);
    NoCall(beyond, q);
    assert [unit] + [] == [unit];
  }

  lemma CutUnit(beyond: Byte, r: Reader, n: nat, part: seq<Byte>)
    requires |part| < n < 0x8000_0000 && r.data != [] && r.pos <= |r.data| && r.data[r.pos..] == Lengths(n) + part
    ensures var (q, unit) := Next(beyond, r);
      unit == (if n <= |part| + 4 then part else []) && q.data == [] && q.packets == r.packets
  {
    hide SizeAt, Lengths;
    assert r.data[r.pos..r.pos + 4] == r.data[r.pos..][..4] == Lengths(n);
    SizeOfLengths(beyond, n, r.data, r.pos);
    assert r.data[r.pos + 4..] == r.data[r.pos..][4..] == part;
  }
}
