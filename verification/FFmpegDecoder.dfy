/** The packet protocol of the FFmpeg decoder and of the caller that feeds it: packets may be refused
    and must be offered again, and an empty packet ends the input. */
module FFmpegDecoder {
  import opened ByteStream
  import opened Wrappers
  import opened DecoderBase
  import opened Arithmetic

  type Packet = seq<Byte>

  /** What avcodec_send_packet answers: taken, try again later, or an error. */
  datatype SendAnswer = Taken | Again | SendFailed

  /** What avcodec_receive_frame answers. `Minus35` is an answer of -35 where that is not the value of
      the try-again error; `fits` says whether the frame has the expected size. */
  datatype ReceiveAnswer = Frame(fits: bool, bytes: seq<Byte>) | TryAgain | Minus35 | ReceiveFailed

  /** The decoder's fields, the frame it holds, and the packets the library has taken. */
  datatype Decoder = Decoder(
    state: State, flushing: bool, frame: Option<seq<Byte>>, buffer: seq<Byte>, taken: seq<Packet>)

  function Fresh(): Decoder {
    Decoder(NeedsMoreData, false, None, [], [])
  }

  /** pushAVPacket. The empty packet switches to flushing and answers false. */
  function PushStep(d: Decoder, pkt: Option<Packet>, answer: SendAnswer): (Decoder, bool) {
    if d.state != NeedsMoreData then (d, false)
    else match pkt
      case None => (d.(flushing := true, state := RetrieveFrames), false)
      case Some(p) =>
        if d.flushing then (d, false)
        else match answer
          case Taken => (d.(taken := d.taken + [p]), true)
          case Again => (d.(state := RetrieveFrames), false)
          case SendFailed => (d.(state := Error), false)
  }

  /** decodeFrame behind decodeNextFrame. */
  function NextStep(d: Decoder, answer: ReceiveAnswer): (Decoder, bool) {
    if d.state != RetrieveFrames then (d, false)
    else match answer
      case Frame(fits, bytes) =>
        var d1 := d.(frame := Some(bytes));
        if fits then (d1.(buffer := []), true) else (d1.(state := Error), false)
      case TryAgain => (d.(state := if d.flushing then EndOfBitstream else NeedsMoreData), false)
      case Minus35 => (d, false)
      case ReceiveFailed => (d.(state := Error), false)
  }

  function RawStep(d: Decoder): (Decoder, seq<Byte>) {
    if d.state != RetrieveFrames then (d, [])
    else
      var d1 := if d.buffer == [] && d.frame.Some? then d.(buffer := d.frame.value) else d;
      (d1, d1.buffer)
  }

  function ResetStep(d: Decoder): Decoder {
    if d.state == Error then d else d.(flushing := false, state := NeedsMoreData)
  }

  /** While flushing the decoder never asks for data; the end is only reached by flushing; and what
      the buffer holds outside Error is the frame. */
  predicate Inv(d: Decoder) {
    && (d.flushing ==> d.state != NeedsMoreData)
    && (d.state == EndOfBitstream ==> d.flushing)
    && (d.state != Error && d.buffer != [] ==> d.frame == Some(d.buffer))
  }

  datatype Op = Push(pkt: Option<Packet>, send: SendAnswer) | Next(receive: ReceiveAnswer) | GetRaw | Reset

  function Step(d: Decoder, op: Op): Decoder {
    match op
    case Push(pkt, send) => PushStep(d, pkt, send).0
    case Next(receive) => NextStep(d, receive).0
    case GetRaw => RawStep(d).0
    case Reset => ResetStep(d)
  }

  function Run(d: Decoder, ops: seq<Op>): Decoder
    decreases |ops|
  {
    if ops == [] then d else Run(Step(d, ops[0]), ops[1..])
  }

  lemma {:induction false} RunKeeps(d: Decoder, ops: seq<Op>)
    requires Inv(d)
    ensures Inv(Run(d, ops))
    decreases |ops|
  {
    if ops != [] {
      RunKeeps(Step(d, ops[0]), ops[1..]);
    }
  }

  /** Once flushing, always flushing until a reset: no packet is taken and no data is asked for. */
  lemma {:induction false} FlushingLasts(d: Decoder, ops: seq<Op>)
    requires Inv(d) && d.flushing && Reset !in ops
    ensures Run(d, ops).flushing && Run(d, ops).state != NeedsMoreData && Run(d, ops).taken == d.taken
    decreases |ops|
  {
    if ops != [] {
      assert ops[0] != Reset;
      FlushingLasts(Step(d, ops[0]), ops[1..]);
    }
  }

  /** What a caller sees who takes frame after frame from the library: the answers of decodeNextFrame
      and the raw data behind each. */
  function Shown(d: Decoder, frames: seq<seq<Byte>>): (Decoder, seq<(bool, seq<Byte>)>)
    decreases |frames|
  {
    if frames == [] then (d, [])
    else
      var (d1, ok) := NextStep(d, Frame(true, frames[0]));
      var (d2, data) := RawStep(d1);
      var (end, rest) := Shown(d2, frames[1..]);
      (end, [(ok, data)] + rest)
  }

  /** Every frame the library gives is announced and is the raw data that the caller gets, whatever was
      shown before; and when no more come, the bitstream has ended if it was flushed, and else data is
      asked for. */
  lemma {:induction false} FramesAreShown(d: Decoder, frames: seq<seq<Byte>>)
    requires Inv(d) && d.state == RetrieveFrames
    ensures var (end, shown) := Shown(d, frames);
      && |shown| == |frames| && (forall k :: 0 <= k < |frames| ==> shown[k] == (true, frames[k]))
      && end.state == RetrieveFrames && end.flushing == d.flushing
      && NextStep(end, TryAgain).0.state == (if d.flushing then EndOfBitstream else NeedsMoreData)
      && !NextStep(end, TryAgain).1
    decreases |frames|
  {
    if frames != [] {
      FramesAreShown(RawStep(NextStep(d, Frame(true, frames[0])).0).0, frames[1..]);
    }
  }

  /** The caller may ask for the raw data again. */
  lemma RawTwice(d: Decoder)
    requires Inv(d)
    ensures RawStep(RawStep(d).0).1 == RawStep(d).1
  {
  }

  /** After a reset the decoder takes packets again, and goes on asking for more. */
  lemma ResetTakesPackets(d: Decoder, p: Packet, q: Packet)
    requires d.state != Error
    ensures var (d1, ok) := PushStep(ResetStep(d), Some(p), Taken);
      ok && PushStep(d1, Some(q), Taken).1 && PushStep(d1, Some(q), Taken).0.taken == d.taken + [p] + [q]
  {
  }

  /** The caller's loop: packets are read from the file one by one; the last one is offered again when
      the decoder has refused it; the caller gives up when a refusal does not lead to frames. */
  datatype Caller = Caller(next: nat, last: Option<Packet>, repush: bool, stopped: bool)

  datatype World = World(caller: Caller, decoder: Decoder)

  function Start(): World {
    World(Caller(0, None, false, false), Fresh())
  }

  function Offer(file: seq<Packet>, w: World, answer: SendAnswer): World {
    var c := w.caller;
    var pkt := if c.repush then c.last else if c.next < |file| then Some(file[c.next]) else None;
    var next := if c.repush then c.next else c.next + 1;
    var (d, ok) := PushStep(w.decoder, pkt, answer);
    World(Caller(next, pkt, !ok && d.state == RetrieveFrames, !ok && d.state != RetrieveFrames), d)
  }

  /** One round of the loop, with the answers of the library to whichever call is made. */
  function Round(file: seq<Packet>, w: World, send: SendAnswer, receive: ReceiveAnswer): World {
    if w.caller.stopped then w
    else if w.decoder.state == NeedsMoreData then Offer(file, w, send)
    else World(w.caller, NextStep(w.decoder, receive).0)
  }

  function Rounds(file: seq<Packet>, w: World, answers: seq<(SendAnswer, ReceiveAnswer)>): World
    decreases |answers|
  {
    if answers == [] then w
    else Rounds(file, Round(file, w, answers[0].0, answers[0].1), answers[1..])
  }

  /** How many packets of the file are done with: those read, less the one to be offered again. */
  function Done(file: seq<Packet>, c: Caller): int {
    if c.next > |file| then |file| else if c.repush || c.stopped then c.next - 1 else c.next
  }

  predicate InStep(file: seq<Packet>, w: World) {
    var c, d := w.caller, w.decoder;
    && Inv(d)
    && 0 <= Done(file, c) <= |file| && d.taken == file[..Done(file, c)]
    && (d.flushing <==> c.next > |file|)
    && c.next <= |file| + 1
    && (c.repush && !c.stopped ==> 0 < c.next)
    && (0 < c.next ==> c.last == if c.next <= |file| then Some(file[c.next - 1]) else None)
  }

  lemma RoundKeeps(file: seq<Packet>, w: World, send: SendAnswer, receive: ReceiveAnswer)
    requires InStep(file, w)
    ensures InStep(file, Round(file, w, send, receive))
  {
    var c, d := w.caller, w.decoder;
    if !c.stopped && d.state == NeedsMoreData {
      var k := Done(file, c);
      if k < |file| {
        assert file[..k] + [file[k]] == file[..k + 1];
      }
    }
  }

  lemma {:induction false} RoundsKeep(file: seq<Packet>, w: World, answers: seq<(SendAnswer, ReceiveAnswer)>)
    requires InStep(file, w)
    ensures InStep(file, Rounds(file, w, answers))
    decreases |answers|
  {
    hide Round, InStep;
    if answers != [] {
      RoundKeeps(file, w, answers[0].0, answers[0].1);
      RoundsKeep(file, Round(file, w, answers[0].0, answers[0].1), answers[1..]);
    }
  }

  /** Over every run, however often packets are refused: the library has taken a prefix of the file's
      packets, each once and in order; it has all of them when the input is flushed; and the end of
      the bitstream is only reached then. */
  lemma PacketsInOrderOnce(file: seq<Packet>, answers: seq<(SendAnswer, ReceiveAnswer)>)
    ensures var w := Rounds(file, Start(), answers);
      && w.decoder.taken <= file
      && (w.decoder.flushing ==> w.decoder.taken == file)
      && (w.decoder.state == EndOfBitstream ==> w.decoder.flushing)
      && (!w.caller.stopped ==> |w.decoder.taken| + (if w.caller.repush then 1 else 0) >= Min(w.caller.next, |file|))
  {
    hide Rounds;
    RoundsKeep(file, Start(), answers);
  }

  /** The caller only gives up on a packet the library rejects for good. */
  lemma StopsOnErrorOnly(file: seq<Packet>, w: World, send: SendAnswer, receive: ReceiveAnswer)
    requires InStep(file, w) && !w.caller.stopped && Round(file, w, send, receive).caller.stopped
    ensures send == SendFailed && w.decoder.state == NeedsMoreData
    ensures Round(file, w, send, receive).decoder.state == Error
  {
  }

  /** decoderFFmpeg. The library's answer to a call comes with the call. */
  class DecoderFFmpeg {
    var decoderState: State
    var flushing: bool
    var frame: Option<seq<Byte>>
    var currentOutputBuffer: seq<Byte>
    ghost var taken: seq<Packet>

    ghost function View(): Decoder
      reads this
    {
      Decoder(decoderState, flushing, frame, currentOutputBuffer, taken)
    }

    constructor ()
      ensures View() == Fresh()
    {
      decoderState, flushing, frame, currentOutputBuffer, taken := NeedsMoreData, false, None, [], [];
    }

    method PushAVPacket(pkt: Option<Packet>, answer: SendAnswer) returns (ok: bool)
      modifies this
      ensures (View(), ok) == PushStep(old(View()), pkt, answer)
    {
      if decoderState != NeedsMoreData {
        return false;
      }
      if pkt.None? {
        flushing := true;
        decoderState := RetrieveFrames;
        return false;
      }
      if flushing {
        return false;
      }
      if answer == SendFailed {
        decoderState := Error;
        return false;
      }
      if answer == Again {
        decoderState := RetrieveFrames;
        return false;
      }
      taken := taken + [pkt.value];
      return true;
    }

    method DecodeNextFrame(answer: ReceiveAnswer) returns (ok: bool)
      modifies this
      ensures (View(), ok) == NextStep(old(View()), answer)
    {
      if decoderState != RetrieveFrames {
        return false;
      }
      match answer {
        case Frame(fits, bytes) =>
          frame := Some(bytes);
          if !fits {
            decoderState := Error;
            return false;
          }
          currentOutputBuffer := [];
          return true;
        case ReceiveFailed =>
          decoderState := Error;
        case TryAgain =>
          if flushing {
            decoderState := EndOfBitstream;
          } else {
            decoderState := NeedsMoreData;
          }
        case Minus35 =>
      }
      return false;
    }

    method GetRawFrameData() returns (data: seq<Byte>)
      modifies this
      ensures (View(), data) == RawStep(old(View()))
    {
      if decoderState != RetrieveFrames {
        return [];
      }
      if currentOutputBuffer == [] && frame.Some? {
        currentOutputBuffer := frame.value;
      }
      return currentOutputBuffer;
    }

    method ResetDecoder()
      modifies this
      ensures View() == ResetStep(old(View()))
    {
      if decoderState == Error {
        return;
      }
      flushing := false;
      decoderState := NeedsMoreData;
    }
  }
}
