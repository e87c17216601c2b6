/** The push/pull protocol of the libde265 decoder with its look-ahead picture and its lazily filled
    output buffer. The library is whatever answers it gives to each call. */
module De265Decoder {
  import opened ByteStream
  import opened Wrappers
  import opened DecoderBase

  /** Size and sample format of a picture; `valid` is what the format's own check says. */
  datatype Size = Size(width: nat, height: nat)
  datatype Format = Format(subsampling: nat, bitDepth: nat, valid: bool)

  datatype Picture = Picture(size: Size, format: Format, bytes: seq<Byte>)

  /** One round of de265_decode followed by de265_get_next_picture. */
  datatype Answer = Waiting | Failed | Decoded(more: bool, picture: Option<Picture>)

  /** The decoder's fields, and the history of the run: how many pictures were ever accepted, those
      accepted and those handed out since the last reset, and the copies made for the caller. */
  datatype Decoder = Decoder(
    state: State, open: bool, image: Option<Picture>, waiting: bool, flushing: bool, buffer: seq<Byte>,
    size: Size, format: Format,
    serial: nat, fetched: seq<Picture>, delivered: seq<Picture>, copied: seq<Copy>)

  /** A copy into the output buffer: the number of the picture, and whether it had no bytes. */
  datatype Copy = Copy(serial: nat, isEmpty: bool)

  /** What a caller does, with what the library answers. */
  datatype Op =
    | Push(isEmpty: bool, accepted: bool, answers: seq<Answer>)
    | Next(answers: seq<Answer>)
    | GetRaw
    | Reset(freed: bool, created: bool, started: bool)

  function Fresh(): Decoder {
    Decoder(NeedsMoreData, true, None, false, false, [], Size(0, 0), Format(0, 0, false), 0, [], [], [])
  }

  predicate SizeValid(s: Size) {
    s.width > 0 && s.height > 0
  }

  /** The first answer that ends the decoding loop. When the library has no answer left it waits. */
  function Settled(answers: seq<Answer>): Answer {
    if answers == [] then Waiting
    else match answers[0]
      case Decoded(more, None) => if more then Settled(answers[1..]) else answers[0]
      case _ => answers[0]
  }

  function Fetch(d: Decoder, answers: seq<Answer>): (Decoder, bool) {
    var d0 := d.(image := None);
    match Settled(answers)
    case Waiting => (d0.(state := NeedsMoreData), false)
    case Failed => (d0.(state := Error), false)
    case Decoded(_, None) => (d0.(state := EndOfBitstream), false)
    case Decoded(_, Some(p)) => Accept(d.(image := Some(p)), p)
  }

  /** The first picture sets size and format, every later one must agree with them. */
  function Accept(d: Decoder, p: Picture): (Decoder, bool) {
    var known := SizeValid(d.size) || d.format.valid;
    if known && (d.size != p.size || d.format.subsampling != p.format.subsampling
                 || d.format.bitDepth != p.format.bitDepth) then
      (d.(state := Error), false)
    else
      var d1 := if known then d else d.(size := p.size, format := p.format);
      (d1.(state := RetrieveFrames, buffer := [], serial := d.serial + 1, fetched := d.fetched + [p]), true)
  }

  function PushStep(d: Decoder, isEmpty: bool, accepted: bool, answers: seq<Answer>): (Decoder, bool) {
    if d.state != NeedsMoreData || d.flushing then (d, false)
    else if !accepted then (d.(state := Error), false)
    else
      var d1 := if isEmpty then d.(flushing := true) else d;
      var (d2, got) := Fetch(d1, answers);
      (if got then d2.(waiting := true) else d2, true)
  }

  function NextStep(d: Decoder, answers: seq<Answer>): (Decoder, bool) {
    if d.state != RetrieveFrames then (d, false)
    else if d.waiting then (Deliver(d.(waiting := false)), true)
    else
      var (d1, got) := Fetch(d, answers);
      (if got then Deliver(d1) else d1, got)
  }

  /** decodeNextFrame has answered true: the caller takes the current image. */
  function Deliver(d: Decoder): Decoder {
    if d.image.None? then d else d.(delivered := d.delivered + [d.image.value])
  }

  function CopyOf(d: Decoder): Copy
    requires d.image.Some?
  {
    Copy(d.serial, d.image.value.bytes == [])
  }

  function RawStep(d: Decoder): (Decoder, seq<Byte>) {
    if d.image.None? || d.state != RetrieveFrames then (d, [])
    else
      var d1 := if d.buffer == [] then d.(buffer := d.image.value.bytes, copied := d.copied + [CopyOf(d)]) else d;
      (d1, d1.buffer)
  }

  function ResetStep(d: Decoder, freed: bool, created: bool, started: bool): Decoder {
    if !d.open then d
    else if !freed then d.(state := Error)
    else
      AllocateStep(d.(state := NeedsMoreData, waiting := false, open := false, fetched := [], delivered := []),
                   created, started)
  }

  /** allocateNewDecoder, without a decoder. */
  function AllocateStep(d: Decoder, created: bool, started: bool): Decoder {
    if !created then d.(state := Error)
    else if !started then d.(state := Error, open := true)
    else d.(open := true, buffer := [], flushing := false)
  }

  function Step(d: Decoder, op: Op): Decoder {
    match op
    case Push(isEmpty, accepted, answers) => PushStep(d, isEmpty, accepted, answers).0
    case Next(answers) => NextStep(d, answers).0
    case GetRaw => RawStep(d).0
    case Reset(freed, created, started) => ResetStep(d, freed, created, started)
  }

  function Run(d: Decoder, ops: seq<Op>): Decoder
    decreases |ops|
  {
    if ops == [] then d else Run(Step(d, ops[0]), ops[1..])
  }

  /** The pictures accepted since the last reset are the ones handed out, in the same order, and
      after them at most the one that waits; and one waits only while frames are retrieved, or when
      a reset has failed. */
  predicate DeliveryHolds(d: Decoder) {
    && (d.waiting ==> (d.state == RetrieveFrames || d.state == Error) && d.image.Some?)
    && (d.state == RetrieveFrames ==> d.image.Some?)
    && d.fetched == d.delivered + (if d.waiting && d.image.Some? then [d.image.value] else [])
  }

  /** In RetrieveFrames the output buffer is empty or holds the current picture, the picture is the
      last one accepted, and it has the size and format the decoder announces. */
  predicate BufferHolds(d: Decoder) {
    d.state == RetrieveFrames && d.image.Some? ==>
      && (d.buffer == [] || d.buffer == d.image.value.bytes)
      && d.fetched != [] && d.fetched[|d.fetched| - 1] == d.image.value
      && d.size == d.image.value.size
      && d.format.subsampling == d.image.value.format.subsampling
      && d.format.bitDepth == d.image.value.format.bitDepth
  }

  /** Copies are made of pictures in order, and of no picture twice unless it has no bytes. */
  predicate CopiesInOrder(copied: seq<Copy>) {
    forall j, k :: 0 <= j < k < |copied| ==>
      copied[j].serial < copied[k].serial || (copied[j].serial == copied[k].serial && copied[k].isEmpty)
  }

  predicate CopiesHold(d: Decoder) {
    && (forall k :: 0 <= k < |d.copied| ==> d.copied[k].serial <= d.serial)
    && CopiesInOrder(d.copied)
    && (d.state == RetrieveFrames && d.image.Some? && d.image.value.bytes != [] && d.buffer == [] ==>
          forall k :: 0 <= k < |d.copied| ==> d.copied[k].serial < d.serial)
  }

  predicate Inv(d: Decoder) {
    DeliveryHolds(d) && BufferHolds(d) && CopiesHold(d)
  }

  lemma AcceptKeeps(d: Decoder, p: Picture)
    requires Inv(d) && !d.waiting && d.state != Error
    ensures var (d1, got) := Accept(d.(image := Some(p)), p);
      && BufferHolds(d1) && CopiesHold(d1) && !d1.waiting && d1.delivered == d.delivered
      && d1.image == Some(p)
      && (got <==> d1.state == RetrieveFrames)
      && d1.fetched == d.fetched + (if got then [p] else [])
  {
  }

  /** Fetching a picture replaces the current one, so nothing may wait. */
  lemma FetchKeeps(d: Decoder, answers: seq<Answer>)
    requires Inv(d) && !d.waiting && d.state != Error
    ensures var (d1, got) := Fetch(d, answers);
      && BufferHolds(d1) && CopiesHold(d1) && !d1.waiting && d1.delivered == d.delivered
      && (got <==> d1.state == RetrieveFrames)
      && d1.fetched == d.fetched + (if got then [d1.image.value] else [])
      && (got ==> d1.image.Some?)
  {
    hide Accept, CopiesInOrder;
    match Settled(answers) {
      case Waiting =>
      case Failed =>
      case Decoded(_, None) =>
      case Decoded(_, Some(p)) => AcceptKeeps(d, p);
    }
  }

  lemma PushKeeps(d: Decoder, isEmpty: bool, accepted: bool, answers: seq<Answer>)
    requires Inv(d)
    ensures Inv(PushStep(d, isEmpty, accepted, answers).0)
  {
    hide Fetch;
    if d.state == NeedsMoreData && !d.flushing && accepted {
      FetchKeeps(if isEmpty then d.(flushing := true) else d, answers);
    }
  }

  lemma NextKeeps(d: Decoder, answers: seq<Answer>)
    requires Inv(d)
    ensures Inv(NextStep(d, answers).0)
  {
    hide Fetch, CopiesInOrder;
    if d.state == RetrieveFrames && !d.waiting {
      FetchKeeps(d, answers);
    }
  }

  /** Every operation keeps the protocol, whatever the library answers. */
  lemma StepKeeps(d: Decoder, op: Op)
    requires Inv(d)
    ensures Inv(Step(d, op))
  {
    hide Inv, PushStep, NextStep, RawStep, ResetStep;
    match op {
      case Push(isEmpty, accepted, answers) => PushKeeps(d, isEmpty, accepted, answers);
      case Next(answers) => NextKeeps(d, answers);
      case GetRaw => RawKeeps(d);
      case Reset(freed, created, started) => ResetKeeps(d, freed, created, started);
    }
  }

  lemma RawKeeps(d: Decoder)
    requires Inv(d)
    ensures Inv(RawStep(d).0)
  {
  }

  lemma ResetKeeps(d: Decoder, freed: bool, created: bool, started: bool)
    requires Inv(d)
    ensures Inv(ResetStep(d, freed, created, started))
  {
    hide CopiesInOrder;
  }

  lemma {:induction false} RunKeeps(d: Decoder, ops: seq<Op>)
    requires Inv(d)
    ensures Inv(Run(d, ops))
    decreases |ops|
  {
    if ops != [] {
      StepKeeps(d, ops[0]);
      RunKeeps(Step(d, ops[0]), ops[1..]);
    }
  }

  /** Over every run, against every library: pictures are handed out in the order the library gave
      them, each once; at most one waits, and it is the current image. */
  lemma DeliveredInOrder(ops: seq<Op>)
    ensures var d := Run(Fresh(), ops);
      && (d.waiting ==> (d.state == RetrieveFrames || d.state == Error) && d.image.Some?)
      && d.fetched == d.delivered + (if d.waiting then [d.image.value] else [])
  {
    hide Step;
    RunKeeps(Fresh(), ops);
  }

  /** No step overwrites a waiting picture: it keeps waiting, is handed out, or a reset drops it. */
  lemma WaitingIsNotLost(d: Decoder, op: Op)
    requires Inv(d) && d.waiting
    ensures var d1 := Step(d, op);
      || (d1.waiting && d1.image == d.image && d1.delivered == d.delivered)
      || (op.Next? && d.state == RetrieveFrames && !d1.waiting && d1.delivered == d.delivered + [d.image.value])
      || (op.Reset? && op.freed && d.open)
  {
    hide Fetch;
  }

  /** Over every run: while frames are retrieved, the raw data is that of the last picture accepted,
      however often it is asked for; asking twice copies once if there is anything to copy. */
  lemma RawIsCurrent(ops: seq<Op>)
    ensures var d := Run(Fresh(), ops);
      var (d1, data) := RawStep(d);
      d.state == RetrieveFrames ==>
        && d.image.Some? && d.fetched != [] && data == d.fetched[|d.fetched| - 1].bytes == d.image.value.bytes
        && RawStep(d1).1 == data
        && (data != [] ==> RawStep(d1).0 == d1)
  {
    hide Step, Fetch;
    RunKeeps(Fresh(), ops);
  }

  /** Over every run: copies, and with them the statistics recorded, follow the order of the pictures,
      and a picture with bytes is copied at most once. */
  lemma CopiedOnce(ops: seq<Op>)
    ensures CopiesInOrder(Run(Fresh(), ops).copied)
  {
    hide Step;
    RunKeeps(Fresh(), ops);
  }

  lemma FetchKeepsFormat(d: Decoder, answers: seq<Answer>)
    requires SizeValid(d.size) || d.format.valid
    ensures Fetch(d, answers).0.size == d.size && Fetch(d, answers).0.format == d.format
  {
    hide Settled;
  }

  /** Size and format, once one of them is valid, stay what they are, across resets and errors. */
  lemma {:induction false} FormatIsStable(d: Decoder, ops: seq<Op>)
    requires SizeValid(d.size) || d.format.valid
    ensures Run(d, ops).size == d.size && Run(d, ops).format == d.format
    decreases |ops|
  {
    hide Step;
    if ops != [] {
      StepKeepsFormat(d, ops[0]);
      FormatIsStable(Step(d, ops[0]), ops[1..]);
    }
  }

  lemma StepKeepsFormat(d: Decoder, op: Op)
    requires SizeValid(d.size) || d.format.valid
    ensures Step(d, op).size == d.size && Step(d, op).format == d.format
  {
    hide Fetch;
    if op.Push? {
      FetchKeepsFormat(if op.isEmpty then d.(flushing := true) else d, op.answers);
    } else if op.Next? {
      FetchKeepsFormat(d, op.answers);
    }
  }

  lemma SettledStep(answers: seq<Answer>, i: nat)
    requires i <= |answers|
    ensures Settled(answers[i..]) ==
      if i == |answers| then Waiting
      else if answers[i].Decoded? && answers[i].picture.None? && answers[i].more then Settled(answers[i + 1..])
      else answers[i]
  {
    if i < |answers| {
      assert answers[i..][0] == answers[i] && answers[i..][1..] == answers[i + 1..];
    }
  }

  /** decoderLibde265. The library's answers to a call come with the call. */
  class DecoderLibde265 {
    var decoderState: State
    var hasDecoder: bool
    var curImage: Option<Picture>
    var decodedFrameWaiting: bool
    var flushing: bool
    var currentOutputBuffer: seq<Byte>
    var frameSize: Size
    var formatYUV: Format
    ghost var serial: nat
    ghost var fetched: seq<Picture>
    ghost var delivered: seq<Picture>
    ghost var copied: seq<Copy>

    ghost function View(): Decoder
      reads this
    {
      Decoder(decoderState, hasDecoder, curImage, decodedFrameWaiting, flushing, currentOutputBuffer,
              frameSize, formatYUV, serial, fetched, delivered, copied)
    }

    constructor ()
      ensures View() == Fresh()
    {
      decoderState, hasDecoder, curImage := NeedsMoreData, true, None;
      decodedFrameWaiting, flushing, currentOutputBuffer := false, false, [];
      frameSize, formatYUV := Size(0, 0), Format(0, 0, false);
      serial, fetched, delivered, copied := 0, [], [], [];
    }

    method DecodeFrame(answers: seq<Answer>) returns (ok: bool)
      modifies this
      ensures (View(), ok) == Fetch(old(View()), answers)
    {
      hide Settled;
      ghost var settled := Settled(answers);
      var more := true;
      var i := 0;
      curImage := None;
      assert answers[i..] == answers;
      while more && curImage.None?
        invariant i <= |answers|
        invariant View() == old(View()).(image := curImage)
        invariant more && curImage.None? ==> settled == Settled(answers[i..])
        invariant !more || curImage.Some? ==> settled.Decoded? && settled.picture == curImage
        decreases |answers| - i, more
      {
        SettledStep(answers, i);
        more := false;
        if i == |answers| {
          decoderState := NeedsMoreData;
          return false;
        }
        match answers[i] {
          case Waiting =>
            decoderState := NeedsMoreData;
            return false;
          case Failed =>
            decoderState := Error;
            return false;
          case Decoded(m, picture) =>
            more := m;
            curImage := picture;
        }
        i := i + 1;
      }
      if !more && curImage.None? {
        decoderState := EndOfBitstream;
        return false;
      }
      ok := AcceptImage(curImage.value);
    }

    /** The rest of decodeFrame: checks the picture against the format of the sequence. */
    method AcceptImage(p: Picture) returns (ok: bool)
      modifies this
      ensures (View(), ok) == Accept(old(View()), p)
    {
      if !SizeValid(frameSize) && !formatYUV.valid {
        frameSize := p.size;
        formatYUV := p.format;
      } else {
        if frameSize != p.size {
          decoderState := Error;
          return false;
        }
        if formatYUV.subsampling != p.format.subsampling {
          decoderState := Error;
          return false;
        }
        if formatYUV.bitDepth != p.format.bitDepth {
          decoderState := Error;
          return false;
        }
      }
      decoderState := RetrieveFrames;
      currentOutputBuffer := [];
      serial, fetched := serial + 1, fetched + [p];
      return true;
    }

    method PushData(isEmpty: bool, accepted: bool, answers: seq<Answer>) returns (ok: bool)
      modifies this
      ensures (View(), ok) == PushStep(old(View()), isEmpty, accepted, answers)
    {
      if decoderState != NeedsMoreData {
        return false;
      }
      if flushing {
        return false;
      }
      if !accepted {
        decoderState := Error;
        return false;
      }
      if isEmpty {
        flushing := true;
      }
      var got := DecodeFrame(answers);
      if got {
        decodedFrameWaiting := true;
      }
      return true;
    }

    method DecodeNextFrame(answers: seq<Answer>) returns (ok: bool)
      modifies this
      ensures (View(), ok) == NextStep(old(View()), answers)
    {
      if decoderState != RetrieveFrames {
        return false;
      }
      if decodedFrameWaiting {
        decodedFrameWaiting := false;
        ok := true;
      } else {
        ok := DecodeFrame(answers);
      }
      if ok && curImage.Some? {
        delivered := delivered + [curImage.value];
      }
    }

    method GetRawFrameData() returns (data: seq<Byte>)
      modifies this
      ensures (View(), data) == RawStep(old(View()))
    {
      if curImage.None? {
        return [];
      }
      if decoderState != RetrieveFrames {
        return [];
      }
      if currentOutputBuffer == [] {
        copied := copied + [CopyOf(View())];
        currentOutputBuffer := curImage.value.bytes;
      }
      return currentOutputBuffer;
    }

    /** Freeing the old library decoder, creating a new one and starting its threads may each fail. */
    method ResetDecoder(freed: bool, created: bool, started: bool)
      modifies this
      ensures View() == ResetStep(old(View()), freed, created, started)
    {
      if !hasDecoder {
        return;
      }
      if !freed {
        decoderState := Error;
        return;
      }
      decoderState := NeedsMoreData;
      hasDecoder := false;
      decodedFrameWaiting := false;
      fetched, delivered := [], [];
      AllocateNewDecoder(created, started);
    }

    method AllocateNewDecoder(created: bool, started: bool)
      modifies this
      ensures View() == AllocateStep(old(View()), created, started)
    {
      if !created {
        decoderState := Error;
        return;
      }
      hasDecoder := true;
      if !started {
        decoderState := Error;
        return;
      }
      currentOutputBuffer := [];
      flushing := false;
    }
  }
}
