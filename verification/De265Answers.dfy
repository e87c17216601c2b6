/** What the answers of the library lead to: the states of the decoder and the pictures it hands out,
    told from the answers alone. */
module De265Answers {
  import opened Wrappers
  import opened DecoderBase
  import opened De265Decoder

  /** The answers one call of decodeFrame takes: up to the first one that is not "more, but no picture
      yet". */
  function Taken(answers: seq<Answer>): (r: seq<Answer>)
    ensures r != []
    ensures forall k :: 0 <= k < |r| - 1 ==> r[k] == Decoded(true, None)
    ensures r[|r| - 1] != Decoded(true, None)
    decreases |answers|
  {
    if answers == [] then [Waiting]
    else if answers[0] == Decoded(true, None) then [answers[0]] + Taken(answers[1..])
    else [answers[0]]
  }

  /** What the library is asked, and answers, during an operation. */
  function Heard(d: Decoder, op: Op): seq<Answer> {
    match op
    case Push(_, accepted, answers) =>
      if d.state == NeedsMoreData && !d.flushing && accepted then Taken(answers) else []
    case Next(answers) => if d.state == RetrieveFrames && !d.waiting then Taken(answers) else []
    case _ => []
  }

  /** All answers since the library decoder was created, with those of `log` before. */
  function Log(d: Decoder, log: seq<Answer>, ops: seq<Op>): seq<Answer>
    decreases |ops|
  {
    if ops == [] then log
    else Log(Step(d, ops[0]), Extended(d, log, ops[0]), ops[1..])
  }

  /** A reset that frees the library decoder begins anew. */
  function Extended(d: Decoder, log: seq<Answer>, op: Op): seq<Answer> {
    if op.Reset? && d.open && op.freed then [] else log + Heard(d, op)
  }

  function PictureIn(a: Answer): seq<Picture> {
    if a.Decoded? && a.picture.Some? then [a.picture.value] else []
  }

  /** The pictures among the answers. */
  function Pictures(log: seq<Answer>): seq<Picture>
    decreases |log|
  {
    if log == [] then [] else Pictures(log[..|log| - 1]) + PictureIn(log[|log| - 1])
  }

  function Last(log: seq<Answer>): Answer
    requires log != []
  {
    log[|log| - 1]
  }

  /** A picture fits the announced size and format, or is the first to announce them. */
  predicate Agrees(d: Decoder, p: Picture) {
    (SizeValid(d.size) || d.format.valid) ==>
      p.size == d.size && p.format.subsampling == d.format.subsampling && p.format.bitDepth == d.format.bitDepth
  }

  lemma {:induction false} SettledIsLast(answers: seq<Answer>)
    ensures Settled(answers) == Last(Taken(answers))
    decreases |answers|
  {
    if answers != [] && answers[0] == Decoded(true, None) {
      SettledIsLast(answers[1..]);
    }
  }

  /** The last answer alone decides the state: waiting for input, an error, the end, or a picture, which
      is an error, too, if it does not agree with those before. */
  lemma AnswerDecides(d: Decoder, op: Op)
    requires Heard(d, op) != []
    ensures var a, d1 := Last(Heard(d, op)), Step(d, op);
      && (d1.state == NeedsMoreData <==> a == Waiting)
      && (d1.state == EndOfBitstream <==> a == Decoded(false, None))
      && (d1.state == RetrieveFrames <==> a.Decoded? && a.picture.Some? && Agrees(d, a.picture.value))
      && (d1.state == Error <==> a == Failed || (a.Decoded? && a.picture.Some? && !Agrees(d, a.picture.value)))
  {
    hide Taken;
    SettledIsLast(op.answers);
  }

  lemma {:induction false} PicturesOfTaken(log: seq<Answer>, answers: seq<Answer>)
    ensures Pictures(log + Taken(answers)) == Pictures(log) + PictureIn(Last(Taken(answers)))
    decreases |answers|
  {
    hide Pictures, Taken;
    TakenStep(answers);
    if answers != [] && answers[0] == Decoded(true, None) {
      var a, rest := answers[0], answers[1..];
      PicturesOfTaken(log + [a], rest);
      PicturesStep(log, a);
      assert log + ([a] + Taken(rest)) == log + [a] + Taken(rest);
      assert Pictures(log) + [] == Pictures(log);
      LastOfSum([a], Taken(rest));
    } else {
      PicturesStep(log, Last(Taken(answers)));
    }
  }

  lemma TakenStep(answers: seq<Answer>)
    ensures
      if answers != [] && answers[0] == Decoded(true, None) then
        Taken(answers) == [answers[0]] + Taken(answers[1..])
      else Taken(answers) == [Last(Taken(answers))]
  {
  }

  lemma PicturesStep(log: seq<Answer>, a: Answer)
    ensures Pictures(log + [a]) == Pictures(log) + PictureIn(a)
  {
    assert (log + [a])[..|log|] == log;
  }

  /** Outside of errors the answers tell everything: the pictures accepted are those in the answers, and
      the state is what the last answer says. */
  predicate Told(d: Decoder, log: seq<Answer>) {
    d.state != Error ==>
      && d.fetched == Pictures(log)
      && (d.state == NeedsMoreData <==> log == [] || Last(log) == Waiting)
      && (d.state == EndOfBitstream <==> log != [] && Last(log) == Decoded(false, None))
      && (d.state == RetrieveFrames <==> log != [] && Last(log).Decoded? && Last(log).picture.Some?)
  }

  lemma FetchTells(d: Decoder, op: Op, log: seq<Answer>)
    requires Inv(d) && Told(d, log) && Heard(d, op) != []
    ensures Told(Step(d, op), log + Heard(d, op))
  {
    hide Taken, Settled, Pictures, Inv, Agrees;
    AnswerDecides(d, op);
    SettledIsLast(op.answers);
    PicturesOfTaken(log, op.answers);
    LastOfSum(log, Taken(op.answers));
  }

  lemma LastOfSum(a: seq<Answer>, b: seq<Answer>)
    requires b != []
    ensures Last(a + b) == Last(b)
  {
  }

  lemma StepTells(d: Decoder, op: Op, log: seq<Answer>)
    requires Inv(d) && Told(d, log)
    ensures Told(Step(d, op), Extended(d, log, op))
  {
    hide Taken, Fetch, Inv;
    if Heard(d, op) != [] {
      FetchTells(d, op, log);
    } else {
      assert log + [] == log;
    }
  }

  lemma {:induction false} RunTells(d: Decoder, log: seq<Answer>, ops: seq<Op>)
    requires Inv(d) && Told(d, log)
    ensures Inv(Run(d, ops)) && Told(Run(d, ops), Log(d, log, ops))
    decreases |ops|
  {
    hide Step, Inv, Told, Extended;
    if ops != [] {
      StepKeeps(d, ops[0]);
      StepTells(d, ops[0], log);
      RunTells(Step(d, ops[0]), Extended(d, log, ops[0]), ops[1..]);
    }
  }

  /** Over every run, with whatever the library answers, outside of errors: the pictures handed out and
      the waiting one are exactly the pictures among the answers since the library decoder was created,
      in their order; data is asked for exactly if the library waits for it, or nothing was asked yet;
      and the bitstream has ended exactly if the library has said so. */
  lemma AnswersTellAll(ops: seq<Op>)
    ensures var d, log := Run(Fresh(), ops), Log(Fresh(), [], ops);
      d.state != Error ==>
        && (d.waiting ==> d.image.Some?)
        && d.delivered + (if d.waiting then [d.image.value] else []) == Pictures(log)
        && (d.state == NeedsMoreData <==> log == [] || Last(log) == Waiting)
        && (d.state == EndOfBitstream <==> log != [] && Last(log) == Decoded(false, None))
        && (d.state == RetrieveFrames <==> log != [] && Last(log).Decoded? && Last(log).picture.Some?)
  {
    hide Run, Log, BufferHolds, CopiesHold;
    FreshIsTold();
    RunTells(Fresh(), [], ops);
  }

  lemma FreshIsTold()
    ensures Inv(Fresh()) && Told(Fresh(), [])
  {
  }

  /** decodeNextFrame answers true exactly if it hands a picture out, and pushData exactly if the data
      was due and the library took it. */
  lemma AnswersTrue(d: Decoder, op: Op)
    requires Inv(d)
    ensures op.Next? ==>
      var (d1, ok) := NextStep(d, op.answers);
      if ok then d1.image.Some? && d1.delivered == d.delivered + [d1.image.value] else d1.delivered == d.delivered
    ensures op.Push? ==>
      (PushStep(d, op.isEmpty, op.accepted, op.answers).1 <==> d.state == NeedsMoreData && !d.flushing && op.accepted)
  {
    hide Fetch, BufferHolds, CopiesHold;
    if op.Next? && d.state == RetrieveFrames && !d.waiting {
      FetchKeeps(d, op.answers);
    }
  }

  lemma {:induction false} InputEnds(d: Decoder, ops: seq<Op>, isEmpty: bool, answers: seq<Answer>)
    requires d.flushing && forall k :: 0 <= k < |ops| ==> !ops[k].Reset?
    ensures var d1 := Run(d, ops); d1.flushing && PushStep(d1, isEmpty, true, answers) == (d1, false)
    decreases |ops|
  {
    hide Fetch;
    if ops != [] {
      StepKeepsFlushing(d, ops[0]);
      InputEnds(Step(d, ops[0]), ops[1..], isEmpty, answers);
    }
  }

  lemma StepKeepsFlushing(d: Decoder, op: Op)
    ensures !op.Reset? && d.flushing ==> Step(d, op).flushing
    ensures op.Push? && op.isEmpty && PushStep(d, true, op.accepted, op.answers).1 ==> Step(d, op).flushing
  {
    hide Settled;
  }

  /** Once the empty data is taken, no data is taken until a reset. */
  lemma InputEndsForGood(d: Decoder, answers: seq<Answer>, ops: seq<Op>, isEmpty: bool, more: seq<Answer>)
    requires PushStep(d, true, true, answers).1 && forall k :: 0 <= k < |ops| ==> !ops[k].Reset?
    ensures var d1 := Run(PushStep(d, true, true, answers).0, ops); PushStep(d1, isEmpty, true, more) == (d1, false)
  {
    hide Run;
    StepKeepsFlushing(d, Push(true, true, answers));
    InputEnds(PushStep(d, true, true, answers).0, ops, isEmpty, more);
  }

  /** A reset ends in Error exactly if one of its steps fails; it can be tried again exactly if there is
      still a library decoder to free, and after one that succeeds the decoder takes data. */
  lemma ResetEnds(d: Decoder, freed: bool, created: bool, started: bool, isEmpty: bool, answers: seq<Answer>)
    requires d.open
    ensures var r := ResetStep(d, freed, created, started);
      && (r.state == Error <==> !(freed && created && started))
      && (!r.open ==> ResetStep(r, true, true, true) == r)
      && (r.open && r.state == Error ==> ResetStep(r, true, true, true).state == NeedsMoreData)
      && (!r.open <==> freed && !created)
      && (r.state != Error ==> PushStep(r, isEmpty, true, answers).1)
  {
    hide Fetch;
  }
}
