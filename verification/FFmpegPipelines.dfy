/** Loading and caching: two decoders that read the same packets from files of their own, and one flag
    for both that tells whether the last packet was refused and is to be offered again. */
module FFmpegPipelines {
  import opened ByteStream
  import opened Wrappers
  import opened DecoderBase
  import opened FFmpegDecoder

  /** One of the two, with the packets its file holds from the last seek on. The repush flag of its
      caller is what its own decoder last said, which the code does not keep. */
  datatype Pipeline = Pipeline(file: seq<Packet>, world: World)

  datatype Pair = Pair(loading: Pipeline, caching: Pipeline, repush: bool)

  function Of(b: Pair, caching: bool): Pipeline {
    if caching then b.caching else b.loading
  }

  function With(b: Pair, caching: bool, p: Pipeline, repush: bool): Pair {
    if caching then Pair(b.loading, p, repush) else Pair(p, b.caching, repush)
  }

  /** A round of either loop, with the library's answers, or a seek of either, which makes another part
      of the file the one to read. */
  datatype Move =
    | Turn(caching: bool, send: SendAnswer, receive: ReceiveAnswer)
    | Seek(caching: bool, file: seq<Packet>)

  /** The pipeline as its loop sees it: with the flag that is shared. */
  function Seen(b: Pair, caching: bool): World {
    var w := Of(b, caching).world;
    w.(caller := w.caller.(repush := b.repush))
  }

  predicate Offers(w: World) {
    !w.caller.stopped && w.decoder.state == NeedsMoreData
  }

  function Sought(p: Pipeline, file: seq<Packet>): Pipeline {
    Pipeline(file, World(Caller(0, p.world.caller.last, false, false), ResetStep(p.world.decoder).(taken := [])))
  }

  function Moved(b: Pair, m: Move): Pair {
    var p := Of(b, m.caching);
    match m
    case Turn(caching, send, receive) =>
      if Offers(p.world) then
        var w := Offer(p.file, Seen(b, caching), send);
        With(b, caching, p.(world := w), w.caller.repush)
      else With(b, caching, p.(world := Round(p.file, p.world, send, receive)), b.repush)
    case Seek(caching, file) => With(b, caching, Sought(p, file), false)
  }

  function Run(b: Pair, moves: seq<Move>): Pair
    decreases |moves|
  {
    if moves == [] then b else Run(Moved(b, moves[0]), moves[1..])
  }

  /** The pipeline has a packet to offer again. */
  predicate Owed(p: Pipeline) {
    p.world.caller.repush
  }

  /** Nothing is lost or doubled so far, or the decoder has failed. */
  predicate Sound(p: Pipeline) {
    if p.world.decoder.state == Error then p.world.decoder.taken <= p.file else InStep(p.file, p.world)
  }

  /** Both are sound, and the flag is that of the one that has a packet to offer again. */
  predicate Together(b: Pair) {
    Sound(b.loading) && Sound(b.caching) && !(Owed(b.loading) && Owed(b.caching))
    && b.repush == (Owed(b.loading) || Owed(b.caching))
  }

  /** The move leaves the other pipeline's packet alone: neither an offer nor a seek while the other has
      one to offer again. */
  predicate Considerate(b: Pair, m: Move) {
    (m.Turn? ==> Offers(Of(b, m.caching).world)) ==> !Owed(Of(b, !m.caching))
  }

  predicate AllConsiderate(b: Pair, moves: seq<Move>)
    decreases |moves|
  {
    moves == [] || (Considerate(b, moves[0]) && AllConsiderate(Moved(b, moves[0]), moves[1..]))
  }

  lemma OfferKeeps(p: Pipeline, answer: SendAnswer)
    requires Sound(p) && Offers(p.world)
    ensures Sound(p.(world := Offer(p.file, p.world, answer)))
  {
    hide InStep;
    RoundKeeps(p.file, p.world, answer, TryAgain);
    FailedOffer(p, answer);
  }

  lemma FailedOffer(p: Pipeline, answer: SendAnswer)
    requires InStep(p.file, p.world) && Offers(p.world)
    ensures var d := Offer(p.file, p.world, answer).decoder; d.state == Error ==> d.taken <= p.file
  {
  }

  lemma TurnKeeps(p: Pipeline, send: SendAnswer, receive: ReceiveAnswer)
    requires Sound(p) && !Offers(p.world)
    ensures var w := Round(p.file, p.world, send, receive);
      Sound(p.(world := w)) && w.caller == p.world.caller
  {
    if p.world.decoder.state != Error {
      RoundKeeps(p.file, p.world, send, receive);
    }
  }

  lemma SeekKeeps(p: Pipeline, file: seq<Packet>)
    requires Sound(p)
    ensures Sound(Sought(p, file)) && !Owed(Sought(p, file))
  {
  }

  lemma MoveKeeps(b: Pair, m: Move)
    requires Together(b) && Considerate(b, m)
    ensures Together(Moved(b, m))
  {
    hide Sound, Offer, Round, Sought;
    var p := Of(b, m.caching);
    match m
    case Turn(caching, send, receive) =>
      if Offers(p.world) {
        OfferKeeps(p, send);
        assert Seen(b, caching) == p.world;
      } else {
        TurnKeeps(p, send, receive);
      }
    case Seek(caching, file) => SeekKeeps(p, file);
  }

  /** Two pipelines in any interleaving, with any seeks: if no move disturbs a packet that the other has
      to offer again, each library takes its file's packets from the last seek on in order, each once,
      and all of them before it is flushed. */
  lemma {:induction false} BothInOrderOnce(b: Pair, moves: seq<Move>, caching: bool)
    requires Together(b) && AllConsiderate(b, moves)
    ensures var p := Of(Run(b, moves), caching);
      && p.world.decoder.taken <= p.file
      && (p.world.decoder.flushing && p.world.decoder.state != Error ==> p.world.decoder.taken == p.file)
    decreases |moves|
  {
    hide Moved, Considerate, Together;
    if moves == [] {
      TakenInOrder(b, caching);
    } else {
      MoveKeeps(b, moves[0]);
      BothInOrderOnce(Moved(b, moves[0]), moves[1..], caching);
    }
  }

  lemma TakenInOrder(b: Pair, caching: bool)
    requires Together(b)
    ensures var p := Of(b, caching);
      && p.world.decoder.taken <= p.file
      && (p.world.decoder.flushing && p.world.decoder.state != Error ==> p.world.decoder.taken == p.file)
  {
  }

  /** The packet that an offer takes. */
  function Offered(b: Pair, caching: bool): Option<Packet> {
    Offer(Of(b, caching).file, Seen(b, caching), Taken).caller.last
  }

  /** The packet the library has yet to take. */
  function Due(p: Pipeline): Option<Packet>
    requires 0 <= Done(p.file, p.world.caller)
  {
    if Done(p.file, p.world.caller) < |p.file| then Some(p.file[Done(p.file, p.world.caller)]) else None
  }

  /** While neither has a packet to offer again, or only the one that offers, the packet offered is the
      one that is due. While the other has one, it is the packet that was taken last. */
  lemma OfferIsDue(b: Pair, caching: bool)
    requires Together(b) && Offers(Of(b, caching).world)
    ensures var p := Of(b, caching);
      && !p.world.decoder.flushing && 0 <= Done(p.file, p.world.caller)
      && (!Owed(Of(b, !caching)) ==> Offered(b, caching) == Due(p))
      && (Owed(Of(b, !caching)) && p.world.caller.next > 0 ==>
            p.world.decoder.taken != [] &&
            Offered(b, caching) == Some(p.world.decoder.taken[|p.world.decoder.taken| - 1]))
  {
  }

  /** A seek of one clears the flag; what the other then offers is the packet behind the one due. */
  lemma SeekSkips(b: Pair, caching: bool, file: seq<Packet>)
    requires Together(b) && Offers(Of(b, caching).world) && Owed(Of(b, caching))
    ensures var p := Of(b, caching);
      var k := |p.world.decoder.taken|;
      && k < |p.file| && Due(p) == Some(p.file[k])
      && Of(Moved(b, Seek(!caching, file)), caching) == p
      && Offered(Moved(b, Seek(!caching, file)), caching) == if k + 1 < |p.file| then Some(p.file[k + 1]) else None
  {
  }

  /** No packet of the file equals the next. */
  predicate NoTwins(file: seq<Packet>) {
    forall k :: 0 < k < |file| ==> file[k - 1] != file[k]
  }

  predicate NoSeekOf(moves: seq<Move>, caching: bool) {
    forall k :: 0 <= k < |moves| ==> !(moves[k].Seek? && moves[k].caching == caching)
  }

  /** What a library has taken stays taken until a seek. */
  lemma {:induction false} TakenGrows(b: Pair, moves: seq<Move>, caching: bool)
    requires NoSeekOf(moves, caching)
    ensures var p, q := Of(b, caching), Of(Run(b, moves), caching);
      q.file == p.file && p.world.decoder.taken <= q.world.decoder.taken
    decreases |moves|
  {
    hide Moved;
    if moves != [] {
      assert NoSeekOf(moves[1..], caching);
      TakenGrowsOnce(b, moves[0], caching);
      TakenGrows(Moved(b, moves[0]), moves[1..], caching);
    }
  }

  lemma TakenGrowsOnce(b: Pair, m: Move, caching: bool)
    requires !(m.Seek? && m.caching == caching)
    ensures var p, q := Of(b, caching), Of(Moved(b, m), caching);
      q.file == p.file && p.world.decoder.taken <= q.world.decoder.taken
  {
  }

  lemma TakenIsOffered(b: Pair, caching: bool, receive: ReceiveAnswer)
    requires Offers(Of(b, caching).world) && !Of(b, caching).world.decoder.flushing && Offered(b, caching).Some?
    ensures var p, q := Of(b, caching), Of(Moved(b, Turn(caching, Taken, receive)), caching);
      q.file == p.file && q.world.decoder.taken == p.world.decoder.taken + [Offered(b, caching).value]
  {
  }

  /** So if the library takes a packet that was offered while the other had one to offer again, its
      packets are not those of the file until it seeks, whatever happens. */
  lemma DoubledForGood(b: Pair, caching: bool, receive: ReceiveAnswer, moves: seq<Move>)
    requires Together(b) && Offers(Of(b, caching).world) && Of(b, caching).world.caller.next > 0
    requires Owed(Of(b, !caching)) && NoTwins(Of(b, caching).file) && NoSeekOf(moves, caching)
    ensures var p := Of(Run(b, [Turn(caching, Taken, receive)] + moves), caching);
      !(p.world.decoder.taken <= p.file)
  {
    hide Moved, Offered, Run;
    var m := Turn(caching, Taken, receive);
    OfferIsDue(b, caching);
    TakenIsOffered(b, caching, receive);
    RunStep(b, m, moves);
    TakenGrows(Moved(b, m), moves, caching);
    var p := Of(b, caching);
    var k := |p.world.decoder.taken|;
    TakenInOrder(b, caching);
    assert Of(Run(b, [m] + moves), caching).world.decoder.taken[k] == p.file[k - 1];
  }

  /** Likewise if the other seeks while this one has a packet to offer again: that packet is lost. */
  lemma LostForGood(b: Pair, caching: bool, file: seq<Packet>, receive: ReceiveAnswer, moves: seq<Move>)
    requires Together(b) && Offers(Of(b, caching).world) && Owed(Of(b, caching))
    requires |Of(b, caching).world.decoder.taken| + 1 < |Of(b, caching).file|
    requires NoTwins(Of(b, caching).file) && NoSeekOf(moves, caching)
    ensures var p := Of(Run(b, [Seek(!caching, file), Turn(caching, Taken, receive)] + moves), caching);
      !(p.world.decoder.taken <= p.file)
  {
    hide Moved, Offered, Run;
    var s, m := Seek(!caching, file), Turn(caching, Taken, receive);
    var b1 := Moved(b, s);
    OfferIsDue(b, caching);
    SeekSkips(b, caching, file);
    TakenIsOffered(b1, caching, receive);
    assert [s, m] + moves == [s] + ([m] + moves);
    RunStep(b, s, [m] + moves);
    RunStep(b1, m, moves);
    TakenGrows(Moved(b1, m), moves, caching);
    var p := Of(b, caching);
    var k := |p.world.decoder.taken|;
    assert Of(Run(b, [s, m] + moves), caching).world.decoder.taken[k] == p.file[k + 1];
  }

  lemma RunStep(b: Pair, m: Move, moves: seq<Move>)
    ensures Run(b, [m] + moves) == Run(Moved(b, m), moves)
  {
    assert ([m] + moves)[1..] == moves;
  }

  /** Two packets: loading is refused the second, caching then takes the first one twice, and loading
      ends its input without the second. */
  lemma PairExample(receive: ReceiveAnswer)
    ensures var p := Pipeline([[1], [2]], Start());
      var b := Run(Pair(p, p, false), [Turn(true, Taken, receive), Turn(false, Taken, receive),
                                       Turn(false, Again, receive), Turn(true, Taken, receive),
                                       Turn(false, Taken, TryAgain), Turn(false, Taken, receive)]);
      && b.caching.world.decoder.taken == [[1], [1]]
      && b.loading.world.decoder.taken == [[1]] && b.loading.world.decoder.flushing
  {
    var file: seq<Packet> := [[1], [2]];
    var none := Pipeline(file, Start());
    var d := Decoder(NeedsMoreData, false, None, [], [[1]]);
    var one := Pipeline(file, World(Caller(1, Some([1]), false, false), d));
    var refused := Pipeline(file, World(Caller(2, Some([2]), true, false), d.(state := RetrieveFrames)));
    var doubled := Pipeline(file, World(Caller(1, Some([1]), false, false), d.(taken := [[1], [1]])));
    var waiting := refused.(world := refused.world.(decoder := d));
    var lost := Pipeline(file, World(Caller(3, None, true, false), d.(flushing := true, state := RetrieveFrames)));
    var b1, b2, b3 := Pair(none, one, false), Pair(one, one, false), Pair(refused, one, true);
    var b4, b5, b6 := Pair(refused, doubled, false), Pair(waiting, doubled, false), Pair(lost, doubled, true);
    assert Moved(Pair(none, none, false), Turn(true, Taken, receive)) == b1;
    assert Moved(b1, Turn(false, Taken, receive)) == b2;
    assert Moved(b2, Turn(false, Again, receive)) == b3;
    assert Moved(b3, Turn(true, Taken, receive)) == b4;
    assert Moved(b4, Turn(false, Taken, TryAgain)) == b5;
    assert Moved(b5, Turn(false, Taken, receive)) == b6;
    assert Run(b6, []) == b6;
    hide Run, Moved;
    ThreeMoves(b3, Turn(true, Taken, receive), Turn(false, Taken, TryAgain), Turn(false, Taken, receive), []);
    var rest := [Turn(true, Taken, receive), Turn(false, Taken, TryAgain), Turn(false, Taken, receive)];
    ThreeMoves(Pair(none, none, false), Turn(true, Taken, receive), Turn(false, Taken, receive),
               Turn(false, Again, receive), rest);
    assert rest + [] == rest;
    assert [Turn(true, Taken, receive), Turn(false, Taken, receive), Turn(false, Again, receive)] + rest
        == [Turn(true, Taken, receive), Turn(false, Taken, receive), Turn(false, Again, receive),
            Turn(true, Taken, receive), Turn(false, Taken, TryAgain), Turn(false, Taken, receive)];
  }

  lemma ThreeMoves(b: Pair, m1: Move, m2: Move, m3: Move, moves: seq<Move>)
    ensures Run(b, [m1, m2, m3] + moves) == Run(Moved(Moved(Moved(b, m1), m2), m3), moves)
  {
    hide Moved, Run;
    assert [m1, m2, m3] + moves == [m1] + ([m2] + ([m3] + moves));
    RunStep(b, m1, [m2] + ([m3] + moves));
    RunStep(Moved(b, m1), m2, [m3] + moves);
    RunStep(Moved(Moved(b, m1), m2), m3, moves);
  }
}
