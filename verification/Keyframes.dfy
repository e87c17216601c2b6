/** The index of key frames and the search in it. */
module Keyframes {
  import opened ByteStream

  datatype PictureIdx = PictureIdx(frame: nat, dts: int)

  /** A packet of the video stream; isObu is what checkForObuFormat says about its data. */
  datatype Packet = Packet(data: seq<Byte>, isObu: bool, key: bool, dts: int)

  /** The key frames of the packets, where the first one is frame `from`. */
  function KeyFrames(packets: seq<Packet>, from: nat): (ks: seq<PictureIdx>)
    decreases |packets|
  {
    if packets == [] then []
    else Own(packets[0], from) + KeyFrames(packets[1..], from + 1)
  }

  predicate Increasing(ks: seq<PictureIdx>) {
    forall i, j :: 0 <= i < j < |ks| ==> ks[i].frame < ks[j].frame
  }

  /** The index is strictly increasing and lists the key frames, all of them and nothing else. */
  lemma {:induction false} IndexIsExact(packets: seq<Packet>, from: nat)
    ensures Increasing(KeyFrames(packets, from))
    ensures forall p <- KeyFrames(packets, from) :: from <= p.frame < from + |packets|
    ensures forall p <- KeyFrames(packets, from) ::
      packets[p.frame - from].key && packets[p.frame - from].dts == p.dts
    ensures forall i :: 0 <= i < |packets| && packets[i].key ==>
      PictureIdx(from + i, packets[i].dts) in KeyFrames(packets, from)
    decreases |packets|
  {
    hide KeyFrames, Own, Increasing;
    if packets != [] {
      IndexIsExact(packets[1..], from + 1);
      KeyFramesStep(packets, from);
      IndexStep(packets, from, Own(packets[0], from), KeyFrames(packets[1..], from + 1));
    } else {
      NoFrames(from);
    }
  }

  lemma NoFrames(from: nat)
    ensures KeyFrames([], from) == [] && Increasing([])
  {
  }

  lemma IndexStep(packets: seq<Packet>, from: nat, own: seq<PictureIdx>, rest: seq<PictureIdx>)
    requires packets != [] && own == Own(packets[0], from) && Increasing(rest)
    requires forall p <- rest :: from + 1 <= p.frame < from + |packets|
    requires forall p <- rest ::
      packets[1..][p.frame - (from + 1)].key && packets[1..][p.frame - (from + 1)].dts == p.dts
    requires forall i :: 0 <= i < |packets| - 1 && packets[1..][i].key ==>
      PictureIdx(from + 1 + i, packets[1..][i].dts) in rest
    ensures Increasing(own + rest)
    ensures forall p <- own + rest :: from <= p.frame < from + |packets|
    ensures forall p <- own + rest :: packets[p.frame - from].key && packets[p.frame - from].dts == p.dts
    ensures forall i :: 0 <= i < |packets| && packets[i].key ==> PictureIdx(from + i, packets[i].dts) in own + rest
  {
    forall i | 0 <= i < |packets| && packets[i].key
      ensures PictureIdx(from + i, packets[i].dts) in own + rest
    {
      if i > 0 {
        assert packets[i] == packets[1..][i - 1];
        assert PictureIdx(from + 1 + (i - 1), packets[i].dts) in rest;
      }
    }
    forall p | p in own + rest
      ensures from <= p.frame < from + |packets|
      ensures packets[p.frame - from].key && packets[p.frame - from].dts == p.dts
    {
      if p in rest {
        assert packets[p.frame - from] == packets[1..][p.frame - (from + 1)];
      }
    }
  }

  lemma KeyFramesStep(packets: seq<Packet>, from: nat)
    requires packets != []
    ensures KeyFrames(packets, from) == Own(packets[0], from) + KeyFrames(packets[1..], from + 1)
  {
  }

  function Own(packet: Packet, frame: nat): seq<PictureIdx> {
    if packet.key then [PictureIdx(frame, packet.dts)] else []
  }

  lemma {:induction false} KeyFramesOfSum(a: seq<Packet>, b: seq<Packet>, from: nat)
    ensures KeyFrames(a + b, from) == KeyFrames(a, from) + KeyFrames(b, from + |a|)
    decreases |a|
  {
    if a == [] {
      assert a + b == b;
    } else {
      assert (a + b)[1..] == a[1..] + b;
      KeyFramesOfSum(a[1..], b, from + 1);
      KeyFramesStep(a, from);
      KeyFramesStep(a + b, from);
    }
  }

  /** How many entries the search passes: it stops at the first one behind the frame. */
  function Passed(ks: seq<PictureIdx>, frame: int): (n: nat)
    ensures n <= |ks|
    ensures forall k :: 0 <= k < n ==> frame > 0 && ks[k].frame <= frame
    ensures n < |ks| ==> frame <= 0 || ks[n].frame > frame
    decreases |ks|
  {
    if ks == [] || frame <= 0 || ks[0].frame > frame then 0 else 1 + Passed(ks[1..], frame)
  }

  function Closest(ks: seq<PictureIdx>, frame: int): PictureIdx
    requires ks != []
  {
    if Passed(ks, frame) == 0 then ks[0] else ks[Passed(ks, frame) - 1]
  }

  /** The search finds the last key frame not behind the frame; the first one if there is none. */
  lemma ClosestIsLast(ks: seq<PictureIdx>, frame: int)
    requires ks != [] && Increasing(ks)
    ensures Closest(ks, frame) in ks
    ensures if ks[0].frame <= frame && frame > 0
            then Closest(ks, frame).frame <= frame
              && forall p <- ks :: p.frame <= frame ==> p.frame <= Closest(ks, frame).frame
            else Closest(ks, frame) == ks[0]
  {
  }

  lemma PassedOfSum(a: seq<PictureIdx>, b: seq<PictureIdx>, frame: int)
    ensures Passed(a + b, frame) == if Passed(a, frame) == |a| then |a| + Passed(b, frame) else Passed(a, frame)
    decreases |a|
  {
    if a == [] {
      assert a + b == b;
    } else {
      assert (a + b)[1..] == a[1..] + b;
      PassedOfSum(a[1..], b, frame);
    }
  }

  /** A second scan appends the same key frames again. The list is then not increasing, but every
      search in it still gives the same answer. */
  lemma RescanIsHarmless(ks: seq<PictureIdx>, frame: int)
    requires ks != [] && Increasing(ks)
    ensures !Increasing(ks + ks)
    ensures Closest(ks + ks, frame) == Closest(ks, frame)
  {
    hide Passed;
    PassedOfSum(ks, ks, frame);
    SearchInDouble(ks, Passed(ks, frame));
    assert (ks + ks)[0].frame == (ks + ks)[|ks|].frame;
  }

  lemma SearchInDouble(ks: seq<PictureIdx>, n: nat)
    requires ks != [] && n <= |ks|
    ensures (ks + ks)[0] == ks[0] && (ks + ks)[|ks|] == ks[0]
    ensures n > 0 ==> (ks + ks)[n - 1] == ks[n - 1] && (ks + ks)[|ks| + n - 1] == ks[n - 1]
  {
  }
}
