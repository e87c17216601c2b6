/** The part of the dav1d decoder that turns the block data of a picture into statistics. */
module DecoderDav1d {
  import opened BlockStatistics
  import opened Dav1dWalk
  import opened Dav1dFrame
  import opened Dav1dShown

  class DecoderDav1d {
    const width: nat
    const height: nat
    const blockData: seq<Block>
    const beyond: Block
    const frame: Frame
    const widthAligned: nat
    const heightAligned: nat
    const subBlockSize: nat
    var statisticsData: seq<BlockValue>

    /** The derived sizes are those of the picture. */
    ghost predicate Valid() {
      && frame == FrameOf(width, height, blockData, beyond)
      && widthAligned == AlignUp(width, 128) && heightAligned == AlignUp(height, 128)
      && subBlockSize in {64, 128}
    }

    /** A decoder with a picture of width x height pixels and its block data. */
    constructor (width: nat, height: nat, blockData: seq<Block>, beyond: Block, sb128: bool)
      ensures Valid() && statisticsData == []
      ensures this.width == width && this.height == height && this.blockData == blockData && this.beyond == beyond
      ensures subBlockSize == if sb128 then 128 else 64
    {
      this.width, this.height, this.blockData, this.beyond := width, height, blockData, beyond;
      frame := FrameOf(width, height, blockData, beyond);
      widthAligned, heightAligned := AlignUp(width, 128), AlignUp(height, 128);
      subBlockSize := if sb128 then 128 else 64;
      statisticsData := [];
    }

    method ParseBlockPartition(x: nat, y: nat, blockWidth4: nat, blockHeight4: nat)
      modifies this
      ensures statisticsData == old(statisticsData) + Emit(frame, x, y, blockWidth4, blockHeight4)
    {
      if y >= frame.height4 || x >= frame.width4 {
        return;
      }
      var predMode := if BlockAt(frame, x, y).intra then 0 else 1;
      statisticsData := statisticsData + [BlockValue(Rect(x * 4, y * 4, blockWidth4 * 4, blockHeight4 * 4), predMode)];
    }

    method ParseLeaf(b: Block, x: nat, y: nat, bs: nat)
      modifies this
      ensures statisticsData == old(statisticsData) + Leaf(frame, b, x, y, bs)
    {
      hide Emit;
      var o := bs / 2;
      var oq := bs / 2;
      ghost var before := statisticsData;
      match b.bp {
        case 0 =>
          ParseBlockPartition(x, y, bs, bs);
        case 1 =>
          ParseBlockPartition(x, y, bs, bs / 2);
          ParseBlockPartition(x, y + o, bs, bs / 2);
        case 2 =>
          ParseBlockPartition(x, y, bs / 2, bs);
          ParseBlockPartition(x + o, y, bs / 2, bs);
        case 3 =>
          if b.bl == BL_8X8 {
            ParseBlockPartition(x, y, 1, 1);
            ParseBlockPartition(x + 1, y, 1, 1);
            ParseBlockPartition(x, y + 1, 1, 1);
            ParseBlockPartition(x + 1, y + 1, 1, 1);
            Regroup(before, Emit(frame, x, y, 1, 1), Emit(frame, x + 1, y, 1, 1),
                    Emit(frame, x, y + 1, 1, 1), Emit(frame, x + 1, y + 1, 1, 1));
          }
        case 4 =>
          ParseBlockPartition(x, y, bs / 2, bs / 2);
          ParseBlockPartition(x + o, y, bs / 2, bs / 2);
          ParseBlockPartition(x, y + o, bs, bs / 2);
          Regroup(before, Emit(frame, x, y, bs / 2, bs / 2), Emit(frame, x + o, y, bs / 2, bs / 2),
                       Emit(frame, x, y + o, bs, bs / 2), []);
        case 5 =>
          ParseBlockPartition(x, y, bs, bs / 2);
          ParseBlockPartition(x, y + o, bs / 2, bs / 2);
          ParseBlockPartition(x + o, y + o, bs / 2, bs / 2);
          Regroup(before, Emit(frame, x, y, bs, bs / 2), Emit(frame, x, y + o, bs / 2, bs / 2),
                       Emit(frame, x + o, y + o, bs / 2, bs / 2), []);
        case 6 =>
          ParseBlockPartition(x, y, bs / 2, bs / 2);
          ParseBlockPartition(x, y + o, bs / 2, bs / 2);
          ParseBlockPartition(x + o, y, bs / 2, bs);
          Regroup(before, Emit(frame, x, y, bs / 2, bs / 2), Emit(frame, x, y + o, bs / 2, bs / 2),
                       Emit(frame, x + o, y, bs / 2, bs), []);
        case 7 =>
          ParseBlockPartition(x, y, bs / 2, bs);
          ParseBlockPartition(x, y + o, bs / 2, bs / 2);
          ParseBlockPartition(x + o, y + o, bs / 2, bs / 2);
          Regroup(before, Emit(frame, x, y, bs / 2, bs), Emit(frame, x, y + o, bs / 2, bs / 2),
                       Emit(frame, x + o, y + o, bs / 2, bs / 2), []);
        case 8 =>
          ParseBlockPartition(x, y, bs, bs / 4);
          ParseBlockPartition(x, y + oq, bs, bs / 4);
          ParseBlockPartition(x, y + oq * 2, bs, bs / 4);
          ParseBlockPartition(x, y + oq * 3, bs, bs / 4);
          Regroup(before, Emit(frame, x, y, bs, bs / 4), Emit(frame, x, y + oq, bs, bs / 4),
                  Emit(frame, x, y + oq * 2, bs, bs / 4), Emit(frame, x, y + oq * 3, bs, bs / 4));
        case 9 =>
          ParseBlockPartition(x, y, bs / 4, bs);
          ParseBlockPartition(x + oq, y, bs / 4, bs);
          ParseBlockPartition(x + oq * 2, y, bs / 4, bs);
          ParseBlockPartition(x + oq * 3, y, bs / 4, bs);
          Regroup(before, Emit(frame, x, y, bs / 4, bs), Emit(frame, x + oq, y, bs / 4, bs),
                  Emit(frame, x + oq * 2, y, bs / 4, bs), Emit(frame, x + oq * 3, y, bs / 4, bs));
        case _ =>
      }
    }

    method ParseBlockRecursive(x: nat, y: nat, level: nat)
      requires level <= 4
      modifies this
      ensures statisticsData == old(statisticsData) + Walk(frame, x, y, level)
      decreases 4 - level
    {
      hide Leaf, UnitCount, Walk, BlockWidth4, BlockAt;
      WalkIs(frame, x, y, level);
      if y >= frame.height4 {
        return;
      }
      ghost var before := statisticsData;
      var b := BlockAt(frame, x, y);
      if b.bl > 4 {
        return;
      }
      var blockWidth4 := BlockWidth4(level);
      if b.bl > level {
        var subw := blockWidth4 / 2;
        WalkSplits(frame, x, y, level);
        ParseBlockRecursive(x, y, level + 1);
        ParseBlockRecursive(x + subw, y, level + 1);
        ParseBlockRecursive(x, y + subw, level + 1);
        ParseBlockRecursive(x + subw, y + subw, level + 1);
        Regroup(before, Walk(frame, x, y, level + 1), Walk(frame, x + subw, y, level + 1),
                Walk(frame, x, y + subw, level + 1), Walk(frame, x + subw, y + subw, level + 1));
      } else {
        ParseLeaf(b, x, y, blockWidth4);
      }
    }

    /** Adds the blocks of the whole frame; on a fresh decoder, each pixel once exactly in the cases
        proved for the walk. */
    method CacheStatistics()
      requires Valid()
      modifies this
      ensures statisticsData == old(statisticsData) + Statistics(width, height, blockData, beyond, subBlockSize / 4)
      ensures old(statisticsData) == [] && subBlockSize == 128 ==>
        (CoversPicture(statisticsData, width, height) <==> AllGood(frame, 32))
      ensures old(statisticsData) == [] && subBlockSize == 64 && SmallBlocks(frame) && width >= 4 && height >= 4 ==>
        (CoversPicture(statisticsData, width, height) <==> width < 68 && height < 68 && GoodTree(frame, 0, 0, 0))
    {
      hide Walk, RowWalk, FrameWalk, CoversPicture, AllGood, GoodTree, SmallBlocks, AlignUp;
      var sbStep := subBlockSize / 4;
      var y := 0;
      while y < heightAligned
        invariant statisticsData + FrameWalk(frame, y, sbStep, widthAligned, heightAligned) ==
          old(statisticsData) + FrameWalk(frame, 0, sbStep, widthAligned, heightAligned)
        decreases heightAligned - y
      {
        WalkSteps(frame, 0, y, sbStep, widthAligned, heightAligned);
        Regroup(statisticsData, RowWalk(frame, y, 0, sbStep, widthAligned),
                FrameWalk(frame, y + sbStep, sbStep, widthAligned, heightAligned), [], []);
        CacheRow(y, sbStep);
        y := y + sbStep;
      }
      WalkSteps(frame, 0, y, sbStep, widthAligned, heightAligned);
      Covered(old(statisticsData));
    }

    /** The inner loop: one row of superblocks. */
    method CacheRow(y: nat, sbStep: nat)
      requires sbStep > 0
      modifies this
      ensures statisticsData == old(statisticsData) + RowWalk(frame, y, 0, sbStep, widthAligned)
    {
      hide Walk, RowWalk, FrameWalk;
      var x := 0;
      while x < widthAligned
        invariant statisticsData + RowWalk(frame, y, x, sbStep, widthAligned) ==
          old(statisticsData) + RowWalk(frame, y, 0, sbStep, widthAligned)
        decreases widthAligned - x
      {
        WalkSteps(frame, x, y, sbStep, widthAligned, heightAligned);
        Regroup(statisticsData, Walk(frame, x, y, 0), RowWalk(frame, y, x + sbStep, sbStep, widthAligned), [], []);
        ParseBlockRecursive(x, y, 0);
        x := x + sbStep;
      }
      WalkSteps(frame, x, y, sbStep, widthAligned, heightAligned);
    }

    /** What the appended statistics mean on a fresh decoder. */
    lemma Covered(before: seq<BlockValue>)
      requires Valid()
      ensures var rs := before + Statistics(width, height, blockData, beyond, subBlockSize / 4);
        before == [] ==>
          && (subBlockSize == 128 ==> (CoversPicture(rs, width, height) <==> AllGood(frame, 32)))
          && (subBlockSize == 64 && SmallBlocks(frame) && width >= 4 && height >= 4 ==>
                (CoversPicture(rs, width, height) <==> width < 68 && height < 68 && GoodTree(frame, 0, 0, 0)))
    {
      hide Statistics, CoversPicture, AllGood, GoodTree, SmallBlocks, AlignUp;
      var rs := Statistics(width, height, blockData, beyond, subBlockSize / 4);
      assert [] + rs == rs;
      PictureIsCovered(width, height, blockData, beyond);
      if SmallBlocks(frame) && width >= 4 && height >= 4 {
        SmallPictureIsCovered(width, height, blockData, beyond);
      }
    }
  }
}
