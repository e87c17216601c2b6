/** The walk over the AV1 block tree of a decoded frame (section 5.11.4 of the AV1 specification).
    Positions and sizes count 4x4 units; the emitted rectangles count pixels. */
module Dav1dWalk {
  import opened BlockStatistics

  const BL_8X8 := 4

  /** What the walk reads of a block: its level, from 128x128 at 0 to 8x8 at 4, its partition, in the
      order of enum BlockPartition, and whether it is intra coded. */
  datatype Block = Block(bl: nat, bp: nat, intra: bool)

  /** A frame: its size in whole 4x4 units, the units per line of the block array, the array, and
      what a read behind the array yields. */
  datatype Frame = Frame(width4: nat, height4: nat, stride: nat, blocks: seq<Block>, beyond: Block)

  function BlockAt(f: Frame, x: nat, y: nat): Block {
    var k := y * f.stride + x;
    if k < |f.blocks| then f.blocks[k] else f.beyond
  }

  function BlockWidth4(level: nat): nat
    requires level <= 4
  {
    if level == 0 then 32 else if level == 1 then 16 else if level == 2 then 8 else if level == 3 then 4 else 2
  }

  /** The value that is recorded with a block. */
  function PredMode(f: Frame, x: nat, y: nat): nat {
    if BlockAt(f, x, y).intra then 0 else 1
  }

  /** parseBlockPartition: a block whose origin lies outside the frame is dropped. */
  function Emit(f: Frame, x: nat, y: nat, w: nat, h: nat): seq<BlockValue> {
    if y >= f.height4 || x >= f.width4 then [] else [BlockValue(Rect(4 * x, 4 * y, 4 * w, 4 * h), PredMode(f, x, y))]
  }

  /** How one tree leaf is cut into blocks. The quarter offset oq is half of the width, as coded. */
  function Leaf(f: Frame, b: Block, x: nat, y: nat, bs: nat): seq<BlockValue> {
    var o, oq := bs / 2, bs / 2;
    if b.bp == 0 then Emit(f, x, y, bs, bs)
    else if b.bp == 1 then Emit(f, x, y, bs, bs / 2) + Emit(f, x, y + o, bs, bs / 2)
    else if b.bp == 2 then Emit(f, x, y, bs / 2, bs) + Emit(f, x + o, y, bs / 2, bs)
    else if b.bp == 3 then
      (if b.bl == BL_8X8 then
         Emit(f, x, y, 1, 1) + Emit(f, x + 1, y, 1, 1) + Emit(f, x, y + 1, 1, 1) + Emit(f, x + 1, y + 1, 1, 1)
       else [])
    else if b.bp == 4 then
      Emit(f, x, y, bs / 2, bs / 2) + Emit(f, x + o, y, bs / 2, bs / 2) + Emit(f, x, y + o, bs, bs / 2)
    else if b.bp == 5 then
      Emit(f, x, y, bs, bs / 2) + Emit(f, x, y + o, bs / 2, bs / 2) + Emit(f, x + o, y + o, bs / 2, bs / 2)
    else if b.bp == 6 then
      Emit(f, x, y, bs / 2, bs / 2) + Emit(f, x, y + o, bs / 2, bs / 2) + Emit(f, x + o, y, bs / 2, bs)
    else if b.bp == 7 then
      Emit(f, x, y, bs / 2, bs) + Emit(f, x, y + o, bs / 2, bs / 2) + Emit(f, x + o, y + o, bs / 2, bs / 2)
    else if b.bp == 8 then
      Emit(f, x, y, bs, bs / 4) + Emit(f, x, y + oq, bs, bs / 4)
      + Emit(f, x, y + oq * 2, bs, bs / 4) + Emit(f, x, y + oq * 3, bs, bs / 4)
    else if b.bp == 9 then
      Emit(f, x, y, bs / 4, bs) + Emit(f, x + oq, y, bs / 4, bs)
      + Emit(f, x + oq * 2, y, bs / 4, bs) + Emit(f, x + oq * 3, y, bs / 4, bs)
    else []
  }

  /** parseBlockRecursive: everything it emits for the square of `level` at (x, y). */
  function Walk(f: Frame, x: nat, y: nat, level: nat): seq<BlockValue>
    requires level <= 4
    decreases 4 - level
  {
    var b := BlockAt(f, x, y);
    var bw := BlockWidth4(level);
    if y >= f.height4 || b.bl > 4 then []
    else if b.bl > level then
      Walk(f, x, y, level + 1) + Walk(f, x + bw / 2, y, level + 1)
      + Walk(f, x, y + bw / 2, level + 1) + Walk(f, x + bw / 2, y + bw / 2, level + 1)
    else Leaf(f, b, x, y, bw)
  }

  /** How many of the rectangles cover the 4x4 unit (u, v). */
  function UnitCount(rs: seq<BlockValue>, u: nat, v: nat): nat {
    Count(rs, 4 * u, 4 * v)
  }

  lemma UnitCountOfSum(a: seq<BlockValue>, b: seq<BlockValue>, u: nat, v: nat)
    ensures UnitCount(a + b, u, v) == UnitCount(a, u, v) + UnitCount(b, u, v)
  {
    CountOfSum(a, b, 4 * u, 4 * v);
  }

  predicate InSquare(x: nat, y: nat, bw: nat, u: nat, v: nat) {
    x <= u < x + bw && y <= v < y + bw
  }

  /** A leaf that is cut without gap or overlap. The two partitions into four strips come out right
      only if the frame ends before their second strip, because the quarter offset is coded as a
      half; the one split on the right only if the frame ends before its right and its lower half,
      because its second block is placed below the left half instead of right of it. A split is a
      leaf only at 8x8. */
  predicate GoodLeaf(f: Frame, b: Block, x: nat, y: nat, bs: nat) {
    || b.bp in {0, 1, 2, 4, 5, 6}
    || (b.bp == 7 && x + bs / 2 >= f.width4 && y + bs / 2 >= f.height4)
    || (b.bp == 3 && b.bl == BL_8X8)
    || (b.bp == 8 && bs >= 4 && y + bs / 4 >= f.height4)
    || (b.bp == 9 && bs >= 4 && x + bs / 4 >= f.width4)
  }

  /** Every leaf of the tree below (x, y) that lies in the frame is good. */
  predicate GoodTree(f: Frame, x: nat, y: nat, level: nat)
    requires level <= 4
    decreases 4 - level
  {
    var b := BlockAt(f, x, y);
    var bw := BlockWidth4(level);
    x >= f.width4 || y >= f.height4 ||
    (b.bl <= 4 &&
     if b.bl > level then
       && GoodTree(f, x, y, level + 1) && GoodTree(f, x + bw / 2, y, level + 1)
       && GoodTree(f, x, y + bw / 2, level + 1) && GoodTree(f, x + bw / 2, y + bw / 2, level + 1)
     else GoodLeaf(f, b, x, y, bw))
  }

  /** Every unit of the square that lies in the frame is covered exactly once by the square's walk. */
  ghost predicate CoversOwn(f: Frame, x: nat, y: nat, level: nat)
    requires level <= 4
  {
    forall u: nat, v: nat :: InSquare(x, y, BlockWidth4(level), u, v) && u < f.width4 && v < f.height4 ==>
      UnitCount(Walk(f, x, y, level), u, v) == 1
  }

  lemma CountEmit(f: Frame, x: nat, y: nat, w: nat, h: nat, u: nat, v: nat)
    requires u < f.width4 && v < f.height4
    ensures UnitCount(Emit(f, x, y, w, h), u, v) == One(x <= u < x + w && y <= v < y + h)
  {
    CountOfOne(BlockValue(Rect(4 * x, 4 * y, 4 * w, 4 * h), PredMode(f, x, y)), 4 * u, 4 * v);
  }

  /** How often the blocks of a leaf cover a unit, without regard to the frame. */
  function LeafCount(b: Block, x: nat, y: nat, bs: nat, u: nat, v: nat): nat {
    var o := bs / 2;
    if b.bp == 0 then In(x, y, bs, bs, u, v)
    else if b.bp == 1 then In(x, y, bs, o, u, v) + In(x, y + o, bs, o, u, v)
    else if b.bp == 2 then In(x, y, o, bs, u, v) + In(x + o, y, o, bs, u, v)
    else if b.bp == 3 then
      (if b.bl == BL_8X8 then In(x, y, 1, 1, u, v) + In(x + 1, y, 1, 1, u, v)
                            + In(x, y + 1, 1, 1, u, v) + In(x + 1, y + 1, 1, 1, u, v) else 0)
    else if b.bp == 4 then In(x, y, o, o, u, v) + In(x + o, y, o, o, u, v) + In(x, y + o, bs, o, u, v)
    else if b.bp == 5 then In(x, y, bs, o, u, v) + In(x, y + o, o, o, u, v) + In(x + o, y + o, o, o, u, v)
    else if b.bp == 6 then In(x, y, o, o, u, v) + In(x, y + o, o, o, u, v) + In(x + o, y, o, bs, u, v)
    else if b.bp == 7 then In(x, y, o, bs, u, v) + In(x, y + o, o, o, u, v) + In(x + o, y + o, o, o, u, v)
    else if b.bp == 8 then In(x, y, bs, bs / 4, u, v) + In(x, y + o, bs, bs / 4, u, v)
                         + In(x, y + o * 2, bs, bs / 4, u, v) + In(x, y + o * 3, bs, bs / 4, u, v)
    else if b.bp == 9 then In(x, y, bs / 4, bs, u, v) + In(x + o, y, bs / 4, bs, u, v)
                         + In(x + o * 2, y, bs / 4, bs, u, v) + In(x + o * 3, y, bs / 4, bs, u, v)
    else 0
  }

  lemma CountLeaf(f: Frame, b: Block, x: nat, y: nat, bs: nat, u: nat, v: nat)
    requires u < f.width4 && v < f.height4
    ensures UnitCount(Leaf(f, b, x, y, bs), u, v) == LeafCount(b, x, y, bs, u, v)
  {
    hide UnitCount, Emit, In;
    EmptyCount(u, v);
    EmitCounts(f, u, v);
    SumCounts(u, v);
  }

  function In(x: nat, y: nat, w: nat, h: nat, u: nat, v: nat): nat {
    One(x <= u < x + w && y <= v < y + h)
  }

  lemma EmptyCount(u: nat, v: nat)
    ensures UnitCount([], u, v) == 0
  {
  }

  lemma EmitCounts(f: Frame, u: nat, v: nat)
    requires u < f.width4 && v < f.height4
    ensures forall x: nat, y: nat, w: nat, h: nat ::
      UnitCount(Emit(f, x, y, w, h), u, v) == In(x, y, w, h, u, v)
  {
    forall x: nat, y: nat, w: nat, h: nat
      ensures UnitCount(Emit(f, x, y, w, h), u, v) == In(x, y, w, h, u, v)
    {
      CountEmit(f, x, y, w, h, u, v);
    }
  }

  lemma SumCounts(u: nat, v: nat)
    ensures forall a, b :: UnitCount(a + b, u, v) == UnitCount(a, u, v) + UnitCount(b, u, v)
  {
    forall a: seq<BlockValue>, b: seq<BlockValue>
      ensures UnitCount(a + b, u, v) == UnitCount(a, u, v) + UnitCount(b, u, v)
    {
      UnitCountOfSum(a, b, u, v);
    }
  }

  lemma GoodLeafTiles(f: Frame, b: Block, x: nat, y: nat, level: nat, u: nat, v: nat)
    requires level <= 4 && b.bl <= level && GoodLeaf(f, b, x, y, BlockWidth4(level))
    requires u < f.width4 && v < f.height4
    ensures LeafCount(b, x, y, BlockWidth4(level), u, v) == One(InSquare(x, y, BlockWidth4(level), u, v))
  {
    var bs := BlockWidth4(level);
    assert bs == 2 * (bs / 2) && (level == 4 <==> bs == 2);
  }

  /** No block begins left of its node or above it. */
  lemma LeafGoesRightAndDown(b: Block, x: nat, y: nat, bs: nat, u: nat, v: nat)
    requires u < x || v < y
    ensures LeafCount(b, x, y, bs, u, v) == 0
  {
  }

  /** A leaf that is not good misses or doubles a unit of its own square that lies in the frame. */
  lemma BadLeafErrs(f: Frame, b: Block, x: nat, y: nat, level: nat) returns (u: nat, v: nat)
    requires level <= 4 && b.bl <= level && !GoodLeaf(f, b, x, y, BlockWidth4(level))
    requires x < f.width4 && y < f.height4
    ensures InSquare(x, y, BlockWidth4(level), u, v) && u < f.width4 && v < f.height4
    ensures LeafCount(b, x, y, BlockWidth4(level), u, v) != 1
  {
    var bs := BlockWidth4(level);
    u, v := x, y;
    if b.bp == 7 {
      if x + bs / 2 < f.width4 {
        u := x + bs / 2;
      } else {
        v := y + bs / 2;
      }
    } else if b.bp == 8 && bs >= 4 {
      v := y + bs / 4;
    } else if b.bp == 9 && bs >= 4 {
      u := x + bs / 4;
    }
  }

  /** The node at (x, y) is cut into four. */
  predicate Splits(f: Frame, x: nat, y: nat, level: nat) {
    y < f.height4 && level < BlockAt(f, x, y).bl <= 4
  }

  lemma CountSplit(f: Frame, x: nat, y: nat, level: nat, u: nat, v: nat)
    requires level <= 4 && Splits(f, x, y, level)
    ensures var o := BlockWidth4(level) / 2;
      UnitCount(Walk(f, x, y, level), u, v) ==
      UnitCount(Walk(f, x, y, level + 1), u, v) + UnitCount(Walk(f, x + o, y, level + 1), u, v)
      + UnitCount(Walk(f, x, y + o, level + 1), u, v) + UnitCount(Walk(f, x + o, y + o, level + 1), u, v)
  {
    hide Leaf, BlockAt, UnitCount, Walk, BlockWidth4;
    WalkSplits(f, x, y, level);
    var o := BlockWidth4(level) / 2;
    var n := level + 1;
    var p, q, r, s := Walk(f, x, y, n), Walk(f, x + o, y, n), Walk(f, x, y + o, n), Walk(f, x + o, y + o, n);
    UnitCountOfSum(p + q + r, s, u, v);
    UnitCountOfSum(p + q, r, u, v);
    UnitCountOfSum(p, q, u, v);
  }

  lemma WalkSplits(f: Frame, x: nat, y: nat, level: nat)
    requires level <= 4 && Splits(f, x, y, level)
    ensures var o, n := BlockWidth4(level) / 2, level + 1;
      Walk(f, x, y, level) ==
      Walk(f, x, y, n) + Walk(f, x + o, y, n) + Walk(f, x, y + o, n) + Walk(f, x + o, y + o, n)
  {
    hide Leaf, BlockAt, BlockWidth4;
  }

  lemma CountNoSplit(f: Frame, x: nat, y: nat, level: nat, u: nat, v: nat)
    requires level <= 4 && u < f.width4 && v < f.height4 && !Splits(f, x, y, level)
    ensures var b := BlockAt(f, x, y);
      UnitCount(Walk(f, x, y, level), u, v) ==
      if y >= f.height4 || b.bl > 4 then 0 else LeafCount(b, x, y, BlockWidth4(level), u, v)
  {
    hide Leaf, BlockAt, LeafCount;
    CountLeaf(f, BlockAt(f, x, y), x, y, BlockWidth4(level), u, v);
  }

  lemma {:induction false} WalkGoesRightAndDown(f: Frame, x: nat, y: nat, level: nat, u: nat, v: nat)
    requires level <= 4 && u < f.width4 && v < f.height4 && (u < x || v < y)
    ensures UnitCount(Walk(f, x, y, level), u, v) == 0
    decreases 4 - level
  {
    hide Leaf, LeafCount, Walk, UnitCount, BlockAt;
    var o := BlockWidth4(level) / 2;
    if Splits(f, x, y, level) {
      CountSplit(f, x, y, level, u, v);
      WalkGoesRightAndDown(f, x, y, level + 1, u, v);
      WalkGoesRightAndDown(f, x + o, y, level + 1, u, v);
      WalkGoesRightAndDown(f, x, y + o, level + 1, u, v);
      WalkGoesRightAndDown(f, x + o, y + o, level + 1, u, v);
    } else {
      CountNoSplit(f, x, y, level, u, v);
      LeafGoesRightAndDown(BlockAt(f, x, y), x, y, BlockWidth4(level), u, v);
    }
  }

  lemma FourSquares(x: nat, y: nat, o: nat, u: nat, v: nat)
    ensures One(InSquare(x, y, o, u, v)) + One(InSquare(x + o, y, o, u, v))
      + One(InSquare(x, y + o, o, u, v)) + One(InSquare(x + o, y + o, o, u, v))
      == One(InSquare(x, y, 2 * o, u, v))
  {
  }

  lemma Outside(x: nat, y: nat, bw: nat, u: nat, v: nat)
    requires u < x || v < y
    ensures One(InSquare(x, y, bw, u, v)) == 0
  {
  }

  lemma WidthHalves(level: nat)
    requires level <= 4
    ensures BlockWidth4(level) == 2 * (BlockWidth4(level) / 2) && BlockWidth4(level) >= 2
    ensures level < 4 ==> BlockWidth4(level + 1) == BlockWidth4(level) / 2
  {
  }

  /** A good tree covers its square exactly once and nothing else. */
  lemma {:induction false} GoodTreeTiles(f: Frame, x: nat, y: nat, level: nat, u: nat, v: nat)
    requires level <= 4 && u < f.width4 && v < f.height4 && GoodTree(f, x, y, level)
    ensures UnitCount(Walk(f, x, y, level), u, v) == One(InSquare(x, y, BlockWidth4(level), u, v))
    decreases 4 - level
  {
    hide Leaf, LeafCount, Walk, UnitCount, BlockAt, GoodLeaf, In, BlockWidth4, InSquare, One, GoodTree, Splits;
    var o := BlockWidth4(level) / 2;
    if x >= f.width4 || y >= f.height4 {
      WalkGoesRightAndDown(f, x, y, level, u, v);
      Outside(x, y, BlockWidth4(level), u, v);
    } else if Splits(f, x, y, level) {
      GoodParts(f, x, y, level);
      GoodTreeTiles(f, x, y, level + 1, u, v);
      GoodTreeTiles(f, x + o, y, level + 1, u, v);
      GoodTreeTiles(f, x, y + o, level + 1, u, v);
      GoodTreeTiles(f, x + o, y + o, level + 1, u, v);
      SumOfSquares(f, x, y, level, u, v);
    } else {
      GoodParts(f, x, y, level);
      CountNoSplit(f, x, y, level, u, v);
      GoodLeafTiles(f, BlockAt(f, x, y), x, y, level, u, v);
    }
  }

  lemma GoodParts(f: Frame, x: nat, y: nat, level: nat)
    requires level <= 4 && GoodTree(f, x, y, level) && x < f.width4 && y < f.height4
    ensures var o := BlockWidth4(level) / 2;
      if Splits(f, x, y, level) then
        level < 4
        && GoodTree(f, x, y, level + 1) && GoodTree(f, x + o, y, level + 1)
        && GoodTree(f, x, y + o, level + 1) && GoodTree(f, x + o, y + o, level + 1)
      else BlockAt(f, x, y).bl <= level && GoodLeaf(f, BlockAt(f, x, y), x, y, BlockWidth4(level))
  {
    hide BlockWidth4, GoodLeaf, BlockAt;
  }

  lemma SumOfSquares(f: Frame, x: nat, y: nat, level: nat, u: nat, v: nat)
    requires level < 4 && Splits(f, x, y, level)
    requires var o, n := BlockWidth4(level) / 2, level + 1;
      && UnitCount(Walk(f, x, y, n), u, v) == One(InSquare(x, y, BlockWidth4(n), u, v))
      && UnitCount(Walk(f, x + o, y, n), u, v) == One(InSquare(x + o, y, BlockWidth4(n), u, v))
      && UnitCount(Walk(f, x, y + o, n), u, v) == One(InSquare(x, y + o, BlockWidth4(n), u, v))
      && UnitCount(Walk(f, x + o, y + o, n), u, v) == One(InSquare(x + o, y + o, BlockWidth4(n), u, v))
    ensures UnitCount(Walk(f, x, y, level), u, v) == One(InSquare(x, y, BlockWidth4(level), u, v))
  {
    hide Walk, UnitCount, InSquare, One, Splits, BlockWidth4;
    CountSplit(f, x, y, level, u, v);
    WidthHalves(level);
    FourSquares(x, y, BlockWidth4(level) / 2, u, v);
  }

  /** And only a good tree does: what a bad leaf gets wrong in its own square no sibling can make
      good, because blocks only go right and down. */
  lemma {:induction false} OnlyGoodTreesTile(f: Frame, x: nat, y: nat, level: nat)
    requires level <= 4 && CoversOwn(f, x, y, level)
    ensures GoodTree(f, x, y, level)
    decreases 4 - level
  {
    hide Leaf, LeafCount, Walk, UnitCount, BlockAt, GoodLeaf, CoversOwn;
    var b, o := BlockAt(f, x, y), BlockWidth4(level) / 2;
    if x < f.width4 && y < f.height4 {
      if Splits(f, x, y, level) {
        FirstChildCovers(f, x, y, level);
        OnlyGoodTreesTile(f, x, y, level + 1);
        SecondChildCovers(f, x, y, level);
        OnlyGoodTreesTile(f, x + o, y, level + 1);
        ThirdChildCovers(f, x, y, level);
        OnlyGoodTreesTile(f, x, y + o, level + 1);
        FourthChildCovers(f, x, y, level);
        OnlyGoodTreesTile(f, x + o, y + o, level + 1);
      } else {
        CoveredOnce(f, x, y, level, x, y);
        CountNoSplit(f, x, y, level, x, y);
        if !GoodLeaf(f, b, x, y, 2 * o) {
          var u, v := BadLeafErrs(f, b, x, y, level);
          CountNoSplit(f, x, y, level, u, v);
          CoveredOnce(f, x, y, level, u, v);
        }
      }
    }
  }

  lemma CoveredOnce(f: Frame, x: nat, y: nat, level: nat, u: nat, v: nat)
    requires level <= 4 && CoversOwn(f, x, y, level)
    ensures InSquare(x, y, BlockWidth4(level), u, v) && u < f.width4 && v < f.height4 ==>
      UnitCount(Walk(f, x, y, level), u, v) == 1
  {
  }

  lemma FirstChildCovers(f: Frame, x: nat, y: nat, level: nat)
    requires level <= 4 && CoversOwn(f, x, y, level) && Splits(f, x, y, level)
    ensures CoversOwn(f, x, y, level + 1)
  {
    hide Leaf, Walk, UnitCount, BlockAt;
    var o, n := BlockWidth4(level) / 2, level + 1;
    forall u: nat, v: nat | InSquare(x, y, BlockWidth4(n), u, v) && u < f.width4 && v < f.height4
      ensures UnitCount(Walk(f, x, y, n), u, v) == 1
    {
      CoveredOnce(f, x, y, level, u, v);
      CountSplit(f, x, y, level, u, v);
      WalkGoesRightAndDown(f, x + o, y, n, u, v);
      WalkGoesRightAndDown(f, x, y + o, n, u, v);
      WalkGoesRightAndDown(f, x + o, y + o, n, u, v);
    }
  }

  lemma SecondChildCovers(f: Frame, x: nat, y: nat, level: nat)
    requires level <= 4 && CoversOwn(f, x, y, level) && Splits(f, x, y, level)
    requires GoodTree(f, x, y, level + 1)
    ensures CoversOwn(f, x + BlockWidth4(level) / 2, y, level + 1)
  {
    hide Leaf, Walk, UnitCount, BlockAt, GoodTree;
    var o, n := BlockWidth4(level) / 2, level + 1;
    var x', y' := x + o, y;
    forall u: nat, v: nat | InSquare(x', y', BlockWidth4(n), u, v) && u < f.width4 && v < f.height4
      ensures UnitCount(Walk(f, x', y', n), u, v) == 1
    {
      CoveredOnce(f, x, y, level, u, v);
      CountSplit(f, x, y, level, u, v);
      GoodTreeTiles(f, x, y, n, u, v);
      WalkGoesRightAndDown(f, x, y + o, n, u, v);
      WalkGoesRightAndDown(f, x + o, y + o, n, u, v);
    }
  }

  lemma ThirdChildCovers(f: Frame, x: nat, y: nat, level: nat)
    requires level <= 4 && CoversOwn(f, x, y, level) && Splits(f, x, y, level)
    requires GoodTree(f, x, y, level + 1) && GoodTree(f, x + BlockWidth4(level) / 2, y, level + 1)
    ensures CoversOwn(f, x, y + BlockWidth4(level) / 2, level + 1)
  {
    hide Leaf, Walk, UnitCount, BlockAt, GoodTree;
    var o, n := BlockWidth4(level) / 2, level + 1;
    var x', y' := x, y + o;
    forall u: nat, v: nat | InSquare(x', y', BlockWidth4(n), u, v) && u < f.width4 && v < f.height4
      ensures UnitCount(Walk(f, x', y', n), u, v) == 1
    {
      CoveredOnce(f, x, y, level, u, v);
      CountSplit(f, x, y, level, u, v);
      GoodTreeTiles(f, x, y, n, u, v);
      GoodTreeTiles(f, x + o, y, n, u, v);
      WalkGoesRightAndDown(f, x + o, y + o, n, u, v);
    }
  }

  lemma FourthChildCovers(f: Frame, x: nat, y: nat, level: nat)
    requires level <= 4 && CoversOwn(f, x, y, level) && Splits(f, x, y, level)
    requires GoodTree(f, x, y, level + 1) && GoodTree(f, x + BlockWidth4(level) / 2, y, level + 1)
    requires GoodTree(f, x, y + BlockWidth4(level) / 2, level + 1)
    ensures CoversOwn(f, x + BlockWidth4(level) / 2, y + BlockWidth4(level) / 2, level + 1)
  {
    hide Leaf, Walk, UnitCount, BlockAt, GoodTree;
    var o, n := BlockWidth4(level) / 2, level + 1;
    var x', y' := x + o, y + o;
    forall u: nat, v: nat | InSquare(x', y', BlockWidth4(n), u, v) && u < f.width4 && v < f.height4
      ensures UnitCount(Walk(f, x', y', n), u, v) == 1
    {
      CoveredOnce(f, x, y, level, u, v);
      CountSplit(f, x, y, level, u, v);
      GoodTreeTiles(f, x, y, n, u, v);
      GoodTreeTiles(f, x + o, y, n, u, v);
      GoodTreeTiles(f, x, y + o, n, u, v);
    }
  }

  /** The walk of a node covers its own square exactly once if and only if its tree is good. */
  lemma TilesIffGood(f: Frame, x: nat, y: nat, level: nat)
    requires level <= 4
    ensures CoversOwn(f, x, y, level) <==> GoodTree(f, x, y, level)
  {
    hide Walk, UnitCount, GoodTree;
    if GoodTree(f, x, y, level) {
      forall u: nat, v: nat | InSquare(x, y, BlockWidth4(level), u, v) && u < f.width4 && v < f.height4
        ensures UnitCount(Walk(f, x, y, level), u, v) == 1
      {
        GoodTreeTiles(f, x, y, level, u, v);
      }
    } else if CoversOwn(f, x, y, level) {
      OnlyGoodTreesTile(f, x, y, level);
    }
  }
}
