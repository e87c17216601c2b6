/** The loops over the superblocks of a frame, and the class that collects the blocks. */
module Dav1dFrame {
  import opened Arithmetic
  import opened BlockStatistics
  import opened Dav1dWalk

  /** The least multiple of a that is not below n. */
  function AlignUp(n: nat, a: nat): (r: nat)
    requires a > 0
    ensures r % a == 0 && n <= r < n + a
  {
    QuotientTimes(n + a - 1, a);
    (n + a - 1) / a * a
  }

  /** dav1dFrameInfo: the sizes derived from the picture size in pixels. */
  function FrameOf(width: nat, height: nat, blocks: seq<Block>, beyond: Block): Frame {
    Frame(width / 4, height / 4, AlignUp((width + 7) / 8 * 2, 32), blocks, beyond)
  }

  /** One row of superblocks. The loop bound is the aligned size in pixels, although x counts units. */
  function RowWalk(f: Frame, y: nat, x: nat, step: nat, width: nat): seq<BlockValue>
    requires step > 0
    decreases width - x
  {
    if x >= width then [] else Walk(f, x, y, 0) + RowWalk(f, y, x + step, step, width)
  }

  function FrameWalk(f: Frame, y: nat, step: nat, width: nat, height: nat): seq<BlockValue>
    requires step > 0
    decreases height - y
  {
    if y >= height then [] else RowWalk(f, y, 0, step, width) + FrameWalk(f, y + step, step, width, height)
  }

  lemma WalkSteps(f: Frame, x: nat, y: nat, step: nat, width: nat, height: nat)
    requires step > 0
    ensures RowWalk(f, y, x, step, width)
         == if x >= width then [] else Walk(f, x, y, 0) + RowWalk(f, y, x + step, step, width)
    ensures FrameWalk(f, y, step, width, height)
         == if y >= height then [] else RowWalk(f, y, 0, step, width) + FrameWalk(f, y + step, step, width, height)
  {
    hide Walk;
  }

  /** Superblocks of 64 or 128 pixels, in units. */
  predicate IsStep(step: nat) {
    step == 16 || step == 32
  }

  /** The trees at all superblock origins are good. */
  ghost predicate AllGood(f: Frame, step: nat)
    requires IsStep(step)
  {
    forall x: nat, y: nat :: x % step == 0 && y % step == 0 ==> GoodTree(f, x, y, 0)
  }

  /** How many of the origins x, x + step, ... below `width` have u within 32 units. */
  function Hits(x: nat, step: nat, width: nat, u: nat): nat
    requires step > 0
    decreases width - x
  {
    if x >= width then 0 else One(x <= u < x + 32) + Hits(x + step, step, width, u)
  }

  function Times(step: nat, u: nat): nat {
    if step == 32 || u < 16 then 1 else 2
  }

  lemma {:induction false} HitsOf32(x: nat, width: nat, u: nat)
    requires x % 32 == 0 && u < width
    ensures Hits(x, 32, width, u) == One(x <= u - u % 32)
    decreases width - x
  {
    if x < width {
      HitsOf32(x + 32, width, u);
    }
  }

  lemma {:induction false} HitsOf16(x: nat, width: nat, u: nat)
    requires x % 16 == 0 && u < width
    ensures Hits(x, 16, width, u) == One(x <= u - u % 16) + One(x + 16 <= u - u % 16)
    decreases width - x
  {
    if x < width {
      HitsOf16(x + 16, width, u);
    }
  }

  lemma HitsAre(step: nat, width: nat, u: nat)
    requires IsStep(step) && u < width
    ensures Hits(0, step, width, u) == Times(step, u)
  {
    HitsOf32(0, width, u);
    HitsOf16(0, width, u);
  }

  lemma {:induction false} GoodRowCount(f: Frame, y: nat, x: nat, step: nat, width: nat, u: nat, v: nat)
    requires IsStep(step) && AllGood(f, step) && x % step == 0 && y % step == 0
    requires u < f.width4 && v < f.height4
    ensures UnitCount(RowWalk(f, y, x, step, width), u, v)
         == if y <= v < y + 32 then Hits(x, step, width, u) else 0
    decreases width - x
  {
    hide Walk, GoodTree, UnitCount, One, BlockWidth4;
    EmptyCount(u, v);
    if x < width {
      NextOnGrid(x, step);
      GoodRowCount(f, y, x + step, step, width, u, v);
      GoodTreeTiles(f, x, y, 0, u, v);
      TreeCount(x, y, u, v);
      UnitCountOfSum(Walk(f, x, y, 0), RowWalk(f, y, x + step, step, width), u, v);
    }
  }

  lemma TreeCount(x: nat, y: nat, u: nat, v: nat)
    ensures One(InSquare(x, y, BlockWidth4(0), u, v)) == if y <= v < y + 32 then One(x <= u < x + 32) else 0
  {
  }

  lemma {:induction false} GoodFrameCount(f: Frame, y: nat, step: nat, width: nat, height: nat, u: nat, v: nat)
    requires IsStep(step) && AllGood(f, step) && y % step == 0
    requires u < f.width4 && v < f.height4
    ensures UnitCount(FrameWalk(f, y, step, width, height), u, v)
         == Hits(y, step, height, v) * Hits(0, step, width, u)
    decreases height - y
  {
    hide Walk, GoodTree, RowWalk, UnitCount;
    if y < height {
      var row, rest := RowWalk(f, y, 0, step, width), FrameWalk(f, y + step, step, width, height);
      GoodFrameCount(f, y + step, step, width, height, u, v);
      GoodRowCount(f, y, 0, step, width, u, v);
      UnitCountOfSum(row, rest, u, v);
      assert UnitCount(FrameWalk(f, y, step, width, height), u, v) == UnitCount(row, u, v) + UnitCount(rest, u, v);
      assert Hits(y, step, height, v) == One(y <= v < y + 32) + Hits(y + step, step, height, v);
      MulStep(One(y <= v < y + 32), Hits(y + step, step, height, v), Hits(0, step, width, u));
    } else {
      EmptyCount(u, v);
      MulStep(0, 0, Hits(0, step, width, u));
    }
  }

  lemma MulStep(a: nat, b: nat, c: nat)
    ensures (a + b) * c == a * c + b * c
  {
  }

  /** With good trees everywhere a unit is covered once by 128-pixel superblocks. With 64-pixel ones
      the walk still starts each tree at 128 pixels, so that units get covered two or four times. */
  lemma FrameCount(f: Frame, step: nat, width: nat, height: nat, u: nat, v: nat)
    requires IsStep(step) && AllGood(f, step) && f.width4 <= width && f.height4 <= height
    requires u < f.width4 && v < f.height4
    ensures UnitCount(FrameWalk(f, 0, step, width, height), u, v) == Times(step, u) * Times(step, v)
  {
    GoodFrameCount(f, 0, step, width, height, u, v);
    HitsAre(step, width, u);
    HitsAre(step, height, v);
  }

  ghost predicate CoversFrame(f: Frame, step: nat, width: nat, height: nat)
    requires IsStep(step)
  {
    forall u: nat, v: nat :: u < f.width4 && v < f.height4 ==>
      UnitCount(FrameWalk(f, 0, step, width, height), u, v) == 1
  }

  function Own(f: Frame, x: nat, y: nat, u: nat, v: nat): nat {
    UnitCount(Walk(f, x, y, 0), u, v)
  }

  lemma NextOnGrid(x: nat, step: nat)
    requires IsStep(step) && x % step == 0
    ensures (x + step) % step == 0
    ensures forall x0: nat :: x0 % step == 0 && x < x0 ==> x + step <= x0
    ensures 0 % step == 0
  {
  }

  /** A row in which only the tree at x0 can cover the unit. */
  lemma {:induction false} RowIs(f: Frame, y: nat, x: nat, x0: nat, step: nat, width: nat, u: nat, v: nat)
    requires IsStep(step) && x % step == 0 && x0 % step == 0 && x0 < width
    requires forall x': nat :: x' % step == 0 && x' != x0 ==> Own(f, x', y, u, v) == 0
    ensures UnitCount(RowWalk(f, y, x, step, width), u, v) == if x <= x0 then Own(f, x0, y, u, v) else 0
    decreases width - x
  {
    hide Walk, UnitCount;
    EmptyCount(u, v);
    if x < width {
      NextOnGrid(x, step);
      RowIs(f, y, x + step, x0, step, width, u, v);
      UnitCountOfSum(Walk(f, x, y, 0), RowWalk(f, y, x + step, step, width), u, v);
      assert x != x0 ==> Own(f, x, y, u, v) == 0;
    }
  }

  /** A frame in which only the tree at (x0, y0) can cover the unit. */
  lemma {:induction false} FrameIs(f: Frame, y: nat, x0: nat, y0: nat, step: nat, width: nat, height: nat,
                                   u: nat, v: nat)
    requires IsStep(step) && y % step == 0 && x0 % step == 0 && y0 % step == 0 && x0 < width && y0 < height
    requires forall x': nat, y': nat :: x' % step == 0 && y' % step == 0 && !(x' == x0 && y' == y0) ==>
      Own(f, x', y', u, v) == 0
    ensures UnitCount(FrameWalk(f, y, step, width, height), u, v) == if y <= y0 then Own(f, x0, y0, u, v) else 0
    decreases height - y
  {
    hide Walk, Own, RowWalk, UnitCount;
    EmptyCount(u, v);
    if y < height {
      NextOnGrid(y, step);
      FrameIs(f, y + step, x0, y0, step, width, height, u, v);
      RowIs(f, y, 0, x0, step, width, u, v);
      UnitCountOfSum(RowWalk(f, y, 0, step, width), FrameWalk(f, y + step, step, width, height), u, v);
      assert y != y0 ==> Own(f, x0, y, u, v) == 0;
    }
  }

  /** Superblock by superblock, in raster order: if the frame is covered once, each tree is good. */
  lemma {:induction false} TreeIsGood(f: Frame, x: nat, y: nat, width: nat, height: nat)
    requires CoversFrame(f, 32, width, height) && f.width4 <= width && f.height4 <= height
    requires x % 32 == 0 && y % 32 == 0
    ensures GoodTree(f, x, y, 0)
    decreases y, x
  {
    hide Walk, GoodTree, FrameWalk, UnitCount;
    if x >= f.width4 || y >= f.height4 {
      OffFrameIsGood(f, x, y);
      return;
    }
    forall x': nat, y': nat | x' % 32 == 0 && y' % 32 == 0 && (y' < y || (y' == y && x' < x))
      ensures GoodTree(f, x', y', 0)
    {
      TreeIsGood(f, x', y', width, height);
    }
    forall u: nat, v: nat | InSquare(x, y, BlockWidth4(0), u, v) && u < f.width4 && v < f.height4
      ensures UnitCount(Walk(f, x, y, 0), u, v) == 1
    {
      forall x': nat, y': nat | x' % 32 == 0 && y' % 32 == 0 && !(x' == x && y' == y)
        ensures Own(f, x', y', u, v) == 0
      {
        if y' < y || (y' == y && x' < x) {
          GoodTreeTiles(f, x', y', 0, u, v);
        } else {
          WalkGoesRightAndDown(f, x', y', 0, u, v);
        }
      }
      FrameIs(f, 0, x, y, 32, width, height, u, v);
    }
    TilesIffGood(f, x, y, 0);
  }

  lemma OffFrameIsGood(f: Frame, x: nat, y: nat)
    requires x >= f.width4 || y >= f.height4
    ensures GoodTree(f, x, y, 0)
  {
  }

  /** With 128-pixel superblocks the walk over a frame covers every unit exactly once if and only if
      every tree in it is good. */
  lemma CoversIffGood(f: Frame, width: nat, height: nat)
    requires f.width4 <= width && f.height4 <= height
    ensures CoversFrame(f, 32, width, height) <==> AllGood(f, 32)
  {
    hide Walk, GoodTree, FrameWalk;
    if AllGood(f, 32) {
      forall u: nat, v: nat | u < f.width4 && v < f.height4
        ensures UnitCount(FrameWalk(f, 0, 32, width, height), u, v) == 1
      {
        FrameCount(f, 32, width, height, u, v);
      }
    } else if CoversFrame(f, 32, width, height) {
      forall x: nat, y: nat | x % 32 == 0 && y % 32 == 0
        ensures GoodTree(f, x, y, 0)
      {
        TreeIsGood(f, x, y, width, height);
      }
    }
  }

  /** Blocks of at most 64 pixels, as superblocks of that size have them. */
  ghost predicate SmallBlocks(f: Frame) {
    forall x: nat, y: nat :: x < f.width4 && y < f.height4 ==> BlockAt(f, x, y).bl >= 1
  }

  /** Rows and frames cover nothing in front of where they begin. */
  lemma {:induction false} RowStarts(f: Frame, y: nat, x: nat, step: nat, width: nat, u: nat, v: nat)
    requires step > 0 && (u < x || v < y) && u < f.width4 && v < f.height4
    ensures UnitCount(RowWalk(f, y, x, step, width), u, v) == 0
    decreases width - x
  {
    hide Walk;
    if x < width {
      RowStarts(f, y, x + step, step, width, u, v);
      WalkGoesRightAndDown(f, x, y, 0, u, v);
      UnitCountOfSum(Walk(f, x, y, 0), RowWalk(f, y, x + step, step, width), u, v);
    }
  }

  lemma {:induction false} FrameStarts(f: Frame, y: nat, step: nat, width: nat, height: nat, u: nat, v: nat)
    requires step > 0 && v < y && u < f.width4 && v < f.height4
    ensures UnitCount(FrameWalk(f, y, step, width, height), u, v) == 0
    decreases height - y
  {
    hide Walk, RowWalk, UnitCount;
    EmptyCount(u, v);
    if y < height {
      FrameStarts(f, y + step, step, width, height, u, v);
      RowStarts(f, y, 0, step, width, u, v);
      UnitCountOfSum(RowWalk(f, y, 0, step, width), FrameWalk(f, y + step, step, width, height), u, v);
    }
  }

  /** In the first 64-pixel superblock only the tree at the origin counts. */
  lemma FirstSuperblock(f: Frame, width: nat, height: nat, u: nat, v: nat)
    requires u < 16 && v < 16 && u < f.width4 <= width && v < f.height4 <= height
    ensures UnitCount(FrameWalk(f, 0, 16, width, height), u, v) == Own(f, 0, 0, u, v)
  {
    hide Walk, FrameWalk, UnitCount;
    forall x': nat, y': nat | x' % 16 == 0 && y' % 16 == 0 && !(x' == 0 && y' == 0)
      ensures Own(f, x', y', u, v) == 0
    {
      WalkGoesRightAndDown(f, x', y', 0, u, v);
    }
    FrameIs(f, 0, 0, 0, 16, width, height, u, v);
  }

  /** The first unit of the second superblock is covered by the trees of the first and of the second. */
  lemma SecondSuperblock(f: Frame, width: nat, height: nat)
    requires 0 < f.width4 <= width && 0 < f.height4 <= height
    ensures 16 < f.width4 ==>
      UnitCount(FrameWalk(f, 0, 16, width, height), 16, 0) == Own(f, 0, 0, 16, 0) + Own(f, 16, 0, 16, 0)
    ensures 16 < f.height4 ==>
      UnitCount(FrameWalk(f, 0, 16, width, height), 0, 16) == Own(f, 0, 0, 0, 16) + Own(f, 0, 16, 0, 16)
  {
    hide Walk, UnitCount, FrameWalk, RowWalk;
    if 16 < f.width4 {
      TopOfFrame(f, width, height, 16, 0);
      FrameStarts(f, 16, 16, width, height, 16, 0);
      FrontOfRow(f, 0, 0, width, 16, 0);
      FrontOfRow(f, 0, 16, width, 16, 0);
      RowStarts(f, 0, 32, 16, width, 16, 0);
    }
    if 16 < f.height4 {
      TopOfFrame(f, width, height, 0, 16);
      FrontOfRow(f, 0, 0, width, 0, 16);
      RowStarts(f, 0, 16, 16, width, 0, 16);
      NextOfFrame(f, width, height, 0, 16);
      FrontOfRow(f, 16, 0, width, 0, 16);
      RowStarts(f, 16, 16, 16, width, 0, 16);
      FrameStarts(f, 32, 16, width, height, 0, 16);
    }
  }

  lemma FrontOfRow(f: Frame, y: nat, x: nat, width: nat, u: nat, v: nat)
    requires x < width
    ensures UnitCount(RowWalk(f, y, x, 16, width), u, v)
         == Own(f, x, y, u, v) + UnitCount(RowWalk(f, y, x + 16, 16, width), u, v)
  {
    hide Walk, UnitCount;
    UnitCountOfSum(Walk(f, x, y, 0), RowWalk(f, y, x + 16, 16, width), u, v);
  }

  lemma TopOfFrame(f: Frame, width: nat, height: nat, u: nat, v: nat)
    requires height > 0
    ensures UnitCount(FrameWalk(f, 0, 16, width, height), u, v)
         == UnitCount(RowWalk(f, 0, 0, 16, width), u, v) + UnitCount(FrameWalk(f, 16, 16, width, height), u, v)
  {
    hide Walk, UnitCount, RowWalk;
    UnitCountOfSum(RowWalk(f, 0, 0, 16, width), FrameWalk(f, 16, 16, width, height), u, v);
  }

  lemma NextOfFrame(f: Frame, width: nat, height: nat, u: nat, v: nat)
    requires height > 16
    ensures UnitCount(FrameWalk(f, 16, 16, width, height), u, v)
         == UnitCount(RowWalk(f, 16, 0, 16, width), u, v) + UnitCount(FrameWalk(f, 32, 16, width, height), u, v)
  {
    hide Walk, UnitCount, RowWalk;
    UnitCountOfSum(RowWalk(f, 16, 0, 16, width), FrameWalk(f, 32, 16, width, height), u, v);
  }

  /** A tree of small blocks covers a unit as its four quarters do; so does a broken one, by nothing. */
  lemma QuartersCount(f: Frame, x: nat, y: nat, u: nat, v: nat)
    requires SmallBlocks(f) && x < f.width4 && y < f.height4 && u < f.width4 && v < f.height4
    ensures Splits(f, x, y, 0) ==>
      Own(f, x, y, u, v)
      == UnitCount(Walk(f, x, y, 1), u, v) + UnitCount(Walk(f, x + 16, y, 1), u, v)
       + UnitCount(Walk(f, x, y + 16, 1), u, v) + UnitCount(Walk(f, x + 16, y + 16, 1), u, v)
    ensures !Splits(f, x, y, 0) ==> Own(f, x, y, u, v) == 0 && UnitCount(Walk(f, x, y, 1), u, v) == 0
  {
    hide Walk, UnitCount;
    assert BlockAt(f, x, y).bl >= 1;
    if Splits(f, x, y, 0) {
      CountSplit(f, x, y, 0, u, v);
    } else {
      BrokenCount(f, x, y, 0, u, v);
      BrokenCount(f, x, y, 1, u, v);
    }
  }

  lemma BrokenCount(f: Frame, x: nat, y: nat, level: nat, u: nat, v: nat)
    requires level <= 4 && BlockAt(f, x, y).bl > 4
    ensures UnitCount(Walk(f, x, y, level), u, v) == 0
  {
    hide UnitCount;
    EmptyCount(u, v);
  }

  /** If the first superblock is covered once, its own quarter tree is good and stays inside. */
  lemma FirstQuarterIsGood(f: Frame, width: nat, height: nat)
    requires SmallBlocks(f) && 0 < f.width4 <= width && 0 < f.height4 <= height
    requires CoversFrame(f, 16, width, height)
    ensures Splits(f, 0, 0, 0) && GoodTree(f, 0, 0, 1)
  {
    hide Walk, UnitCount, FrameWalk, GoodTree, SmallBlocks;
    FirstQuarterCount(f, width, height, 0, 0);
    forall u: nat, v: nat | InSquare(0, 0, BlockWidth4(1), u, v) && u < f.width4 && v < f.height4
      ensures UnitCount(Walk(f, 0, 0, 1), u, v) == 1
    {
      FirstQuarterCount(f, width, height, u, v);
    }
    TilesIffGood(f, 0, 0, 1);
  }

  lemma FirstQuarterCount(f: Frame, width: nat, height: nat, u: nat, v: nat)
    requires SmallBlocks(f) && u < f.width4 <= width && v < f.height4 <= height && u < 16 && v < 16
    requires CoversFrame(f, 16, width, height)
    ensures Splits(f, 0, 0, 0) && UnitCount(Walk(f, 0, 0, 1), u, v) == 1
  {
    hide Walk, UnitCount, FrameWalk, SmallBlocks, Splits;
    FirstSuperblock(f, width, height, u, v);
    QuartersCount(f, 0, 0, u, v);
    WalkGoesRightAndDown(f, 16, 0, 1, u, v);
    WalkGoesRightAndDown(f, 0, 16, 1, u, v);
    WalkGoesRightAndDown(f, 16, 16, 1, u, v);
  }

  /** What the second superblock walks, the first one has walked already. */
  lemma SecondIsDoubled(f: Frame, width: nat, height: nat)
    requires SmallBlocks(f) && 0 < f.width4 <= width && 0 < f.height4 <= height
    requires 16 < f.width4 || 16 < f.height4
    ensures !CoversFrame(f, 16, width, height)
  {
    hide Walk, UnitCount, FrameWalk, GoodTree, SmallBlocks;
    if CoversFrame(f, 16, width, height) {
      FirstQuarterIsGood(f, width, height);
      SecondSuperblock(f, width, height);
      if 16 < f.width4 {
        DoubledAt(f, 16, 0);
      } else {
        DoubledAt(f, 0, 16);
      }
    }
  }

  lemma DoubledAt(f: Frame, x: nat, y: nat)
    requires SmallBlocks(f) && x < f.width4 && y < f.height4 && Splits(f, 0, 0, 0) && GoodTree(f, 0, 0, 1)
    requires (x == 16 && y == 0) || (x == 0 && y == 16)
    ensures Own(f, 0, 0, x, y) + Own(f, x, y, x, y) == 2 * UnitCount(Walk(f, x, y, 1), x, y)
  {
    hide Walk, UnitCount, GoodTree, SmallBlocks;
    GoodTreeTiles(f, 0, 0, 1, x, y);
    QuartersCount(f, 0, 0, x, y);
    QuartersCount(f, x, y, x, y);
    WalkGoesRightAndDown(f, 16, 16, 1, x, y);
    WalkGoesRightAndDown(f, 16 - x, 16 - y, 1, x, y);
    WalkGoesRightAndDown(f, x + 16, y, 1, x, y);
    WalkGoesRightAndDown(f, x, y + 16, 1, x, y);
    WalkGoesRightAndDown(f, x + 16, y + 16, 1, x, y);
  }

  /** With 64-pixel superblocks a frame is covered exactly once if and only if it has at most 64 pixels
      each way and its only tree is good: any larger frame is walked more than once. */
  lemma SmallSuperblocks(f: Frame, width: nat, height: nat)
    requires SmallBlocks(f) && 0 < f.width4 <= width && 0 < f.height4 <= height
    ensures CoversFrame(f, 16, width, height) <==> f.width4 <= 16 && f.height4 <= 16 && GoodTree(f, 0, 0, 0)
  {
    hide Walk, UnitCount, FrameWalk, GoodTree, SmallBlocks;
    if f.width4 > 16 || f.height4 > 16 {
      SecondIsDoubled(f, width, height);
    } else {
      forall u: nat, v: nat | u < f.width4 && v < f.height4
        ensures UnitCount(FrameWalk(f, 0, 16, width, height), u, v) == UnitCount(Walk(f, 0, 0, 0), u, v)
        ensures InSquare(0, 0, BlockWidth4(0), u, v)
      {
        FirstSuperblock(f, width, height, u, v);
      }
      TilesIffGood(f, 0, 0, 0);
    }
  }

  /** A frame of 32x32 pixels that is one leaf. */
  function OneLeaf(b: Block, beyond: Block): Frame {
    FrameOf(32, 32, seq(32 * 32, _ => b), beyond)
  }

  /** If the leaf is not good, the frame is not covered. */
  lemma LeafDecides(b: Block, beyond: Block)
    requires b.bl == 2
    ensures var f := OneLeaf(b, beyond);
      && f.width4 == f.height4 == 8
      && (CoversFrame(f, 32, 128, 128) ==> GoodLeaf(f, b, 0, 0, 8))
  {
    hide FrameWalk;
    var f := OneLeaf(b, beyond);
    CoversIffGood(f, 128, 128);
    assert BlockAt(f, 0, 0) == b;
    if CoversFrame(f, 32, 128, 128) {
      assert GoodTree(f, 0, 0, 0);
    }
  }

  /** A leaf cut into four strips: the second strip is missing. */
  lemma StripsExample(beyond: Block)
    ensures var f := OneLeaf(Block(2, 8, true), beyond);
      !CoversFrame(f, 32, 128, 128) && UnitCount(Walk(f, 0, 0, 2), 0, 2) == 0
  {
    hide CoversFrame;
    var f := OneLeaf(Block(2, 8, true), beyond);
    LeafDecides(Block(2, 8, true), beyond);
    assert BlockAt(f, 0, 0) == Block(2, 8, true);
    CountNoSplit(f, 0, 0, 2, 0, 2);
  }

  /** A leaf with the split on the right: its upper right block is missing, its lower left one comes
      twice. */
  lemma RightSplitExample(beyond: Block)
    ensures var f := OneLeaf(Block(2, 7, true), beyond);
      && !CoversFrame(f, 32, 128, 128)
      && UnitCount(Walk(f, 0, 0, 2), 4, 0) == 0
      && UnitCount(Walk(f, 0, 0, 2), 0, 4) == 2
  {
    hide CoversFrame;
    var f := OneLeaf(Block(2, 7, true), beyond);
    LeafDecides(Block(2, 7, true), beyond);
    assert BlockAt(f, 0, 0) == Block(2, 7, true);
    CountNoSplit(f, 0, 0, 2, 4, 0);
    CountNoSplit(f, 0, 0, 2, 0, 4);
  }

  lemma WalkIs(f: Frame, x: nat, y: nat, level: nat)
    requires level <= 4
    ensures y >= f.height4 || BlockAt(f, x, y).bl > 4 ==> Walk(f, x, y, level) == []
    ensures y < f.height4 && BlockAt(f, x, y).bl <= level ==>
      Walk(f, x, y, level) == Leaf(f, BlockAt(f, x, y), x, y, BlockWidth4(level))
  {
    hide Leaf, BlockAt, BlockWidth4;
  }
}
