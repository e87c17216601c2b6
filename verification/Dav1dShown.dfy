/** What the statistics show of each pixel, in terms of the block array and the partitions of the
    standard (section 5.11.4 of the AV1 specification). */
module Dav1dShown {
  import opened Arithmetic
  import opened BlockStatistics
  import opened Dav1dWalk
  import opened Dav1dFrame

  /** Where the square of a level begins that the unit lies in. */
  function NodeStart(level: nat, u: nat): (x: nat)
    requires level <= 4
    ensures x <= u < x + BlockWidth4(level) && x % BlockWidth4(level) == 0
  {
    Down(u, BlockWidth4(level))
  }

  /** The block, in units, that the unit (u, v) belongs to by the level and the partition stored with
      it: the part of its square that its half or quarter of the square says. */
  function PartOf(level: nat, partition: nat, u: nat, v: nat): Rect
    requires level <= 4
  {
    var bs := BlockWidth4(level);
    var x, y, o, q := NodeStart(level, u), NodeStart(level, v), bs / 2, Max(bs / 4, 1);
    var isLeft, isTop := u < x + o, v < y + o;
    var hx, hy := if isLeft then x else x + o, if isTop then y else y + o;
    match partition
    case 0 => Rect(x, y, bs, bs)
    case 1 => Rect(x, hy, bs, o)
    case 2 => Rect(hx, y, o, bs)
    case 4 => if isTop then Rect(hx, y, o, o) else Rect(x, hy, bs, o)
    case 5 => if isTop then Rect(x, y, bs, o) else Rect(hx, hy, o, o)
    case 6 => if isLeft then Rect(x, hy, o, o) else Rect(hx, y, o, bs)
    case 7 => if isLeft then Rect(x, y, o, bs) else Rect(hx, hy, o, o)
    case 8 => Rect(x, y + Down(v - y, q), bs, q)
    case 9 => Rect(x + Down(u - x, q), y, q, bs)
    case _ => Rect(u, v, 1, 1)
  }

  /** What is recorded for a block of this many units. */
  function Scaled(r: Rect, b: Block): BlockValue {
    BlockValue(Rect(4 * r.x, 4 * r.y, 4 * r.w, 4 * r.h), if b.intra then 0 else 1)
  }

  predicate InFrame(f: Frame, u: nat, v: nat) {
    u < f.width4 && v < f.height4
  }

  /** All units of a square carry its level and its partition, and all units of a block the same data,
      as the library writes them. */
  ghost predicate IsWritten(f: Frame) {
    forall u: nat, v: nat, u': nat, v': nat :: InFrame(f, u, v) && InFrame(f, u', v') ==>
      Agree(BlockAt(f, u, v), u, v, BlockAt(f, u', v'), u', v')
  }

  predicate Agree(b: Block, u: nat, v: nat, b': Block, u': nat, v': nat) {
    && b.bl <= 4
    && (NodeStart(b.bl, u) == NodeStart(b.bl, u') && NodeStart(b.bl, v) == NodeStart(b.bl, v') ==>
          b'.bl == b.bl && b'.bp == b.bp)
    && (Contains(PartOf(b.bl, b.bp, u, v), u', v') ==> b' == b)
  }

  /** Every square around the node was split. */
  ghost predicate IsReached(f: Frame, x: nat, y: nat, level: nat)
    requires level <= 4
  {
    forall n: nat :: n < level ==> BlockAt(f, NodeStart(n, x), NodeStart(n, y)).bl > n
  }

  lemma PartContains(level: nat, partition: nat, u: nat, v: nat)
    requires level <= 4
    ensures Contains(PartOf(level, partition, u, v), u, v)
  {
    hide Down, BlockWidth4;
    WidthHalves(level);
  }

  /** The blocks of a good leaf are the parts of the standard, wherever the frame shows them. */
  lemma LeafHasPart(f: Frame, b: Block, x: nat, y: nat, u: nat, v: nat)
    requires b.bl <= 4 && GoodLeaf(f, b, x, y, BlockWidth4(b.bl))
    requires NodeStart(b.bl, u) == x && NodeStart(b.bl, v) == y && InFrame(f, u, v)
    ensures var p := PartOf(b.bl, b.bp, u, v);
      && p.x <= u && p.y <= v
      && BlockValue(Rect(4 * p.x, 4 * p.y, 4 * p.w, 4 * p.h), PredMode(f, p.x, p.y))
         in Leaf(f, b, x, y, BlockWidth4(b.bl))
  {
    hide PredMode;
  }

  /** Four strips of width q, each o behind the other. */
  predicate InStrips(d: nat, o: nat, q: nat) {
    d < q || o <= d < o + q || 2 * o <= d < 2 * o + q || 3 * o <= d < 3 * o + q
  }

  /** What the three partitions that can be bad come out as: strips of a quarter of the square that
      spread over twice its height or width, every other quarter left out; and a split on the right whose
      upper right quarter lies on the lower left one. */
  lemma BadPartitions(f: Frame, b: Block, x: nat, y: nat, level: nat, u: nat, v: nat)
    requires level <= 4 && InFrame(f, u, v) && u >= x && v >= y
    ensures var bs := BlockWidth4(level);
      var (o, q, du, dv) := (bs / 2, bs / 4, u - x, v - y);
      var count := UnitCount(Leaf(f, b, x, y, bs), u, v);
      && (b.bp == 8 ==> count == One(du < bs && InStrips(dv, o, q)))
      && (b.bp == 9 ==> count == One(dv < bs && InStrips(du, o, q)))
      && (b.bp == 7 ==>
            count == One(du < o && dv < bs) + One(du < o && o <= dv < bs) + One(o <= du < bs && o <= dv < bs))
  {
    hide Leaf, UnitCount, LeafCount, BlockWidth4;
    var bs := BlockWidth4(level);
    WidthHalves(level);
    CountLeaf(f, b, x, y, bs, u, v);
    RowsOfStrips(b, x, y, bs, u, v);
    ColumnsOfStrips(b, x, y, bs, u, v);
    RightSplit(b, x, y, bs, u, v);
  }

  lemma RowsOfStrips(b: Block, x: nat, y: nat, bs: nat, u: nat, v: nat)
    requires u >= x && v >= y && bs >= 2
    ensures b.bp == 8 ==> LeafCount(b, x, y, bs, u, v) == One(u - x < bs && InStrips(v - y, bs / 2, bs / 4))
  {
  }

  lemma ColumnsOfStrips(b: Block, x: nat, y: nat, bs: nat, u: nat, v: nat)
    requires u >= x && v >= y && bs >= 2
    ensures b.bp == 9 ==> LeafCount(b, x, y, bs, u, v) == One(v - y < bs && InStrips(u - x, bs / 2, bs / 4))
  {
  }

  lemma RightSplit(b: Block, x: nat, y: nat, bs: nat, u: nat, v: nat)
    requires u >= x && v >= y && bs == bs / 2 * 2
    ensures var (o, du, dv) := (bs / 2, u - x, v - y);
      b.bp == 7 ==>
        LeafCount(b, x, y, bs, u, v)
        == One(du < o && dv < bs) + One(du < o && o <= dv < bs) + One(o <= du < bs && o <= dv < bs)
  {
  }

  /** A square lies in one square of each level above. */
  lemma SameNode(n: nat, level: nat, x: nat, x': nat)
    requires n <= level <= 4 && x % BlockWidth4(level) == 0 && x <= x' < x + BlockWidth4(level)
    ensures NodeStart(n, x') == NodeStart(n, x) && NodeStart(n, NodeStart(n, x)) == NodeStart(n, x)
    ensures n == level ==> NodeStart(n, x) == x
  {
    hide Down;
    var c := BlockWidth4(n) / BlockWidth4(level);
    assert c >= 1 && c * BlockWidth4(level) == BlockWidth4(n) && (n == level ==> c == 1);
    SameDown(x, x', BlockWidth4(level), c);
  }

  /** The quarters of a square are aligned, too. */
  lemma HalfIsAligned(level: nat, x: nat)
    requires level < 4 && x % BlockWidth4(level) == 0
    ensures x % BlockWidth4(level + 1) == 0 && (x + BlockWidth4(level) / 2) % BlockWidth4(level + 1) == 0
  {
    WidthHalves(level);
    HalfOf(x, BlockWidth4(level + 1));
  }

  lemma ChildIsReached(f: Frame, x: nat, y: nat, level: nat, x': nat, y': nat)
    requires level < 4 && IsReached(f, x, y, level) && Splits(f, x, y, level)
    requires x % BlockWidth4(level) == 0 && y % BlockWidth4(level) == 0
    requires x <= x' < x + BlockWidth4(level) && y <= y' < y + BlockWidth4(level)
    ensures IsReached(f, x', y', level + 1)
  {
    hide BlockAt, NodeStart, BlockWidth4;
    forall n: nat | n < level + 1
      ensures BlockAt(f, NodeStart(n, x'), NodeStart(n, y')).bl > n
    {
      SameNode(n, level, x, x');
      SameNode(n, level, y, y');
    }
  }

  /** A leaf carries the level of its square. */
  lemma LeafHasLevel(f: Frame, x: nat, y: nat, level: nat)
    requires level <= 4 && IsWritten(f) && IsReached(f, x, y, level) && InFrame(f, x, y)
    requires x % BlockWidth4(level) == 0 && y % BlockWidth4(level) == 0 && BlockAt(f, x, y).bl <= level
    ensures BlockAt(f, x, y).bl == level
  {
    hide BlockAt, NodeStart, BlockWidth4, PartOf, IsWritten, IsReached;
    var b := BlockAt(f, x, y);
    WidthHalves(level);
    WrittenAt(f, x, y, x, y);
    var x0, y0 := NodeStart(b.bl, x), NodeStart(b.bl, y);
    SameNode(b.bl, level, x, x);
    SameNode(b.bl, level, y, y);
    WrittenAt(f, x, y, x0, y0);
    ReachedAt(f, x, y, level, b.bl);
  }

  lemma WrittenAt(f: Frame, u: nat, v: nat, u': nat, v': nat)
    requires IsWritten(f) && InFrame(f, u, v) && InFrame(f, u', v')
    ensures Agree(BlockAt(f, u, v), u, v, BlockAt(f, u', v'), u', v')
  {
  }

  lemma ReachedAt(f: Frame, x: nat, y: nat, level: nat, n: nat)
    requires level <= 4 && IsReached(f, x, y, level)
    ensures n < level ==> BlockAt(f, NodeStart(n, x), NodeStart(n, y)).bl > n
  {
  }

  lemma LeafShows(f: Frame, x: nat, y: nat, level: nat, u: nat, v: nat)
    requires level <= 4 && IsWritten(f) && InFrame(f, x, y) && InFrame(f, u, v) && y < f.height4
    requires x % BlockWidth4(level) == 0 && y % BlockWidth4(level) == 0 && InSquare(x, y, BlockWidth4(level), u, v)
    requires BlockAt(f, x, y).bl == level && GoodLeaf(f, BlockAt(f, x, y), x, y, BlockWidth4(level))
    ensures var b := BlockAt(f, u, v);
      b.bl <= 4 && Scaled(PartOf(b.bl, b.bp, u, v), b) in Leaf(f, BlockAt(f, x, y), x, y, BlockWidth4(level))
  {
    hide BlockAt, NodeStart, BlockWidth4, PartOf, Leaf, GoodLeaf;
    var b, b' := BlockAt(f, x, y), BlockAt(f, u, v);
    SameNode(level, level, x, u);
    SameNode(level, level, y, v);
    assert Agree(b, x, y, b', u, v);
    LeafHasPart(f, b, x, y, u, v);
    PartContains(b'.bl, b'.bp, u, v);
    var p := PartOf(b'.bl, b'.bp, u, v);
    assert Agree(b', u, v, BlockAt(f, p.x, p.y), p.x, p.y);
  }

  /** A good tree shows of each unit in its square the block that the unit belongs to. */
  lemma {:induction false} TreeShows(f: Frame, x: nat, y: nat, level: nat, u: nat, v: nat)
    requires level <= 4 && IsWritten(f) && GoodTree(f, x, y, level) && IsReached(f, x, y, level)
    requires x % BlockWidth4(level) == 0 && y % BlockWidth4(level) == 0
    requires InSquare(x, y, BlockWidth4(level), u, v) && InFrame(f, u, v)
    ensures var b := BlockAt(f, u, v);
      b.bl <= 4 && Scaled(PartOf(b.bl, b.bp, u, v), b) in Walk(f, x, y, level)
    decreases 4 - level
  {
    hide BlockAt, NodeStart, BlockWidth4, PartOf, Leaf, GoodLeaf, GoodTree, Walk, IsReached, IsWritten, Splits;
    GoodParts(f, x, y, level);
    if Splits(f, x, y, level) {
      var o := BlockWidth4(level) / 2;
      HalfIsAligned(level, x);
      HalfIsAligned(level, y);
      WidthHalves(level);
      WalkSplits(f, x, y, level);
      var x', y' := if u < x + o then x else x + o, if v < y + o then y else y + o;
      ChildIsReached(f, x, y, level, x', y');
      TreeShows(f, x', y', level + 1, u, v);
    } else {
      LeafHasLevel(f, x, y, level);
      LeafShows(f, x, y, level, u, v);
      WalkIs(f, x, y, level);
    }
  }

  /** A row and a frame record what the trees of their superblocks do. */
  lemma {:induction false} RowHas(f: Frame, y: nat, x: nat, width: nat, x0: nat, r: BlockValue)
    requires x % 32 == 0 && x0 % 32 == 0 && x <= x0 < width && r in Walk(f, x0, y, 0)
    ensures r in RowWalk(f, y, x, 32, width)
    decreases width - x
  {
    hide Walk;
    if x < x0 {
      RowHas(f, y, x + 32, width, x0, r);
    }
  }

  lemma {:induction false} FrameHas(f: Frame, y: nat, width: nat, height: nat, x0: nat, y0: nat, r: BlockValue)
    requires y % 32 == 0 && x0 % 32 == 0 && y0 % 32 == 0 && x0 < width && y <= y0 < height && r in Walk(f, x0, y0, 0)
    ensures r in FrameWalk(f, y, 32, width, height)
    decreases height - y
  {
    hide Walk, RowWalk;
    if y < y0 {
      FrameHas(f, y + 32, width, height, x0, y0, r);
    } else {
      RowHas(f, y, 0, width, x0, r);
    }
  }

  /** All rectangles consist of whole units. */
  predicate OnGrid(rs: seq<BlockValue>) {
    forall k :: 0 <= k < |rs| ==> IsUnits(rs[k].rect)
  }

  predicate IsUnits(r: Rect) {
    r.x % 4 == 0 && r.y % 4 == 0 && r.w % 4 == 0 && r.h % 4 == 0
  }

  lemma OnGridOfSum(a: seq<BlockValue>, b: seq<BlockValue>)
    requires OnGrid(a) && OnGrid(b)
    ensures OnGrid(a + b)
  {
  }

  lemma EmitOnGrid(f: Frame, x: nat, y: nat, w: nat, h: nat)
    ensures OnGrid(Emit(f, x, y, w, h))
  {
  }

  lemma LeafOnGrid(f: Frame, b: Block, x: nat, y: nat, bs: nat)
    ensures OnGrid(Leaf(f, b, x, y, bs))
  {
    hide Emit, IsUnits;
    forall x: nat, y: nat, w: nat, h: nat
      ensures OnGrid(Emit(f, x, y, w, h))
    {
      EmitOnGrid(f, x, y, w, h);
    }
  }

  lemma {:induction false} WalkOnGrid(f: Frame, x: nat, y: nat, level: nat)
    requires level <= 4
    ensures OnGrid(Walk(f, x, y, level))
    decreases 4 - level
  {
    hide Leaf, BlockAt, BlockWidth4, OnGrid, Walk;
    if Splits(f, x, y, level) {
      var o, n := BlockWidth4(level) / 2, level + 1;
      WalkSplits(f, x, y, level);
      WalkOnGrid(f, x, y, n);
      WalkOnGrid(f, x + o, y, n);
      WalkOnGrid(f, x, y + o, n);
      WalkOnGrid(f, x + o, y + o, n);
      var p, q, r, s := Walk(f, x, y, n), Walk(f, x + o, y, n), Walk(f, x, y + o, n), Walk(f, x + o, y + o, n);
      OnGridOfSum(p, q);
      OnGridOfSum(p + q, r);
      OnGridOfSum(p + q + r, s);
    } else {
      WalkIs(f, x, y, level);
      NothingOnGrid();
      LeafOnGrid(f, BlockAt(f, x, y), x, y, BlockWidth4(level));
    }
  }

  lemma NothingOnGrid()
    ensures OnGrid([])
  {
  }

  lemma {:induction false} RowOnGrid(f: Frame, y: nat, x: nat, step: nat, width: nat)
    requires step > 0
    ensures OnGrid(RowWalk(f, y, x, step, width))
    decreases width - x
  {
    hide Walk, IsUnits;
    if x < width {
      WalkOnGrid(f, x, y, 0);
      RowOnGrid(f, y, x + step, step, width);
    }
  }

  lemma {:induction false} FrameOnGrid(f: Frame, y: nat, step: nat, width: nat, height: nat)
    requires step > 0
    ensures OnGrid(FrameWalk(f, y, step, width, height))
    decreases height - y
  {
    hide RowWalk, IsUnits;
    if y < height {
      RowOnGrid(f, y, 0, step, width);
      FrameOnGrid(f, y + step, step, width, height);
    }
  }

  lemma {:induction false} PixelIsUnit(rs: seq<BlockValue>, px: nat, py: nat)
    requires OnGrid(rs)
    ensures Count(rs, px, py) == UnitCount(rs, px / 4, py / 4)
    decreases |rs|
  {
    if rs != [] {
      UnitOfPixel(rs[0].rect, px, py);
      PixelIsUnit(rs[1..], px, py);
    }
  }

  lemma UnitOfPixel(r: Rect, px: nat, py: nat)
    requires IsUnits(r)
    ensures Contains(r, px, py) <==> Contains(r, 4 * (px / 4), 4 * (py / 4))
  {
  }

  /** The statistics of a picture of this many pixels, with superblocks of `step` units. */
  function Statistics(width: nat, height: nat, blocks: seq<Block>, beyond: Block, step: nat): seq<BlockValue>
    requires IsStep(step)
  {
    FrameWalk(FrameOf(width, height, blocks, beyond), 0, step, AlignUp(width, 128), AlignUp(height, 128))
  }

  /** Each pixel of the picture's whole units is in exactly one rectangle. */
  ghost predicate CoversPicture(rs: seq<BlockValue>, width: nat, height: nat) {
    forall px: nat, py: nat :: px / 4 < width / 4 && py / 4 < height / 4 ==> Count(rs, px, py) == 1
  }

  lemma CoversPictureIs(width: nat, height: nat, blocks: seq<Block>, beyond: Block, step: nat)
    requires IsStep(step)
    ensures CoversPicture(Statistics(width, height, blocks, beyond, step), width, height)
       <==> CoversFrame(FrameOf(width, height, blocks, beyond), step, AlignUp(width, 128), AlignUp(height, 128))
  {
    hide FrameWalk, UnitCount, AlignUp;
    var f, rs := FrameOf(width, height, blocks, beyond), Statistics(width, height, blocks, beyond, step);
    FrameOnGrid(f, 0, step, AlignUp(width, 128), AlignUp(height, 128));
    forall px: nat, py: nat
      ensures Count(rs, px, py) == UnitCount(rs, px / 4, py / 4)
    {
      PixelIsUnit(rs, px, py);
    }
    if CoversPicture(rs, width, height) {
      forall u: nat, v: nat | u < f.width4 && v < f.height4
        ensures UnitCount(rs, u, v) == 1
      {
        assert (4 * u) / 4 == u && (4 * v) / 4 == v;
        assert Count(rs, 4 * u, 4 * v) == 1;
      }
    }
  }

  /** For every picture and every block array: with 128-pixel superblocks each pixel is recorded once if
      and only if all trees are good. */
  lemma PictureIsCovered(width: nat, height: nat, blocks: seq<Block>, beyond: Block)
    ensures CoversPicture(Statistics(width, height, blocks, beyond, 32), width, height)
       <==> AllGood(FrameOf(width, height, blocks, beyond), 32)
  {
    hide FrameWalk, AlignUp, AllGood, CoversFrame, CoversPicture;
    CoversPictureIs(width, height, blocks, beyond, 32);
    CoversIffGood(FrameOf(width, height, blocks, beyond), AlignUp(width, 128), AlignUp(height, 128));
  }

  /** With 64-pixel superblocks only if there is but one. */
  lemma SmallPictureIsCovered(width: nat, height: nat, blocks: seq<Block>, beyond: Block)
    requires SmallBlocks(FrameOf(width, height, blocks, beyond)) && width >= 4 && height >= 4
    ensures CoversPicture(Statistics(width, height, blocks, beyond, 16), width, height)
       <==> width < 68 && height < 68 && GoodTree(FrameOf(width, height, blocks, beyond), 0, 0, 0)
  {
    hide FrameWalk, AlignUp, GoodTree, CoversFrame, CoversPicture, SmallBlocks;
    CoversPictureIs(width, height, blocks, beyond, 16);
    SmallSuperblocks(FrameOf(width, height, blocks, beyond), AlignUp(width, 128), AlignUp(height, 128));
  }

  function Flat(lines: seq<seq<Block>>): seq<Block>
    decreases |lines|
  {
    if lines == [] then [] else lines[0] + Flat(lines[1..])
  }

  lemma {:induction false} FlatAt(lines: seq<seq<Block>>, n: nat, u: nat, v: nat)
    requires forall k :: 0 <= k < |lines| ==> |lines[k]| == n
    requires v < |lines| && u < n
    ensures v * n + u < |Flat(lines)| && Flat(lines)[v * n + u] == lines[v][u]
    decreases |lines|
  {
    if v > 0 {
      FlatAt(lines[1..], n, u, v - 1);
      assert v * n + u == n + ((v - 1) * n + u);
    }
  }

  /** A line of the block array is as long as the aligned picture. */
  lemma StrideIsAligned(width: nat, height: nat, blocks: seq<Block>, beyond: Block)
    ensures var f := FrameOf(width, height, blocks, beyond);
      4 * f.stride == AlignUp(width, 128) && f.width4 <= f.stride
  {
    var t := (width + 7) / 8;
    SameQuotient(width, t);
    assert AlignUp(t * 2, 32) == (t * 2 + 31) / 32 * 32;
    assert AlignUp(width, 128) == (width + 127) / 128 * 128;
  }

  lemma SameQuotient(width: nat, t: nat)
    requires t == (width + 7) / 8
    ensures (t * 2 + 31) / 32 == (width + 127) / 128
  {
    var q, r := (width + 127) / 128, (width + 127) % 128;
    assert width + 127 == 128 * q + r;
    assert t + 15 == 16 * q + r / 8;
  }

  /** For every picture whose trees are good, with the block array as the library writes it, line by
      line: each pixel is in exactly one rectangle, that of the block it belongs to by the data stored
      for its unit, with the prediction mode stored there. */
  lemma PictureShowsBlocks(width: nat, height: nat, lines: seq<seq<Block>>, beyond: Block, px: nat, py: nat)
    requires |lines| >= height / 4 && forall k :: 0 <= k < |lines| ==> |lines[k]| == AlignUp(width, 128) / 4
    requires AllGood(FrameOf(width, height, Flat(lines), beyond), 32)
    requires IsWritten(FrameOf(width, height, Flat(lines), beyond))
    requires px / 4 < width / 4 && py / 4 < height / 4
    ensures var rs := Statistics(width, height, Flat(lines), beyond, 32);
      var b := lines[py / 4][px / 4];
      && Count(rs, px, py) == 1
      && b.bl <= 4
      && var r := Scaled(PartOf(b.bl, b.bp, px / 4, py / 4), b);
        r in rs && Contains(r.rect, px, py)
  {
    hide FrameWalk, AlignUp, GoodTree, CoversPicture, UnitCount, PartOf, IsWritten, Walk, BlockWidth4, NodeStart, Flat;
    var f := FrameOf(width, height, Flat(lines), beyond);
    var u, v := px / 4, py / 4;
    PictureIsCovered(width, height, Flat(lines), beyond);
    CoveredAt(Statistics(width, height, Flat(lines), beyond, 32), width, height, px, py);
    StrideIsAligned(width, height, Flat(lines), beyond);
    FlatAt(lines, f.stride, u, v);
    assert BlockAt(f, u, v) == lines[v][u];
    var x0, y0 := NodeStart(0, u), NodeStart(0, v);
    SuperblockOf(u);
    SuperblockOf(v);
    TreeShows(f, x0, y0, 0, u, v);
    var b := lines[v][u];
    var p := PartOf(b.bl, b.bp, u, v);
    FrameHas(f, 0, AlignUp(width, 128), AlignUp(height, 128), x0, y0, Scaled(p, b));
    PartContains(b.bl, b.bp, u, v);
    UnitInside(p.x, p.w, px);
    UnitInside(p.y, p.h, py);
  }

  lemma CoveredAt(rs: seq<BlockValue>, width: nat, height: nat, px: nat, py: nat)
    requires CoversPicture(rs, width, height) && px / 4 < width / 4 && py / 4 < height / 4
    ensures Count(rs, px, py) == 1
  {
  }

  lemma SuperblockOf(u: nat)
    ensures var x := NodeStart(0, u); x <= u < x + 32 && x % 32 == 0 && BlockWidth4(0) == 32
  {
  }

  lemma UnitInside(x: nat, w: nat, px: nat)
    ensures x <= px / 4 < x + w ==> 4 * x <= px < 4 * x + 4 * w
  {
  }
}
