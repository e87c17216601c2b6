/** Coding blocks, their prediction blocks and transform trees, collected over a whole picture. */
module De265Blocks {
  import opened Arithmetic
  import opened BlockStatistics
  import opened De265Trees

  function NumPB(partMode: nat): nat {
    if partMode == 0 then 1 else if partMode == 3 then 4 else 2
  }

  /** Where prediction block i of a coding block of `size` pixels lies, for part modes 0 to 7. */
  function PbRect(partMode: nat, size: nat, i: nat): Rect {
    var h, q := size / 2, size / 4;
    if partMode == 0 then Rect(0, 0, size, size)
    else if partMode == 1 then Rect(0, if i == 0 then 0 else h, size, h)
    else if partMode == 2 then Rect(if i == 0 then 0 else h, 0, h, size)
    else if partMode == 3 then Rect(if i == 0 || i == 2 then 0 else h, if i == 0 || i == 1 then 0 else h, h, h)
    else if partMode == 4 then (if i == 0 then Rect(0, 0, size, q) else Rect(0, q, size, q * 3))
    else if partMode == 5 then (if i == 0 then Rect(0, 0, size, q * 3) else Rect(0, q * 3, size, q))
    else if partMode == 6 then (if i == 0 then Rect(0, 0, q, size) else Rect(q, 0, q * 3, size))
    else (if i == 0 then Rect(0, 0, q * 3, size) else Rect(q * 3, 0, q, size))
  }

  /** How many of the first n prediction blocks cover the pixel (a, b) of the coding block. */
  function PbCount(partMode: nat, size: nat, n: nat, a: nat, b: nat): nat {
    if n == 0 then 0 else PbCount(partMode, size, n - 1, a, b) + One(Contains(PbRect(partMode, size, n - 1), a, b))
  }

  /** The prediction blocks tile the coding block exactly. */
  ghost predicate PbTiles(partMode: nat, size: nat) {
    forall a: nat, b: nat :: PbCount(partMode, size, NumPB(partMode), a, b) == One(a < size && b < size)
  }

  /** The divisions of the part mode leave no rest. */
  predicate Divides(partMode: nat, size: nat) {
    if partMode == 0 then true else if partMode <= 3 then size % 2 == 0 else size % 4 == 0
  }

  lemma PbCountIs(partMode: nat, size: nat, a: nat, b: nat)
    requires partMode <= 7
    ensures var h, q := size / 2, size / 4;
      PbCount(partMode, size, NumPB(partMode), a, b) ==
      if partMode == 0 then One(a < size && b < size)
      else if partMode == 1 then One(a < size && b < h + h)
      else if partMode == 2 then One(a < h + h && b < size)
      else if partMode == 3 then One(a < h + h && b < h + h)
      else if partMode <= 5 then One(a < size && b < q * 4)
      else One(a < q * 4 && b < size)
  {
    hide PbCount, PbRect, One, Contains;
    PbCounts(partMode, size, a, b);
    PbParts(partMode, size, a, b);
  }

  /** The counts, block by block. */
  lemma PbCounts(partMode: nat, size: nat, a: nat, b: nat)
    ensures PbCount(partMode, size, 1, a, b) == One(Contains(PbRect(partMode, size, 0), a, b))
    ensures PbCount(partMode, size, 2, a, b)
         == PbCount(partMode, size, 1, a, b) + One(Contains(PbRect(partMode, size, 1), a, b))
    ensures PbCount(partMode, size, 4, a, b)
         == PbCount(partMode, size, 2, a, b) + One(Contains(PbRect(partMode, size, 2), a, b))
          + One(Contains(PbRect(partMode, size, 3), a, b))
  {
    hide PbRect, One, Contains;
    assert PbCount(partMode, size, 0, a, b) == 0;
    assert PbCount(partMode, size, 3, a, b)
        == PbCount(partMode, size, 2, a, b) + One(Contains(PbRect(partMode, size, 2), a, b));
  }

  lemma PbParts(partMode: nat, size: nat, a: nat, b: nat)
    requires partMode <= 7
    ensures var h, q := size / 2, size / 4;
      var p0, p1 := One(Contains(PbRect(partMode, size, 0), a, b)), One(Contains(PbRect(partMode, size, 1), a, b));
      && (partMode == 0 ==> p0 == One(a < size && b < size))
      && (partMode == 1 ==> p0 + p1 == One(a < size && b < h + h))
      && (partMode == 2 ==> p0 + p1 == One(a < h + h && b < size))
      && (partMode == 3 ==>
            p0 + p1 + One(Contains(PbRect(partMode, size, 2), a, b)) + One(Contains(PbRect(partMode, size, 3), a, b))
            == One(a < h + h && b < h + h))
      && (4 <= partMode <= 5 ==> p0 + p1 == One(a < size && b < q * 4))
      && (6 <= partMode ==> p0 + p1 == One(a < q * 4 && b < size))
  {
    hide One, Contains, PbRect;
    if partMode in {1, 4, 5} {
      PbRows(partMode, size, a, b);
    } else if partMode in {2, 6, 7} {
      PbColumns(partMode, size, a, b);
    } else {
      PbSquares(size, a, b);
    }
  }

  lemma PbRows(partMode: nat, size: nat, a: nat, b: nat)
    requires partMode in {1, 4, 5}
    ensures One(Contains(PbRect(partMode, size, 0), a, b)) + One(Contains(PbRect(partMode, size, 1), a, b))
         == One(a < size && b < if partMode == 1 then size / 2 + size / 2 else size / 4 * 4)
  {
    hide One, Contains;
    var h, q := size / 2, size / 4;
    TwoRects(size, if partMode == 1 then h else if partMode == 4 then q else q * 3,
             if partMode == 1 then h + h else q * 4, a, b);
  }

  lemma PbColumns(partMode: nat, size: nat, a: nat, b: nat)
    requires partMode in {2, 6, 7}
    ensures One(Contains(PbRect(partMode, size, 0), a, b)) + One(Contains(PbRect(partMode, size, 1), a, b))
         == One((a < if partMode == 2 then size / 2 + size / 2 else size / 4 * 4) && b < size)
  {
    hide One, Contains;
    var h, q := size / 2, size / 4;
    TwoColumns(size, if partMode == 2 then h else if partMode == 6 then q else q * 3,
               if partMode == 2 then h + h else q * 4, a, b);
  }

  lemma PbSquares(size: nat, a: nat, b: nat)
    ensures One(Contains(PbRect(0, size, 0), a, b)) == One(a < size && b < size)
    ensures One(Contains(PbRect(3, size, 0), a, b)) + One(Contains(PbRect(3, size, 1), a, b))
      + One(Contains(PbRect(3, size, 2), a, b)) + One(Contains(PbRect(3, size, 3), a, b))
      == One(a < size / 2 + size / 2 && b < size / 2 + size / 2)
  {
    hide One, Contains;
    OneRect(size, a, b);
    FourRects(size / 2, a, b);
  }

  lemma OneRect(size: nat, a: nat, b: nat)
    ensures One(Contains(Rect(0, 0, size, size), a, b)) == One(a < size && b < size)
  {
  }

  lemma TwoRects(w: nat, cut: nat, h: nat, a: nat, b: nat)
    requires cut <= h
    ensures One(Contains(Rect(0, 0, w, cut), a, b)) + One(Contains(Rect(0, cut, w, h - cut), a, b))
         == One(a < w && b < h)
  {
  }

  lemma TwoColumns(h: nat, cut: nat, w: nat, a: nat, b: nat)
    requires cut <= w
    ensures One(Contains(Rect(0, 0, cut, h), a, b)) + One(Contains(Rect(cut, 0, w - cut, h), a, b))
         == One(a < w && b < h)
  {
  }

  lemma FourRects(h: nat, a: nat, b: nat)
    ensures One(Contains(Rect(0, 0, h, h), a, b)) + One(Contains(Rect(h, 0, h, h), a, b))
      + One(Contains(Rect(0, h, h, h), a, b)) + One(Contains(Rect(h, h, h, h), a, b))
      == One(a < h + h && b < h + h)
  {
  }

  /** For every part mode and size: the blocks tile exactly if and only if the size is divisible by
      what the mode divides it by. */
  lemma PbTilesIffDivides(partMode: nat, size: nat)
    requires partMode <= 7
    ensures PbTiles(partMode, size) <==> Divides(partMode, size)
  {
    hide PbCount;
    if Divides(partMode, size) {
      forall a: nat, b: nat
        ensures PbCount(partMode, size, NumPB(partMode), a, b) == One(a < size && b < size)
      {
        PbCountIs(partMode, size, a, b);
      }
    } else {
      PbCountIs(partMode, size, size - 1, size - 1);
    }
  }

  /** The coding block array of a picture: units per line, number of lines, pixels per unit, and the
      packed value of each unit. */
  datatype CbInfo = CbInfo(width: nat, height: nat, unitSize: nat, vals: seq<nat>) {
    predicate Valid() {
      width > 0 && |vals| == width * height
    }
  }

  /** A coding block begins at unit k if the low three bits of its value hold a size. */
  predicate IsCb(cb: CbInfo, k: nat)
    requires k < |cb.vals|
  {
    cb.vals[k] % 8 > 0
  }

  /** The coding block at unit k; its value is the part mode. */
  function CbOf(cb: CbInfo, k: nat): BlockValue
    requires cb.Valid() && k < |cb.vals|
  {
    var x: nat, y: nat := k % cb.width, k / cb.width;
    Square(x * cb.unitSize, y * cb.unitSize, Pow2(cb.vals[k] % 8), cb.vals[k] / 8 % 8)
  }

  /** The linear index of the transform unit at a pixel position. */
  function TuIndex(t: TuInfo, x: nat, y: nat): nat
    requires t.Valid()
  {
    y / t.unitSize * t.width + x / t.unitSize
  }

  function TreeOf(t: TuInfo, c: BlockValue): seq<BlockValue>
    requires t.Valid()
  {
    Leaves(t, TuIndex(t, c.rect.x, c.rect.y), c.rect.w / t.unitSize, 0)
  }

  /** The coding blocks from unit k on, in scan order, and the transform units below them. */
  function Cbs(cb: CbInfo, k: nat): seq<BlockValue>
    requires cb.Valid() && k <= |cb.vals|
    decreases |cb.vals| - k
  {
    if k == |cb.vals| then [] else (if IsCb(cb, k) then [CbOf(cb, k)] else []) + Cbs(cb, k + 1)
  }

  function Tus(cb: CbInfo, t: TuInfo, k: nat): seq<BlockValue>
    requires cb.Valid() && t.Valid() && k <= |cb.vals|
    decreases |cb.vals| - k
  {
    if k == |cb.vals| then [] else (if IsCb(cb, k) then TreeOf(t, CbOf(cb, k)) else []) + Tus(cb, t, k + 1)
  }

  /** A coding block that is aligned to transform units, fits its line and has a good tree. */
  predicate GoodCb(t: TuInfo, c: BlockValue)
    requires t.Valid()
  {
    && c.rect.w == c.rect.h
    && c.rect.x % t.unitSize == 0 && c.rect.y % t.unitSize == 0 && c.rect.w % t.unitSize == 0 && c.rect.w > 0
    && c.rect.x / t.unitSize + c.rect.w / t.unitSize <= t.width
    && GoodTree(t, TuIndex(t, c.rect.x, c.rect.y), c.rect.w / t.unitSize, 0)
  }

  /** The root node of an aligned coding block is the square of its pixels. */
  lemma RootIsCb(t: TuInfo, c: BlockValue, a: nat, b: nat)
    requires t.Valid() && GoodCb(t, c)
    ensures FitsLine(t, TuIndex(t, c.rect.x, c.rect.y), c.rect.w / t.unitSize)
    ensures InNode(t, TuIndex(t, c.rect.x, c.rect.y), c.rect.w / t.unitSize, a, b) == Contains(c.rect, a, b)
  {
    hide Leaves, GoodTree;
    var u := t.unitSize;
    var x, y, w := c.rect.x / u, c.rect.y / u, c.rect.w / u;
    assert w > 0 && x + w <= t.width;
    DivModOf(y, x, t.width);
    Aligned(c.rect.x, u);
    Aligned(c.rect.y, u);
    Aligned(c.rect.w, u);
    Distribute(x, w, u);
    Distribute(y, w, u);
  }

  lemma Aligned(n: nat, u: nat)
    requires u > 0 && n % u == 0
    ensures n / u * u == n
  {
  }

  lemma Distribute(x: nat, w: nat, u: nat)
    ensures (x + w) * u == x * u + w * u
  {
  }

  /** The transform units of a good coding block cover exactly its pixels. */
  lemma TreeTilesCb(t: TuInfo, c: BlockValue, a: nat, b: nat)
    requires t.Valid() && GoodCb(t, c)
    ensures Count(TreeOf(t, c), a, b) == One(Contains(c.rect, a, b))
  {
    hide Leaves, Count, GoodTree, InNode, FitsLine, TuIndex;
    RootIsCb(t, c, a, b);
    StaysInNode(t, TuIndex(t, c.rect.x, c.rect.y), c.rect.w / t.unitSize, 0, a, b);
  }

  /** Over a whole picture every pixel is covered by as many transform units as coding blocks: where
      the coding blocks tile the picture, the transform units do. */
  lemma {:induction false} TusFollowCbs(cb: CbInfo, t: TuInfo, k: nat, a: nat, b: nat)
    requires cb.Valid() && t.Valid() && k <= |cb.vals|
    requires forall i :: k <= i < |cb.vals| && IsCb(cb, i) ==> GoodCb(t, CbOf(cb, i))
    ensures Count(Tus(cb, t, k), a, b) == Count(Cbs(cb, k), a, b)
    decreases |cb.vals| - k
  {
    hide GoodCb, TreeOf, CbOf;
    if k < |cb.vals| {
      TusFollowCbs(cb, t, k + 1, a, b);
      if IsCb(cb, k) {
        var c := CbOf(cb, k);
        TreeTilesCb(t, c, a, b);
        CountOfSum(TreeOf(t, c), Tus(cb, t, k + 1), a, b);
        CountOfSum([c], Cbs(cb, k + 1), a, b);
        assert Count([c], a, b) == One(Contains(c.rect, a, b));
      } else {
        CountOfSum([], Tus(cb, t, k + 1), a, b);
        CountOfSum([], Cbs(cb, k + 1), a, b);
      }
    }
  }

  /** The part of the decoder that turns picture internals into statistics. */
  class DecoderLibde265 {
    const cb: CbInfo
    const tu: TuInfo
    var cbBlocks: seq<BlockValue>
    var tuBlocks: seq<BlockValue>

    constructor (cb: CbInfo, tu: TuInfo)
      ensures this.cb == cb && this.tu == tu && cbBlocks == tuBlocks == []
    {
      this.cb, this.tu := cb, tu;
      cbBlocks, tuBlocks := [], [];
    }

    method GetPBSubPosition(partMode: nat, cbSizePix: nat, pbIdx: nat)
      returns (pbX: nat, pbY: nat, pbW: nat, pbH: nat)
      requires partMode <= 7
      ensures Rect(pbX, pbY, pbW, pbH) == PbRect(partMode, cbSizePix, pbIdx)
    {
      pbX, pbY, pbW, pbH := 0, 0, cbSizePix, cbSizePix;
      if partMode == 1 {
        pbH := cbSizePix / 2;
        pbY := if pbIdx == 0 then 0 else cbSizePix / 2;
      } else if partMode == 2 {
        pbW := cbSizePix / 2;
        pbX := if pbIdx == 0 then 0 else cbSizePix / 2;
      } else if partMode == 3 {
        pbW := cbSizePix / 2;
        pbH := cbSizePix / 2;
        pbX := if pbIdx == 0 || pbIdx == 2 then 0 else cbSizePix / 2;
        pbY := if pbIdx == 0 || pbIdx == 1 then 0 else cbSizePix / 2;
      } else if partMode == 4 {
        pbH := if pbIdx == 0 then cbSizePix / 4 else cbSizePix / 4 * 3;
        pbY := if pbIdx == 0 then 0 else cbSizePix / 4;
      } else if partMode == 5 {
        pbH := if pbIdx == 0 then cbSizePix / 4 * 3 else cbSizePix / 4;
        pbY := if pbIdx == 0 then 0 else cbSizePix / 4 * 3;
      } else if partMode == 6 {
        pbW := if pbIdx == 0 then cbSizePix / 4 else cbSizePix / 4 * 3;
        pbX := if pbIdx == 0 then 0 else cbSizePix / 4;
      } else if partMode == 7 {
        pbW := if pbIdx == 0 then cbSizePix / 4 * 3 else cbSizePix / 4;
        pbX := if pbIdx == 0 then 0 else cbSizePix / 4 * 3;
      }
    }

    method CacheTUTree(tuIdx: nat, tuWidthUnits: nat, trDepth: nat)
      requires tu.Valid()
      modifies this`tuBlocks
      ensures tuBlocks == old(tuBlocks) + Leaves(tu, tuIdx, tuWidthUnits, trDepth)
      decreases if trDepth <= 8 then 8 - trDepth else 0
    {
      hide IsSplit, YOffset, LeafUnit, Leaves;
      if IsSplit(tu, tuIdx, trDepth) {
        SplitsUpTo8(tu, tuIdx, trDepth);
        ghost var before := tuBlocks;
        var half, yOffset, d := tuWidthUnits / 2, YOffset(tu, tuWidthUnits), trDepth + 1;
        ghost var p, q := Leaves(tu, tuIdx, half, d), Leaves(tu, tuIdx + half, half, d);
        ghost var r, s := Leaves(tu, tuIdx + yOffset, half, d), Leaves(tu, tuIdx + yOffset + half, half, d);
        LeavesOfSplit(tu, tuIdx, tuWidthUnits, trDepth);
        CacheTUTree(tuIdx, half, d);
        CacheTUTree(tuIdx + half, half, d);
        CacheTUTree(tuIdx + yOffset, half, d);
        CacheTUTree(tuIdx + yOffset + half, half, d);
        Regroup(before, p, q, r, s);
      } else {
        LeavesOfLeaf(tu, tuIdx, tuWidthUnits, trDepth);
        tuBlocks := tuBlocks + [LeafUnit(tu, tuIdx, tuWidthUnits, trDepth)];
      }
    }

    /** One step of the scan: the coding block that begins at (x, y), if there is one. */
    method AddCb(x: nat, y: nat)
      requires cb.Valid() && tu.Valid() && x < cb.width && y * cb.width + x < |cb.vals|
      modifies this
      ensures var k := y * cb.width + x;
        && cbBlocks == old(cbBlocks) + (if IsCb(cb, k) then [CbOf(cb, k)] else [])
        && tuBlocks == old(tuBlocks) + (if IsCb(cb, k) then TreeOf(tu, CbOf(cb, k)) else [])
    {
      hide Leaves, Pow2, TuIndex;
      DivModOf(y, x, cb.width);
      var val := cb.vals[y * cb.width + x];
      var log2CbSize, partMode := val % 8, val / 8 % 8;
      if log2CbSize > 0 {
        var cbSizePix, cbPosX, cbPosY := Pow2(log2CbSize), x * cb.unitSize, y * cb.unitSize;
        cbBlocks := cbBlocks + [Square(cbPosX, cbPosY, cbSizePix, partMode)];
        CacheTUTree(TuIndex(tu, cbPosX, cbPosY), cbSizePix / tu.unitSize, 0);
      }
    }

    /** The scan over all coding block units of the picture. */
    method CacheStatistics()
      requires cb.Valid() && tu.Valid()
      modifies this
      ensures cbBlocks == old(cbBlocks) + Cbs(cb, 0)
      ensures tuBlocks == old(tuBlocks) + Tus(cb, tu, 0)
    {
      hide TreeOf, CbOf, IsCb, Cbs, Tus;
      var y := 0;
      while y < cb.height
        invariant y * cb.width <= |cb.vals| && y <= cb.height
        invariant cbBlocks + Cbs(cb, y * cb.width) == old(cbBlocks) + Cbs(cb, 0)
        invariant tuBlocks + Tus(cb, tu, y * cb.width) == old(tuBlocks) + Tus(cb, tu, 0)
      {
        LineEnd(cb, y);
        var x := 0;
        while x < cb.width
          invariant x <= cb.width
          invariant cbBlocks + Cbs(cb, y * cb.width + x) == old(cbBlocks) + Cbs(cb, 0)
          invariant tuBlocks + Tus(cb, tu, y * cb.width + x) == old(tuBlocks) + Tus(cb, tu, 0)
        {
          ghost var k := y * cb.width + x;
          ghost var cbs, tus := cbBlocks, tuBlocks;
          AddCb(x, y);
          x := x + 1;
          assert y * cb.width + x == k + 1;
          ScanStep(cb, tu, k, cbs, tus);
        }
        y := y + 1;
      }
      ScanEnds(cb, tu, cbBlocks, tuBlocks);
    }
  }

  lemma ScanStep(cb: CbInfo, t: TuInfo, k: nat, cbs: seq<BlockValue>, tus: seq<BlockValue>)
    requires cb.Valid() && t.Valid() && k < |cb.vals|
    ensures cbs + Cbs(cb, k) == cbs + (if IsCb(cb, k) then [CbOf(cb, k)] else []) + Cbs(cb, k + 1)
    ensures tus + Tus(cb, t, k) == tus + (if IsCb(cb, k) then TreeOf(t, CbOf(cb, k)) else []) + Tus(cb, t, k + 1)
  {
    hide TreeOf, CbOf, IsCb;
  }

  lemma ScanEnds(cb: CbInfo, t: TuInfo, cbs: seq<BlockValue>, tus: seq<BlockValue>)
    requires cb.Valid() && t.Valid()
    ensures cb.height * cb.width == |cb.vals|
    ensures cbs + Cbs(cb, |cb.vals|) == cbs && tus + Tus(cb, t, |cb.vals|) == tus
  {
  }

  lemma LineEnd(cb: CbInfo, y: nat)
    requires cb.Valid() && y < cb.height
    ensures y * cb.width + cb.width == (y + 1) * cb.width <= |cb.vals|
  {
    Between(y + 1, cb.height, cb.width);
  }

  lemma LeavesOfSplit(t: TuInfo, idx: nat, w: nat, depth: nat)
    requires t.Valid() && IsSplit(t, idx, depth)
    ensures var y := YOffset(t, w);
      Leaves(t, idx, w, depth)
      == Leaves(t, idx, w / 2, depth + 1) + Leaves(t, idx + w / 2, w / 2, depth + 1)
       + Leaves(t, idx + y, w / 2, depth + 1) + Leaves(t, idx + y + w / 2, w / 2, depth + 1)
  {
    hide IsSplit, YOffset;
  }

  lemma LeavesOfLeaf(t: TuInfo, idx: nat, w: nat, depth: nat)
    requires t.Valid() && !IsSplit(t, idx, depth)
    ensures Leaves(t, idx, w, depth) == [LeafUnit(t, idx, w, depth)]
  {
  }
}
