/** The coding blocks libde265 reports for a picture, and the transform trees and prediction blocks
    inside them (sections 7.3.8.8, 7.4.9.5 and 7.4.9.10 of ITU-T H.265). */
module De265Trees {
  import opened Arithmetic
  import opened BlockStatistics

  /** The transform unit array of a picture: units per line, pixels per unit, one byte per unit whose
      bits say at which depths the tree splits, and what a read behind the array yields. */
  datatype TuInfo = TuInfo(width: nat, unitSize: nat, bits: seq<nat>, beyond: nat) {
    predicate Valid() {
      width > 0 && unitSize > 0 && beyond < 256 && forall k :: 0 <= k < |bits| ==> bits[k] < 256
    }

    function At(idx: nat): nat {
      if idx < |bits| then bits[idx] else beyond
    }
  }

  /** A square block of pixels with its value. */
  function Square(x: nat, y: nat, size: nat, value: nat): BlockValue {
    BlockValue(Rect(x, y, size, size), value)
  }

  function Pow2(k: nat): (p: nat)
    ensures k <= 8 ==> p == [1, 2, 4, 8, 16, 32, 64, 128, 256][k]
    ensures k > 8 ==> p > 256
  {
    if k == 0 then 1 else 2 * Pow2(k - 1)
  }

  lemma PowIsLarge(k: nat)
    requires k >= 8
    ensures Pow2(k) >= 256
  {
  }

  lemma NoQuotient(n: nat, p: nat)
    requires n < p
    ensures n / p == 0
  {
  }

  predicate IsSplit(t: TuInfo, idx: nat, depth: nat) {
    t.At(idx) / Pow2(depth) % 2 == 1
  }

  lemma SplitsUpTo8(t: TuInfo, idx: nat, depth: nat)
    requires t.Valid() && IsSplit(t, idx, depth)
    ensures depth < 8
  {
    hide Pow2;
    if depth >= 8 {
      PowIsLarge(depth);
      NoQuotient(t.At(idx), Pow2(depth));
    }
  }

  /** The index distance between the upper and the lower children of a node of width w. */
  function YOffset(t: TuInfo, w: nat): nat {
    w / 2 * t.width
  }

  /** cacheStatistics_TUTree_recursive: the units below the node at the linear index idx. */
  function Leaves(t: TuInfo, idx: nat, w: nat, depth: nat): seq<BlockValue>
    requires t.Valid()
    decreases if depth <= 8 then 8 - depth else 0
  {
    if IsSplit(t, idx, depth) then
      SplitsUpTo8(t, idx, depth);
      var yOffset := YOffset(t, w);
      Leaves(t, idx, w / 2, depth + 1) + Leaves(t, idx + w / 2, w / 2, depth + 1)
      + Leaves(t, idx + yOffset, w / 2, depth + 1) + Leaves(t, idx + yOffset + w / 2, w / 2, depth + 1)
    else
      [LeafUnit(t, idx, w, depth)]
  }

  /** A node that is not split further, in pixels. */
  function LeafUnit(t: TuInfo, idx: nat, w: nat, depth: nat): BlockValue
    requires t.Valid()
  {
    Square(idx % t.width * t.unitSize, idx / t.width * t.unitSize, w * t.unitSize, depth)
  }

  /** The pixel lies in the square of w units at unit position (x, y). */
  predicate InUnits(t: TuInfo, x: nat, y: nat, w: nat, a: nat, b: nat) {
    x * t.unitSize <= a < (x + w) * t.unitSize && y * t.unitSize <= b < (y + w) * t.unitSize
  }

  predicate InNode(t: TuInfo, idx: nat, w: nat, a: nat, b: nat)
    requires t.width > 0
  {
    InUnits(t, idx % t.width, idx / t.width, w, a, b)
  }

  /** Nodes are only split where their width is even. */
  predicate GoodTree(t: TuInfo, idx: nat, w: nat, depth: nat)
    requires t.Valid()
    decreases if depth <= 8 then 8 - depth else 0
  {
    if IsSplit(t, idx, depth) then
      SplitsUpTo8(t, idx, depth);
      var yOffset := YOffset(t, w);
      && w % 2 == 0
      && GoodTree(t, idx, w / 2, depth + 1) && GoodTree(t, idx + w / 2, w / 2, depth + 1)
      && GoodTree(t, idx + yOffset, w / 2, depth + 1) && GoodTree(t, idx + yOffset + w / 2, w / 2, depth + 1)
    else true
  }

  /** The node lies within its line of the array. */
  predicate FitsLine(t: TuInfo, idx: nat, w: nat)
    requires t.width > 0
  {
    idx % t.width + w <= t.width
  }

  lemma DivModStep(idx: nat, width: nat, dx: nat, dy: nat)
    requires width > 0 && idx % width + dx < width
    ensures (idx + dy * width + dx) % width == idx % width + dx
    ensures (idx + dy * width + dx) / width == idx / width + dy
  {
    var q, r := idx / width, idx % width;
    assert idx + dy * width + dx == (q + dy) * width + (r + dx) by {
      assert (q + dy) * width == q * width + dy * width;
    }
    DivModOf(q + dy, r + dx, width);
  }

  /** The four children of a node lie where the quadrants of its square are, and fit their lines. */
  lemma ChildrenAreQuadrants(t: TuInfo, idx: nat, w: nat)
    requires t.width > 0 && FitsLine(t, idx, w)
    ensures var h, yOffset := w / 2, YOffset(t, w);
      var x, y := idx % t.width, idx / t.width;
      && FitsLine(t, idx, h) && FitsLine(t, idx + h, h)
      && FitsLine(t, idx + yOffset, h) && FitsLine(t, idx + yOffset + h, h)
      && (idx + h) % t.width == x + h && (idx + h) / t.width == y
      && (idx + yOffset) % t.width == x && (idx + yOffset) / t.width == y + h
      && (idx + yOffset + h) % t.width == x + h && (idx + yOffset + h) / t.width == y + h
  {
    DivModStep(idx, t.width, w / 2, 0);
    DivModStep(idx, t.width, 0, w / 2);
    DivModStep(idx, t.width, w / 2, w / 2);
  }

  lemma CountSplit(t: TuInfo, idx: nat, w: nat, depth: nat, a: nat, b: nat)
    requires t.Valid() && IsSplit(t, idx, depth)
    ensures var h, yOffset := w / 2, YOffset(t, w);
      Count(Leaves(t, idx, w, depth), a, b) ==
      Count(Leaves(t, idx, h, depth + 1), a, b) + Count(Leaves(t, idx + h, h, depth + 1), a, b)
      + Count(Leaves(t, idx + yOffset, h, depth + 1), a, b)
      + Count(Leaves(t, idx + yOffset + h, h, depth + 1), a, b)
  {
    SplitsUpTo8(t, idx, depth);
    var h, yOffset, d := w / 2, YOffset(t, w), depth + 1;
    var p, q := Leaves(t, idx, h, d), Leaves(t, idx + h, h, d);
    var r, s := Leaves(t, idx + yOffset, h, d), Leaves(t, idx + yOffset + h, h, d);
    assert Leaves(t, idx, w, depth) == p + q + r + s;
    CountOfSum(p + q + r, s, a, b);
    CountOfSum(p + q, r, a, b);
    CountOfSum(p, q, a, b);
  }

  /** A leaf is the square of its node. */
  lemma CountLeaf(t: TuInfo, idx: nat, w: nat, depth: nat, a: nat, b: nat)
    requires t.Valid() && !IsSplit(t, idx, depth)
    ensures Count(Leaves(t, idx, w, depth), a, b) == One(InNode(t, idx, w, a, b))
  {
    hide Count, IsSplit;
    var x, y, u := idx % t.width, idx / t.width, t.unitSize;
    assert x * u + w * u == (x + w) * u && y * u + w * u == (y + w) * u;
    CountOfOne(Square(x * u, y * u, w * u, depth), a, b);
  }

  /** Quadrants of a square are disjoint, and with an even width nothing of it is left over. */
  lemma Quadrants(t: TuInfo, x: nat, y: nat, w: nat, a: nat, b: nat)
    ensures var h := w / 2;
      var n := One(InUnits(t, x, y, h, a, b)) + One(InUnits(t, x + h, y, h, a, b))
             + One(InUnits(t, x, y + h, h, a, b)) + One(InUnits(t, x + h, y + h, h, a, b));
      && n <= One(InUnits(t, x, y, w, a, b))
      && (w % 2 == 0 ==> n == One(InUnits(t, x, y, w, a, b)))
  {
    var h, u := w / 2, t.unitSize;
    Between(x, x + h, u);
    Between(x + h, x + h + h, u);
    Between(x + h + h, x + w, u);
    Between(y, y + h, u);
    Between(y + h, y + h + h, u);
    Between(y + h + h, y + w, u);
  }

  /** How often the four children of a node hold the pixel. */
  function InChildren(t: TuInfo, idx: nat, w: nat, a: nat, b: nat): nat
    requires t.width > 0
  {
    var h, yOffset := w / 2, YOffset(t, w);
    One(InNode(t, idx, h, a, b)) + One(InNode(t, idx + h, h, a, b))
    + One(InNode(t, idx + yOffset, h, a, b)) + One(InNode(t, idx + yOffset + h, h, a, b))
  }

  lemma NodeQuadrants(t: TuInfo, idx: nat, w: nat, a: nat, b: nat)
    requires t.width > 0 && FitsLine(t, idx, w)
    ensures InChildren(t, idx, w, a, b) <= One(InNode(t, idx, w, a, b))
    ensures w % 2 == 0 ==> InChildren(t, idx, w, a, b) == One(InNode(t, idx, w, a, b))
  {
    hide InUnits, FitsLine, YOffset, One;
    ChildrenAreQuadrants(t, idx, w);
    Quadrants(t, idx % t.width, idx / t.width, w, a, b);
  }

  lemma ChildrenFit(t: TuInfo, idx: nat, w: nat)
    requires t.width > 0 && FitsLine(t, idx, w)
    ensures var h, yOffset := w / 2, YOffset(t, w);
      && FitsLine(t, idx, h) && FitsLine(t, idx + h, h)
      && FitsLine(t, idx + yOffset, h) && FitsLine(t, idx + yOffset + h, h)
  {
    hide FitsLine, YOffset;
    ChildrenAreQuadrants(t, idx, w);
  }

  /** No unit of a tree leaves the square of its root. */
  lemma {:induction false} StaysInNode(t: TuInfo, idx: nat, w: nat, depth: nat, a: nat, b: nat)
    requires t.Valid() && FitsLine(t, idx, w)
    ensures Count(Leaves(t, idx, w, depth), a, b) <= One(InNode(t, idx, w, a, b))
    ensures GoodTree(t, idx, w, depth) ==>
      Count(Leaves(t, idx, w, depth), a, b) == One(InNode(t, idx, w, a, b))
    decreases if depth <= 8 then 8 - depth else 0
  {
    hide Leaves, Count, IsSplit, InNode, FitsLine, YOffset, One;
    if IsSplit(t, idx, depth) {
      SplitsUpTo8(t, idx, depth);
      var h, yOffset, d := w / 2, YOffset(t, w), depth + 1;
      ChildrenFit(t, idx, w);
      CountSplit(t, idx, w, depth, a, b);
      StaysInNode(t, idx, h, d, a, b);
      StaysInNode(t, idx + h, h, d, a, b);
      StaysInNode(t, idx + yOffset, h, d, a, b);
      StaysInNode(t, idx + yOffset + h, h, d, a, b);
      NodeQuadrants(t, idx, w, a, b);
    } else {
      CountLeaf(t, idx, w, depth, a, b);
    }
  }

  /** Every pixel of the node is covered exactly once. */
  ghost predicate CoversNode(t: TuInfo, idx: nat, w: nat, depth: nat)
    requires t.Valid()
  {
    forall a: nat, b: nat :: InNode(t, idx, w, a, b) ==> Count(Leaves(t, idx, w, depth), a, b) == 1
  }

  lemma ChildCovers(t: TuInfo, idx: nat, w: nat, depth: nat, child: nat)
    requires t.Valid() && FitsLine(t, idx, w) && IsSplit(t, idx, depth) && w % 2 == 0
    requires CoversNode(t, idx, w, depth)
    requires child in {idx, idx + w / 2, idx + YOffset(t, w), idx + YOffset(t, w) + w / 2}
    ensures CoversNode(t, child, w / 2, depth + 1) && FitsLine(t, child, w / 2)
  {
    hide Leaves, Count, InNode, FitsLine, CoversNode, IsSplit, YOffset;
    ChildrenFit(t, idx, w);
    forall a: nat, b: nat | InNode(t, child, w / 2, a, b)
      ensures Count(Leaves(t, child, w / 2, depth + 1), a, b) == 1
    {
      ChildPixel(t, idx, w, depth, child, a, b);
    }
    CoversNodeIf(t, child, w / 2, depth + 1);
  }

  /** A pixel of a child can only be covered by that child. */
  lemma ChildPixel(t: TuInfo, idx: nat, w: nat, depth: nat, child: nat, a: nat, b: nat)
    requires t.Valid() && FitsLine(t, idx, w) && IsSplit(t, idx, depth) && w % 2 == 0
    requires CoversNode(t, idx, w, depth) && InNode(t, child, w / 2, a, b)
    requires child in {idx, idx + w / 2, idx + YOffset(t, w), idx + YOffset(t, w) + w / 2}
    ensures Count(Leaves(t, child, w / 2, depth + 1), a, b) == 1
  {
    hide Leaves, Count, InNode, FitsLine, CoversNode, IsSplit, YOffset;
    var h, yOffset, d := w / 2, YOffset(t, w), depth + 1;
    ChildrenFit(t, idx, w);
    StaysInNode(t, idx, h, d, a, b);
    StaysInNode(t, idx + h, h, d, a, b);
    StaysInNode(t, idx + yOffset, h, d, a, b);
    StaysInNode(t, idx + yOffset + h, h, d, a, b);
    NodeQuadrants(t, idx, w, a, b);
    CountSplit(t, idx, w, depth, a, b);
    PixelOfNode(t, idx, w, depth, a, b);
  }

  lemma PixelOfNode(t: TuInfo, idx: nat, w: nat, depth: nat, a: nat, b: nat)
    requires t.Valid() && CoversNode(t, idx, w, depth)
    ensures InNode(t, idx, w, a, b) ==> Count(Leaves(t, idx, w, depth), a, b) == 1
  {
  }

  lemma CoversNodeIf(t: TuInfo, idx: nat, w: nat, depth: nat)
    requires t.Valid()
    requires forall a: nat, b: nat :: InNode(t, idx, w, a, b) ==> Count(Leaves(t, idx, w, depth), a, b) == 1
    ensures CoversNode(t, idx, w, depth)
  {
  }

  /** The upper right pixel of an odd square lies in none of its quadrants. */
  lemma LastColumn(t: TuInfo, x: nat, y: nat, w: nat)
    requires t.unitSize > 0 && w % 2 == 1
    ensures var h, a, b := w / 2, (x + w / 2 + w / 2) * t.unitSize, y * t.unitSize;
      && InUnits(t, x, y, w, a, b)
      && !InUnits(t, x, y, h, a, b) && !InUnits(t, x + h, y, h, a, b)
      && !InUnits(t, x, y + h, h, a, b) && !InUnits(t, x + h, y + h, h, a, b)
  {
    var h, u := w / 2, t.unitSize;
    assert (x + w) * u == (x + h + h) * u + u && (y + w) * u == y * u + w * u && w * u >= u;
    Between(x, x + h + h, u);
    Between(x + h, x + h + h, u);
  }

  /** A node of odd width that is split leaves its last column to nobody. */
  lemma OddSplitMisses(t: TuInfo, idx: nat, w: nat, depth: nat)
    requires t.Valid() && FitsLine(t, idx, w) && IsSplit(t, idx, depth) && w % 2 == 1
    ensures !CoversNode(t, idx, w, depth)
  {
    hide Leaves, Count, FitsLine, CoversNode, IsSplit, InUnits;
    var h, yOffset, d := w / 2, YOffset(t, w), depth + 1;
    var x, y, u := idx % t.width, idx / t.width, t.unitSize;
    var a, b := (x + h + h) * u, y * u;
    LastColumn(t, x, y, w);
    ChildrenAreQuadrants(t, idx, w);
    StaysInNode(t, idx, h, d, a, b);
    StaysInNode(t, idx + h, h, d, a, b);
    StaysInNode(t, idx + yOffset, h, d, a, b);
    StaysInNode(t, idx + yOffset + h, h, d, a, b);
    CountSplit(t, idx, w, depth, a, b);
    if CoversNode(t, idx, w, depth) {
      PixelOfNode(t, idx, w, depth, a, b);
    }
  }

  /** The units of a transform tree tile its coding block exactly, pixel by pixel, if and only if no
      node of odd width is split. */
  lemma {:induction false} TilesIffGood(t: TuInfo, idx: nat, w: nat, depth: nat)
    requires t.Valid() && FitsLine(t, idx, w)
    ensures CoversNode(t, idx, w, depth) <==> GoodTree(t, idx, w, depth)
    decreases if depth <= 8 then 8 - depth else 0
  {
    hide Leaves, Count, FitsLine, CoversNode, IsSplit, InNode;
    if GoodTree(t, idx, w, depth) {
      forall a: nat, b: nat | InNode(t, idx, w, a, b)
        ensures Count(Leaves(t, idx, w, depth), a, b) == 1
      {
        StaysInNode(t, idx, w, depth, a, b);
      }
      CoversNodeIf(t, idx, w, depth);
    } else {
      SplitsUpTo8(t, idx, depth);
      if w % 2 == 1 {
        OddSplitMisses(t, idx, w, depth);
      } else if CoversNode(t, idx, w, depth) {
        var h, yOffset, d := w / 2, YOffset(t, w), depth + 1;
        ChildCovers(t, idx, w, depth, idx);
        ChildCovers(t, idx, w, depth, idx + h);
        ChildCovers(t, idx, w, depth, idx + yOffset);
        ChildCovers(t, idx, w, depth, idx + yOffset + h);
        TilesIffGood(t, idx, h, d);
        TilesIffGood(t, idx + h, h, d);
        TilesIffGood(t, idx + yOffset, h, d);
        TilesIffGood(t, idx + yOffset + h, h, d);
      }
    }
  }
}
