/** The arrays of a picture written from its coding blocks and transform trees, and read back: the
    scan and the tree walk are the inverse. */
module De265Written {
  import opened Arithmetic
  import opened BlockStatistics
  import opened De265Trees
  import opened De265Blocks

  /** A coding block at unit (x, y), with the base two logarithm of its size, its part mode, and the
      bits behind that (prediction mode and flags). */
  datatype CodingBlock = CodingBlock(x: nat, y: nat, log2: nat, partMode: nat, flags: nat)

  predicate IsBlock(c: CodingBlock, width: nat, height: nat) {
    c.x < width && c.y < height && 1 <= c.log2 <= 7 && c.partMode < 8
  }

  function ScanPos(c: CodingBlock, width: nat): nat {
    c.y * width + c.x
  }

  /** Blocks of a picture, in scan order. */
  predicate AreBlocks(cs: seq<CodingBlock>, width: nat, height: nat) {
    && (forall i :: 0 <= i < |cs| ==> IsBlock(cs[i], width, height))
    && (forall i, j :: 0 <= i < j < |cs| ==> ScanPos(cs[i], width) < ScanPos(cs[j], width))
  }

  /** The value of the unit where a block begins: three bits each for size and part mode. */
  function Packed(c: CodingBlock): nat {
    c.log2 + 8 * c.partMode + 64 * c.flags
  }

  /** The values of the units from k up to n. Where no block begins the low three bits are zero. */
  function Array(cs: seq<CodingBlock>, width: nat, k: nat, n: nat, others: nat -> nat): (r: seq<nat>)
    requires k <= n
    ensures |r| == n - k
    decreases n - k
  {
    if k == n then []
    else if cs != [] && ScanPos(cs[0], width) == k then [Packed(cs[0])] + Array(cs[1..], width, k + 1, n, others)
    else [8 * others(k)] + Array(cs, width, k + 1, n, others)
  }

  /** What is recorded for the blocks. */
  function Recorded(cs: seq<CodingBlock>, unitSize: nat): (r: seq<BlockValue>)
    ensures |r| == |cs|
  {
    seq(|cs|, i requires 0 <= i < |cs| =>
      Square(cs[i].x * unitSize, cs[i].y * unitSize, Pow2(cs[i].log2), cs[i].partMode))
  }

  lemma UnpacksBlock(cb: CbInfo, k: nat, c: CodingBlock)
    requires cb.Valid() && k < |cb.vals| && cb.vals[k] == Packed(c) && IsBlock(c, cb.width, cb.height)
    requires k == ScanPos(c, cb.width)
    ensures IsCb(cb, k)
    ensures CbOf(cb, k) == Square(c.x * cb.unitSize, c.y * cb.unitSize, Pow2(c.log2), c.partMode)
  {
    hide Pow2, Packed;
    Digits(c.log2, c.partMode, c.flags);
    assert Packed(c) == c.log2 + 8 * c.partMode + 64 * c.flags by {
      PackedIs(c);
    }
    DivModOf(c.y, c.x, cb.width);
  }

  lemma PackedIs(c: CodingBlock)
    ensures Packed(c) == c.log2 + 8 * c.partMode + 64 * c.flags
  {
  }

  lemma Digits(log2: nat, partMode: nat, flags: nat)
    requires log2 < 8 && partMode < 8
    ensures var n := log2 + 8 * partMode + 64 * flags; n % 8 == log2 && n / 8 % 8 == partMode
  {
    assert (log2 + 8 * partMode + 64 * flags) / 8 == partMode + 8 * flags;
  }

  /** From unit k on, the scan returns the blocks that are still to come. */
  lemma {:induction false} ScanFrom(cb: CbInfo, cs: seq<CodingBlock>, k: nat, others: nat -> nat)
    requires cb.Valid() && k <= |cb.vals| && AreBlocks(cs, cb.width, cb.height)
    requires cb.vals[k..] == Array(cs, cb.width, k, |cb.vals|, others)
    requires cs != [] ==> k <= ScanPos(cs[0], cb.width)
    ensures Cbs(cb, k) == Recorded(cs, cb.unitSize)
    decreases |cb.vals| - k
  {
    hide CbOf, IsCb, Packed, ScanPos, Cbs, Array, Recorded, AreBlocks, IsBlock;
    ScanStep(cb, cs, k, others);
    if k == |cb.vals| {
      if cs != [] {
        InScan(cs, cb);
      }
    } else if cs != [] && ScanPos(cs[0], cb.width) == k {
      FirstBlock(cs, cb.width, cb.height);
      UnpacksBlock(cb, k, cs[0]);
      ScanFrom(cb, cs[1..], k + 1, others);
      RecordedStep(cs, cb.unitSize);
    } else {
      NoBlock(cb, k, others(k));
      ScanFrom(cb, cs, k + 1, others);
      assert [] + Cbs(cb, k + 1) == Cbs(cb, k + 1);
    }
  }

  /** One step of the scan and of the array. */
  lemma ScanStep(cb: CbInfo, cs: seq<CodingBlock>, k: nat, others: nat -> nat)
    requires cb.Valid() && k <= |cb.vals| && cb.vals[k..] == Array(cs, cb.width, k, |cb.vals|, others)
    ensures k == |cb.vals| ==> Cbs(cb, k) == []
    ensures k < |cb.vals| ==>
      var begins := cs != [] && ScanPos(cs[0], cb.width) == k;
      && Cbs(cb, k) == (if IsCb(cb, k) then [CbOf(cb, k)] else []) + Cbs(cb, k + 1)
      && cb.vals[k] == (if begins then Packed(cs[0]) else 8 * others(k))
      && cb.vals[k + 1..] == Array(if begins then cs[1..] else cs, cb.width, k + 1, |cb.vals|, others)
  {
    hide CbOf, IsCb, Packed, ScanPos;
    if k < |cb.vals| {
      assert cb.vals[k + 1..] == cb.vals[k..][1..] && cb.vals[k] == cb.vals[k..][0];
    }
  }

  lemma FirstBlock(cs: seq<CodingBlock>, width: nat, height: nat)
    requires cs != [] && AreBlocks(cs, width, height)
    ensures IsBlock(cs[0], width, height) && AreBlocks(cs[1..], width, height)
    ensures |cs| > 1 ==> ScanPos(cs[0], width) < ScanPos(cs[1], width)
  {
    hide IsBlock, ScanPos;
  }

  lemma RecordedStep(cs: seq<CodingBlock>, unitSize: nat)
    requires cs != []
    ensures var c := cs[0];
      Recorded(cs, unitSize)
      == [Square(c.x * unitSize, c.y * unitSize, Pow2(c.log2), c.partMode)] + Recorded(cs[1..], unitSize)
  {
    hide Pow2, Square;
  }

  lemma NoBlock(cb: CbInfo, k: nat, n: nat)
    requires k < |cb.vals| && cb.vals[k] == 8 * n
    ensures !IsCb(cb, k)
  {
  }

  lemma InScan(cs: seq<CodingBlock>, cb: CbInfo)
    requires cs != [] && cb.Valid() && AreBlocks(cs, cb.width, cb.height)
    ensures ScanPos(cs[0], cb.width) < |cb.vals|
  {
    var c := cs[0];
    Between(c.y + 1, cb.height, cb.width);
    assert (c.y + 1) * cb.width == c.y * cb.width + cb.width;
  }

  /** For every list of coding blocks of a picture: the array written from it is scanned to exactly
      these blocks, at their pixels, with their sizes and part modes, and nothing else. */
  lemma BlocksRoundTrip(width: nat, height: nat, unitSize: nat, cs: seq<CodingBlock>, others: nat -> nat)
    requires width > 0 && AreBlocks(cs, width, height)
    ensures var cb := CbInfo(width, height, unitSize, Array(cs, width, 0, width * height, others));
      cb.Valid() && Cbs(cb, 0) == Recorded(cs, unitSize)
  {
    var cb := CbInfo(width, height, unitSize, Array(cs, width, 0, width * height, others));
    assert cb.vals[0..] == cb.vals;
    ScanFrom(cb, cs, 0, others);
  }

  /** A transform tree. */
  datatype Tree = Leaf | Split(ul: Tree, ur: Tree, ll: Tree, lr: Tree)

  /** Only squares of an even number of units are split. */
  predicate Halves(tree: Tree, w: nat) {
    match tree
    case Leaf => true
    case Split(ul, ur, ll, lr) =>
      var h := w / 2;
      w % 2 == 0 && Halves(ul, h) && Halves(ur, h) && Halves(ll, h) && Halves(lr, h)
  }

  /** The child of a split square that the unit lies in, and where it begins. */
  function ChildAt(tree: Tree, x: nat, y: nat, w: nat, u: nat, v: nat): (r: (Tree, nat, nat))
    requires tree.Split?
    ensures r.0 == tree.ul || r.0 == tree.ur || r.0 == tree.ll || r.0 == tree.lr
  {
    var h := w / 2;
    if v < y + h then (if u < x + h then (tree.ul, x, y) else (tree.ur, x + h, y))
    else if u < x + h then (tree.ll, x, y + h) else (tree.lr, x + h, y + h)
  }

  /** The byte of unit (u, v) in the square of w units at (x, y): a bit for each depth at which a square
      that begins at the unit is split. */
  function Bits(tree: Tree, x: nat, y: nat, w: nat, depth: nat, u: nat, v: nat): nat
    decreases tree
  {
    if tree.Leaf? then 0
    else
      var (child, x', y') := ChildAt(tree, x, y, w, u, v);
      (if u == x && v == y then Pow2(depth) else 0) + Bits(child, x', y', w / 2, depth + 1, u, v)
  }

  /** The transform units of a tree, upper ones first, with their depths. */
  function Units(tree: Tree, x: nat, y: nat, w: nat, depth: nat, unitSize: nat): seq<BlockValue> {
    match tree
    case Leaf => [Square(x * unitSize, y * unitSize, w * unitSize, depth)]
    case Split(ul, ur, ll, lr) =>
      var h, d := w / 2, depth + 1;
      Units(ul, x, y, h, d, unitSize) + Units(ur, x + h, y, h, d, unitSize)
      + Units(ll, x, y + h, h, d, unitSize) + Units(lr, x + h, y + h, h, d, unitSize)
  }

  predicate InSquare(x: nat, y: nat, w: nat, u: nat, v: nat) {
    x <= u < x + w && y <= v < y + w
  }

  predicate Fits(t: TuInfo, bits: nat, depth: nat, u: nat, v: nat) {
    bits <= t.At(v * t.width + u) < bits + Pow2(depth)
  }

  /** The bytes of the square hold the bits of the tree, and below them bits of squares around it. */
  ghost predicate Stores(t: TuInfo, tree: Tree, x: nat, y: nat, w: nat, depth: nat) {
    forall u: nat, v: nat :: InSquare(x, y, w, u, v) ==> Fits(t, Bits(tree, x, y, w, depth, u, v), depth, u, v)
  }

  lemma PowStep(depth: nat)
    ensures Pow2(depth + 1) == 2 * Pow2(depth) && Pow2(depth) > 0
  {
  }

  /** The bits of a tree are those from its depth on. */
  lemma {:induction false} BitsAreHigh(tree: Tree, x: nat, y: nat, w: nat, depth: nat, u: nat, v: nat)
    ensures Bits(tree, x, y, w, depth, u, v) % Pow2(depth) == 0
    ensures Pow2(depth) > 0
    decreases tree
  {
    hide Pow2, ChildAt;
    PowStep(depth);
    if tree.Split? {
      var (child, x', y') := ChildAt(tree, x, y, w, u, v);
      BitsAreHigh(child, x', y', w / 2, depth + 1, u, v);
      DoubleMultiple(Bits(child, x', y', w / 2, depth + 1, u, v), Pow2(depth));
    } else {
      DoubleMultiple(0, Pow2(depth));
    }
  }

  lemma DoubleMultiple(b: nat, p: nat)
    requires p > 0 && b % (2 * p) == 0
    ensures b % p == 0 && (p + b) % p == 0 && 0 % p == 0
  {
    HalfOf(b, p);
  }

  /** A split shows at the first unit of its square, a leaf does not. */
  lemma RootBit(t: TuInfo, tree: Tree, x: nat, y: nat, w: nat, depth: nat)
    requires t.Valid() && w > 0 && Stores(t, tree, x, y, w, depth) && Halves(tree, w)
    ensures IsSplit(t, y * t.width + x, depth) <==> tree.Split?
  {
    hide Pow2, Bits, Stores, TuInfo.At;
    PowStep(depth);
    StoresRoot(t, tree, x, y, w, depth);
    var at, p := t.At(y * t.width + x), Pow2(depth);
    var bits := Bits(tree, x, y, w, depth, x, y);
    RootBits(tree, x, y, w, depth);
    var m := bits / p;
    var low := at - bits;
    assert bits == m * p by { BitsAreHigh(tree, x, y, w, depth, x, y); }
    DivModOf(m, low, p);
    assert at == m * p + low;
  }

  lemma StoresRoot(t: TuInfo, tree: Tree, x: nat, y: nat, w: nat, depth: nat)
    requires w > 0 && Stores(t, tree, x, y, w, depth)
    ensures Fits(t, Bits(tree, x, y, w, depth, x, y), depth, x, y)
  {
    assert InSquare(x, y, w, x, y);
  }

  lemma RootBits(tree: Tree, x: nat, y: nat, w: nat, depth: nat)
    requires w > 0 && Halves(tree, w)
    ensures Pow2(depth) > 0 && Bits(tree, x, y, w, depth, x, y) / Pow2(depth) % 2 == One(tree.Split?)
  {
    hide Pow2;
    PowStep(depth);
    if tree.Split? {
      var b, p := Bits(tree.ul, x, y, w / 2, depth + 1, x, y), Pow2(depth);
      BitsAreHigh(tree.ul, x, y, w / 2, depth + 1, x, y);
      OddQuotient(b, p);
      assert Bits(tree, x, y, w, depth, x, y) == p + b;
    } else {
      NoQuotient(0, Pow2(depth));
    }
  }

  lemma OddQuotient(b: nat, p: nat)
    requires p > 0 && b % (2 * p) == 0
    ensures (p + b) / p % 2 == 1
  {
    var k := b / (2 * p);
    assert b == k * (2 * p);
    assert p + b == (1 + 2 * k) * p + 0 by { assert (1 + 2 * k) * p == p + 2 * k * p; }
    DivModOf(1 + 2 * k, 0, p);
  }

  /** The squares of the children store them. */
  lemma ChildStores(t: TuInfo, tree: Tree, x: nat, y: nat, w: nat, depth: nat)
    requires tree.Split? && Stores(t, tree, x, y, w, depth) && w == 2 * (w / 2)
    ensures var h, d := w / 2, depth + 1;
      && Stores(t, tree.ul, x, y, h, d) && Stores(t, tree.ur, x + h, y, h, d)
      && Stores(t, tree.ll, x, y + h, h, d) && Stores(t, tree.lr, x + h, y + h, h, d)
  {
    hide Stores;
    var h := w / 2;
    QuarterStores(t, tree, x, y, w, depth, tree.ul, x, y);
    QuarterStores(t, tree, x, y, w, depth, tree.ur, x + h, y);
    QuarterStores(t, tree, x, y, w, depth, tree.ll, x, y + h);
    QuarterStores(t, tree, x, y, w, depth, tree.lr, x + h, y + h);
  }

  lemma QuarterStores(t: TuInfo, tree: Tree, x: nat, y: nat, w: nat, depth: nat, child: Tree, x': nat, y': nat)
    requires tree.Split? && Stores(t, tree, x, y, w, depth)
    requires forall u: nat, v: nat :: InSquare(x', y', w / 2, u, v) ==>
      InSquare(x, y, w, u, v) && ChildAt(tree, x, y, w, u, v) == (child, x', y')
    ensures Stores(t, child, x', y', w / 2, depth + 1)
  {
    hide Bits, Fits, InSquare, ChildAt;
    forall u: nat, v: nat | InSquare(x', y', w / 2, u, v)
      ensures Fits(t, Bits(child, x', y', w / 2, depth + 1, u, v), depth + 1, u, v)
    {
      ChildFits(t, tree, x, y, w, depth, u, v);
    }
  }

  lemma ChildFits(t: TuInfo, tree: Tree, x: nat, y: nat, w: nat, depth: nat, u: nat, v: nat)
    requires tree.Split? && Fits(t, Bits(tree, x, y, w, depth, u, v), depth, u, v)
    ensures var (child, x', y') := ChildAt(tree, x, y, w, u, v);
      Fits(t, Bits(child, x', y', w / 2, depth + 1, u, v), depth + 1, u, v)
  {
    hide Pow2, ChildAt;
    PowStep(depth);
  }

  /** The walk over the bytes of a square returns the tree that is stored there. */
  lemma {:induction false} TreeIsRead(t: TuInfo, tree: Tree, x: nat, y: nat, w: nat, depth: nat)
    requires t.Valid() && w > 0 && x + w <= t.width && Stores(t, tree, x, y, w, depth) && Halves(tree, w)
    ensures Leaves(t, y * t.width + x, w, depth) == Units(tree, x, y, w, depth, t.unitSize)
    decreases tree
  {
    hide Pow2, Bits, Leaves, IsSplit, Stores, Halves;
    var idx := y * t.width + x;
    RootBit(t, tree, x, y, w, depth);
    DivModOf(y, x, t.width);
    match tree
    case Leaf =>
      LeavesOfLeaf(t, idx, w, depth);
    case Split(ul, ur, ll, lr) =>
      var h, d := w / 2, depth + 1;
      LeavesOfSplit(t, idx, w, depth);
      SplitHalves(tree, w);
      ChildStores(t, tree, x, y, w, depth);
      assert idx + YOffset(t, w) == (y + h) * t.width + x by { Distribute(y, h, t.width); }
      TreeIsRead(t, ul, x, y, h, d);
      TreeIsRead(t, ur, x + h, y, h, d);
      TreeIsRead(t, ll, x, y + h, h, d);
      TreeIsRead(t, lr, x + h, y + h, h, d);
  }

  lemma SplitHalves(tree: Tree, w: nat)
    requires tree.Split? && Halves(tree, w) && w > 0
    ensures w == 2 * (w / 2) && w / 2 > 0
    ensures Halves(tree.ul, w / 2) && Halves(tree.ur, w / 2) && Halves(tree.ll, w / 2) && Halves(tree.lr, w / 2)
  {
  }

  /** The transform units below a list of coding blocks. */
  function Trees(t: TuInfo, bs: seq<BlockValue>): seq<BlockValue>
    requires t.Valid()
  {
    if bs == [] then [] else TreeOf(t, bs[0]) + Trees(t, bs[1..])
  }

  lemma {:induction false} TusOfCbs(cb: CbInfo, t: TuInfo, k: nat)
    requires cb.Valid() && t.Valid() && k <= |cb.vals|
    ensures Tus(cb, t, k) == Trees(t, Cbs(cb, k))
    decreases |cb.vals| - k
  {
    hide TreeOf, CbOf, IsCb;
    if k < |cb.vals| {
      TusOfCbs(cb, t, k + 1);
      if IsCb(cb, k) {
        assert Cbs(cb, k) == [CbOf(cb, k)] + Cbs(cb, k + 1);
        assert Cbs(cb, k)[1..] == Cbs(cb, k + 1);
      } else {
        assert Cbs(cb, k) == [] + Cbs(cb, k + 1) == Cbs(cb, k + 1);
        assert Tus(cb, t, k) == [] + Tus(cb, t, k + 1) == Tus(cb, t, k + 1);
      }
    }
  }

  function InUnits(n: nat, unitSize: nat): nat
    requires unitSize > 0
  {
    n / unitSize
  }

  /** A block of pixels in transform units, aligned and inside its line, with its tree stored there. */
  ghost predicate HoldsTree(t: TuInfo, c: CodingBlock, cbUnit: nat, tree: Tree)
    requires t.Valid()
  {
    var x, y, w := c.x * cbUnit, c.y * cbUnit, Pow2(c.log2);
    var u := t.unitSize;
    && x % u == 0 && y % u == 0 && w % u == 0 && w > 0 && InUnits(x, u) + InUnits(w, u) <= t.width
    && Halves(tree, InUnits(w, u)) && Stores(t, tree, InUnits(x, u), InUnits(y, u), InUnits(w, u), 0)
  }

  /** The units of the tree of a block. */
  function UnitsOf(t: TuInfo, c: CodingBlock, cbUnit: nat, tree: Tree): seq<BlockValue>
    requires t.Valid()
  {
    var u := t.unitSize;
    Units(tree, InUnits(c.x * cbUnit, u), InUnits(c.y * cbUnit, u), InUnits(Pow2(c.log2), u), 0, u)
  }

  /** The units of the trees, block by block. */
  function AllUnits(t: TuInfo, cs: seq<CodingBlock>, cbUnit: nat, trees: seq<Tree>): seq<BlockValue>
    requires t.Valid() && |cs| == |trees|
  {
    if cs == [] then [] else UnitsOf(t, cs[0], cbUnit, trees[0]) + AllUnits(t, cs[1..], cbUnit, trees[1..])
  }

  lemma BlockTreeIsRead(t: TuInfo, c: CodingBlock, cbUnit: nat, tree: Tree)
    requires t.Valid() && HoldsTree(t, c, cbUnit, tree)
    ensures TreeOf(t, Square(c.x * cbUnit, c.y * cbUnit, Pow2(c.log2), c.partMode)) == UnitsOf(t, c, cbUnit, tree)
  {
    hide Leaves, Units, Stores, Halves, Pow2;
    var u := t.unitSize;
    var w := InUnits(Pow2(c.log2), u);
    Aligned(Pow2(c.log2), u);
    assert w > 0;
    TreeIsRead(t, tree, InUnits(c.x * cbUnit, u), InUnits(c.y * cbUnit, u), w, 0);
  }

  lemma {:induction false} TreesAreRead(t: TuInfo, cs: seq<CodingBlock>, cbUnit: nat, trees: seq<Tree>)
    requires t.Valid() && |cs| == |trees| && forall i :: 0 <= i < |cs| ==> HoldsTree(t, cs[i], cbUnit, trees[i])
    ensures Trees(t, Recorded(cs, cbUnit)) == AllUnits(t, cs, cbUnit, trees)
    decreases |cs|
  {
    hide TreeOf, UnitsOf, Pow2, HoldsTree;
    if cs != [] {
      BlockTreeIsRead(t, cs[0], cbUnit, trees[0]);
      TreesAreRead(t, cs[1..], cbUnit, trees[1..]);
      assert Recorded(cs, cbUnit)[1..] == Recorded(cs[1..], cbUnit);
    }
  }

  /** And for every choice of transform trees stored in the blocks: the walk returns the units of all
      trees, block by block, at their pixels and with their depths. */
  lemma TreesRoundTrip(width: nat, height: nat, cbUnit: nat, cs: seq<CodingBlock>, others: nat -> nat,
                       t: TuInfo, trees: seq<Tree>)
    requires width > 0 && AreBlocks(cs, width, height) && t.Valid()
    requires |cs| == |trees| && forall i :: 0 <= i < |cs| ==> HoldsTree(t, cs[i], cbUnit, trees[i])
    ensures var cb := CbInfo(width, height, cbUnit, Array(cs, width, 0, width * height, others));
      cb.Valid() && Tus(cb, t, 0) == AllUnits(t, cs, cbUnit, trees)
  {
    hide TreeOf, HoldsTree, AllUnits, Cbs, Tus, Recorded;
    var cb := CbInfo(width, height, cbUnit, Array(cs, width, 0, width * height, others));
    BlocksRoundTrip(width, height, cbUnit, cs, others);
    TusOfCbs(cb, t, 0);
    TreesAreRead(t, cs, cbUnit, trees);
  }

  /** The prediction block of a coding block that the pixel (a, b) lies in, by the halves and quarters
      that the part mode cuts off. */
  function PbIndex(partMode: nat, size: nat, a: nat, b: nat): nat {
    var right, below := if 2 * a >= size then 1 else 0, if 2 * b >= size then 1 else 0;
    match partMode
    case 1 => below
    case 2 => right
    case 3 => right + 2 * below
    case 4 => if 4 * b >= size then 1 else 0
    case 5 => if 4 * b >= 3 * size then 1 else 0
    case 6 => if 4 * a >= size then 1 else 0
    case 7 => if 4 * a >= 3 * size then 1 else 0
    case _ => 0
  }

  /** For every part mode and size that it divides: each pixel lies in the prediction block that the
      mode says, and in no other. */
  lemma PbOfPixel(partMode: nat, size: nat, i: nat, a: nat, b: nat)
    requires partMode <= 7 && Divides(partMode, size) && i < NumPB(partMode) && a < size && b < size
    ensures Contains(PbRect(partMode, size, i), a, b) <==> i == PbIndex(partMode, size, a, b)
  {
  }
}
