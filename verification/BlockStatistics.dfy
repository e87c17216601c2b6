/** Statistics of a picture: values recorded for rectangles of pixels, and how often they cover a pixel. */
module BlockStatistics {

  datatype Rect = Rect(x: nat, y: nat, w: nat, h: nat)

  /** What addBlockValue records. */
  datatype BlockValue = BlockValue(rect: Rect, value: nat)

  predicate Contains(r: Rect, px: nat, py: nat) {
    r.x <= px < r.x + r.w && r.y <= py < r.y + r.h
  }

  function One(b: bool): nat {
    if b then 1 else 0
  }

  /** How many of the rectangles cover the pixel. */
  function Count(bs: seq<BlockValue>, px: nat, py: nat): nat {
    if bs == [] then 0 else One(Contains(bs[0].rect, px, py)) + Count(bs[1..], px, py)
  }

  lemma {:induction false} CountOfSum(a: seq<BlockValue>, b: seq<BlockValue>, px: nat, py: nat)
    ensures Count(a + b, px, py) == Count(a, px, py) + Count(b, px, py)
    decreases |a|
  {
    if a == [] {
      assert a + b == b;
    } else {
      assert (a + b)[1..] == a[1..] + b;
      CountOfSum(a[1..], b, px, py);
    }
  }

  lemma CountOfOne(b: BlockValue, px: nat, py: nat)
    ensures Count([b], px, py) == One(Contains(b.rect, px, py)) && Count([], px, py) == 0
  {
    assert [b][1..] == [];
  }

  /** Appending one after another is appending all at once. */
  lemma Regroup(z: seq<BlockValue>, a: seq<BlockValue>, b: seq<BlockValue>, c: seq<BlockValue>, d: seq<BlockValue>)
    ensures z + a + b + c + d == z + (a + b + c + d)
    ensures z + a + b + c == z + (a + b + c)
    ensures z + a + b == z + (a + b)
  {
  }
}
