/** The byte stream format of section B.2 of ITU-T H.265: what a whole file is split into.

    A unit starts at a start code 00 00 01, or one byte earlier when the byte before the code
    is zero (the four-byte form), and runs up to the start of the next unit. */
module ByteStream {

  newtype Byte = x: int | 0 <= x < 256

  /** The three-byte start code stands at offset i. */
  predicate CodeAt(f: seq<Byte>, i: int) {
    0 <= i && i + 3 <= |f| && f[i] == 0 && f[i + 1] == 0 && f[i + 2] == 1
  }

  lemma EndsInFile(f: seq<Byte>, i: nat)
    requires CodeAt(f, i)
    ensures i + 3 <= |f|
  {
  }

  /** The first start code at or after `from`, or |f| if there is none. */
  function NextCode(f: seq<Byte>, from: nat): (r: nat)
    ensures r == |f| || (from <= r && CodeAt(f, r))
    ensures forall i :: from <= i < r ==> !CodeAt(f, i)
    decreases |f| - from
  {
    if from + 3 > |f| then |f|
    else if CodeAt(f, from) then from
    else NextCode(f, from + 1)
  }

  /** A code found at r with none before it is the one NextCode returns. */
  lemma NextCodeIs(f: seq<Byte>, from: nat, r: nat)
    requires from <= r && CodeAt(f, r)
    requires forall i :: from <= i < r ==> !CodeAt(f, i)
    ensures NextCode(f, from) == r
  {
  }

  lemma NextCodeIsNone(f: seq<Byte>, from: nat)
    requires forall i :: from <= i && i + 3 <= |f| ==> !CodeAt(f, i)
    ensures NextCode(f, from) == |f|
  {
  }

  /** Where the unit that owns the code at i starts. */
  function UnitStart(f: seq<Byte>, i: nat): nat
    requires CodeAt(f, i)
  {
    if i > 0 && f[i - 1] == 0 then i - 1 else i
  }

  /** q is the first byte of a unit. */
  predicate IsStart(f: seq<Byte>, q: int) {
    || (CodeAt(f, q) && !(q > 0 && f[q - 1] == 0))
    || (0 <= q < |f| && f[q] == 0 && CodeAt(f, q + 1))
  }

  /** The start of the unit after the one at q, or the end of the file. */
  function NextStart(f: seq<Byte>, q: nat): (r: nat)
    ensures q < |f| ==> q < r <= |f|
    ensures r < |f| ==> IsStart(f, r)
  {
    var i := NextCode(f, q + 3);
    if i == |f| then |f| else UnitStart(f, i)
  }

  /** The whole-file split from q on. */
  function Units(f: seq<Byte>, q: nat): seq<seq<Byte>>
    requires q <= |f|
    decreases |f| - q
  {
    if q == |f| then [] else [f[q..NextStart(f, q)]] + Units(f, NextStart(f, q))
  }

  function Concat(us: seq<seq<Byte>>): seq<Byte> {
    if us == [] then [] else us[0] + Concat(us[1..])
  }

  /** An independent description of the split: the pieces add up to the file, every piece begins
      with a start code and holds no other, and a zero before a three-byte code belongs to the
      piece of that code. */
  predicate IsSplit(f: seq<Byte>, q: nat, us: seq<seq<Byte>>)
    requires q <= |f|
  {
    && Concat(us) == f[q..]
    && (forall k :: 0 <= k < |us| ==> OneUnit(us[k]))
    && (forall k :: 0 < k < |us| && CodeAt(us[k], 0) ==> us[k - 1][|us[k - 1]| - 1] != 0)
  }

  /** It begins with a start code, of three or of four bytes. */
  predicate Begins(u: seq<Byte>) {
    |u| >= 3 && (CodeAt(u, 0) || (u[0] == 0 && CodeAt(u, 1)))
  }

  predicate OneUnit(u: seq<Byte>) {
    Begins(u) && forall j :: 2 <= j < |u| ==> !CodeAt(u, j)
  }

  lemma NextStartFarther(f: seq<Byte>, q: nat)
    requires IsStart(f, q)
    ensures q + 3 <= NextStart(f, q)
    ensures CodeAt(f, q + 1) ==> q + 4 <= NextStart(f, q)
  {
    var i := NextCode(f, q + 3);
    if i < |f| {
      assert CodeAt(f, i);
      if CodeAt(f, q + 1) {
        assert i != q + 3;
      }
    }
  }

  /** Every unit of the split is a well-formed unit. */
  lemma UnitIsOne(f: seq<Byte>, q: nat)
    requires IsStart(f, q)
    ensures OneUnit(f[q..NextStart(f, q)])
  {
    NextStartFarther(f, q);
    var e := NextStart(f, q);
    var u := f[q..e];
    if CodeAt(f, q) {
      assert CodeAt(u, 0);
    } else {
      assert CodeAt(u, 1);
    }
    forall j | 2 <= j < |u|
      ensures !CodeAt(u, j)
    {
      if CodeAt(u, j) {
        assert CodeAt(f, q + j);
      }
    }
  }

  /** The split meets its description, for every file and every unit start. */
  lemma {:induction false} UnitsAreSplit(f: seq<Byte>, q: nat)
    requires q == |f| || IsStart(f, q)
    ensures q <= |f| && IsSplit(f, q, Units(f, q))
    ensures q < |f| ==> Units(f, q) != [] && Units(f, q)[0] == f[q..NextStart(f, q)]
    decreases |f| - q
  {
    hide IsSplit, NextStart, OneUnit;
    if q < |f| {
      var e := NextStart(f, q);
      UnitsAreSplit(f, e);
      UnitIsOne(f, q);
      if e < |f| {
        ZeroGoesBefore(f, q);
      }
      SplitGrows(f, q, e, Units(f, e));
    } else {
      NoUnits(f);
    }
  }

  lemma NoUnits(f: seq<Byte>)
    ensures IsSplit(f, |f|, [])
  {
  }

  lemma ZeroGoesBefore(f: seq<Byte>, q: nat)
    requires q < |f| && NextStart(f, q) < |f|
    ensures q < NextStart(f, q) && (CodeAt(f, NextStart(f, q)) ==> f[NextStart(f, q) - 1] != 0)
  {
  }

  /** A unit in front of a split makes a longer one. */
  lemma SplitGrows(f: seq<Byte>, q: nat, e: nat, rest: seq<seq<Byte>>)
    requires q < e <= |f| && IsSplit(f, e, rest) && OneUnit(f[q..e])
    requires e < |f| && CodeAt(f, e) ==> f[e - 1] != 0
    ensures IsSplit(f, q, [f[q..e]] + rest)
  {
    hide CodeAt;
    var us := [f[q..e]] + rest;
    assert us[1..] == rest && f[q..e] + f[e..] == f[q..];
    forall k | 0 < k < |us| && CodeAt(us[k], 0)
      ensures us[k - 1][|us[k - 1]| - 1] != 0
    {
      if k == 1 {
        FirstPiece(f, e, rest);
        CodeInPiece(f, e, rest[0]);
      } else {
        assert us[k] == rest[k - 1] && us[k - 1] == rest[k - 2];
      }
    }
  }

  lemma CodeInPiece(f: seq<Byte>, e: nat, u: seq<Byte>)
    requires e + |u| <= |f| && u == f[e..e + |u|] && CodeAt(u, 0)
    ensures CodeAt(f, e) && e < |f|
  {
  }

  /** The first piece of a concatenation, seen in the file. */
  lemma FirstPiece(f: seq<Byte>, q: nat, us: seq<seq<Byte>>)
    requires q <= |f| && Concat(us) == f[q..] && us != []
    ensures q + |us[0]| <= |f|
    ensures us[0] == f[q..q + |us[0]|]
    ensures Concat(us[1..]) == f[q + |us[0]|..]
  {
    var u, rest := us[0], Concat(us[1..]);
    assert f[q..] == u + rest;
    assert f[q..q + |u|] == f[q..][..|u|] == u;
    assert f[q + |u|..] == f[q..][|u|..] == rest;
  }

  lemma RestIsSplit(f: seq<Byte>, q: nat, us: seq<seq<Byte>>)
    requires q <= |f| && IsSplit(f, q, us) && us != []
    ensures q + 3 <= q + |us[0]| <= |f| && us[0] == f[q..q + |us[0]|]
    ensures IsSplit(f, q + |us[0]|, us[1..])
  {
    hide CodeAt;
    assert OneUnit(us[0]);
    FirstPiece(f, q, us);
    assert forall k :: 0 <= k < |us[1..]| ==> us[1..][k] == us[k + 1];
  }

  /** Nothing else meets the description: the split is unique. */
  lemma {:induction false} SplitIsUnique(f: seq<Byte>, q: nat, us: seq<seq<Byte>>)
    requires q <= |f| && IsSplit(f, q, us)
    ensures us == Units(f, q)
    decreases |us|
  {
    hide IsSplit, NextStart, CodeAt, OneUnit;
    if us == [] {
      NothingToSplit(f, q);
    } else {
      RestIsSplit(f, q, us);
      FirstCutIsNextStart(f, q, us);
      SplitIsUnique(f, q + |us[0]|, us[1..]);
      assert us == [us[0]] + us[1..];
    }
  }

  lemma NothingToSplit(f: seq<Byte>, q: nat)
    requires q <= |f| && IsSplit(f, q, [])
    ensures q == |f|
  {
    assert f[q..] == [];
  }

  lemma FirstCutIsNextStart(f: seq<Byte>, q: nat, us: seq<seq<Byte>>)
    requires q <= |f| && IsSplit(f, q, us) && us != []
    ensures NextStart(f, q) == q + |us[0]|
  {
    FirstPiece(f, q, us);
    var u, e := us[0], q + |us[0]|;
    assert OneUnit(u);
    NoCodeInside(f, q, u);
    if |us| == 1 {
      assert e == |f|;
      NextCodeIsNone(f, q + 3);
    } else {
      FirstPiece(f, e, us[1..]);
      assert us[1..][0] == us[1] && OneUnit(us[1]);
      CutBefore(f, q, e, us[1]);
    }
  }

  lemma NoCodeInside(f: seq<Byte>, q: nat, u: seq<Byte>)
    requires OneUnit(u) && q + |u| <= |f| && u == f[q..q + |u|]
    ensures forall i :: q + 3 <= i && i + 3 <= q + |u| ==> !CodeAt(f, i)
  {
    forall i | q + 3 <= i && i + 3 <= q + |u|
      ensures !CodeAt(f, i)
    {
      assert !CodeAt(u, i - q);
    }
  }

  lemma CutBefore(f: seq<Byte>, q: nat, e: nat, u: seq<Byte>)
    requires q + 3 <= e && e + |u| <= |f| && OneUnit(u) && u == f[e..e + |u|]
    requires forall i :: q + 3 <= i && i + 3 <= e ==> !CodeAt(f, i)
    requires CodeAt(u, 0) ==> f[e - 1] != 0
    ensures NextStart(f, q) == e
  {
    assert u[0] == f[e] && u[1] == f[e + 1] && u[2] == f[e + 2];
    if CodeAt(u, 0) {
      NextCodeIs(f, q + 3, e);
    } else {
      assert u[3] == f[e + 3];
      NextCodeIs(f, q + 3, e + 1);
    }
  }
}
