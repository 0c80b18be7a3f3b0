/**
  The invader formation: thirty stable slots whose cells are kept in one
  sequence that is never compacted, and the list of slots shot down so far.
 */
module Formation {
  import opened Grid

  /** Number of slots in the formation (`alienPositionsLength`). */
  const Slots: int := 30

  /** Number of invaders in one row of the formation. */
  const RowLength: int := 10

  /** The starting cell of every slot (`fixedAlienPositions`). */
  const FixedAlienPositions: seq<int> :=
    [0, 1, 2, 3, 4, 5, 6, 7, 8, 9, 15, 16, 17, 18, 19, 20, 21, 22, 23, 24, 30, 31, 32, 33, 34, 35, 36, 37, 38, 39]

  /** Offset of slot `i` from slot 0 in a formation of three rows of ten. */
  function SlotOffset(i: int): int {
    (i / RowLength) * Width + i % RowLength
  }

  /** The starting layout is three contiguous rows of ten, at the top left. */
  lemma FixedLayoutIsThreeRowsOfTen()
    ensures |FixedAlienPositions| == Slots
    ensures forall i | 0 <= i < Slots :: FixedAlienPositions[i] == SlotOffset(i)
  {
    assert FixedAlienPositions == seq(Slots, i => SlotOffset(i));
  }

  /** Every slot sits at slot 0's cell plus its fixed offset. */
  ghost predicate Rigid(positions: seq<int>) {
    && |positions| == Slots
    && forall i | 0 <= i < Slots :: positions[i] == positions[0] + SlotOffset(i)
  }

  ghost predicate Distinct(s: seq<int>) {
    forall i, j | 0 <= i < j < |s| :: s[i] != s[j]
  }

  /** A well-formed removal list: distinct slot indices. */
  ghost predicate SlotList(s: seq<int>) {
    && Distinct(s)
    && forall k | 0 <= k < |s| :: 0 <= s[k] < Slots
  }

  function Shift(s: seq<int>, d: int): (r: seq<int>)
    ensures |r| == |s|
  {
    seq(|s|, i requires 0 <= i < |s| => s[i] + d)
  }

  /** JavaScript's `Array.prototype.indexOf`: the first index holding `x`, or -1. */
  function IndexOf(s: seq<int>, x: int): (r: int)
    ensures -1 <= r < |s|
    ensures r == -1 <==> x !in s
    ensures r >= 0 ==> s[r] == x && forall j | 0 <= j < r :: s[j] != x
  {
    if |s| == 0 then -1
    else if s[0] == x then 0
    else
      var k := IndexOf(s[1..], x);
      if k == -1 then -1 else k + 1
  }

  /** Two slots of one formation row never share a cell: the offsets are injective. */
  lemma SlotOffsetInjective(i: int, j: int)
    requires 0 <= i < Slots && 0 <= j < Slots
    requires SlotOffset(i) == SlotOffset(j)
    ensures i == j
  {
    DivModUnique(SlotOffset(i), i / RowLength, i % RowLength);
    DivModUnique(SlotOffset(j), j / RowLength, j % RowLength);
  }

  /** A rigid formation never puts two slots on the same cell. */
  lemma RigidIsDistinct(positions: seq<int>)
    requires Rigid(positions)
    ensures Distinct(positions)
  {
    forall i, j | 0 <= i < j < |positions|
      ensures positions[i] != positions[j]
    {
      if positions[i] == positions[j] {
        SlotOffsetInjective(i, j);
      }
    }
  }

  /** A uniform shift keeps a formation rigid. */
  lemma ShiftKeepsRigid(positions: seq<int>, d: int)
    requires Rigid(positions)
    ensures Rigid(Shift(positions, d))
  {
  }

  /** The slot indices below `n`. */
  function Range(n: nat): (r: set<int>)
    ensures forall i :: i in r <==> 0 <= i < n
  {
    if n == 0 then {} else Range(n - 1) + {n - 1}
  }

  lemma {:induction false} RangeSize(n: nat)
    ensures |Range(n)| == n
  {
    if n > 0 {
      RangeSize(n - 1);
    }
  }

  lemma {:induction false} DistinctSize(s: seq<int>)
    requires Distinct(s)
    ensures |set x | x in s| == |s|
  {
    if |s| > 0 {
      DistinctSize(s[1..]);
      assert (set x | x in s) == (set x | x in s[1..]) + {s[0]};
      assert s[0] !in s[1..];
    }
  }

  lemma SubsetSize(a: set<int>, b: set<int>)
    requires a <= b
    ensures |a| <= |b|
  {
    assert b == a + (b - a);
    assert a * (b - a) == {};
  }

  /** A list of distinct indices below `n` that misses one of them is shorter than `n`. */
  lemma MissingIndexBound(s: seq<int>, n: nat, j: int)
    requires Distinct(s)
    requires forall k | 0 <= k < |s| :: 0 <= s[k] < n
    requires 0 <= j < n && j !in s
    ensures |s| < n
  {
    var present := set x | x in s;
    DistinctSize(s);
    RangeSize(n);
    forall x | x in present
      ensures x in Range(n) - {j}
    {
      var k :| 0 <= k < |s| && s[k] == x;
    }
    SubsetSize(present, Range(n) - {j});
  }

  /** A list of distinct indices below `n` that holds every one of them has length `n`. */
  lemma EveryIndexBound(s: seq<int>, n: nat)
    requires Distinct(s)
    requires forall k | 0 <= k < |s| :: 0 <= s[k] < n
    requires forall j | 0 <= j < n :: j in s
    ensures |s| == n
  {
    var present := set x | x in s;
    DistinctSize(s);
    RangeSize(n);
    forall x | x in present
      ensures x in Range(n)
    {
      var k :| 0 <= k < |s| && s[k] == x;
    }
    assert present == Range(n);
  }

  /** A removal list holds all thirty slots exactly when it has thirty entries. */
  lemma AllRemovedIffFull(s: seq<int>)
    requires SlotList(s)
    ensures |s| == Slots <==> forall j | 0 <= j < Slots :: j in s
  {
    if forall j | 0 <= j < Slots :: j in s {
      EveryIndexBound(s, Slots);
    } else {
      var j :| 0 <= j < Slots && j !in s;
      MissingIndexBound(s, Slots, j);
    }
  }
}
