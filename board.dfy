/**
 * The 4x4 board of the puzzle: a flat row-major sequence of 16 integers in which
 * 0 marks the empty cell, the solved configuration, Manhattan adjacency, slides,
 * and the specification of the random-walk shuffle.
 */
module Board {

  const GridSize: nat := 4
  /** GridSize * GridSize, written out so that the solver need not multiply. */
  const BoardSize: nat := 16
  const Empty: int := 0
  /** Number of random slides the shuffle performs. */
  const ShuffleMoves: nat := 1000
  /** Where the empty cell sits in the solved board. */
  const LastCell: nat := BoardSize - 1
  /** The cell above it, where the repair slide moves the empty cell. */
  const AboveLastCell: nat := LastCell - GridSize

  lemma BoardSizeIsGridSquared()
    ensures BoardSize == GridSize * GridSize
  {
  }

  /** [1, 2, ..., 15, 0] */
  function SolvedBoard(): (b: seq<int>)
    ensures |b| == BoardSize
    ensures b[BoardSize - 1] == Empty
    ensures forall i :: 0 <= i < BoardSize - 1 ==> b[i] == i + 1
  {
    seq(BoardSize - 1, i => i + 1) + [Empty]
  }

  /** A board is a permutation of the solved board, i.e. of 0..15. */
  ghost predicate IsBoard(b: seq<int>) {
    multiset(b) == multiset(SolvedBoard())
  }

  /** A board has sixteen cells, one of them empty. */
  lemma BoardHasEmpty(b: seq<int>)
    requires IsBoard(b)
    ensures |b| == BoardSize && Empty in b
  {
    var solved := SolvedBoard();
    assert solved[LastCell] == Empty;
    assert Empty in multiset(solved);
    assert |multiset(b)| == |multiset(solved)|;
  }

  // ---------------------------------------------------------------------------
  // Coordinates and adjacency

  function Row(i: nat): nat { i / GridSize }
  function Col(i: nat): nat { i % GridSize }
  function Abs(x: int): nat { if x < 0 then -x else x }

  /** The legality test of a click: Manhattan distance exactly 1. */
  predicate Adjacent(i: nat, j: nat) {
    Abs(Row(i) - Row(j)) + Abs(Col(i) - Col(j)) == 1
  }

  /**
   * Adjacency inside the grid is exactly "one row up or down, or one column to
   * the side without leaving the row": no diagonals and no wrap-around.
   */
  lemma AdjacentIff(i: nat, j: nat)
    requires i < BoardSize && j < BoardSize
    ensures Adjacent(i, j) <==>
      (j + GridSize == i || j == i + GridSize
       || (j + 1 == i && Col(i) != 0)
       || (j == i + 1 && Col(i) != GridSize - 1))
  {
  }

  lemma AdjacentSymmetric(i: nat, j: nat)
    ensures Adjacent(i, j) == Adjacent(j, i)
  {
  }

  /** The cells a shuffle step may move the empty cell to: up, down, left, right. */
  function Neighbours(e: nat): (r: seq<nat>)
    requires e < BoardSize
    ensures 2 <= |r| <= 4
    ensures forall k: nat :: k in r <==> k < BoardSize && Adjacent(e, k)
  {
    var row, col := Row(e), Col(e);
    var r := (if row > 0 then assert e >= GridSize; [e - GridSize] else [])
      + (if row < GridSize - 1 then [e + GridSize] else [])
      + (if col > 0 then [e - 1] else [])
      + (if col < GridSize - 1 then [e + 1] else []);
    NeighboursAdjacent(e, r);
    r
  }

  lemma NeighboursAdjacent(e: nat, r: seq<nat>)
    requires e < BoardSize
    requires r == (if Row(e) > 0 then [e - GridSize] else [])
      + (if Row(e) < GridSize - 1 then [e + GridSize] else [])
      + (if Col(e) > 0 then [e - 1] else [])
      + (if Col(e) < GridSize - 1 then [e + 1] else [])
    ensures forall k: nat :: k in r <==> k < BoardSize && Adjacent(e, k)
  {
    forall k: nat
      ensures k in r <==> k < BoardSize && Adjacent(e, k)
    {
      if k < BoardSize {
        AdjacentIff(e, k);
      }
    }
  }

  // ---------------------------------------------------------------------------
  // Searching and sliding

  /** Array.prototype.indexOf on a sequence: the first position of v, or -1. */
  function IndexOf(s: seq<int>, v: int): (r: int)
    ensures -1 <= r < |s|
    ensures r == -1 <==> v !in s
    ensures r >= 0 ==> s[r] == v && v !in s[..r]
  {
    if s == [] then -1
    else if s[0] == v then 0
    else
      var k := IndexOf(s[1..], v);
      assert k >= 0 ==> s[..k + 1] == [s[0]] + s[1..][..k];
      if k == -1 then -1 else k + 1
  }

  /** The same search over an array, written as the loop it is. */
  method FindIndex(a: array<int>, v: int) returns (k: int)
    ensures k == IndexOf(a[..], v)
  {
    var n := 0;
    while n < a.Length
      invariant 0 <= n <= a.Length
      invariant v !in a[..n]
    {
      if a[n] == v {
        IndexOfFirst(a[..], v, n);
        return n;
      }
      assert a[..n + 1] == a[..n] + [a[n]];
      n := n + 1;
    }
    assert a[..] == a[..n];
    k := -1;
  }

  /** A position holding v with no earlier v is what IndexOf finds. */
  lemma {:induction false} IndexOfFirst(s: seq<int>, v: int, n: nat)
    requires n < |s| && s[n] == v && v !in s[..n]
    ensures IndexOf(s, v) == n
  {
  }

  /** Swapping the contents of cells i and j. */
  function Slide(b: seq<int>, i: nat, j: nat): (r: seq<int>)
    requires i < |b| && j < |b|
    ensures |r| == |b|
    ensures r[i] == b[j] && r[j] == b[i]
    ensures forall k :: 0 <= k < |b| && k != i && k != j ==> r[k] == b[k]
    ensures multiset(r) == multiset(b)
  {
    b[i := b[j]][j := b[i]]
  }

  /** Sliding back undoes a slide. */
  lemma SlideTwice(b: seq<int>, i: nat, j: nat)
    requires i < |b| && j < |b|
    ensures Slide(Slide(b, i, j), j, i) == b
  {
  }

  // ---------------------------------------------------------------------------
  // Paths of the empty cell

  /** Where the empty cell is after following path p from e0. */
  function End(e0: nat, p: seq<nat>): nat {
    if p == [] then e0 else p[|p| - 1]
  }

  /** Every step of p moves the empty cell to an in-bounds orthogonal neighbour. */
  predicate ValidPath(e0: nat, p: seq<nat>)
    decreases |p|
  {
    if p == [] then e0 < BoardSize
    else
      var q := p[..|p| - 1];
      ValidPath(e0, q) && p[|p| - 1] < BoardSize && Adjacent(End(e0, q), p[|p| - 1])
  }

  lemma {:induction false} ValidPathEnd(e0: nat, p: seq<nat>)
    requires ValidPath(e0, p)
    ensures End(e0, p) < BoardSize
  {
  }

  /** The board after sliding the empty cell along p, starting with it at e0. */
  function ApplyPath(b: seq<int>, e0: nat, p: seq<nat>): (r: seq<int>)
    requires |b| == BoardSize && ValidPath(e0, p)
    ensures |r| == BoardSize
    decreases |p|
  {
    if p == [] then b
    else
      var q := p[..|p| - 1];
      ValidPathEnd(e0, q);
      Slide(ApplyPath(b, e0, q), End(e0, q), p[|p| - 1])
  }

  /** Following a path keeps a permutation and keeps 0 on the empty cell. */
  lemma {:induction false} ApplyPathKeepsBoard(b: seq<int>, e0: nat, p: seq<nat>)
    requires |b| == BoardSize && e0 < BoardSize && ValidPath(e0, p)
    requires IsBoard(b) && b[e0] == Empty
    ensures IsBoard(ApplyPath(b, e0, p))
    ensures End(e0, p) < BoardSize && ApplyPath(b, e0, p)[End(e0, p)] == Empty
    decreases |p|
  {
    ValidPathEnd(e0, p);
    if p != [] {
      var q := p[..|p| - 1];
      ApplyPathKeepsBoard(b, e0, q);
    }
  }

  lemma {:induction false} ValidPathConcat(e0: nat, p1: seq<nat>, p2: seq<nat>)
    requires ValidPath(e0, p1) && ValidPath(End(e0, p1), p2)
    ensures ValidPath(e0, p1 + p2)
    ensures End(e0, p1 + p2) == End(End(e0, p1), p2)
    decreases |p2|
  {
    if p2 == [] {
      assert p1 + p2 == p1;
    } else {
      var q := p2[..|p2| - 1];
      ValidPathConcat(e0, p1, q);
      assert (p1 + p2)[..|p1 + p2| - 1] == p1 + q;
    }
  }

  lemma {:induction false} ApplyPathConcat(b: seq<int>, e0: nat, p1: seq<nat>, p2: seq<nat>)
    requires |b| == BoardSize && ValidPath(e0, p1) && ValidPath(End(e0, p1), p2)
    ensures ValidPath(e0, p1 + p2)
    ensures ApplyPath(b, e0, p1 + p2) == ApplyPath(ApplyPath(b, e0, p1), End(e0, p1), p2)
    decreases |p2|
  {
    ValidPathConcat(e0, p1, p2);
    if p2 == [] {
      assert p1 + p2 == p1;
    } else {
      var q, m := p2[..|p2| - 1], p2[|p2| - 1];
      var e1 := End(e0, p1);
      assert p2 == q + [m];
      assert p1 + p2 == (p1 + q) + [m];
      ValidPathConcat(e0, p1, q);
      ApplyPathConcat(b, e0, p1, q);
      assert End(e0, p1 + q) == End(e1, q);
      calc {
        ApplyPath(b, e0, p1 + p2);
        { ApplyPathSnoc(b, e0, p1 + q, m); }
        Slide(ApplyPath(b, e0, p1 + q), End(e0, p1 + q), m);
        Slide(ApplyPath(ApplyPath(b, e0, p1), e1, q), End(e1, q), m);
        { ApplyPathSnoc(ApplyPath(b, e0, p1), e1, q, m); }
        ApplyPath(ApplyPath(b, e0, p1), e1, p2);
      }
    }
  }

  /** The last slide of a path is applied last. */
  lemma ApplyPathSnoc(b: seq<int>, e0: nat, q: seq<nat>, m: nat)
    requires |b| == BoardSize && ValidPath(e0, q + [m])
    ensures ValidPath(e0, q) && End(e0, q) < BoardSize && m < BoardSize
    ensures ApplyPath(b, e0, q + [m]) == Slide(ApplyPath(b, e0, q), End(e0, q), m)
  {
    assert (q + [m])[..|q|] == q;
    ValidPathEnd(e0, q);
  }

  /** The path that walks the empty cell back from End(e0, p) to e0. */
  function Back(e0: nat, p: seq<nat>): (r: seq<nat>)
    ensures |r| == |p|
    decreases |p|
  {
    if p == [] then []
    else
      var q := p[..|p| - 1];
      [End(e0, q)] + Back(e0, q)
  }

  lemma {:induction false} ValidPathPrepend(e0: nat, k: nat, p: seq<nat>)
    requires e0 < BoardSize && k < BoardSize && Adjacent(e0, k) && ValidPath(k, p)
    ensures ValidPath(e0, [k] + p)
    ensures End(e0, [k] + p) == End(k, p)
  {
    SingleStep(e0, k);
    ValidPathConcat(e0, [k], p);
  }

  lemma SingleStep(e0: nat, k: nat)
    requires e0 < BoardSize && k < BoardSize && Adjacent(e0, k)
    ensures ValidPath(e0, [k]) && End(e0, [k]) == k
  {
    assert [k][..0] == [];
  }

  lemma ApplyPathSingle(b: seq<int>, e0: nat, k: nat)
    requires |b| == BoardSize && e0 < BoardSize && k < BoardSize && Adjacent(e0, k)
    ensures ValidPath(e0, [k]) && End(e0, [k]) == k
    ensures ApplyPath(b, e0, [k]) == Slide(b, e0, k)
  {
    assert [k][..0] == [];
  }

  /** Every valid path can be walked back, and walking back restores the board. */
  lemma {:induction false} BackUndoes(b: seq<int>, e0: nat, p: seq<nat>)
    requires |b| == BoardSize && ValidPath(e0, p)
    ensures ValidPath(End(e0, p), Back(e0, p))
    ensures End(End(e0, p), Back(e0, p)) == e0
    ensures ApplyPath(ApplyPath(b, e0, p), End(e0, p), Back(e0, p)) == b
    decreases |p|
  {
    if p != [] {
      var q := p[..|p| - 1];
      var k := p[|p| - 1];
      var e := End(e0, q);
      ValidPathEnd(e0, q);
      BackUndoes(b, e0, q);
      AdjacentSymmetric(e, k);
      ValidPathPrepend(k, e, Back(e0, q));
      assert Back(e0, p) == [e] + Back(e0, q);
      var mid := ApplyPath(b, e0, q);
      ApplyPathSingle(ApplyPath(b, e0, p), k, e);
      ApplyPathConcat(ApplyPath(b, e0, p), k, [e], Back(e0, q));
      SlideTwice(mid, e, k);
    }
  }

  // ---------------------------------------------------------------------------
  // The shuffle

  /** Math.random() results: each in [0, 1). */
  predicate ValidDraws(draws: seq<real>) {
    forall i :: 0 <= i < |draws| ==> 0.0 <= draws[i] < 1.0
  }

  /** Math.floor(r * n) for a draw r in [0, 1): an index into a list of n choices. */
  function PickIndex(r: real, n: nat): (k: nat)
    requires 0.0 <= r < 1.0 && 0 < n
    ensures k < n
  {
    var x := r * n as real;
    assert 0.0 <= x < n as real;
    x.Floor
  }

  /** One shuffle step: the neighbour of e that the draw r picks. */
  function Step(e: nat, r: real): (m: nat)
    requires e < BoardSize && 0.0 <= r < 1.0
    ensures m < BoardSize && Adjacent(e, m)
  {
    var possibleMoves := Neighbours(e);
    var k := PickIndex(r, |possibleMoves|);
    assert possibleMoves[k] in possibleMoves;
    possibleMoves[k]
  }

  /** The cells the empty cell visits, one per draw, starting from e0. */
  function WalkPath(e0: nat, draws: seq<real>): (p: seq<nat>)
    requires e0 < BoardSize && ValidDraws(draws)
    ensures |p| == |draws| && ValidPath(e0, p)
    decreases |draws|
  {
    if draws == [] then []
    else
      var init := draws[..|draws| - 1];
      assert ValidDraws(init);
      var q := WalkPath(e0, init);
      ValidPathEnd(e0, q);
      var p := q + [Step(End(e0, q), draws[|draws| - 1])];
      assert p[..|p| - 1] == q;
      p
  }

  /** In the solved board the empty cell is the last one, and indexOf finds it there. */
  lemma SolvedEmptyIndex()
    ensures IndexOf(SolvedBoard(), Empty) == LastCell
  {
    var s := SolvedBoard();
    assert Empty !in s[..LastCell];
    IndexOfFirst(s, Empty, LastCell);
  }

  lemma SolvedEmptyOnlyLast(i: nat)
    requires i < BoardSize && SolvedBoard()[i] == Empty
    ensures i == LastCell
  {
  }

  /**
   * The board after the random walk, before the solved-board repair. The walk
   * starts where indexOf finds the empty cell of the solved board (SolvedEmptyIndex).
   */
  function Walked(draws: seq<real>): (b: seq<int>)
    requires ValidDraws(draws)
  {
    ApplyPath(SolvedBoard(), LastCell, WalkPath(LastCell, draws))
  }

  /**
   * The shuffled board: the walk, plus one upward slide of the empty cell if the
   * walk ended on the solved board, where indexOf again finds it in the last cell.
   */
  function Shuffled(draws: seq<real>): (b: seq<int>)
    requires ValidDraws(draws)
  {
    var walked := Walked(draws);
    if walked == SolvedBoard() then Slide(walked, LastCell, AboveLastCell) else walked
  }

  /** All the slides the shuffle makes, the repair slide included. */
  function ShufflePath(draws: seq<real>): (p: seq<nat>)
    requires ValidDraws(draws)
  {
    var walk := WalkPath(LastCell, draws);
    if Walked(draws) == SolvedBoard() then walk + [AboveLastCell] else walk
  }

  /** The shuffled board is a permutation of 0..15. */
  lemma ShuffledIsBoard(draws: seq<real>)
    requires ValidDraws(draws)
    ensures IsBoard(Shuffled(draws))
  {
    ApplyPathKeepsBoard(SolvedBoard(), LastCell, WalkPath(LastCell, draws));
  }

  /** The shuffle never hands out the solved board. */
  lemma ShuffledNotSolved(draws: seq<real>)
    requires ValidDraws(draws)
    ensures Shuffled(draws) != SolvedBoard()
  {
    if Walked(draws) == SolvedBoard() {
      assert Shuffled(draws)[AboveLastCell] == Empty;
    }
  }

  /** The repair slide is legal when the walk ends on the solved board. */
  lemma RepairIsSlide(walk: seq<nat>)
    requires ValidPath(LastCell, walk) && ApplyPath(SolvedBoard(), LastCell, walk) == SolvedBoard()
    ensures ValidPath(LastCell, walk + [AboveLastCell])
    ensures End(LastCell, walk + [AboveLastCell]) == AboveLastCell
    ensures ApplyPath(SolvedBoard(), LastCell, walk + [AboveLastCell])
            == Slide(SolvedBoard(), LastCell, AboveLastCell)
  {
    ApplyPathKeepsBoard(SolvedBoard(), LastCell, walk);
    var e := End(LastCell, walk);
    SolvedEmptyOnlyLast(e);
    SingleStep(e, AboveLastCell);
    ApplyPathConcat(SolvedBoard(), LastCell, walk, [AboveLastCell]);
    ApplyPathSingle(SolvedBoard(), e, AboveLastCell);
    ValidPathConcat(LastCell, walk, [AboveLastCell]);
  }

  /**
   * The shuffled board is reached from the solved board by legal slides only,
   * the repair slide included, and its empty cell is where the last slide left it.
   */
  lemma ShuffledReachable(draws: seq<real>)
    requires ValidDraws(draws)
    ensures ValidPath(LastCell, ShufflePath(draws))
    ensures ApplyPath(SolvedBoard(), LastCell, ShufflePath(draws)) == Shuffled(draws)
    ensures Shuffled(draws)[End(LastCell, ShufflePath(draws))] == Empty
  {
    var walk := WalkPath(LastCell, draws);
    if Walked(draws) == SolvedBoard() {
      RepairIsSlide(walk);
    } else {
      ApplyPathKeepsBoard(SolvedBoard(), LastCell, walk);
    }
  }

  /** The shuffled board can be solved: walking the shuffle's path back restores it. */
  lemma ShuffledSolvable(draws: seq<real>)
    requires ValidDraws(draws)
    ensures ValidPath(End(LastCell, ShufflePath(draws)), Back(LastCell, ShufflePath(draws)))
    ensures ApplyPath(Shuffled(draws), End(LastCell, ShufflePath(draws)),
                      Back(LastCell, ShufflePath(draws))) == SolvedBoard()
  {
    ShuffledReachable(draws);
    BackUndoes(SolvedBoard(), LastCell, ShufflePath(draws));
  }
}
