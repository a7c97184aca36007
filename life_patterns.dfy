/** Known patterns under the generation rule: the blinker, a period-2
    oscillator, and the block, a still life. Each pattern is a grid whose
    live cells are given by a predicate on the position; its neighbour counts
    are worked out from that predicate, cell by cell. */
module LifePatterns {
  import opened LifeSpec

  /** One for a live position, zero otherwise. */
  function Bit(b: bool): nat { if b then 1 else 0 }

  // ----- Blinker -----

  /** Phase A: (2, 1), (2, 2) and (2, 3) of a 5 x 5 grid, three cells of
      column 2 (a row on screen, since draw_grid draws grid[x] as row x). */
  predicate OnBlinkerA(i: int, j: int) { i == 2 && 1 <= j <= 3 }

  /** Phase B: (1, 2), (2, 2) and (3, 2), cell 2 of columns 1 to 3. */
  predicate OnBlinkerB(i: int, j: int) { j == 2 && 1 <= i <= 3 }

  function BlinkerA(): (g: Grid)
    ensures Rectangular(g) && Width(g) == 5 && Height(g) == 5
  {
    seq(5, x => seq(5, y => Bit(OnBlinkerA(x, y))))
  }

  function BlinkerB(): (g: Grid)
    ensures Rectangular(g) && Width(g) == 5 && Height(g) == 5
  {
    seq(5, x => seq(5, y => Bit(OnBlinkerB(x, y))))
  }

  /** The neighbour count of any position of phase A, from the
      predicate alone (positions off the grid are never on it). */
  lemma BlinkerANeighbours(x: int, y: int)
    ensures LiveNeighbours(BlinkerA(), x, y) ==
      Bit(OnBlinkerA(x - 1, y - 1)) + Bit(OnBlinkerA(x - 1, y)) + Bit(OnBlinkerA(x - 1, y + 1)) +
      Bit(OnBlinkerA(x, y - 1)) + Bit(OnBlinkerA(x, y + 1)) +
      Bit(OnBlinkerA(x + 1, y - 1)) + Bit(OnBlinkerA(x + 1, y)) + Bit(OnBlinkerA(x + 1, y + 1))
  {
    var g := BlinkerA();
    LiveNeighboursExpanded(g, x, y);
    forall i, j ensures LiveAt(g, i, j) == Bit(OnBlinkerA(i, j)) {}
  }

  lemma BlinkerBNeighbours(x: int, y: int)
    ensures LiveNeighbours(BlinkerB(), x, y) ==
      Bit(OnBlinkerB(x - 1, y - 1)) + Bit(OnBlinkerB(x - 1, y)) + Bit(OnBlinkerB(x - 1, y + 1)) +
      Bit(OnBlinkerB(x, y - 1)) + Bit(OnBlinkerB(x, y + 1)) +
      Bit(OnBlinkerB(x + 1, y - 1)) + Bit(OnBlinkerB(x + 1, y)) + Bit(OnBlinkerB(x + 1, y + 1))
  {
    var g := BlinkerB();
    LiveNeighboursExpanded(g, x, y);
    forall i, j ensures LiveAt(g, i, j) == Bit(OnBlinkerB(i, j)) {}
  }

  /** Each cell of phase A becomes the matching cell of phase B: the ends
      (2, 1) and (2, 3) die with one neighbour, the centre survives with two,
      and (1, 2) and (3, 2), beside the centre, are born with three. */
  lemma BlinkerAStep(x: int, y: int)
    requires 0 <= x < 5 && 0 <= y < 5
    ensures BlinkerB()[x][y] == ApplyRules(BlinkerA()[x][y], LiveNeighbours(BlinkerA(), x, y))
  {
    BlinkerANeighbours(x, y);
    assert BlinkerA()[x][y] == Bit(OnBlinkerA(x, y));
    var n := LiveNeighbours(BlinkerA(), x, y);
    if x == 0 || x == 4 {
      assert n == 0;
    } else if x == 1 || x == 3 {
      assert n == Bit(OnBlinkerA(2, y - 1)) + Bit(OnBlinkerA(2, y)) + Bit(OnBlinkerA(2, y + 1));
    } else {
      assert n == Bit(OnBlinkerA(2, y - 1)) + Bit(OnBlinkerA(2, y + 1));
    }
  }

  lemma BlinkerBStep(x: int, y: int)
    requires 0 <= x < 5 && 0 <= y < 5
    ensures BlinkerA()[x][y] == ApplyRules(BlinkerB()[x][y], LiveNeighbours(BlinkerB(), x, y))
  {
    BlinkerBNeighbours(x, y);
    assert BlinkerB()[x][y] == Bit(OnBlinkerB(x, y));
    var n := LiveNeighbours(BlinkerB(), x, y);
    if y == 0 || y == 4 {
      assert n == 0;
    } else if y == 1 || y == 3 {
      assert n == Bit(OnBlinkerB(x - 1, 2)) + Bit(OnBlinkerB(x, 2)) + Bit(OnBlinkerB(x + 1, 2));
    } else {
      assert n == Bit(OnBlinkerB(x - 1, 2)) + Bit(OnBlinkerB(x + 1, 2));
    }
  }

  /** One generation turns phase A into phase B. */
  lemma BlinkerAToB()
    ensures NextGeneration(BlinkerA()) == BlinkerB()
  {
    var g, h := BlinkerA(), BlinkerB();
    forall x, y | InBounds(g, x, y)
      ensures h[x][y] == ApplyRules(g[x][y], LiveNeighbours(g, x, y))
    {
      BlinkerAStep(x, y);
    }
    NextGenerationIsCellwise(g, h);
  }

  /** And the next one turns it back. */
  lemma BlinkerBToA()
    ensures NextGeneration(BlinkerB()) == BlinkerA()
  {
    var g, h := BlinkerB(), BlinkerA();
    forall x, y | InBounds(g, x, y)
      ensures h[x][y] == ApplyRules(g[x][y], LiveNeighbours(g, x, y))
    {
      BlinkerBStep(x, y);
    }
    NextGenerationIsCellwise(g, h);
  }

  /** The blinker has period two: its two phases differ, after 2k
      generations it is back, after 2k + 1 it is the other phase. */
  lemma BlinkerOscillates(k: nat)
    ensures BlinkerA() != BlinkerB()
    ensures Generations(BlinkerA(), 2 * k) == BlinkerA()
    ensures Generations(BlinkerA(), 2 * k + 1) == BlinkerB()
  {
    assert BlinkerA()[2][1] != BlinkerB()[2][1];
    BlinkerAToB();
    BlinkerBToA();
    assert Generations(BlinkerA(), 2) == Generations(BlinkerB(), 1) == Generations(BlinkerA(), 0);
    PeriodTwoForever(BlinkerA(), k);
    GenerationsAdd(BlinkerA(), 2 * k, 1);
  }

  // ----- Block -----

  /** The middle 2 x 2 square of a 4 x 4 grid. */
  predicate OnBlock(i: int, j: int) { 1 <= i <= 2 && 1 <= j <= 2 }

  function Block(): (g: Grid)
    ensures Rectangular(g) && Width(g) == 4 && Height(g) == 4
  {
    seq(4, x => seq(4, y => Bit(OnBlock(x, y))))
  }

  lemma BlockNeighbours(x: int, y: int)
    ensures LiveNeighbours(Block(), x, y) ==
      Bit(OnBlock(x - 1, y - 1)) + Bit(OnBlock(x - 1, y)) + Bit(OnBlock(x - 1, y + 1)) +
      Bit(OnBlock(x, y - 1)) + Bit(OnBlock(x, y + 1)) +
      Bit(OnBlock(x + 1, y - 1)) + Bit(OnBlock(x + 1, y)) + Bit(OnBlock(x + 1, y + 1))
  {
    var g := Block();
    LiveNeighboursExpanded(g, x, y);
    forall i, j ensures LiveAt(g, i, j) == Bit(OnBlock(i, j)) {}
  }

  /** Every live cell of the block has three neighbours and survives; every
      dead cell has at most two and stays dead. */
  lemma BlockStep(x: int, y: int)
    requires 0 <= x < 4 && 0 <= y < 4
    ensures Block()[x][y] == ApplyRules(Block()[x][y], LiveNeighbours(Block(), x, y))
  {
    BlockNeighbours(x, y);
    assert Block()[x][y] == Bit(OnBlock(x, y));
    var n := LiveNeighbours(Block(), x, y);
    if x == 0 || x == 3 {
      assert n == Bit(OnBlock(1, y - 1)) + Bit(OnBlock(1, y)) + Bit(OnBlock(1, y + 1));
    } else {
      assert n == Bit(OnBlock(x, y - 1)) + Bit(OnBlock(x, y + 1)) +
        Bit(OnBlock(3 - x, y - 1)) + Bit(OnBlock(3 - x, y)) + Bit(OnBlock(3 - x, y + 1));
    }
  }

  /** The block is a still life. */
  lemma BlockIsStill()
    ensures NextGeneration(Block()) == Block()
  {
    var g := Block();
    forall x, y | InBounds(g, x, y)
      ensures g[x][y] == ApplyRules(g[x][y], LiveNeighbours(g, x, y))
    {
      BlockStep(x, y);
    }
    NextGenerationIsCellwise(g, g);
  }

  /** So it is unchanged after any number of generations. */
  lemma BlockForever(n: nat)
    ensures Generations(Block(), n) == Block()
  {
    BlockIsStill();
    StillLifeForever(Block(), n);
  }
}
