/** The board topology every new game is created with, and what it means for a
    topology to be well formed on the 100-cell board. */
module Board {
  import opened Schema

  const BoardSize: int := 100

  /** The default snakes (head to tail) and ladders (bottom to top). */
  const DefaultSnakesAndLadders: Topology := Topology(
    [ Snake(99, 78), Snake(95, 75), Snake(92, 88), Snake(87, 24), Snake(64, 60),
      Snake(62, 19), Snake(56, 53), Snake(49, 11), Snake(47, 26), Snake(16, 6) ],
    [ Ladder(1, 38), Ladder(4, 14), Ladder(9, 21), Ladder(21, 42), Ladder(28, 84),
      Ladder(36, 44), Ladder(51, 67), Ladder(71, 91), Ladder(80, 100) ])

  predicate OnBoard(cell: int) {
    1 <= cell <= BoardSize
  }

  predicate IsSnakeHead(t: Topology, cell: int) {
    exists k :: 0 <= k < |t.snakes| && t.snakes[k].head == cell
  }

  predicate IsLadderBottom(t: Topology, cell: int) {
    exists k :: 0 <= k < |t.ladders| && t.ladders[k].bottom == cell
  }

  predicate SnakesGoDown(t: Topology) {
    forall i :: 0 <= i < |t.snakes| ==>
      OnBoard(t.snakes[i].head) && OnBoard(t.snakes[i].tail) && t.snakes[i].tail < t.snakes[i].head
  }

  predicate LaddersGoUp(t: Topology) {
    forall i :: 0 <= i < |t.ladders| ==>
      OnBoard(t.ladders[i].bottom) && OnBoard(t.ladders[i].top) && t.ladders[i].bottom < t.ladders[i].top
  }

  predicate NoSnakeHeadIsLadderBottom(t: Topology) {
    forall i, j :: 0 <= i < |t.snakes| && 0 <= j < |t.ladders| ==> t.snakes[i].head != t.ladders[j].bottom
  }

  predicate HeadsDistinct(t: Topology) {
    forall i, j :: 0 <= i < j < |t.snakes| ==> t.snakes[i].head != t.snakes[j].head
  }

  predicate BottomsDistinct(t: Topology) {
    forall i, j :: 0 <= i < j < |t.ladders| ==> t.ladders[i].bottom != t.ladders[j].bottom
  }

  /** Snakes go down, ladders go up, every end lies on the board, and no cell
      starts two transports. Nothing here forbids a transport from ending on
      the start of another one. */
  predicate WellFormed(t: Topology) {
    SnakesGoDown(t) && LaddersGoUp(t) && NoSnakeHeadIsLadderBottom(t) && HeadsDistinct(t) && BottomsDistinct(t)
  }

  lemma DefaultWellFormed()
    ensures WellFormed(DefaultSnakesAndLadders)
    ensures |DefaultSnakesAndLadders.snakes| == 10 && |DefaultSnakesAndLadders.ladders| == 9
  {
    var t := DefaultSnakesAndLadders;
    assert SnakesGoDown(t);
    assert LaddersGoUp(t);
    DefaultNoSnakeHeadIsLadderBottom();
    DefaultStartsDistinct();
  }

  lemma DefaultNoSnakeHeadIsLadderBottom()
    ensures NoSnakeHeadIsLadderBottom(DefaultSnakesAndLadders)
  {
    var t := DefaultSnakesAndLadders;
    forall i, j | 0 <= i < |t.snakes| && 0 <= j < |t.ladders|
      ensures t.snakes[i].head != t.ladders[j].bottom
    {
      assert t.snakes[i].head in {99, 95, 92, 87, 64, 62, 56, 49, 47, 16};
      assert t.ladders[j].bottom in {1, 4, 9, 21, 28, 36, 51, 71, 80};
    }
  }

  lemma DefaultStartsDistinct()
    ensures HeadsDistinct(DefaultSnakesAndLadders) && BottomsDistinct(DefaultSnakesAndLadders)
  {
    var t := DefaultSnakesAndLadders;
    forall i, j | 0 <= i < j < |t.snakes| ensures t.snakes[i].head != t.snakes[j].head {
    }
    forall i, j | 0 <= i < j < |t.ladders| ensures t.ladders[i].bottom != t.ladders[j].bottom {
    }
  }

  /** The default ladders chain: the ladder from 9 ends on 21, which is the
      bottom of the ladder to 42. */
  lemma DefaultLaddersChain()
    ensures IsLadderBottom(DefaultSnakesAndLadders, 9)
    ensures IsLadderBottom(DefaultSnakesAndLadders, 21)
    ensures exists i, j :: 0 <= i < 9 && 0 <= j < 9
              && DefaultSnakesAndLadders.ladders[i].top == DefaultSnakesAndLadders.ladders[j].bottom
  {
    var ls := DefaultSnakesAndLadders.ladders;
    assert ls[2].bottom == 9 && ls[3].bottom == 21;
    assert ls[2].top == ls[3].bottom;
  }
}
