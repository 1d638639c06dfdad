/**
 * The snake's state transition. The body is a head-first sequence of node
 * ids; the food is a node id, or -1 when no free node is left. One move
 * either eats the food, hits the body (the body becomes empty), or shifts
 * the body one cell forward. The random choice of a new food node is the
 * parameter `pick`: any index into the free nodes.
 */
module Snake {

  import opened Wrappers
  import opened Arith
  import opened NumpyOps
  import opened Nav

  /** A body and a food node, as `move` returns them. */
  datatype Board = Board(snake: seq<int>, food: int)

  /** `create_empty_snake`: a body with no nodes. */
  function CreateEmptySnake(): (r: seq<int>)
    ensures |r| == 0
  {
    []
  }

  /**
   * `create_food`: -1 exactly when every node is taken by the body;
   * otherwise a node of `allNodes` the body does not occupy, whatever the pick.
   */
  function CreateFood(snake: seq<int>, allNodes: seq<int>, pick: nat): (r: int)
    requires forall i :: 0 <= i < |allNodes| ==> allNodes[i] >= 0
    ensures r == -1 <==> forall n :: n in allNodes ==> n in snake
    ensures r != -1 ==> r in allNodes && r !in snake
  {
    var free := SetDiff(allNodes, snake);
    if |free| == 0 then -1
    else
      assert free[pick % |free|] in free;
      free[pick % |free|]
  }

  /** Every free node is the food for some pick: the random choice ranges over all free nodes. */
  lemma CreateFoodReachesEveryFreeNode(snake: seq<int>, allNodes: seq<int>, n: int)
    requires forall i :: 0 <= i < |allNodes| ==> allNodes[i] >= 0
    requires n in allNodes && n !in snake
    ensures exists pick: nat :: CreateFood(snake, allNodes, pick) == n
  {
    var free := SetDiff(allNodes, snake);
    var i :| 0 <= i < |free| && free[i] == n;
    ModBelowTwice(i, |free|);
    assert CreateFood(snake, allNodes, i) == n;
  }

  /** The cell the head moves into. */
  function NewHead(snake: seq<int>, dir: Dir, shape: Shape): Option<int>
    requires |snake| > 0 && snake[0] >= 0 && shape.w >= 1
  {
    GetNextNodeId(snake[0], dir, shape)
  }

  /**
   * `move`. Food is checked before collision: moving onto the food grows
   * the body at the head and places new food off the new body; moving into
   * any body cell, the tail included, empties the body and keeps the food;
   * any other move puts the new head in front and drops the tail.
   */
  function Move(snake: seq<int>, dir: Dir, food: int, allNodes: seq<int>, shape: Shape, pick: nat): (r: Board)
    requires ValidShape(shape)
    requires |snake| > 0 && snake[0] >= 0
    requires NewHead(snake, dir, shape).Some?
    requires forall i :: 0 <= i < |allNodes| ==> allNodes[i] >= 0
    ensures var head := NewHead(snake, dir, shape).value;
            head == food ==>
              && r.snake == [food] + snake
              && (r.food == -1 <==> forall n :: n in allNodes ==> n in r.snake)
              && (r.food != -1 ==> r.food in allNodes && r.food !in r.snake)
    ensures var head := NewHead(snake, dir, shape).value;
            head != food && head in snake ==> r.snake == [] && r.food == food
    ensures var head := NewHead(snake, dir, shape).value;
            head != food && head !in snake ==>
              r.snake == [head] + snake[..|snake| - 1] && r.food == food
  {
    var head := NewHead(snake, dir, shape).value;
    if head == food then
      var grown := [food] + snake;
      Board(grown, CreateFood(grown, allNodes, pick))
    else if head in snake then
      Board(CreateEmptySnake(), food)
    else
      var rolled := Roll(snake, 1);
      var shifted := rolled[0 := head];
      assert shifted == [head] + snake[..|snake| - 1] by {
        forall i | 1 <= i < |snake| ensures shifted[i] == snake[i - 1] {
          ModBelowTwice(i - 1, |snake|);
        }
      }
      Board(shifted, food)
  }

  /** The body has no repeated node, lies on the board, and the food is -1 or a free node. */
  predicate WellFormed(b: Board, shape: Shape) {
    && (forall i, j :: 0 <= i < j < |b.snake| ==> b.snake[i] != b.snake[j])
    && (forall i :: 0 <= i < |b.snake| ==> 0 <= b.snake[i] < Size(shape))
    && (b.food == -1 || (0 <= b.food < Size(shape) && b.food !in b.snake))
  }

  /**
   * Moving keeps the board well formed: no node is ever on the body twice
   * and the food never lies under the body.
   */
  lemma MovePreservesWellFormed(b: Board, dir: Dir, allNodes: seq<int>, shape: Shape, pick: nat)
    requires ValidShape(shape) && WellFormed(b, shape)
    requires |b.snake| > 0 && NewHead(b.snake, dir, shape).Some?
    requires forall i :: 0 <= i < |allNodes| ==> 0 <= allNodes[i] < Size(shape)
    ensures WellFormed(Move(b.snake, dir, b.food, allNodes, shape, pick), shape)
  {
    var r := Move(b.snake, dir, b.food, allNodes, shape, pick);
    var head := NewHead(b.snake, dir, shape).value;
    if head == b.food {
      assert r.snake == [head] + b.snake;
      forall i, j | 0 <= i < j < |r.snake| ensures r.snake[i] != r.snake[j] {
        if i == 0 {
          assert r.snake[j] == b.snake[j - 1];
        }
      }
    } else if head !in b.snake {
      var kept := b.snake[..|b.snake| - 1];
      assert r.snake == [head] + kept;
      forall i, j | 0 <= i < j < |r.snake| ensures r.snake[i] != r.snake[j] {
        if i == 0 {
          assert r.snake[j] == b.snake[j - 1];
        } else {
          assert r.snake[i] == b.snake[i - 1] && r.snake[j] == b.snake[j - 1];
        }
      }
    }
  }
}
