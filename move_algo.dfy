/**
 * The two navigation policies. The Hamiltonian cycle is the table `path`,
 * with `path[node]` the node's index along the cycle.
 *
 * - Following the cycle walks a table of directions, one per cycle index,
 *   held with the current index in a `FollowPath` object.
 * - The shortcut policy may leave the cycle toward the food: it moves to
 *   the free neighbour farthest ahead along the cycle whose distance stays
 *   within a cutting budget derived from the food and tail distances.
 */
module MoveAlgo {

  import opened Wrappers
  import opened NumpyOps
  import opened Nav

  /** `path` gives every node an index along the tour, each index in [0, N) exactly once. */
  predicate IsTourIndex(path: seq<int>, shape: Shape) {
    && ValidShape(shape)
    && |path| == Size(shape)
    && (forall n :: 0 <= n < |path| ==> 0 <= path[n] < |path|)
    && (forall m, n :: 0 <= m < |path| && 0 <= n < |path| && path[m] == path[n] ==> m == n)
    && (forall k :: 0 <= k < |path| ==> k in path)
  }

  /** Node `n` comes right after node `m` on the tour. */
  predicate Consecutive(path: seq<int>, m: int, n: int) {
    0 <= m < |path| && 0 <= n < |path| && 0 <= path[m] < |path| && path[n] == NextIndex(path[m], |path|)
  }

  /** A tour whose consecutive nodes (mod N) share a side: a Hamiltonian cycle. */
  ghost predicate IsHamiltonCycle(path: seq<int>, shape: Shape) {
    && IsTourIndex(path, shape)
    && (forall m, n {:trigger Consecutive(path, m, n)} ::
          Consecutive(path, m, n) ==> Adjacent(GetNodePos(m, shape), GetNodePos(n, shape)))
  }

  /** Stepping in `dir` from node `m` reaches the node whose cycle index follows `m`'s. */
  ghost predicate StepsFrom(path: seq<int>, shape: Shape, m: int, dir: Dir)
    requires IsTourIndex(path, shape) && 0 <= m < |path|
  {
    var next := GetNextNodeId(m, dir, shape);
    next.Some? && path[next.value] == NextIndex(path[m], |path|)
  }

  /** The direction table of the cycle: from every node, the entry at its cycle index steps to the next. */
  ghost predicate StepsAlong(dirs: seq<Dir>, path: seq<int>, shape: Shape) {
    && IsTourIndex(path, shape)
    && |dirs| == |path|
    && (forall m :: 0 <= m < |path| ==> StepsFrom(path, shape, m, dirs[path[m]]))
  }

  /**
   * On a Hamiltonian cycle, `get_dir_between` from a node to the node of the
   * next cycle index is defined and steps from the one to the other.
   */
  lemma DirBetweenConsecutive(path: seq<int>, shape: Shape, m: int, n: int)
    requires IsHamiltonCycle(path, shape) && Consecutive(path, m, n)
    ensures GetDirBetween(m, n, shape).Some?
    ensures StepsFrom(path, shape, m, GetDirBetween(m, n, shape).value)
  {
    assert Adjacent(GetNodePos(m, shape), GetNodePos(n, shape));
    DirBetweenSteps(m, n, shape);
  }

  /** Every node whose cycle index is below `c` has a table entry that steps to its successor. */
  ghost predicate StepsBelow(dirs: seq<Dir>, path: seq<int>, shape: Shape, c: int)
    requires IsTourIndex(path, shape) && |dirs| == |path|
  {
    forall m :: 0 <= m < |path| && path[m] < c ==> StepsFrom(path, shape, m, dirs[path[m]])
  }

  /** Filling entry `c` with the step out of the node of index `c` extends the table by one index. */
  lemma StepsBelowExtend(dirs: seq<Dir>, path: seq<int>, shape: Shape, node: int, dir: Dir)
    requires IsTourIndex(path, shape) && |dirs| == |path| && 0 <= node < |path|
    requires StepsBelow(dirs, path, shape, path[node])
    requires StepsFrom(path, shape, node, dir)
    ensures StepsBelow(dirs[path[node] := dir], path, shape, path[node] + 1)
  {
    var c := path[node];
    var dirs' := dirs[c := dir];
    forall m | 0 <= m < |path| && path[m] < c + 1 ensures StepsFrom(path, shape, m, dirs'[path[m]]) {
      if path[m] < c {
        assert dirs'[path[m]] == dirs[path[m]];
      } else {
        assert m == node;
      }
    }
  }

  /** `create_path_directions`: builds the direction table of a Hamiltonian cycle. */
  method CreatePathDirections(path: seq<int>, shape: Shape) returns (dirs: seq<Dir>)
    requires IsHamiltonCycle(path, shape)
    ensures StepsAlong(dirs, path, shape)
  {
    var n := |path|;
    var pathDirections := new Dir[n](_ => Up);
    var initialId := WhereFirst(path, 0);
    var prevNodeId := initialId;
    for i := 1 to n
      invariant 0 <= prevNodeId < n && path[prevNodeId] == i - 1
      invariant StepsBelow(pathDirections[..], path, shape, i - 1)
    {
      var nodeId := WhereFirst(path, i);
      var dir := GetDirBetween(prevNodeId, nodeId, shape);
      DirBetweenConsecutive(path, shape, prevNodeId, nodeId);
      if dir.Some? {
        StepsBelowExtend(pathDirections[..], path, shape, prevNodeId, dir.value);
        pathDirections[i - 1] := dir.value;
      }
      prevNodeId := nodeId;
    }
    var dir := GetDirBetween(prevNodeId, initialId, shape);
    DirBetweenConsecutive(path, shape, prevNodeId, initialId);
    if dir.Some? {
      StepsBelowExtend(pathDirections[..], path, shape, prevNodeId, dir.value);
      pathDirections[n - 1] := dir.value;
    }
    dirs := pathDirections[..];
  }

  /**
   * The state of the cycle-following policy: the direction table, built on
   * first use and kept afterwards, and the index of the next entry to take.
   */
  class FollowPath {
    var directions: Option<seq<Dir>>
    var dirIndex: int

    ghost predicate Valid()
      reads this
    {
      0 <= dirIndex && (directions.Some? ==> dirIndex < |directions.value|)
    }

    /** The initial state: no table yet, index 0. */
    constructor ()
      ensures Valid() && directions == None && dirIndex == 0
    {
      directions := None;
      dirIndex := 0;
    }

    /**
     * `find_next_dir`: returns the table entry at the current index and
     * advances the index by one, modulo the table's length. The table is
     * built from `path` when there is none yet.
     */
    method FindNextDir(path: seq<int>, shape: Shape) returns (dir: Dir)
      requires Valid() && IsHamiltonCycle(path, shape)
      requires directions.None? ==> dirIndex < |path|
      modifies this
      ensures Valid() && directions.Some?
      ensures old(directions).Some? ==> directions == old(directions)
      ensures old(directions).None? ==> StepsAlong(directions.value, path, shape)
      ensures dir == directions.value[old(dirIndex)]
      ensures dirIndex == NextIndex(old(dirIndex), |directions.value|)
    {
      if directions.None? {
        var created := CreatePathDirections(path, shape);
        directions := Some(created);
      }
      dir := directions.value[dirIndex];
      dirIndex := (dirIndex + 1) % |directions.value|;
    }

    /** `set_path_dir_index`: the index becomes the head's cycle index and the table is dropped. */
    method SetPathDirIndex(snakeHead: int, path: seq<int>)
      requires 0 <= snakeHead < |path| && 0 <= path[snakeHead]
      modifies this
      ensures Valid()
      ensures dirIndex == path[snakeHead] && directions == None
    {
      dirIndex := path[snakeHead];
      directions := None;
    }
  }

  /**
   * Two cycle-following steps in a row: after `set_path_dir_index` at the
   * head, `find_next_dir` leads to the head's cycle successor, and the index
   * it leaves behind is that successor's cycle index.
   */
  method FollowPathFromHead(follow: FollowPath, head: int, path: seq<int>, shape: Shape)
    returns (dir: Dir, next: int)
    requires IsHamiltonCycle(path, shape) && 0 <= head < |path|
    modifies follow
    ensures follow.Valid()
    ensures GetNextNodeId(head, dir, shape) == Some(next)
    ensures path[next] == NextIndex(path[head], |path|)
    ensures follow.dirIndex == path[next]
  {
    follow.SetPathDirIndex(head, path);
    dir := follow.FindNextDir(path, shape);
    assert StepsFrom(path, shape, head, dir);
    next := GetNextNodeId(head, dir, shape).value;
  }

  // ---------------------------------------------------------------------------
  // The shortcut policy

  /** A table of cycle indices in [0, N) and a non-empty body whose head is a node. */
  predicate HeadInput(snake: seq<int>, path: seq<int>, shape: Shape) {
    && ValidShape(shape)
    && |path| == Size(shape)
    && (forall n :: 0 <= n < |path| ==> 0 <= path[n] < |path|)
    && |snake| > 0
    && 0 <= snake[0] < |path|
  }

  /** What `find_next_shortcut_dir` reads: also the tail and the food are nodes. */
  predicate ShortcutInput(snake: seq<int>, food: int, path: seq<int>, shape: Shape) {
    && HeadInput(snake, path, shape)
    && 0 <= snake[|snake| - 1] < |path|
    && 0 <= food < |path|
  }

  /** The cell a move leads to from the head, if it is on the board. */
  function Target(snake: seq<int>, dir: Dir, shape: Shape): Option<int>
    requires |snake| > 0 && snake[0] >= 0 && shape.w >= 1
  {
    GetNextNodeId(snake[0], dir, shape)
  }

  /** A move onto the board and off the body. */
  predicate Legal(snake: seq<int>, dir: Dir, shape: Shape)
    requires |snake| > 0 && snake[0] >= 0 && shape.w >= 1
  {
    Target(snake, dir, shape).Some? && Target(snake, dir, shape).value !in snake
  }

  /** Cycle distance from the head to the cell a legal move leads to. */
  function MoveDist(snake: seq<int>, path: seq<int>, dir: Dir, shape: Shape): int
    requires HeadInput(snake, path, shape) && Legal(snake, dir, shape)
  {
    PathDistance(path[snake[0]], path[Target(snake, dir, shape).value], shape)
  }

  function Clamp(c: int, hi: int): int {
    if c < 0 then 0 else if c > hi then hi else c
  }

  /**
   * The cutting budget: how far ahead along the cycle the head may jump.
   * With the board at least half full it is 0; otherwise it is the tail
   * distance less the body length and a margin of 3, reduced by 1 when the
   * food comes before the tail and by 10 more when the gap from food to tail
   * exceeds a quarter of the empty nodes, and never beyond the food.
   */
  function CuttingBudget(foodDist: int, tailDist: int, snakeSize: int, shapeSize: int): (budget: int)
    requires foodDist >= 0
    ensures 0 <= budget <= foodDist
    ensures 2 * (shapeSize - snakeSize) < shapeSize ==> budget == 0
    ensures 2 * (shapeSize - snakeSize) >= shapeSize && foodDist >= tailDist ==>
              budget == Clamp(tailDist - snakeSize - 3, foodDist)
    ensures 2 * (shapeSize - snakeSize) >= shapeSize && foodDist < tailDist &&
            (tailDist - foodDist) * 4 <= shapeSize - snakeSize ==>
              budget == Clamp(tailDist - snakeSize - 4, foodDist)
    ensures 2 * (shapeSize - snakeSize) >= shapeSize && foodDist < tailDist &&
            (tailDist - foodDist) * 4 > shapeSize - snakeSize ==>
              budget == Clamp(tailDist - snakeSize - 14, foodDist)
  {
    var available := tailDist - snakeSize - 3;
    var emptyNodes := shapeSize - snakeSize;
    var available :=
      if 2 * emptyNodes < shapeSize then 0
      else if foodDist < tailDist then
        available - 1 - (if (tailDist - foodDist) * 4 > emptyNodes then 10 else 0)
      else available;
    var available := if foodDist < available then foodDist else available;
    if available < 0 then 0 else available
  }

  /** The budget for a given body, food and cycle. */
  function Budget(snake: seq<int>, food: int, path: seq<int>, shape: Shape): int
    requires ShortcutInput(snake, food, path, shape)
  {
    var pathNode := path[snake[0]];
    var foodDist := PathDistance(pathNode, path[food], shape);
    var tailDist := PathDistance(pathNode, path[snake[|snake| - 1]], shape);
    CuttingBudget(foodDist, tailDist, |snake|, Size(shape))
  }

  /** A legal move whose cycle distance stays within the budget. */
  predicate Fits(snake: seq<int>, food: int, path: seq<int>, shape: Shape, dir: Dir)
    requires ShortcutInput(snake, food, path, shape)
  {
    Legal(snake, dir, shape) && MoveDist(snake, path, dir, shape) <= Budget(snake, food, path, shape)
  }

  /** The fitting move that goes farthest; on equal distance the earliest in Up, Right, Down, Left. */
  predicate BestFit(snake: seq<int>, food: int, path: seq<int>, shape: Shape, dir: Dir)
    requires ShortcutInput(snake, food, path, shape)
  {
    && Fits(snake, food, path, shape, dir)
    && forall e :: Fits(snake, food, path, shape, e) ==>
         || MoveDist(snake, path, e, shape) < MoveDist(snake, path, dir, shape)
         || (MoveDist(snake, path, e, shape) == MoveDist(snake, path, dir, shape) && dir.Value() <= e.Value())
  }

  /** The inner `can_go`: a step from the head position that stays on the board and off the body. */
  function CanGo(snake: seq<int>, headPos: Pos, dir: Dir, shape: Shape): (r: bool)
    requires |snake| > 0 && snake[0] >= 0 && shape.w >= 1
    requires headPos == GetNodePos(snake[0], shape)
    ensures r == Legal(snake, dir, shape)
  {
    var next := GetNextPos(headPos, dir);
    if IsOutOfBounds(next, shape) then false
    else GetNodeId(next, shape).value !in snake
  }

  lemma AllDirsAt(i: nat)
    requires i < 4
    ensures AllDirs[i] == DirOf(i)
  {
  }

  /**
   * The state of the first scan after the directions of value below `i`:
   * `bestDir` is the fitting move among them with the largest distance,
   * the earliest on ties, and `bestDist` its distance; -1 and None when
   * none of them fits.
   */
  ghost predicate BestAmong(snake: seq<int>, food: int, path: seq<int>, shape: Shape,
                            i: int, bestDir: Option<Dir>, bestDist: int)
    requires ShortcutInput(snake, food, path, shape)
  {
    && (bestDir.None? ==> bestDist == -1 && forall d: Dir :: d.Value() < i ==> !Fits(snake, food, path, shape, d))
    && (bestDir.Some? ==>
          && Fits(snake, food, path, shape, bestDir.value)
          && MoveDist(snake, path, bestDir.value, shape) == bestDist
          && bestDir.value.Value() < i
          && forall d: Dir :: d.Value() < i && Fits(snake, food, path, shape, d) ==>
               || MoveDist(snake, path, d, shape) < bestDist
               || (MoveDist(snake, path, d, shape) == bestDist && bestDir.value.Value() <= d.Value()))
  }

  /** One step of the first scan: direction `i` replaces the best only when it fits and goes strictly farther. */
  lemma BestAmongStep(snake: seq<int>, food: int, path: seq<int>, shape: Shape, i: nat,
                      bestDir: Option<Dir>, bestDist: int, bestDir': Option<Dir>, bestDist': int)
    requires ShortcutInput(snake, food, path, shape) && i < 4
    requires BestAmong(snake, food, path, shape, i, bestDir, bestDist)
    requires Fits(snake, food, path, shape, DirOf(i)) && MoveDist(snake, path, DirOf(i), shape) > bestDist ==>
               bestDir' == Some(DirOf(i)) && bestDist' == MoveDist(snake, path, DirOf(i), shape)
    requires !(Fits(snake, food, path, shape, DirOf(i)) && MoveDist(snake, path, DirOf(i), shape) > bestDist) ==>
               bestDir' == bestDir && bestDist' == bestDist
    ensures BestAmong(snake, food, path, shape, i + 1, bestDir', bestDist')
  {
  }

  /** After all four directions the scan's best is `BestFit`, and none exactly when no move fits. */
  lemma BestAmongDone(snake: seq<int>, food: int, path: seq<int>, shape: Shape,
                      bestDir: Option<Dir>, bestDist: int)
    requires ShortcutInput(snake, food, path, shape)
    requires BestAmong(snake, food, path, shape, 4, bestDir, bestDist)
    ensures bestDist >= 0 <==> exists d :: Fits(snake, food, path, shape, d)
    ensures bestDist >= 0 ==> bestDir.Some? && BestFit(snake, food, path, shape, bestDir.value)
  {
    if bestDir.Some? {
      assert Fits(snake, food, path, shape, bestDir.value);
    }
  }

  /**
   * The first scan of `find_next_shortcut_dir`: over Up, Right, Down, Left,
   * keeps the legal move with the largest cycle distance within the budget,
   * replacing it only on a strictly larger distance. `bestDist` is -1 when
   * no move fits.
   */
  method FarthestFittingDir(snake: seq<int>, food: int, path: seq<int>, shape: Shape,
                            headPos: Pos, pathNode: int, available: int)
    returns (bestDir: Option<Dir>, bestDist: int)
    requires ShortcutInput(snake, food, path, shape)
    requires headPos == GetNodePos(snake[0], shape) && pathNode == path[snake[0]]
    requires available == Budget(snake, food, path, shape)
    ensures bestDist >= 0 <==> exists d :: Fits(snake, food, path, shape, d)
    ensures bestDist >= 0 ==> bestDir.Some? && BestFit(snake, food, path, shape, bestDir.value)
  {
    var dirArray := GetDirArray(Up, 0);
    DefaultDirArray();
    bestDir := None;
    bestDist := -1;
    var i := 0;
    while i < |dirArray|
      invariant 0 <= i <= 4
      invariant BestAmong(snake, food, path, shape, i, bestDir, bestDist)
    {
      ghost var prevDir, prevDist := bestDir, bestDist;
      var dir := dirArray[i];
      AllDirsAt(i);
      if CanGo(snake, headPos, dir, shape) {
        var nextNode := GetNextPos(headPos, dir);
        var nextNodeId := GetNodeId(nextNode, shape).value;
        var dist := PathDistance(pathNode, path[nextNodeId], shape);
        assert dist == MoveDist(snake, path, dir, shape);
        if dist <= available && dist > bestDist {
          bestDir := Some(dir);
          bestDist := dist;
        }
      }
      BestAmongStep(snake, food, path, shape, i, prevDir, prevDist, bestDir, bestDist);
      i := i + 1;
    }
    BestAmongDone(snake, food, path, shape, bestDir, bestDist);
  }

  /** The fallback scan of `find_next_shortcut_dir`: the first legal move in the order Up, Right, Down, Left. */
  method FirstLegalDir(snake: seq<int>, shape: Shape, headPos: Pos) returns (r: Option<Dir>)
    requires |snake| > 0 && snake[0] >= 0 && shape.w >= 1
    requires headPos == GetNodePos(snake[0], shape)
    ensures r.None? <==> forall d :: !Legal(snake, d, shape)
    ensures r.Some? ==> Legal(snake, r.value, shape)
    ensures r.Some? ==> forall d :: Legal(snake, d, shape) ==> r.value.Value() <= d.Value()
  {
    var dirArray := GetDirArray(Up, 0);
    DefaultDirArray();
    var i := 0;
    while i < |dirArray|
      invariant 0 <= i <= 4
      invariant forall d: Dir :: d.Value() < i ==> !Legal(snake, d, shape)
    {
      var dir := dirArray[i];
      AllDirsAt(i);
      if CanGo(snake, headPos, dir, shape) {
        return Some(dir);
      }
      i := i + 1;
    }
    return None;
  }

  /**
   * `find_next_shortcut_dir`. A move is returned exactly when some
   * neighbour of the head is on the board and off the body, and it is
   * such a move. When some legal move fits the budget, the result is the
   * one farthest along the cycle, ties going to the earliest of Up, Right,
   * Down, Left; otherwise it is the earliest legal move in that order.
   */
  method FindNextShortcutDir(snake: seq<int>, food: int, path: seq<int>, shape: Shape)
    returns (r: Option<Dir>)
    requires ShortcutInput(snake, food, path, shape)
    ensures r.Some? ==> Legal(snake, r.value, shape)
    ensures r.None? <==> forall d :: !Legal(snake, d, shape)
    ensures (exists d :: Fits(snake, food, path, shape, d)) ==>
              r.Some? && BestFit(snake, food, path, shape, r.value)
    ensures (forall d :: !Fits(snake, food, path, shape, d)) && r.Some? ==>
              forall d :: Legal(snake, d, shape) ==> r.value.Value() <= d.Value()
  {
    var shapeSize := shape.w * shape.h;
    var snakeSize := |snake|;
    var headPos := GetNodePos(snake[0], shape);
    var tail := snake[|snake| - 1];
    var pathNode := path[snake[0]];
    var foodDist := PathDistance(pathNode, path[food], shape);
    var tailDist := PathDistance(pathNode, path[tail], shape);
    var available := CuttingBudget(foodDist, tailDist, snakeSize, shapeSize);
    assert available == Budget(snake, food, path, shape);

    var bestDir, bestDist := FarthestFittingDir(snake, food, path, shape, headPos, pathNode, available);
    if bestDist >= 0 {
      return bestDir;
    }
    r := FirstLegalDir(snake, shape, headPos);
  }

  /**
   * With the board at least half full the budget is 0, so a move that fits
   * it goes to the head's cycle successor.
   */
  lemma CrowdedFitIsCycleSuccessor(snake: seq<int>, food: int, path: seq<int>, shape: Shape, dir: Dir)
    requires ShortcutInput(snake, food, path, shape)
    requires 2 * (Size(shape) - |snake|) < Size(shape)
    requires Fits(snake, food, path, shape, dir)
    ensures path[Target(snake, dir, shape).value] == NextIndex(path[snake[0]], |path|)
  {
    assert Budget(snake, food, path, shape) == 0;
    PathDistanceZero(path[snake[0]], path[Target(snake, dir, shape).value], shape);
  }

  /**
   * On a crowded board a fitting shortcut move is exactly the move the
   * cycle-following table prescribes at the head's cycle index.
   */
  lemma CrowdedShortcutFollowsCycle(
    snake: seq<int>, food: int, path: seq<int>, shape: Shape, dirs: seq<Dir>, dir: Dir)
    requires IsHamiltonCycle(path, shape) && StepsAlong(dirs, path, shape)
    requires ShortcutInput(snake, food, path, shape)
    requires 2 * (Size(shape) - |snake|) < Size(shape)
    requires Fits(snake, food, path, shape, dir)
    ensures dir == dirs[path[snake[0]]]
  {
    var head := snake[0];
    var follow := dirs[path[head]];
    assert StepsFrom(path, shape, head, follow);
    CrowdedFitIsCycleSuccessor(snake, food, path, shape, dir);
    var a := Target(snake, dir, shape).value;
    var b := GetNextNodeId(head, follow, shape).value;
    var p := GetNodePos(head, shape);
    assert GetNextPos(p, dir) == GetNodePos(a, shape);
    assert GetNextPos(p, follow) == GetNodePos(b, shape);
    NextPosInjective(p, dir, follow);
  }
}
