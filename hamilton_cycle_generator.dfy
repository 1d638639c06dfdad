/**
 * The recursive maze walk that marks, for every cell of a W×H grid, the
 * direction of the step through which it was first entered. A cell's mask
 * is a byte whose bit `d` stands for direction `d`; 0 means "not visited".
 *
 * This module has its own direction enum: Up = 0, Down = 1, Left = 2,
 * Right = 3, and Up increases y. Cell (x, y) is square `x + y·W`. The two
 * random picks of each visit are drawn from the oracle `rng`, one draw per
 * counter value, so every property below holds whatever the draws are.
 */
module HamiltonCycleGenerator {

  import opened Arith

  /** The four directions with their bit numbers. */
  datatype Dir = Up | Down | Left | Right {

    function Value(): (v: nat)
      ensures v < 4
    {
      match this
      case Up => 0
      case Down => 1
      case Left => 2
      case Right => 3
    }
  }

  /** `np.array(Dir)`: the directions in declaration order. */
  const Directions: seq<Dir> := [Up, Down, Left, Right]

  /**
   * `get_next_pos`: one step from (x, y); Up and Down change only y (Up
   * increases it), Left and Right change only x (Right increases it).
   */
  function GetNextPos(x: int, y: int, d: Dir): (r: (int, int))
    ensures d == Up <==> r.1 > y
    ensures d == Down <==> r.1 < y
    ensures d == Right <==> r.0 > x
    ensures d == Left <==> r.0 < x
    ensures r.0 == x || r.1 == y
    ensures -1 <= r.0 - x <= 1 && -1 <= r.1 - y <= 1
  {
    match d
    case Up => (x, y + 1)
    case Down => (x, y - 1)
    case Left => (x - 1, y)
    case Right => (x + 1, y)
  }

  /** `is_dir`: whether bit `d` of the mask is set, i.e. the mask shares that bit. */
  function IsDir(mask: bv8, d: Dir): (r: bool)
    ensures r <==> mask & (1 << d.Value()) != 0
  {
    (mask >> d.Value()) & 1 == 1
  }

  /** `set_dir`: sets bit `d`; every other direction, and the unused high bits, keep their state. */
  function SetDir(mask: bv8, d: Dir): (r: bv8)
    ensures IsDir(r, d)
    ensures forall e :: e != d ==> IsDir(r, e) == IsDir(mask, e)
    ensures r >> 4 == mask >> 4
  {
    mask | (1 << d.Value())
  }

  /** How many of the four direction bits are set. */
  function CountDirs(mask: bv8): (n: nat)
    ensures n <= 4
  {
    (if IsDir(mask, Up) then 1 else 0) + (if IsDir(mask, Down) then 1 else 0) +
    (if IsDir(mask, Left) then 1 else 0) + (if IsDir(mask, Right) then 1 else 0)
  }

  /** A mask that holds exactly one direction and nothing in the unused high bits. */
  predicate IsSingleDir(mask: bv8) {
    mask >> 4 == 0 && CountDirs(mask) == 1
  }

  /** Setting one direction on the empty mask gives a mask holding that direction alone. */
  lemma SetDirOnEmpty(d: Dir)
    ensures IsSingleDir(SetDir(0, d))
    ensures forall e :: IsDir(SetDir(0, d), e) <==> e == d
  {
    var r := SetDir(0, d);
    assert forall e :: !IsDir(0, e);
    assert forall e :: IsDir(r, e) <==> e == d;
  }

  /** A single-direction mask is not the empty mask. */
  lemma SingleDirNonZero(mask: bv8)
    ensures IsSingleDir(mask) ==> mask != 0
  {
    assert CountDirs(0) == 0;
  }

  /** `get_square`: the square of cell (x, y), row by row. */
  function GetSquare(x: int, y: int, w: int): (r: int)
    ensures 0 <= x < w && 0 <= y ==> 0 <= r && r % w == x && r / w == y
  {
    if 0 <= x < w && 0 <= y then
      DivModOfRowMajor(x, y, w);
      x + y * w
    else
      x + y * w
  }

  predicate InBounds(x: int, y: int, w: int, h: int) {
    0 <= x < w && 0 <= y < h
  }

  /**
   * `get_square` numbers the cells of a W×H grid one to one: every cell
   * gets a square in [0, W·H), and its column and row are recovered from it.
   */
  lemma GetSquareBijective(x: int, y: int, w: int, h: int)
    requires InBounds(x, y, w, h)
    ensures 0 <= GetSquare(x, y, w) < w * h
    ensures GetSquare(x, y, w) % w == x && GetSquare(x, y, w) / w == y
  {
    RowMajorInRange(x, y, w, h);
    DivModOfRowMajor(x, y, w);
  }

  /** Two in-bounds cells with the same square are the same cell. */
  lemma GetSquareInjective(x: int, y: int, x': int, y': int, w: int, h: int)
    requires InBounds(x, y, w, h) && InBounds(x', y', w, h)
    requires GetSquare(x, y, w) == GetSquare(x', y', w)
    ensures x == x' && y == y'
  {
    GetSquareBijective(x, y, w, h);
    GetSquareBijective(x', y', w, h);
  }

  // ---------------------------------------------------------------------------
  // Mask tables

  /** Every mask is empty or holds a single direction. */
  predicate AllMasksOk(s: seq<bv8>) {
    forall i :: 0 <= i < |s| ==> s[i] == 0 || IsSingleDir(s[i])
  }

  /** The squares not visited yet. */
  ghost function ZeroIdx(s: seq<bv8>): set<int> {
    set i | 0 <= i < |s| && s[i] == 0
  }

  /** Visited cells keep their masks from `a` to `b`. */
  predicate Mono(a: seq<bv8>, b: seq<bv8>) {
    |a| == |b| && forall i :: 0 <= i < |a| && a[i] != 0 ==> b[i] == a[i]
  }

  /** The mask of in-bounds cell (x, y). */
  function MaskAt(s: seq<bv8>, w: int, h: int, x: int, y: int): bv8
    requires |s| == w * h && InBounds(x, y, w, h)
  {
    GetSquareBijective(x, y, w, h);
    s[GetSquare(x, y, w)]
  }

  /** Cell (x, y) is off the grid or visited. */
  predicate Marked(s: seq<bv8>, w: int, h: int, x: int, y: int)
    requires |s| == w * h
  {
    !InBounds(x, y, w, h) || MaskAt(s, w, h, x, y) != 0
  }

  /** All four neighbours of (x, y) are off the grid or visited. */
  predicate NeighboursMarked(s: seq<bv8>, w: int, h: int, x: int, y: int)
    requires |s| == w * h
  {
    && Marked(s, w, h, x, y + 1)
    && Marked(s, w, h, x, y - 1)
    && Marked(s, w, h, x - 1, y)
    && Marked(s, w, h, x + 1, y)
  }

  /** Cell (x, y) is on the grid, unvisited in `a` and visited in `b`. */
  predicate Newly(a: seq<bv8>, b: seq<bv8>, w: int, h: int, x: int, y: int)
    requires |a| == w * h && |b| == w * h
  {
    InBounds(x, y, w, h) && MaskAt(a, w, h, x, y) == 0 && MaskAt(b, w, h, x, y) != 0
  }

  /** Every cell visited between `a` and `b` has all its neighbours visited in `b`. */
  ghost predicate Closed(a: seq<bv8>, b: seq<bv8>, w: int, h: int)
    requires |a| == w * h && |b| == w * h
  {
    forall x, y :: Newly(a, b, w, h, x, y) ==> NeighboursMarked(b, w, h, x, y)
  }

  /** Visited cells stay visited. */
  lemma MarkedMono(a: seq<bv8>, b: seq<bv8>, w: int, h: int, x: int, y: int)
    requires |a| == w * h && Mono(a, b) && Marked(a, w, h, x, y)
    ensures Marked(b, w, h, x, y)
  {
    if InBounds(x, y, w, h) {
      GetSquareBijective(x, y, w, h);
    }
  }

  /** Neighbours visited in `a` are still visited in `b`. */
  lemma NeighboursMono(a: seq<bv8>, b: seq<bv8>, w: int, h: int, x: int, y: int)
    requires |a| == w * h && Mono(a, b)
    ensures Marked(a, w, h, x, y + 1) ==> Marked(b, w, h, x, y + 1)
    ensures Marked(a, w, h, x, y - 1) ==> Marked(b, w, h, x, y - 1)
    ensures Marked(a, w, h, x - 1, y) ==> Marked(b, w, h, x - 1, y)
    ensures Marked(a, w, h, x + 1, y) ==> Marked(b, w, h, x + 1, y)
  {
    if Marked(a, w, h, x, y + 1) { MarkedMono(a, b, w, h, x, y + 1); }
    if Marked(a, w, h, x, y - 1) { MarkedMono(a, b, w, h, x, y - 1); }
    if Marked(a, w, h, x - 1, y) { MarkedMono(a, b, w, h, x - 1, y); }
    if Marked(a, w, h, x + 1, y) { MarkedMono(a, b, w, h, x + 1, y); }
  }

  /** Closure composes along a run in which visited cells keep their masks. */
  lemma ClosedTrans(a: seq<bv8>, b: seq<bv8>, c: seq<bv8>, w: int, h: int)
    requires |a| == w * h && |b| == w * h && |c| == w * h
    requires Mono(a, b) && Mono(b, c)
    requires Closed(a, b, w, h) && Closed(b, c, w, h)
    ensures Mono(a, c) && Closed(a, c, w, h)
  {
    forall x, y | Newly(a, c, w, h, x, y) ensures NeighboursMarked(c, w, h, x, y) {
      GetSquareBijective(x, y, w, h);
      if Newly(a, b, w, h, x, y) {
        MarkedMono(b, c, w, h, x, y + 1);
        MarkedMono(b, c, w, h, x, y - 1);
        MarkedMono(b, c, w, h, x - 1, y);
        MarkedMono(b, c, w, h, x + 1, y);
      } else {
        assert Newly(b, c, w, h, x, y);
      }
    }
  }

  /** Masks that only get set leave fewer unvisited squares. */
  lemma ZeroIdxMono(a: seq<bv8>, b: seq<bv8>)
    requires Mono(a, b)
    ensures ZeroIdx(b) <= ZeroIdx(a)
  {
  }

  /**
   * Writing a mask on an unvisited square keeps every visited mask, and a
   * non-zero mask takes the square off the unvisited set.
   */
  lemma VisitSquare(a: seq<bv8>, i: int, v: bv8)
    requires 0 <= i < |a| && a[i] == 0
    ensures Mono(a, a[i := v])
    ensures ZeroIdx(a[i := v]) <= ZeroIdx(a)
    ensures v != 0 ==> i in ZeroIdx(a) - ZeroIdx(a[i := v])
  {
  }

  /**
   * Writing cell (x, y) and then running a closed, mask-keeping walk is
   * closed as a whole once the cell's neighbours are all visited.
   */
  lemma ClosedAfterVisit(a: seq<bv8>, b: seq<bv8>, c: seq<bv8>, w: int, h: int, x: int, y: int)
    requires |a| == w * h && |b| == w * h && InBounds(x, y, w, h)
    requires forall i :: 0 <= i < |a| && i != GetSquare(x, y, w) ==> b[i] == a[i]
    requires Mono(b, c) && Closed(b, c, w, h)
    requires NeighboursMarked(c, w, h, x, y)
    ensures Closed(a, c, w, h)
  {
    forall x', y' | Newly(a, c, w, h, x', y') ensures NeighboursMarked(c, w, h, x', y') {
      GetSquareBijective(x', y', w, h);
      if (x', y') != (x, y) {
        if GetSquare(x', y', w) == GetSquare(x, y, w) {
          GetSquareInjective(x, y, x', y', w, h);
        }
        assert Newly(b, c, w, h, x', y');
      }
    }
  }

  /**
   * The state of the fixed-order loop after `k` directions: masks are
   * well formed, visited masks are kept, the run since the cell was
   * written is closed, and the first `k` neighbours are visited.
   */
  ghost predicate Explored(visited: seq<bv8>, t: seq<bv8>, w: int, h: int, x: int, y: int, k: int) {
    && |visited| == w * h && |t| == w * h
    && AllMasksOk(t) && Mono(visited, t) && Closed(visited, t, w, h)
    && (k > 0 ==> Marked(t, w, h, x, y + 1))
    && (k > 1 ==> Marked(t, w, h, x, y - 1))
    && (k > 2 ==> Marked(t, w, h, x - 1, y))
    && (k > 3 ==> Marked(t, w, h, x + 1, y))
  }

  /** A step of the random loop: a closed, mask-keeping call keeps the loop's state. */
  lemma ExploredKeep(visited: seq<bv8>, before: seq<bv8>, after: seq<bv8>, w: int, h: int, x: int, y: int)
    requires Explored(visited, before, w, h, x, y, 0)
    requires |after| == w * h && AllMasksOk(after)
    requires Mono(before, after) && Closed(before, after, w, h)
    ensures Explored(visited, after, w, h, x, y, 0)
  {
    ClosedTrans(visited, before, after, w, h);
  }

  /** One step of the fixed-order loop: a closed, mask-keeping call that visits neighbour `k`. */
  lemma ExploredStep(visited: seq<bv8>, before: seq<bv8>, after: seq<bv8>, w: int, h: int, x: int, y: int, k: int)
    requires 0 <= k < 4 && Explored(visited, before, w, h, x, y, k)
    requires |after| == w * h && AllMasksOk(after)
    requires Mono(before, after) && Closed(before, after, w, h)
    requires Marked(after, w, h, GetNextPos(x, y, Directions[k]).0, GetNextPos(x, y, Directions[k]).1)
    ensures Explored(visited, after, w, h, x, y, k + 1)
  {
    ClosedTrans(visited, before, after, w, h);
    NeighboursMono(before, after, w, h, x, y);
  }

  // ---------------------------------------------------------------------------
  // The walk

  /**
   * `generate_r`. Off the grid, or on a visited cell, nothing changes. On
   * an unvisited cell entered from a real parent (fromX ≠ -1) the mask
   * becomes the single direction of the step from the parent into the
   * cell; the root call (fromX = -1) writes 0, so the root stays open until
   * a neighbour walks back into it. Then the walk moves on from the cell
   * (`Explore`). Visited masks are never overwritten, and every cell the
   * call visits, this one included, ends with all its neighbours visited.
   */
  method GenerateR(fromX: int, fromY: int, x: int, y: int, w: int, h: int,
                   transitions: array<bv8>, rng: nat -> Dir, draws: nat)
    returns (drawsAfter: nat)
    requires w >= 1 && h >= 1 && transitions.Length == w * h
    requires fromX == -1 || exists d :: GetNextPos(fromX, fromY, d) == (x, y)
    requires AllMasksOk(transitions[..])
    modifies transitions
    decreases ZeroIdx(transitions[..]), if fromX == -1 then 2 else 0
    ensures AllMasksOk(transitions[..])
    ensures Mono(old(transitions[..]), transitions[..])
    ensures Closed(old(transitions[..]), transitions[..], w, h)
    ensures !InBounds(x, y, w, h) ==> transitions[..] == old(transitions[..])
    ensures InBounds(x, y, w, h) && MaskAt(old(transitions[..]), w, h, x, y) != 0 ==>
              transitions[..] == old(transitions[..])
    ensures InBounds(x, y, w, h) && MaskAt(old(transitions[..]), w, h, x, y) == 0 && fromX != -1 ==>
              && IsSingleDir(MaskAt(transitions[..], w, h, x, y))
              && forall d :: IsDir(MaskAt(transitions[..], w, h, x, y), d) <==> GetNextPos(fromX, fromY, d) == (x, y)
    ensures InBounds(x, y, w, h) && MaskAt(old(transitions[..]), w, h, x, y) == 0 ==>
              NeighboursMarked(transitions[..], w, h, x, y)
    ensures w == 1 && h == 1 && fromX == -1 ==> transitions[..] == old(transitions[..])
  {
    drawsAfter := draws;
    if x < 0 || y < 0 || x >= w || y >= h {
      return;
    }
    GetSquareBijective(x, y, w, h);
    var square := GetSquare(x, y, w);
    var trans := transitions[square];
    if trans != 0 {
      return;
    }

    if fromX != -1 {
      if fromX > x { trans := SetDir(trans, Left); }
      if fromX < x { trans := SetDir(trans, Right); }
      if fromY > y { trans := SetDir(trans, Down); }
      if fromY < y { trans := SetDir(trans, Up); }
      assert IsSingleDir(trans) && forall d :: IsDir(trans, d) <==> GetNextPos(fromX, fromY, d) == (x, y) by {
        var d :| GetNextPos(fromX, fromY, d) == (x, y);
        SetDirOnEmpty(d);
      }
    }
    transitions[square] := trans;
    ghost var visited := transitions[..];
    assert visited == old(transitions[..])[square := trans];
    if fromX != -1 {
      SingleDirNonZero(trans);
    }
    VisitSquare(old(transitions[..]), square, trans);

    drawsAfter := Explore(x, y, w, h, transitions, rng, drawsAfter, visited);
    ClosedAfterVisit(old(transitions[..]), visited, transitions[..], w, h, x, y);
  }

  /**
   * The two loops of `generate_r` after cell (x, y) is written: two steps
   * in directions drawn from `rng`, then one step in each of Up, Down,
   * Left, Right. `visited` is the table just after the cell was written;
   * afterwards every neighbour of the cell is visited and the run since
   * `visited` keeps masks and is closed.
   */
  method Explore(x: int, y: int, w: int, h: int, transitions: array<bv8>,
                 rng: nat -> Dir, draws: nat, ghost visited: seq<bv8>)
    returns (drawsAfter: nat)
    requires w >= 1 && h >= 1 && transitions.Length == w * h && InBounds(x, y, w, h)
    requires transitions[..] == visited && Explored(visited, visited, w, h, x, y, 0)
    modifies transitions
    decreases ZeroIdx(visited), 1
    ensures Explored(visited, transitions[..], w, h, x, y, 4)
    ensures w == 1 && h == 1 ==> transitions[..] == visited
  {
    drawsAfter := draws;
    var directionsArray := Directions;
    for i := 0 to 2
      invariant Explored(visited, transitions[..], w, h, x, y, 0)
      invariant w == 1 && h == 1 ==> transitions[..] == visited
    {
      var dir := rng(drawsAfter);
      drawsAfter := drawsAfter + 1;
      var (nextX, nextY) := GetNextPos(x, y, dir);
      ghost var before := transitions[..];
      ZeroIdxMono(visited, before);
      drawsAfter := GenerateR(x, y, nextX, nextY, w, h, transitions, rng, drawsAfter);
      ExploredKeep(visited, before, transitions[..], w, h, x, y);
    }

    for i := 0 to |directionsArray|
      invariant Explored(visited, transitions[..], w, h, x, y, i)
      invariant w == 1 && h == 1 ==> transitions[..] == visited
    {
      var dir := directionsArray[i];
      var (nextX, nextY) := GetNextPos(x, y, dir);
      ghost var before := transitions[..];
      ZeroIdxMono(visited, before);
      drawsAfter := GenerateR(x, y, nextX, nextY, w, h, transitions, rng, drawsAfter);
      assert Marked(transitions[..], w, h, nextX, nextY) by {
        if InBounds(nextX, nextY, w, h) {
          SingleDirNonZero(MaskAt(transitions[..], w, h, nextX, nextY));
        }
      }
      ExploredStep(visited, before, transitions[..], w, h, x, y, i);
    }
  }

  // ---------------------------------------------------------------------------
  // The top-level call

  /** Square `i` of a W×H grid is the square of cell (i mod W, i div W). */
  lemma SquareCell(i: int, w: int, h: int)
    requires w >= 1 && 0 <= i < w * h
    ensures InBounds(i % w, i / w, w, h) && GetSquare(i % w, i / w, w) == i
  {
    QuotientBelow(i, w, h);
  }

  /**
   * After a closed walk from an all-zero table that leaves the root's
   * neighbours visited, the root is visited too once the grid has a second
   * cell: that cell is a neighbour of the root, and it was visited with
   * all its own neighbours.
   */
  lemma RootVisited(zeros: seq<bv8>, t: seq<bv8>, w: int, h: int)
    requires w >= 1 && h >= 1 && w * h >= 2
    requires |zeros| == w * h && |t| == w * h
    requires forall i :: 0 <= i < |zeros| ==> zeros[i] == 0
    requires Closed(zeros, t, w, h) && NeighboursMarked(t, w, h, 0, 0)
    ensures MaskAt(t, w, h, 0, 0) != 0
  {
    if w >= 2 {
      VisitedNeighbours(zeros, t, w, h, 1, 0);
    } else {
      VisitedNeighbours(zeros, t, w, h, 0, 1);
    }
  }

  /** A cell visited since the all-zero table has all its neighbours visited. */
  lemma VisitedNeighbours(zeros: seq<bv8>, t: seq<bv8>, w: int, h: int, x: int, y: int)
    requires |zeros| == w * h && |t| == w * h
    requires forall i :: 0 <= i < |zeros| ==> zeros[i] == 0
    requires Closed(zeros, t, w, h)
    requires InBounds(x, y, w, h) && MaskAt(t, w, h, x, y) != 0
    ensures NeighboursMarked(t, w, h, x, y)
  {
    GetSquareBijective(x, y, w, h);
    assert Newly(zeros, t, w, h, x, y);
  }

  /**
   * Every cell is reached: by induction on x + y, the cell to the left of
   * (x, y), or below it on the first column, is visited, so all its
   * neighbours are, (x, y) among them.
   */
  lemma {:induction false} EveryCellVisited(zeros: seq<bv8>, t: seq<bv8>, w: int, h: int, x: int, y: int)
    requires w >= 1 && h >= 1 && w * h >= 2 && InBounds(x, y, w, h)
    requires |zeros| == w * h && |t| == w * h
    requires forall i :: 0 <= i < |zeros| ==> zeros[i] == 0
    requires Closed(zeros, t, w, h) && NeighboursMarked(t, w, h, 0, 0)
    ensures MaskAt(t, w, h, x, y) != 0
    decreases x + y
  {
    if x == 0 && y == 0 {
      RootVisited(zeros, t, w, h);
    } else if x > 0 {
      EveryCellVisited(zeros, t, w, h, x - 1, y);
      VisitedNeighbours(zeros, t, w, h, x - 1, y);
    } else {
      EveryCellVisited(zeros, t, w, h, x, y - 1);
      VisitedNeighbours(zeros, t, w, h, x, y - 1);
    }
  }

  /**
   * The top-level call of `generate` on a W×H board: a table of
   * (W/2)·(H/2) empty masks walked from the root cell (0, 0). Once the
   * half-resolution grid has two cells, every cell ends with exactly one
   * direction, whatever the random draws; a single cell (a 2×2 board) has
   * no neighbour to come from and keeps its empty mask.
   */
  method Generate(w: int, h: int, rng: nat -> Dir) returns (transitions: array<bv8>)
    requires w >= 2 && h >= 2 && w % 2 == 0 && h % 2 == 0
    ensures transitions.Length == (w / 2) * (h / 2)
    ensures (w / 2) * (h / 2) >= 2 ==>
              forall i :: 0 <= i < transitions.Length ==> IsSingleDir(transitions[i])
    ensures (w / 2) * (h / 2) == 1 ==> transitions[0] == 0
  {
    var halfW := w / 2;
    var halfH := h / 2;
    transitions := new bv8[halfW * halfH](_ => 0);
    ghost var zeros := transitions[..];
    var drawsUsed := GenerateR(-1, -1, 0, 0, halfW, halfH, transitions, rng, 0);
    if halfW * halfH >= 2 {
      forall i | 0 <= i < transitions.Length ensures IsSingleDir(transitions[i]) {
        SquareCell(i, halfW, halfH);
        EveryCellVisited(zeros, transitions[..], halfW, halfH, i % halfW, i / halfW);
      }
    }
  }
}
