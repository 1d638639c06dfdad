/**
 * Grid and direction primitives of the snake board.
 *
 * A board of shape H×W holds the nodes 0 .. H·W-1; node `id` sits at
 * column `id % W`, row `id / W`, so `id = x + y·W`. Rows grow downward:
 * Up decreases y. Cycle indices (positions along the Hamiltonian tour)
 * are compared with `PathDistance`.
 */
module Nav {

  import opened Wrappers
  import opened Arith
  import opened NumpyOps

  /** The four moves, in the fixed order Up, Right, Down, Left used for tie-breaks. */
  datatype Dir = Up | Right | Down | Left {

    /** The enum value, which is also the bit the direction occupies in a mask. */
    function Value(): (v: nat)
      ensures v < 4
    {
      match this
      case Up => 0
      case Right => 1
      case Down => 2
      case Left => 3
    }
  }

  /** `Dir(v)`: the direction whose enum value is `v`. */
  function DirOf(v: nat): (d: Dir)
    requires v < 4
    ensures d.Value() == v
  {
    if v == 0 then Up else if v == 1 then Right else if v == 2 then Down else Left
  }

  /** `np.array(Dir)`: the directions in declaration order. */
  const AllDirs: seq<Dir> := [Up, Right, Down, Left]

  datatype Pos = Pos(x: int, y: int)

  /** Node shape: `h` rows of `w` nodes. */
  datatype Shape = Shape(h: int, w: int)

  predicate ValidShape(shape: Shape) {
    shape.h >= 1 && shape.w >= 1
  }

  /** N, the number of nodes on the board. */
  function Size(shape: Shape): int {
    shape.w * shape.h
  }

  /** Two cells that share a side. */
  predicate Adjacent(a: Pos, b: Pos) {
    || (a.x == b.x && (a.y == b.y + 1 || b.y == a.y + 1))
    || (a.y == b.y && (a.x == b.x + 1 || b.x == a.x + 1))
  }

  /** The offset table of `get_next_pos`. */
  function Offset(d: Dir): Pos {
    match d
    case Up => Pos(0, -1)
    case Right => Pos(1, 0)
    case Down => Pos(0, 1)
    case Left => Pos(-1, 0)
  }

  /**
   * One step from `p`: the result shares a side with `p`, and which
   * coordinate grows or shrinks names the direction.
   */
  function GetNextPos(p: Pos, d: Dir): (r: Pos)
    ensures Adjacent(p, r)
    ensures d == Up <==> r.y < p.y
    ensures d == Down <==> r.y > p.y
    ensures d == Right <==> r.x > p.x
    ensures d == Left <==> r.x < p.x
  {
    Pos(p.x + Offset(d).x, p.y + Offset(d).y)
  }

  /** Different directions lead to different cells. */
  lemma NextPosInjective(p: Pos, d: Dir, e: Dir)
    requires GetNextPos(p, d) == GetNextPos(p, e)
    ensures d == e
  {
  }

  /** `is_dir`: whether bit `d` of the mask is set, i.e. the mask shares that bit. */
  function IsDir(mask: bv8, d: Dir): (r: bool)
    ensures r <==> mask & (1 << d.Value()) != 0
  {
    (mask >> d.Value()) & 1 == 1
  }

  /** `set_dir`: sets bit `d`; every other direction, and the unused high bits, keep their state. */
  function SetDir(mask: bv8, d: Dir): (r: bv8)
    ensures IsDir(r, d)
    ensures forall e :: e != d ==> IsDir(r, e) == IsDir(mask, e)
    ensures r >> 4 == mask >> 4
  {
    mask | (1 << d.Value())
  }

  /**
   * `get_dir_array`: the directions rotated so that element `i` is
   * `Dir((i + start - offset) mod 4)`.
   */
  function GetDirArray(start: Dir, offset: int): (r: seq<Dir>)
    ensures |r| == 4
    ensures forall i :: 0 <= i < 4 ==> r[i] == DirOf((i + start.Value() - offset) % 4)
  {
    Roll(AllDirs, offset - start.Value())
  }

  /** With its default arguments `get_dir_array` gives Up, Right, Down, Left. */
  lemma DefaultDirArray()
    ensures GetDirArray(Up, 0) == AllDirs
  {
    var r := GetDirArray(Up, 0);
    assert r[0] == DirOf(0) && r[1] == DirOf(1) && r[2] == DirOf(2) && r[3] == DirOf(3);
  }

  /** `is_out_of_bounds`: outside columns [0, W) or rows [0, H); a position inside has its row-major id in [0, N). */
  predicate IsOutOfBounds(p: Pos, shape: Shape)
    ensures !IsOutOfBounds(p, shape) ==> 0 <= p.x + p.y * shape.w < Size(shape)
  {
    if p.x < 0 || p.y < 0 || p.x >= shape.w || p.y >= shape.h then true
    else
      RowMajorInRange(p.x, p.y, shape.w, shape.h);
      false
  }

  /** A position is on the board exactly when some node sits there. */
  lemma InBoundsIffNode(p: Pos, shape: Shape)
    requires ValidShape(shape)
    ensures !IsOutOfBounds(p, shape) <==> exists id :: 0 <= id < Size(shape) && GetNodePos(id, shape) == p
  {
    if !IsOutOfBounds(p, shape) {
      RowMajorInRange(p.x, p.y, shape.w, shape.h);
      DivModOfRowMajor(p.x, p.y, shape.w);
      assert GetNodePos(p.x + p.y * shape.w, shape) == p;
    }
  }

  /** `get_node_pos`: the column and row of node `id`. */
  function GetNodePos(id: int, shape: Shape): (r: Pos)
    requires id >= 0 && shape.w >= 1
    ensures 0 <= r.x < shape.w && 0 <= r.y
    ensures r.x + r.y * shape.w == id
    ensures id < Size(shape) ==> r.y < shape.h
  {
    if id < Size(shape) then QuotientBelow(id, shape.w, shape.h); Pos(id % shape.w, id / shape.w)
    else Pos(id % shape.w, id / shape.w)
  }

  /** `get_node_id`: `None` exactly off the board, otherwise the node whose position is `p`. */
  function GetNodeId(p: Pos, shape: Shape): (r: Option<int>)
    ensures r.None? <==> IsOutOfBounds(p, shape)
    ensures r.Some? ==> 0 <= r.value < Size(shape) && GetNodePos(r.value, shape) == p
  {
    if IsOutOfBounds(p, shape) then None
    else
      RowMajorInRange(p.x, p.y, shape.w, shape.h);
      DivModOfRowMajor(p.x, p.y, shape.w);
      Some(p.x + p.y * shape.w)
  }

  /** Positions and ids are inverse: the id of the position of `id` is `id`. */
  lemma NodeIdRoundTrip(id: int, shape: Shape)
    requires ValidShape(shape) && 0 <= id < Size(shape)
    ensures GetNodeId(GetNodePos(id, shape), shape) == Some(id)
  {
  }

  /** Two nodes at the same position are the same node. */
  lemma NodePosInjective(a: int, b: int, shape: Shape)
    requires ValidShape(shape) && a >= 0 && b >= 0
    requires GetNodePos(a, shape) == GetNodePos(b, shape)
    ensures a == b
  {
  }

  /** `get_next_node_id`: the neighbour of node `id` in direction `d`, if it is on the board. */
  function GetNextNodeId(id: int, d: Dir, shape: Shape): (r: Option<int>)
    requires id >= 0 && shape.w >= 1
    ensures r.None? <==> IsOutOfBounds(GetNextPos(GetNodePos(id, shape), d), shape)
    ensures r.Some? ==> 0 <= r.value < Size(shape)
    ensures r.Some? ==> Adjacent(GetNodePos(id, shape), GetNodePos(r.value, shape))
    ensures r.Some? ==> GetNodePos(r.value, shape) == GetNextPos(GetNodePos(id, shape), d)
  {
    GetNodeId(GetNextPos(GetNodePos(id, shape), d), shape)
  }

  /**
   * `get_dir_between`: a horizontal difference wins over a vertical one;
   * `None` exactly when both nodes sit at the same position, and for
   * side-sharing nodes the step in that direction leads to `end`.
   */
  function GetDirBetween(start: int, end: int, shape: Shape): (r: Option<Dir>)
    requires start >= 0 && end >= 0 && shape.w >= 1
    ensures r.None? <==> GetNodePos(start, shape) == GetNodePos(end, shape)
    ensures r.Some? && Adjacent(GetNodePos(start, shape), GetNodePos(end, shape)) ==>
              GetNextPos(GetNodePos(start, shape), r.value) == GetNodePos(end, shape)
  {
    var sp := GetNodePos(start, shape);
    var ep := GetNodePos(end, shape);
    if sp.x != ep.x then
      Some(if sp.x - ep.x < 0 then Right else Left)
    else if sp.y != ep.y then
      Some(if sp.y - ep.y < 0 then Down else Up)
    else
      None
  }

  /** For side-sharing nodes, stepping from `start` in `get_dir_between`'s direction reaches `end`. */
  lemma DirBetweenSteps(start: int, end: int, shape: Shape)
    requires ValidShape(shape) && 0 <= start < Size(shape) && 0 <= end < Size(shape)
    requires Adjacent(GetNodePos(start, shape), GetNodePos(end, shape))
    ensures GetDirBetween(start, end, shape).Some?
    ensures GetNextNodeId(start, GetDirBetween(start, end, shape).value, shape) == Some(end)
  {
    var next := GetNextNodeId(start, GetDirBetween(start, end, shape).value, shape);
    NodeIdRoundTrip(end, shape);
    assert next == GetNodeId(GetNodePos(end, shape), shape);
  }

  /** The cycle index after `k` on a cycle of `n` indices: `(k + 1) mod n`. */
  function NextIndex(k: int, n: int): (r: int)
    requires 0 <= k < n
    ensures 0 <= r < n && r == (k + 1) % n
  {
    if k + 1 == n then 0 else k + 1
  }

  /**
   * `path_distance` between cycle indices `a` and `b`: the number of nodes
   * strictly between them walking forward along the cycle, so
   * `a + d + 1 == b (mod N)`.
   */
  function PathDistance(a: int, b: int, shape: Shape): (d: int)
    ensures 0 <= a < Size(shape) && 0 <= b < Size(shape) ==>
              0 <= d < Size(shape) && (a + d + 1) % Size(shape) == b
  {
    var d := if a < b then b - a - 1 else b - a - 1 + shape.w * shape.h;
    if 0 <= a < Size(shape) && 0 <= b < Size(shape) then
      ModBelowTwice(a + d + 1, Size(shape));
      d
    else
      d
  }

  /** The distance is 0 exactly when `b` is the cycle successor of `a`. */
  lemma PathDistanceZero(a: int, b: int, shape: Shape)
    requires 0 <= a < Size(shape) && 0 <= b < Size(shape)
    ensures PathDistance(a, b, shape) == 0 <==> b == NextIndex(a, Size(shape))
  {
  }

  /** From an index to itself the distance is N - 1: the whole cycle but the node. */
  lemma PathDistanceSelf(a: int, shape: Shape)
    requires 0 <= a < Size(shape)
    ensures PathDistance(a, a, shape) == Size(shape) - 1
  {
  }

  /** The distance is the only d in [0, N) with `a + d + 1 == b (mod N)`. */
  lemma {:induction false} PathDistanceUnique(a: int, b: int, d: int, shape: Shape)
    requires 0 <= a < Size(shape) && 0 <= b < Size(shape) && 0 <= d < Size(shape)
    requires (a + d + 1) % Size(shape) == b
    ensures PathDistance(a, b, shape) == d
  {
    ModBelowTwice(a + d + 1, Size(shape));
  }
}
