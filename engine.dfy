/** The simulation engine, SimulatorImpl in headers/Simulator.h: a grid of material bytes
    with a pressure, a velocity and a flow per cell, advanced one tick at a time by sweeps
    and by three timestamp-driven walks over the grid.

    Numbers: every numeric value (pressure, velocity, flow) is the raw mantissa of a fixed
    point number with `k` fractional bits, as an unbounded int; `unit` is the raw value of 1.
    The grid is the fixed-size instantiation (Matrix), N x M. */
module Engine {
  import opened FixedPoint
  import opened Matrices
  import opened Fields

  /** uint8_t: a material byte. */
  newtype byte = x: int | 0 <= x < 256

  const WALL: byte := 35   // '#'

  /** A 32-bit draw of the generator. */
  type uint32 = x: int | 0 <= x < 0x1_0000_0000

  /** The generator std::mt19937, seeded with 1337: its output is an oracle sequence of
      draws, consumed in order. */
  class RandomSource {
    const draws: nat -> uint32
    var pos: nat

    constructor(draws: nat -> uint32)
      ensures this.draws == draws && pos == 0
    {
      this.draws := draws;
      pos := 0;
    }

    /** rnd(): the next draw. */
    method Next() returns (r: uint32)
      modifies this
      ensures r == draws(old(pos)) && pos == old(pos) + 1
    {
      r := draws(pos);
      pos := pos + 1;
    }
  }

  lemma SubsetCard<T>(a: set<T>, b: set<T>)
    requires a <= b
    ensures |a| <= |b|
    decreases a
  {
    if a != {} {
      var e :| e in a;
      SubsetCard(a - {e}, b - {e});
    }
  }

  /** Removing an element strictly shrinks a set: the termination argument of the walks. */
  lemma SubsetMinusCard<T>(a: set<T>, b: set<T>, e: T)
    requires a <= b - {e} && e in b
    ensures |a| < |b|
  {
    SubsetCard(a, b - {e});
  }

  function Abs(v: int): nat { if v < 0 then -v else v }

  function Min(a: int, b: int): (r: int)
    ensures r <= a && r <= b && (r == a || r == b)
  {
    if b < a then b else a
  }

  /** std::ranges::upper_bound(tres, v): the first index whose entry exceeds v, or |tres|.
      The search is written as a scan; on a nondecreasing table the binary search returns
      the same index. */
  function UpperBound(tres: seq<int>, v: int): (d: nat)
    ensures d <= |tres|
    ensures forall j :: 0 <= j < d ==> tres[j] <= v
    ensures d < |tres| ==> tres[d] > v
  {
    if tres == [] || tres[0] > v then 0 else 1 + UpperBound(tres[1..], v)
  }

  /** On a nondecreasing table every entry from the upper bound on exceeds v. */
  lemma UpperBoundPartitions(tres: seq<int>, v: int)
    requires forall i, j :: 0 <= i <= j < |tres| ==> tres[i] <= tres[j]
    ensures forall j :: UpperBound(tres, v) <= j < |tres| ==> tres[j] > v
  {
  }

  /** The sum of the first j entries of w. */
  function Prefix(w: seq<int>, j: nat): int
    requires j <= |w|
  {
    if j == 0 then 0 else Prefix(w, j - 1) + w[j - 1]
  }

  predicate NonNegative(w: seq<int>)
  {
    forall i :: 0 <= i < |w| ==> w[i] >= 0
  }

  lemma {:induction false} PrefixMonotone(w: seq<int>, i: nat, j: nat)
    requires NonNegative(w) && i <= j <= |w|
    ensures 0 <= Prefix(w, i) <= Prefix(w, j)
    decreases j
  {
    if i < j {
      PrefixMonotone(w, i, j - 1);
    } else if i > 0 {
      PrefixMonotone(w, i - 1, i - 1);
    }
  }

  /** The cumulative table of w: entry i sums entries 0..i. */
  function PrefixSums(w: seq<int>): (t: seq<int>)
    ensures |t| == |w| && forall i :: 0 <= i < |w| ==> t[i] == Prefix(w, i + 1)
  {
    seq(|w|, i requires 0 <= i < |w| => Prefix(w, i + 1))
  }

  /** The table of non-negative weights is nondecreasing, so upper_bound's binary search
      applies to it. */
  lemma PrefixSumsSorted(w: seq<int>)
    requires NonNegative(w)
    ensures forall i, j :: 0 <= i <= j < |w| ==> PrefixSums(w)[i] <= PrefixSums(w)[j]
  {
    forall i, j | 0 <= i <= j < |w|
      ensures PrefixSums(w)[i] <= PrefixSums(w)[j]
    {
      PrefixMonotone(w, i + 1, j + 1);
    }
  }

  /** A value in [0, total) selects through the table an entry of positive weight. */
  lemma SelectsPositive(w: seq<int>, pv: int)
    requires NonNegative(w) && 0 <= pv < Prefix(w, |w|)
    ensures UpperBound(PrefixSums(w), pv) < |w|
    ensures w[UpperBound(PrefixSums(w), pv)] > 0
  {
    var t := PrefixSums(w);
    var d := UpperBound(t, pv);
    assert |w| > 0;
    assert Prefix(w, d + 1) == Prefix(w, d) + w[d];
    assert t[|w| - 1] > pv;
    assert d < |w|;
    if d > 0 {
      assert t[d - 1] <= pv;
    }
  }

  /** p = random01() * sum: the product of a fraction r / unit in [0, 1) and a positive sum,
      truncated back to raw units, lies in [0, sum). */
  lemma ScaledDrawInRange(r: int, sum: int, unit: int)
    requires 0 <= r < unit && sum > 0
    ensures 0 <= r * sum / unit < sum
  {
    MulLeq(r + 1, unit, sum);
    assert (r + 1) * sum == r * sum + sum;
    QuotientBelow(r * sum, unit, sum);
  }

  lemma QuotientBelow(a: nat, unit: nat, s: nat)
    requires unit > 0 && a < unit * s
    ensures a / unit < s
  {
    if a / unit >= s {
      MulLeq(s, a / unit, unit);
    }
  }

  /** deltas: the four unit directions, each once, in some fixed order. */
  predicate ValidDeltas(deltas: seq<(int, int)>)
  {
    |deltas| == 4 &&
    (forall i :: 0 <= i < 4 ==> IsUnit(deltas[i].0, deltas[i].1)) &&
    (forall i, j :: 0 <= i < j < 4 ==> deltas[i] != deltas[j])
  }

  /** Four distinct unit directions reach every slot. */
  lemma SlotsCover(deltas: seq<(int, int)>, s: nat)
    requires ValidDeltas(deltas) && s < 4
    ensures exists j :: 0 <= j < 4 && Slot(deltas[j].0, deltas[j].1) == s
  {
    forall a, b | 0 <= a < b < 4
      ensures Slot(deltas[a].0, deltas[a].1) != Slot(deltas[b].0, deltas[b].1)
    {
      SlotsDistinct(deltas[a].0, deltas[a].1, deltas[b].0, deltas[b].1);
    }
    var a, b, c, d := Slot(deltas[0].0, deltas[0].1), Slot(deltas[1].0, deltas[1].1),
      Slot(deltas[2].0, deltas[2].1), Slot(deltas[3].0, deltas[3].1);
    assert a != b && a != c && a != d && b != c && b != d && c != d;
    assert a == s || b == s || c == s || d == s;
  }

  /** The copy loop of init: a fresh N x M material grid holding the scene. */
  method CopyScene(n: nat, m: nat, scene: seq<seq<byte>>) returns (grid: Matrix<byte>)
    requires |scene| == n && forall i :: 0 <= i < n ==> |scene[i]| == m
    ensures fresh(grid) && fresh(grid.data) && grid.Valid() && grid.nv == n && grid.mv == m
    ensures forall i, j :: 0 <= i < n && 0 <= j < m ==> grid.data[i, j] == scene[i][j]
  {
    grid := new Matrix(n, m, 0 as byte);
    var x := 0;
    while x < n
      invariant x <= n && grid.Valid() && grid.nv == n && grid.mv == m && fresh(grid.data)
      invariant forall i, j :: 0 <= i < x && 0 <= j < m ==> grid.data[i, j] == scene[i][j]
    {
      var y := 0;
      while y < m
        invariant y <= m
        invariant forall i, j :: 0 <= i < x && 0 <= j < m ==> grid.data[i, j] == scene[i][j]
        invariant forall j :: 0 <= j < y ==> grid.data[x, j] == scene[x][j]
      {
        grid.data[x, y] := scene[x][y];
        y := y + 1;
      }
      x := x + 1;
    }
  }

  class Simulator {
    const n: nat
    const m: nat
    const k: nat
    /** The raw value of 1 at k fractional bits. */
    const unit: int
    /** The tolerance 0.0001 of propagate_flow, in raw units. */
    const eps: nat
    /** Gravity g, a velocity. */
    const g: int
    const deltas: seq<(int, int)>

    const field: Matrix<byte>
    const p: Matrix<int>
    const oldP: Matrix<int>
    const lastUse: Matrix<int>
    const dirs: Matrix<int>
    const velocity: VectorField
    const velocityFlow: VectorField
    const rnd: RandomSource

    /** UT, the sweep timestamp. */
    var ut: int

    /** SimulatorImpl() followed by init(f, setts): every matrix is allocated N x M and
        zeroed, the material grid is copied from the scene row by row, the generator starts at
        its first draw, and directionsInit counts the open neighbours. */
    constructor(n: nat, m: nat, k: nat, eps: nat, g: int, deltas: seq<(int, int)>,
                draws: nat -> uint32, scene: seq<seq<byte>>)
      requires ValidDeltas(deltas)
      requires |scene| == n && forall i :: 0 <= i < n ==> |scene[i]| == m
      requires forall i, j :: 0 <= i < n && 0 <= j < m && (i == 0 || i == n - 1 || j == 0 || j == m - 1) ==>
        scene[i][j] == WALL
      ensures Valid() && ut == 0 && rnd.pos == 0 && rnd.draws == draws
      ensures this.n == n && this.m == m && this.k == k && this.eps == eps && this.g == g
      ensures forall i, j :: 0 <= i < n && 0 <= j < m ==>
        field.data[i, j] == scene[i][j] && p.data[i, j] == 0 && lastUse.data[i, j] == 0 &&
        velocity.v.data[i, j] == ZeroQuad && velocityFlow.v.data[i, j] == ZeroQuad
      ensures forall i, j :: 0 <= i < n && 0 <= j < m ==>
        dirs.data[i, j] == if field.data[i, j] == WALL then 0 else OpenCount(i, j, 4)
    {
      var grid := CopyScene(n, m, scene);
      this.n, this.m, this.k, this.eps, this.g, this.deltas := n, m, k, eps, g, deltas;
      unit := Pow2(k);
      field := grid;
      p := new Matrix(n, m, 0);
      oldP := new Matrix(n, m, 0);
      lastUse := new Matrix(n, m, 0);
      dirs := new Matrix(n, m, 0);
      velocity := new VectorField(n, m);
      velocityFlow := new VectorField(n, m);
      rnd := new RandomSource(draws);
      ut := 0;
      new;
      assert Valid();
      DirectionsInit();
    }

    /** Every matrix is N x M and the arrays that can be written are distinct. */
    predicate Shaped()
      reads this, field, p, oldP, lastUse, dirs, velocity, velocityFlow, velocity.v, velocityFlow.v
    {
      field.Valid() && field.nv == n && field.mv == m &&
      p.Valid() && p.nv == n && p.mv == m &&
      oldP.Valid() && oldP.nv == n && oldP.mv == m &&
      lastUse.Valid() && lastUse.nv == n && lastUse.mv == m &&
      dirs.Valid() && dirs.nv == n && dirs.mv == m &&
      velocity.Valid() && velocity.v.nv == n && velocity.v.mv == m &&
      velocity.n == n && velocity.m == m &&
      velocityFlow.Valid() && velocityFlow.v.nv == n && velocityFlow.v.mv == m &&
      velocityFlow.n == n && velocityFlow.m == m &&
      p.data != oldP.data && p.data != lastUse.data && p.data != dirs.data &&
      oldP.data != lastUse.data && oldP.data != dirs.data && lastUse.data != dirs.data &&
      velocity.v.data != velocityFlow.v.data
    }

    /** Every border cell is a wall, so the neighbours of an open cell are in the grid. */
    predicate Bordered()
      reads this, field, field.data
      requires field.Valid() && field.nv == n && field.mv == m
    {
      forall i, j :: 0 <= i < n && 0 <= j < m && (i == 0 || i == n - 1 || j == 0 || j == m - 1) ==>
        field.data[i, j] == WALL
    }

    predicate Valid()
      reads this, field, p, oldP, lastUse, dirs, velocity, velocityFlow, velocity.v, velocityFlow.v
      reads field.data
    {
      Shaped() && Bordered() && ValidDeltas(deltas) && unit == Pow2(k)
    }

    /** An open cell of the grid. */
    predicate Open(x: int, y: int)
      reads this, field, field.data
      requires field.Valid() && field.nv == n && field.mv == m
    {
      0 <= x < n && 0 <= y < m && field.data[x, y] != WALL
    }

    /** The neighbours of an open cell lie in the grid. */
    lemma OpenInterior(x: int, y: int, i: nat)
      requires Valid() && Open(x, y) && i < 4
      ensures 0 <= x + deltas[i].0 < n && 0 <= y + deltas[i].1 < m
    {
    }

    // -------------------------------------------------------------------------------
    // swap_between

    /** swap_between(x, y, nx, ny): the two cells exchange their material, pressure and
        all four velocity slots; nothing else changes. */
    method SwapBetween(x: nat, y: nat, nx: nat, ny: nat)
      requires Shaped() && x < n && y < m && nx < n && ny < m
      modifies field.data, p.data, velocity.v.data
      ensures field.data[x, y] == old(field.data[nx, ny]) && field.data[nx, ny] == old(field.data[x, y])
      ensures p.data[x, y] == old(p.data[nx, ny]) && p.data[nx, ny] == old(p.data[x, y])
      ensures velocity.v.data[x, y] == old(velocity.v.data[nx, ny])
      ensures velocity.v.data[nx, ny] == old(velocity.v.data[x, y])
      ensures forall i, j :: 0 <= i < n && 0 <= j < m && (i, j) != (x, y) && (i, j) != (nx, ny) ==>
        field.data[i, j] == old(field.data[i, j]) && p.data[i, j] == old(p.data[i, j]) &&
        velocity.v.data[i, j] == old(velocity.v.data[i, j])
    {
      field.data[x, y], field.data[nx, ny] := field.data[nx, ny], field.data[x, y];
      p.data[x, y], p.data[nx, ny] := p.data[nx, ny], p.data[x, y];
      velocity.v.data[x, y], velocity.v.data[nx, ny] := velocity.v.data[nx, ny], velocity.v.data[x, y];
    }

    /** Swapping the same two cells twice restores the grid. */
    method SwapTwice(x: nat, y: nat, nx: nat, ny: nat)
      requires Shaped() && x < n && y < m && nx < n && ny < m
      modifies field.data, p.data, velocity.v.data
      ensures forall i, j :: 0 <= i < n && 0 <= j < m ==>
        field.data[i, j] == old(field.data[i, j]) && p.data[i, j] == old(p.data[i, j]) &&
        velocity.v.data[i, j] == old(velocity.v.data[i, j])
    {
      SwapBetween(x, y, nx, ny);
      SwapBetween(x, y, nx, ny);
    }

    // -------------------------------------------------------------------------------
    // directionsInit

    /** The number of open neighbours among the first j directions. */
    function OpenCount(x: int, y: int, j: nat): (c: nat)
      reads this, field, field.data, p, oldP, lastUse, dirs, velocity, velocityFlow, velocity.v, velocityFlow.v
      requires Valid() && Open(x, y) && j <= 4
      ensures c <= j
    {
      if j == 0 then 0
      else
        OpenInterior(x, y, j - 1);
        OpenCount(x, y, j - 1) +
          (if field.data[x + deltas[j - 1].0, y + deltas[j - 1].1] != WALL then 1 else 0)
    }

    /** The body of directionsInit for one open cell: one increment per open neighbour. */
    method AddOpenNeighbours(x: nat, y: nat)
      requires Valid() && Open(x, y)
      modifies dirs.data
      ensures dirs.data[x, y] == old(dirs.data[x, y]) + OpenCount(x, y, 4)
      ensures forall i, j :: 0 <= i < n && 0 <= j < m && (i, j) != (x, y) ==>
        dirs.data[i, j] == old(dirs.data[i, j])
    {
      var d := 0;
      while d < 4
        invariant d <= 4
        invariant dirs.data[x, y] == old(dirs.data[x, y]) + OpenCount(x, y, d)
        invariant forall i, j :: 0 <= i < n && 0 <= j < m && (i, j) != (x, y) ==>
          dirs.data[i, j] == old(dirs.data[i, j])
      {
        OpenInterior(x, y, d);
        var nx, ny := x + deltas[d].0, y + deltas[d].1;
        dirs.data[x, y] := dirs.data[x, y] + (if field.data[nx, ny] != WALL then 1 else 0);
        d := d + 1;
      }
    }

    /** directionsInit(): every open cell's count grows by its number of open neighbours
        (0 to 4); wall cells are skipped. On a zeroed dirs this is the count itself. */
    method DirectionsInit()
      requires Valid()
      modifies dirs.data
      ensures forall i, j :: 0 <= i < n && 0 <= j < m && field.data[i, j] != WALL ==>
        dirs.data[i, j] == old(dirs.data[i, j]) + OpenCount(i, j, 4)
      ensures forall i, j :: 0 <= i < n && 0 <= j < m && field.data[i, j] == WALL ==>
        dirs.data[i, j] == old(dirs.data[i, j])
    {
      var x := 0;
      while x < n
        invariant x <= n
        invariant forall i, j :: 0 <= i < x && 0 <= j < m && field.data[i, j] != WALL ==>
          dirs.data[i, j] == old(dirs.data[i, j]) + OpenCount(i, j, 4)
        invariant forall i, j ::
          0 <= i < n && 0 <= j < m && (i >= x || field.data[i, j] == WALL) ==>
          dirs.data[i, j] == old(dirs.data[i, j])
      {
        InitRow(x);
        x := x + 1;
      }
    }

    /** One row of directionsInit. */
    method InitRow(x: nat)
      requires Valid() && x < n
      modifies dirs.data
      ensures forall j :: 0 <= j < m && field.data[x, j] != WALL ==>
        dirs.data[x, j] == old(dirs.data[x, j]) + OpenCount(x, j, 4)
      ensures forall i, j :: 0 <= i < n && 0 <= j < m && (i != x || field.data[i, j] == WALL) ==>
        dirs.data[i, j] == old(dirs.data[i, j])
    {
      var y := 0;
      while y < m
        invariant y <= m
        invariant forall j :: 0 <= j < y && field.data[x, j] != WALL ==>
          dirs.data[x, j] == old(dirs.data[x, j]) + OpenCount(x, j, 4)
        invariant forall i, j ::
          0 <= i < n && 0 <= j < m && (i != x || j >= y || field.data[i, j] == WALL) ==>
          dirs.data[i, j] == old(dirs.data[i, j])
      {
        if field.data[x, y] != WALL {
          AddOpenNeighbours(x, y);
        }
        y := y + 1;
      }
    }

    // -------------------------------------------------------------------------------
    // random01

    /** random01() for a fixed-point vt: the raw value is the low k bits of one draw, a
        number in [0, 1). */
    method Random01() returns (r: int)
      requires unit == Pow2(k)
      modifies rnd
      ensures r == rnd.draws(old(rnd.pos)) % unit && rnd.pos == old(rnd.pos) + 1
      ensures 0 <= r < unit
    {
      var draw := rnd.Next();
      r := draw % unit;
    }

    // -------------------------------------------------------------------------------
    // Timestamps

    /** The cells whose stamp is below `bound`. */
    function Below(bound: int): set<(int, int)>
      reads this, lastUse, lastUse.data
      requires lastUse.Valid() && lastUse.nv == n && lastUse.mv == m
    {
      set i, j | 0 <= i < n && 0 <= j < m && lastUse.data[i, j] < bound :: (i, j)
    }

    /** Every stamp is at most UT. */
    predicate StampsAtMostUT()
      reads this, lastUse, lastUse.data
      requires lastUse.Valid() && lastUse.nv == n && lastUse.mv == m
    {
      forall i, j :: 0 <= i < n && 0 <= j < m ==> lastUse.data[i, j] <= ut
    }

    /** Stamps only rise, and every stamp that changed was below `bound` and is now UT. */
    twostate predicate Restamped(bound: int)
      reads this, lastUse, lastUse.data
      requires lastUse.Valid() && lastUse.nv == n && lastUse.mv == m
    {
      forall i, j :: 0 <= i < n && 0 <= j < m ==>
        old(lastUse.data[i, j]) <= lastUse.data[i, j] &&
        (lastUse.data[i, j] != old(lastUse.data[i, j]) ==> old(lastUse.data[i, j]) < bound && lastUse.data[i, j] == ut)
    }

    // -------------------------------------------------------------------------------
    // propagate_flow

    /** One edge of a flow push: untouched, or its flow was not within eps of its capacity
        and is now at most the capacity. */
    predicate EdgeStep(before: int, after: int, cap: int)
    {
      after == before || (Abs(before - cap) > eps && after <= cap)
    }

    /** EdgeStep on each of the four slots of a cell. */
    predicate QuadStep(before: Quad, after: Quad, cap: Quad)
    {
      forall s :: 0 <= s < 4 ==> EdgeStep(before[s], after[s], cap[s])
    }

    /** Adding at most capacity minus flow to one slot that is not within eps of its capacity
        is a step of that cell. */
    lemma QuadStepAdd(before: Quad, s: nat, amount: int, cap: Quad)
      requires s < 4 && Abs(before[s] - cap[s]) > eps && amount <= cap[s] - before[s]
      ensures QuadStep(before, before[s := before[s] + amount], cap)
    {
    }

    /** One cell across a stretch of a flow walk: its stamp only rose, and if it changed it
        was below `bound` and is now `top`; its flow is unchanged, or it was stamped below
        `bound`, is stamped `top` now, and each edge moved as EdgeStep allows. */
    predicate CellWalked(lu0: int, lu1: int, f0: Quad, f1: Quad, cap: Quad, bound: int, top: int)
    {
      lu0 <= lu1 && (lu1 != lu0 ==> lu0 < bound && lu1 == top) &&
      (f1 == f0 || (lu0 < bound && lu1 == top && QuadStep(f0, f1, cap)))
    }

    /** Two stretches of a walk make one: a cell the first stretch stamped `top` is left
        alone by the second. */
    lemma CellWalkedTrans(lu0: int, lu1: int, lu2: int, f0: Quad, f1: Quad, f2: Quad, cap: Quad, bound: int, top: int)
      requires bound <= top
      requires CellWalked(lu0, lu1, f0, f1, cap, bound, top) && CellWalked(lu1, lu2, f1, f2, cap, bound, top)
      ensures CellWalked(lu0, lu2, f0, f2, cap, bound, top)
    {
    }

    /** Every cell but `except` took part in the walk since the old state as CellWalked
        allows, with bound UT-1. */
    twostate predicate Walked(except: (int, int))
      reads this, lastUse, lastUse.data, velocity, velocity.v, velocity.v.data
      reads velocityFlow, velocityFlow.v, velocityFlow.v.data
      requires lastUse.Valid() && lastUse.nv == n && lastUse.mv == m
      requires velocity.Valid() && velocity.v.nv == n && velocity.v.mv == m
      requires velocityFlow.Valid() && velocityFlow.v.nv == n && velocityFlow.v.mv == m
    {
      forall i, j :: 0 <= i < n && 0 <= j < m && (i, j) != except ==>
        CellWalked(old(lastUse.data[i, j]), lastUse.data[i, j], old(velocityFlow.v.data[i, j]),
                   velocityFlow.v.data[i, j], velocity.v.data[i, j], ut - 1, ut)
    }

    /** propagate_flow(x, y, lim): a depth-first push of at most lim along edges whose flow is
        not within eps of the capacity (the velocity), through cells not yet stamped UT. The
        cell is stamped UT-1 while the walk is below it and UT on every return. A push that
        reaches a cell stamped UT-1 closes a cycle there; end is that cell, and the success
        flag drops to false once the result is back at it. */
    method PropagateFlow(x: nat, y: nat, lim: int) returns (amount: int, ok: bool, end: (int, int))
      requires Valid() && Open(x, y) && lastUse.data[x, y] < ut - 1
      modifies lastUse.data, velocityFlow.v.data
      ensures lastUse.data[x, y] == ut
      ensures Walked((-1, -1))
      ensures ok ==> amount <= lim && end != (x, y)
      decreases |Below(ut - 1)|, 1
    {
      ghost var entry := Below(ut - 1);
      lastUse.data[x, y] := ut - 1;
      var ret := 0;
      var i := 0;
      while i < 4
        invariant i <= 4
        invariant lastUse.data[x, y] == ut - 1
        invariant Below(ut - 1) <= entry - {(x, y)}
        invariant velocityFlow.v.data[x, y] == old(velocityFlow.v.data[x, y])
        invariant Walked((x, y))
      {
        SubsetMinusCard(Below(ut - 1), entry, (x, y));
        var done, t;
        label PreEdge:
        done, t, ok, end := FlowEdge(x, y, i, lim);
        forall a, b | 0 <= a < n && 0 <= b < m && (a, b) != (x, y)
          ensures CellWalked(old(lastUse.data[a, b]), lastUse.data[a, b], old(velocityFlow.v.data[a, b]),
                             velocityFlow.v.data[a, b], velocity.v.data[a, b], ut - 1, ut)
        {
          CellWalkedTrans(old(lastUse.data[a, b]), old@PreEdge(lastUse.data[a, b]), lastUse.data[a, b],
                          old(velocityFlow.v.data[a, b]), old@PreEdge(velocityFlow.v.data[a, b]),
                          velocityFlow.v.data[a, b], velocity.v.data[a, b], ut - 1, ut);
        }
        if done {
          return t, ok, end;
        }
        ret := ret + t;
        i := i + 1;
      }
      lastUse.data[x, y] := ut;
      return ret, false, (0, 0);
    }

    /** The body of propagate_flow's loop for direction deltas[i], with (x, y) stamped UT-1.
        When the frame returns, done is set, the edge has been pushed and (x, y) is stamped
        UT; otherwise t is the amount a failed deeper walk reports, and nothing of (x, y)
        changed. */
    method FlowEdge(x: nat, y: nat, i: nat, lim: int) returns (done: bool, t: int, ok: bool, end: (int, int))
      requires Valid() && Open(x, y) && i < 4 && lastUse.data[x, y] == ut - 1
      modifies lastUse.data, velocityFlow.v.data
      ensures lastUse.data[x, y] == if done then ut else ut - 1
      ensures done && ok ==> t <= lim && end != (x, y)
      ensures Walked((x, y))
      ensures !done ==> velocityFlow.v.data[x, y] == old(velocityFlow.v.data[x, y])
      ensures done ==> QuadStep(old(velocityFlow.v.data[x, y]), velocityFlow.v.data[x, y], velocity.v.data[x, y])
      decreases |Below(ut - 1)| + 1, 0
    {
      OpenInterior(x, y, i);
      var dx, dy := deltas[i].0, deltas[i].1;
      var nx, ny := x + dx, y + dy;
      if field.data[nx, ny] == WALL || lastUse.data[nx, ny] >= ut {
        return false, 0, false, (0, 0);
      }
      var cap := velocity.Get(x, y, dx, dy);
      var flow := velocityFlow.Get(x, y, dx, dy);
      if Abs(flow - cap) <= eps {
        return false, 0, false, (0, 0);
      }
      var vp := Min(lim, cap - flow);
      if lastUse.data[nx, ny] == ut - 1 {
        QuadStepAdd(velocityFlow.v.data[x, y], Slot(dx, dy), vp, velocity.v.data[x, y]);
        var _ := velocityFlow.Add(x, y, dx, dy, vp);
        lastUse.data[x, y] := ut;
        return true, vp, true, (nx, ny);
      }
      var prop, e;
      t, prop, e := PropagateFlow(nx, ny, vp);
      if !prop {
        return false, t, false, (0, 0);
      }
      QuadStepAdd(velocityFlow.v.data[x, y], Slot(dx, dy), t, velocity.v.data[x, y]);
      var _ := velocityFlow.Add(x, y, dx, dy, t);
      lastUse.data[x, y] := ut;
      return true, t, e != (x, y), e;
    }

    // -------------------------------------------------------------------------------
    // propagate_stop

    /** From (x, y), direction i leads to an open cell not yet stamped UT-1 or UT along a
        positive velocity: the cell still moves that way. */
    predicate MovingTo(x: int, y: int, i: nat)
      reads this, field, p, oldP, lastUse, dirs, velocity, velocityFlow, velocity.v, velocityFlow.v
      reads field.data, lastUse.data, velocity.v.data
      requires Valid() && Open(x, y) && i < 4
    {
      OpenInterior(x, y, i);
      var nx, ny := x + deltas[i].0, y + deltas[i].1;
      field.data[nx, ny] != WALL && lastUse.data[nx, ny] < ut - 1 &&
        velocity.Get(x, y, deltas[i].0, deltas[i].1) > 0
    }

    predicate Moving(x: int, y: int)
      reads this, field, p, oldP, lastUse, dirs, velocity, velocityFlow, velocity.v, velocityFlow.v
      reads field.data, lastUse.data, velocity.v.data
      requires Valid() && Open(x, y)
    {
      exists i :: 0 <= i < 4 && MovingTo(x, y, i)
    }

    /** The check of a non-forced propagate_stop: does the cell still move somewhere? */
    method StillMoving(x: nat, y: nat) returns (moving: bool)
      requires Valid() && Open(x, y)
      ensures moving == Moving(x, y)
    {
      var stop := true;
      ghost var w := 0;
      var i := 0;
      while i < 4 && stop
        invariant i <= 4
        invariant stop ==> forall j :: 0 <= j < i ==> !MovingTo(x, y, j)
        invariant !stop ==> w < 4 && MovingTo(x, y, w)
      {
        OpenInterior(x, y, i);
        var nx, ny := x + deltas[i].0, y + deltas[i].1;
        if field.data[nx, ny] != WALL && lastUse.data[nx, ny] < ut - 1 &&
           velocity.Get(x, y, deltas[i].0, deltas[i].1) > 0 {
          stop := false;
          w := i;
        }
        i := i + 1;
      }
      return !stop;
    }

    /** propagate_stop(x, y, force): unless forced, a cell that still moves toward some
        neighbour is left alone and nothing changes. Otherwise the cell is stamped UT and the
        stop spreads to every open neighbour not stamped UT whose edge from (x, y) has a
        velocity that is not positive. Only stamps change, and only from below UT to UT. */
    method PropagateStop(x: nat, y: nat, force: bool)
      requires Valid() && Open(x, y) && StampsAtMostUT() && lastUse.data[x, y] < ut
      modifies lastUse.data
      ensures !force && old(Moving(x, y)) ==>
        forall i, j :: 0 <= i < n && 0 <= j < m ==> lastUse.data[i, j] == old(lastUse.data[i, j])
      ensures force || !old(Moving(x, y)) ==> lastUse.data[x, y] == ut
      ensures Restamped(ut)
      ensures StampsAtMostUT()
      decreases |Below(ut)|
    {
      if !force {
        var moving := StillMoving(x, y);
        if moving {
          return;
        }
      }
      ghost var entry := Below(ut);
      lastUse.data[x, y] := ut;
      assert forall a, b :: 0 <= a < n && 0 <= b < m && (a, b) != (x, y) ==>
        lastUse.data[a, b] == old(lastUse.data[a, b]);
      var i := 0;
      while i < 4
        invariant i <= 4
        invariant lastUse.data[x, y] == ut
        invariant Below(ut) <= entry - {(x, y)}
        invariant Restamped(ut)
        invariant StampsAtMostUT()
      {
        OpenInterior(x, y, i);
        var nx, ny := x + deltas[i].0, y + deltas[i].1;
        if field.data[nx, ny] != WALL && lastUse.data[nx, ny] != ut &&
           velocity.Get(x, y, deltas[i].0, deltas[i].1) <= 0 {
          SubsetMinusCard(Below(ut), entry, (x, y));
          ghost var before := Below(ut);
          PropagateStop(nx, ny, false);
          assert Below(ut) <= before;
        }
        i := i + 1;
      }
    }

    // -------------------------------------------------------------------------------
    // move_prob and the table of propagate_move

    /** The weight of direction i from (x, y): the velocity toward an open neighbour not
        stamped UT when it is not negative, otherwise 0. */
    function Weight(x: int, y: int, i: nat): (w: int)
      reads this, field, p, oldP, lastUse, dirs, velocity, velocityFlow, velocity.v, velocityFlow.v
      reads field.data, lastUse.data, velocity.v.data
      requires Valid() && Open(x, y) && i < 4
      ensures w >= 0
    {
      OpenInterior(x, y, i);
      var nx, ny := x + deltas[i].0, y + deltas[i].1;
      if field.data[nx, ny] == WALL || lastUse.data[nx, ny] == ut then 0
      else if velocity.Get(x, y, deltas[i].0, deltas[i].1) < 0 then 0
      else velocity.Get(x, y, deltas[i].0, deltas[i].1)
    }

    /** The four weights from (x, y) as a value. */
    function Weights(x: int, y: int): (w: seq<int>)
      reads this, field, p, oldP, lastUse, dirs, velocity, velocityFlow, velocity.v, velocityFlow.v
      reads field.data, lastUse.data, velocity.v.data
      requires Valid() && Open(x, y)
      ensures |w| == 4 && NonNegative(w)
      ensures forall i :: 0 <= i < 4 ==> w[i] == Weight(x, y, i)
    {
      seq(4, i requires 0 <= i < 4 && Valid() && Open(x, y)
              reads this, field, p, oldP, lastUse, dirs, velocity, velocityFlow, velocity.v, velocityFlow.v
              reads field.data, lastUse.data, velocity.v.data
              => Weight(x, y, i))
    }

    /** move_prob(x, y): read-only, the sum of the four weights. */
    method MoveProb(x: nat, y: nat) returns (sum: int)
      requires Valid() && Open(x, y)
      ensures sum == Prefix(Weights(x, y), 4) && sum >= 0
    {
      ghost var w := Weights(x, y);
      PrefixMonotone(w, 0, 4);
      sum := 0;
      var i := 0;
      while i < 4
        invariant i <= 4 && sum == Prefix(w, i)
      {
        OpenInterior(x, y, i);
        var nx, ny := x + deltas[i].0, y + deltas[i].1;
        if field.data[nx, ny] != WALL && lastUse.data[nx, ny] != ut {
          var v := velocity.Get(x, y, deltas[i].0, deltas[i].1);
          if v >= 0 {
            sum := sum + v;
          }
        }
        i := i + 1;
      }
    }

    /** The table tres of propagate_move and its total sum. */
    method BuildTable(x: nat, y: nat) returns (tres: seq<int>, sum: int)
      requires Valid() && Open(x, y)
      ensures tres == PrefixSums(Weights(x, y)) && sum == Prefix(Weights(x, y), 4)
    {
      ghost var w := Weights(x, y);
      sum := 0;
      tres := [];
      var i := 0;
      while i < 4
        invariant i <= 4 && |tres| == i && sum == Prefix(w, i)
        invariant forall j :: 0 <= j < i ==> tres[j] == Prefix(w, j + 1)
      {
        OpenInterior(x, y, i);
        var nx, ny := x + deltas[i].0, y + deltas[i].1;
        if field.data[nx, ny] != WALL && lastUse.data[nx, ny] != ut {
          var v := velocity.Get(x, y, deltas[i].0, deltas[i].1);
          if v >= 0 {
            sum := sum + v;
          }
        }
        tres := tres + [sum];
        i := i + 1;
      }
    }

    // -------------------------------------------------------------------------------
    // propagate_move

    /** The walls stayed where they were: cells only exchange open contents. */
    twostate predicate WallsKept()
      reads this, field, field.data
      requires field.Valid() && field.nv == n && field.mv == m
    {
      forall i, j :: 0 <= i < n && 0 <= j < m ==> (field.data[i, j] == WALL <==> old(field.data[i, j]) == WALL)
    }

    /** Material, pressure and velocity of every cell are as they were. */
    twostate predicate ContentsKept()
      reads this, field, p, velocity, velocity.v, field.data, p.data, velocity.v.data
      requires field.Valid() && field.nv == n && field.mv == m && p.Valid() && p.nv == n && p.mv == m
      requires velocity.Valid() && velocity.v.nv == n && velocity.v.mv == m
    {
      forall i, j :: 0 <= i < n && 0 <= j < m ==>
        field.data[i, j] == old(field.data[i, j]) && p.data[i, j] == old(p.data[i, j]) &&
        velocity.v.data[i, j] == old(velocity.v.data[i, j])
    }

    /** propagate_move(x, y, is_first): a random walk along positive velocities, choosing
        each step with probability proportional to the velocity, through cells not stamped
        UT, until it reaches a cell stamped UT-1 (a cycle closes) or a successful deeper
        walk; a cell with no admissible direction fails. On the way back every cell of a
        successful walk except the first swaps its contents with its successor. The cell
        ends stamped UT, its neighbours with negative velocity receive a non-forced stop,
        the walls never move, and a failed walk leaves all contents unchanged. */
    method PropagateMove(x: nat, y: nat, isFirst: bool) returns (ret: bool)
      requires Valid() && Open(x, y) && StampsAtMostUT() && lastUse.data[x, y] < ut - 1
      modifies lastUse.data, field.data, p.data, velocity.v.data, rnd
      ensures Valid() && StampsAtMostUT() && lastUse.data[x, y] == ut
      ensures Restamped(ut) && WallsKept()
      ensures !ret ==> ContentsKept()
      decreases |Below(ut - 1)|, 3
    {
      ghost var entry := Below(ut - 1);
      lastUse.data[x, y] := if isFirst then ut - 1 else ut;
      assert Below(ut - 1) <= entry - {(x, y)};
      SubsetMinusCard(Below(ut - 1), entry, (x, y));
      var nx, ny;
      label Walked:
      ret, nx, ny := MoveLoop(x, y);
      forall a, b | 0 <= a < n && 0 <= b < m
        ensures old(lastUse.data[a, b]) <= lastUse.data[a, b] <= ut
        ensures lastUse.data[a, b] != old(lastUse.data[a, b]) ==> (a, b) == (x, y) || lastUse.data[a, b] == ut
      {
        assert old@Walked(lastUse.data[a, b]) <= lastUse.data[a, b];
      }
      FinishMove(x, y, isFirst, ret, nx, ny);
    }

    /** The end of propagate_move: (x, y) is stamped UT, the stops spread, and only when the
        walk succeeded and (x, y) is not its first cell do (x, y) and (nx, ny) exchange their
        contents; otherwise all contents stay as they were. */
    method FinishMove(x: nat, y: nat, isFirst: bool, ret: bool, nx: int, ny: int)
      requires Valid() && Open(x, y) && StampsAtMostUT() && lastUse.data[x, y] >= ut - 1
      requires ret ==> Open(nx, ny)
      modifies lastUse.data, field.data, p.data, velocity.v.data
      ensures Valid() && StampsAtMostUT() && lastUse.data[x, y] == ut
      ensures forall a, b :: 0 <= a < n && 0 <= b < m ==>
        old(lastUse.data[a, b]) <= lastUse.data[a, b] &&
        (lastUse.data[a, b] != old(lastUse.data[a, b]) ==> lastUse.data[a, b] == ut)
      ensures WallsKept()
      ensures !(ret && !isFirst) ==> ContentsKept()
      ensures ret && !isFirst ==>
        field.data[x, y] == old(field.data[nx, ny]) && field.data[nx, ny] == old(field.data[x, y]) &&
        p.data[x, y] == old(p.data[nx, ny]) && p.data[nx, ny] == old(p.data[x, y]) &&
        velocity.v.data[x, y] == old(velocity.v.data[nx, ny]) &&
        velocity.v.data[nx, ny] == old(velocity.v.data[x, y])
    {
      lastUse.data[x, y] := ut;
      SpreadStops(x, y);
      if ret && !isFirst {
        SwapBetween(x, y, nx, ny);
      }
    }

    /** propagate_move's do-while from (x, y), stamped UT-1 or UT, written as a tail call:
        passes repeat until one is stuck (ret false) or succeeds (ret true, and (nx, ny) is
        the open neighbour it moved on to). Contents change only when a pass succeeds. */
    method MoveLoop(x: nat, y: nat) returns (ret: bool, nx: int, ny: int)
      requires Valid() && Open(x, y) && StampsAtMostUT() && lastUse.data[x, y] >= ut - 1
      modifies lastUse.data, field.data, p.data, velocity.v.data, rnd
      ensures Valid() && StampsAtMostUT() && Restamped(ut) && WallsKept()
      ensures !ret ==> ContentsKept()
      ensures ret ==> Open(nx, ny)
      decreases |Below(ut - 1)| + 1, 2
    {
      var stuck, d;
      stuck, ret, d, nx, ny := MoveAttempt(x, y);
      if !stuck && !ret {
        label Pass:
        ret, nx, ny := MoveLoop(x, y);
        forall a, b | 0 <= a < n && 0 <= b < m
          ensures old(lastUse.data[a, b]) <= lastUse.data[a, b]
          ensures lastUse.data[a, b] != old(lastUse.data[a, b]) ==> old(lastUse.data[a, b]) < ut && lastUse.data[a, b] == ut
        {
          assert old@Pass(lastUse.data[a, b]) <= lastUse.data[a, b];
        }
      }
    }

    /** One pass of propagate_move's do-while from (x, y), stamped UT-1 or UT: choose a
        direction (stuck, changing nothing, when there is none), then move on along it. */
    method MoveAttempt(x: nat, y: nat) returns (stuck: bool, ret: bool, d: nat, nx: int, ny: int)
      requires Valid() && Open(x, y) && StampsAtMostUT() && lastUse.data[x, y] >= ut - 1
      modifies lastUse.data, field.data, p.data, velocity.v.data, rnd
      ensures Valid() && StampsAtMostUT() && Restamped(ut) && WallsKept()
      ensures stuck <==> old(Prefix(Weights(x, y), 4)) == 0
      ensures stuck ==> !ret && unchanged(rnd)
      ensures ret ==> Open(nx, ny)
      ensures !ret ==> ContentsKept()
      ensures !stuck && !ret ==> |Below(ut - 1)| < old(|Below(ut - 1)|)
      decreases |Below(ut - 1)| + 1, 1
    {
      ghost var size := |Below(ut - 1)|;
      stuck, d, nx, ny := ChooseDirection(x, y);
      if stuck {
        return true, false, 0, 0, 0;
      }
      assert |Below(ut - 1)| == size;
      ret := MoveOn(x, y, nx, ny);
    }

    /** The step of a pass to the chosen neighbour (nx, ny), open and stamped below UT: it
        succeeds at once when (nx, ny) is stamped UT-1, closing a cycle, and otherwise
        recurses there with is_first false; a failed step stamps (nx, ny) UT, so the set of
        cells stamped below UT-1 shrinks. */
    method MoveOn(x: nat, y: nat, nx: int, ny: int) returns (ret: bool)
      requires Valid() && Open(x, y) && StampsAtMostUT() && lastUse.data[x, y] >= ut - 1
      requires Open(nx, ny) && lastUse.data[nx, ny] < ut
      modifies lastUse.data, field.data, p.data, velocity.v.data, rnd
      ensures Valid() && StampsAtMostUT() && Restamped(ut) && WallsKept() && Open(nx, ny)
      ensures !ret ==> ContentsKept()
      ensures !ret ==> |Below(ut - 1)| < old(|Below(ut - 1)|)
      decreases |Below(ut - 1)| + 1, 0
    {
      if lastUse.data[nx, ny] == ut - 1 {
        return true;
      }
      ghost var before := Below(ut - 1);
      assert (nx, ny) in before && (x, y) !in before;
      ret := PropagateMove(nx, ny, false);
      assert old(field.data[nx, ny]) != WALL;
      SubsetMinusCard(Below(ut - 1), before, (nx, ny));
    }

    /** The choice of one pass: stuck, without drawing, when the weights from (x, y) sum to
        0; otherwise one draw gives the fraction r in [0, unit), p = r * sum / unit lies in
        [0, sum), d = upper_bound(tres, p) is a direction of positive weight, and (nx, ny) is
        the neighbour that way: open, stamped below UT, with positive velocity toward it. */
    method ChooseDirection(x: nat, y: nat) returns (stuck: bool, d: nat, nx: int, ny: int)
      requires Valid() && Open(x, y) && StampsAtMostUT()
      modifies rnd
      ensures stuck <==> Prefix(Weights(x, y), 4) == 0
      ensures stuck ==> unchanged(rnd)
      ensures !stuck ==> rnd.pos == old(rnd.pos) + 1
      ensures !stuck ==>
        d == UpperBound(PrefixSums(Weights(x, y)), rnd.draws(old(rnd.pos)) % unit * Prefix(Weights(x, y), 4) / unit)
      ensures !stuck ==> d < 4 && Weights(x, y)[d] > 0
      ensures !stuck ==> nx == x + deltas[d].0 && ny == y + deltas[d].1 && Open(nx, ny)
      ensures !stuck ==> lastUse.data[nx, ny] < ut && velocity.Get(x, y, deltas[d].0, deltas[d].1) > 0
    {
      var tres, sum := BuildTable(x, y);
      if sum == 0 {
        return true, 0, 0, 0;
      }
      stuck := false;
      var r := Random01();
      d, nx, ny := SelectDirection(x, y, tres, sum, r);
    }

    /** The selection of a pass from its table and a positive sum, given the fraction r in
        [0, unit) of random01() in raw units: p = r * sum / unit lies in [0, sum), and
        d = upper_bound(tres, p) is a direction of positive weight, whose neighbour (nx, ny)
        is open, stamped below UT and reached along a positive velocity. */
    method SelectDirection(x: nat, y: nat, tres: seq<int>, sum: int, r: int) returns (d: nat, nx: int, ny: int)
      requires Valid() && Open(x, y) && StampsAtMostUT()
      requires tres == PrefixSums(Weights(x, y)) && sum == Prefix(Weights(x, y), 4) && sum != 0
      requires 0 <= r < unit
      ensures d == UpperBound(tres, r * sum / unit)
      ensures d < 4 && Weights(x, y)[d] > 0
      ensures nx == x + deltas[d].0 && ny == y + deltas[d].1 && Open(nx, ny)
      ensures lastUse.data[nx, ny] < ut && velocity.Get(x, y, deltas[d].0, deltas[d].1) > 0
    {
      ghost var w := Weights(x, y);
      PrefixMonotone(w, 0, 4);
      ScaledDrawInRange(r, sum, unit);
      var pv := r * sum / unit;
      SelectsPositive(w, pv);
      d := UpperBound(tres, pv);
      PositiveWeight(x, y, d);
      nx, ny := x + deltas[d].0, y + deltas[d].1;
    }

    /** A direction of positive weight leads to an open neighbour stamped below UT along a
        positive velocity (the assertion propagate_move makes about its choice). */
    lemma PositiveWeight(x: int, y: int, i: nat)
      requires Valid() && Open(x, y) && StampsAtMostUT() && i < 4 && Weight(x, y, i) > 0
      ensures Open(x + deltas[i].0, y + deltas[i].1)
      ensures lastUse.data[x + deltas[i].0, y + deltas[i].1] < ut
      ensures velocity.Get(x, y, deltas[i].0, deltas[i].1) > 0
    {
      OpenInterior(x, y, i);
    }

    /** The stops after the walk: each open neighbour stamped below UT-1 toward which the
        velocity is negative receives a non-forced propagate_stop. Only stamps change. */
    method SpreadStops(x: nat, y: nat)
      requires Valid() && Open(x, y) && StampsAtMostUT() && lastUse.data[x, y] == ut
      modifies lastUse.data
      ensures StampsAtMostUT() && lastUse.data[x, y] == ut && Restamped(ut)
    {
      var i := 0;
      while i < 4
        invariant i <= 4 && StampsAtMostUT() && lastUse.data[x, y] == ut && Restamped(ut)
      {
        OpenInterior(x, y, i);
        var nx, ny := x + deltas[i].0, y + deltas[i].1;
        if field.data[nx, ny] != WALL && lastUse.data[nx, ny] < ut - 1 &&
           velocity.Get(x, y, deltas[i].0, deltas[i].1) < 0 {
          PropagateStop(nx, ny, false);
        }
        i := i + 1;
      }
    }

    // -------------------------------------------------------------------------------
    // nextTick, phase A: gravity

    /** The cells gravity acts on: open cells whose lower neighbour (x + 1) is open. */
    predicate Falls(x: int, y: int)
      reads this, field, field.data
      requires field.Valid() && field.nv == n && field.mv == m
    {
      Open(x, y) && Open(x + 1, y)
    }

    /** A cell's velocities after gravity: the downward slot gained g if the cell falls, and
        no other slot changed. */
    predicate Pulled(before: Quad, after: Quad, falls: bool)
    {
      after[Slot(1, 0)] == before[Slot(1, 0)] + (if falls then g else 0) &&
      forall s :: 0 <= s < 4 && s != Slot(1, 0) ==> after[s] == before[s]
    }

    /** Phase A of nextTick: every falling cell gains g downward; nothing else changes. */
    method Gravity()
      requires Valid()
      modifies velocity.v.data
      ensures forall i, j :: 0 <= i < n && 0 <= j < m ==>
        Pulled(old(velocity.v.data[i, j]), velocity.v.data[i, j], Falls(i, j))
    {
      var x := 0;
      while x < n
        invariant x <= n
        invariant forall i, j :: 0 <= i < x && 0 <= j < m ==>
          Pulled(old(velocity.v.data[i, j]), velocity.v.data[i, j], Falls(i, j))
        invariant forall i, j :: x <= i < n && 0 <= j < m ==>
          velocity.v.data[i, j] == old(velocity.v.data[i, j])
      {
        GravityRow(x);
        x := x + 1;
      }
    }

    /** One row of phase A. */
    method GravityRow(x: nat)
      requires Valid() && x < n
      modifies velocity.v.data
      ensures forall j :: 0 <= j < m ==>
        Pulled(old(velocity.v.data[x, j]), velocity.v.data[x, j], Falls(x, j))
      ensures forall i, j :: 0 <= i < n && 0 <= j < m && i != x ==>
        velocity.v.data[i, j] == old(velocity.v.data[i, j])
    {
      var y := 0;
      while y < m
        invariant y <= m
        invariant forall j :: 0 <= j < y ==>
          Pulled(old(velocity.v.data[x, j]), velocity.v.data[x, j], Falls(x, j))
        invariant forall i, j :: 0 <= i < n && 0 <= j < m && (i != x || j >= y) ==>
          velocity.v.data[i, j] == old(velocity.v.data[i, j])
      {
        if field.data[x, y] != WALL && field.data[x + 1, y] != WALL {
          var _ := velocity.Add(x, y, 1, 0, g);
        }
        y := y + 1;
      }
    }

    // -------------------------------------------------------------------------------
    // nextTick, phase C: flow rounds

    /** Each flow slot of a cell is zero, as clear() leaves it, or at most the velocity in
        that slot, its capacity. */
    predicate FlowWithin(flow: Quad, cap: Quad)
    {
      forall s :: 0 <= s < 4 ==> flow[s] == 0 || flow[s] <= cap[s]
    }

    /** A flow push keeps a cell's flow within its capacities. */
    lemma StepWithin(before: Quad, after: Quad, cap: Quad)
      requires FlowWithin(before, cap) && QuadStep(before, after, cap)
      ensures FlowWithin(after, cap)
    {
      forall s | 0 <= s < 4
        ensures after[s] == 0 || after[s] <= cap[s]
      {
        assert EdgeStep(before[s], after[s], cap[s]);
      }
    }

    /** FlowWithin at every cell. */
    predicate FlowBounded()
      reads this, field, p, oldP, lastUse, dirs, velocity, velocityFlow, velocity.v, velocityFlow.v
      reads field.data, velocity.v.data, velocityFlow.v.data
      requires Valid()
    {
      forall i, j :: 0 <= i < n && 0 <= j < m ==> FlowWithin(velocityFlow.v.data[i, j], velocity.v.data[i, j])
    }

    /** Between sweeps no stamp is UT-1 and none is above UT. */
    predicate StampsClear()
      reads this, lastUse, lastUse.data
      requires lastUse.Valid() && lastUse.nv == n && lastUse.mv == m
    {
      forall i, j :: 0 <= i < n && 0 <= j < m ==> lastUse.data[i, j] <= ut && lastUse.data[i, j] != ut - 1
    }

    /** UT += 2: every earlier stamp is now at most UT-2. */
    method AdvanceTime()
      requires Valid() && StampsAtMostUT()
      modifies this
      ensures Valid() && ut == old(ut) + 2 && StampsClear()
      ensures forall i, j :: 0 <= i < n && 0 <= j < m ==> lastUse.data[i, j] < ut - 1
    {
      ut := ut + 2;
    }

    /** The body of phase C for cell (x, y): an open cell not yet stamped UT pushes at most one
        unit of flow from itself; prop reports that a positive amount got through. The flow
        stays within its capacities, only stamps and flows change, stamps only rise, and the
        cell ends stamped UT. */
    method FlowCell(x: nat, y: nat) returns (prop: bool)
      requires Valid() && StampsClear() && FlowBounded() && x < n && y < m
      modifies lastUse.data, velocityFlow.v.data
      ensures StampsClear() && FlowBounded()
      ensures Open(x, y) ==> lastUse.data[x, y] == ut
      ensures forall i, j :: 0 <= i < n && 0 <= j < m ==> old(lastUse.data[i, j]) <= lastUse.data[i, j]
      ensures prop ==> Open(x, y) && old(lastUse.data[x, y]) != ut
    {
      prop := false;
      if field.data[x, y] != WALL && lastUse.data[x, y] != ut {
        var t, _, _ := PropagateFlow(x, y, unit);
        prop := t > 0;
        forall i, j | 0 <= i < n && 0 <= j < m
          ensures FlowWithin(velocityFlow.v.data[i, j], velocity.v.data[i, j])
        {
          if velocityFlow.v.data[i, j] != old(velocityFlow.v.data[i, j]) {
            StepWithin(old(velocityFlow.v.data[i, j]), velocityFlow.v.data[i, j], velocity.v.data[i, j]);
          }
        }
      }
    }

    /** One row of a flow round. */
    method FlowRow(x: nat) returns (prop: bool)
      requires Valid() && StampsClear() && FlowBounded() && x < n
      modifies lastUse.data, velocityFlow.v.data
      ensures StampsClear() && FlowBounded()
      ensures forall j :: 0 <= j < m && Open(x, j) ==> lastUse.data[x, j] == ut
      ensures forall i, j :: 0 <= i < n && 0 <= j < m ==> old(lastUse.data[i, j]) <= lastUse.data[i, j]
    {
      prop := false;
      var y := 0;
      while y < m
        invariant y <= m && StampsClear() && FlowBounded()
        invariant forall j :: 0 <= j < y && Open(x, j) ==> lastUse.data[x, j] == ut
        invariant forall i, j :: 0 <= i < n && 0 <= j < m ==> old(lastUse.data[i, j]) <= lastUse.data[i, j]
      {
        label Before:
        var pushed := FlowCell(x, y);
        prop := prop || pushed;
        forall i, j | 0 <= i < n && 0 <= j < m
          ensures old(lastUse.data[i, j]) <= lastUse.data[i, j]
        {
          assert old@Before(lastUse.data[i, j]) <= lastUse.data[i, j];
        }
        y := y + 1;
      }
    }

    /** One round of phase C with the column advanced on every branch (the loop as written
        stalls; see the Sweeps module): UT += 2, then every open cell not yet stamped UT
        pushes flow from itself. Afterwards every open cell is stamped UT and the flow is
        still within its capacities. */
    method FlowRound() returns (prop: bool)
      requires Valid() && StampsAtMostUT() && FlowBounded()
      modifies this, lastUse.data, velocityFlow.v.data
      ensures Valid() && ut == old(ut) + 2 && StampsClear() && FlowBounded()
      ensures forall i, j :: 0 <= i < n && 0 <= j < m && Open(i, j) ==> lastUse.data[i, j] == ut
    {
      AdvanceTime();
      prop := false;
      var x := 0;
      while x < n
        invariant x <= n && Valid() && ut == old(ut) + 2 && StampsClear() && FlowBounded()
        invariant forall i, j :: 0 <= i < x && 0 <= j < m && Open(i, j) ==> lastUse.data[i, j] == ut
      {
        var pushed := FlowRow(x);
        prop := prop || pushed;
        x := x + 1;
      }
    }

    // -------------------------------------------------------------------------------
    // nextTick, phase D: the velocities settle to the flow

    /** velocity_flow.clear() before the flow rounds: every flow slot is zero, hence within
        its capacity. */
    method ClearFlow()
      requires Valid()
      modifies velocityFlow.v.data
      ensures Valid() && FlowBounded()
      ensures forall i, j :: 0 <= i < n && 0 <= j < m ==> velocityFlow.v.data[i, j] == ZeroQuad
    {
      velocityFlow.Clear();
    }

    /** The body of phase D for the open cell (x, y). Each slot with a positive velocity takes
        the flow found for it, which is never more (the assertion of phase D), and the drop
        becomes pressure at the neighbour, or at the cell itself when the neighbour is a wall.
        push(material, drop, dirs) stands for the pressure that drop adds: the drop times the
        material's density, times 0.8 for '.', over the receiving cell's open-neighbour count.
        No other cell's velocity changes, and pressure changes only at the cell and its four
        neighbours. */
    method SettleCell(x: nat, y: nat, push: (byte, int, int) -> int)
      requires Valid() && Open(x, y) && FlowBounded()
      modifies velocity.v.data, p.data
      ensures Valid() && FlowBounded()
      ensures forall s :: 0 <= s < 4 ==> (velocity.v.data[x, y][s] ==
        if old(velocity.v.data[x, y][s]) > 0 then velocityFlow.v.data[x, y][s] else old(velocity.v.data[x, y][s]))
      ensures forall s :: 0 <= s < 4 ==> velocity.v.data[x, y][s] <= old(velocity.v.data[x, y][s])
      ensures forall i, j :: 0 <= i < n && 0 <= j < m && (i, j) != (x, y) ==>
        velocity.v.data[i, j] == old(velocity.v.data[i, j])
      ensures forall i, j :: 0 <= i < n && 0 <= j < m && (i, j) != (x, y) && !IsUnit(i - x, j - y) ==>
        p.data[i, j] == old(p.data[i, j])
      ensures forall i, j :: 0 <= i < n && 0 <= j < m && !Open(i, j) ==> p.data[i, j] == old(p.data[i, j])
    {
      ghost var done: set<nat> := {};
      var i := 0;
      while i < 4
        invariant i <= 4 && Valid() && FlowBounded()
        invariant forall j :: 0 <= j < i ==> Slot(deltas[j].0, deltas[j].1) in done
        invariant forall s :: 0 <= s < 4 ==> (velocity.v.data[x, y][s] ==
          if s in done && old(velocity.v.data[x, y][s]) > 0 then velocityFlow.v.data[x, y][s]
          else old(velocity.v.data[x, y][s]))
        invariant forall i, j :: 0 <= i < n && 0 <= j < m && (i, j) != (x, y) ==>
          velocity.v.data[i, j] == old(velocity.v.data[i, j])
        invariant forall i, j :: 0 <= i < n && 0 <= j < m && (i, j) != (x, y) && !IsUnit(i - x, j - y) ==>
          p.data[i, j] == old(p.data[i, j])
        invariant forall i, j :: 0 <= i < n && 0 <= j < m && !Open(i, j) ==> p.data[i, j] == old(p.data[i, j])
      {
        OpenInterior(x, y, i);
        assert IsUnit(deltas[i].0, deltas[i].1);
        SettleEdge(x, y, deltas[i].0, deltas[i].1, push);
        done := done + {Slot(deltas[i].0, deltas[i].1)};
        i := i + 1;
      }
      forall s | 0 <= s < 4
        ensures s in done
      {
        SlotsCover(deltas, s);
      }
    }

    /** The cell whose pressure a settled edge raises: the neighbour (x + dx, y + dy), or the
        cell itself when the neighbour is a wall. Either way it is an open cell. */
    function Receiver(x: nat, y: nat, dx: int, dy: int): (r: (int, int))
      reads this, field, field.data
      requires field.Valid() && field.nv == n && field.mv == m && Bordered()
      requires Open(x, y) && IsUnit(dx, dy)
      ensures Open(r.0, r.1)
    {
      if field.data[x + dx, y + dy] == WALL then (x, y) else (x + dx, y + dy)
    }

    /** One direction (dx, dy) of SettleCell: a positive velocity takes the flow of that slot,
        which is never more, and the drop becomes pressure at the neighbour, or at the cell
        itself when the neighbour is a wall. */
    method SettleEdge(x: nat, y: nat, dx: int, dy: int, push: (byte, int, int) -> int)
      requires Valid() && Open(x, y) && FlowBounded() && IsUnit(dx, dy)
      modifies velocity.v.data, p.data
      ensures Valid() && FlowBounded()
      ensures velocity.v.data[x, y] == old(velocity.v.data[x, y])[Slot(dx, dy) :=
        if old(velocity.v.data[x, y][Slot(dx, dy)]) > 0 then velocityFlow.v.data[x, y][Slot(dx, dy)]
        else old(velocity.v.data[x, y][Slot(dx, dy)])]
      ensures forall i, j :: 0 <= i < n && 0 <= j < m && (i, j) != (x, y) ==>
        velocity.v.data[i, j] == old(velocity.v.data[i, j])
      ensures forall i, j :: 0 <= i < n && 0 <= j < m && (i, j) != (x, y) && (i, j) != (x + dx, y + dy) ==>
        p.data[i, j] == old(p.data[i, j])
      ensures old(velocity.v.data[x, y][Slot(dx, dy)]) <= 0 ==>
        forall i, j :: 0 <= i < n && 0 <= j < m ==> p.data[i, j] == old(p.data[i, j])
      ensures old(velocity.v.data[x, y][Slot(dx, dy)]) > 0 ==>
        var (rx, ry) := old(Receiver(x, y, dx, dy));
        p.data[rx, ry] == old(p.data[rx, ry] + push(field.data[x, y],
          velocity.v.data[x, y][Slot(dx, dy)] - velocityFlow.v.data[x, y][Slot(dx, dy)], dirs.data[rx, ry])) &&
        forall i, j :: 0 <= i < n && 0 <= j < m && (i, j) != (rx, ry) ==> p.data[i, j] == old(p.data[i, j])
      ensures forall i, j :: 0 <= i < n && 0 <= j < m && !Open(i, j) ==> p.data[i, j] == old(p.data[i, j])
    {
      var oldV := velocity.Get(x, y, dx, dy);
      var newV := velocityFlow.Get(x, y, dx, dy);
      if oldV > 0 {
        assert newV <= oldV;
        var (rx, ry) := Receiver(x, y, dx, dy);
        var dp := push(field.data[x, y], oldV - newV, dirs.data[rx, ry]);
        TakeFlow(x, y, dx, dy);
        AddPressure(rx, ry, dp);
        assert p.data[rx, ry] == old(p.data[rx, ry]) + dp;
      }
    }

    /** p[x][y] += dp: the pressure of one cell grows by dp and no other cell's changes. */
    method AddPressure(x: int, y: int, dp: int)
      requires Valid() && FlowBounded() && 0 <= x < n && 0 <= y < m
      modifies p.data
      ensures Valid() && FlowBounded()
      ensures p.data[x, y] == old(p.data[x, y]) + dp
      ensures forall i, j :: 0 <= i < n && 0 <= j < m && (i, j) != (x, y) ==> p.data[i, j] == old(p.data[i, j])
    {
      p.data[x, y] := p.data[x, y] + dp;
    }

    /** velocity.get(x, y, dx, dy) = velocity_flow.get(x, y, dx, dy): that one slot takes its
        flow, which keeps every flow within its capacity. */
    method TakeFlow(x: nat, y: nat, dx: int, dy: int)
      requires Valid() && x < n && y < m && FlowBounded()
      modifies velocity.v.data
      ensures Valid() && FlowBounded()
      ensures velocity.v.data[x, y] == old(velocity.v.data[x, y])[Slot(dx, dy) := velocityFlow.Get(x, y, dx, dy)]
      ensures forall i, j :: 0 <= i < n && 0 <= j < m && (i, j) != (x, y) ==>
        velocity.v.data[i, j] == old(velocity.v.data[i, j])
    {
      ghost var f := velocityFlow.v.data[x, y];
      assert FlowWithin(f, velocity.v.data[x, y]);
      velocity.Set(x, y, dx, dy, velocityFlow.Get(x, y, dx, dy));
      assert FlowWithin(f, velocity.v.data[x, y]);
    }

    /** Phase D: every open cell settles as SettleCell says; walls keep their velocities. No
        velocity grows. */
    method Settle(push: (byte, int, int) -> int)
      requires Valid() && FlowBounded()
      modifies velocity.v.data, p.data
      ensures Valid() && FlowBounded()
      ensures forall i, j, s :: 0 <= i < n && 0 <= j < m && 0 <= s < 4 ==> (velocity.v.data[i, j][s] ==
        if Open(i, j) && old(velocity.v.data[i, j][s]) > 0 then velocityFlow.v.data[i, j][s]
        else old(velocity.v.data[i, j][s]))
      ensures forall i, j, s :: 0 <= i < n && 0 <= j < m && 0 <= s < 4 ==>
        velocity.v.data[i, j][s] <= old(velocity.v.data[i, j][s])
      ensures forall i, j :: 0 <= i < n && 0 <= j < m && !Open(i, j) ==> p.data[i, j] == old(p.data[i, j])
    {
      var x := 0;
      while x < n
        invariant x <= n && Valid() && FlowBounded()
        invariant forall i, j, s :: 0 <= i < x && 0 <= j < m && 0 <= s < 4 ==> (velocity.v.data[i, j][s] ==
          if Open(i, j) && old(velocity.v.data[i, j][s]) > 0 then velocityFlow.v.data[i, j][s]
          else old(velocity.v.data[i, j][s]))
        invariant forall i, j :: x <= i < n && 0 <= j < m ==> velocity.v.data[i, j] == old(velocity.v.data[i, j])
        invariant forall i, j :: 0 <= i < n && 0 <= j < m && !Open(i, j) ==> p.data[i, j] == old(p.data[i, j])
      {
        SettleRow(x, push);
        x := x + 1;
      }
    }

    /** One row of phase D. */
    method SettleRow(x: nat, push: (byte, int, int) -> int)
      requires Valid() && FlowBounded() && x < n
      modifies velocity.v.data, p.data
      ensures Valid() && FlowBounded()
      ensures forall j, s :: 0 <= j < m && 0 <= s < 4 ==> (velocity.v.data[x, j][s] ==
        if Open(x, j) && old(velocity.v.data[x, j][s]) > 0 then velocityFlow.v.data[x, j][s]
        else old(velocity.v.data[x, j][s]))
      ensures forall i, j :: 0 <= i < n && 0 <= j < m && i != x ==> velocity.v.data[i, j] == old(velocity.v.data[i, j])
      ensures forall i, j :: 0 <= i < n && 0 <= j < m && !Open(i, j) ==> p.data[i, j] == old(p.data[i, j])
    {
      var y := 0;
      while y < m
        invariant y <= m && Valid() && FlowBounded()
        invariant forall j, s :: 0 <= j < y && 0 <= s < 4 ==> (velocity.v.data[x, j][s] ==
          if Open(x, j) && old(velocity.v.data[x, j][s]) > 0 then velocityFlow.v.data[x, j][s]
          else old(velocity.v.data[x, j][s]))
        invariant forall i, j :: 0 <= i < n && 0 <= j < m && (i != x || j >= y) ==>
          velocity.v.data[i, j] == old(velocity.v.data[i, j])
        invariant forall i, j :: 0 <= i < n && 0 <= j < m && !Open(i, j) ==> p.data[i, j] == old(p.data[i, j])
      {
        if field.data[x, y] != WALL {
          SettleCell(x, y, push);
        }
        y := y + 1;
      }
    }

    // -------------------------------------------------------------------------------
    // nextTick, phase E: the displacement sweep

    /** The body of phase E for cell (x, y). An open cell not yet stamped UT takes one draw in
        [0, 1); if it is below the cell's move probability the cell moves (propagate_move as the
        first call of a walk), otherwise it is stopped (a forced propagate_stop). Either way
        it ends stamped UT. Walls stay walls, stamps only rise to UT, and when nothing moved
        no material, pressure or velocity changed. */
    method DisplaceCell(x: nat, y: nat) returns (moved: bool)
      requires Valid() && StampsClear() && x < n && y < m
      modifies lastUse.data, field.data, p.data, velocity.v.data, rnd
      ensures Valid() && StampsClear() && WallsKept()
      ensures Open(x, y) ==> lastUse.data[x, y] == ut
      ensures forall i, j :: 0 <= i < n && 0 <= j < m ==> old(lastUse.data[i, j]) <= lastUse.data[i, j]
      ensures !moved ==> ContentsKept()
      ensures moved ==> old(Open(x, y)) && old(lastUse.data[x, y]) != ut
      ensures old(Open(x, y)) && old(lastUse.data[x, y]) != ut ==>
        (moved <==> rnd.draws(old(rnd.pos)) % unit < old(Prefix(Weights(x, y), 4)))
    {
      moved := false;
      if field.data[x, y] != WALL && lastUse.data[x, y] != ut {
        moved := DecideMove(x, y);
        if moved {
          var _ := PropagateMove(x, y, true);
        } else {
          PropagateStop(x, y, true);
        }
      }
    }

    /** random01() < move_prob(x, y): one draw in [0, 1) against the sum of the cell's
        weights. Only the generator advances. */
    method DecideMove(x: nat, y: nat) returns (moved: bool)
      requires Valid() && Open(x, y)
      modifies rnd
      ensures rnd.pos == old(rnd.pos) + 1
      ensures moved <==> rnd.draws(old(rnd.pos)) % unit < Prefix(Weights(x, y), 4)
    {
      var r := Random01();
      var prob := MoveProb(x, y);
      moved := r < prob;
    }

    /** One row of the displacement sweep. */
    method DisplaceRow(x: nat) returns (moved: bool)
      requires Valid() && StampsClear() && x < n
      modifies lastUse.data, field.data, p.data, velocity.v.data, rnd
      ensures Valid() && StampsClear() && WallsKept()
      ensures forall j :: 0 <= j < m && Open(x, j) ==> lastUse.data[x, j] == ut
      ensures forall i, j :: 0 <= i < n && 0 <= j < m ==> old(lastUse.data[i, j]) <= lastUse.data[i, j]
      ensures !moved ==> ContentsKept()
    {
      moved := false;
      var y := 0;
      while y < m
        invariant y <= m && Valid() && StampsClear() && WallsKept()
        invariant forall j :: 0 <= j < y && Open(x, j) ==> lastUse.data[x, j] == ut
        invariant forall i, j :: 0 <= i < n && 0 <= j < m ==> old(lastUse.data[i, j]) <= lastUse.data[i, j]
        invariant !moved ==> ContentsKept()
      {
        label Before:
        var cell := DisplaceCell(x, y);
        forall i, j | 0 <= i < n && 0 <= j < m
          ensures old(lastUse.data[i, j]) <= lastUse.data[i, j]
          ensures field.data[i, j] == WALL <==> old(field.data[i, j]) == WALL
        {
          assert old@Before(lastUse.data[i, j]) <= lastUse.data[i, j];
          assert field.data[i, j] == WALL <==> old@Before(field.data[i, j]) == WALL;
        }
        moved := moved || cell;
        y := y + 1;
      }
    }

    /** Phase E: UT += 2, then every open cell not reached by an earlier walk moves or is
        stopped. Afterwards every open cell is stamped UT, walls are where they were, and if
        no cell moved, no material, pressure or velocity changed. */
    method Displace() returns (moved: bool)
      requires Valid() && StampsAtMostUT()
      modifies this, lastUse.data, field.data, p.data, velocity.v.data, rnd
      ensures Valid() && ut == old(ut) + 2 && StampsClear() && WallsKept()
      ensures forall i, j :: 0 <= i < n && 0 <= j < m && Open(i, j) ==> lastUse.data[i, j] == ut
      ensures !moved ==> ContentsKept()
    {
      AdvanceTime();
      moved := false;
      var x := 0;
      while x < n
        invariant x <= n && Valid() && ut == old(ut) + 2 && StampsClear() && WallsKept()
        invariant forall i, j :: 0 <= i < x && 0 <= j < m && Open(i, j) ==> lastUse.data[i, j] == ut
        invariant !moved ==> ContentsKept()
      {
        label Before:
        var row := DisplaceRow(x);
        forall i, j | 0 <= i < n && 0 <= j < m
          ensures field.data[i, j] == WALL <==> old(field.data[i, j]) == WALL
        {
          assert field.data[i, j] == WALL <==> old@Before(field.data[i, j]) == WALL;
        }
        moved := moved || row;
        x := x + 1;
      }
    }
  }
}
