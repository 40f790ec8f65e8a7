/** VectorField (headers/VectorField.h): one value per cell and per unit direction, stored
    as a 4-slot array per cell; the slot of a direction is computed from the low two bits
    of dx and dy. Values are the engine's raw numbers (unbounded ints); Type{} is 0. */
module Fields {
  import opened Matrices

  /** Bit 0 and bit 1 of an int in two's complement (Euclidean % and / round toward minus
      infinity, like an arithmetic shift). */
  function Bit0(x: int): (b: nat)
    ensures b <= 1
  {
    x % 2
  }

  function Bit1(x: int): (b: nat)
    ensures b <= 1
  {
    (x / 2) % 2
  }

  /** The slot expression of get: bit 1 is dy's bit 0; bit 0 is set when dx or dy has both
      low bits set, that is, when it is -1 (or congruent to -1 modulo 4). */
  function Slot(dx: int, dy: int): (s: nat)
    ensures s < 4
  {
    var both := if Bit0(dx) * Bit1(dx) == 1 || Bit0(dy) * Bit1(dy) == 1 then 1 else 0;
    2 * Bit0(dy) + both
  }

  /** The four unit directions. */
  predicate IsUnit(dx: int, dy: int)
  {
    (dx, dy) in {(1, 0), (-1, 0), (0, 1), (0, -1)}
  }

  /** The direction stored in each slot, written out independently of Slot. */
  function Direction(s: nat): (d: (int, int))
    requires s < 4
    ensures IsUnit(d.0, d.1)
  {
    [(1, 0), (-1, 0), (0, 1), (0, -1)][s]
  }

  /** Slot and Direction are inverse: Slot is a bijection from the unit directions onto
      0..3, mapping (1,0), (-1,0), (0,1), (0,-1) to 0, 1, 2, 3. */
  lemma SlotDirection(s: nat)
    requires s < 4
    ensures Slot(Direction(s).0, Direction(s).1) == s
  {
    if s == 0 {
      assert Slot(1, 0) == 0;
    } else if s == 1 {
      assert Bit0(-1) == 1 && Bit1(-1) == 1;
    } else if s == 2 {
      assert Slot(0, 1) == 2;
    } else {
      assert Bit0(-1) == 1 && Bit1(-1) == 1;
    }
  }

  lemma DirectionSlot(dx: int, dy: int)
    requires IsUnit(dx, dy)
    ensures Direction(Slot(dx, dy)) == (dx, dy)
  {
    assert Bit0(-1) == 1 && Bit1(-1) == 1;
    assert Bit0(1) == 1 && Bit1(1) == 0;
  }

  /** Distinct unit directions use distinct slots; in particular a direction and its
      opposite never share one. */
  lemma SlotsDistinct(dx1: int, dy1: int, dx2: int, dy2: int)
    requires IsUnit(dx1, dy1) && IsUnit(dx2, dy2) && (dx1, dy1) != (dx2, dy2)
    ensures Slot(dx1, dy1) != Slot(dx2, dy2)
  {
    DirectionSlot(dx1, dy1);
    DirectionSlot(dx2, dy2);
  }

  lemma OppositeSlots(dx: int, dy: int)
    requires IsUnit(dx, dy)
    ensures IsUnit(-dx, -dy) && Slot(dx, dy) != Slot(-dx, -dy)
  {
    SlotsDistinct(dx, dy, -dx, -dy);
  }

  /** std::array<Type, 4>. */
  type Quad = q: seq<int> | |q| == 4 witness [0, 0, 0, 0]

  const ZeroQuad: Quad := [0, 0, 0, 0]

  class VectorField {
    var n: nat
    var m: nat
    const v: Matrix<Quad>

    predicate Valid()
      reads this, v
    {
      v.Valid()
    }

    /** VectorField<Type, Nv, Mv>{}: N = Nv, M = Mv and every slot zero. */
    constructor(nv: nat, mv: nat)
      ensures Valid() && n == nv && m == mv && v.nv == nv && v.mv == mv
      ensures fresh(v) && fresh(v.data)
      ensures forall i, j :: 0 <= i < nv && 0 <= j < mv ==> v.data[i, j] == ZeroQuad
    {
      n := nv;
      m := mv;
      v := new Matrix(nv, mv, ZeroQuad);
    }

    /** get(x, y, dx, dy), read: the value stored for direction (dx, dy) at cell (x, y). */
    function Get(x: nat, y: nat, dx: int, dy: int): int
      reads this, v, v.data
      requires Valid() && x < v.nv && y < v.mv
    {
      v.data[x, y][Slot(dx, dy)]
    }

    /** get(x, y, dx, dy) = value: writes through the returned reference. */
    method Set(x: nat, y: nat, dx: int, dy: int, value: int)
      requires Valid() && x < v.nv && y < v.mv
      modifies v.data
      ensures v.data[x, y] == old(v.data[x, y])[Slot(dx, dy) := value]
      ensures Get(x, y, dx, dy) == value
      ensures forall i, j :: 0 <= i < v.nv && 0 <= j < v.mv && (i, j) != (x, y) ==>
        v.data[i, j] == old(v.data[i, j])
    {
      v.data[x, y] := v.data[x, y][Slot(dx, dy) := value];
    }

    /** add(x, y, dx, dy, dv): that one slot grows by dv and is returned; no other slot of
        the cell and no other cell changes. */
    method Add(x: nat, y: nat, dx: int, dy: int, dv: int) returns (r: int)
      requires Valid() && x < v.nv && y < v.mv
      modifies v.data
      ensures r == old(Get(x, y, dx, dy)) + dv && Get(x, y, dx, dy) == r
      ensures forall s :: 0 <= s < 4 && s != Slot(dx, dy) ==> v.data[x, y][s] == old(v.data[x, y][s])
      ensures forall i, j :: 0 <= i < v.nv && 0 <= j < v.mv && (i, j) != (x, y) ==>
        v.data[i, j] == old(v.data[i, j])
    {
      r := v.data[x, y][Slot(dx, dy)] + dv;
      v.data[x, y] := v.data[x, y][Slot(dx, dy) := r];
    }

    /** clear(): every slot of every cell in the N x M region becomes zero; cells outside
        the region (possible only when N, M are below the storage size) are untouched. */
    method Clear()
      requires Valid() && n <= v.nv && m <= v.mv
      modifies v.data
      ensures forall i, j :: 0 <= i < n && 0 <= j < m ==> v.data[i, j] == ZeroQuad
      ensures forall i, j :: 0 <= i < v.nv && 0 <= j < v.mv && !(i < n && j < m) ==>
        v.data[i, j] == old(v.data[i, j])
    {
      var x := 0;
      while x < n
        invariant x <= n
        invariant forall i, j :: 0 <= i < x && 0 <= j < m ==> v.data[i, j] == ZeroQuad
        invariant forall i, j :: 0 <= i < v.nv && 0 <= j < v.mv && !(i < x && j < m) ==>
          v.data[i, j] == old(v.data[i, j])
      {
        var y := 0;
        while y < m
          invariant y <= m
          invariant forall i, j :: 0 <= i < x && 0 <= j < m ==> v.data[i, j] == ZeroQuad
          invariant forall j :: 0 <= j < y ==> v.data[x, j] == ZeroQuad
          invariant forall i, j :: 0 <= i < v.nv && 0 <= j < v.mv && !(i < x && j < m) && !(i == x && j < y) ==>
            v.data[i, j] == old(v.data[i, j])
        {
          var z := 0;
          while z < 4
            invariant z <= 4
            invariant forall s :: 0 <= s < z ==> v.data[x, y][s] == 0
            invariant forall s :: z <= s < 4 ==> v.data[x, y][s] == old(v.data[x, y][s])
            invariant forall i, j :: 0 <= i < x && 0 <= j < m ==> v.data[i, j] == ZeroQuad
            invariant forall j :: 0 <= j < y ==> v.data[x, j] == ZeroQuad
            invariant forall i, j :: 0 <= i < v.nv && 0 <= j < v.mv && !(i < x && j < m) && !(i == x && j <= y) ==>
              v.data[i, j] == old(v.data[i, j])
          {
            v.data[x, y] := v.data[x, y][z := 0];
            z := z + 1;
          }
          assert v.data[x, y] == ZeroQuad;
          y := y + 1;
        }
        x := x + 1;
      }
    }

    /** init(N, M): records N and M, then initialises the storage, which for a fixed-size
        matrix fails (throws) unless the sizes are the compile-time ones. N and M are
        assigned before the check. */
    method Init(nValue: nat, mValue: nat) returns (ok: bool)
      requires Valid()
      modifies this
      ensures n == nValue && m == mValue
      ensures ok <==> (nValue, mValue) == (v.nv, v.mv)
    {
      n, m := nValue, mValue;
      ok := v.Init(nValue, mValue);
    }
  }
}
