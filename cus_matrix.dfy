/** CusMatrix (headers/CusMatrix.h): the grid storage of the engine. With compile-time
    dimensions it is a plain Nv x Mv array; the <T, 0, 0> specialisation is a vector of
    row vectors sized at run time. T's value-initialisation T{} is the parameter `dflt`. */
module Matrices {

  /** CusMatrix<T, Nv, Mv>: a fixed-size buffer T v[Nv][Mv]{}. */
  class Matrix<T> {
    const nv: nat
    const mv: nat
    const data: array2<T>

    predicate Valid()
      reads this
    {
      data.Length0 == nv && data.Length1 == mv
    }

    /** The member initialiser {} value-initialises every element. */
    constructor(nv: nat, mv: nat, dflt: T)
      ensures Valid() && this.nv == nv && this.mv == mv && fresh(data)
      ensures forall i, j :: 0 <= i < nv && 0 <= j < mv ==> data[i, j] == dflt
    {
      this.nv := nv;
      this.mv := mv;
      data := new T[nv, mv]((i, j) => dflt);
    }

    /** init(N, M): the dimensions are fixed at compile time, so init only checks them; a
        mismatch is the "Wrong field size" exception, reported as ok == false. */
    method Init(n: nat, m: nat) returns (ok: bool)
      ensures ok <==> (n, m) == (nv, mv)
    {
      if n != nv || m != mv {
        return false;
      }
      return true;
    }

    /** operator[](i): row i. */
    function Row(i: nat): (r: seq<T>)
      reads this, data
      requires Valid() && i < nv
      ensures |r| == mv && forall j :: 0 <= j < mv ==> r[j] == data[i, j]
    {
      seq(mv, j reads data requires 0 <= j < mv => data[i, j])
    }

    /** The whole matrix as rows. */
    function Rows(): (r: seq<seq<T>>)
      reads this, data
      requires Valid()
      ensures |r| == nv && forall i :: 0 <= i < nv ==> r[i] == Row(i)
    {
      seq(nv, i reads this, data requires Valid() && 0 <= i < nv => Row(i))
    }

    /** operator=: after assignment from a matrix of the same type every element equals the
        source's; self-assignment returns at once and changes nothing. */
    method Assign(other: Matrix<T>)
      requires Valid() && other.Valid() && other.nv == nv && other.mv == mv
      modifies data
      ensures Rows() == old(other.Rows())
      ensures this == other ==> unchanged(data)
    {
      if this == other {
        return;
      }
      forall i, j | 0 <= i < nv && 0 <= j < mv {
        data[i, j] := other.data[i, j];
      }
      assert forall i :: 0 <= i < nv ==> Row(i) == old(other.Row(i));
    }
  }

  /** operator[] gives a faithful view: two matrices of one shape have the same rows exactly
      when they hold the same elements, so Assign's equality of rows is an element-wise copy. */
  lemma RowsExtensional<T>(a: Matrix<T>, b: Matrix<T>)
    requires a.Valid() && b.Valid() && a.nv == b.nv && a.mv == b.mv
    ensures a.Rows() == b.Rows() <==>
      forall i, j :: 0 <= i < a.nv && 0 <= j < a.mv ==> a.data[i, j] == b.data[i, j]
  {
    if a.Rows() == b.Rows() {
      forall i, j | 0 <= i < a.nv && 0 <= j < a.mv
        ensures a.data[i, j] == b.data[i, j]
      {
        assert a.Rows()[i][j] == b.Rows()[i][j];
      }
    }
    if forall i, j :: 0 <= i < a.nv && 0 <= j < a.mv ==> a.data[i, j] == b.data[i, j] {
      forall i | 0 <= i < a.nv
        ensures a.Row(i) == b.Row(i)
      {
      }
    }
  }

  // ---------------------------------------------------------------------------------
  // CusMatrix<T, 0, 0>: std::vector<std::vector<T>>

  /** std::vector::resize(n, row): the first min(n, |v|) rows are kept, rows beyond the old
      length are copies of `row`, and the vector has exactly n rows. */
  function Resized<T>(v: seq<seq<T>>, n: nat, row: seq<T>): (r: seq<seq<T>>)
    ensures |r| == n
    ensures forall i :: 0 <= i < n && i < |v| ==> r[i] == v[i]
    ensures forall i :: |v| <= i < n ==> r[i] == row
  {
    if n <= |v| then v[..n] else v + seq(n - |v|, _ => row)
  }

  /** The length and the prefix of a resize determine it. */
  lemma ResizedUnique<T>(v: seq<seq<T>>, n: nat, row: seq<T>, r: seq<seq<T>>)
    requires |r| == n
    requires forall i :: 0 <= i < n && i < |v| ==> r[i] == v[i]
    requires forall i :: |v| <= i < n ==> r[i] == row
    ensures r == Resized(v, n, row)
  {
  }

  /** Resizing twice to the same size with the same fill is resizing once. */
  lemma ResizedIdempotent<T>(v: seq<seq<T>>, n: nat, row: seq<T>)
    ensures Resized(Resized(v, n, row), n, row) == Resized(v, n, row)
  {
    ResizedUnique(Resized(v, n, row), n, row, Resized(v, n, row));
  }

  /** A rectangle of n rows of m elements each, all equal to dflt. */
  ghost predicate Filled<T>(v: seq<seq<T>>, n: nat, m: nat, dflt: T)
  {
    |v| == n && forall i :: 0 <= i < n ==> |v[i]| == m && forall j :: 0 <= j < m ==> v[i][j] == dflt
  }

  class DynamicMatrix<T> {
    var v: seq<seq<T>>

    /** A default-constructed vector is empty. */
    constructor()
      ensures v == []
    {
      v := [];
    }

    /** init(N, M): v.resize(N, std::vector<T>(M)). */
    method Init(n: nat, m: nat, dflt: T)
      modifies this
      ensures v == Resized(old(v), n, seq(m, _ => dflt))
    {
      v := Resized(v, n, seq(m, _ => dflt));
    }

    /** operator[](i): row i. */
    function Row(i: nat): (r: seq<T>)
      reads this
      requires i < |v|
      ensures r == v[i]
    {
      v[i]
    }
  }

  /** From an empty matrix init builds an n x m rectangle of default values. */
  lemma InitFromEmpty<T>(n: nat, m: nat, dflt: T)
    ensures Filled(Resized([], n, seq(m, _ => dflt)), n, m, dflt)
  {
  }

  /** After init of an empty matrix, operator[](i) is a row of m default values. */
  lemma RowAfterInit<T>(d: DynamicMatrix<T>, n: nat, m: nat, dflt: T, i: nat)
    requires d.v == Resized([], n, seq(m, _ => dflt)) && i < n
    ensures i < |d.v| && |d.Row(i)| == m
    ensures forall j :: 0 <= j < m ==> d.Row(i)[j] == dflt
  {
  }

  /** A second init of a rectangle to the same size changes nothing. */
  lemma InitAgainKeeps<T>(v: seq<seq<T>>, n: nat, m: nat, dflt: T)
    requires Filled(v, n, m, dflt)
    ensures Resized(v, n, seq(m, _ => dflt)) == v
  {
    ResizedUnique(v, n, seq(m, _ => dflt), v);
  }
}
