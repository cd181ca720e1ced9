/** The count-min sketch of pmu-refs/cmsk.cc with an arbitrary hash function. */
module CountMin {
  import opened Arith

  datatype Key = Key(addr: nat, pid: nat)

  const CMS_COUNT_MAX := 65535

  function Share(total: nat, unit: nat): nat
    requires unit > 0
  {
    total / unit
  }

  lemma ShareGrows(a: nat, b: nat, unit: nat)
    requires unit > 0 && a <= b
    ensures Share(a, unit) <= Share(b, unit)
  {
    var qa, qb := a / unit, b / unit;
    if qa > qb {
      MulAtLeast(qa - qb, unit);
      Distribute(qa, qb, unit);
      assert false;
    }
  }

  lemma ShareBracket(total: nat, unit: nat)
    requires unit > 0
    ensures Share(total, unit) * unit <= total < (Share(total, unit) + 1) * unit
  {
    Distribute(Share(total, unit), -1, unit);
  }

  lemma Scaled(n: nat, unit: nat, width: nat)
    requires width == 2 * unit
    ensures n * width == 2 * (n * unit)
  {
  }

  class Cms {
    const depth: nat
    const widthOrder: nat
    const width: nat
    /** One in so many samples is the expected error: 2^(widthOrder - 1). */
    const errorUnit: nat
    /** hash() of a key for one row. */
    const hash: (Key, nat) -> nat
    const matrix: array2<nat>
    var total: nat
    /** How often each key was counted, halved at each halving. */
    ghost var aged: Key -> nat
    /** The keys counted since the sketch was last cleared. */
    ghost var counted: set<Key>

    function Col(k: Key, i: nat): (w: nat)
      requires width > 0
      ensures w < width
    {
      hash(k, i) % width
    }

    ghost predicate Shape()
      reads this
    {
      && depth >= 1 && width > 0 && width == Pow2(widthOrder) && width == 2 * errorUnit
      && matrix.Length0 == depth && matrix.Length1 == width
    }

    /** A cell counts at least the samples of each key it stands for, and not more than all samples. */
    ghost predicate CellOk(i: nat, w: nat)
      requires Shape() && i < depth && w < width
      reads this, matrix
    {
      matrix[i, w] <= total && forall k: Key :: Col(k, i) == w ==> aged(k) <= matrix[i, w]
    }

    ghost predicate Valid()
      reads this, matrix
    {
      Shape() && total <= CMS_COUNT_MAX && forall i: nat, w: nat :: i < depth && w < width ==> CellOk(i, w)
    }

    /** No other key that was counted shares k's column in row i. */
    ghost predicate Alone(k: Key, i: nat)
      requires width > 0
      reads `counted
    {
      forall x :: x in counted && x != k ==> hash(x, i) % width != hash(k, i) % width
    }

    ghost predicate AloneExact(k: Key, i: nat)
      requires Shape() && i < depth
      reads this, matrix
    {
      Alone(k, i) ==> matrix[i, Col(k, i)] == aged(k)
    }

    /** Where a key shares its column with none, the cell counts it exactly. */
    ghost predicate Exact()
      reads this, matrix
    {
      Shape() && (forall k: Key, i: nat :: i < depth ==> AloneExact(k, i)) && forall x: Key :: x !in counted ==> aged(x) == 0
    }

    /** The sketch's estimate of a key: its smallest cell in the first d rows. */
    ghost function MinOf(k: Key, d: nat): (m: nat)
      requires Shape() && 1 <= d <= depth
      reads this, matrix
      ensures forall i: nat :: i < d ==> m <= matrix[i, Col(k, i)]
      ensures exists i: nat :: i < d && m == matrix[i, Col(k, i)]
    {
      var last := matrix[d - 1, Col(k, d - 1)];
      if d == 1 then last else if MinOf(k, d - 1) < last then MinOf(k, d - 1) else last
    }

    ghost function Estimate(k: Key): nat
      requires Shape()
      reads this, matrix
    {
      MinOf(k, depth)
    }

    constructor (depth: nat, widthOrder: nat, hash: (Key, nat) -> nat)
      requires depth >= 1 && widthOrder >= 1
      ensures Valid() && Exact() && total == 0 && fresh(matrix) && (forall k :: aged(k) == 0) && counted == {}
      ensures this.depth == depth && this.widthOrder == widthOrder && this.hash == hash
      ensures forall i: nat, w: nat :: i < depth && w < width ==> matrix[i, w] == 0
    {
      this.depth, this.widthOrder, this.hash := depth, widthOrder, hash;
      width := Pow2(widthOrder);
      errorUnit := Pow2(widthOrder - 1);
      matrix := new nat[depth, Pow2(widthOrder)]((i, j) => 0);
      total := 0;
      aged := k => 0;
      counted := {};
    }

    /** cms_error. */
    function Error(): nat
      requires errorUnit > 0
      reads `total
    {
      Share(total, errorUnit)
    }

    /** The expected error is what twice the samples come to a column. */
    lemma ErrorBracket()
      requires Valid()
      ensures Error() * width <= 2 * total < (Error() + 1) * width
    {
      ShareBracket(total, errorUnit);
      Scaled(Error(), errorUnit, width);
      Scaled(Error() + 1, errorUnit, width);
    }

    /** The cell of a row and what it becomes. */
    method Bump(i: nat, w: nat) returns (val: nat)
      requires Shape() && i < depth && w < width && matrix[i, w] < CMS_COUNT_MAX
      modifies matrix
      ensures val == matrix[i, w] == old(matrix[i, w]) + 1
      ensures forall i', w' :: 0 <= i' < depth && 0 <= w' < width && (i', w') != (i, w) ==> matrix[i', w'] == old(matrix[i', w'])
    {
      matrix[i, w] := (matrix[i, w] + 1) % (CMS_COUNT_MAX + 1);
      val := matrix[i, w];
    }

    /** The loop of cms_update: the smallest of the key's new cells, and the key's hash in the last row. */
    method UpdateCells(k: Key) returns (cmin: nat, h: nat)
      requires Valid() && total < CMS_COUNT_MAX
      modifies this`total, this`aged, matrix
      ensures Shape() && total == old(total) + 1 && h == Col(k, depth - 1)
      ensures forall i: nat, w: nat :: i < depth && w < width ==>
                matrix[i, w] == old(matrix[i, w]) + if w == Col(k, i) then 1 else 0
      ensures forall x :: aged(x) == old(aged)(x) + if x == k then 1 else 0
      ensures forall i: nat :: i < depth ==> cmin <= matrix[i, Col(k, i)]
      ensures exists i: nat :: i < depth && cmin == matrix[i, Col(k, i)]
    {
      cmin := CMS_COUNT_MAX;
      h := 0;
      var i := 0;
      while i < depth
        invariant i <= depth && Shape() && (i > 0 ==> h == Col(k, i - 1))
        invariant forall r: nat, w: nat :: r < depth && w < width ==>
                    matrix[r, w] == old(matrix[r, w]) + if r < i && w == Col(k, r) then 1 else 0
        invariant forall r: nat :: r < i ==> cmin <= matrix[r, Col(k, r)]
        invariant i > 0 ==> exists r: nat :: r < i && cmin == matrix[r, Col(k, r)]
        invariant i == 0 ==> cmin == CMS_COUNT_MAX
        invariant total == old(total) && aged == old(aged)
      {
        h := Col(k, i);
        assert old(CellOk(i, h));
        var val := Bump(i, h);
        if val < cmin {
          cmin := val;
          assert cmin == matrix[i, Col(k, i)];
        } else if i == 0 {
          assert cmin == matrix[i, Col(k, i)];
        }
        i := i + 1;
      }
      total := total + 1;
      ghost var was := aged;
      aged := x => if x == k then was(x) + 1 else was(x);
    }

    twostate lemma StaysExact(k: Key)
      requires old(Exact()) && Shape() && counted == old(counted) + {k}
      requires forall i: nat, w: nat :: i < depth && w < width ==>
                 matrix[i, w] == old(matrix[i, w]) + if w == Col(k, i) then 1 else 0
      requires forall x :: aged(x) == old(aged)(x) + if x == k then 1 else 0
      ensures Exact()
    {
      forall x: Key, i: nat | i < depth ensures AloneExact(x, i) {
        assert old(AloneExact(x, i));
        if Alone(x, i) && x != k {
          assert hash(k, i) % width != hash(x, i) % width;
        }
      }
    }

    /** cms_update: the sketch stays sound, and the result is the estimate. */
    method Update(k: Key) returns (cmin: nat, h: nat)
      requires Valid() && total < CMS_COUNT_MAX
      modifies this`total, this`aged, this`counted, matrix
      ensures counted == old(counted) + {k} && (old(Exact()) ==> Exact())
      ensures Valid() && total == old(total) + 1 && h == Col(k, depth - 1)
      ensures forall x: Key, i: nat :: i < depth ==>
                matrix[i, Col(x, i)] >= old(matrix[i, Col(x, i)]) + if x == k then 1 else 0
      ensures forall x :: aged(x) == old(aged)(x) + if x == k then 1 else 0
      ensures cmin == Estimate(k)
    {
      cmin, h := UpdateCells(k);
      counted := counted + {k};
      if old(Exact()) {
        StaysExact(k);
      }
      forall i: nat, w: nat | i < depth && w < width ensures CellOk(i, w) {
        assert old(CellOk(i, w));
        forall x: Key | Col(x, i) == w ensures aged(x) <= matrix[i, w] {
        }
      }
    }

    /** The estimate is never below the aged count. */
    lemma EstimateCovers(k: Key)
      requires Valid()
      ensures aged(k) <= Estimate(k) <= total
    {
      var i: nat :| i < depth && Estimate(k) == matrix[i, Col(k, i)];
      assert CellOk(i, Col(k, i));
    }

    /** A key that shares its column with no other in one of the rows is estimated exactly. */
    lemma AloneIsExact(k: Key, i: nat)
      requires Valid() && Exact() && i < depth
      requires forall x :: x in counted && x != k ==> hash(x, i) % width != hash(k, i) % width
      ensures Estimate(k) == aged(k)
    {
      EstimateCovers(k);
      assert AloneExact(k, i);
    }

    /** cms_clear. */
    method Clear()
      requires Valid()
      modifies this`total, this`aged, this`counted, matrix
      ensures Valid() && Exact() && total == 0 && (forall x :: aged(x) == 0) && counted == {}
    {
      for i := 0 to depth
        invariant forall r: nat, w: nat :: r < i && w < width ==> matrix[r, w] == 0
      {
        for j := 0 to width
          invariant forall r: nat, w: nat :: r < i && w < width ==> matrix[r, w] == 0
          invariant forall w: nat :: w < j ==> matrix[i, w] == 0
        {
          matrix[i, j] := 0;
        }
      }
      total := 0;
      aged := x => 0;
      counted := {};
      assert forall i: nat, w: nat :: i < depth && w < width ==> CellOk(i, w);
    }

    /** cms_age: halving keeps every estimate at or above the halved count. */
    method Age()
      requires Valid()
      modifies this`total, this`aged, matrix
      ensures Valid() && total == old(total) / 2 && forall x :: aged(x) == old(aged)(x) / 2
      ensures forall i: nat, w: nat :: i < depth && w < width ==> matrix[i, w] == old(matrix[i, w]) / 2
      ensures old(Exact()) ==> Exact()
    {
      for i := 0 to depth
        invariant total == old(total) && aged == old(aged)
        invariant forall r: nat, w: nat :: r < depth && w < width ==>
                    matrix[r, w] == if r < i then old(matrix[r, w]) / 2 else old(matrix[r, w])
      {
        for j := 0 to width
          invariant total == old(total) && aged == old(aged)
          invariant forall r: nat, w: nat :: r < depth && w < width ==>
                      matrix[r, w] == if r < i || (r == i && w < j) then old(matrix[r, w]) / 2 else old(matrix[r, w])
        {
          matrix[i, j] := matrix[i, j] / 2;
        }
      }
      total := total / 2;
      ghost var was := aged;
      aged := x => was(x) / 2;
      forall i: nat, w: nat | i < depth && w < width ensures CellOk(i, w) {
        assert old(CellOk(i, w));
      }
      if old(Exact()) {
        forall k: Key, i: nat | i < depth ensures AloneExact(k, i) {
          assert old(AloneExact(k, i));
        }
      }
    }
  }
}
